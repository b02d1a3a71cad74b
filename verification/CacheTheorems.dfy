/** What every run of the cache-aside protocol guarantees, and what it does not. */
module CacheTheorems {
  import opened Domain
  import opened CacheModel
  import opened StoreModel
  import opened CacheProtocol
  import opened Decimal

  /**
   * Bounded staleness.  Whatever Resolve returned, at gotAt, was the projection (up to the cache's
   * millisecond precision) of the link the repository really held in an earlier state of the run,
   * less than delay + TTL before gotAt.
   */
  lemma BoundedStaleness(cfg: Config, ss: seq<State>, es: seq<Event>, j: int, id: nat)
    requires IsRun(cfg, ss, es) && 0 <= j < |ss|
    requires id in ss[j].readers && ss[j].readers[id].Resolved?
    ensures var r := ss[j].readers[id];
      exists k :: 0 <= k <= j && CurrentOrTruncated(ss, k, r.code, r.mapping)
                  && ss[k].now <= r.gotAt <= ss[j].now
                  && r.gotAt <
                       ss[k].now + cfg.delay + if r.mapping.status == Active then cfg.activeTTL else cfg.inactiveTTL
  {
    Invariant(cfg, ss, es, j);
    assert InvAt(cfg, ss, j);
    var r := ss[j].readers[id];
    assert ReaderOk(cfg, ss, j, r);
    var k :| 0 <= k <= j && CurrentOrTruncated(ss, k, r.code, r.mapping)
             && ss[k].now <= r.gotAt < ss[k].now + cfg.Window(r.mapping.status);
  }

  /**
   * State k justifies the redirect: its destination and version are those of the link stored there,
   * which could redirect when the answer was given and was current within the active window.
   */
  ghost predicate Justifies(cfg: Config, ss: seq<State>, k: int, r: Redirect) {
    && 0 <= k < |ss| && r.code in ss[k].repo
    && ss[k].repo[r.code].destination == r.mapping.destination
    && ss[k].repo[r.code].version == r.mapping.version
    && ss[k].repo[r.code].status == Active
    && (ss[k].repo[r.code].expiresAt.Some? ==> r.at < ss[k].repo[r.code].expiresAt.value)
    && ss[k].now <= r.gotAt < ss[k].now + cfg.delay + cfg.activeTTL
  }

  /** Every redirect ever answered is justified by an earlier state of the run. */
  lemma RedirectsAreSound(cfg: Config, ss: seq<State>, es: seq<Event>, j: int, r: Redirect)
    requires IsRun(cfg, ss, es) && 0 <= j < |ss| && r in ss[j].redirects
    ensures exists k :: 0 <= k <= j && Justifies(cfg, ss, k, r)
  {
    Invariant(cfg, ss, es, j);
    assert RedirectOk(cfg, ss, j, r) by { assert InvAt(cfg, ss, j); }
    var k :| 0 <= k <= j && CurrentOrTruncated(ss, k, r.code, r.mapping)
             && ss[k].now <= r.gotAt < ss[k].now + cfg.Window(r.mapping.status);
    var l := ss[k].repo[r.code];
    assert LinksOk(cfg, ss[k]) by { assert InvAt(cfg, ss, k); }
    ProjectionFaithful(l, r.at);
    MayRedirect(r.mapping, r.at);
    TruncationIsConservative(RedirectMappingFromLink(l).value, r.at);
    assert Justifies(cfg, ss, k, r);
  }

  /** Deleted is for ever, and the clock never goes back. */
  lemma DeletedForEver(cfg: Config, ss: seq<State>, es: seq<Event>, d: int, k: int, code: string)
    requires IsRun(cfg, ss, es) && 0 <= d < |ss| && 0 <= k < |ss|
    requires code in ss[d].repo && ss[d].repo[code].status == Deleted
    ensures ss[d].now < ss[k].now ==> d < k
    ensures d <= k ==> code in ss[k].repo && ss[k].repo[code] == ss[d].repo[code]
  {
    Invariant(cfg, ss, es, if d <= k then k else d);
    if d <= k {
      assert Evolves(ss[d].repo[code], ss[k].repo[code]);
    }
  }

  /**
   * Deletion wins.  Once the link is deleted (state d), no redirect whose mapping was obtained
   * delay + activeTTL or more after that state ever succeeds, in the whole rest of the run.
   */
  lemma DeletionWins(cfg: Config, ss: seq<State>, es: seq<Event>, d: int, j: int, r: Redirect)
    requires IsRun(cfg, ss, es) && 0 <= d < |ss| && 0 <= j < |ss|
    requires r.code in ss[d].repo && ss[d].repo[r.code].status == Deleted
    requires ss[d].now + cfg.delay + cfg.activeTTL <= r.gotAt
    ensures r !in ss[j].redirects
  {
    if r in ss[j].redirects {
      RedirectsAreSound(cfg, ss, es, j, r);
      var k :| 0 <= k <= j && Justifies(cfg, ss, k, r);
      DeletedForEver(cfg, ss, es, d, k, r.code);
    }
  }

  /** The stored link of the code is the same in all states d..j. */
  ghost predicate Steady(ss: seq<State>, d: int, j: int, code: string) {
    && 0 <= d <= j < |ss| && code in ss[d].repo
    && forall i :: d <= i <= j ==> code in ss[i].repo && ss[i].repo[code] == ss[d].repo[code]
  }

  /**
   * Convergence.  Once a code's stored link has been left alone for delay plus the TTL of the mapping's
   * status, whatever Resolve returns is that link's projection, up to the cache's precision.
   */
  lemma Convergence(cfg: Config, ss: seq<State>, es: seq<Event>, d: int, j: int, id: nat)
    requires IsRun(cfg, ss, es) && 0 <= j < |ss|
    requires id in ss[j].readers && ss[j].readers[id].Resolved?
    requires Steady(ss, d, j, ss[j].readers[id].code)
    requires ss[d].now + cfg.delay + cfg.TTL(ss[j].readers[id].mapping.status) <= ss[j].readers[id].gotAt
    ensures CurrentOrTruncated(ss, d, ss[j].readers[id].code, ss[j].readers[id].mapping)
  {
    BoundedStaleness(cfg, ss, es, j, id);
    var r := ss[j].readers[id];
    var k :| 0 <= k <= j && CurrentOrTruncated(ss, k, r.code, r.mapping) && ss[k].now <= r.gotAt <= ss[j].now
             && r.gotAt < ss[k].now + cfg.delay + cfg.TTL(r.mapping.status);
    if k < d {
      Invariant(cfg, ss, es, d);
    }
    assert d <= k;
  }

  /**
   * A change takes effect.  A redirect obtained delay + activeTTL or more after the last change of the
   * code goes where the stored link points, and the stored link allows it.
   */
  lemma ChangeTakesEffect(cfg: Config, ss: seq<State>, es: seq<Event>, d: int, j: int, r: Redirect)
    requires IsRun(cfg, ss, es) && Steady(ss, d, j, r.code) && r in ss[j].redirects
    requires ss[d].now + cfg.delay + cfg.activeTTL <= r.gotAt
    ensures r.mapping.destination == ss[d].repo[r.code].destination
    ensures r.mapping.version == ss[d].repo[r.code].version && ss[d].repo[r.code].status == Active
    ensures ss[d].repo[r.code].expiresAt.Some? ==> r.at < ss[d].repo[r.code].expiresAt.value
  {
    RedirectsAreSound(cfg, ss, es, j, r);
    var k :| 0 <= k <= j && Justifies(cfg, ss, k, r);
    if k < d {
      Invariant(cfg, ss, es, d);
    }
    assert d <= k;
  }

  /** The code's link is active in every state from d to j. */
  ghost predicate ActiveThroughout(ss: seq<State>, d: int, j: int, code: string) {
    0 <= d <= j < |ss| && forall i :: d <= i <= j ==> code in ss[i].repo && ss[i].repo[code].status == Active
  }

  /**
   * Reactivation takes effect.  From delay + inactiveTTL after a reactivation on, and as long as the
   * link stays active, Resolve returns no disabled or deleted mapping of its code.
   */
  lemma ReactivationTakesEffect(cfg: Config, ss: seq<State>, es: seq<Event>, d: int, j: int, id: nat)
    requires IsRun(cfg, ss, es) && 0 <= j < |ss|
    requires id in ss[j].readers && ss[j].readers[id].Resolved?
    requires ActiveThroughout(ss, d, j, ss[j].readers[id].code)
    requires ss[d].now + cfg.delay + cfg.inactiveTTL <= ss[j].readers[id].gotAt
    ensures ss[j].readers[id].mapping.status == Active
  {
    BoundedStaleness(cfg, ss, es, j, id);
    var r := ss[j].readers[id];
    var k :| 0 <= k <= j && CurrentOrTruncated(ss, k, r.code, r.mapping) && ss[k].now <= r.gotAt <= ss[j].now
             && r.gotAt < ss[k].now + cfg.delay + if r.mapping.status == Active then cfg.activeTTL else cfg.inactiveTTL;
    TruncationIsConservative(RedirectMappingFromLink(ss[k].repo[r.code]).value, 0);
    if k < d {
      Invariant(cfg, ss, es, d);
    } else {
      assert ss[k].repo[r.code].status == Active;
    }
  }

  /**
   * Entity tags are strong validators: over a whole run two links of one code print the same tag
   * exactly when they are the same link.
   */
  lemma TagIdentifiesLink(cfg: Config, ss: seq<State>, es: seq<Event>, i: int, k: int, code: string)
    requires IsRun(cfg, ss, es) && 0 <= i < |ss| && 0 <= k < |ss|
    requires code in ss[i].repo && code in ss[k].repo
    ensures ETag(ss[i].repo[code].version) == ETag(ss[k].repo[code].version) <==> ss[i].repo[code] == ss[k].repo[code]
  {
    if ETag(ss[i].repo[code].version) == ETag(ss[k].repo[code].version) {
      ETagInjective(ss[i].repo[code].version, ss[k].repo[code].version);
      VersionDetermines(cfg, ss, es, i, k, code);
    }
  }

  // ---------------------------------------------------------------------------------------------
  // Coherence and residency
  // ---------------------------------------------------------------------------------------------

  /** A version number of a code names one link value, at whatever moments it was current. */
  lemma VersionDetermines(cfg: Config, ss: seq<State>, es: seq<Event>, i: int, k: int, code: string)
    requires IsRun(cfg, ss, es) && 0 <= i < |ss| && 0 <= k < |ss|
    requires code in ss[i].repo && code in ss[k].repo
    ensures ss[i].repo[code].version == ss[k].repo[code].version ==> ss[i].repo[code] == ss[k].repo[code]
    ensures i <= k ==> ss[i].repo[code].version <= ss[k].repo[code].version
  {
    var hi := if i <= k then k else i;
    Invariant(cfg, ss, es, hi);
    assert Grows(ss[i].repo, ss[hi].repo) && Grows(ss[k].repo, ss[hi].repo);
    assert Evolves(ss[i].repo[code], ss[hi].repo[code]);
    assert Evolves(ss[k].repo[code], ss[hi].repo[code]);
  }

  lemma CachedFormVersion(ss: seq<State>, k: int, code: string, m: RedirectMapping)
    requires CachedForm(ss, k, code, m)
    ensures ss[k].repo[code].version == m.version && ss[k].repo[code].status == m.status
  {
  }

  lemma EntryOrigin(cfg: Config, ss: seq<State>, es: seq<Event>, j: int, code: string) returns (k: int)
    requires IsRun(cfg, ss, es) && 0 <= j < |ss| && code in ss[j].cache
    ensures 0 <= k <= j && CachedForm(ss, k, code, ss[j].cache[code].mapping)
    ensures code in ss[j].repo
  {
    Invariant(cfg, ss, es, j);
    var entry := ss[j].cache[code];
    assert EntryOk(cfg, ss, j, code, entry) by {
      assert InvAt(cfg, ss, j);
    }
    k :| 0 <= k <= j && CachedForm(ss, k, code, entry.mapping);
    assert Grows(ss[k].repo, ss[j].repo);
  }

  /**
   * Cache coherence.  Every resident entry is the truncated projection of the one link that ever
   * carries its version, and that version does not run ahead of the repository.
   */
  lemma CacheCoherence(cfg: Config, ss: seq<State>, es: seq<Event>, j: int, code: string)
    requires IsRun(cfg, ss, es) && 0 <= j < |ss| && code in ss[j].cache
    ensures code in ss[j].repo && ss[j].cache[code].mapping.version <= ss[j].repo[code].version
    ensures exists k :: 0 <= k <= j && CachedForm(ss, k, code, ss[j].cache[code].mapping)
    ensures forall k ::
      0 <= k < |ss| && code in ss[k].repo && ss[k].repo[code].version == ss[j].cache[code].mapping.version ==>
        CachedForm(ss, k, code, ss[j].cache[code].mapping)
  {
    var w := EntryOrigin(cfg, ss, es, j, code);
    CachedFormVersion(ss, w, code, ss[j].cache[code].mapping);
    VersionDetermines(cfg, ss, es, w, j, code);
    forall k | 0 <= k < |ss| && code in ss[k].repo && ss[k].repo[code].version == ss[j].cache[code].mapping.version
      ensures CachedForm(ss, k, code, ss[j].cache[code].mapping)
    {
      VersionDetermines(cfg, ss, es, w, k, code);
    }
  }

  /** Two entries of one code with the same version are the same mapping, in any two states. */
  lemma EntriesAgree(cfg: Config, ss: seq<State>, es: seq<Event>, i: int, j: int, code: string)
    requires IsRun(cfg, ss, es) && 0 <= i < |ss| && 0 <= j < |ss|
    requires code in ss[i].cache && code in ss[j].cache
    requires ss[i].cache[code].mapping.version == ss[j].cache[code].mapping.version
    ensures ss[i].cache[code].mapping == ss[j].cache[code].mapping
  {
    CacheCoherence(cfg, ss, es, i, code);
    CacheCoherence(cfg, ss, es, j, code);
    var k :| 0 <= k <= i && CachedForm(ss, k, code, ss[i].cache[code].mapping);
    assert CachedForm(ss, k, code, ss[j].cache[code].mapping);
  }

  /** The key stays resident and unexpired in every state from i to j. */
  ghost predicate Resident(ss: seq<State>, i: int, j: int, code: string) {
    0 <= i <= j < |ss| && forall k :: i <= k <= j ==> Live(ss[k].cache, code, ss[k].now)
  }

  /**
   * Within one residency the cached version never decreases, and while it stays equal the whole
   * mapping stays equal; only the deadline may move.
   */
  lemma {:induction false} ResidencyIsMonotone(
    cfg: Config, ss: seq<State>, es: seq<Event>, i: int, j: int, code: string
  )
    requires IsRun(cfg, ss, es) && Resident(ss, i, j, code)
    ensures ss[i].cache[code].mapping.version <= ss[j].cache[code].mapping.version
    ensures ss[i].cache[code].mapping.version == ss[j].cache[code].mapping.version ==>
              ss[i].cache[code].mapping == ss[j].cache[code].mapping
    decreases j - i
  {
    if i < j {
      assert Live(ss[j - 1].cache, code, ss[j - 1].now) && Live(ss[j].cache, code, ss[j].now);
      ResidencyIsMonotone(cfg, ss, es, i, j - 1, code);
      CacheChange(cfg, ss[j - 1], es[j - 1], code);
    }
    EntriesAgreeIfEqual(cfg, ss, es, i, j, code);
  }

  lemma EntriesAgreeIfEqual(cfg: Config, ss: seq<State>, es: seq<Event>, i: int, j: int, code: string)
    requires IsRun(cfg, ss, es) && Resident(ss, i, j, code)
    ensures ss[i].cache[code].mapping.version == ss[j].cache[code].mapping.version ==>
              ss[i].cache[code].mapping == ss[j].cache[code].mapping
  {
    assert Live(ss[i].cache, code, ss[i].now) && Live(ss[j].cache, code, ss[j].now);
    if ss[i].cache[code].mapping.version == ss[j].cache[code].mapping.version {
      EntriesAgree(cfg, ss, es, i, j, code);
    }
  }

  /**
   * A mutation shows: once a put of some version has landed, every cache read of the code returns at
   * least that version for as long as the key stays resident.
   */
  lemma LandedVersionIsVisible(cfg: Config, ss: seq<State>, es: seq<Event>, i: int, j: int, code: string)
    requires IsRun(cfg, ss, es) && 0 <= i < |es| && Resident(ss, i + 1, j, code)
    requires es[i].Land? && es[i].put.mapping.code == code && Milliseconds(es[i].put.ttl) > 0
    ensures CacheGet(ss[j].cache, code, ss[j].now).Ok?
    ensures es[i].put.mapping.version <= CacheGet(ss[j].cache, code, ss[j].now).value.version
  {
    assert Live(ss[j].cache, code, ss[j].now);
    var p := es[i].put;
    assert ss[i + 1].cache == AfterPut(ss[i].cache, p.mapping, p.ttl, ss[i].now);
    PutKeepsNewest(ss[i].cache, p.mapping, p.ttl, ss[i].now);
    ResidencyIsMonotone(cfg, ss, es, i + 1, j, code);
  }

  /** A resident deleted entry stays exactly that entry for the rest of its residency. */
  lemma ResidentDeletionStays(cfg: Config, ss: seq<State>, es: seq<Event>, i: int, j: int, code: string)
    requires IsRun(cfg, ss, es) && Resident(ss, i, j, code)
    requires ss[i].cache[code].mapping.status == Deleted
    ensures ss[j].cache[code].mapping == ss[i].cache[code].mapping
  {
    assert Live(ss[i].cache, code, ss[i].now) && Live(ss[j].cache, code, ss[j].now);
    CacheCoherence(cfg, ss, es, i, code);
    CacheCoherence(cfg, ss, es, j, code);
    var m := ss[i].cache[code].mapping;
    var k :| 0 <= k <= i && CachedForm(ss, k, code, m);
    Invariant(cfg, ss, es, j);
    assert Evolves(ss[k].repo[code], ss[j].repo[code]);
    ResidencyIsMonotone(cfg, ss, es, i, j, code);
  }
}
