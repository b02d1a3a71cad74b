/** What clients see over whole runs: the answers of redirects, and whose requests change a link. */
module RequestTheorems {
  import opened Prelude
  import opened Domain
  import opened CacheModel
  import opened StoreModel
  import opened CacheProtocol
  import opened CacheTheorems
  import opened Serializability
  import opened UseCases

  // ---------------------------------------------------------------------------------------------
  // Redirects
  // ---------------------------------------------------------------------------------------------

  /** In state k a link of the code was stored that goes to d, may redirect at `at`, and was current in the window. */
  ghost predicate Backs(cfg: Config, ss: seq<State>, k: int, code: string, d: string, gotAt: Time, at: Time) {
    && 0 <= k < |ss| && code in ss[k].repo
    && ss[k].repo[code].destination == d && ss[k].repo[code].status == Active
    && (ss[k].repo[code].expiresAt.Some? ==> at < ss[k].repo[code].expiresAt.value)
    && ss[k].now <= gotAt < ss[k].now + cfg.delay + cfg.activeTTL
  }

  /**
   * Every destination a client is ever sent to was that of a stored link of the code, active, not
   * expired when the answer is given, and current within the active window.
   */
  lemma AnswersAreSound(cfg: Config, ss: seq<State>, es: seq<Event>, j: int, id: nat, d: string)
    requires IsRun(cfg, ss, es) && 0 <= j < |ss|
    requires id in ss[j].readers && ss[j].readers[id].Resolved?
    requires RedirectAnswer(Ok(ss[j].readers[id].mapping), ss[j].now) == Ok(d)
    ensures exists k :: 0 <= k <= j && Backs(cfg, ss, k, ss[j].readers[id].code, d, ss[j].readers[id].gotAt, ss[j].now)
  {
    var r := ss[j].readers[id];
    BoundedStaleness(cfg, ss, es, j, id);
    var k :| 0 <= k <= j && CurrentOrTruncated(ss, k, r.code, r.mapping) && ss[k].now <= r.gotAt <= ss[j].now
             && r.gotAt < ss[k].now + cfg.delay + if r.mapping.status == Active then cfg.activeTTL else cfg.inactiveTTL;
    AnswerIsExact(Ok(r.mapping), ss[j].now);
    LinkOfMapping(cfg, ss, es, j, k, r.code, r.mapping);
    assert Backs(cfg, ss, k, r.code, d, r.gotAt, ss[j].now);
  }

  /** How a mapping obtained from the stored link of state k relates to it. */
  lemma LinkOfMapping(cfg: Config, ss: seq<State>, es: seq<Event>, j: int, k: int, code: string, m: RedirectMapping)
    requires IsRun(cfg, ss, es) && 0 <= k <= j < |ss| && CurrentOrTruncated(ss, k, code, m)
    ensures var l := ss[k].repo[code];
      && m.destination == l.destination && m.status == l.status && (m.expiresAt.Some? <==> l.expiresAt.Some?)
      && (l.expiresAt.Some? ==> 0 <= l.expiresAt.value - m.expiresAt.value < 1_000_000)
  {
    Invariant(cfg, ss, es, j);
    assert LinksOk(cfg, ss[k]) by { assert InvAt(cfg, ss, k); }
    ProjectionFaithful(ss[k].repo[code], 0);
    TruncationIsConservative(RedirectMappingFromLink(ss[k].repo[code]).value, 0);
  }

  /**
   * Once a code's stored link has been left alone for the window, the answer is decided by that link:
   * its destination while it is active and at least a millisecond from its expiration, and
   * unavailable once it is disabled, deleted or expired.
   */
  lemma SettledAnswers(cfg: Config, ss: seq<State>, es: seq<Event>, d: int, j: int, id: nat)
    requires IsRun(cfg, ss, es) && 0 <= j < |ss|
    requires id in ss[j].readers && ss[j].readers[id].Resolved?
    requires Steady(ss, d, j, ss[j].readers[id].code)
    requires ss[d].now + cfg.delay + cfg.activeTTL <= ss[j].readers[id].gotAt
    requires ss[d].now + cfg.delay + cfg.inactiveTTL <= ss[j].readers[id].gotAt
    ensures var l := ss[d].repo[ss[j].readers[id].code];
      var answer := RedirectAnswer(Ok(ss[j].readers[id].mapping), ss[j].now);
      && (l.status == Active && (l.expiresAt.Some? ==> ss[j].now + 1_000_000 <= l.expiresAt.value) ==>
            answer == Ok(l.destination))
      && (l.status != Active || (l.expiresAt.Some? && l.expiresAt.value <= ss[j].now) ==>
            answer == Err(LinkUnavailable))
  {
    var r := ss[j].readers[id];
    TTLClamp(r.mapping, ss[j].now, cfg.activeTTL, cfg.inactiveTTL);
    Convergence(cfg, ss, es, d, j, id);
    LinkOfMapping(cfg, ss, es, j, d, r.code, r.mapping);
    AnswerIsExact(Ok(r.mapping), ss[j].now);
    Invariant(cfg, ss, es, j);
    assert ss[j].now > 0 by { assert InvAt(cfg, ss, j); }
  }

  /** Deletion wins, as clients see it: from the window's end on, a deleted link is answered as unavailable. */
  lemma DeletedIsUnavailable(cfg: Config, ss: seq<State>, es: seq<Event>, d: int, j: int, id: nat)
    requires IsRun(cfg, ss, es) && 0 <= d < |ss| && 0 <= j < |ss|
    requires id in ss[j].readers && ss[j].readers[id].Resolved?
    requires ss[j].readers[id].code in ss[d].repo && ss[d].repo[ss[j].readers[id].code].status == Deleted
    requires ss[d].now + cfg.delay + cfg.activeTTL <= ss[j].readers[id].gotAt
    ensures RedirectAnswer(Ok(ss[j].readers[id].mapping), ss[j].now) == Err(LinkUnavailable)
  {
    var r := ss[j].readers[id];
    var answer := RedirectAnswer(Ok(r.mapping), ss[j].now);
    AnswerIsExact(Ok(r.mapping), ss[j].now);
    if answer.Ok? {
      AnswersAreSound(cfg, ss, es, j, id, answer.value);
      var k :| 0 <= k <= j && Backs(cfg, ss, k, r.code, answer.value, r.gotAt, ss[j].now);
      DeletedForEver(cfg, ss, es, d, k, r.code);
    }
  }

  // ---------------------------------------------------------------------------------------------
  // Changes
  // ---------------------------------------------------------------------------------------------

  /** Event i is the request that put this link, change and version into the mutator's hands. */
  ghost predicate AskedBy(e: Event, id: nat, link: Link, change: Change, expected: nat) {
    && e.FindForChange? && e.id == id && e.change == change && e.expected == expected
    && TrimSpace(e.code) == link.code && TrimSpace(e.ownerID) == link.ownerID
  }

  /** A mutator keeps what it holds, changes it locally, or gets it from a request. */
  lemma HoldsSince(cfg: Config, s: State, e: Event, id: nat)
    requires Enabled(cfg, s, e) && id in Next(cfg, s, e).mutators
    requires Next(cfg, s, e).mutators[id].Holding? || Next(cfg, s, e).mutators[id].Changed?
    ensures var m := Next(cfg, s, e).mutators[id];
      || (id in s.mutators && m == s.mutators[id])
      || (m.Holding? && e.FindForChange? && e.id == id && id !in s.mutators)
      || (m.Changed? && id in s.mutators && s.mutators[id].Holding? && m.change == s.mutators[id].change
          && m.expected == s.mutators[id].expected && m.link.code == s.mutators[id].link.code
          && m.link.ownerID == s.mutators[id].link.ownerID)
  {
    MutatorChange(cfg, s, e, id);
    var m := Next(cfg, s, e).mutators[id];
    if m.Changed? && !(id in s.mutators && m == s.mutators[id]) {
      ChangeDoes(s.mutators[id].link, m.change, s.now);
    }
  }

  /** What a mutator holds goes back to a request of the link's owner. */
  lemma {:induction false} MutatorWasAsked(cfg: Config, ss: seq<State>, es: seq<Event>, j: int, id: nat)
    returns (i: int)
    requires IsRun(cfg, ss, es) && 0 <= j < |ss| && id in ss[j].mutators
    requires ss[j].mutators[id].Holding? || ss[j].mutators[id].Changed?
    ensures var m := ss[j].mutators[id]; 0 <= i < j && AskedBy(es[i], id, m.link, m.change, m.expected)
  {
    assert j > 0;
    i := j - 1;
    assert Enabled(cfg, ss[i], es[i]) && ss[j] == Next(cfg, ss[i], es[i]);
    HoldsSince(cfg, ss[i], es[i], id);
    if id in ss[i].mutators {
      i := MutatorWasAsked(cfg, ss, es, i, id);
    } else {
      AdmissionAsks(cfg, ss, es, i, id);
    }
  }

  lemma AdmissionAsks(cfg: Config, ss: seq<State>, es: seq<Event>, i: int, id: nat)
    requires IsRun(cfg, ss, es) && 0 <= i < |es|
    requires id in ss[i + 1].mutators && ss[i + 1].mutators[id].Holding?
    requires es[i].FindForChange? && es[i].id == id
    ensures var m := ss[i + 1].mutators[id]; AskedBy(es[i], id, m.link, m.change, m.expected)
  {
    var s, e := ss[i], es[i];
    assert Enabled(cfg, s, e) && ss[i + 1] == Next(cfg, s, e);
    AdmitIsExact(s.repo, e.code, e.ownerID, e.expected, ss[i + 1].mutators[id].link);
    Invariant(cfg, ss, es, i);
    assert LinksOk(cfg, s) by { assert InvAt(cfg, ss, i); }
  }

  /** m is l with exactly the requested change made, stamped later, one version on. */
  ghost predicate Fulfils(l: Link, change: Change, m: Link) {
    && m.code == l.code && m.ownerID == l.ownerID && m.createdAt == l.createdAt
    && m.version == l.version + 1 && l.updatedAt < m.updatedAt
    && m.status == (if change.ToStatus? then change.status else l.status)
    && m.destination == (if change.ToDestination? then change.destination else l.destination)
    && m.expiresAt == (if change.ToExpiration? then change.expiresAt else l.expiresAt)
  }

  /**
   * Whatever happens to a stored link was asked for by its owner: a request of the stored owner for
   * this code, made against the version that the change replaces, and carried out to the letter.
   */
  lemma OnlyOwnersChange(cfg: Config, ss: seq<State>, es: seq<Event>, j: int, code: string) returns (i: int)
    requires IsRun(cfg, ss, es) && 0 <= j < |es|
    requires code in ss[j].repo && (code in ss[j + 1].repo ==> ss[j + 1].repo[code] != ss[j].repo[code])
    ensures code in ss[j + 1].repo && es[j].Commit?
    ensures 0 <= i < j && es[i].FindForChange? && es[i].id == es[j].id
    ensures TrimSpace(es[i].code) == code && TrimSpace(es[i].ownerID) == ss[j].repo[code].ownerID
    ensures es[i].expected == ss[j].repo[code].version
    ensures Fulfils(ss[j].repo[code], es[i].change, ss[j + 1].repo[code])
  {
    CodeStep(cfg, ss, es, j, code);
    var m := ss[j].mutators[es[j].id];
    i := MutatorWasAsked(cfg, ss, es, j, es[j].id);
    ChangeDoes(ss[j].repo[code], m.change, m.clock);
  }
}
