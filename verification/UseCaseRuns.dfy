/** The redirect and change use cases, run without interference, are runs of the protocol's events. */
module UseCaseRuns {
  import opened Prelude
  import opened Domain
  import opened CacheModel
  import opened CacheProtocol
  import opened RedisCache
  import opened RedisRefinement
  import UseCases
  import StoreModel

  /** The events lead from s to s' one after another. */
  ghost predicate Leads(cfg: Config, s: State, es: seq<Event>, s': State) {
    exists ss :: Segment(cfg, ss, es) && ss[0] == s && ss[|es|] == s'
  }

  lemma Append(cfg: Config, s: State, es: seq<Event>, s1: State, e: Event)
    requires Leads(cfg, s, es, s1) && Enabled(cfg, s1, e)
    ensures Leads(cfg, s, es + [e], Next(cfg, s1, e))
  {
    var ss :| Segment(cfg, ss, es) && ss[0] == s && ss[|es|] == s1;
    var ts := ss + [Next(cfg, s1, e)];
    assert Segment(cfg, ts, es + [e]) && ts[0] == s && ts[|es + [e]|] == Next(cfg, s1, e);
  }

  lemma Start(cfg: Config, s: State)
    ensures Leads(cfg, s, [], s)
  {
    assert Segment(cfg, [s], []);
  }

  /** The cache hit: one event, and the decoded entry is the answer. */
  lemma HitIsARun(cfg: Config, s: State, id: nat, code: string, parse: UrlParser, keys: Keys)
    requires id !in s.readers && Represents(parse, keys, s.cache)
    requires Lookup(parse, keys, code, s.now).Ok?
    ensures Leads(cfg, s, [CacheHit(id, code)],
      s.(readers := s.readers[id := Resolved(code, Lookup(parse, keys, code, s.now).value, s.now)]))
  {
    LookupRefinesGet(parse, keys, s.cache, code, s.now);
    Start(cfg, s);
    Append(cfg, s, [], s, CacheHit(id, code));
    assert [] + [CacheHit(id, code)] == [CacheHit(id, code)];
  }

  /** A miss or a cache failure, then a source that fails or has no mapping: the request ends unanswered. */
  lemma FailedReadIsARun(cfg: Config, s: State, id: nat, code: string, ctxDone: bool)
    requires id !in s.readers && (ctxDone || UseCases.SourceResolve(s.repo, code).Err?)
    ensures Leads(cfg, s, [CacheMiss(id, code), if ctxDone then SourceFails(id) else SourceRead(id)], s)
  {
    var s1 := s.(readers := s.readers[id := Missed(code)]);
    var read := if ctxDone then SourceFails(id) else SourceRead(id);
    Start(cfg, s);
    Append(cfg, s, [], s, CacheMiss(id, code));
    assert [] + [CacheMiss(id, code)] == [CacheMiss(id, code)];
    Append(cfg, s, [CacheMiss(id, code)], s1, read);
    assert s1.readers - {id} == s.readers;
    assert [CacheMiss(id, code)] + [read] == [CacheMiss(id, code), read];
  }

  /** A miss or a cache failure, then a source read. */
  lemma MissReads(cfg: Config, s: State, id: nat, code: string, m: RedirectMapping)
    requires id !in s.readers && UseCases.SourceResolve(s.repo, code) == Ok(m)
    ensures Leads(cfg, s, [CacheMiss(id, code), SourceRead(id)],
      s.(readers := s.readers[id := Sourced(code, m, s.now)]))
  {
    var s1 := s.(readers := s.readers[id := Missed(code)]);
    var s2 := s.(readers := s.readers[id := Sourced(code, m, s.now)]);
    Start(cfg, s);
    Append(cfg, s, [], s, CacheMiss(id, code));
    assert [] + [CacheMiss(id, code)] == [CacheMiss(id, code)];
    Append(cfg, s, [CacheMiss(id, code)], s1, SourceRead(id));
    assert s1.readers[id := Sourced(code, m, s.now)] == s2.readers;
    assert [CacheMiss(id, code)] + [SourceRead(id)] == [CacheMiss(id, code), SourceRead(id)];
  }

  /** After them, the issue of the fill. */
  lemma MissIssuesFill(cfg: Config, s: State, id: nat, code: string, m: RedirectMapping)
    requires id !in s.readers && UseCases.SourceResolve(s.repo, code) == Ok(m)
    ensures Leads(cfg, s, [CacheMiss(id, code), SourceRead(id), IssueFill(id)],
      s.(readers := s.readers[id := Resolved(code, m, s.now)], puts := Issue(cfg, s, m, s.now)))
  {
    var s2 := s.(readers := s.readers[id := Sourced(code, m, s.now)]);
    MissReads(cfg, s, id, code, m);
    Append(cfg, s, [CacheMiss(id, code), SourceRead(id)], s2, IssueFill(id));
    assert s2.readers[id := Resolved(code, m, s.now)] == s.readers[id := Resolved(code, m, s.now)];
    assert [CacheMiss(id, code), SourceRead(id)] + [IssueFill(id)]
        == [CacheMiss(id, code), SourceRead(id), IssueFill(id)];
  }

  /**
   * A put delivered at once, whether or not its reply arrives; a lost one, and one that is not tried
   * because the mapping has expired, needs no event.  The keys written by the adapter represent the
   * cache of the protocol.
   */
  lemma Delivery(
    cfg: Config, s: State, es: seq<Event>, s1: State, m: RedirectMapping, parse: UrlParser, keys: Keys, net: Net
  ) returns (fs: seq<Event>, end: State)
    requires cfg.Valid() && Leads(cfg, s, es, s1) && s1.puts == Issue(cfg, s1.(puts := s.puts), m, s1.now)
    requires Represents(parse, keys, s1.cache) && Encodable(parse, m)
    ensures Leads(cfg, s, fs, end) && end == s1.(cache := end.cache)
    ensures var ttl := RedirectCacheTTL(m, s1.now, cfg.activeTTL, cfg.inactiveTTL);
      if net == RequestLost || ttl.None? then fs == es && Represents(parse, keys, end.cache)
      else fs == es + [Land(Put(m, ttl.value, s1.now))]
           && Represents(parse, PutKeys(keys, m, ttl.value, s1.now), end.cache)
  {
    var ttl := RedirectCacheTTL(m, s1.now, cfg.activeTTL, cfg.inactiveTTL);
    fs, end := es, s1;
    if net != RequestLost && ttl.Some? {
      var put := Put(m, ttl.value, s1.now);
      assert put in s1.puts;
      Append(cfg, s, es, s1, Land(put));
      PutKeysRefines(parse, keys, s1.cache, m, ttl.value, s1.now);
      fs, end := es + [Land(put)], Next(cfg, s1, Land(put));
    }
  }

  /**
   * Every Resolve that reaches the source performs a miss, a source read, the issue of a fill and, if
   * its put is tried and reaches the cache, one landing; it ends with the source's answer in hand, and
   * with the keys that the adapter leaves representing the protocol's cache.
   */
  lemma ResolveIsARun(cfg: Config, s: State, id: nat, code: string, parse: UrlParser, keys: Keys, putNet: Net)
    returns (es: seq<Event>, end: State)
    requires cfg.Valid() && id !in s.readers && Represents(parse, keys, s.cache)
    requires UseCases.SourceResolve(s.repo, code).Ok?
    requires Encodable(parse, UseCases.SourceResolve(s.repo, code).value)
    ensures var m := UseCases.SourceResolve(s.repo, code).value;
      && Leads(cfg, s, es, end) && end.readers == s.readers[id := Resolved(code, m, s.now)]
      && end.repo == s.repo && end.mutators == s.mutators && end.redirects == s.redirects
    ensures var m := UseCases.SourceResolve(s.repo, code).value;
      var ttl := RedirectCacheTTL(m, s.now, cfg.activeTTL, cfg.inactiveTTL);
      var issued := [CacheMiss(id, code), SourceRead(id), IssueFill(id)];
      if putNet == RequestLost || ttl.None? then es == issued && Represents(parse, keys, end.cache)
      else es == issued + [Land(Put(m, ttl.value, s.now))]
           && Represents(parse, PutKeys(keys, m, ttl.value, s.now), end.cache)
  {
    var m := UseCases.SourceResolve(s.repo, code).value;
    MissIssuesFill(cfg, s, id, code, m);
    var s1 := s.(readers := s.readers[id := Resolved(code, m, s.now)], puts := Issue(cfg, s, m, s.now));
    es, end := Delivery(cfg, s, [CacheMiss(id, code), SourceRead(id), IssueFill(id)], s1, m, parse, keys, putNet);
  }

  /** The redirects answered once RedirectLink has checked what Resolve gave it. */
  function Answered(redirects: set<Redirect>, code: string, m: RedirectMapping, gotAt: Time, now: Time): set<Redirect> {
    if UseCases.RedirectAnswer(Ok(m), now) == Ok(m.destination) then redirects + {Redirect(code, m, gotAt, now)}
    else redirects
  }

  /** With Resolve's answer in hand, RedirectLink's last check is one more event, whatever the time then. */
  lemma AnswerIsARun(
    cfg: Config, s: State, es: seq<Event>, s1: State, id: nat, code: string, m: RedirectMapping, gotAt: Time
  )
    requires Leads(cfg, s, es, s1) && id !in s.readers
    requires s1.readers == s.readers[id := Resolved(code, m, gotAt)]
    ensures Leads(cfg, s, es + [Respond(id)],
      s1.(readers := s.readers, redirects := Answered(s1.redirects, code, m, gotAt, s1.now)))
  {
    Append(cfg, s, es, s1, Respond(id));
    assert s1.readers - {id} == s.readers;
  }

  /** A mutator after its local change. */
  function AfterChange(l: Link, change: Change, expected: nat, now: Time): Mutator {
    var outcome := ApplyChange(l, change, now);
    if outcome.Ok? then Changed(outcome.value, change, expected, now) else Finished
  }

  /** Find and local change. */
  lemma ChangePrepares(
    cfg: Config, s: State, id: nat, code: string, ownerID: string, expected: nat, change: Change, base: Link
  )
    requires id !in s.mutators && StoreModel.Admit(s.repo, code, ownerID, expected) == Ok(base)
    ensures Leads(cfg, s, [FindForChange(id, code, ownerID, expected, change), ChangeLocally(id)],
      s.(mutators := s.mutators[id := AfterChange(base, change, expected, s.now)]))
  {
    var find := FindForChange(id, code, ownerID, expected, change);
    var next := AfterChange(base, change, expected, s.now);
    var s1 := s.(mutators := s.mutators[id := Holding(base, change, expected)]);
    Start(cfg, s);
    Append(cfg, s, [], s, find);
    assert [] + [find] == [find];
    Append(cfg, s, [find], s1, ChangeLocally(id));
    assert s1.mutators[id := next] == s.mutators[id := next];
    assert [find] + [ChangeLocally(id)] == [find, ChangeLocally(id)];
  }

  lemma CommitSucceeds(
    cfg: Config, s: State, s2: State, id: nat, base: Link, link: Link, change: Change, expected: nat
  )
    requires base.code in s.repo && s.repo[base.code] == base && base.version == expected
    requires ApplyChange(base, change, s.now) == Ok(link)
    requires s2 == s.(mutators := s.mutators[id := Changed(link, change, expected, s.now)])
    ensures Enabled(cfg, s2, Commit(id))
    ensures Next(cfg, s2, Commit(id)) ==
      s.(repo := s.repo[link.code := link], mutators := s.mutators[id := Committed(link, s.now)])
  {
    assert link.code == base.code;
    assert s2.mutators[id := Committed(link, s.now)] == s.mutators[id := Committed(link, s.now)];
  }

  /** The code under which a request is admitted is the link's own. */
  lemma AdmittedCode(links: StoreModel.Links, code: string, ownerID: string, expected: nat, base: Link)
    requires StoreModel.Admit(links, code, ownerID, expected) == Ok(base)
    requires forall c :: c in links ==> links[c].code == c
    ensures base.code in links && links[base.code] == base && base.version == expected
  {
  }

  /** Find, local change and commit: the changed link is stored. */
  lemma ChangeCommits(
    cfg: Config, s: State, id: nat, code: string, ownerID: string, expected: nat, change: Change, base: Link, link: Link
  )
    requires id !in s.mutators && forall c :: c in s.repo ==> s.repo[c].code == c
    requires StoreModel.Admit(s.repo, code, ownerID, expected) == Ok(base)
    requires ApplyChange(base, change, s.now) == Ok(link)
    ensures Leads(cfg, s, [FindForChange(id, code, ownerID, expected, change), ChangeLocally(id), Commit(id)],
      s.(repo := s.repo[link.code := link], mutators := s.mutators[id := Committed(link, s.now)]))
  {
    var find := FindForChange(id, code, ownerID, expected, change);
    var s2 := s.(mutators := s.mutators[id := Changed(link, change, expected, s.now)]);
    ChangePrepares(cfg, s, id, code, ownerID, expected, change, base);
    AdmittedCode(s.repo, code, ownerID, expected, base);
    CommitSucceeds(cfg, s, s2, id, base, link, change, expected);
    Append(cfg, s, [find, ChangeLocally(id)], s2, Commit(id));
    assert [find, ChangeLocally(id)] + [Commit(id)] == [find, ChangeLocally(id), Commit(id)];
  }

  lemma RefreshIssues(cfg: Config, s: State, es: seq<Event>, s3: State, id: nat, link: Link, m: RedirectMapping)
    requires Leads(cfg, s, es, s3) && id in s3.mutators && s3.mutators[id] == Committed(link, s3.now)
    requires RedirectMappingFromLink(link) == Ok(m)
    ensures Leads(cfg, s, es + [IssueRefresh(id)],
      s3.(mutators := s3.mutators[id := Finished], puts := Issue(cfg, s3, m, s3.now)))
  {
    Append(cfg, s, es, s3, IssueRefresh(id));
  }

  /** The events of a successful change: a landing follows if the refresh is tried and reaches the cache. */
  ghost predicate RefreshedRun(
    cfg: Config, es: seq<Event>, find: Event, id: nat, link: Link, now: Time, net: Net
  ) {
    var m := RedirectMapping(link.code, link.destination, link.status, link.expiresAt, link.version);
    var ttl := RedirectCacheTTL(m, now, cfg.activeTTL, cfg.inactiveTTL);
    var issued := [find, ChangeLocally(id), Commit(id), IssueRefresh(id)];
    es == if net == RequestLost || ttl.None? then issued else issued + [Land(Put(m, ttl.value, now))]
  }

  /** The state once the refresh of a committed change has been issued. */
  function Refreshing(cfg: Config, s: State, id: nat, link: Link, m: RedirectMapping): State {
    var s3 := s.(repo := s.repo[link.code := link]);
    s3.(mutators := s.mutators[id := Finished], puts := Issue(cfg, s3, m, s.now))
  }

  lemma ChangeRefreshes(
    cfg: Config, s: State, id: nat, code: string, ownerID: string, expected: nat, change: Change, base: Link,
    link: Link, m: RedirectMapping
  )
    requires id !in s.mutators && forall c :: c in s.repo ==> s.repo[c].code == c
    requires StoreModel.Admit(s.repo, code, ownerID, expected) == Ok(base)
    requires ApplyChange(base, change, s.now) == Ok(link) && RedirectMappingFromLink(link) == Ok(m)
    ensures Leads(
      cfg, s, [FindForChange(id, code, ownerID, expected, change), ChangeLocally(id), Commit(id), IssueRefresh(id)],
      Refreshing(cfg, s, id, link, m))
  {
    var done := [FindForChange(id, code, ownerID, expected, change), ChangeLocally(id), Commit(id)];
    var s3 := s.(repo := s.repo[link.code := link], mutators := s.mutators[id := Committed(link, s.now)]);
    ChangeCommits(cfg, s, id, code, ownerID, expected, change, base, link);
    RefreshIssues(cfg, s, done, s3, id, link, m);
    assert s3.mutators[id := Finished] == s.mutators[id := Finished];
    assert s3.(mutators := s3.mutators[id := Finished], puts := Issue(cfg, s3, m, s3.now))
        == Refreshing(cfg, s, id, link, m);
    assert done + [IssueRefresh(id)]
        == [FindForChange(id, code, ownerID, expected, change), ChangeLocally(id), Commit(id), IssueRefresh(id)];
  }

  /** Everything of a successful change: find, local change, commit, the issue of a refresh, its landing. */
  lemma SuccessIsARun(
    cfg: Config, s: State, id: nat, code: string, ownerID: string, expected: nat, change: Change, base: Link,
    link: Link, parse: UrlParser, keys: Keys, net: Net
  ) returns (es: seq<Event>, end: State)
    requires cfg.Valid() && id !in s.mutators && forall c :: c in s.repo ==> s.repo[c].code == c
    requires StoreModel.Admit(s.repo, code, ownerID, expected) == Ok(base) && Represents(parse, keys, s.cache)
    requires ApplyChange(base, change, s.now) == Ok(link) && link.Valid() && GoodLink(parse, link)
    ensures Leads(cfg, s, es, end)
    ensures RefreshedRun(cfg, es, FindForChange(id, code, ownerID, expected, change), id, link, s.now, net)
    ensures end.repo == s.repo[link.code := link] && end.mutators == s.mutators[id := Finished]
    ensures end.readers == s.readers && end.redirects == s.redirects
    ensures Represents(
      parse, UseCases.RefreshedKeys(keys, link, cfg.activeTTL, cfg.inactiveTTL, s.now, net, s.now), end.cache)
  {
    ProjectionFaithful(link, 0);
    GoodProjects(parse, link);
    var m := RedirectMappingFromLink(link).value;
    ChangeRefreshes(cfg, s, id, code, ownerID, expected, change, base, link, m);
    UseCases.RefreshWrites(keys, link, cfg.activeTTL, cfg.inactiveTTL, s.now, net, s.now);
    es, end := Delivery(
      cfg, s, [FindForChange(id, code, ownerID, expected, change), ChangeLocally(id), Commit(id), IssueRefresh(id)],
      Refreshing(cfg, s, id, link, m), m, parse, keys, net);
  }

  /**
   * An admitted change performs find and local change.  A refused one ends there with nothing stored;
   * a successful one goes on to commit, issue of a refresh and its landing if it lands, and ends with the
   * changed link stored and with the keys that the adapter leaves representing the protocol's cache.
   */
  lemma ChangeIsARun(
    cfg: Config, s: State, id: nat, code: string, ownerID: string, expected: nat, change: Change, base: Link,
    parse: UrlParser, keys: Keys, net: Net
  ) returns (es: seq<Event>, end: State)
    requires cfg.Valid() && id !in s.mutators && forall c :: c in s.repo ==> s.repo[c].code == c
    requires StoreModel.Admit(s.repo, code, ownerID, expected) == Ok(base) && Represents(parse, keys, s.cache)
    requires ApplyChange(base, change, s.now).Ok? ==>
      ApplyChange(base, change, s.now).value.Valid() && GoodLink(parse, ApplyChange(base, change, s.now).value)
    ensures Leads(cfg, s, es, end) && end.mutators == s.mutators[id := Finished]
    ensures match ApplyChange(base, change, s.now)
      case Err(_) =>
        && es == [FindForChange(id, code, ownerID, expected, change), ChangeLocally(id)]
        && end == s.(mutators := end.mutators)
      case Ok(link) =>
        && RefreshedRun(cfg, es, FindForChange(id, code, ownerID, expected, change), id, link, s.now, net)
        && end.repo == s.repo[link.code := link] && end.readers == s.readers && end.redirects == s.redirects
        && Represents(
             parse, UseCases.RefreshedKeys(keys, link, cfg.activeTTL, cfg.inactiveTTL, s.now, net, s.now), end.cache)
  {
    var changed := ApplyChange(base, change, s.now);
    if changed.Ok? {
      es, end := SuccessIsARun(
        cfg, s, id, code, ownerID, expected, change, base, changed.value, parse, keys, net);
    } else {
      ChangePrepares(cfg, s, id, code, ownerID, expected, change, base);
      es := [FindForChange(id, code, ownerID, expected, change), ChangeLocally(id)];
      end := s.(mutators := s.mutators[id := Finished]);
    }
  }

  /** What the use cases hand to the protocol meets the assumption on requests. */
  lemma RequestsAreRequestable(
    parse: UrlParser, request: UseCases.Request, id: nat, code: string, ownerID: string, expected: nat,
    raw: string, createdAt: Time, expiresAt: Option<Time>
  )
    requires request.ChangeExpiration? ==> InRange(request.expiresAt)
    requires InRange(expiresAt)
    ensures UseCases.Requested(parse, request).Ok? ==>
      Requestable(parse, FindForChange(id, code, ownerID, expected, UseCases.Requested(parse, request).value))
    ensures parse(raw).Ok? ==> Requestable(parse, Create(code, parse(raw).value, ownerID, createdAt, expiresAt))
  {
    if parse(raw).Ok? {
      assert IsParsed(parse, parse(raw).value);
    }
    if request.ChangeDestination? && parse(request.raw).Ok? {
      assert IsParsed(parse, parse(request.raw).value);
    }
  }
}
