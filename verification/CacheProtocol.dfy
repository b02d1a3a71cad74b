/**
 * The versioned cache-aside protocol as a state machine.  Every atomic effect of a redirect, a
 * mutation, the repository, the cache and the clock is one event; a run is any interleaving.
 */
module CacheProtocol {
  import opened Prelude
  import opened Domain
  import opened CacheModel
  import opened StoreModel

  /**
   * delay bounds the time from a source read or a commit to the landing of its put; start is the
   * clock at the beginning of the run.
   */
  datatype Config = Config(activeTTL: int, inactiveTTL: int, delay: int, start: Time) {
    predicate Valid() {
      && 0 < activeTTL < TWO_63 && 0 < inactiveTTL < TWO_63
      && 0 <= delay && 0 < start
    }

    function TTL(status: LinkStatus): int { BaseTTL(status, activeTTL, inactiveTTL) }

    /** How old a mapping of this status may be when Resolve obtains it. */
    function Window(status: LinkStatus): int { delay + TTL(status) }
  }

  /** A conditional write under way to the cache. */
  datatype Put = Put(mapping: RedirectMapping, ttl: int, sourcedAt: Time)

  /** A redirect request: after its cache miss, after its source read, or with Resolve's answer in hand. */
  datatype Reader =
    | Missed(code: string)
    | Sourced(code: string, mapping: RedirectMapping, gotAt: Time)
    | Resolved(code: string, mapping: RedirectMapping, gotAt: Time)

  /** A change request: with its copy of the link, with the changed copy, committed, or finished. */
  datatype Mutator =
    | Holding(link: Link, change: Change, expected: nat)
    | Changed(link: Link, change: Change, expected: nat, clock: Time)
    | Committed(link: Link, committedAt: Time)
    | Finished

  /** A redirect that was answered with a destination. */
  datatype Redirect = Redirect(code: string, mapping: RedirectMapping, gotAt: Time, at: Time)

  datatype State = State(
    now: Time,
    repo: Links,
    cache: Cache,
    puts: set<Put>,
    readers: map<nat, Reader>,
    mutators: map<nat, Mutator>,
    redirects: set<Redirect>
  )

  datatype Event =
    | Tick(to: Time)
    | Create(code: string, destination: string, ownerID: string, createdAt: Time, expiresAt: Option<Time>)
    | CacheHit(id: nat, code: string)
    | CacheMiss(id: nat, code: string)
    | SourceRead(id: nat)
    | SourceFails(id: nat)
    | IssueFill(id: nat)
    | Respond(id: nat)
    | FindForChange(id: nat, code: string, ownerID: string, expected: nat, change: Change)
    | ChangeLocally(id: nat)
    | Commit(id: nat)
    | IssueRefresh(id: nat)
    | Land(put: Put)
    | Evict(code: string)

  function Init(cfg: Config): State {
    State(cfg.start, map[], map[], {}, map[], map[], {})
  }

  /**
   * A cache read may also fail, so a miss is possible at any time.  A put may be lost (it never
   * lands) or be delivered more than once, but only within the delay.  Eviction covers expiry.
   */
  predicate Enabled(cfg: Config, s: State, e: Event) {
    match e
    case Tick(to) => s.now <= to < cfg.start + TWO_63 - 1
    case Create(code, destination, ownerID, createdAt, expiresAt) =>
      && cfg.start <= createdAt <= s.now
      && NewLink(code, destination, ownerID, createdAt, expiresAt).Ok?
    case CacheHit(id, code) => id !in s.readers && CacheGet(s.cache, code, s.now).Ok?
    case CacheMiss(id, _) => id !in s.readers
    case SourceRead(id) => id in s.readers && s.readers[id].Missed?
    case SourceFails(id) => id in s.readers && s.readers[id].Missed?
    case IssueFill(id) => id in s.readers && s.readers[id].Sourced?
    case Respond(id) => id in s.readers && s.readers[id].Resolved?
    case FindForChange(id, code, ownerID, expected, _) =>
      id !in s.mutators && Admit(s.repo, code, ownerID, expected).Ok?
    case ChangeLocally(id) => id in s.mutators && s.mutators[id].Holding?
    case Commit(id) => id in s.mutators && s.mutators[id].Changed?
    case IssueRefresh(id) => id in s.mutators && s.mutators[id].Committed?
    case Land(put) => put in s.puts && s.now <= put.sourcedAt + cfg.delay
    case Evict(_) => true
  }

  /** The puts under way once a mapping obtained at sourcedAt has had its TTL computed. */
  function Issue(cfg: Config, s: State, m: RedirectMapping, sourcedAt: Time): set<Put> {
    var ttl := RedirectCacheTTL(m, s.now, cfg.activeTTL, cfg.inactiveTTL);
    if ttl.Some? then s.puts + {Put(m, ttl.value, sourcedAt)} else s.puts
  }

  function Next(cfg: Config, s: State, e: Event): State
    requires Enabled(cfg, s, e)
  {
    match e
    case Tick(to) => s.(now := to)
    case Create(code, destination, ownerID, createdAt, expiresAt) =>
      var inserted := Insert(s.repo, NewLink(code, destination, ownerID, createdAt, expiresAt).value);
      if inserted.Ok? then s.(repo := inserted.value) else s
    case CacheHit(id, code) =>
      s.(readers := s.readers[id := Resolved(code, CacheGet(s.cache, code, s.now).value, s.now)])
    case CacheMiss(id, code) => s.(readers := s.readers[id := Missed(code)])
    case SourceRead(id) =>
      var code := s.readers[id].code;
      var found := Find(s.repo, code);
      if found.Err? then s.(readers := s.readers - {id})
      else
        var mapping := RedirectMappingFromLink(found.value);
        if mapping.Err? then s.(readers := s.readers - {id})
        else s.(readers := s.readers[id := Sourced(code, mapping.value, s.now)])
    case SourceFails(id) => s.(readers := s.readers - {id})
    case IssueFill(id) =>
      var r := s.readers[id];
      s.(readers := s.readers[id := Resolved(r.code, r.mapping, r.gotAt)],
         puts := Issue(cfg, s, r.mapping, r.gotAt))
    case Respond(id) =>
      var r := s.readers[id];
      s.(readers := s.readers - {id},
         redirects := if r.mapping.CanRedirect(s.now)
                      then s.redirects + {Redirect(r.code, r.mapping, r.gotAt, s.now)}
                      else s.redirects)
    case FindForChange(id, code, ownerID, expected, change) =>
      s.(mutators := s.mutators[id := Holding(Admit(s.repo, code, ownerID, expected).value, change, expected)])
    case ChangeLocally(id) =>
      var m := s.mutators[id];
      var changed := ApplyChange(m.link, m.change, s.now);
      var next := if changed.Ok? then Changed(changed.value, m.change, m.expected, s.now) else Finished;
      s.(mutators := s.mutators[id := next])
    case Commit(id) =>
      var m := s.mutators[id];
      var updated := Update(s.repo, m.link, m.expected);
      if updated.Ok? then s.(repo := updated.value, mutators := s.mutators[id := Committed(m.link, s.now)])
      else s.(mutators := s.mutators[id := Finished])
    case IssueRefresh(id) =>
      var m := s.mutators[id];
      var mapping := RedirectMappingFromLink(m.link);
      s.(mutators := s.mutators[id := Finished],
         puts := if mapping.Ok? then Issue(cfg, s, mapping.value, m.committedAt) else s.puts)
    case Land(put) => s.(cache := AfterPut(s.cache, put.mapping, put.ttl, s.now))
    case Evict(code) => s.(cache := s.cache - {code})
  }

  /** ss[0], es[0], ss[1], es[1], ..., ss[|es|], from any state. */
  ghost predicate Segment(cfg: Config, ss: seq<State>, es: seq<Event>) {
    |ss| == |es| + 1 &&
    forall i :: 0 <= i < |es| ==> Enabled(cfg, ss[i], es[i]) && ss[i + 1] == Next(cfg, ss[i], es[i])
  }

  ghost predicate IsRun(cfg: Config, ss: seq<State>, es: seq<Event>) {
    cfg.Valid() && Segment(cfg, ss, es) && ss[0] == Init(cfg)
  }

  // ---------------------------------------------------------------------------------------------
  // The inductive invariant.  Its witnesses are earlier states of the run itself.
  // ---------------------------------------------------------------------------------------------

  /** In state k of the run, the repository held exactly this link. */
  ghost predicate Held(ss: seq<State>, k: int, link: Link) {
    0 <= k < |ss| && link.code in ss[k].repo && ss[k].repo[link.code] == link
  }

  /** In state k of the run, the repository's current link for the code projected to this mapping. */
  ghost predicate Current(ss: seq<State>, k: int, code: string, m: RedirectMapping) {
    0 <= k < |ss| && code in ss[k].repo && RedirectMappingFromLink(ss[k].repo[code]) == Ok(m)
  }

  /** The mapping, up to the cache's millisecond precision, was current in state k. */
  ghost predicate CurrentOrTruncated(ss: seq<State>, k: int, code: string, m: RedirectMapping) {
    && 0 <= k < |ss| && code in ss[k].repo
    && var p := RedirectMappingFromLink(ss[k].repo[code]);
       p.Ok? && (m == p.value || m == Truncated(p.value))
  }

  ghost predicate LinksOk(cfg: Config, s: State) {
    forall code :: code in s.repo ==>
      var l := s.repo[code];
      && l.Valid() && l.code == code
      && cfg.start <= l.createdAt && l.updatedAt <= s.now
      && l.version - 1 <= l.updatedAt - l.createdAt
  }

  ghost predicate MutatorOk(ss: seq<State>, j: int, m: Mutator)
    requires 0 <= j < |ss|
  {
    match m
    case Holding(link, _, expected) => link.version == expected && exists k :: 0 <= k <= j && Held(ss, k, link)
    case Changed(link, change, expected, clock) =>
      && clock <= ss[j].now
      && exists k :: 0 <= k <= j && IsBase(ss, k, m)
    case Committed(link, committedAt) => exists k :: 0 <= k <= j && Held(ss, k, link) && ss[k].now == committedAt
    case Finished => true
  }

  /** The changed copy came from the link that was current in state k, at the expected version. */
  ghost predicate IsBase(ss: seq<State>, k: int, m: Mutator)
    requires m.Changed?
  {
    && 0 <= k < |ss| && m.link.code in ss[k].repo
    && ss[k].repo[m.link.code].version == m.expected
    && ApplyChange(ss[k].repo[m.link.code], m.change, m.clock) == Ok(m.link)
  }

  ghost predicate PutOk(cfg: Config, ss: seq<State>, j: int, p: Put) {
    && 0 < p.ttl <= cfg.TTL(p.mapping.status)
    && exists k :: 0 <= k <= j && Current(ss, k, p.mapping.code, p.mapping) && ss[k].now == p.sourcedAt
  }

  ghost predicate EntryOk(cfg: Config, ss: seq<State>, j: int, code: string, e: Entry) {
    && e.mapping.code == code
    && exists k :: 0 <= k <= j && CachedForm(ss, k, code, e.mapping)
                   && e.deadline <= ss[k].now + cfg.Window(e.mapping.status)
  }

  /** The cached mapping is exactly the truncated projection of the link current in state k. */
  ghost predicate CachedForm(ss: seq<State>, k: int, code: string, m: RedirectMapping) {
    && 0 <= k < |ss| && code in ss[k].repo
    && var p := RedirectMappingFromLink(ss[k].repo[code]);
       p.Ok? && m == Truncated(p.value)
  }

  /** The mapping obtained at gotAt was current at some instant of the window ending at gotAt. */
  ghost predicate Fresh(cfg: Config, ss: seq<State>, j: int, code: string, m: RedirectMapping, gotAt: Time) {
    exists k :: 0 <= k <= j && CurrentOrTruncated(ss, k, code, m)
                && ss[k].now <= gotAt < ss[k].now + cfg.Window(m.status)
  }

  ghost predicate ReaderOk(cfg: Config, ss: seq<State>, j: int, r: Reader)
    requires 0 <= j < |ss|
  {
    match r
    case Missed(_) => true
    case Sourced(code, m, gotAt) =>
      gotAt <= ss[j].now && m.code == code && exists k :: 0 <= k <= j && Current(ss, k, code, m) && ss[k].now == gotAt
    case Resolved(code, m, gotAt) =>
      gotAt <= ss[j].now && Fresh(cfg, ss, j, code, m, gotAt)
  }

  ghost predicate RedirectOk(cfg: Config, ss: seq<State>, j: int, r: Redirect)
    requires 0 <= j < |ss|
  {
    && r.gotAt <= r.at <= ss[j].now && r.mapping.CanRedirect(r.at)
    && Fresh(cfg, ss, j, r.code, r.mapping, r.gotAt)
  }

  ghost predicate InvAt(cfg: Config, ss: seq<State>, j: int)
    requires 0 <= j < |ss|
  {
    var s := ss[j];
    && cfg.start <= s.now < cfg.start + TWO_63 - 1
    && LinksOk(cfg, s)
    && (forall id :: id in s.mutators ==> MutatorOk(ss, j, s.mutators[id]))
    && (forall p :: p in s.puts ==> PutOk(cfg, ss, j, p))
    && (forall code :: code in s.cache ==> EntryOk(cfg, ss, j, code, s.cache[code]))
    && (forall id :: id in s.readers ==> ReaderOk(cfg, ss, j, s.readers[id]))
    && (forall r :: r in s.redirects ==> RedirectOk(cfg, ss, j, r))
  }

  /** Everything known about states 0..j of a run. */
  ghost predicate InvUpTo(cfg: Config, ss: seq<State>, j: int)
    requires 0 <= j < |ss|
  {
    && (forall i :: 0 <= i <= j ==> InvAt(cfg, ss, i))
    && (forall i :: 0 <= i <= j ==> Grows(ss[i].repo, ss[j].repo) && ss[i].now <= ss[j].now)
  }

  /** The link a mutator wants to write continues the current one, if the compare-and-set lets it. */
  lemma CommitContinues(cfg: Config, ss: seq<State>, j: int, id: nat)
    requires 0 <= j < |ss| && InvUpTo(cfg, ss, j)
    requires id in ss[j].mutators && ss[j].mutators[id].Changed?
    requires Update(ss[j].repo, ss[j].mutators[id].link, ss[j].mutators[id].expected).Ok?
    ensures var m := ss[j].mutators[id];
      && ApplyChange(ss[j].repo[m.link.code], m.change, m.clock) == Ok(m.link)
      && ss[j].repo[m.link.code].version == m.expected
      && m.clock <= ss[j].now
      && m.link.Valid() && m.link.version == m.expected + 1 && m.link.updatedAt == m.clock
      && m.link.version - 1 <= m.link.updatedAt - m.link.createdAt
      && Evolves(ss[j].repo[m.link.code], m.link)
  {
    var m := ss[j].mutators[id];
    assert InvAt(cfg, ss, j);
    assert MutatorOk(ss, j, m);
    var k :| 0 <= k <= j && IsBase(ss, k, m);
    var code := m.link.code;
    assert Evolves(ss[k].repo[code], ss[j].repo[code]);
    var base := ss[j].repo[code];
    assert base == ss[k].repo[code];
    ChangeEvolves(base, m.change, m.clock);
  }

  /** Storing a link that is new, or that continues the stored one, keeps the repository well formed. */
  lemma StoreKeeps(cfg: Config, s: State, l: Link)
    requires LinksOk(cfg, s)
    requires l.Valid() && cfg.start <= l.createdAt && l.updatedAt <= s.now
    requires l.version - 1 <= l.updatedAt - l.createdAt
    requires l.code in s.repo ==> Evolves(s.repo[l.code], l)
    ensures Grows(s.repo, s.repo[l.code := l])
    ensures LinksOk(cfg, s.(repo := s.repo[l.code := l]))
  {
  }

  lemma CreateKeeps(cfg: Config, s: State, e: Event)
    requires LinksOk(cfg, s) && e.Create? && Enabled(cfg, s, e)
    ensures var l := NewLink(e.code, e.destination, e.ownerID, e.createdAt, e.expiresAt).value;
      l.code !in s.repo ==> Grows(s.repo, s.repo[l.code := l]) && LinksOk(cfg, s.(repo := s.repo[l.code := l]))
  {
    var l := NewLink(e.code, e.destination, e.ownerID, e.createdAt, e.expiresAt).value;
    NewLinkIsExact(e.code, e.destination, e.ownerID, e.createdAt, e.expiresAt, l);
    if l.code !in s.repo {
      StoreKeeps(cfg, s, l);
    }
  }

  /** The repository changes only by a creation of a free code or by a successful compare-and-set. */
  lemma RepoChange(cfg: Config, s: State, e: Event)
    requires Enabled(cfg, s, e)
    ensures var s' := Next(cfg, s, e);
      || s'.repo == s.repo
      || (e.Create? && var l := NewLink(e.code, e.destination, e.ownerID, e.createdAt, e.expiresAt);
                       l.Ok? && l.value.code !in s.repo && s'.repo == s.repo[l.value.code := l.value])
      || (e.Commit? && var m := s.mutators[e.id];
                       Update(s.repo, m.link, m.expected).Ok? && s'.repo == s.repo[m.link.code := m.link])
    ensures e.Tick? || Next(cfg, s, e).now == s.now
  {
  }

  /** An event that writes the repository keeps it well formed. */
  lemma WriteKeeps(cfg: Config, ss: seq<State>, es: seq<Event>, j: int)
    requires IsRun(cfg, ss, es) && 0 <= j < |es| && InvUpTo(cfg, ss, j)
    requires LinksOk(cfg, ss[j]) && ss[j + 1].repo != ss[j].repo
    ensures Grows(ss[j].repo, ss[j + 1].repo) && LinksOk(cfg, ss[j].(repo := ss[j + 1].repo))
  {
    var s, e := ss[j], es[j];
    RepoChange(cfg, s, e);
    if e.Create? {
      CreateKeeps(cfg, s, e);
    } else {
      CommitContinues(cfg, ss, j, e.id);
      StoreKeeps(cfg, s, s.mutators[e.id].link);
    }
  }

  lemma StoreStep(cfg: Config, ss: seq<State>, es: seq<Event>, j: int)
    requires IsRun(cfg, ss, es) && 0 <= j < |es| && InvUpTo(cfg, ss, j)
    ensures Grows(ss[j].repo, ss[j + 1].repo)
    ensures LinksOk(cfg, ss[j + 1])
    ensures cfg.start <= ss[j].now <= ss[j + 1].now < cfg.start + TWO_63 - 1
  {
    assert LinksOk(cfg, ss[j]) && cfg.start <= ss[j].now < cfg.start + TWO_63 - 1 by {
      assert InvAt(cfg, ss, j);
    }
    RepoChange(cfg, ss[j], es[j]);
    if ss[j + 1].repo != ss[j].repo {
      WriteKeeps(cfg, ss, es, j);
    }
  }

  lemma MutatorPersists(ss: seq<State>, j: int, m: Mutator)
    requires 0 <= j < |ss| - 1 && ss[j].now <= ss[j + 1].now
    requires MutatorOk(ss, j, m)
    ensures MutatorOk(ss, j + 1, m)
  {
  }

  lemma EntryPersists(cfg: Config, ss: seq<State>, j: int, code: string, e: Entry)
    requires 0 <= j < |ss| - 1 && EntryOk(cfg, ss, j, code, e)
    ensures EntryOk(cfg, ss, j + 1, code, e)
  {
  }

  lemma ReaderPersists(cfg: Config, ss: seq<State>, j: int, r: Reader)
    requires 0 <= j < |ss| - 1 && ss[j].now <= ss[j + 1].now
    requires ReaderOk(cfg, ss, j, r)
    ensures ReaderOk(cfg, ss, j + 1, r)
  {
  }

  lemma ChangedIsBased(ss: seq<State>, j: int, h: Mutator, clock: Time, link: Link)
    requires 0 <= j < |ss| - 1 && clock == ss[j].now <= ss[j + 1].now
    requires h.Holding? && MutatorOk(ss, j, h)
    requires ApplyChange(h.link, h.change, clock) == Ok(link)
    ensures MutatorOk(ss, j + 1, Changed(link, h.change, h.expected, clock))
  {
    var k :| 0 <= k <= j && Held(ss, k, h.link);
    assert link.code == h.link.code;
    assert IsBase(ss, k, Changed(link, h.change, h.expected, clock));
  }

  /** Every way in which a mutator can come to be in its present phase. */
  lemma MutatorChange(cfg: Config, s: State, e: Event, id: nat)
    requires Enabled(cfg, s, e) && id in Next(cfg, s, e).mutators
    ensures var s' := Next(cfg, s, e);
      var m := s'.mutators[id];
      || (id in s.mutators && m == s.mutators[id])
      || m.Finished?
      || (m.Holding? && (exists code :: code in s.repo && s.repo[code] == m.link) && m.link.version == m.expected)
      || (m.Changed? && id in s.mutators && s.mutators[id].Holding? && m.clock == s.now
          && m.change == s.mutators[id].change && m.expected == s.mutators[id].expected
          && ApplyChange(s.mutators[id].link, m.change, s.now) == Ok(m.link))
      || (m.Committed? && m.committedAt == s'.now && m.link.code in s'.repo && s'.repo[m.link.code] == m.link)
  {
    if e.FindForChange? && e.id == id {
      var link := Admit(s.repo, e.code, e.ownerID, e.expected).value;
      assert TrimSpace(e.code) in s.repo && s.repo[TrimSpace(e.code)] == link;
    }
  }

  lemma MutatorsStep(cfg: Config, ss: seq<State>, es: seq<Event>, j: int, id: nat)
    requires IsRun(cfg, ss, es) && 0 <= j < |es| && InvAt(cfg, ss, j)
    requires ss[j].now <= ss[j + 1].now
    requires id in ss[j + 1].mutators
    ensures MutatorOk(ss, j + 1, ss[j + 1].mutators[id])
  {
    MutatorChange(cfg, ss[j], es[j], id);
    var m := ss[j + 1].mutators[id];
    if id in ss[j].mutators && m == ss[j].mutators[id] {
      MutatorPersists(ss, j, m);
    } else if m.Holding? {
      assert LinksOk(cfg, ss[j]);
      assert Held(ss, j, m.link);
    } else if m.Changed? {
      ChangedIsBased(ss, j, ss[j].mutators[id], ss[j].now, m.link);
    } else if m.Committed? {
      assert Held(ss, j + 1, m.link);
    }
  }

  /** Every link in a reachable state projects without error. */
  lemma HeldProjects(cfg: Config, ss: seq<State>, j: int, k: int, link: Link)
    requires 0 <= k <= j < |ss| && InvUpTo(cfg, ss, j) && Held(ss, k, link)
    ensures RedirectMappingFromLink(link).Ok?
    ensures Current(ss, k, link.code, RedirectMappingFromLink(link).value)
    ensures RedirectMappingFromLink(link).value.code == link.code
  {
    assert InvAt(cfg, ss, k);
    ProjectionFaithful(link, 0);
  }

  /** A new put comes from a reader's fill or from a committed mutator's refresh, with a clamped TTL. */
  lemma PutsChange(cfg: Config, s: State, e: Event, p: Put)
    requires cfg.Valid() && Enabled(cfg, s, e) && p in Next(cfg, s, e).puts
    ensures
      || p in s.puts
      || (0 < p.ttl <= cfg.TTL(p.mapping.status)
          && e.IssueFill? && p.mapping == s.readers[e.id].mapping && p.sourcedAt == s.readers[e.id].gotAt)
      || (0 < p.ttl <= cfg.TTL(p.mapping.status)
          && e.IssueRefresh? && RedirectMappingFromLink(s.mutators[e.id].link) == Ok(p.mapping)
          && p.sourcedAt == s.mutators[e.id].committedAt)
  {
    TTLClamp(p.mapping, s.now, cfg.activeTTL, cfg.inactiveTTL);
  }

  lemma PutsStep(cfg: Config, ss: seq<State>, es: seq<Event>, j: int, p: Put)
    requires IsRun(cfg, ss, es) && 0 <= j < |es| && InvUpTo(cfg, ss, j)
    requires p in ss[j + 1].puts
    ensures PutOk(cfg, ss, j + 1, p)
  {
    var s, e := ss[j], es[j];
    assert InvAt(cfg, ss, j);
    PutsChange(cfg, s, e, p);
    if p in s.puts {
      assert PutOk(cfg, ss, j, p);
    } else if e.IssueFill? {
      var r := s.readers[e.id];
      assert ReaderOk(cfg, ss, j, r);
      var k :| 0 <= k <= j && Current(ss, k, r.code, r.mapping) && ss[k].now == r.gotAt;
    } else {
      var m := s.mutators[e.id];
      assert MutatorOk(ss, j, m);
      var k :| 0 <= k <= j && Held(ss, k, m.link) && ss[k].now == m.committedAt;
      HeldProjects(cfg, ss, j, k, m.link);
    }
  }

  lemma LandStep(cfg: Config, ss: seq<State>, j: int, p: Put)
    requires 0 <= j < |ss| - 1 && InvAt(cfg, ss, j)
    requires Enabled(cfg, ss[j], Land(p)) && !Rejected(ss[j].cache, p.mapping, ss[j].now)
    requires p.mapping.code in AfterPut(ss[j].cache, p.mapping, p.ttl, ss[j].now)
    requires Milliseconds(p.ttl) > 0
    ensures EntryOk(cfg, ss, j + 1, p.mapping.code, AfterPut(ss[j].cache, p.mapping, p.ttl, ss[j].now)[p.mapping.code])
  {
    assert PutOk(cfg, ss, j, p);
    var k :| 0 <= k <= j && Current(ss, k, p.mapping.code, p.mapping) && ss[k].now == p.sourcedAt;
    PutKeepsNewest(ss[j].cache, p.mapping, p.ttl, ss[j].now);
    assert CachedForm(ss, k, p.mapping.code, Truncated(p.mapping));
  }

  /** Only a landing put can change an entry, and eviction can only remove it. */
  lemma CacheChange(cfg: Config, s: State, e: Event, code: string)
    requires Enabled(cfg, s, e) && code in Next(cfg, s, e).cache
    ensures
      || (code in s.cache && Next(cfg, s, e).cache[code] == s.cache[code])
      || (e.Land? && e.put.mapping.code == code && Milliseconds(e.put.ttl) > 0
          && !Rejected(s.cache, e.put.mapping, s.now)
          && Next(cfg, s, e).cache == AfterPut(s.cache, e.put.mapping, e.put.ttl, s.now))
  {
  }

  lemma CacheStep(cfg: Config, ss: seq<State>, es: seq<Event>, j: int, code: string)
    requires IsRun(cfg, ss, es) && 0 <= j < |es| && InvAt(cfg, ss, j)
    requires code in ss[j + 1].cache
    ensures EntryOk(cfg, ss, j + 1, code, ss[j + 1].cache[code])
  {
    CacheChange(cfg, ss[j], es[j], code);
    if code in ss[j].cache && ss[j + 1].cache[code] == ss[j].cache[code] {
      EntryPersists(cfg, ss, j, code, ss[j].cache[code]);
    } else {
      LandStep(cfg, ss, j, es[j].put);
    }
  }

  lemma HitStep(cfg: Config, ss: seq<State>, j: int, code: string)
    requires 0 <= j < |ss| - 1 && InvUpTo(cfg, ss, j)
    requires Live(ss[j].cache, code, ss[j].now)
    ensures Fresh(cfg, ss, j + 1, code, ss[j].cache[code].mapping, ss[j].now)
  {
    assert InvAt(cfg, ss, j);
    var entry := ss[j].cache[code];
    assert EntryOk(cfg, ss, j, code, entry);
    var k :| 0 <= k <= j && CachedForm(ss, k, code, entry.mapping)
             && entry.deadline <= ss[k].now + cfg.Window(entry.mapping.status);
    assert CurrentOrTruncated(ss, k, code, entry.mapping);
  }

  lemma SourcedIsFresh(cfg: Config, ss: seq<State>, j: int, r: Reader)
    requires 0 <= j < |ss| - 1 && cfg.Valid() && r.Sourced? && ReaderOk(cfg, ss, j, r)
    ensures Fresh(cfg, ss, j + 1, r.code, r.mapping, r.gotAt)
  {
    var k :| 0 <= k <= j && Current(ss, k, r.code, r.mapping) && ss[k].now == r.gotAt;
    assert CurrentOrTruncated(ss, k, r.code, r.mapping);
  }

  lemma SourceReadStep(cfg: Config, ss: seq<State>, j: int, code: string)
    requires 0 <= j < |ss| - 1 && InvUpTo(cfg, ss, j) && ss[j].now <= ss[j + 1].now
    requires code in ss[j].repo && RedirectMappingFromLink(ss[j].repo[code]).Ok?
    ensures ReaderOk(cfg, ss, j + 1, Sourced(code, RedirectMappingFromLink(ss[j].repo[code]).value, ss[j].now))
  {
    assert InvAt(cfg, ss, j);
    var link := ss[j].repo[code];
    assert LinksOk(cfg, ss[j]);
    assert Held(ss, j, link);
    HeldProjects(cfg, ss, j, j, link);
  }

  /** Every way in which a reader can come to be in its present phase. */
  lemma ReaderChange(cfg: Config, s: State, e: Event, id: nat)
    requires Enabled(cfg, s, e) && id in Next(cfg, s, e).readers
    ensures var r := Next(cfg, s, e).readers[id];
      || (id in s.readers && r == s.readers[id])
      || r.Missed?
      || (r.Sourced? && r.code in s.repo && RedirectMappingFromLink(s.repo[r.code]) == Ok(r.mapping)
          && r.gotAt == s.now)
      || (r.Resolved? && Live(s.cache, r.code, s.now) && r.mapping == s.cache[r.code].mapping && r.gotAt == s.now)
      || (r.Resolved? && id in s.readers && s.readers[id] == Sourced(r.code, r.mapping, r.gotAt))
  {
  }

  lemma ReadersStep(cfg: Config, ss: seq<State>, es: seq<Event>, j: int, id: nat)
    requires IsRun(cfg, ss, es) && 0 <= j < |es| && InvUpTo(cfg, ss, j)
    requires ss[j].now <= ss[j + 1].now
    requires id in ss[j + 1].readers
    ensures ReaderOk(cfg, ss, j + 1, ss[j + 1].readers[id])
  {
    assert InvAt(cfg, ss, j);
    ReaderChange(cfg, ss[j], es[j], id);
    var r := ss[j + 1].readers[id];
    if id in ss[j].readers && r == ss[j].readers[id] {
      ReaderPersists(cfg, ss, j, r);
    } else if r.Missed? {
    } else if r.Sourced? {
      SourceReadStep(cfg, ss, j, r.code);
    } else if Live(ss[j].cache, r.code, ss[j].now) && r.mapping == ss[j].cache[r.code].mapping && r.gotAt == ss[j].now {
      HitStep(cfg, ss, j, r.code);
    } else {
      SourcedIsFresh(cfg, ss, j, ss[j].readers[id]);
    }
  }

  lemma RedirectsChange(cfg: Config, s: State, e: Event, r: Redirect)
    requires Enabled(cfg, s, e) && r in Next(cfg, s, e).redirects
    ensures
      || r in s.redirects
      || (e.Respond? && s.readers[e.id] == Resolved(r.code, r.mapping, r.gotAt)
          && r.at == s.now && r.mapping.CanRedirect(s.now))
  {
  }

  lemma RedirectsStep(cfg: Config, ss: seq<State>, es: seq<Event>, j: int, r: Redirect)
    requires IsRun(cfg, ss, es) && 0 <= j < |es| && InvAt(cfg, ss, j)
    requires ss[j].now <= ss[j + 1].now
    requires r in ss[j + 1].redirects
    ensures RedirectOk(cfg, ss, j + 1, r)
  {
    RedirectsChange(cfg, ss[j], es[j], r);
    if r in ss[j].redirects {
      assert RedirectOk(cfg, ss, j, r);
    } else {
      assert ReaderOk(cfg, ss, j, ss[j].readers[es[j].id]);
    }
  }

  lemma InvStep(cfg: Config, ss: seq<State>, es: seq<Event>, j: int)
    requires IsRun(cfg, ss, es) && 0 <= j < |es| && InvUpTo(cfg, ss, j)
    ensures InvAt(cfg, ss, j + 1)
  {
    StoreStep(cfg, ss, es, j);
    var s' := ss[j + 1];
    forall id | id in s'.mutators ensures MutatorOk(ss, j + 1, s'.mutators[id]) {
      MutatorsStep(cfg, ss, es, j, id);
    }
    forall p | p in s'.puts ensures PutOk(cfg, ss, j + 1, p) {
      PutsStep(cfg, ss, es, j, p);
    }
    forall code | code in s'.cache ensures EntryOk(cfg, ss, j + 1, code, s'.cache[code]) {
      CacheStep(cfg, ss, es, j, code);
    }
    forall id | id in s'.readers ensures ReaderOk(cfg, ss, j + 1, s'.readers[id]) {
      ReadersStep(cfg, ss, es, j, id);
    }
    forall r | r in s'.redirects ensures RedirectOk(cfg, ss, j + 1, r) {
      RedirectsStep(cfg, ss, es, j, r);
    }
  }

  /** The invariant holds in every state of every run. */
  lemma {:induction false} Invariant(cfg: Config, ss: seq<State>, es: seq<Event>, j: int)
    requires IsRun(cfg, ss, es) && 0 <= j < |ss|
    ensures InvUpTo(cfg, ss, j)
  {
    if j == 0 {
      assert InvAt(cfg, ss, 0);
    } else {
      Invariant(cfg, ss, es, j - 1);
      InvStep(cfg, ss, es, j - 1);
      StoreStep(cfg, ss, es, j - 1);
      forall i | 0 <= i < j ensures Grows(ss[i].repo, ss[j].repo) && ss[i].now <= ss[j].now {
        GrowsTransitive(ss[i].repo, ss[j - 1].repo, ss[j].repo);
      }
    }
  }
}
