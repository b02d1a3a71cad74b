/** The redirect cache seen as a map of typed entries with deadlines. */
module CacheModel {
  import opened Prelude
  import opened Domain

  const MILLISECOND: int := 1_000_000

  /** Unix milliseconds floor the instant; the Unix epoch is a whole number of milliseconds after time zero. */
  function FloorMillis(t: Time): Time { t - t % MILLISECOND }

  /** The mapping as it comes back from the cache: only the expiration loses precision. */
  function Truncated(m: RedirectMapping): RedirectMapping {
    match m.expiresAt
    case None => m
    case Some(t) => m.(expiresAt := Some(FloorMillis(t)))
  }

  /** Caching never prolongs a link: what the cached copy allows, the source projection allows. */
  lemma TruncationIsConservative(m: RedirectMapping, now: Time)
    ensures Truncated(m).CanRedirect(now) ==> m.CanRedirect(now)
    ensures m.CanRedirect(now) && !Truncated(m).CanRedirect(now) ==>
      m.expiresAt.Some? && m.expiresAt.value - now < 1_000_000
    ensures Truncated(Truncated(m)) == Truncated(m)
    ensures var c := Truncated(m);
      && c.code == m.code && c.destination == m.destination && c.status == m.status && c.version == m.version
      && (c.expiresAt.Some? <==> m.expiresAt.Some?)
      && (m.expiresAt.Some? ==>
            c.expiresAt.value % 1_000_000 == 0 && 0 <= m.expiresAt.value - c.expiresAt.value < 1_000_000)
  {
  }

  /** Time.Sub: a Duration saturates at the int64 bounds. */
  function Sub(t: Time, u: Time): int {
    if t - u >= TWO_63 then TWO_63 - 1 else if t - u < -TWO_63 then -TWO_63 else t - u
  }

  function BaseTTL(status: LinkStatus, activeTTL: int, inactiveTTL: int): int {
    if status == Active then activeTTL else inactiveTTL
  }

  function RedirectCacheTTL(m: RedirectMapping, now: Time, activeTTL: int, inactiveTTL: int): Option<int> {
    var ttl := BaseTTL(m.status, activeTTL, inactiveTTL);
    match m.expiresAt
    case None => Some(ttl)
    case Some(expiresAt) =>
      var remaining := Sub(expiresAt, now);
      if remaining <= 0 then None
      else if remaining < ttl then Some(remaining)
      else Some(ttl)
  }

  /**
   * The TTL is the largest one that is positive, within the TTL configured for active or for inactive
   * mappings, and within the natural lifetime; it is refused exactly for expired mappings.
   */
  lemma TTLClamp(m: RedirectMapping, now: Time, activeTTL: int, inactiveTTL: int)
    requires 0 < activeTTL < TWO_63 && 0 < inactiveTTL < TWO_63
    ensures var r := RedirectCacheTTL(m, now, activeTTL, inactiveTTL);
      var base := if m.status == Active then activeTTL else inactiveTTL;
      && base == BaseTTL(m.status, activeTTL, inactiveTTL)
      && (r.None? <==> m.expiresAt.Some? && m.expiresAt.value <= now)
      && (r.Some? ==>
            && 0 < r.value <= base
            && (m.expiresAt.Some? ==> now + r.value <= m.expiresAt.value)
            && (r.value == base || m.expiresAt == Some(now + r.value)))
  {
  }

  datatype Entry = Entry(mapping: RedirectMapping, deadline: Time)

  type Cache = map<string, Entry>

  predicate Live(c: Cache, code: string, now: Time) { code in c && now < c[code].deadline }

  function CacheGet(c: Cache, code: string, now: Time): Result<RedirectMapping, Error> {
    if Live(c, code, now) then Ok(c[code].mapping) else Err(RedirectCacheMiss)
  }

  /** Duration.Milliseconds truncates toward zero. */
  function Milliseconds(d: int): int { if d >= 0 then d / MILLISECOND else -((-d) / MILLISECOND) }

  /** A put is refused by a live entry of a strictly greater version, and by nothing else. */
  predicate Rejected(c: Cache, m: RedirectMapping, now: Time) {
    Live(c, m.code, now) && c[m.code].mapping.version > m.version
  }

  function CachePut(c: Cache, m: RedirectMapping, ttl: int, now: Time): Result<Cache, Error> {
    var millis := Milliseconds(ttl);
    if millis <= 0 then Err(CacheTTLTooShort)
    else if Rejected(c, m, now) then Ok(c)
    else Ok(c[m.code := Entry(Truncated(m), now + millis * MILLISECOND)])
  }

  /** The cache after an attempted put: a failing put leaves it alone. */
  function AfterPut(c: Cache, m: RedirectMapping, ttl: int, now: Time): Cache {
    var r := CachePut(c, m, ttl, now);
    if r.Ok? then r.value else c
  }

  /** One put on one key: the older version wins exactly when nothing newer is still resident. */
  lemma PutKeepsNewest(c: Cache, m: RedirectMapping, ttl: int, now: Time)
    requires Milliseconds(ttl) > 0
    ensures ttl >= 1_000_000 && Milliseconds(ttl) * MILLISECOND == ttl - ttl % 1_000_000
    ensures Rejected(c, m, now) <==>
      m.code in c && now < c[m.code].deadline && m.version < c[m.code].mapping.version
    ensures var c' := AfterPut(c, m, ttl, now);
      && Live(c', m.code, now)
      && c'[m.code].mapping.version ==
           (if Live(c, m.code, now) && c[m.code].mapping.version > m.version then c[m.code].mapping.version
            else m.version)
      && (!Rejected(c, m, now) <==> c'[m.code] == Entry(Truncated(m), now + Milliseconds(ttl) * MILLISECOND))
      && (!Rejected(c, m, now) ==> c'[m.code].deadline <= now + ttl)
      && forall code :: code != m.code ==> ((code in c' <==> code in c) && (code in c ==> c'[code] == c[code]))
  {
  }

  datatype TimedPut = TimedPut(mapping: RedirectMapping, ttl: int, at: Time)

  /** The puts performed one after another. */
  function PutAll(c: Cache, puts: seq<TimedPut>): Cache {
    if puts == [] then c
    else
      var p := puts[|puts| - 1];
      AfterPut(PutAll(c, puts[..|puts| - 1]), p.mapping, p.ttl, p.at)
  }

  /** Well-formed puts of one key that all find the key's previous entry unexpired. */
  ghost predicate OneResidency(c: Cache, code: string, puts: seq<TimedPut>) {
    puts == [] ||
    (var init, p := puts[..|puts| - 1], puts[|puts| - 1];
     && OneResidency(c, code, init)
     && p.mapping.code == code && Milliseconds(p.ttl) > 0
     && (code in PutAll(c, init) ==> p.at < PutAll(c, init)[code].deadline))
  }

  function Mappings(puts: seq<TimedPut>): (ms: seq<RedirectMapping>)
    ensures |ms| == |puts| && forall i :: 0 <= i < |puts| ==> ms[i] == puts[i].mapping
  {
    seq(|puts|, i requires 0 <= i < |puts| => puts[i].mapping)
  }

  /** x is the cached form of one of ms, and none of ms has a greater version. */
  ghost predicate NewestOf(x: RedirectMapping, ms: seq<RedirectMapping>) {
    && (exists m :: m in ms && x == Truncated(m))
    && (forall m :: m in ms ==> m.version <= x.version)
  }

  /** Within one residency the surviving mapping is one of the puts, of maximal version. */
  lemma {:induction false} MaximumSurvives(c: Cache, code: string, puts: seq<TimedPut>)
    requires code !in c && OneResidency(c, code, puts) && puts != []
    ensures code in PutAll(c, puts) && NewestOf(PutAll(c, puts)[code].mapping, Mappings(puts))
  {
    var init, p := puts[..|puts| - 1], puts[|puts| - 1];
    assert Mappings(puts) == Mappings(init) + [p.mapping];
    if init != [] {
      MaximumSurvives(c, code, init);
    }
    assert p.mapping in Mappings(puts);
  }

  lemma NewestIsUnique(x: RedirectMapping, y: RedirectMapping, ms: seq<RedirectMapping>, ns: seq<RedirectMapping>)
    requires NewestOf(x, ms) && NewestOf(y, ns)
    requires multiset(ms) == multiset(ns)
    requires forall m, n :: m in ms && n in ms && m.version == n.version ==> m == n
    ensures x == y
  {
    var m :| m in ms && x == Truncated(m);
    var n :| n in ns && y == Truncated(n);
    assert m in multiset(ns) && n in multiset(ms);
  }

  /** Delivery order is irrelevant within one residency. */
  lemma OrderIrrelevant(c: Cache, code: string, ps: seq<TimedPut>, qs: seq<TimedPut>)
    requires code !in c && OneResidency(c, code, ps) && OneResidency(c, code, qs) && ps != []
    requires multiset(Mappings(ps)) == multiset(Mappings(qs))
    requires forall m, n :: m in Mappings(ps) && n in Mappings(ps) && m.version == n.version ==> m == n
    ensures code in PutAll(c, ps) && code in PutAll(c, qs)
    ensures PutAll(c, ps)[code].mapping == PutAll(c, qs)[code].mapping
  {
    assert Mappings(ps)[0] in multiset(Mappings(qs));
    assert qs != [];
    MaximumSurvives(c, code, ps);
    MaximumSurvives(c, code, qs);
    NewestIsUnique(PutAll(c, ps)[code].mapping, PutAll(c, qs)[code].mapping, Mappings(ps), Mappings(qs));
  }
}
