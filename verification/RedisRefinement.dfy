/** Whole runs of the protocol carried out on string hashes by the Lua script. */
module RedisRefinement {
  import opened Prelude
  import opened Domain
  import opened CacheModel
  import opened CacheProtocol
  import opened RedisCache

  /** Instants whose Unix milliseconds fit an int64. */
  predicate InRange(t: Option<Time>) {
    t.Some? ==> -TWO_63 <= UnixMilli(t.value) < TWO_63
  }

  /** The destination is a result of the parser, the expiration is printable. */
  predicate Carried(parse: UrlParser, destination: string, expiresAt: Option<Time>) {
    parse(destination) == Ok(destination) && InRange(expiresAt)
  }

  predicate GoodLink(parse: UrlParser, l: Link) { Carried(parse, l.destination, l.expiresAt) }

  predicate GoodChange(parse: UrlParser, c: Change) {
    match c
    case ToStatus(_) => true
    case ToDestination(d) => parse(d) == Ok(d)
    case ToExpiration(t) => InRange(t)
  }

  predicate GoodEvent(parse: UrlParser, e: Event) {
    && (e.Create? ==> Carried(parse, e.destination, e.expiresAt))
    && (e.FindForChange? ==> GoodChange(parse, e.change))
  }

  /** The destination is what the parser made of some request. */
  ghost predicate IsParsed(parse: UrlParser, destination: string) { exists raw :: parse(raw) == Ok(destination) }

  /** What the use cases hand on: parsed destinations, and expirations within the printable range. */
  ghost predicate Requestable(parse: UrlParser, e: Event) {
    match e
    case Create(_, destination, _, _, expiresAt) => IsParsed(parse, destination) && InRange(expiresAt)
    case FindForChange(_, _, _, _, ToDestination(destination)) => IsParsed(parse, destination)
    case FindForChange(_, _, _, _, ToExpiration(expiresAt)) => InRange(expiresAt)
    case _ => true
  }

  ghost predicate AllRequestable(parse: UrlParser, es: seq<Event>) {
    forall i :: 0 <= i < |es| ==> Requestable(parse, es[i])
  }

  /** With a parser whose results parse to themselves, every request is one that a hash and a row can carry. */
  lemma RequestableIsGood(parse: UrlParser, e: Event)
    requires Faithful(parse) && Requestable(parse, e)
    ensures GoodEvent(parse, e)
  {
    if e.Create? {
      var raw :| parse(raw) == Ok(e.destination);
    } else if e.FindForChange? && e.change.ToDestination? {
      var raw :| parse(raw) == Ok(e.change.destination);
    }
  }

  ghost predicate GoodMutator(parse: UrlParser, m: Mutator) {
    && (!m.Finished? ==> GoodLink(parse, m.link))
    && (m.Holding? ==> GoodChange(parse, m.change))
  }

  ghost predicate GoodState(parse: UrlParser, s: State) {
    && (forall code :: code in s.repo ==> GoodLink(parse, s.repo[code]))
    && (forall id :: id in s.mutators ==> GoodMutator(parse, s.mutators[id]))
    && (forall id :: id in s.readers && s.readers[id].Sourced? ==> Encodable(parse, s.readers[id].mapping))
    && (forall p :: p in s.puts ==> Encodable(parse, p.mapping))
  }

  lemma ChangeKeepsGood(parse: UrlParser, l: Link, c: Change, at: Time)
    requires GoodLink(parse, l) && GoodChange(parse, c) && ApplyChange(l, c, at).Ok?
    ensures GoodLink(parse, ApplyChange(l, c, at).value)
  {
  }

  lemma GoodProjects(parse: UrlParser, l: Link)
    requires GoodLink(parse, l) && l.Valid()
    ensures RedirectMappingFromLink(l).Ok? && Encodable(parse, RedirectMappingFromLink(l).value)
  {
  }

  lemma MutatorsStayGood(cfg: Config, parse: UrlParser, s: State, e: Event, id: nat)
    requires Enabled(cfg, s, e) && GoodEvent(parse, e) && GoodState(parse, s)
    requires id in Next(cfg, s, e).mutators
    ensures GoodMutator(parse, Next(cfg, s, e).mutators[id])
  {
    var m := Next(cfg, s, e).mutators[id];
    if id in s.mutators && m == s.mutators[id] {
    } else if e.ChangeLocally? {
      var h := s.mutators[id];
      assert GoodMutator(parse, h);
      if m.Changed? {
        ChangeKeepsGood(parse, h.link, h.change, s.now);
      }
    } else if e.Commit? {
      assert GoodMutator(parse, s.mutators[id]);
    }
  }

  lemma RepoStaysGood(cfg: Config, parse: UrlParser, s: State, e: Event, code: string)
    requires Enabled(cfg, s, e) && GoodEvent(parse, e) && GoodState(parse, s)
    requires code in Next(cfg, s, e).repo
    ensures GoodLink(parse, Next(cfg, s, e).repo[code])
  {
    if e.Commit? {
      assert GoodMutator(parse, s.mutators[e.id]);
    } else if !e.Create? {
      assert Next(cfg, s, e).repo == s.repo;
    }
  }

  lemma PutsStayGood(cfg: Config, parse: UrlParser, ss: seq<State>, es: seq<Event>, j: int, p: Put)
    requires IsRun(cfg, ss, es) && 0 <= j < |es| && GoodState(parse, ss[j])
    requires p in ss[j + 1].puts
    ensures Encodable(parse, p.mapping)
  {
    PutsChange(cfg, ss[j], es[j], p);
    if p !in ss[j].puts && es[j].IssueRefresh? {
      var m := ss[j].mutators[es[j].id];
      assert GoodMutator(parse, m);
      Invariant(cfg, ss, es, j);
      assert MutatorOk(ss, j, m) by { assert InvAt(cfg, ss, j); }
      var k :| 0 <= k <= j && Held(ss, k, m.link) && ss[k].now == m.committedAt;
      assert LinksOk(cfg, ss[k]) by { assert InvAt(cfg, ss, k); }
      GoodProjects(parse, m.link);
    }
  }

  lemma ReadersStayGood(cfg: Config, parse: UrlParser, ss: seq<State>, es: seq<Event>, j: int, id: nat)
    requires IsRun(cfg, ss, es) && 0 <= j < |es| && GoodState(parse, ss[j])
    requires id in ss[j + 1].readers && ss[j + 1].readers[id].Sourced?
    ensures Encodable(parse, ss[j + 1].readers[id].mapping)
  {
    ReaderChange(cfg, ss[j], es[j], id);
    var r := ss[j + 1].readers[id];
    if !(id in ss[j].readers && r == ss[j].readers[id]) {
      Invariant(cfg, ss, es, j);
      assert LinksOk(cfg, ss[j]) by { assert InvAt(cfg, ss, j); }
      GoodProjects(parse, ss[j].repo[r.code]);
    }
  }

  /** The Redis keys after the first n events: landing puts run the script, evictions delete. */
  ghost function KeysAfter(ss: seq<State>, es: seq<Event>, n: nat): Keys
    requires n <= |es| <= |ss|
  {
    if n == 0 then map[]
    else
      var keys := KeysAfter(ss, es, n - 1);
      match es[n - 1]
      case Land(put) => PutKeys(keys, put.mapping, put.ttl, ss[n - 1].now)
      case Evict(code) => keys - {KeyOf(code)}
      case _ => keys
  }

  lemma EvictRefines(parse: UrlParser, keys: Keys, cache: Cache, code: string)
    requires Represents(parse, keys, cache)
    ensures Represents(parse, keys - {KeyOf(code)}, cache - {code})
  {
    forall other | other in cache - {code} ensures KeyOf(other) in keys - {KeyOf(code)} {
      KeysAreInjective(code, other);
    }
    forall key | key in keys - {KeyOf(code)} ensures IsKeyOf(cache - {code}, key) {
      assert IsKeyOf(cache, key);
      var other :| other in cache && key == KeyOf(other);
      assert other in cache - {code};
    }
  }

  lemma {:induction false} RunIsGood(cfg: Config, parse: UrlParser, ss: seq<State>, es: seq<Event>, n: nat)
    requires IsRun(cfg, ss, es) && n <= |es|
    requires Faithful(parse) && AllRequestable(parse, es)
    ensures GoodState(parse, ss[n])
  {
    if n > 0 {
      RunIsGood(cfg, parse, ss, es, n - 1);
      RequestableIsGood(parse, es[n - 1]);
      var s' := ss[n];
      forall code | code in s'.repo ensures GoodLink(parse, s'.repo[code]) {
        RepoStaysGood(cfg, parse, ss[n - 1], es[n - 1], code);
      }
      forall id | id in s'.mutators ensures GoodMutator(parse, s'.mutators[id]) {
        MutatorsStayGood(cfg, parse, ss[n - 1], es[n - 1], id);
      }
      forall id | id in s'.readers && s'.readers[id].Sourced? ensures Encodable(parse, s'.readers[id].mapping) {
        ReadersStayGood(cfg, parse, ss, es, n - 1, id);
      }
      forall p | p in s'.puts ensures Encodable(parse, p.mapping) {
        PutsStayGood(cfg, parse, ss, es, n - 1, p);
      }
    }
  }

  /**
   * Over every run, the string hashes written by the script represent the typed cache of the
   * protocol, so each cache read decodes to exactly what the protocol's cache read returns.
   */
  lemma {:induction false} HashesRefineCache(cfg: Config, parse: UrlParser, ss: seq<State>, es: seq<Event>, n: nat)
    requires IsRun(cfg, ss, es) && n <= |es|
    requires Faithful(parse) && AllRequestable(parse, es)
    ensures Represents(parse, KeysAfter(ss, es, n), ss[n].cache)
    ensures forall code ::
      Lookup(parse, KeysAfter(ss, es, n), code, ss[n].now) == CacheGet(ss[n].cache, code, ss[n].now)
  {
    if n > 0 {
      HashesRefineCache(cfg, parse, ss, es, n - 1);
      RunIsGood(cfg, parse, ss, es, n - 1);
      KeysStep(cfg, parse, ss, es, n);
    }
    forall code ensures Lookup(parse, KeysAfter(ss, es, n), code, ss[n].now) == CacheGet(ss[n].cache, code, ss[n].now) {
      LookupRefinesGet(parse, KeysAfter(ss, es, n), ss[n].cache, code, ss[n].now);
    }
  }

  /** What one event does to the typed cache and to the keys. */
  lemma StepOnBoth(cfg: Config, ss: seq<State>, es: seq<Event>, n: nat)
    requires IsRun(cfg, ss, es) && 0 < n <= |es|
    ensures var keys, s, e := KeysAfter(ss, es, n - 1), ss[n - 1], es[n - 1];
      && (e.Land? ==> ss[n].cache == AfterPut(s.cache, e.put.mapping, e.put.ttl, s.now)
                      && KeysAfter(ss, es, n) == PutKeys(keys, e.put.mapping, e.put.ttl, s.now))
      && (e.Evict? ==> ss[n].cache == s.cache - {e.code} && KeysAfter(ss, es, n) == keys - {KeyOf(e.code)})
      && (!e.Land? && !e.Evict? ==> ss[n].cache == s.cache && KeysAfter(ss, es, n) == keys)
  {
  }

  lemma KeysStep(cfg: Config, parse: UrlParser, ss: seq<State>, es: seq<Event>, n: nat)
    requires IsRun(cfg, ss, es) && 0 < n <= |es| && GoodState(parse, ss[n - 1])
    requires Represents(parse, KeysAfter(ss, es, n - 1), ss[n - 1].cache)
    ensures Represents(parse, KeysAfter(ss, es, n), ss[n].cache)
  {
    StepOnBoth(cfg, ss, es, n);
    var keys, s, e := KeysAfter(ss, es, n - 1), ss[n - 1], es[n - 1];
    if e.Land? {
      assert e.put in s.puts;
      PutKeysRefines(parse, keys, s.cache, e.put.mapping, e.put.ttl, s.now);
    } else if e.Evict? {
      EvictRefines(parse, keys, s.cache, e.code);
    }
  }
}
