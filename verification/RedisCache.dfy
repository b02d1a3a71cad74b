/**
 * The Redis adapter: mappings as string hashes, the conditional-write script, and the proof that
 * it behaves as the typed cache of CacheModel.
 */
module RedisCache {
  import opened Prelude
  import opened Domain
  import opened CacheModel
  import opened Decimal

  /** Nanoseconds from time zero to 1 January 1970. */
  const UNIX_EPOCH: int := 62_135_596_800 * 1_000_000_000

  const KEY_PREFIX := "tinyurl:redirect:v1:"

  function KeyOf(code: string): string { KEY_PREFIX + code }

  function UnixMilli(t: Time): int { (t - UNIX_EPOCH) / MILLISECOND }

  function FromUnixMilli(ms: int): Time { UNIX_EPOCH + ms * MILLISECOND }

  /** The destination parser, a parameter of the model. */
  type UrlParser = string -> Result<string, Error>

  /** What the model assumes of it: results are non-empty and parse to themselves. */
  ghost predicate Faithful(parse: UrlParser) {
    forall raw :: parse(raw).Ok? ==> parse(raw).value != "" && parse(parse(raw).value) == parse(raw)
  }

  type Fields = map<string, string>

  datatype RedisKey = RedisKey(fields: Fields, deadline: Time)

  type Keys = map<string, RedisKey>

  function FormatExpiresAt(expiresAt: Option<Time>): string {
    if expiresAt.None? then "" else FormatInt(UnixMilli(expiresAt.value))
  }

  function ParseExpiresAt(raw: string): Result<Option<Time>, Error> {
    if raw == "" then Ok(None)
    else
      var ms := ParseInt(raw);
      if ms.None? then Err(CorruptCacheEntry) else Ok(Some(FromUnixMilli(ms.value)))
  }

  function Encode(m: RedirectMapping): Fields {
    map["destination" := m.destination, "status" := m.status.ToString(),
        "version" := FormatUint(m.version), "expires_at" := FormatExpiresAt(m.expiresAt)]
  }

  /** A missing hash field reads as the empty string. */
  function Field(fields: Fields, name: string): string { if name in fields then fields[name] else "" }

  function Decode(parse: UrlParser, code: string, fields: Fields): Result<RedirectMapping, Error> {
    var destination := parse(Field(fields, "destination"));
    if destination.Err? then Err(CorruptCacheEntry)
    else
      var status := ParseLinkStatus(Field(fields, "status"));
      if status.Err? then Err(CorruptCacheEntry)
      else
        var version := ParseUint(Field(fields, "version"));
        if version.None? then Err(CorruptCacheEntry)
        else
          var expiresAt := ParseExpiresAt(Field(fields, "expires_at"));
          if expiresAt.Err? then Err(CorruptCacheEntry)
          else
            var m := NewRedirectMapping(code, destination.value, status.value, expiresAt.value, version.value);
            if m.Err? then Err(CorruptCacheEntry) else m
  }

  /** The mappings that the program can build and that a Redis hash can carry. */
  ghost predicate Encodable(parse: UrlParser, m: RedirectMapping) {
    && Trimmed(m.code) && m.code != ""
    && m.destination != "" && parse(m.destination) == Ok(m.destination)
    && m.status.IsValid() && 1 <= m.version < TWO_64
    && (m.expiresAt.Some? ==> -TWO_63 <= UnixMilli(m.expiresAt.value) < TWO_63)
  }

  /** The days of the years 1 to y - 1 in the Gregorian calendar. */
  function DaysBefore(y: nat): nat
    requires y > 0
  {
    365 * (y - 1) + (y - 1) / 4 - (y - 1) / 100 + (y - 1) / 400
  }

  /** The whole milliseconds since the start of 1970, from time's zero at the start of the year 1. */
  lemma MillisFloor(t: Time)
    ensures FromUnixMilli(UnixMilli(t)) == FloorMillis(t)
    ensures UnixMilli(FloorMillis(t)) == UnixMilli(t)
    ensures 0 <= t - DaysBefore(1970) * 86_400_000_000_000 - UnixMilli(t) * 1_000_000 < 1_000_000
  {
    assert UNIX_EPOCH % MILLISECOND == 0;
  }

  /** Reading back what was written gives the mapping with its expiration floored to the millisecond. */
  lemma HashRoundTrip(parse: UrlParser, m: RedirectMapping)
    requires Encodable(parse, m)
    ensures Decode(parse, m.code, Encode(m)) == Ok(Truncated(m))
    ensures Encode(Truncated(m)) == Encode(m)
  {
    StatusRoundTrip(m.status, "");
    DecimalRoundTrip(m.version, if m.expiresAt.Some? then UnixMilli(m.expiresAt.value) else 0);
    if m.expiresAt.Some? {
      MillisFloor(m.expiresAt.value);
    }
  }

  /** The hash of a mapping, string by string; the expiration is empty or a count of milliseconds. */
  lemma HashLayout(m: RedirectMapping)
    requires m.status != Unknown && m.version < TWO_64
    requires m.expiresAt.Some? ==> -TWO_63 <= UnixMilli(m.expiresAt.value) < TWO_63
    ensures KeyOf(m.code) == "tinyurl:redirect:v1:" + m.code
    ensures var h := Encode(m);
      && h.Keys == {"destination", "status", "version", "expires_at"}
      && h["destination"] == m.destination
      && (h["status"], m.status) in {("active", Active), ("disabled", Disabled), ("deleted", Deleted)}
      && Canonical(h["version"]) && Value(h["version"]) == m.version
      && (h["expires_at"] == "" <==> m.expiresAt.None?)
      && (m.expiresAt.Some? ==> ParseInt(h["expires_at"]) == Some(UnixMilli(m.expiresAt.value)))
  {
    StatusRoundTrip(m.status, m.status.ToString());
    FormatIsCanonical(m.version);
    DecimalRoundTrip(m.version, if m.expiresAt.Some? then UnixMilli(m.expiresAt.value) else 0);
  }

  /** The expiration that a field denotes: none when empty, else its count of milliseconds. */
  ghost predicate Denotes(raw: string, expiresAt: Option<Time>) {
    if expiresAt.None? then raw == ""
    else raw != "" && exists ms :: ParseInt(raw) == Some(ms) && expiresAt == Some(FromUnixMilli(ms))
  }

  /** A hash is read back as a mapping exactly when all its fields make sense, and is corrupt otherwise. */
  lemma DecodeIsExact(parse: UrlParser, code: string, h: Fields, m: RedirectMapping)
    requires {"destination", "status", "version", "expires_at"} <= h.Keys
    ensures Decode(parse, code, h) == Ok(m) <==>
      && m.code == TrimSpace(code) != "" && parse(h["destination"]) == Ok(m.destination) && m.destination != ""
      && (h["status"], m.status) in {("active", Active), ("disabled", Disabled), ("deleted", Deleted)}
      && ParseUint(h["version"]) == Some(m.version) && m.version != 0
      && Denotes(h["expires_at"], m.expiresAt)
    ensures Decode(parse, code, h).Err? ==> Decode(parse, code, h) == Err(CorruptCacheEntry)
  {
    StatusRoundTrip(m.status, h["status"]);
    var raw := h["expires_at"];
    if raw != "" && ParseInt(raw).Some? {
      assert ParseExpiresAt(raw) == Ok(Some(FromUnixMilli(ParseInt(raw).value)));
    }
  }

  // ---------------------------------------------------------------------------------------------
  // The server side
  // ---------------------------------------------------------------------------------------------

  predicate KeyLive(keys: Keys, key: string, now: Time) { key in keys && now < keys[key].deadline }

  /** putIfNewerScript, one atomic step on the server. */
  function RunScript(keys: Keys, key: string, fields: Fields, ttlMillis: int, now: Time): Keys
    requires "version" in fields
  {
    if KeyLive(keys, key, now) && "version" in keys[key].fields
       && ScriptRejects(keys[key].fields["version"], fields["version"])
    then keys
    else
      var previous := if KeyLive(keys, key, now) then keys[key].fields else map[];
      keys[key := RedisKey(previous + fields, now + ttlMillis * MILLISECOND)]
  }

  ghost predicate IsKeyOf(cache: Cache, key: string) {
    exists code :: code in cache && key == KeyOf(code)
  }

  /** One stored hash is one typed entry. */
  ghost predicate Stores(parse: UrlParser, k: RedisKey, code: string, e: Entry) {
    && e.mapping.code == code
    && Encodable(parse, e.mapping) && Truncated(e.mapping) == e.mapping
    && k == RedisKey(Encode(e.mapping), e.deadline)
  }

  /** The keys are the typed cache, entry by entry. */
  ghost predicate Represents(parse: UrlParser, keys: Keys, cache: Cache) {
    && (forall key :: key in keys ==> IsKeyOf(cache, key))
    && (forall code :: code in cache ==>
          KeyOf(code) in keys && Stores(parse, keys[KeyOf(code)], code, cache[code]))
  }

  lemma KeysAreInjective(code: string, other: string)
    ensures KeyOf(code) == KeyOf(other) ==> code == other
  {
    assert KeyOf(code)[|KEY_PREFIX|..] == code;
    assert KeyOf(other)[|KEY_PREFIX|..] == other;
  }

  lemma VersionOrder(v: nat, w: nat)
    ensures ScriptRejects(FormatUint(v), FormatUint(w)) <==> v > w
  {
    FormatIsCanonical(v);
    FormatIsCanonical(w);
    ScriptComparesNumbers(FormatUint(v), FormatUint(w));
  }

  lemma SameResidency(parse: UrlParser, keys: Keys, cache: Cache, code: string, now: Time)
    requires Represents(parse, keys, cache)
    ensures KeyOf(code) in keys <==> code in cache
    ensures KeyLive(keys, KeyOf(code), now) <==> Live(cache, code, now)
  {
    if KeyOf(code) in keys {
      var other :| other in cache && KeyOf(code) == KeyOf(other);
      KeysAreInjective(code, other);
    }
  }

  lemma StoreRefines(parse: UrlParser, keys: Keys, cache: Cache, code: string, k: RedisKey, e: Entry)
    requires Represents(parse, keys, cache) && Stores(parse, k, code, e)
    ensures Represents(parse, keys[KeyOf(code) := k], cache[code := e])
  {
    var keys', cache' := keys[KeyOf(code) := k], cache[code := e];
    forall other | other in cache'
      ensures KeyOf(other) in keys' && Stores(parse, keys'[KeyOf(other)], other, cache'[other])
    {
      KeysAreInjective(code, other);
    }
    forall key | key in keys' ensures IsKeyOf(cache', key) {
      if key == KeyOf(code) {
        assert code in cache';
      } else {
        assert IsKeyOf(cache, key);
        var other :| other in cache && key == KeyOf(other);
        assert other in cache';
      }
    }
  }

  lemma TruncatedEncodable(parse: UrlParser, m: RedirectMapping)
    requires Encodable(parse, m)
    ensures Encodable(parse, Truncated(m)) && Truncated(m).code == m.code
  {
    if m.expiresAt.Some? {
      MillisFloor(m.expiresAt.value);
    }
  }

  lemma EncodedStores(parse: UrlParser, m: RedirectMapping, deadline: Time)
    requires Encodable(parse, m)
    ensures Stores(parse, RedisKey(Encode(m), deadline), m.code, Entry(Truncated(m), deadline))
  {
    TruncatedEncodable(parse, m);
    TruncationIsConservative(m, 0);
    assert Encode(Truncated(m)) == Encode(m) by { HashRoundTrip(parse, m); }
  }

  lemma EncodeKeys(m: RedirectMapping, n: RedirectMapping)
    ensures Encode(m) + Encode(n) == Encode(n)
    ensures "version" in Encode(m) && Encode(m)["version"] == FormatUint(m.version)
  {
    assert Encode(m).Keys == {"destination", "status", "version", "expires_at"};
    assert Encode(n).Keys == {"destination", "status", "version", "expires_at"};
  }

  /** The script overwrites the whole hash, exactly when the typed put is accepted. */
  lemma ScriptStep(parse: UrlParser, keys: Keys, cache: Cache, m: RedirectMapping, ttlMillis: int, now: Time)
    requires Represents(parse, keys, cache)
    ensures RunScript(keys, KeyOf(m.code), Encode(m), ttlMillis, now) ==
      if Rejected(cache, m, now) then keys
      else keys[KeyOf(m.code) := RedisKey(Encode(m), now + ttlMillis * MILLISECOND)]
  {
    SameResidency(parse, keys, cache, m.code, now);
    if Live(cache, m.code, now) {
      VersionOrder(cache[m.code].mapping.version, m.version);
      EncodeKeys(cache[m.code].mapping, m);
    } else {
      assert map[] + Encode(m) == Encode(m);
    }
  }

  /** The script on string hashes is the typed conditional put. */
  lemma ScriptRefinesPut(parse: UrlParser, keys: Keys, cache: Cache, m: RedirectMapping, ttl: int, now: Time)
    requires Represents(parse, keys, cache) && Encodable(parse, m) && Milliseconds(ttl) > 0
    ensures Represents(parse, RunScript(keys, KeyOf(m.code), Encode(m), Milliseconds(ttl), now),
                       AfterPut(cache, m, ttl, now))
  {
    ScriptStep(parse, keys, cache, m, Milliseconds(ttl), now);
    if !Rejected(cache, m, now) {
      var deadline := now + Milliseconds(ttl) * MILLISECOND;
      EncodedStores(parse, m, deadline);
      StoreRefines(parse, keys, cache, m.code, RedisKey(Encode(m), deadline), Entry(Truncated(m), deadline));
      assert AfterPut(cache, m, ttl, now) == cache[m.code := Entry(Truncated(m), deadline)];
    }
  }

  /** Everything a delivered PutIfNewer does to the keys. */
  function PutKeys(keys: Keys, m: RedirectMapping, ttl: int, now: Time): Keys {
    if Milliseconds(ttl) <= 0 then keys
    else RunScript(keys, KeyOf(m.code), Encode(m), Milliseconds(ttl), now)
  }

  /** PutIfNewer on string hashes is the typed conditional put, errors included. */
  lemma PutKeysRefines(parse: UrlParser, keys: Keys, cache: Cache, m: RedirectMapping, ttl: int, now: Time)
    requires Represents(parse, keys, cache) && Encodable(parse, m)
    ensures Represents(parse, PutKeys(keys, m, ttl, now), AfterPut(cache, m, ttl, now))
  {
    if Milliseconds(ttl) > 0 {
      ScriptRefinesPut(parse, keys, cache, m, ttl, now);
    }
  }

  /** What Get answers from the stored strings. */
  function Lookup(parse: UrlParser, keys: Keys, code: string, now: Time): Result<RedirectMapping, Error> {
    var key := KeyOf(code);
    if !KeyLive(keys, key, now) || keys[key].fields == map[] then Err(RedirectCacheMiss)
    else Decode(parse, code, keys[key].fields)
  }

  /** Decoding the stored strings is the typed lookup. */
  lemma LookupRefinesGet(parse: UrlParser, keys: Keys, cache: Cache, code: string, now: Time)
    requires Represents(parse, keys, cache)
    ensures Lookup(parse, keys, code, now) == CacheGet(cache, code, now)
  {
    SameResidency(parse, keys, cache, code, now);
    if Live(cache, code, now) {
      HashRoundTrip(parse, cache[code].mapping);
      assert "version" in Encode(cache[code].mapping);
    }
  }

  /** An accepted put followed by a get, with the key live, returns the mapping floored to the millisecond. */
  lemma GetAfterPut(parse: UrlParser, keys: Keys, cache: Cache, m: RedirectMapping, ttl: int, now: Time, later: Time)
    requires Represents(parse, keys, cache) && Encodable(parse, m)
    requires now <= later < now + Milliseconds(ttl) * MILLISECOND && !Rejected(cache, m, now)
    ensures Lookup(parse, PutKeys(keys, m, ttl, now), m.code, later) == Ok(Truncated(m))
  {
    PutKeysRefines(parse, keys, cache, m, ttl, now);
    LookupRefinesGet(parse, PutKeys(keys, m, ttl, now), AfterPut(cache, m, ttl, now), m.code, later);
  }

  /** How a round trip to Redis may go: well, without reaching the server, or without an answer. */
  datatype Net = Healthy | RequestLost | ReplyLost

  class RedirectCache {
    var keys: Keys
    const parse: UrlParser

    constructor (parse: UrlParser)
      ensures keys == map[] && this.parse == parse
    {
      this.keys := map[];
      this.parse := parse;
    }

    /** A write that fails may still have taken effect; a put refused by version is not an error. */
    method PutIfNewer(net: Net, m: RedirectMapping, ttl: int, now: Time) returns (err: Option<Error>)
      modifies this
      ensures keys == if net == RequestLost then old(keys) else PutKeys(old(keys), m, ttl, now)
      ensures err ==
        if ttl < 1_000_000 then Some(CacheTTLTooShort) else if net == Healthy then None else Some(Backend)
    {
      var ttlMilliseconds := Milliseconds(ttl);
      if ttlMilliseconds <= 0 {
        return Some(CacheTTLTooShort);
      }
      if net == RequestLost {
        return Some(Backend);
      }
      keys := RunScript(keys, KeyOf(m.code), Encode(m), ttlMilliseconds, now);
      err := if net == Healthy then None else Some(Backend);
    }

    method Get(net: Net, code: string, now: Time) returns (r: Result<RedirectMapping, Error>)
      ensures r == if net == Healthy then Lookup(parse, keys, code, now) else Err(Backend)
      ensures var key := "tinyurl:redirect:v1:" + code;
        net == Healthy && !(key in keys && now < keys[key].deadline && keys[key].fields != map[]) ==>
          r == Err(RedirectCacheMiss)
    {
      if net != Healthy {
        return Err(Backend);
      }
      var key := KeyOf(code);
      if !KeyLive(keys, key, now) || keys[key].fields == map[] {
        return Err(RedirectCacheMiss);
      }
      r := Decode(parse, code, keys[key].fields);
    }
  }
}
