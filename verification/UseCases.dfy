/** The redirect and change use cases as the program runs them, and their place in the protocol. */
module UseCases {
  import opened Prelude
  import opened Domain
  import opened CacheModel
  import opened LinkObject
  import opened MemoryStore
  import opened RedisCache
  import StoreModel

  /** RepositoryResolver.Resolve on the stored links: the answer the cache merely speeds up. */
  function SourceResolve(links: StoreModel.Links, code: string): Result<RedirectMapping, Error> {
    var found := StoreModel.Find(links, code);
    if found.Err? then Err(found.error) else RedirectMappingFromLink(found.value)
  }

  /** The stored link's own fields, or not found. */
  lemma SourceIsExact(links: StoreModel.Links, code: string)
    ensures code !in links ==> SourceResolve(links, code) == Err(LinkNotFound)
    ensures code in links && links[code].Valid() ==>
      var l := links[code];
      SourceResolve(links, code) == Ok(RedirectMapping(l.code, l.destination, l.status, l.expiresAt, l.version))
  {
  }

  method ResolveFromRepository(repository: Repository, ctxDone: bool, code: string)
    returns (r: Result<RedirectMapping, Error>)
    ensures r == if ctxDone then Err(ContextDone) else SourceResolve(repository.Contents(), code)
  {
    var found := repository.FindByCode(ctxDone, code);
    if found.Err? {
      return Err(found.error);
    }
    r := RedirectMappingFromLink(View(found.value));
  }

  datatype RedirectCacheConfig = RedirectCacheConfig(operationTimeout: int, activeTTL: int, inactiveTTL: int)

  function ValidateRedirectCacheConfig(c: RedirectCacheConfig): Option<Error> {
    if c.operationTimeout <= 0 || c.activeTTL <= 0 || c.inactiveTTL <= 0 then Some(InvalidCacheConfig) else None
  }

  /** NewCacheAsideResolver: no resolver exists with a non-positive timeout or TTL. */
  method NewCacheAsideResolver(cache: RedirectCache, source: Repository, config: RedirectCacheConfig)
    returns (r: Result<CacheAsideResolver, Error>)
    ensures r.Ok? <==> 0 < config.operationTimeout && 0 < config.activeTTL && 0 < config.inactiveTTL
    ensures r.Ok? ==>
      && r.value.cache == cache && r.value.source == source
      && r.value.activeTTL == config.activeTTL && r.value.inactiveTTL == config.inactiveTTL
  {
    var invalid := ValidateRedirectCacheConfig(config);
    if invalid.Some? {
      return Err(invalid.value);
    }
    var resolver := new CacheAsideResolver(cache, source, config.activeTTL, config.inactiveTTL);
    r := Ok(resolver);
  }

  class CacheAsideResolver {
    const cache: RedirectCache
    const source: Repository
    const activeTTL: int
    const inactiveTTL: int

    constructor (cache: RedirectCache, source: Repository, activeTTL: int, inactiveTTL: int)
      ensures this.cache == cache && this.source == source
      ensures this.activeTTL == activeTTL && this.inactiveTTL == inactiveTTL
    {
      this.cache, this.source := cache, source;
      this.activeTTL, this.inactiveTTL := activeTTL, inactiveTTL;
    }

    /**
     * A usable cached entry is the answer; otherwise the source decides alone, and no cache failure
     * (read, write, lost reply) ever shows.  The parameters are the failures and the clock readings
     * met on the way.
     */
    method Resolve(code: string, getNet: Net, getAt: Time, ctxDone: bool, ttlAt: Time, putNet: Net, putAt: Time)
      returns (r: Result<RedirectMapping, Error>)
      modifies cache
      ensures getNet == Healthy && Lookup(cache.parse, old(cache.keys), code, getAt).Ok? ==>
        r == Lookup(cache.parse, old(cache.keys), code, getAt) && cache.keys == old(cache.keys)
      ensures getNet != Healthy || Lookup(cache.parse, old(cache.keys), code, getAt).Err? ==>
        && r == (if ctxDone then Err(ContextDone) else SourceResolve(source.Contents(), code))
        && cache.keys ==
             if r.Ok? && putNet != RequestLost && RedirectCacheTTL(r.value, ttlAt, activeTTL, inactiveTTL).Some?
             then
               var ttl := RedirectCacheTTL(r.value, ttlAt, activeTTL, inactiveTTL).value;
               PutKeys(old(cache.keys), r.value, ttl, putAt)
             else old(cache.keys)
    {
      r := cache.Get(getNet, code, getAt);
      if r.Ok? {
        return;
      }
      r := ResolveFromRepository(source, ctxDone, code);
      if r.Err? {
        return;
      }
      var ttl := RedirectCacheTTL(r.value, ttlAt, activeTTL, inactiveTTL);
      if ttl.None? {
        return;
      }
      var _ := cache.PutIfNewer(putNet, r.value, ttl.value, putAt);
    }
  }

  /** RedirectLink.Execute after Resolve: the last check before the answer. */
  function RedirectAnswer(resolved: Result<RedirectMapping, Error>, now: Time): Result<string, Error> {
    if resolved.Err? then Err(resolved.error)
    else if !resolved.value.CanRedirect(now) then Err(LinkUnavailable)
    else Ok(resolved.value.destination)
  }

  /**
   * The resolver's error passes through; a mapping is answered with its destination exactly while it
   * is active and not expired, and is unavailable otherwise.
   */
  lemma AnswerIsExact(resolved: Result<RedirectMapping, Error>, now: Time)
    ensures resolved.Err? ==> RedirectAnswer(resolved, now) == Err(resolved.error)
    ensures resolved.Ok? ==>
      RedirectAnswer(resolved, now) ==
        if now != 0 && resolved.value.status == Active
           && (resolved.value.expiresAt.Some? ==> now < resolved.value.expiresAt.value)
        then Ok(resolved.value.destination)
        else Err(LinkUnavailable)
  {
  }

  /** A redirect may be answered: the status is active and the expiration lies ahead. */
  ghost predicate Usable(status: LinkStatus, expiresAt: Option<Time>, now: Time) {
    now != 0 && status == Active && (expiresAt.Some? ==> now < expiresAt.value)
  }

  /**
   * RedirectLink.Execute.  The client is sent to the destination of the cached mapping or, past it, of
   * the stored link, exactly when that may redirect now; an unknown code and a failing source are
   * reported as such, and everything else is unavailable.
   */
  method ExecuteRedirect(
    resolver: CacheAsideResolver, code: string,
    getNet: Net, getAt: Time, ctxDone: bool, ttlAt: Time, putNet: Net, putAt: Time, now: Time
  ) returns (r: Result<string, Error>)
    modifies resolver.cache
    ensures var hit := Lookup(resolver.cache.parse, old(resolver.cache.keys), code, getAt);
      var stored := resolver.source.Contents();
      if getNet == Healthy && hit.Ok? then
        r == if Usable(hit.value.status, hit.value.expiresAt, now) then Ok(hit.value.destination)
             else Err(LinkUnavailable)
      else if ctxDone then r == Err(ContextDone)
      else if code !in stored then r == Err(LinkNotFound)
      else
        stored[code].Valid() ==>
          r == if Usable(stored[code].status, stored[code].expiresAt, now) then Ok(stored[code].destination)
               else Err(LinkUnavailable)
    ensures var keys, parse := old(resolver.cache.keys), resolver.cache.parse;
      var stored := SourceResolve(resolver.source.Contents(), code);
      resolver.cache.keys ==
        if (getNet == Healthy && Lookup(parse, keys, code, getAt).Ok?) || ctxDone || stored.Err? then keys
        else
          var ttl := RedirectCacheTTL(stored.value, ttlAt, resolver.activeTTL, resolver.inactiveTTL);
          if putNet == RequestLost || ttl.None? then keys else PutKeys(keys, stored.value, ttl.value, putAt)
    ensures resolver.source.Contents() == old(resolver.source.Contents())
  {
    var mapping := resolver.Resolve(code, getNet, getAt, ctxDone, ttlAt, putNet, putAt);
    SourceIsExact(resolver.source.Contents(), code);
    AnswerIsExact(mapping, now);
    if mapping.Err? {
      return Err(mapping.error);
    }
    if !mapping.value.CanRedirect(now) {
      return Err(LinkUnavailable);
    }
    return Ok(mapping.value.destination);
  }

  /** The keys after a best-effort refresh with this link. */
  function RefreshedKeys(
    keys: Keys, l: Link, activeTTL: int, inactiveTTL: int, ttlAt: Time, net: Net, putAt: Time
  ): Keys
  {
    var m := RedirectMappingFromLink(l);
    if m.Err? || net == RequestLost then keys
    else
      var ttl := RedirectCacheTTL(m.value, ttlAt, activeTTL, inactiveTTL);
      if ttl.None? then keys else PutKeys(keys, m.value, ttl.value, putAt)
  }

  /** A refresh that reaches the cache puts the link's projection, unless the link has expired. */
  lemma RefreshWrites(
    keys: Keys, l: Link, activeTTL: int, inactiveTTL: int, ttlAt: Time, net: Net, putAt: Time
  )
    requires l.Valid()
    ensures var m := RedirectMapping(l.code, l.destination, l.status, l.expiresAt, l.version);
      var ttl := RedirectCacheTTL(m, ttlAt, activeTTL, inactiveTTL);
      RefreshedKeys(keys, l, activeTTL, inactiveTTL, ttlAt, net, putAt) ==
        if net == RequestLost || ttl.None? then keys else PutKeys(keys, m, ttl.value, putAt)
  {
    ProjectionFaithful(l, 0);
  }

  /**
   * A change shows: after a refresh that reaches the cache, every lookup within the TTL returns the
   * changed link's projection, unless a newer version is already resident.
   */
  lemma RefreshIsVisible(
    parse: UrlParser, keys: Keys, cache: Cache, l: Link, activeTTL: int, inactiveTTL: int,
    ttlAt: Time, net: Net, putAt: Time, later: Time
  )
    requires l.Valid() && 0 < activeTTL < TWO_63 && 0 < inactiveTTL < TWO_63 && net != RequestLost
    requires Represents(parse, keys, cache)
    requires Encodable(parse, RedirectMapping(l.code, l.destination, l.status, l.expiresAt, l.version))
    requires l.code in cache && putAt < cache[l.code].deadline ==> cache[l.code].mapping.version <= l.version
    requires putAt <= later && later + 1_000_000 <= putAt + (if l.status == Active then activeTTL else inactiveTTL)
    requires l.expiresAt.Some? ==> later + 1_000_000 <= l.expiresAt.value - ttlAt + putAt
    ensures Lookup(parse, RefreshedKeys(keys, l, activeTTL, inactiveTTL, ttlAt, net, putAt), l.code, later) ==
      Ok(Truncated(RedirectMapping(l.code, l.destination, l.status, l.expiresAt, l.version)))
  {
    var m := RedirectMapping(l.code, l.destination, l.status, l.expiresAt, l.version);
    RefreshWrites(keys, l, activeTTL, inactiveTTL, ttlAt, net, putAt);
    TTLClamp(m, ttlAt, activeTTL, inactiveTTL);
    var ttl := RedirectCacheTTL(m, ttlAt, activeTTL, inactiveTTL).value;
    PutKeepsNewest(cache, m, ttl, putAt);
    GetAfterPut(parse, keys, cache, m, ttl, putAt, later);
  }

  class CacheRefreshingRepository {
    const source: Repository
    const cache: RedirectCache
    const activeTTL: int
    const inactiveTTL: int

    constructor (source: Repository, cache: RedirectCache, activeTTL: int, inactiveTTL: int)
      ensures this.cache == cache && this.source == source
      ensures this.activeTTL == activeTTL && this.inactiveTTL == inactiveTTL
    {
      this.cache, this.source := cache, source;
      this.activeTTL, this.inactiveTTL := activeTTL, inactiveTTL;
    }

    /** The keys after a best-effort refresh with this link. */
    function Refreshed(keys: Keys, l: Link, ttlAt: Time, net: Net, putAt: Time): Keys {
      RefreshedKeys(keys, l, activeTTL, inactiveTTL, ttlAt, net, putAt)
    }

    /** RedirectCacheRefresher.Refresh. */
    method Refresh(link: LinkStruct, ttlAt: Time, net: Net, putAt: Time) returns (err: Option<Error>)
      modifies cache
      ensures cache.keys == Refreshed(old(cache.keys), View(link), ttlAt, net, putAt)
      ensures err ==
        var m := RedirectMappingFromLink(View(link));
        if m.Err? then Some(m.error)
        else
          var ttl := RedirectCacheTTL(m.value, ttlAt, activeTTL, inactiveTTL);
          if ttl.None? then None
          else if ttl.value < MILLISECOND then Some(CacheTTLTooShort)
          else if net == Healthy then None
          else Some(Backend)
      ensures View(link) == old(View(link)) && source.Contents() == old(source.Contents())
    {
      var m := RedirectMappingFromLink(View(link));
      if m.Err? {
        return Some(m.error);
      }
      var ttl := RedirectCacheTTL(m.value, ttlAt, activeTTL, inactiveTTL);
      if ttl.None? {
        return None;
      }
      err := cache.PutIfNewer(net, m.value, ttl.value, putAt);
    }

    /** Commit first; only a committed link is refreshed, and the refresh cannot fail the update. */
    method Update(ctxDone: bool, link: LinkStruct, expectedVersion: nat, ttlAt: Time, net: Net, putAt: Time)
      returns (err: Option<Error>)
      modifies source, cache
      ensures err == None <==>
        !ctxDone && link.code in old(source.links) && old(source.links)[link.code].version == expectedVersion
      ensures View(link) == old(View(link))
      ensures err == None ==> source.Contents() == old(source.Contents())[link.code := View(link)]
      ensures err.Some? ==>
        err.value ==
          if ctxDone then ContextDone else if link.code in old(source.links) then VersionConflict else LinkNotFound
      ensures err.Some? ==> source.links == old(source.links)
      ensures cache.keys ==
        if err == None then Refreshed(old(cache.keys), View(link), ttlAt, net, putAt) else old(cache.keys)
      ensures old(source.Valid()) ==> source.Valid()
    {
      err := source.Update(ctxDone, link, expectedVersion);
      if err.Some? {
        return;
      }
      var _ := Refresh(link, ttlAt, net, putAt);
    }
  }

  /** What a client may ask: one of the three change use cases. */
  datatype Request =
    | ChangeStatus(status: LinkStatus)
    | ChangeDestination(raw: string)
    | ChangeExpiration(expiresAt: Option<Time>)

  function Requested(parse: UrlParser, request: Request): Result<Change, Error> {
    match request
    case ChangeStatus(status) => Ok(ToStatus(status))
    case ChangeDestination(raw) =>
      var destination := parse(raw);
      if destination.Err? then Err(destination.error) else Ok(ToDestination(destination.value))
    case ChangeExpiration(expiresAt) => Ok(ToExpiration(expiresAt))
  }

  /** What the three change use cases decide when nobody interferes between their steps. */
  function ChangeOutcome(
    links: StoreModel.Links, parse: UrlParser, code: string, ownerID: string, expectedVersion: nat,
    request: Request, now: Time
  ): Result<Link, Error>
  {
    var admitted := StoreModel.Admit(links, code, ownerID, expectedVersion);
    if admitted.Err? then admitted
    else
      var change := Requested(parse, request);
      if change.Err? then Err(change.error) else ApplyChange(admitted.value, change.value, now)
  }

  /** The owner asks, against the current version, for something that may be done to the link now. */
  ghost predicate Grantable(
    links: StoreModel.Links, parse: UrlParser, code: string, ownerID: string, expectedVersion: nat,
    request: Request, now: Time
  ) {
    && ownerID != "" && expectedVersion != 0 && code in links
    && links[code].ownerID == ownerID && links[code].version == expectedVersion
    && var l := links[code];
       && now != 0 && l.createdAt <= now && l.updatedAt < now
       && match request
          case ChangeStatus(next) =>
            (l.status, next) in {(Active, Disabled), (Active, Deleted), (Disabled, Active), (Disabled, Deleted)}
          case ChangeDestination(raw) =>
            l.status != Deleted && parse(raw).Ok? && parse(raw).value != "" && parse(raw).value != l.destination
          case ChangeExpiration(None) => l.status != Deleted && l.expiresAt.Some?
          case ChangeExpiration(Some(t)) => l.status != Deleted && t != 0 && now < t && l.expiresAt != Some(t)
  }

  /** m is l with what the request asks for, one version on, and nothing else. */
  ghost predicate Carries(l: Link, parse: UrlParser, request: Request, now: Time, m: Link) {
    && m.code == l.code && m.ownerID == l.ownerID && m.createdAt == l.createdAt
    && m.version == (l.version + 1) % TWO_64 && m.updatedAt == now
    && m.status == (if request.ChangeStatus? then request.status else l.status)
    && (if request.ChangeDestination? then parse(request.raw) == Ok(m.destination) else m.destination == l.destination)
    && m.expiresAt == (if request.ChangeExpiration? then request.expiresAt else l.expiresAt)
  }

  /** The change is made exactly when it can be granted, on the owner's link, and as asked. */
  lemma OutcomeIsExact(
    links: StoreModel.Links, parse: UrlParser, code: string, ownerID: string, expectedVersion: nat,
    request: Request, now: Time
  )
    ensures var o, key := ChangeOutcome(links, parse, code, ownerID, expectedVersion, request, now), TrimSpace(code);
      && (o.Ok? <==> Grantable(links, parse, key, TrimSpace(ownerID), expectedVersion, request, now))
      && (o.Ok? ==> Carries(links[key], parse, request, now, o.value))
  {
    var admitted := StoreModel.Admit(links, code, ownerID, expectedVersion);
    StoreModel.AdmitIsExact(links, code, ownerID, expectedVersion,
                            if admitted.Ok? then admitted.value else Link("", "", "", Unknown, 0, 0, None, 0));
    if admitted.Ok? && Requested(parse, request).Ok? {
      ChangeDoes(admitted.value, Requested(parse, request).value, now);
    }
  }

  /** Whom a request is refused to, and why, before anything else about it is looked at. */
  lemma AccessIsExact(
    links: StoreModel.Links, parse: UrlParser, code: string, ownerID: string, expectedVersion: nat,
    request: Request, now: Time
  )
    ensures var o := ChangeOutcome(links, parse, code, ownerID, expectedVersion, request, now);
      var key, owner := TrimSpace(code), TrimSpace(ownerID);
      && (owner == "" ==> o == Err(LinkAccessDenied))
      && (owner != "" && expectedVersion == 0 ==> o == Err(InvalidExpectedVersion))
      && (owner != "" && expectedVersion != 0 && key !in links ==> o == Err(LinkNotFound))
      && (owner != "" && expectedVersion != 0 && key in links ==>
            && (links[key].ownerID != owner ==> o == Err(LinkAccessDenied))
            && (links[key].ownerID == owner && links[key].version != expectedVersion ==> o == Err(VersionConflict))
            && ((links[key].ownerID == owner && links[key].version == expectedVersion
                 && request.ChangeDestination? && parse(request.raw).Err?) ==> o == Err(parse(request.raw).error)))
  {
    StoreModel.AdmitIsExact(links, code, ownerID, expectedVersion, Link("", "", "", Unknown, 0, 0, None, 0));
  }

  /** The error of a request whose lookup is cancelled: owner and version are looked at first. */
  function CancelledFind(ownerID: string, expectedVersion: nat): Error {
    if TrimSpace(ownerID) == "" then LinkAccessDenied
    else if expectedVersion == 0 then InvalidExpectedVersion
    else ContextDone
  }

  /** The checks shared by the three use cases, on a struct copy of the stored link. */
  method FindForChange(source: Repository, ctxDone: bool, code: string, ownerID: string, expectedVersion: nat)
    returns (r: Result<LinkStruct, Error>)
    ensures match StoreModel.Admit(source.Contents(), code, ownerID, expectedVersion)
      case Ok(l) => if ctxDone then r == Err(ContextDone)
                    else TrimSpace(code) in source.links && r == Ok(source.links[TrimSpace(code)]) && View(r.value) == l
      case Err(e) => !ctxDone ==> r == Err(e)
    ensures ctxDone ==> r == Err(CancelledFind(ownerID, expectedVersion))
  {
    var trimmedOwnerID := TrimSpace(ownerID);
    if trimmedOwnerID == "" {
      return Err(LinkAccessDenied);
    }
    if expectedVersion == 0 {
      return Err(InvalidExpectedVersion);
    }
    r := source.FindByCode(ctxDone, TrimSpace(code));
    if r.Err? {
      return;
    }
    if r.value.ownerID != trimmedOwnerID {
      return Err(LinkAccessDenied);
    }
    if r.value.version != expectedVersion {
      return Err(VersionConflict);
    }
  }

  /** The local change, on a variable of the caller's own. */
  method ChangeCopy(v: LinkStruct, change: Change, now: Time) returns (r: Result<LinkStruct, Error>)
    ensures match ApplyChange(View(v), change, now)
      case Ok(l) => r.Ok? && View(r.value) == l && r.value.code == v.code
      case Err(e) => r == Err(e)
  {
    var link := new LinkVariable(v);
    var failed := link.Apply(change, now);
    r := if failed.Some? then Err(failed.value) else Ok(link.v);
  }

  /** Everything before the conditional write. */
  method PrepareChange(
    source: Repository, parse: UrlParser, code: string, ownerID: string, expectedVersion: nat, request: Request,
    ctxDone: bool, now: Time
  ) returns (r: Result<LinkStruct, Error>)
    requires source.Valid()
    ensures ctxDone ==> r == Err(CancelledFind(ownerID, expectedVersion))
    ensures !ctxDone ==>
      match ChangeOutcome(old(source.Contents()), parse, code, ownerID, expectedVersion, request, now)
      case Err(e) => r == Err(e)
      case Ok(l) => r.Ok? && View(r.value) == l
    ensures r.Ok? ==> r.value.code in source.links && source.links[r.value.code].version == expectedVersion
    ensures source.Contents() == old(source.Contents())
  {
    r := FindForChange(source, ctxDone, code, ownerID, expectedVersion);
    if r.Err? {
      return;
    }
    var change := Requested(parse, request);
    if change.Err? {
      return Err(change.error);
    }
    r := ChangeCopy(r.value, change.value, now);
  }

  /**
   * ChangeLinkStatus, ChangeLinkDestination and ChangeLinkExpiration: find, check, change a local
   * copy, write conditionally.  Success stores exactly the changed link and refreshes the cache with
   * it; every failure leaves repository and cache untouched.  The frame holds no time cell, so the
   * expirations shared between copies are never written.
   */
  method ExecuteChange(
    repository: CacheRefreshingRepository, code: string, ownerID: string, expectedVersion: nat, request: Request,
    findDone: bool, now: Time, updateDone: bool, ttlAt: Time, net: Net, putAt: Time
  ) returns (r: Result<LinkStruct, Error>)
    requires repository.source.Valid()
    modifies repository.source, repository.cache
    ensures repository.source.Valid()
    ensures findDone ==>
      r == Err(if TrimSpace(ownerID) == "" then LinkAccessDenied
               else if expectedVersion == 0 then InvalidExpectedVersion
               else ContextDone)
    ensures !findDone && updateDone ==>
      match ChangeOutcome(
        old(repository.source.Contents()), repository.cache.parse, code, ownerID, expectedVersion, request, now)
      case Err(e) => r == Err(e)
      case Ok(_) => r == Err(ContextDone)
    ensures !findDone && !updateDone ==>
      match ChangeOutcome(
        old(repository.source.Contents()), repository.cache.parse, code, ownerID, expectedVersion, request, now)
      case Err(e) => r == Err(e)
      case Ok(l) =>
        r.Ok? && View(r.value) == l && repository.source.Contents() == old(repository.source.Contents())[l.code := l]
    ensures !findDone && !updateDone ==>
      (r.Ok? <==> Grantable(old(repository.source.Contents()), repository.cache.parse,
                            TrimSpace(code), TrimSpace(ownerID), expectedVersion, request, now))
    ensures r.Ok? ==>
      var before, key := old(repository.source.Contents()), TrimSpace(code);
      && key in before && before[key].ownerID == TrimSpace(ownerID) && before[key].version == expectedVersion
      && Carries(before[key], repository.cache.parse, request, now, View(r.value))
    ensures TrimSpace(ownerID) == "" ==> r == Err(LinkAccessDenied)
    ensures !findDone && !updateDone && expectedVersion != 0 && TrimSpace(code) in old(repository.source.links)
            && old(repository.source.links)[TrimSpace(code)].ownerID != TrimSpace(ownerID) ==>
      r == Err(LinkAccessDenied)
    ensures r.Err? ==> repository.source.links == old(repository.source.links)
    ensures repository.cache.keys ==
      if r.Ok? then repository.Refreshed(old(repository.cache.keys), View(r.value), ttlAt, net, putAt)
      else old(repository.cache.keys)
  {
    OutcomeIsExact(repository.source.Contents(), repository.cache.parse, code, ownerID, expectedVersion, request, now);
    AccessIsExact(repository.source.Contents(), repository.cache.parse, code, ownerID, expectedVersion, request, now);
    r := PrepareChange(
      repository.source, repository.cache.parse, code, ownerID, expectedVersion, request, findDone, now);
    if r.Err? {
      return;
    }
    var failed := repository.Update(updateDone, r.value, expectedVersion, ttlAt, net, putAt);
    if failed.Some? {
      r := Err(failed.value);
    }
  }
}
