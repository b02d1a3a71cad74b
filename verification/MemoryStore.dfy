/** The in-memory adapters: maps of link structs that share expiration cells with their callers. */
module MemoryStore {
  import opened Prelude
  import opened Domain
  import opened LinkObject
  import StoreModel

  function AllCells<K(!new)>(m: map<K, LinkStruct>): set<TimeCell> {
    set k | k in m && m[k].expiresAt != null :: m[k].expiresAt
  }

  /** What a map of structs denotes. */
  function ViewAll<K(!new)>(m: map<K, LinkStruct>): map<K, Link>
    reads AllCells(m)
  {
    map k | k in m :: View(m[k])
  }

  class Repository {
    var links: map<string, LinkStruct>

    constructor ()
      ensures links == map[] && Valid()
    {
      links := map[];
    }

    /** Every link is filed under its own code. */
    predicate Valid()
      reads this
    {
      forall code :: code in links ==> links[code].code == code
    }

    function Contents(): StoreModel.Links
      reads this, AllCells(links)
    {
      ViewAll(links)
    }

    method Insert(ctxDone: bool, link: LinkStruct) returns (err: Option<Error>)
      modifies this
      ensures ctxDone ==> err == Some(ContextDone) && links == old(links)
      ensures !ctxDone ==>
        match StoreModel.Insert(old(Contents()), View(link))
        case Ok(stored) => err == None && Contents() == stored && links == old(links)[link.code := link]
        case Err(e) => err == Some(e) && links == old(links)
      ensures !ctxDone ==> err == if link.code in old(links) then Some(LinkAlreadyExists) else None
      ensures err == None ==> links == old(links)[link.code := link]
      ensures old(Valid()) ==> Valid()
    {
      if ctxDone {
        return Some(ContextDone);
      }
      if link.code in links {
        return Some(LinkAlreadyExists);
      }
      links := links[link.code := link];
      return None;
    }

    /** The struct is returned as stored: its expiration cell stays shared with the store. */
    method FindByCode(ctxDone: bool, code: string) returns (r: Result<LinkStruct, Error>)
      ensures ctxDone ==> r == Err(ContextDone)
      ensures !ctxDone ==>
        match StoreModel.Find(Contents(), code)
        case Ok(l) => code in links && r == Ok(links[code]) && View(r.value) == l
        case Err(e) => r == Err(e)
      ensures !ctxDone ==> r == if code in links then Ok(links[code]) else Err(LinkNotFound)
    {
      if ctxDone {
        return Err(ContextDone);
      }
      if code in links {
        return Ok(links[code]);
      }
      return Err(LinkNotFound);
    }

    method Update(ctxDone: bool, link: LinkStruct, expectedVersion: nat) returns (err: Option<Error>)
      modifies this
      ensures ctxDone ==> err == Some(ContextDone) && links == old(links)
      ensures !ctxDone ==>
        match StoreModel.Update(old(Contents()), View(link), expectedVersion)
        case Ok(stored) => err == None && Contents() == stored && links == old(links)[link.code := link]
        case Err(e) => err == Some(e) && links == old(links)
      ensures !ctxDone ==>
        err == if link.code !in old(links) then Some(LinkNotFound)
               else if old(links)[link.code].version != expectedVersion then Some(VersionConflict)
               else None
      ensures err == None ==> links == old(links)[link.code := link]
      ensures old(Valid()) ==> Valid()
    {
      if ctxDone {
        return Some(ContextDone);
      }
      if link.code !in links {
        return Some(LinkNotFound);
      }
      if links[link.code].version != expectedVersion {
        return Some(VersionConflict);
      }
      links := links[link.code := link];
      return None;
    }
  }

  class IdempotencyStore {
    var records: map<StoreModel.IdempotencyKey, LinkStruct>

    constructor ()
      ensures records == map[]
    {
      records := map[];
    }

    method Get(ctxDone: bool, ownerID: string, key: string) returns (r: Result<LinkStruct, Error>)
      ensures var k := StoreModel.IdempotencyKey(ownerID, key);
        r == if ctxDone then Err(ContextDone)
             else if k in records then Ok(records[k])
             else Err(IdempotencyKeyNotFound)
    {
      if ctxDone {
        return Err(ContextDone);
      }
      var k := StoreModel.IdempotencyKey(ownerID, key);
      if k !in records {
        return Err(IdempotencyKeyNotFound);
      }
      return Ok(records[k]);
    }

    /** A record is written once; structs are compared as Go compares them, the expiration by pointer. */
    method Save(ctxDone: bool, ownerID: string, key: string, link: LinkStruct) returns (err: Option<Error>)
      modifies this
      ensures var k := StoreModel.IdempotencyKey(ownerID, key);
        if ctxDone then err == Some(ContextDone) && records == old(records)
        else if k in old(records) then
          records == old(records) && (err == None <==> old(records)[k] == link)
          && (err.Some? ==> err == Some(IdempotencyKeyConflict))
        else err == None && records == old(records)[k := link]
      ensures forall k :: k in old(records) ==> k in records && records[k] == old(records)[k]
    {
      if ctxDone {
        return Some(ContextDone);
      }
      var k := StoreModel.IdempotencyKey(ownerID, key);
      if k !in records {
        records := records[k := link];
        return None;
      }
      if records[k] != link {
        return Some(IdempotencyKeyConflict);
      }
      return None;
    }
  }
}
