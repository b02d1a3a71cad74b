/**
 * The Go representation of a link: a struct copied by value whose expiresAt is a pointer.  Copies
 * share the pointed-to time, so every contract below says that no such cell is ever written.
 */
module LinkObject {
  import opened Prelude
  import opened Domain

  /** A heap-allocated time.Time. */
  class TimeCell {
    var at: Time

    constructor (at: Time)
      ensures this.at == at
    {
      this.at := at;
    }
  }

  datatype LinkStruct = LinkStruct(
    code: string,
    destination: string,
    ownerID: string,
    status: LinkStatus,
    createdAt: Time,
    updatedAt: Time,
    expiresAt: TimeCell?,
    version: nat
  )

  /** The time cells a struct value can reach. */
  function CellsOf(v: LinkStruct): set<TimeCell> {
    if v.expiresAt == null then {} else {v.expiresAt}
  }

  function Deref(p: TimeCell?): Option<Time>
    reads p
  {
    if p == null then None else Some(p.at)
  }

  /** The link that a struct value denotes. */
  function View(v: LinkStruct): Link
    reads CellsOf(v)
  {
    Link(v.code, v.destination, v.ownerID, v.status, v.createdAt, v.updatedAt, Deref(v.expiresAt), v.version)
  }

  /** copyTimePointer: a fresh cell with the same time. */
  method CopyTime(p: TimeCell?) returns (q: TimeCell?)
    ensures Deref(q) == Deref(p)
    ensures p == null <==> q == null
    ensures q != null ==> fresh(q)
  {
    if p == null {
      q := null;
    } else {
      q := new TimeCell(p.at);
    }
  }

  /** domain.NewLink: the expiration is copied, never aliased with the caller's. */
  method MakeLink(code: string, destination: string, ownerID: string, createdAt: Time, expiresAt: TimeCell?)
    returns (r: Result<LinkStruct, Error>)
    ensures match NewLink(code, destination, ownerID, createdAt, Deref(expiresAt))
      case Ok(l) => r.Ok? && View(r.value) == l && fresh(CellsOf(r.value))
      case Err(e) => r == Err(e)
  {
    var trimmedCode := TrimSpace(code);
    if trimmedCode == "" {
      return Err(EmptyCode);
    }
    if destination == "" {
      return Err(ZeroDestination);
    }
    var trimmedOwnerID := TrimSpace(ownerID);
    if trimmedOwnerID == "" {
      return Err(EmptyOwnerID);
    }
    if IsZeroTime(createdAt) {
      return Err(ZeroCreatedAt);
    }
    if expiresAt != null && expiresAt.at <= createdAt {
      return Err(InvalidExpiresAt);
    }
    var copied := CopyTime(expiresAt);
    r := Ok(LinkStruct(trimmedCode, destination, trimmedOwnerID, Active, createdAt, createdAt, copied, 1));
  }

  /** A variable of the struct type, as seen by its pointer-receiver methods. */
  class LinkVariable {
    var v: LinkStruct

    constructor (v: LinkStruct)
      ensures this.v == v
    {
      this.v := v;
    }

    /** The outcome of a mutator: the specified link on success, the untouched struct on failure. */
    twostate predicate Did(expected: Result<Link, Error>, new err: Option<Error>)
      reads this, CellsOf(v)
    {
      match expected
      case Ok(l) => err == None && View(v) == l && (CellsOf(v) <= old(CellsOf(v)) || fresh(CellsOf(v)))
      case Err(e) => err == Some(e) && v == old(v)
    }

    method TransitionTo(next: LinkStatus, at: Time) returns (err: Option<Error>)
      modifies this
      ensures Did(Domain.TransitionTo(old(View(v)), next, at), err)
    {
      err := ValidateMutationTime(View(v), at);
      if err.Some? {
        return;
      }
      if !v.status.CanTransitionTo(next) {
        return Some(InvalidTransition);
      }
      v := v.(status := next, updatedAt := at, version := Increment(v.version));
    }

    method UpdateDestination(destination: string, at: Time) returns (err: Option<Error>)
      modifies this
      ensures Did(Domain.UpdateDestination(old(View(v)), destination, at), err)
    {
      if destination == "" {
        return Some(ZeroDestination);
      }
      if v.status == Deleted {
        return Some(DeletedLink);
      }
      if v.destination == destination {
        return Some(UnchangedDestination);
      }
      err := ValidateMutationTime(View(v), at);
      if err.Some? {
        return;
      }
      v := v.(destination := destination, updatedAt := at, version := Increment(v.version));
    }

    method SetExpiration(expiresAt: Time, at: Time) returns (err: Option<Error>)
      modifies this
      ensures Did(Domain.SetExpiration(old(View(v)), expiresAt, at), err)
    {
      if IsZeroTime(expiresAt) {
        return Some(InvalidExpiresAt);
      }
      if v.status == Deleted {
        return Some(DeletedLink);
      }
      if expiresAt <= at {
        return Some(InvalidExpiresAt);
      }
      if v.expiresAt != null && expiresAt == v.expiresAt.at {
        return Some(UnchangedExpiration);
      }
      err := ValidateMutationTime(View(v), at);
      if err.Some? {
        return;
      }
      var cell := new TimeCell(expiresAt);
      v := v.(expiresAt := cell, updatedAt := at, version := Increment(v.version));
    }

    method ClearExpiration(at: Time) returns (err: Option<Error>)
      modifies this
      ensures Did(Domain.ClearExpiration(old(View(v)), at), err)
    {
      if v.status == Deleted {
        return Some(DeletedLink);
      }
      if v.expiresAt == null {
        return Some(NoExpiration);
      }
      err := ValidateMutationTime(View(v), at);
      if err.Some? {
        return;
      }
      v := v.(expiresAt := null, updatedAt := at, version := Increment(v.version));
    }

    /** Dispatches a requested change, as the three use cases do. */
    method Apply(change: Change, at: Time) returns (err: Option<Error>)
      modifies this
      ensures Did(ApplyChange(old(View(v)), change, at), err)
    {
      match change {
        case ToStatus(status) =>
          if status.IsValid() {
            err := TransitionTo(status, at);
          } else {
            err := Some(InvalidLinkStatus);
          }
        case ToDestination(destination) =>
          err := UpdateDestination(destination, at);
        case ToExpiration(None) =>
          err := ClearExpiration(at);
        case ToExpiration(Some(expiresAt)) =>
          err := SetExpiration(expiresAt, at);
      }
    }
  }
}
