/** The Link aggregate, its status machine and the redirect projection. */
module Domain {
  import opened Prelude

  /** Nanoseconds since Go's zero time (1 January of year 1, UTC). */
  type Time = int

  predicate IsZeroTime(t: Time) { t == 0 }

  datatype LinkStatus = Unknown | Active | Disabled | Deleted {
    predicate IsValid() { !Unknown? }

    predicate CanRedirect() { Active? }

    predicate CanTransitionTo(next: LinkStatus) {
      match this
      case Active => next == Disabled || next == Deleted
      case Disabled => next == Active || next == Deleted
      case _ => false
    }

    function ToString(): string {
      match this
      case Active => "active"
      case Disabled => "disabled"
      case Deleted => "deleted"
      case Unknown => "unknown"
    }
  }

  function ParseLinkStatus(value: string): Result<LinkStatus, Error> {
    if value == "active" then Ok(Active)
    else if value == "disabled" then Ok(Disabled)
    else if value == "deleted" then Ok(Deleted)
    else Err(InvalidLinkStatus)
  }

  /** Parsing inverts printing on the valid statuses, whose three texts are the only ones that parse. */
  lemma StatusRoundTrip(s: LinkStatus, raw: string)
    ensures ParseLinkStatus(s.ToString()) == if s == Unknown then Err(InvalidLinkStatus) else Ok(s)
    ensures ParseLinkStatus(raw) == Ok(s) <==>
      (raw, s) in {("active", Active), ("disabled", Disabled), ("deleted", Deleted)}
    ensures ParseLinkStatus(raw).Err? ==> ParseLinkStatus(raw) == Err(InvalidLinkStatus)
  {
  }

  /** The value of a link: what the Go struct denotes once its pointer is followed. */
  datatype Link = Link(
    code: string,
    destination: string,
    ownerID: string,
    status: LinkStatus,
    createdAt: Time,
    updatedAt: Time,
    expiresAt: Option<Time>,
    version: nat
  ) {
    /** What every link that leaves a constructor satisfies. */
    predicate Valid() {
      && Trimmed(code) && code != ""
      && destination != ""
      && Trimmed(ownerID) && ownerID != ""
      && status.IsValid()
      && !IsZeroTime(createdAt) && !IsZeroTime(updatedAt) && createdAt <= updatedAt
      && (expiresAt.Some? ==> createdAt < expiresAt.value)
      && 1 <= version < TWO_64
    }

    predicate IsExpired(now: Time) { expiresAt.Some? && expiresAt.value <= now }

    predicate CanRedirect(now: Time) { !IsZeroTime(now) && status.CanRedirect() && !IsExpired(now) }
  }

  function NewLink(code: string, destination: string, ownerID: string, createdAt: Time, expiresAt: Option<Time>)
    : Result<Link, Error>
  {
    var trimmedCode := TrimSpace(code);
    if trimmedCode == "" then Err(EmptyCode)
    else if destination == "" then Err(ZeroDestination)
    else
      var trimmedOwnerID := TrimSpace(ownerID);
      if trimmedOwnerID == "" then Err(EmptyOwnerID)
      else if IsZeroTime(createdAt) then Err(ZeroCreatedAt)
      else if expiresAt.Some? && expiresAt.value <= createdAt then Err(InvalidExpiresAt)
      else Ok(Link(trimmedCode, destination, trimmedOwnerID, Active, createdAt, createdAt, expiresAt, 1))
  }

  function RehydrateLink(
    code: string, destination: string, ownerID: string, status: LinkStatus,
    createdAt: Time, updatedAt: Time, expiresAt: Option<Time>, version: nat
  ): Result<Link, Error>
  {
    var trimmedCode := TrimSpace(code);
    if trimmedCode == "" then Err(EmptyCode)
    else if destination == "" then Err(ZeroDestination)
    else
      var trimmedOwnerID := TrimSpace(ownerID);
      if trimmedOwnerID == "" then Err(EmptyOwnerID)
      else if !status.IsValid() then Err(InvalidLinkStatus)
      else if IsZeroTime(createdAt) then Err(ZeroCreatedAt)
      else if IsZeroTime(updatedAt) then Err(ZeroUpdatedAt)
      else if updatedAt < createdAt then Err(UpdateBeforeCreatedAt)
      else if expiresAt.Some? && expiresAt.value <= createdAt then Err(InvalidExpiresAt)
      else if version == 0 then Err(ZeroVersion)
      else Ok(Link(trimmedCode, destination, trimmedOwnerID, status, createdAt, updatedAt, expiresAt, version))
  }

  /** The uint64 increment, wrap-around included. */
  function Increment(version: nat): nat { (version + 1) % TWO_64 }

  /** None when a mutation stamped `at` may follow the link's last one. */
  function ValidateMutationTime(l: Link, at: Time): Option<Error> {
    if IsZeroTime(at) then Some(ZeroUpdatedAt)
    else if at < l.createdAt then Some(UpdateBeforeCreatedAt)
    else if at <= l.updatedAt then Some(UpdateNotAfterPrevious)
    else None
  }

  function TransitionTo(l: Link, next: LinkStatus, at: Time): Result<Link, Error> {
    var invalid := ValidateMutationTime(l, at);
    if invalid.Some? then Err(invalid.value)
    else if !l.status.CanTransitionTo(next) then Err(InvalidTransition)
    else Ok(l.(status := next, updatedAt := at, version := Increment(l.version)))
  }

  function UpdateDestination(l: Link, destination: string, at: Time): Result<Link, Error> {
    if destination == "" then Err(ZeroDestination)
    else if l.status == Deleted then Err(DeletedLink)
    else if l.destination == destination then Err(UnchangedDestination)
    else
      var invalid := ValidateMutationTime(l, at);
      if invalid.Some? then Err(invalid.value)
      else Ok(l.(destination := destination, updatedAt := at, version := Increment(l.version)))
  }

  function SetExpiration(l: Link, expiresAt: Time, at: Time): Result<Link, Error> {
    if IsZeroTime(expiresAt) then Err(InvalidExpiresAt)
    else if l.status == Deleted then Err(DeletedLink)
    else if expiresAt <= at then Err(InvalidExpiresAt)
    else if l.expiresAt == Some(expiresAt) then Err(UnchangedExpiration)
    else
      var invalid := ValidateMutationTime(l, at);
      if invalid.Some? then Err(invalid.value)
      else Ok(l.(expiresAt := Some(expiresAt), updatedAt := at, version := Increment(l.version)))
  }

  function ClearExpiration(l: Link, at: Time): Result<Link, Error> {
    if l.status == Deleted then Err(DeletedLink)
    else if l.expiresAt.None? then Err(NoExpiration)
    else
      var invalid := ValidateMutationTime(l, at);
      if invalid.Some? then Err(invalid.value)
      else Ok(l.(expiresAt := None, updatedAt := at, version := Increment(l.version)))
  }

  /** What the three change use cases ask of a link. */
  datatype Change =
    | ToStatus(status: LinkStatus)
    | ToDestination(destination: string)
    | ToExpiration(expiresAt: Option<Time>)

  function ApplyChange(l: Link, change: Change, at: Time): Result<Link, Error> {
    match change
    case ToStatus(status) =>
      if status.IsValid() then TransitionTo(l, status, at) else Err(InvalidLinkStatus)
    case ToDestination(destination) => UpdateDestination(l, destination, at)
    case ToExpiration(None) => ClearExpiration(l, at)
    case ToExpiration(Some(expiresAt)) => SetExpiration(l, expiresAt, at)
  }

  /** Rehydration yields exactly the valid link with the given fields, code and owner trimmed. */
  lemma RehydrateIsExact(
    code: string, destination: string, ownerID: string, status: LinkStatus,
    createdAt: Time, updatedAt: Time, expiresAt: Option<Time>, version: nat, l: Link
  )
    ensures RehydrateLink(code, destination, ownerID, status, createdAt, updatedAt, expiresAt, version) == Ok(l) <==>
      && l == Link(TrimSpace(code), destination, TrimSpace(ownerID), status, createdAt, updatedAt, expiresAt, version)
      && l.code != "" && destination != "" && l.ownerID != "" && status != Unknown && version != 0
      && createdAt != 0 && updatedAt != 0 && createdAt <= updatedAt
      && (expiresAt.Some? ==> createdAt < expiresAt.value)
    ensures RehydrateLink(code, destination, ownerID, status, createdAt, updatedAt, expiresAt, version) == Ok(l) ==>
      version < TWO_64 ==> l.Valid()
  {
  }

  /** Of stored fields that make no link, the first unusable one is the error. */
  lemma RehydrateFails(
    code: string, destination: string, ownerID: string, status: LinkStatus,
    createdAt: Time, updatedAt: Time, expiresAt: Option<Time>, version: nat
  )
    ensures var r := RehydrateLink(code, destination, ownerID, status, createdAt, updatedAt, expiresAt, version);
      var named := TrimSpace(code) != "" && destination != "" && TrimSpace(ownerID) != "";
      var stamped := createdAt != 0 && updatedAt != 0 && createdAt <= updatedAt;
      var lasting := expiresAt.Some? ==> createdAt < expiresAt.value;
      && (r == Err(EmptyCode) <==> TrimSpace(code) == "")
      && (r == Err(ZeroDestination) <==> TrimSpace(code) != "" && destination == "")
      && (r == Err(EmptyOwnerID) <==> TrimSpace(code) != "" && destination != "" && TrimSpace(ownerID) == "")
      && (r == Err(InvalidLinkStatus) <==> named && status == Unknown)
      && (r == Err(ZeroCreatedAt) <==> named && status != Unknown && createdAt == 0)
      && (r == Err(ZeroUpdatedAt) <==> named && status != Unknown && createdAt != 0 && updatedAt == 0)
      && (r == Err(UpdateBeforeCreatedAt) <==>
            named && status != Unknown && createdAt != 0 && updatedAt != 0 && updatedAt < createdAt)
      && (r == Err(InvalidExpiresAt) <==> named && status != Unknown && stamped && !lasting)
      && (r == Err(ZeroVersion) <==> named && status != Unknown && stamped && lasting && version == 0)
  {
  }

  /**
   * Creation yields exactly the active link at version 1 whose only stamp is its creation, code and
   * owner trimmed; otherwise the error names the first argument that is unusable.
   */
  lemma NewLinkIsExact(
    code: string, destination: string, ownerID: string, createdAt: Time, expiresAt: Option<Time>, l: Link
  )
    ensures NewLink(code, destination, ownerID, createdAt, expiresAt) == Ok(l) <==>
      && l == Link(TrimSpace(code), destination, TrimSpace(ownerID), Active, createdAt, createdAt, expiresAt, 1)
      && l.code != "" && destination != "" && l.ownerID != "" && createdAt != 0
      && (expiresAt.Some? ==> createdAt < expiresAt.value)
    ensures NewLink(code, destination, ownerID, createdAt, expiresAt) == Ok(l) ==> l.Valid()
    ensures var r := NewLink(code, destination, ownerID, createdAt, expiresAt);
      var c, o := TrimSpace(code), TrimSpace(ownerID);
      && (r == Err(EmptyCode) <==> c == "")
      && (r == Err(ZeroDestination) <==> c != "" && destination == "")
      && (r == Err(EmptyOwnerID) <==> c != "" && destination != "" && o == "")
      && (r == Err(ZeroCreatedAt) <==> c != "" && destination != "" && o != "" && createdAt == 0)
      && (r == Err(InvalidExpiresAt) <==>
            c != "" && destination != "" && o != "" && createdAt != 0
            && expiresAt.Some? && expiresAt.value <= createdAt)
  {
  }

  /** How a link may change over its whole life; reflexive and transitive. */
  ghost predicate Evolves(l: Link, m: Link) {
    && m.code == l.code && m.ownerID == l.ownerID && m.createdAt == l.createdAt
    && l.version <= m.version
    && (l.version == m.version ==> l == m)
    && m.version - l.version <= m.updatedAt - l.updatedAt
    && (l.status == Deleted ==> l == m)
  }

  lemma EvolvesTransitive(l: Link, m: Link, n: Link)
    requires Evolves(l, m) && Evolves(m, n)
    ensures Evolves(l, n)
  {
  }

  /** One successful change is one step of the link's life, unless the version wraps. */
  lemma ChangeEvolves(l: Link, change: Change, at: Time)
    requires l.Valid() && l.version + 1 < TWO_64
    requires ApplyChange(l, change, at).Ok?
    ensures var m := ApplyChange(l, change, at).value;
      && m.Valid() && Evolves(l, m)
      && m.version == l.version + 1 && m.updatedAt == at && l.updatedAt < at
      && l.status != Deleted
  {
  }

  /**
   * A change succeeds exactly when the life cycle allows it, it asks for something new, and it is
   * stamped after the last one; it then sets what it asks for, the stamp and the version, and nothing
   * else.
   */
  lemma ChangeDoes(l: Link, change: Change, at: Time)
    ensures var r := ApplyChange(l, change, at);
      && (r.Ok? <==>
            && at != 0 && l.createdAt <= at && l.updatedAt < at
            && match change
               case ToStatus(next) =>
                 (l.status, next) in {(Active, Disabled), (Active, Deleted), (Disabled, Active), (Disabled, Deleted)}
               case ToDestination(d) => l.status != Deleted && d != "" && d != l.destination
               case ToExpiration(None) => l.status != Deleted && l.expiresAt.Some?
               case ToExpiration(Some(t)) => l.status != Deleted && t != 0 && at < t && l.expiresAt != Some(t))
      && (r.Ok? ==>
            var m := r.value;
            && m.updatedAt == at && m.version == (l.version + 1) % 0x1_0000_0000_0000_0000
            && m.code == l.code && m.ownerID == l.ownerID && m.createdAt == l.createdAt
            && m.status == (if change.ToStatus? then change.status else l.status)
            && m.destination == (if change.ToDestination? then change.destination else l.destination)
            && m.expiresAt == (if change.ToExpiration? then change.expiresAt else l.expiresAt))
  {
  }

  /** Which complaint a refused change gets: about its argument, about the link, or about its stamp. */
  lemma ChangeFails(l: Link, change: Change, at: Time)
    ensures var r, t := ApplyChange(l, change, at), if change.ToExpiration? then change.expiresAt else None;
      && (r == Err(InvalidLinkStatus) <==> change == ToStatus(Unknown))
      && (r == Err(ZeroDestination) <==> change == ToDestination(""))
      && (r == Err(InvalidExpiresAt) <==> t.Some? && (t.value == 0 || (l.status != Deleted && t.value <= at)))
      && (r == Err(DeletedLink) <==>
            l.status == Deleted && !change.ToStatus? && change != ToDestination("") && t != Some(0))
      && (r == Err(UnchangedDestination) <==>
            l.status != Deleted && change == ToDestination(l.destination) && l.destination != "")
      && (r == Err(NoExpiration) <==> l.status != Deleted && change == ToExpiration(None) && l.expiresAt.None?)
      && (r == Err(UnchangedExpiration) <==>
            l.status != Deleted && t.Some? && t == l.expiresAt && t.value != 0 && at < t.value)
    ensures var r := ApplyChange(l, change, at);
      r.Err? && r.error in {ZeroUpdatedAt, UpdateBeforeCreatedAt, UpdateNotAfterPrevious} ==>
        r.error == if at == 0 then ZeroUpdatedAt
                   else if at < l.createdAt then UpdateBeforeCreatedAt
                   else UpdateNotAfterPrevious
    ensures ApplyChange(l, change, at) == Err(InvalidTransition) <==>
      && change.ToStatus? && change.status != Unknown && at != 0 && l.createdAt <= at && l.updatedAt < at
      && (l.status, change.status) !in {(Active, Disabled), (Active, Deleted), (Disabled, Active), (Disabled, Deleted)}
    ensures ApplyChange(l, change, at).Err? ==>
      ApplyChange(l, change, at).error in
        {InvalidLinkStatus, ZeroDestination, InvalidExpiresAt, DeletedLink, UnchangedDestination, NoExpiration,
         UnchangedExpiration, ZeroUpdatedAt, UpdateBeforeCreatedAt, UpdateNotAfterPrevious, InvalidTransition}
  {
  }

  /** The redirect-facing part of a link. */
  datatype RedirectMapping = RedirectMapping(
    code: string,
    destination: string,
    status: LinkStatus,
    expiresAt: Option<Time>,
    version: nat
  ) {
    predicate IsExpired(now: Time) { expiresAt.Some? && expiresAt.value <= now }

    predicate CanRedirect(now: Time) { !IsZeroTime(now) && status.CanRedirect() && !IsExpired(now) }
  }

  function NewRedirectMapping(
    code: string, destination: string, status: LinkStatus, expiresAt: Option<Time>, version: nat
  ): Result<RedirectMapping, Error>
  {
    var trimmed := TrimSpace(code);
    if trimmed == "" then Err(EmptyCode)
    else if destination == "" then Err(ZeroDestination)
    else if !status.IsValid() then Err(InvalidLinkStatus)
    else if version == 0 then Err(ZeroVersion)
    else Ok(RedirectMapping(trimmed, destination, status, expiresAt, version))
  }

  function RedirectMappingFromLink(l: Link): Result<RedirectMapping, Error> {
    NewRedirectMapping(l.code, l.destination, l.status, l.expiresAt, l.version)
  }

  /** A valid link always projects, and its projection redirects exactly when the link does. */
  lemma ProjectionFaithful(l: Link, now: Time)
    requires l.Valid()
    ensures RedirectMappingFromLink(l) == Ok(RedirectMapping(l.code, l.destination, l.status, l.expiresAt, l.version))
    ensures RedirectMappingFromLink(l).value.CanRedirect(now) <==> l.CanRedirect(now)
    ensures l.CanRedirect(now) <==>
      now != 0 && l.status == Active && (l.expiresAt.Some? ==> now < l.expiresAt.value)
  {
  }

  /** A mapping redirects exactly while its link is active and not yet expired. */
  lemma MayRedirect(m: RedirectMapping, now: Time)
    ensures m.CanRedirect(now) <==>
      now != 0 && m.status == Active && (m.expiresAt.Some? ==> now < m.expiresAt.value)
  {
  }
}
