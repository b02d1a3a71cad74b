/** What the link repositories compute, on plain values. */
module StoreModel {
  import opened Prelude
  import opened Domain

  type Links = map<string, Link>

  /** What an idempotency record is filed under. */
  datatype IdempotencyKey = IdempotencyKey(ownerID: string, key: string)

  function Insert(links: Links, l: Link): Result<Links, Error> {
    if l.code in links then Err(LinkAlreadyExists) else Ok(links[l.code := l])
  }

  function Find(links: Links, code: string): Result<Link, Error> {
    if code in links then Ok(links[code]) else Err(LinkNotFound)
  }

  function Update(links: Links, l: Link, expectedVersion: nat): Result<Links, Error> {
    if l.code !in links then Err(LinkNotFound)
    else if links[l.code].version != expectedVersion then Err(VersionConflict)
    else Ok(links[l.code := l])
  }

  /** The part shared by the three change use cases before the local change. */
  function Admit(links: Links, rawCode: string, rawOwnerID: string, expectedVersion: nat): Result<Link, Error> {
    var ownerID := TrimSpace(rawOwnerID);
    if ownerID == "" then Err(LinkAccessDenied)
    else if expectedVersion == 0 then Err(InvalidExpectedVersion)
    else
      var found := Find(links, TrimSpace(rawCode));
      if found.Err? then found
      else if found.value.ownerID != ownerID then Err(LinkAccessDenied)
      else if found.value.version != expectedVersion then Err(VersionConflict)
      else found
  }

  /** Only the owner, holding the current version, is admitted, and gets the stored link. */
  lemma AdmitIsExact(links: Links, rawCode: string, rawOwnerID: string, expectedVersion: nat, l: Link)
    ensures Admit(links, rawCode, rawOwnerID, expectedVersion) == Ok(l) <==>
      && TrimSpace(rawCode) in links && links[TrimSpace(rawCode)] == l
      && l.ownerID == TrimSpace(rawOwnerID) != "" && l.version == expectedVersion != 0
    ensures var r := Admit(links, rawCode, rawOwnerID, expectedVersion);
      var code, owner := TrimSpace(rawCode), TrimSpace(rawOwnerID);
      && (r == Err(LinkAccessDenied) <==>
            owner == "" || (expectedVersion != 0 && code in links && links[code].ownerID != owner))
      && (r == Err(InvalidExpectedVersion) <==> owner != "" && expectedVersion == 0)
      && (r == Err(LinkNotFound) <==> owner != "" && expectedVersion != 0 && code !in links)
      && (r == Err(VersionConflict) <==>
            owner != "" && expectedVersion != 0 && code in links && links[code].ownerID == owner
            && links[code].version != expectedVersion)
  {
  }

  /** Every link only moves forward, none disappears. */
  ghost predicate Grows(r: Links, r': Links) {
    forall code :: code in r ==> code in r' && Evolves(r[code], r'[code])
  }

  lemma GrowsTransitive(r: Links, s: Links, t: Links)
    requires Grows(r, s) && Grows(s, t)
    ensures Grows(r, t)
  {
    forall code | code in r ensures code in t && Evolves(r[code], t[code]) {
      EvolvesTransitive(r[code], s[code], t[code]);
    }
  }
}
