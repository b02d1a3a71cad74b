/** The Postgres link repository: rows, five-column conditional updates, and its refinement of the map. */
module PostgresStore {
  import opened Prelude
  import opened Domain
  import opened StoreModel
  import opened RedisCache
  import opened CacheProtocol
  import opened RedisRefinement

  /** A row of the links table, apart from its primary key. */
  datatype Row = Row(
    destinationURL: string,
    ownerID: string,
    status: string,
    createdAt: Time,
    updatedAt: Time,
    expiresAt: Option<Time>,
    version: int
  )

  type Rows = map<string, Row>

  function RowOf(l: Link): Row {
    Row(l.destination, l.ownerID, l.status.ToString(), l.createdAt, l.updatedAt, l.expiresAt, l.version)
  }

  /** The table's check constraints. */
  predicate Accepted(r: Row) {
    && r.status in {"active", "disabled", "deleted"}
    && (r.expiresAt.Some? ==> r.createdAt < r.expiresAt.value)
    && 1 <= r.version < TWO_63
  }

  function RowInsert(rows: Rows, l: Link): Result<Rows, Error> {
    if l.version >= TWO_63 || !Accepted(RowOf(l)) then Err(Backend)
    else if l.code in rows then Err(LinkAlreadyExists)
    else Ok(rows[l.code := RowOf(l)])
  }

  /** The columns that the update statement sets; owner_id and created_at are not among them. */
  function SetColumns(r: Row, l: Link): Row {
    r.(destinationURL := l.destination, status := l.status.ToString(), updatedAt := l.updatedAt,
       expiresAt := l.expiresAt, version := l.version)
  }

  /**
   * The update statement, then the existence query that explains why no row matched; appeared says
   * that another client inserted the code between the two statements.
   */
  function RowUpdate(rows: Rows, l: Link, expectedVersion: nat, appeared: bool): Result<Rows, Error> {
    if l.version >= TWO_63 || expectedVersion >= TWO_63 then Err(Backend)
    else if l.code in rows && rows[l.code].version == expectedVersion then
      if Accepted(SetColumns(rows[l.code], l)) then Ok(rows[l.code := SetColumns(rows[l.code], l)]) else Err(Backend)
    else if l.code in rows || appeared then Err(VersionConflict)
    else Err(LinkNotFound)
  }

  /** scanLink: every column is validated again on the way in. */
  function ScanLink(parse: UrlParser, code: string, r: Row): Result<Link, Error> {
    var destination := parse(r.destinationURL);
    if destination.Err? then Err(destination.error)
    else
      var status := ParseLinkStatus(r.status);
      if status.Err? then Err(status.error)
      else if r.version < 0 then Err(ZeroVersion)
      else
        RehydrateLink(
          code, destination.value, r.ownerID, status.value, r.createdAt, r.updatedAt, r.expiresAt, r.version)
  }

  function RowFind(parse: UrlParser, rows: Rows, code: string): Result<Link, Error> {
    if code in rows then ScanLink(parse, code, rows[code]) else Err(LinkNotFound)
  }

  class Repository {
    var rows: Rows
    const parse: UrlParser

    constructor (parse: UrlParser)
      ensures rows == map[] && this.parse == parse
    {
      this.rows := map[];
      this.parse := parse;
    }

    /** A lost request has no effect; a lost reply hides one.  Both are errors of the driver. */
    method Insert(l: Link, net: Net) returns (err: Option<Error>)
      modifies this
      ensures var r := RowInsert(old(rows), l);
        && rows == (if net != RequestLost && r.Ok? then r.value else old(rows))
        && err == if net != Healthy then Some(Backend) else if r.Ok? then None else Some(r.error)
    {
      if l.version >= TWO_63 || net == RequestLost || !Accepted(RowOf(l)) {
        return Some(Backend);
      }
      if l.code in rows {
        return if net == Healthy then Some(LinkAlreadyExists) else Some(Backend);
      }
      rows := rows[l.code := RowOf(l)];
      return if net == Healthy then None else Some(Backend);
    }

    method FindByCode(code: string, net: Net) returns (r: Result<Link, Error>)
      ensures r == if net == Healthy then RowFind(parse, rows, code) else Err(Backend)
    {
      if net != Healthy {
        return Err(Backend);
      }
      if code !in rows {
        return Err(LinkNotFound);
      }
      r := ScanLink(parse, code, rows[code]);
    }

    /**
     * The row is written exactly when the statement reaches the database, matches and is accepted.
     * The error is the driver's when the reply of the statement, or the existence query asked when no
     * row matched, is lost.
     */
    method Update(l: Link, expectedVersion: nat, appeared: bool, statement: Net, query: Net)
      returns (err: Option<Error>)
      modifies this
      ensures var r := RowUpdate(old(rows), l, expectedVersion, appeared);
        && rows == (if statement != RequestLost && r.Ok? then r.value else old(rows))
        && err ==
             if statement != Healthy then Some(Backend)
             else if r.Ok? then None
             else if query != Healthy then Some(Backend)
             else Some(r.error)
      ensures statement == query == Healthy && l.version < TWO_63 && expectedVersion < TWO_63 ==>
        && (l.code !in old(rows) ==> err == if appeared then Some(VersionConflict) else Some(LinkNotFound))
        && (l.code in old(rows) && old(rows)[l.code].version != expectedVersion ==> err == Some(VersionConflict))
      ensures err == None ==>
        && l.code in old(rows) && old(rows)[l.code].version == expectedVersion
        && rows == old(rows)[l.code :=
             Row(l.destination, old(rows)[l.code].ownerID, l.status.ToString(), old(rows)[l.code].createdAt,
                 l.updatedAt, l.expiresAt, l.version)]
    {
      if l.version >= TWO_63 || expectedVersion >= TWO_63 || statement == RequestLost {
        return Some(Backend);
      }
      var rowsAffected := 0;
      if l.code in rows && rows[l.code].version == expectedVersion {
        if !Accepted(SetColumns(rows[l.code], l)) {
          return Some(Backend);
        }
        rows := rows[l.code := SetColumns(rows[l.code], l)];
        rowsAffected := 1;
      }
      if statement != Healthy {
        return Some(Backend);
      }
      if rowsAffected == 1 {
        return None;
      }
      if query != Healthy {
        return Some(Backend);
      }
      err := if l.code in rows || appeared then Some(VersionConflict) else Some(LinkNotFound);
    }
  }

  // ---------------------------------------------------------------------------------------------
  // Refinement
  // ---------------------------------------------------------------------------------------------

  /** A row scans back to the link it was written from. */
  lemma RowRoundTrip(parse: UrlParser, l: Link)
    requires l.Valid() && parse(l.destination) == Ok(l.destination)
    ensures ScanLink(parse, l.code, RowOf(l)) == Ok(l)
    ensures l.version < TWO_63 ==> Accepted(RowOf(l))
  {
    StatusRoundTrip(l.status, "");
    RehydrateIsExact(
      l.code, l.destination, l.ownerID, l.status, l.createdAt, l.updatedAt, l.expiresAt, l.version, l);
  }

  /** The table holds the rows of exactly these links. */
  ghost predicate Holds(rows: Rows, links: Links) {
    rows == map code | code in links :: RowOf(links[code])
  }

  /**
   * Setting five columns stores the whole link exactly when the unwritten columns already agree.
   */
  lemma FiveColumnsSuffice(r: Link, l: Link)
    ensures SetColumns(RowOf(r), l) == RowOf(l) <==> r.ownerID == l.ownerID && r.createdAt == l.createdAt
  {
  }

  /** A compare-and-set on rows is the compare-and-set on the map, for links that continue the stored one. */
  lemma UpdateRefines(rows: Rows, links: Links, l: Link, expected: nat, appeared: bool)
    requires Holds(rows, links) && l.Valid() && l.version < TWO_63 && expected < TWO_63
    requires l.code in links
    requires links[l.code].version == expected ==>
      links[l.code].ownerID == l.ownerID && links[l.code].createdAt == l.createdAt
    ensures match Update(links, l, expected)
      case Ok(stored) =>
        RowUpdate(rows, l, expected, appeared).Ok? && Holds(RowUpdate(rows, l, expected, appeared).value, stored)
      case Err(e) => RowUpdate(rows, l, expected, appeared) == Err(e)
  {
    if links[l.code].version == expected {
      FiveColumnsSuffice(links[l.code], l);
      StatusRoundTrip(l.status, "");
    }
  }

  /** The rows after the first n events of a run in which Postgres is the repository. */
  ghost function RowsAfter(ss: seq<State>, es: seq<Event>, n: nat): Rows
    requires n <= |es| <= |ss|
  {
    if n == 0 then map[]
    else
      var rows := RowsAfter(ss, es, n - 1);
      var r := RowResult(rows, ss[n - 1], es[n - 1]);
      if r.Ok? then r.value else rows
  }

  /** What the database answers to the event, if the event writes. */
  ghost function RowResult(rows: Rows, s: State, e: Event): Result<Rows, Error> {
    if e.Create? && NewLink(e.code, e.destination, e.ownerID, e.createdAt, e.expiresAt).Ok? then
      RowInsert(rows, NewLink(e.code, e.destination, e.ownerID, e.createdAt, e.expiresAt).value)
    else if e.Commit? && e.id in s.mutators && s.mutators[e.id].Changed? then
      RowUpdate(rows, s.mutators[e.id].link, s.mutators[e.id].expected, false)
    else Ok(rows)
  }

  /** What the map-backed repository answers to the event, if the event writes. */
  ghost function MapResult(s: State, e: Event): Result<Links, Error> {
    if e.Create? && NewLink(e.code, e.destination, e.ownerID, e.createdAt, e.expiresAt).Ok? then
      Insert(s.repo, NewLink(e.code, e.destination, e.ownerID, e.createdAt, e.expiresAt).value)
    else if e.Commit? && e.id in s.mutators && s.mutators[e.id].Changed? then
      Update(s.repo, s.mutators[e.id].link, s.mutators[e.id].expected)
    else Ok(s.repo)
  }

  /** The link of a mutator about to commit, and how it relates to the stored one. */
  lemma AboutToCommit(cfg: Config, ss: seq<State>, es: seq<Event>, j: int, id: nat)
    requires IsRun(cfg, ss, es) && 0 <= j < |ss| && id in ss[j].mutators && ss[j].mutators[id].Changed?
    ensures var m := ss[j].mutators[id];
      && m.link.code in ss[j].repo && m.link.Valid() && m.link.version < TWO_63 && m.expected < TWO_63
      && ss[j].repo[m.link.code].ownerID == m.link.ownerID && ss[j].repo[m.link.code].createdAt == m.link.createdAt
  {
    Invariant(cfg, ss, es, j);
    var m := ss[j].mutators[id];
    assert MutatorOk(ss, j, m) by { assert InvAt(cfg, ss, j); }
    var k :| 0 <= k <= j && IsBase(ss, k, m);
    var base := ss[k].repo[m.link.code];
    assert LinksOk(cfg, ss[k]) && ss[k].now < cfg.start + TWO_63 - 1 by { assert InvAt(cfg, ss, k); }
    assert InvAt(cfg, ss, j);
    ChangeEvolves(base, m.change, m.clock);
    assert Grows(ss[k].repo, ss[j].repo);
  }

  lemma InsertRefines(rows: Rows, links: Links, l: Link)
    requires Holds(rows, links) && l.Valid() && l.version < TWO_63
    ensures match Insert(links, l)
      case Ok(stored) => RowInsert(rows, l).Ok? && Holds(RowInsert(rows, l).value, stored)
      case Err(e) => RowInsert(rows, l) == Err(e)
  {
    StatusRoundTrip(l.status, "");
  }

  /** The database and the map give the same answer to the event, and stay in step. */
  ghost predicate InStep(rows: Rows, s: State, e: Event, s': State) {
    match MapResult(s, e)
    case Ok(stored) => stored == s'.repo && RowResult(rows, s, e).Ok? && Holds(RowResult(rows, s, e).value, stored)
    case Err(error) => s'.repo == s.repo && RowResult(rows, s, e) == Err(error)
  }

  lemma EventRefines(cfg: Config, ss: seq<State>, es: seq<Event>, j: int, rows: Rows)
    requires IsRun(cfg, ss, es) && 0 <= j < |es| && Holds(rows, ss[j].repo)
    ensures InStep(rows, ss[j], es[j], ss[j + 1])
  {
    var s, e := ss[j], es[j];
    if e.Create? {
      var l := NewLink(e.code, e.destination, e.ownerID, e.createdAt, e.expiresAt).value;
      NewLinkIsExact(e.code, e.destination, e.ownerID, e.createdAt, e.expiresAt, l);
      InsertRefines(rows, s.repo, l);
    } else if e.Commit? {
      var m := s.mutators[e.id];
      AboutToCommit(cfg, ss, es, j, e.id);
      UpdateRefines(rows, s.repo, m.link, m.expected, false);
    } else {
      RepoChange(cfg, s, e);
    }
  }

  lemma FindRefines(cfg: Config, parse: UrlParser, ss: seq<State>, es: seq<Event>, n: nat, rows: Rows, code: string)
    requires IsRun(cfg, ss, es) && n <= |es|
    requires Faithful(parse) && AllRequestable(parse, es)
    requires Holds(rows, ss[n].repo)
    ensures RowFind(parse, rows, code) == Find(ss[n].repo, code)
  {
    if code in ss[n].repo {
      RunIsGood(cfg, parse, ss, es, n);
      Invariant(cfg, ss, es, n);
      assert LinksOk(cfg, ss[n]) by { assert InvAt(cfg, ss, n); }
      RowRoundTrip(parse, ss[n].repo[code]);
    }
  }

  /**
   * Store refinement: over every run of the use cases, each database write succeeds or fails with
   * the same error as the map's, the table holds the same links, and every lookup returns them.
   */
  lemma {:induction false} PostgresRefinesMap(cfg: Config, parse: UrlParser, ss: seq<State>, es: seq<Event>, n: nat)
    requires IsRun(cfg, ss, es) && n <= |es|
    requires Faithful(parse) && AllRequestable(parse, es)
    ensures Holds(RowsAfter(ss, es, n), ss[n].repo)
    ensures forall code :: RowFind(parse, RowsAfter(ss, es, n), code) == Find(ss[n].repo, code)
    ensures n < |es| ==> InStep(RowsAfter(ss, es, n), ss[n], es[n], ss[n + 1])
  {
    if n > 0 {
      PostgresRefinesMap(cfg, parse, ss, es, n - 1);
    }
    var rows := RowsAfter(ss, es, n);
    if n < |es| {
      EventRefines(cfg, ss, es, n, rows);
    }
    forall code ensures RowFind(parse, rows, code) == Find(ss[n].repo, code) {
      FindRefines(cfg, parse, ss, es, n, rows, code);
    }
  }
}
