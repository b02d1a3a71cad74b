/** The crash-restartable migration runner: discovery, ordering, and one transaction per version. */
module Migrations {
  import opened Prelude
  import opened Decimal

  datatype MigrationError =
    | ReadDirectory
    | InvalidVersion(name: string)
    | DuplicateVersion(version: int)
    | ReadFile(name: string)
    | Database
    | ChecksumChanged(name: string)

  datatype DirEntry = DirEntry(name: string, isDir: bool, contents: Option<string>)

  datatype Migration = Migration(version: int, name: string, sql: string, checksum: string)

  // ---------------------------------------------------------------------------------------------
  // Discovery
  // ---------------------------------------------------------------------------------------------

  function LeadingDigits(s: string): (n: nat)
    ensures n <= |s| && AllDigits(s[..n]) && (n < |s| ==> !IsDigit(s[n]))
  {
    if s == "" || !IsDigit(s[0]) then 0
    else
      var n := LeadingDigits(s[1..]);
      assert s[..n + 1] == [s[0]] + s[1..][..n];
      n + 1
  }

  const SUFFIX := ".sql"

  /** The version text of a file name of the form digits_anything.sql; anything has no line break. */
  function VersionText(name: string): Option<string> {
    var n := LeadingDigits(name);
    if 0 < n && n < |name| && name[n] == '_' && |name| - n - 1 > |SUFFIX| && name[|name| - |SUFFIX|..] == SUFFIX
       && '\n' !in name[n + 1..|name| - |SUFFIX|]
    then Some(name[..n])
    else None
  }

  /** The file-name pattern ^([0-9]+)_.+\.sql$ with these digits. */
  ghost predicate Matches(name: string, digits: string, rest: string) {
    && digits != "" && AllDigits(digits) && rest != "" && '\n' !in rest
    && name == digits + "_" + rest + ".sql"
  }

  /** The version text is found exactly in the names of that pattern. */
  lemma VersionTextIsExact(name: string, digits: string, rest: string)
    ensures Matches(name, digits, rest) ==> VersionText(name) == Some(digits)
    ensures VersionText(name).Some? ==>
      exists between :: Matches(name, VersionText(name).value, between)
  {
    var n := LeadingDigits(name);
    if Matches(name, digits, rest) {
      assert name[|digits|] == '_';
      assert name[..|digits|] == digits;
      assert name[n + 1..|name| - 4] == rest && name[|name| - 4..] == ".sql";
    }
    if VersionText(name).Some? {
      var between := name[n + 1..|name| - 4];
      assert name == name[..n] + "_" + between + name[|name| - 4..];
      assert Matches(name, name[..n], between);
    }
  }

  /** Directories and other names are skipped. */
  predicate IsCandidate(e: DirEntry) { !e.isDir && VersionText(e.name).Some? }

  /** The positive int64 version of a candidate. */
  function VersionOf(e: DirEntry): Option<int>
    requires IsCandidate(e)
  {
    var v := ParseInt(VersionText(e.name).value);
    if v.None? || v.value <= 0 then None else v
  }

  predicate Usable(e: DirEntry) { IsCandidate(e) && VersionOf(e).Some? && e.contents.Some? }

  function MigrationOf(e: DirEntry, checksum: string -> string): Migration
    requires Usable(e)
  {
    Migration(VersionOf(e).value, e.name, e.contents.value, checksum(e.contents.value))
  }

  ghost predicate StrictlySorted(ms: seq<Migration>) {
    forall i, k :: 0 <= i < k < |ms| ==> ms[i].version < ms[k].version
  }

  ghost predicate DistinctVersions(ms: seq<Migration>) {
    forall i, k :: 0 <= i < k < |ms| ==> ms[i].version != ms[k].version
  }

  function InsertByVersion(m: Migration, ms: seq<Migration>): (r: seq<Migration>)
    requires StrictlySorted(ms) && forall x :: x in ms ==> x.version != m.version
    ensures |r| == |ms| + 1 && forall x :: x in r <==> x in ms || x == m
  {
    if ms == [] || ms[|ms| - 1].version < m.version then ms + [m]
    else InsertByVersion(m, ms[..|ms| - 1]) + [ms[|ms| - 1]]
  }

  lemma {:induction false} InsertKeepsOrder(m: Migration, ms: seq<Migration>)
    requires StrictlySorted(ms) && forall x :: x in ms ==> x.version != m.version
    ensures StrictlySorted(InsertByVersion(m, ms))
  {
    if ms != [] && m.version < ms[|ms| - 1].version {
      var last, init := ms[|ms| - 1], ms[..|ms| - 1];
      InsertKeepsOrder(m, init);
      var r := InsertByVersion(m, init);
      forall x | x in r ensures x.version < last.version {
        assert x in init || x == m;
      }
    }
  }

  /** sort.Slice by version. */
  function SortByVersion(ms: seq<Migration>): (r: seq<Migration>)
    requires DistinctVersions(ms)
    ensures StrictlySorted(r) && |r| == |ms|
    ensures forall x :: x in r <==> x in ms
  {
    if ms == [] then []
    else
      var init, last := ms[..|ms| - 1], ms[|ms| - 1];
      assert ms == init + [last];
      InsertKeepsOrder(last, SortByVersion(init));
      InsertByVersion(last, SortByVersion(init))
  }

  /** Every candidate file can be used, and no two of them share a version. */
  ghost predicate Consistent(entries: seq<DirEntry>) {
    && (forall e :: e in entries && IsCandidate(e) ==> Usable(e))
    && (forall i, k :: 0 <= i < k < |entries| && Usable(entries[i]) && Usable(entries[k]) ==>
          VersionOf(entries[i]) != VersionOf(entries[k]))
  }

  /** ms lists exactly the usable entries, each under its own version. */
  ghost predicate Lists(ms: seq<Migration>, entries: seq<DirEntry>, checksum: string -> string) {
    && (forall e :: e in entries && Usable(e) ==> MigrationOf(e, checksum) in ms)
    && (forall m :: m in ms ==> exists e :: e in entries && Usable(e) && m == MigrationOf(e, checksum))
  }

  lemma ListsStep(ms: seq<Migration>, entries: seq<DirEntry>, e: DirEntry, checksum: string -> string)
    requires Lists(ms, entries, checksum)
    ensures !Usable(e) ==> Lists(ms, entries + [e], checksum)
    ensures Usable(e) ==> Lists(ms + [MigrationOf(e, checksum)], entries + [e], checksum)
  {
    assert forall x :: x in entries + [e] <==> x in entries || x == e;
    if Usable(e) {
      var ms' := ms + [MigrationOf(e, checksum)];
      forall m | m in ms' ensures exists x :: x in entries + [e] && Usable(x) && m == MigrationOf(x, checksum) {
        if m in ms {
          var x :| x in entries && Usable(x) && m == MigrationOf(x, checksum);
          assert x in entries + [e];
        } else {
          assert e in entries + [e];
        }
      }
    } else {
      forall m | m in ms ensures exists x :: x in entries + [e] && Usable(x) && m == MigrationOf(x, checksum) {
        var x :| x in entries && Usable(x) && m == MigrationOf(x, checksum);
        assert x in entries + [e];
      }
    }
  }

  lemma ListsSorted(ms: seq<Migration>, entries: seq<DirEntry>, checksum: string -> string)
    requires DistinctVersions(ms) && Lists(ms, entries, checksum)
    ensures Lists(SortByVersion(ms), entries, checksum)
  {
  }

  /** Scanning one more entry keeps the prefix consistent exactly when the entry itself is no error. */
  lemma ConsistentStep(entries: seq<DirEntry>, e: DirEntry, versions: map<int, string>)
    requires Consistent(entries)
    requires forall v :: v in versions <==> Scanned(entries, v)
    ensures Consistent(entries + [e]) <==> (IsCandidate(e) ==> Usable(e) && VersionOf(e).value !in versions)
    ensures Usable(e) ==> forall v :: v in versions || v == VersionOf(e).value <==> Scanned(entries + [e], v)
    ensures !Usable(e) ==> forall v :: v in versions <==> Scanned(entries + [e], v)
  {
    var more := entries + [e];
    assert forall x :: x in more <==> x in entries || x == e;
    forall v ensures Scanned(more, v) <==> Scanned(entries, v) || (Usable(e) && VersionOf(e).value == v) {
      if Scanned(entries, v) {
        var i :| 0 <= i < |entries| && Usable(entries[i]) && VersionOf(entries[i]).value == v;
        assert more[i] == entries[i];
      }
      if Usable(e) && VersionOf(e).value == v {
        assert more[|entries|] == e;
      }
    }
    if Usable(e) && VersionOf(e).value in versions {
      assert Scanned(entries, VersionOf(e).value);
      var i :| 0 <= i < |entries| && Usable(entries[i]) && VersionOf(entries[i]).value == VersionOf(e).value;
      assert more[i] == entries[i] && more[|entries|] == e;
    } else if Consistent(more) || (IsCandidate(e) ==> Usable(e)) {
      forall i, k | 0 <= i < k < |more| && Usable(more[i]) && Usable(more[k])
        ensures VersionOf(more[i]) != VersionOf(more[k])
      {
        assert more[i] == entries[i];
        if k == |entries| {
          assert Scanned(entries, VersionOf(entries[i]).value);
        } else {
          assert more[k] == entries[k];
        }
      }
    }
  }

  /** Some usable entry carries this version. */
  ghost predicate Scanned(entries: seq<DirEntry>, v: int) {
    exists i :: 0 <= i < |entries| && Usable(entries[i]) && VersionOf(entries[i]).value == v
  }

  /** What the scan knows after a prefix of the listing. */
  ghost predicate ScanInv(
    ms: seq<Migration>, versions: map<int, string>, prefix: seq<DirEntry>, checksum: string -> string
  ) {
    && DistinctVersions(ms) && Consistent(prefix) && Lists(ms, prefix, checksum)
    && (forall m :: m in ms ==> m.version in versions)
    && (forall v :: v in versions <==> Scanned(prefix, v))
  }

  lemma ScanSkip(
    ms: seq<Migration>, versions: map<int, string>, prefix: seq<DirEntry>, e: DirEntry, checksum: string -> string
  )
    requires ScanInv(ms, versions, prefix, checksum) && !IsCandidate(e)
    ensures ScanInv(ms, versions, prefix + [e], checksum)
  {
    ConsistentStep(prefix, e, versions);
    ListsStep(ms, prefix, e, checksum);
  }

  lemma ScanTake(
    ms: seq<Migration>, versions: map<int, string>, prefix: seq<DirEntry>, e: DirEntry, checksum: string -> string
  )
    requires ScanInv(ms, versions, prefix, checksum) && Usable(e) && VersionOf(e).value !in versions
    ensures ScanInv(ms + [MigrationOf(e, checksum)], versions[VersionOf(e).value := e.name], prefix + [e], checksum)
  {
    ConsistentStep(prefix, e, versions);
    ListsStep(ms, prefix, e, checksum);
  }

  /** The error is about the first entry that makes the listing unusable. */
  ghost predicate Blames(entries: seq<DirEntry>, index: nat, error: MigrationError) {
    && index < |entries| && Consistent(entries[..index]) && IsCandidate(entries[index])
    && var v := VersionOf(entries[index]);
       match error
       case InvalidVersion(name) => name == entries[index].name && v.None?
       case DuplicateVersion(version) => v == Some(version) && Scanned(entries[..index], version)
       case ReadFile(name) =>
         name == entries[index].name && v.Some? && !Scanned(entries[..index], v.value) && entries[index].contents.None?
       case _ => false
  }

  /** An unusable or repeated candidate makes the whole listing inconsistent, and is to blame. */
  lemma ScanError(
    ms: seq<Migration>, versions: map<int, string>, entries: seq<DirEntry>, index: nat, checksum: string -> string,
    error: MigrationError
  )
    requires index < |entries| && ScanInv(ms, versions, entries[..index], checksum) && IsCandidate(entries[index])
    requires var name, v := entries[index].name, VersionOf(entries[index]);
      || (error == InvalidVersion(name) && v.None?)
      || (v.Some? && error == DuplicateVersion(v.value) && v.value in versions)
      || (v.Some? && v.value !in versions && error == ReadFile(name) && entries[index].contents.None?)
    ensures !Consistent(entries) && Blames(entries, index, error)
  {
    var prefix := entries[..index + 1];
    assert prefix == entries[..index] + [entries[index]];
    assert !Consistent(prefix) by {
      ConsistentStep(entries[..index], entries[index], versions);
    }
    InconsistentPrefix(entries, index + 1);
  }

  lemma InconsistentPrefix(entries: seq<DirEntry>, n: nat)
    requires n <= |entries| && !Consistent(entries[..n])
    ensures !Consistent(entries)
  {
    var prefix := entries[..n];
    if e :| e in prefix && IsCandidate(e) && !Usable(e) {
      assert e in entries;
    } else {
      var i, k :| 0 <= i < k < |prefix| && Usable(prefix[i]) && Usable(prefix[k])
                  && VersionOf(prefix[i]) == VersionOf(prefix[k]);
      assert entries[i] == prefix[i] && entries[k] == prefix[k];
    }
  }

  /** The migration is this file: its name carries the version, its contents are the SQL and are checksummed. */
  ghost predicate FileOf(e: DirEntry, m: Migration, checksum: string -> string) {
    && !e.isDir && e.name == m.name && e.contents == Some(m.sql) && m.checksum == checksum(m.sql)
    && Numbered(m.name, m.version)
  }

  /** The name matches the pattern and its digits denote the version, a positive int64. */
  ghost predicate Numbered(name: string, version: int) {
    0 < version < TWO_63 && exists digits, rest :: Matches(name, digits, rest) && Value(digits) == version
  }

  lemma UsableIsExact(e: DirEntry, version: int)
    ensures IsCandidate(e) <==> !e.isDir && exists digits, rest :: Matches(e.name, digits, rest)
    ensures IsCandidate(e) ==> (VersionOf(e) == Some(version) <==> Numbered(e.name, version))
  {
    forall digits, rest | Matches(e.name, digits, rest) ensures VersionText(e.name) == Some(digits) {
      VersionTextIsExact(e.name, digits, rest);
    }
    VersionTextIsExact(e.name, "", "");
    if IsCandidate(e) {
      var digits := VersionText(e.name).value;
      var rest :| Matches(e.name, digits, rest);
      assert IsDigit(digits[0]);
    }
  }

  /** What is listed are the files, no more and no less. */
  lemma ListsFiles(ms: seq<Migration>, entries: seq<DirEntry>, checksum: string -> string)
    requires Consistent(entries) && Lists(ms, entries, checksum)
    ensures forall m :: m in ms ==> exists e :: e in entries && FileOf(e, m, checksum)
    ensures forall e, v :: e in entries && !e.isDir && Numbered(e.name, v) ==>
      e.contents.Some? && Migration(v, e.name, e.contents.value, checksum(e.contents.value)) in ms
  {
    forall m | m in ms ensures exists e :: e in entries && FileOf(e, m, checksum) {
      var e :| e in entries && Usable(e) && m == MigrationOf(e, checksum);
      UsableIsExact(e, m.version);
      assert FileOf(e, m, checksum);
    }
    forall e, v | e in entries && !e.isDir && Numbered(e.name, v)
      ensures e.contents.Some? && Migration(v, e.name, e.contents.value, checksum(e.contents.value)) in ms
    {
      UsableIsExact(e, v);
      assert MigrationOf(e, checksum) in ms;
    }
  }

  /** Names the files by version while scanning; duplicates and unusable candidates are errors. */
  method DiscoverMigrations(listing: Option<seq<DirEntry>>, checksum: string -> string)
    returns (r: Result<seq<Migration>, MigrationError>)
    ensures r.Ok? <==> listing.Some? && Consistent(listing.value)
    ensures r.Ok? ==> StrictlySorted(r.value) && Lists(r.value, listing.value, checksum)
    ensures r.Ok? ==> forall m :: m in r.value ==> exists e :: e in listing.value && FileOf(e, m, checksum)
    ensures r.Ok? ==> forall e, v :: e in listing.value && !e.isDir && Numbered(e.name, v) ==>
      e.contents.Some? && Migration(v, e.name, e.contents.value, checksum(e.contents.value)) in r.value
    ensures listing.None? ==> r == Err(ReadDirectory)
    ensures listing.Some? && r.Err? ==> exists index: nat :: Blames(listing.value, index, r.error)
  {
    if listing.None? {
      return Err(ReadDirectory);
    }
    var entries := listing.value;
    var ms: seq<Migration> := [];
    var versions: map<int, string> := map[];
    for index := 0 to |entries|
      invariant ScanInv(ms, versions, entries[..index], checksum)
    {
      var entry := entries[index];
      assert entries[..index + 1] == entries[..index] + [entry];
      if IsCandidate(entry) {
        var version := VersionOf(entry);
        if version.None? {
          ScanError(ms, versions, entries, index, checksum, InvalidVersion(entry.name));
          return Err(InvalidVersion(entry.name));
        }
        if version.value in versions {
          ScanError(ms, versions, entries, index, checksum, DuplicateVersion(version.value));
          return Err(DuplicateVersion(version.value));
        }
        if entry.contents.None? {
          ScanError(ms, versions, entries, index, checksum, ReadFile(entry.name));
          return Err(ReadFile(entry.name));
        }
        ScanTake(ms, versions, entries[..index], entry, checksum);
        versions := versions[version.value := entry.name];
        ms := ms + [MigrationOf(entry, checksum)];
      } else {
        ScanSkip(ms, versions, entries[..index], entry, checksum);
      }
    }
    assert entries[..|entries|] == entries;
    ListsSorted(ms, entries, checksum);
    ListsFiles(SortByVersion(ms), entries, checksum);
    return Ok(SortByVersion(ms));
  }

  // ---------------------------------------------------------------------------------------------
  // Application
  // ---------------------------------------------------------------------------------------------

  datatype Record = Record(name: string, checksum: string)

  /** schema_migrations, and the versions whose SQL has been committed, in commit order. */
  datatype Db = Db(history: map<int, Record>, committed: seq<int>) {
    /** Every committed version is recorded, once. */
    ghost predicate Valid() {
      && (forall v :: v in committed <==> v in history)
      && forall i, k :: 0 <= i < k < |committed| ==> committed[i] != committed[k]
    }
  }

  /** What may interrupt one candidate: before its commit takes effect, or after it. */
  datatype Fault = NoFault | ReadFails | BeforeCommit | AfterCommit

  /** migrationWasApplied: the recorded checksum must be the candidate's. */
  function WasApplied(d: Db, m: Migration, f: Fault): Result<bool, MigrationError> {
    if f.ReadFails? then Err(Database)
    else if m.version !in d.history then Ok(false)
    else if d.history[m.version].checksum != m.checksum then Err(ChecksumChanged(m.name))
    else Ok(true)
  }

  /** One transaction: the SQL and its record commit together or not at all. */
  function Committed(d: Db, m: Migration): Db {
    Db(d.history[m.version := Record(m.name, m.checksum)], d.committed + [m.version])
  }

  class Connection {
    var db: Db

    constructor (db: Db)
      ensures this.db == db
    {
      this.db := db;
    }

    method ApplyMigration(m: Migration, f: Fault) returns (ok: bool)
      modifies this
      ensures db == if f.BeforeCommit? || m.version in old(db).history then old(db) else Committed(old(db), m)
      ensures ok <==> f != BeforeCommit && f != AfterCommit && m.version !in old(db).history
    {
      if f.BeforeCommit? || m.version in db.history {
        return false;
      }
      db := Committed(db, m);
      ok := !f.AfterCommit?;
    }

    /**
     * RunMigrations after the lock is held: a run may stop anywhere, and whatever it did is described
     * by RunFrom.
     */
    method RunMigrations(ms: seq<Migration>, fault: nat -> Fault)
      returns (r: Result<seq<string>, MigrationError>)
      modifies this
      ensures (db, r) == RunFrom(old(db), ms, fault, 0, [])
    {
      var applied := [];
      var index := 0;
      while index < |ms|
        invariant 0 <= index <= |ms|
        invariant RunFrom(old(db), ms, fault, 0, []) == RunFrom(db, ms, fault, index, applied)
      {
        var wasApplied := WasApplied(db, ms[index], fault(index));
        if wasApplied.Err? {
          return Err(wasApplied.error);
        }
        if !wasApplied.value {
          var ok := ApplyMigration(ms[index], fault(index));
          if !ok {
            return Err(Database);
          }
          applied := applied + [ms[index].name];
        }
        index := index + 1;
      }
      return Ok(applied);
    }
  }

  /** The database after candidates i.. have been gone through, and the names applied by then. */
  function RunFrom(d: Db, ms: seq<Migration>, fault: nat -> Fault, i: nat, applied: seq<string>)
    : (Db, Result<seq<string>, MigrationError>)
    requires i <= |ms|
    decreases |ms| - i
  {
    if i == |ms| then (d, Ok(applied))
    else
      var was := WasApplied(d, ms[i], fault(i));
      if was.Err? then (d, Err(was.error))
      else if was.value then RunFrom(d, ms, fault, i + 1, applied)
      else
        match fault(i)
        case BeforeCommit => (d, Err(Database))
        case AfterCommit => (Committed(d, ms[i]), Err(Database))
        case _ => RunFrom(Committed(d, ms[i]), ms, fault, i + 1, applied + [ms[i].name])
  }

  /** The migration is recorded under its version with its name and checksum. */
  predicate Recorded(d: Db, m: Migration) {
    m.version in d.history && d.history[m.version] == Record(m.name, m.checksum)
  }

  ghost predicate FromCandidates(d: Db, d': Db, ms: seq<Migration>) {
    forall v :: v in d'.history && v !in d.history ==> exists m :: m in ms && m.version == v && Recorded(d', m)
  }

  /** d' adds to d only pending versions, none below lo, in strictly increasing order. */
  ghost predicate AddsInOrder(d: Db, d': Db, lo: int) {
    && d.committed <= d'.committed
    && (forall v :: v in d.history ==> v in d'.history && d'.history[v] == d.history[v])
    && (forall i :: |d.committed| <= i < |d'.committed| ==> lo <= d'.committed[i] && d'.committed[i] !in d.history)
    && (forall i, k :: |d.committed| <= i < k < |d'.committed| ==> d'.committed[i] < d'.committed[k])
  }

  lemma CommitStep(d: Db, m: Migration, d': Db, lo: int)
    requires d.Valid() && m.version !in d.history && lo <= m.version
    requires AddsInOrder(Committed(d, m), d', m.version + 1)
    ensures Committed(d, m).Valid() && AddsInOrder(d, d', lo)
  {
    CommitKeepsValid(d, m);
    var n := |d.committed|;
    assert d'.committed[n] == Committed(d, m).committed[n] == m.version;
    forall i | n <= i < |d'.committed| ensures lo <= d'.committed[i] && d'.committed[i] !in d.history {
      if i > n {
        assert d'.committed[i] !in Committed(d, m).history;
      }
    }
  }

  lemma CommitKeepsValid(d: Db, m: Migration)
    requires d.Valid() && m.version !in d.history
    ensures Committed(d, m).Valid()
  {
    var d' := Committed(d, m);
    forall v ensures v in d'.committed <==> v in d'.history {
      assert v in d'.committed <==> v in d.committed || v == m.version;
    }
  }

  /**
   * One run, cut anywhere: the history stays consistent, nothing recorded changes, and exactly
   * pending candidates are committed, once each, in strictly increasing order of version.
   */
  lemma {:induction false} RunAddsInOrder(
    d: Db, ms: seq<Migration>, fault: nat -> Fault, i: nat, applied: seq<string>, lo: int
  )
    requires d.Valid() && StrictlySorted(ms) && i <= |ms|
    requires forall k :: i <= k < |ms| ==> lo <= ms[k].version
    ensures var d' := RunFrom(d, ms, fault, i, applied).0;
      d'.Valid() && AddsInOrder(d, d', lo) && FromCandidates(d, d', ms)
    decreases |ms| - i
  {
    if i < |ms| {
      var was := WasApplied(d, ms[i], fault(i));
      if was == Ok(true) {
        RunAddsInOrder(d, ms, fault, i + 1, applied, lo);
      } else if was == Ok(false) && fault(i) != BeforeCommit {
        var d1 := Committed(d, ms[i]);
        CommitKeepsValid(d, ms[i]);
        assert ms[i] in ms && Recorded(d1, ms[i]);
        if fault(i) == AfterCommit {
          CommitStep(d, ms[i], d1, lo);
        } else {
          var names := applied + [ms[i].name];
          RunAddsInOrder(d1, ms, fault, i + 1, names, ms[i].version + 1);
          var d' := RunFrom(d1, ms, fault, i + 1, names).0;
          CommitStep(d, ms[i], d', lo);
          assert Recorded(d', ms[i]);
        }
      }
    }
  }

  /** A run that returns without error leaves every candidate recorded with its checksum. */
  lemma {:induction false} SuccessRecordsAll(
    d: Db, ms: seq<Migration>, fault: nat -> Fault, i: nat, applied: seq<string>
  )
    requires i <= |ms| && RunFrom(d, ms, fault, i, applied).1.Ok?
    ensures var d' := RunFrom(d, ms, fault, i, applied).0;
      forall k :: i <= k < |ms| ==> ms[k].version in d'.history && d'.history[ms[k].version].checksum == ms[k].checksum
    decreases |ms| - i
  {
    if i < |ms| {
      var pending := WasApplied(d, ms[i], fault(i)) == Ok(false);
      var d1 := if pending then Committed(d, ms[i]) else d;
      var names := if pending then applied + [ms[i].name] else applied;
      SuccessRecordsAll(d1, ms, fault, i + 1, names);
      RunKeepsHistory(d1, ms, fault, i + 1, names, ms[i].version);
    }
  }

  lemma {:induction false} RunKeepsHistory(
    d: Db, ms: seq<Migration>, fault: nat -> Fault, i: nat, applied: seq<string>, v: int
  )
    requires i <= |ms| && v in d.history
    ensures var d' := RunFrom(d, ms, fault, i, applied).0; v in d'.history && d'.history[v] == d.history[v]
    decreases |ms| - i
  {
    if i < |ms| {
      var pending := WasApplied(d, ms[i], fault(i)) == Ok(false);
      RunKeepsHistory(if pending then Committed(d, ms[i]) else d, ms, fault, i + 1,
                      if pending then applied + [ms[i].name] else applied, v);
    }
  }

  /** A file edited after it was applied stops every later run before it returns, and its record stays. */
  lemma ChecksumGuard(d: Db, ms: seq<Migration>, fault: nat -> Fault, k: nat)
    requires k < |ms| && ms[k].version in d.history && d.history[ms[k].version].checksum != ms[k].checksum
    ensures RunFrom(d, ms, fault, 0, []).1.Err?
    ensures var d' := RunFrom(d, ms, fault, 0, []).0;
      ms[k].version in d'.history && d'.history[ms[k].version] == d.history[ms[k].version]
  {
    RunKeepsHistory(d, ms, fault, 0, [], ms[k].version);
    if RunFrom(d, ms, fault, 0, []).1.Ok? {
      SuccessRecordsAll(d, ms, fault, 0, []);
    }
  }

  /**
   * Editing an applied file is noticed: a directory in which a recorded version's file no longer has
   * the recorded checksum makes every run over it fail, and the record stays.
   */
  lemma EditedFileFails(
    d: Db, ms: seq<Migration>, fault: nat -> Fault,
    entries: seq<DirEntry>, checksum: string -> string, e: DirEntry, v: int
  )
    requires Consistent(entries) && Lists(ms, entries, checksum)
    requires e in entries && !e.isDir && Numbered(e.name, v) && e.contents.Some?
    requires v in d.history && d.history[v].checksum != checksum(e.contents.value)
    ensures RunFrom(d, ms, fault, 0, []).1.Err?
    ensures v in RunFrom(d, ms, fault, 0, []).0.history && RunFrom(d, ms, fault, 0, []).0.history[v] == d.history[v]
  {
    ListsFiles(ms, entries, checksum);
    var m := Migration(v, e.name, e.contents.value, checksum(e.contents.value));
    var k :| 0 <= k < |ms| && ms[k] == m;
    ChecksumGuard(d, ms, fault, k);
  }

  // ---------------------------------------------------------------------------------------------
  // The exact outcome of a run
  // ---------------------------------------------------------------------------------------------

  /** The candidates that the history does not record, in order. */
  function Pending(d: Db, ms: seq<Migration>): seq<Migration> {
    if ms == [] then []
    else
      var m := ms[|ms| - 1];
      Pending(d, ms[..|ms| - 1]) + if m.version in d.history then [] else [m]
  }

  function Versions(ms: seq<Migration>): (vs: seq<int>)
    ensures |vs| == |ms| && forall i :: 0 <= i < |ms| ==> vs[i] == ms[i].version
  {
    seq(|ms|, i requires 0 <= i < |ms| => ms[i].version)
  }

  function Names(ms: seq<Migration>): (ns: seq<string>)
    ensures |ns| == |ms| && forall i :: 0 <= i < |ms| ==> ns[i] == ms[i].name
  {
    seq(|ms|, i requires 0 <= i < |ms| => ms[i].name)
  }

  /** Nothing stops the run here: the history can be read, and agrees, or else the migration commits. */
  predicate Passes(d: Db, m: Migration, f: Fault) {
    f != ReadFails && if m.version in d.history then d.history[m.version].checksum == m.checksum else f == NoFault
  }

  /** The candidates up to k have been gone through without a stop. */
  ghost predicate PassesUpTo(d: Db, ms: seq<Migration>, fault: nat -> Fault, k: nat) {
    k <= |ms| && forall n :: 0 <= n < k ==> Passes(d, ms[n], fault(n))
  }

  /** d has gone from d0 through the first i candidates and has not touched the others. */
  ghost predicate Midway(d0: Db, d: Db, ms: seq<Migration>, i: nat) {
    && i <= |ms| && d.committed == d0.committed + Versions(Pending(d0, ms[..i]))
    && forall k :: i <= k < |ms| ==>
         && (ms[k].version in d.history <==> ms[k].version in d0.history)
         && (ms[k].version in d0.history ==> d.history[ms[k].version] == d0.history[ms[k].version])
  }

  /** The result of a run whose first stop is at candidate k, if at any. */
  ghost predicate StopsAt(
    d: Db, ms: seq<Migration>, fault: nat -> Fault, k: nat, d': Db, r: Result<seq<string>, MigrationError>
  ) {
    && PassesUpTo(d, ms, fault, k)
    && var done := d.committed + Versions(Pending(d, ms[..k]));
       if k == |ms| then
         r == Ok(Names(Pending(d, ms))) && d'.committed == done
       else
         var m, f := ms[k], fault(k);
         && !Passes(d, m, f)
         && r == Err(if f != ReadFails && m.version in d.history then ChecksumChanged(m.name) else Database)
         && d'.committed == done + if f == AfterCommit && m.version !in d.history then [m.version] else []
  }

  lemma MidwayStep(d0: Db, d: Db, ms: seq<Migration>, i: nat)
    requires StrictlySorted(ms) && Midway(d0, d, ms, i) && i < |ms|
    ensures ms[i].version in d0.history ==>
      Midway(d0, d, ms, i + 1) && Pending(d0, ms[..i + 1]) == Pending(d0, ms[..i])
    ensures ms[i].version !in d0.history ==>
      && Midway(d0, Committed(d, ms[i]), ms, i + 1)
      && Pending(d0, ms[..i + 1]) == Pending(d0, ms[..i]) + [ms[i]]
  {
    assert ms[..i + 1][..i] == ms[..i];
  }

  lemma {:induction false} RunFromExact(d0: Db, d: Db, ms: seq<Migration>, fault: nat -> Fault, i: nat)
    returns (k: nat)
    requires StrictlySorted(ms) && Midway(d0, d, ms, i) && PassesUpTo(d0, ms, fault, i)
    ensures var end := RunFrom(d, ms, fault, i, Names(Pending(d0, ms[..i]))); StopsAt(d0, ms, fault, k, end.0, end.1)
    decreases |ms| - i
  {
    k := i;
    if i == |ms| {
      assert ms[..i] == ms;
    } else if Passes(d0, ms[i], fault(i)) {
      MidwayStep(d0, d, ms, i);
      var pending := ms[i].version !in d0.history;
      assert pending ==> Names(Pending(d0, ms[..i + 1])) == Names(Pending(d0, ms[..i])) + [ms[i].name];
      k := RunFromExact(d0, if pending then Committed(d, ms[i]) else d, ms, fault, i + 1);
    }
  }

  /**
   * A run, exactly.  It succeeds if and only if no interruption is met and no recorded checksum
   * differs, and then commits and reports exactly the pending candidates, in order; otherwise it has
   * committed the pending candidates before its first stop, whose cause is the error.
   */
  lemma RunIsExact(d: Db, ms: seq<Migration>, fault: nat -> Fault) returns (k: nat)
    requires StrictlySorted(ms)
    ensures var end := RunFrom(d, ms, fault, 0, []); StopsAt(d, ms, fault, k, end.0, end.1)
    ensures RunFrom(d, ms, fault, 0, []).1.Ok? <==> PassesUpTo(d, ms, fault, |ms|)
  {
    assert ms[..0] == [];
    assert Names(Pending(d, ms[..0])) == [];
    k := RunFromExact(d, d, ms, fault, 0);
  }

  /** names lists, after applied, the recorded names of what d' has committed beyond d. */
  ghost predicate Reports(d: Db, d': Db, applied: seq<string>, names: seq<string>) {
    && d.committed <= d'.committed && applied <= names
    && |names| - |applied| == |d'.committed| - |d.committed|
    && forall k :: |applied| <= k < |names| ==> NamedAt(d', |d.committed| + k - |applied|, names[k])
  }

  predicate NamedAt(d: Db, i: int, name: string) {
    0 <= i < |d.committed| && d.committed[i] in d.history && d.history[d.committed[i]].name == name
  }

  /** A successful run reports exactly the migrations it committed, in order. */
  lemma {:induction false} ReportsWhatItApplied(
    d: Db, ms: seq<Migration>, fault: nat -> Fault, i: nat, applied: seq<string>
  )
    requires i <= |ms| && RunFrom(d, ms, fault, i, applied).1.Ok?
    ensures Reports(d, RunFrom(d, ms, fault, i, applied).0, applied, RunFrom(d, ms, fault, i, applied).1.value)
    decreases |ms| - i
  {
    if i < |ms| {
      if WasApplied(d, ms[i], fault(i)) == Ok(true) {
        ReportsWhatItApplied(d, ms, fault, i + 1, applied);
      } else {
        var d1, names := Committed(d, ms[i]), applied + [ms[i].name];
        ReportsWhatItApplied(d1, ms, fault, i + 1, names);
        RunKeepsHistory(d1, ms, fault, i + 1, names, ms[i].version);
        var d', all := RunFrom(d1, ms, fault, i + 1, names).0, RunFrom(d1, ms, fault, i + 1, names).1.value;
        assert d'.committed[|d.committed|] == d1.committed[|d.committed|] == ms[i].version;
        assert all[|applied|] == names[|applied|] == ms[i].name;
        forall k | |applied| <= k < |all| ensures NamedAt(d', |d.committed| + k - |applied|, all[k]) {
          if k > |applied| {
            assert NamedAt(d', |d1.committed| + k - |names|, all[k]);
          }
        }
      }
    }
  }

  /** Running again over recorded candidates applies nothing and changes nothing. */
  lemma {:induction false} RerunIsIdle(d: Db, ms: seq<Migration>, fault: nat -> Fault, i: nat, applied: seq<string>)
    requires i <= |ms| && forall k :: fault(k) != ReadFails
    requires forall k :: i <= k < |ms| ==>
      ms[k].version in d.history && d.history[ms[k].version].checksum == ms[k].checksum
    ensures RunFrom(d, ms, fault, i, applied) == (d, Ok(applied))
    decreases |ms| - i
  {
    if i < |ms| {
      RerunIsIdle(d, ms, fault, i + 1, applied);
    }
  }

  /** An immediate rerun after a successful run reports that nothing was applied. */
  lemma RerunAfterSuccess(d: Db, ms: seq<Migration>, fault: nat -> Fault, again: nat -> Fault)
    requires forall k :: again(k) != ReadFails
    requires RunFrom(d, ms, fault, 0, []).1.Ok?
    ensures var d' := RunFrom(d, ms, fault, 0, []).0;
      RunFrom(d', ms, again, 0, []) == (d', Ok([]))
  {
    SuccessRecordsAll(d, ms, fault, 0, []);
    RerunIsIdle(RunFrom(d, ms, fault, 0, []).0, ms, again, 0, []);
  }

  /** One invocation of the runner: the directory as it was then, and what interrupted it. */
  datatype Invocation = Invocation(ms: seq<Migration>, fault: nat -> Fault)

  function RunAll(d: Db, runs: seq<Invocation>): Db {
    if runs == [] then d
    else
      var last := runs[|runs| - 1];
      RunFrom(RunAll(d, runs[..|runs| - 1]), last.ms, last.fault, 0, []).0
  }

  /**
   * Over any sequence of runs, each over its own directory and each cut anywhere, every version's SQL
   * has committed at most once, is recorded exactly if it committed, and keeps its first record.
   */
  lemma {:induction false} CommitsAtMostOnce(d: Db, runs: seq<Invocation>)
    requires d.Valid() && forall i :: 0 <= i < |runs| ==> StrictlySorted(runs[i].ms)
    ensures RunAll(d, runs).Valid()
    ensures d.committed <= RunAll(d, runs).committed
    ensures forall v :: v in d.history ==> v in RunAll(d, runs).history && RunAll(d, runs).history[v] == d.history[v]
  {
    if runs != [] {
      var init, last := runs[..|runs| - 1], runs[|runs| - 1];
      CommitsAtMostOnce(d, init);
      assert StrictlySorted(last.ms);
      RunAddsInOrder(RunAll(d, init), last.ms, last.fault, 0, [], if last.ms == [] then 0 else last.ms[0].version);
    }
  }

  /** What has been committed is, in order, an initial part of these migrations, as they are recorded. */
  ghost predicate InDirectoryOrder(d: Db, ms: seq<Migration>) {
    && d.Valid() && |d.committed| <= |ms|
    && forall k :: 0 <= k < |d.committed| ==> d.committed[k] == ms[k].version && Recorded(d, ms[k])
  }

  lemma CommitNext(d: Db, ms: seq<Migration>)
    requires StrictlySorted(ms) && InDirectoryOrder(d, ms) && |d.committed| < |ms|
    ensures ms[|d.committed|].version !in d.history
    ensures InDirectoryOrder(Committed(d, ms[|d.committed|]), ms)
  {
    var m := ms[|d.committed|];
    CommitKeepsValid(d, m);
  }

  /** A run over an initial part of the directory: what is committed is skipped, the next is committed. */
  lemma {:induction false} RunContinues(
    d: Db, ms: seq<Migration>, n: nat, fault: nat -> Fault, i: nat, applied: seq<string>
  )
    requires StrictlySorted(ms) && InDirectoryOrder(d, ms) && i <= n <= |ms| && i <= |d.committed|
    ensures InDirectoryOrder(RunFrom(d, ms[..n], fault, i, applied).0, ms)
    decreases n - i
  {
    if i < n {
      if i < |d.committed| {
        RunContinues(d, ms, n, fault, i + 1, applied);
      } else {
        CommitNext(d, ms);
        RunContinues(Committed(d, ms[i]), ms, n, fault, i + 1, applied + [ms[i].name]);
      }
    }
  }

  /**
   * Order across runs: while new files only ever come after the old ones, any sequence of runs, each
   * cut anywhere, commits the directory's versions in directory order, without a gap.
   */
  lemma {:induction false} CommitsInDirectoryOrder(d: Db, runs: seq<Invocation>, ms: seq<Migration>)
    requires StrictlySorted(ms) && InDirectoryOrder(d, ms)
    requires forall i :: 0 <= i < |runs| ==> runs[i].ms <= ms
    ensures InDirectoryOrder(RunAll(d, runs), ms)
  {
    if runs != [] {
      var init, last := runs[..|runs| - 1], runs[|runs| - 1];
      CommitsInDirectoryOrder(d, init, ms);
      assert last.ms == ms[..|last.ms|];
      RunContinues(RunAll(d, init), ms, |last.ms|, last.fault, 0, []);
    }
  }
}
