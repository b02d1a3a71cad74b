/** Optimistic concurrency: every interleaving of the change use cases is a serial history. */
module Serializability {
  import opened Prelude
  import opened Domain
  import opened StoreModel
  import opened CacheProtocol

  /** A change that was committed: by whom, what, stamped when, and against which version. */
  datatype Op = Op(id: nat, change: Change, clock: Time, expected: nat)

  /** The event is a commit on this code, and the compare-and-set succeeds. */
  ghost predicate CommitsOn(s: State, e: Event, code: string) {
    && e.Commit? && e.id in s.mutators && s.mutators[e.id].Changed?
    && s.mutators[e.id].link.code == code
    && Update(s.repo, s.mutators[e.id].link, s.mutators[e.id].expected).Ok?
  }

  /** The event stores a new link under this code. */
  ghost predicate CreatesOn(s: State, e: Event, code: string) {
    && e.Create? && code !in s.repo
    && var l := NewLink(e.code, e.destination, e.ownerID, e.createdAt, e.expiresAt);
       l.Ok? && l.value.code == code
  }

  /** The committed changes of a code among the first n events, in commit order. */
  ghost function Ops(ss: seq<State>, es: seq<Event>, code: string, n: nat): seq<Op>
    requires n <= |es| <= |ss|
  {
    if n == 0 then []
    else if CommitsOn(ss[n - 1], es[n - 1], code) then
      var m := ss[n - 1].mutators[es[n - 1].id];
      Ops(ss, es, code, n - 1) + [Op(es[n - 1].id, m.change, m.clock, m.expected)]
    else Ops(ss, es, code, n - 1)
  }

  /** The link that the first n events created under this code. */
  ghost function CreatedLink(ss: seq<State>, es: seq<Event>, code: string, n: nat): Option<Link>
    requires n <= |es| <= |ss|
  {
    if n == 0 then None
    else if CreatesOn(ss[n - 1], es[n - 1], code) then
      var e := es[n - 1];
      Some(NewLink(e.code, e.destination, e.ownerID, e.createdAt, e.expiresAt).value)
    else CreatedLink(ss, es, code, n - 1)
  }

  /** The changes applied one after another, with nobody else around. */
  ghost function Replay(l: Link, ops: seq<Op>): Result<Link, Error> {
    if ops == [] then Ok(l)
    else
      var before := Replay(l, ops[..|ops| - 1]);
      var op := ops[|ops| - 1];
      if before.Ok? then ApplyChange(before.value, op.change, op.clock) else before
  }

  /** What one event does to one code. */
  lemma CodeStep(cfg: Config, ss: seq<State>, es: seq<Event>, j: int, code: string)
    requires IsRun(cfg, ss, es) && 0 <= j < |es|
    ensures CommitsOn(ss[j], es[j], code) ==>
      var m := ss[j].mutators[es[j].id];
      && code in ss[j].repo && code in ss[j + 1].repo
      && ApplyChange(ss[j].repo[code], m.change, m.clock) == Ok(ss[j + 1].repo[code])
      && ss[j].repo[code].version == m.expected && ss[j + 1].repo[code].version == m.expected + 1
    ensures CreatesOn(ss[j], es[j], code) ==>
      var e := es[j];
      && code in ss[j + 1].repo && ss[j + 1].repo[code].version == 1
      && NewLink(e.code, e.destination, e.ownerID, e.createdAt, e.expiresAt) == Ok(ss[j + 1].repo[code])
    ensures !CommitsOn(ss[j], es[j], code) && !CreatesOn(ss[j], es[j], code) ==>
      && (code in ss[j + 1].repo <==> code in ss[j].repo)
      && (code in ss[j].repo ==> ss[j + 1].repo[code] == ss[j].repo[code])
  {
    var s, e := ss[j], es[j];
    assert Enabled(cfg, s, e) && ss[j + 1] == Next(cfg, s, e);
    if CommitsOn(s, e, code) {
      Invariant(cfg, ss, es, j);
      CommitContinues(cfg, ss, j, e.id);
    } else if e.Create? {
    } else if e.Commit? {
    } else {
      assert ss[j + 1].repo == s.repo;
    }
  }

  /**
   * Serializability.  In every interleaving the stored link is the created one with the successful
   * changes applied in commit order; the i-th of them was made against version i + 1.
   */
  lemma {:induction false} Serializable(cfg: Config, ss: seq<State>, es: seq<Event>, n: nat, code: string)
    requires IsRun(cfg, ss, es) && n <= |es|
    ensures code in ss[n].repo <==> CreatedLink(ss, es, code, n).Some?
    ensures code in ss[n].repo ==>
      && Replay(CreatedLink(ss, es, code, n).value, Ops(ss, es, code, n)) == Ok(ss[n].repo[code])
      && ss[n].repo[code].version == 1 + |Ops(ss, es, code, n)|
    ensures code !in ss[n].repo ==> Ops(ss, es, code, n) == []
    ensures forall i :: 0 <= i < |Ops(ss, es, code, n)| ==> Ops(ss, es, code, n)[i].expected == i + 1
  {
    if n > 0 {
      Serializable(cfg, ss, es, n - 1, code);
      CodeStep(cfg, ss, es, n - 1, code);
      var before, after := Ops(ss, es, code, n - 1), Ops(ss, es, code, n);
      if CommitsOn(ss[n - 1], es[n - 1], code) {
        assert after[..|after| - 1] == before;
      }
    }
  }

  /** Of all mutators that hold the same version of a code, at most one ever commits. */
  lemma AtMostOneCommitPerVersion(cfg: Config, ss: seq<State>, es: seq<Event>, a: int, b: int, code: string)
    requires IsRun(cfg, ss, es) && 0 <= a < b < |es|
    requires CommitsOn(ss[a], es[a], code) && CommitsOn(ss[b], es[b], code)
    ensures ss[a].mutators[es[a].id].expected < ss[b].mutators[es[b].id].expected
  {
    CodeStep(cfg, ss, es, a, code);
    CodeStep(cfg, ss, es, b, code);
    Invariant(cfg, ss, es, b);
    assert Grows(ss[a + 1].repo, ss[b].repo);
  }

  lemma {:induction false} OpsGrow(ss: seq<State>, es: seq<Event>, code: string, i: nat, j: nat)
    requires i <= j <= |es| <= |ss|
    ensures Ops(ss, es, code, i) <= Ops(ss, es, code, j)
    decreases j - i
  {
    if i < j {
      OpsGrow(ss, es, code, i, j - 1);
    }
  }

  /**
   * The history chain of a code between any two states: identity never changes, the version counts
   * the commits, updatedAt strictly increases with it, and neither a uint64 nor a bigint overflows.
   */
  lemma HistoryChain(cfg: Config, ss: seq<State>, es: seq<Event>, i: nat, j: nat, code: string)
    requires IsRun(cfg, ss, es) && i <= j <= |es| && code in ss[i].repo
    ensures code in ss[j].repo && CreatedLink(ss, es, code, i) == CreatedLink(ss, es, code, j)
    ensures var l, m := ss[i].repo[code], ss[j].repo[code];
      && m.Valid() && m.code == code && m.ownerID == l.ownerID && m.createdAt == l.createdAt
      && m.version == l.version + |Ops(ss, es, code, j)| - |Ops(ss, es, code, i)|
      && (l.version < m.version ==> l.updatedAt < m.updatedAt)
      && (l.version == m.version ==> l == m)
      && m.version - 1 <= m.updatedAt - m.createdAt <= ss[j].now - cfg.start
      && m.version < TWO_63
  {
    Invariant(cfg, ss, es, j);
    assert InvAt(cfg, ss, j);
    assert Grows(ss[i].repo, ss[j].repo);
    Serializable(cfg, ss, es, i, code);
    Serializable(cfg, ss, es, j, code);
    OpsGrow(ss, es, code, i, j);
    CreatedOnce(cfg, ss, es, i, j, code);
  }

  lemma {:induction false} CreatedOnce(cfg: Config, ss: seq<State>, es: seq<Event>, i: nat, j: nat, code: string)
    requires IsRun(cfg, ss, es) && i <= j <= |es| && code in ss[i].repo
    ensures CreatedLink(ss, es, code, i) == CreatedLink(ss, es, code, j)
    decreases j - i
  {
    if i < j {
      CreatedOnce(cfg, ss, es, i, j - 1, code);
      Invariant(cfg, ss, es, j - 1);
      assert Grows(ss[i].repo, ss[j - 1].repo);
    }
  }
}
