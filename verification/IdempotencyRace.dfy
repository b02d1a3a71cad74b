/** Any number of CreateGeneratedLink executions racing between the key lookup and the key record. */
module IdempotencyRace {
  import opened Prelude
  import opened Domain
  import opened StoreModel

  /** An execution after its lookup missed, with its link inserted, or finished. */
  datatype Execution =
    | Missed(key: IdempotencyKey)
    | Inserted(key: IdempotencyKey, link: Link)
    | Replayed
    | Created
    | Conflicted(link: Link)
    | Failed

  /** A successful response. */
  datatype Response = Response(id: nat, key: IdempotencyKey, code: string)

  datatype State = State(
    links: Links,
    records: map<IdempotencyKey, Link>,
    executions: map<nat, Execution>,
    responses: set<Response>
  )

  datatype Event =
    | Lookup(id: nat, key: IdempotencyKey)
    | InsertLink(id: nat, link: Link)
    | Save(id: nat)
    | SaveUnanswered(id: nat)
    | GiveUp(id: nat)
    | OtherInsert(link: Link)
    | OtherChange(link: Link)

  function Init(): State { State(map[], map[], map[], {}) }

  predicate Enabled(s: State, e: Event) {
    match e
    case Lookup(id, _) => id !in s.executions
    case InsertLink(id, link) => id in s.executions && s.executions[id].Missed? && Insert(s.links, link).Ok?
    case Save(id) => id in s.executions && s.executions[id].Inserted?
    case SaveUnanswered(id) =>
      id in s.executions && s.executions[id].Inserted? && s.executions[id].key !in s.records
    case GiveUp(id) => id in s.executions && (s.executions[id].Missed? || s.executions[id].Inserted?)
    case OtherInsert(link) => Insert(s.links, link).Ok?
    case OtherChange(link) => link.code in s.links
  }

  /**
   * A failed insertion attempt changes nothing and is not an event; GiveUp covers every error without
   * effect.  A record written by a database whose reply is lost is SaveUnanswered; a link written so
   * is OtherInsert, followed by GiveUp.
   */
  function Next(s: State, e: Event): State
    requires Enabled(s, e)
  {
    match e
    case Lookup(id, key) =>
      if key in s.records then
        s.(executions := s.executions[id := Replayed],
           responses := s.responses + {Response(id, key, s.records[key].code)})
      else s.(executions := s.executions[id := Missed(key)])
    case InsertLink(id, link) =>
      s.(links := Insert(s.links, link).value, executions := s.executions[id := Inserted(s.executions[id].key, link)])
    case Save(id) =>
      var key, link := s.executions[id].key, s.executions[id].link;
      if key !in s.records then
        s.(records := s.records[key := link], executions := s.executions[id := Created],
           responses := s.responses + {Response(id, key, link.code)})
      else if s.records[key] != link then s.(executions := s.executions[id := Conflicted(link)])
      else s.(executions := s.executions[id := Created], responses := s.responses + {Response(id, key, link.code)})
    case SaveUnanswered(id) =>
      s.(records := s.records[s.executions[id].key := s.executions[id].link], executions := s.executions[id := Failed])
    case GiveUp(id) => s.(executions := s.executions[id := Failed])
    case OtherInsert(link) => s.(links := Insert(s.links, link).value)
    case OtherChange(link) => s.(links := s.links[link.code := link])
  }

  ghost predicate IsRun(ss: seq<State>, es: seq<Event>) {
    && |ss| == |es| + 1 && ss[0] == Init()
    && forall i :: 0 <= i < |es| ==> Enabled(ss[i], es[i]) && ss[i + 1] == Next(ss[i], es[i])
  }

  /** The link an execution has inserted and nobody's record can name yet, or ever. */
  function Pending(x: Execution): Option<string> {
    match x
    case Inserted(_, link) => Some(link.code)
    case Conflicted(link) => Some(link.code)
    case _ => None
  }

  predicate RecordedCode(s: State, code: string) {
    exists key :: key in s.records && s.records[key].code == code
  }

  ghost predicate ResponsesRecorded(s: State) {
    && (forall key :: key in s.records ==> s.records[key].code in s.links)
    && (forall r :: r in s.responses ==> r.key in s.records && s.records[r.key].code == r.code)
  }

  /** Unrecorded links of executions exist, are named by no record, and belong to one execution each. */
  ghost predicate PendingApart(s: State) {
    && (forall id :: id in s.executions && Pending(s.executions[id]).Some? ==>
          Pending(s.executions[id]).value in s.links && !RecordedCode(s, Pending(s.executions[id]).value))
    && (forall i, j :: i in s.executions && j in s.executions && i != j && Pending(s.executions[i]).Some? ==>
          Pending(s.executions[i]) != Pending(s.executions[j]))
  }

  ghost predicate Inv(s: State) { ResponsesRecorded(s) && PendingApart(s) }

  ghost predicate WriteOnce(s: State, s': State) {
    && (forall key :: key in s.records ==> key in s'.records && s'.records[key] == s.records[key])
    && s.responses <= s'.responses && s.links.Keys <= s'.links.Keys
  }

  lemma ResponsesStep(s: State, e: Event)
    requires Inv(s) && Enabled(s, e)
    ensures ResponsesRecorded(Next(s, e)) && WriteOnce(s, Next(s, e))
  {
    if e.Save? || e.SaveUnanswered? {
      var x := s.executions[e.id];
      assert Pending(x).Some?;
      if x.key in s.records {
        assert RecordedCode(s, s.records[x.key].code);
      }
    }
  }

  lemma InsertStep(s: State, e: Event)
    requires Inv(s) && Enabled(s, e) && e.InsertLink?
    ensures PendingApart(Next(s, e))
  {
    assert forall code :: RecordedCode(s, code) ==> code in s.links;
  }

  lemma SaveStep(s: State, e: Event)
    requires Inv(s) && Enabled(s, e) && (e.Save? || e.SaveUnanswered?)
    ensures PendingApart(Next(s, e))
  {
    var x, s' := s.executions[e.id], Next(s, e);
    assert Pending(x) == Some(x.link.code);
    forall code | RecordedCode(s', code) ensures RecordedCode(s, code) || (code == x.link.code && x.key !in s.records) {
    }
  }

  lemma InvStep(s: State, e: Event)
    requires Inv(s) && Enabled(s, e)
    ensures Inv(Next(s, e)) && WriteOnce(s, Next(s, e))
  {
    ResponsesStep(s, e);
    if e.InsertLink? {
      InsertStep(s, e);
    } else if e.Save? || e.SaveUnanswered? {
      SaveStep(s, e);
    } else {
      assert Next(s, e).records == s.records;
      assert forall code :: RecordedCode(Next(s, e), code) <==> RecordedCode(s, code);
    }
  }

  lemma {:induction false} Invariant(ss: seq<State>, es: seq<Event>, i: int, j: int)
    requires IsRun(ss, es) && 0 <= i <= j < |ss|
    ensures Inv(ss[j]) && WriteOnce(ss[i], ss[j])
    decreases j
  {
    if i < j {
      Invariant(ss, es, i, j - 1);
      InvStep(ss[j - 1], es[j - 1]);
    } else if j > 0 {
      Invariant(ss, es, j - 1, j - 1);
      InvStep(ss[j - 1], es[j - 1]);
    }
  }

  /**
   * Agreement: over any run, all successful responses for one (owner, key), at whatever moments,
   * carry one code; it is the recorded one, the record never changes, and its link exists.
   */
  lemma ResponsesAgree(ss: seq<State>, es: seq<Event>, i: int, j: int, r: Response, q: Response)
    requires IsRun(ss, es) && 0 <= i <= j < |ss|
    requires r in ss[i].responses && q in ss[j].responses && r.key == q.key
    ensures r.code == q.code
    ensures r.key in ss[i].records && ss[j].records == ss[j].records + map[r.key := ss[i].records[r.key]]
    ensures r.code in ss[j].links && ss[i].records[r.key].code == r.code
  {
    Invariant(ss, es, i, j);
    Invariant(ss, es, i, i);
  }

  /**
   * Who loses: an execution that reaches Save with its own link is refused exactly when the key has
   * been recorded meanwhile, and then its link stays in the repository under a code that no record
   * of the rest of the run ever names.
   */
  lemma LateSaveConflicts(ss: seq<State>, es: seq<Event>, i: int, j: int, id: nat)
    requires IsRun(ss, es) && 0 <= i < j < |ss| && es[i] == Save(id)
    ensures ss[i + 1].executions[id].Conflicted? <==> ss[i].executions[id].key in ss[i].records
    ensures ss[i + 1].executions[id].Conflicted? ==>
      && ss[i].executions[id].link.code in ss[j].links
      && forall key :: key in ss[j].records ==> ss[j].records[key].code != ss[i].executions[id].link.code
  {
    Invariant(ss, es, i, i);
    if ss[i].executions[id].key in ss[i].records {
      assert Pending(ss[i].executions[id]) == Some(ss[i].executions[id].link.code);
    }
    if ss[i + 1].executions[id].Conflicted? {
      ConflictStays(ss, es, i + 1, j, id);
      Invariant(ss, es, i + 1, j);
      var code := ss[i].executions[id].link.code;
      assert Pending(ss[j].executions[id]) == Some(code);
      assert !RecordedCode(ss[j], code);
    }
  }

  lemma {:induction false} ConflictStays(ss: seq<State>, es: seq<Event>, i: int, j: int, id: nat)
    requires IsRun(ss, es) && 0 <= i <= j < |ss|
    requires id in ss[i].executions && ss[i].executions[id].Conflicted?
    ensures id in ss[j].executions && ss[j].executions[id] == ss[i].executions[id]
    decreases j - i
  {
    if i < j {
      ConflictStays(ss, es, i, j - 1, id);
    }
  }

  /** Two executions with one key have missed and inserted their links. */
  function BothInserted(key: IdempotencyKey, first: Link, second: Link): State {
    State(map[first.code := first, second.code := second], map[],
          map[0 := Inserted(key, first), 1 := Inserted(key, second)], {})
  }

  lemma ReachBothInserted(key: IdempotencyKey, first: Link, second: Link) returns (ss: seq<State>, es: seq<Event>)
    requires first.code != second.code
    ensures IsRun(ss, es) && |es| == 4 && ss[4] == BothInserted(key, first, second)
  {
    var s0 := Init();
    var s1 := s0.(executions := map[0 := Missed(key)]);
    var s2 := s0.(executions := map[0 := Missed(key), 1 := Missed(key)]);
    var s3 := State(map[first.code := first], map[], map[0 := Inserted(key, first), 1 := Missed(key)], {});
    var s4 := BothInserted(key, first, second);
    assert s1 == Next(s0, Lookup(0, key));
    assert s2 == Next(s1, Lookup(1, key));
    assert s3 == Next(s2, InsertLink(0, first));
    assert s4 == Next(s3, InsertLink(1, second));
    ss, es := [s0, s1, s2, s3, s4], [Lookup(0, key), Lookup(1, key), InsertLink(0, first), InsertLink(1, second)];
  }

  /**
   * Such a race exists: two executions with one key both miss, both insert, and the second Save is
   * refused.  Two links have been created for one key, and one of them stays unrecorded.
   */
  lemma RaceLeavesOrphan(key: IdempotencyKey, first: Link, second: Link) returns (ss: seq<State>, es: seq<Event>)
    requires first.code != second.code
    ensures IsRun(ss, es) && |es| == 6
    ensures ss[6].executions == map[0 := Created, 1 := Conflicted(second)]
    ensures ss[6].links == map[first.code := first, second.code := second]
    ensures ss[6].records == map[key := first]
  {
    ss, es := ReachBothInserted(key, first, second);
    var s4 := BothInserted(key, first, second);
    var s5 := s4.(records := map[key := first], executions := map[0 := Created, 1 := Inserted(key, second)],
                  responses := {Response(0, key, first.code)});
    var s6 := s5.(executions := map[0 := Created, 1 := Conflicted(second)]);
    assert s5 == Next(s4, Save(0));
    assert s6 == Next(s5, Save(1));
    ss, es := ss + [s5, s6], es + [Save(0), Save(1)];
  }
}
