/** CreateGeneratedLink, run without interference, is a run of the racing machine's events. */
module CreateRuns {
  import opened Prelude
  import opened Domain
  import opened StoreModel
  import opened CreateLink
  import opened IdempotencyRace

  ghost predicate Path(ss: seq<State>, es: seq<Event>) {
    && |ss| == |es| + 1
    && forall i :: 0 <= i < |es| ==> Enabled(ss[i], es[i]) && ss[i + 1] == Next(ss[i], es[i])
  }

  /** What one execution is given: its key, when it uses one, and the arguments of its attempts. */
  datatype Call = Call(key: Option<IdempotencyKey>, destination: string, ownerID: string, expiresAt: Option<Time>)

  /** The link that the execution stores, if any, when attempt i settles its loop. */
  function StoredLink(env: Env, call: Call, i: nat): Option<Link> {
    var destination := env.parse(call.destination);
    if destination.Err? then None
    else
      var x := Inputs(destination.value, call.ownerID, env.clock(0), call.expiresAt);
      if i < MAX_ATTEMPTS && Asks(env, i, x) then Some(Candidate(env, i, x).value) else None
  }

  /** Attempt i is the first that does not find its code taken, if the execution attempts anything. */
  ghost predicate Settles(links: Links, env: Env, call: Call, i: nat) {
    var destination := env.parse(call.destination);
    destination.Ok? ==>
      FirstSettled(links, env, i, Inputs(destination.value, call.ownerID, env.clock(0), call.expiresAt))
  }

  /** The end of an execution with a free key: its link stored and recorded, or left behind, or nothing. */
  function Concluded(s: State, id: nat, key: IdempotencyKey, stored: Option<Link>, saveDone: bool): State {
    if stored.None? then s.(executions := s.executions[id := Execution.Failed])
    else
      var l := stored.value;
      var s' := s.(links := s.links[l.code := l]);
      if saveDone then s'.(executions := s.executions[id := Execution.Failed])
      else
        s'.(records := s.records[key := l], executions := s.executions[id := Created],
            responses := s.responses + {Response(id, key, l.code)})
  }

  lemma ConcludedIsARun(s: State, id: nat, key: IdempotencyKey, stored: Option<Link>, saveDone: bool)
    returns (ss: seq<State>, es: seq<Event>)
    requires id !in s.executions && key !in s.records
    requires stored.Some? ==> stored.value.code !in s.links
    ensures Path(ss, es) && ss[0] == s && ss[|es|] == Concluded(s, id, key, stored, saveDone)
    ensures es == match stored
      case None => [Lookup(id, key), GiveUp(id)]
      case Some(l) => [Lookup(id, key), InsertLink(id, l), if saveDone then GiveUp(id) else Save(id)]
  {
    var s1 := s.(executions := s.executions[id := Missed(key)]);
    assert s1.executions[id := Execution.Failed] == s.executions[id := Execution.Failed];
    if stored.None? {
      ss, es := [s, s1, Concluded(s, id, key, stored, saveDone)], [Lookup(id, key), GiveUp(id)];
    } else {
      var l := stored.value;
      var s2 := s.(links := s.links[l.code := l], executions := s.executions[id := Inserted(key, l)]);
      assert s1.executions[id := Inserted(key, l)] == s2.executions;
      var last := if saveDone then GiveUp(id) else Save(id);
      assert s2.executions[id := Execution.Failed] == s.executions[id := Execution.Failed];
      assert s2.executions[id := Created] == s.executions[id := Created];
      ss, es := [s, s1, s2, Next(s2, last)], [Lookup(id, key), InsertLink(id, l), last];
    }
  }

  /**
   * An undisturbed execution.  Without a key it is the insertion of its link, or nothing; with one, a
   * failing lookup is nothing, a recorded key is a replay, and a free key is looked up and concluded.
   */
  lemma CreateIsARun(s: State, id: nat, env: Env, call: Call, i: nat)
    returns (ss: seq<State>, es: seq<Event>)
    requires id !in s.executions && Settles(s.links, env, call, i)
    ensures Path(ss, es) && ss[0] == s
    ensures match call.key
      case None =>
        var stored := StoredLink(env, call, i);
        && es == (if stored.Some? then [OtherInsert(stored.value)] else [])
        && ss[|es|] == if stored.Some? then s.(links := s.links[stored.value.code := stored.value]) else s
      case Some(key) =>
        if env.getDone then es == []
        else if key in s.records then
          && es == [Lookup(id, key)]
          && ss[1] == s.(executions := s.executions[id := Replayed],
                         responses := s.responses + {Response(id, key, s.records[key].code)})
        else
          es != [] && es[0] == Lookup(id, key)
          && ss[|es|] == Concluded(s, id, key, StoredLink(env, call, i), env.saveDone)
    ensures StoredLink(env, call, i).Some? <==>
      && env.parse(call.destination).Ok? && i < 5
      && Asks(env, i, Inputs(env.parse(call.destination).value, call.ownerID, env.clock(0), call.expiresAt))
    ensures StoredLink(env, call, i).Some? ==>
      && StoredLink(env, call, i).value.code !in s.links && env.generate(i).Ok?
      && StoredLink(env, call, i).value ==
           Link(TrimSpace(env.generate(i).value), env.parse(call.destination).value, TrimSpace(call.ownerID), Active,
                env.clock(0), env.clock(0), call.expiresAt, 1)
  {
    if env.parse(call.destination).Ok? {
      CandidateIsExact(
        env, i, Inputs(env.parse(call.destination).value, call.ownerID, env.clock(0), call.expiresAt));
    }
    var stored := StoredLink(env, call, i);
    ss, es := [s], [];
    if call.key.None? {
      if stored.Some? {
        ss, es := [s, s.(links := s.links[stored.value.code := stored.value])], [OtherInsert(stored.value)];
      }
    } else if !env.getDone {
      var key := call.key.value;
      if key in s.records {
        ss, es := [s, Next(s, Lookup(id, key))], [Lookup(id, key)];
      } else {
        ss, es := ConcludedIsARun(s, id, key, stored, env.saveDone);
      }
    }
  }
}
