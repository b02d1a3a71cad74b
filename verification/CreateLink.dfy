/** CreateGeneratedLink: bounded retries on taken codes, then a write-once idempotency record. */
module CreateLink {
  import opened Prelude
  import opened Domain
  import opened LinkObject
  import opened MemoryStore
  import StoreModel

  const MAX_ATTEMPTS: nat := 5

  datatype Request = Request(destination: string, ownerID: string, expiresAt: TimeCell?, idempotencyKey: string)

  /** What the environment does to one execution: codes, clock readings and failures, attempt by attempt. */
  datatype Env = Env(
    parse: string -> Result<string, Error>,
    generate: nat -> Result<string, Error>,
    clock: nat -> Time,
    getDone: bool,
    insertDone: nat -> bool,
    saveDone: bool
  )

  /** The inputs shared by all attempts of one execution. */
  datatype Inputs = Inputs(destination: string, ownerID: string, createdAt: Time, expiresAt: Option<Time>)

  /** The link attempt i would create; only the code depends on the attempt. */
  function Candidate(env: Env, i: nat, x: Inputs): Result<Link, Error> {
    var code := env.generate(i);
    if code.Err? then Err(code.error) else NewLink(code.value, x.destination, x.ownerID, x.createdAt, x.expiresAt)
  }

  /** The attempt's code and the request make a link. */
  predicate Builds(env: Env, i: nat, x: Inputs) {
    && env.generate(i).Ok? && TrimSpace(env.generate(i).value) != ""
    && x.destination != "" && TrimSpace(x.ownerID) != "" && !IsZeroTime(x.createdAt)
    && (x.expiresAt.Some? ==> x.createdAt < x.expiresAt.value)
  }

  /** The candidate carries every input, is active and at version 1, and exists exactly when it can. */
  lemma CandidateIsExact(env: Env, i: nat, x: Inputs)
    ensures env.generate(i).Err? ==> Candidate(env, i, x) == Err(env.generate(i).error)
    ensures Candidate(env, i, x).Ok? <==> Builds(env, i, x)
    ensures Candidate(env, i, x).Ok? ==>
      Candidate(env, i, x).value ==
        Link(TrimSpace(env.generate(i).value), x.destination, TrimSpace(x.ownerID), Active,
             x.createdAt, x.createdAt, x.expiresAt, 1)
  {
    if env.generate(i).Ok? {
      NewLinkIsExact(env.generate(i).value, x.destination, x.ownerID, x.createdAt, x.expiresAt,
                     Link(TrimSpace(env.generate(i).value), x.destination, TrimSpace(x.ownerID), Active,
                          x.createdAt, x.createdAt, x.expiresAt, 1));
    }
  }

  /** The attempt builds a link and the repository is asked for it. */
  predicate Asks(env: Env, i: nat, x: Inputs) { Builds(env, i, x) && !env.insertDone(i) }

  predicate Collides(links: StoreModel.Links, env: Env, i: nat, x: Inputs) {
    Asks(env, i, x) && TrimSpace(env.generate(i).value) in links
  }

  predicate Stores(links: StoreModel.Links, env: Env, i: nat, x: Inputs) {
    Asks(env, i, x) && TrimSpace(env.generate(i).value) !in links
  }

  datatype Outcome = Stored(link: LinkStruct) | Taken | Failed(error: Error)

  /** One turn of the loop: it stores its candidate, or finds the code taken, or fails otherwise. */
  method Attempt(repository: Repository, env: Env, i: nat, x: Inputs, expiresAt: TimeCell?) returns (o: Outcome)
    requires x.expiresAt == Deref(expiresAt)
    modifies repository
    ensures o.Stored? <==> Stores(old(repository.Contents()), env, i, x)
    ensures o.Taken? <==> Collides(old(repository.Contents()), env, i, x)
    ensures o.Stored? ==>
      && o.link.createdAt == x.createdAt && o.link.version == 1
      && Candidate(env, i, x) == Ok(View(o.link))
      && repository.links == old(repository.links)[o.link.code := o.link]
    ensures o.Failed? ==> o.error == if Candidate(env, i, x).Err? then Candidate(env, i, x).error else ContextDone
    ensures !o.Stored? ==> repository.links == old(repository.links)
  {
    CandidateIsExact(env, i, x);
    var code := env.generate(i);
    if code.Err? {
      return Failed(code.error);
    }
    var made := MakeLink(code.value, x.destination, x.ownerID, x.createdAt, expiresAt);
    if made.Err? {
      return Failed(made.error);
    }
    assert repository.Contents() == old(repository.Contents());
    var failed := repository.Insert(env.insertDone(i), made.value);
    o := match failed
         case None => Stored(made.value)
         case Some(LinkAlreadyExists) => Taken
         case Some(e) => Failed(e);
  }

  /** i is the first attempt that does not find its code taken, or MAX_ATTEMPTS when all do. */
  ghost predicate FirstSettled(links: StoreModel.Links, env: Env, i: nat, x: Inputs) {
    && i <= MAX_ATTEMPTS
    && (forall k :: 0 <= k < i ==> Collides(links, env, k, x))
    && (i < MAX_ATTEMPTS ==> !Collides(links, env, i, x))
  }

  /** With valid inputs, and no failure but taken codes, every attempt asks the repository. */
  ghost predicate NoOtherFailure(env: Env, x: Inputs) {
    forall i :: 0 <= i < MAX_ATTEMPTS ==> Asks(env, i, x)
  }

  /** At most one link appears, under a free code, at version 1 and the first clock reading. */
  ghost predicate InsertsAtMostOne(before: map<string, LinkStruct>, after: map<string, LinkStruct>, createdAt: Time) {
    after == before ||
    exists code :: code !in before && code in after && after == before[code := after[code]]
                   && after[code].createdAt == createdAt && after[code].version == 1
  }

  /**
   * The retry loop.  The first attempt i that does not collide settles it: it stores its candidate
   * if it could ask for it, and otherwise the repository is untouched.
   */
  method InsertFresh(repository: Repository, env: Env, destination: string, request: Request)
    returns (r: Result<LinkStruct, Error>, ghost i: nat)
    modifies repository
    ensures var x := Inputs(destination, request.ownerID, env.clock(0), old(Deref(request.expiresAt)));
      && FirstSettled(old(repository.Contents()), env, i, x)
      && (r.Ok? <==> i < MAX_ATTEMPTS && Asks(env, i, x))
      && (r.Ok? ==> Candidate(env, i, x) == Ok(View(r.value))
                    && repository.links == old(repository.links)[r.value.code := r.value])
      && (i == MAX_ATTEMPTS ==> r == Err(CodeGenerationExhausted))
      && (i < MAX_ATTEMPTS && !Asks(env, i, x) ==>
            r == Err(if Candidate(env, i, x).Err? then Candidate(env, i, x).error else ContextDone))
    ensures r.Err? ==> repository.links == old(repository.links)
    ensures InsertsAtMostOne(old(repository.links), repository.links, env.clock(0))
  {
    var createdAt := 0;
    var attempt := 0;
    while attempt < MAX_ATTEMPTS
      invariant attempt <= MAX_ATTEMPTS
      invariant attempt > 0 ==> createdAt == env.clock(0)
      invariant repository.links == old(repository.links)
      invariant var x := Inputs(destination, request.ownerID, env.clock(0), old(Deref(request.expiresAt)));
        forall k :: 0 <= k < attempt ==> Collides(old(repository.Contents()), env, k, x)
    {
      if attempt == 0 {
        createdAt := env.clock(0);
      }
      var x := Inputs(destination, request.ownerID, createdAt, Deref(request.expiresAt));
      assert repository.Contents() == old(repository.Contents());
      var o := Attempt(repository, env, attempt, x, request.expiresAt);
      if o.Stored? {
        return Ok(o.link), attempt;
      }
      if o.Failed? {
        return Err(o.error), attempt;
      }
      attempt := attempt + 1;
    }
    r, i := Err(CodeGenerationExhausted), attempt;
  }

  predicate UsesKey(request: Request, store: IdempotencyStore?) { request.idempotencyKey != "" && store != null }

  function Key(request: Request): StoreModel.IdempotencyKey {
    StoreModel.IdempotencyKey(request.ownerID, request.idempotencyKey)
  }

  /** Recording a key leaves the repository, and every link in it, as they were. */
  method Record(repository: Repository, store: IdempotencyStore, env: Env, request: Request, link: LinkStruct)
    returns (err: Option<Error>)
    requires Key(request) !in store.records
    modifies store
    ensures err == if env.saveDone then Some(ContextDone) else None
    ensures store.records == if err.Some? then old(store.records) else old(store.records)[Key(request) := link]
    ensures repository.Contents() == old(repository.Contents())
  {
    err := store.Save(env.saveDone, request.ownerID, request.idempotencyKey, link);
  }

  /** The key is not looked up, or was looked up and is free. */
  predicate Proceeds(request: Request, store: IdempotencyStore?, env: Env)
    reads store
  {
    UsesKey(request, store) ==> !env.getDone && Key(request) !in store.records
  }

  /** The record of the key cannot be written. */
  predicate SaveFails(request: Request, store: IdempotencyStore?, env: Env) { UsesKey(request, store) && env.saveDone }

  /** The map has gained exactly the struct of this link, under a free code. */
  ghost predicate Gains(before: map<string, LinkStruct>, after: map<string, LinkStruct>, l: Link)
    reads if l.code in after then CellsOf(after[l.code]) else {}
  {
    && l.code !in before && l.code in after
    && after == before[l.code := after[l.code]] && View(after[l.code]) == l
  }

  /**
   * CreateGeneratedLink.Execute.  A failing lookup and a destination that does not parse are errors
   * that touch nothing; a recorded key replays its link and touches nothing.  Otherwise, with a key or
   * without, the first attempt i whose code is free stores its candidate, and the key records exactly
   * that link; when the record cannot be written the link stays behind.
   */
  method Execute(repository: Repository, store: IdempotencyStore?, env: Env, request: Request)
    returns (r: Result<LinkStruct, Error>, ghost i: nat)
    modifies repository, store
    ensures InsertsAtMostOne(old(repository.links), repository.links, env.clock(0))
    ensures request.idempotencyKey != "" && store != null && env.getDone ==> r == Err(ContextDone)
    ensures request.idempotencyKey != "" && store != null && !env.getDone ==>
      var key := StoreModel.IdempotencyKey(request.ownerID, request.idempotencyKey);
      && (key in old(store.records) ==> r == Ok(old(store.records)[key]))
      && (r.Ok? ==> key in store.records && store.records[key] == r.value)
    ensures !old(Proceeds(request, store, env)) || env.parse(request.destination).Err? ==>
      repository.links == old(repository.links) && (store != null ==> store.records == old(store.records))
    ensures old(Proceeds(request, store, env)) && env.parse(request.destination).Err? ==>
      r == Err(env.parse(request.destination).error)
    ensures old(Proceeds(request, store, env)) && env.parse(request.destination).Ok? ==>
      var x := Inputs(
        env.parse(request.destination).value, request.ownerID, env.clock(0), old(Deref(request.expiresAt)));
      && FirstSettled(old(repository.Contents()), env, i, x)
      && (r.Ok? <==> i < MAX_ATTEMPTS && Asks(env, i, x) && !SaveFails(request, store, env))
      && (if i < MAX_ATTEMPTS && Asks(env, i, x)
          then Gains(old(repository.links), repository.links, Candidate(env, i, x).value)
          else repository.links == old(repository.links))
      && (r.Ok? ==> Candidate(env, i, x) == Ok(View(r.value)) && r == Ok(repository.links[r.value.code]))
      && (i == MAX_ATTEMPTS ==> r == Err(CodeGenerationExhausted))
      && (i < MAX_ATTEMPTS && !Asks(env, i, x) ==>
            r == Err(if Candidate(env, i, x).Err? then Candidate(env, i, x).error else ContextDone))
      && (NoOtherFailure(env, x) && !SaveFails(request, store, env) ==> (r.Ok? <==> i < MAX_ATTEMPTS))
    ensures old(Proceeds(request, store, env)) && r.Ok? ==>
      && View(r.value).Valid() && env.generate(i).Ok? && env.parse(request.destination).Ok?
      && View(r.value) ==
           Link(TrimSpace(env.generate(i).value), env.parse(request.destination).value, TrimSpace(request.ownerID),
                Active, env.clock(0), env.clock(0), old(Deref(request.expiresAt)), 1)
    ensures old(Proceeds(request, store, env)) && env.parse(request.destination).Ok? ==>
      i <= 5 && (i == 5 ==> r == Err(CodeGenerationExhausted))
    ensures old(Proceeds(request, store, env)) && store != null ==>
      store.records ==
        if r.Ok? && UsesKey(request, store) then old(store.records)[Key(request) := r.value] else old(store.records)
  {
    i := 0;
    if UsesKey(request, store) {
      r := store.Get(env.getDone, request.ownerID, request.idempotencyKey);
      if r.Ok? || r.error != IdempotencyKeyNotFound {
        return;
      }
    }
    var destination := env.parse(request.destination);
    if destination.Err? {
      return Err(destination.error), 0;
    }
    assert repository.Contents() == old(repository.Contents());
    assert Deref(request.expiresAt) == old(Deref(request.expiresAt));
    r, i := InsertFresh(repository, env, destination.value, request);
    CandidateIsExact(env, i, Inputs(destination.value, request.ownerID, env.clock(0), old(Deref(request.expiresAt))));
    if r.Ok? && UsesKey(request, store) {
      ghost var l := View(r.value);
      var failed := Record(repository, store, env, request, r.value);
      assert View(r.value) == l;
      if failed.Some? {
        r := Err(failed.value);
      }
    }
  }
}
