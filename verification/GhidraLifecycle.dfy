/** The lifecycle of the Ghidra client: an owner thread, one worker thread at a time and one lock, step by step. */
module GhidraLifecycle {
  datatype Status = Idle | Pending | Ready

  datatype Lock = Free | OwnerHolds | WorkerHolds

  /** Where the owner is. Between calls it may start any of the three calls; each call then runs step by step. */
  datatype Owner =
    | Between
    | FetchWaits | FetchChecks | FetchSpawns | FetchUnlocks
    | UpdateWaits | UpdateChecks | UpdateJoins | UpdateMoves | UpdateClears | UpdateIdles | UpdateUnlocks
    | DestroyJoins | Destroyed

  /** Where the worker is; NoWorker when thread_ is not joinable. */
  datatype Worker = NoWorker | Starts | FetchesTypes | FetchesSymbols | Publishes | Unlocks | Exited

  /** A piece of fetched data, with the request that fetched it. */
  datatype Item = Item(request: nat, content: int)

  /** accepted counts the requests that were taken up, delivered the results handed over; fetched is what the worker of
      the latest request obtained. */
  datatype Client = Client(status: Status, lock: Lock, owner: Owner, worker: Worker,
                           result: seq<Item>, pending: seq<Item>,
                           accepted: nat, delivered: nat, fetched: seq<Item>)

  datatype Action = CallFetch | CallUpdate | CallDestroy | OwnerStep | WorkerStep(items: seq<int>, ok: bool)

  function Initial(): Client {
    Client(Idle, Free, Between, NoWorker, [], [], 0, 0, [])
  }

  function Tagged(request: nat, items: seq<int>): seq<Item> {
    seq(|items|, i requires 0 <= i < |items| => Item(request, items[i]))
  }

  // ----- Steps; None while a thread has to wait -----

  function OwnerDoes(s: Client): (t: (bool, Client)) {
    match s.owner
    case Between => (false, s)
    case FetchWaits => (s.lock == Free, s.(lock := OwnerHolds, owner := FetchChecks))
    case FetchChecks =>
      if s.status != Idle then (true, s.(owner := FetchUnlocks))
      else (true, s.(status := Pending, owner := FetchSpawns, accepted := s.accepted + 1, fetched := []))
    case FetchSpawns => (true, s.(worker := Starts, owner := FetchUnlocks))
    case FetchUnlocks => (true, s.(lock := Free, owner := Between))
    case UpdateWaits => (s.lock == Free, s.(lock := OwnerHolds, owner := UpdateChecks))
    case UpdateChecks => (true, s.(owner := if s.status != Ready then UpdateUnlocks else UpdateJoins))
    case UpdateJoins => (s.worker == NoWorker || s.worker == Exited, s.(worker := NoWorker, owner := UpdateMoves))
    case UpdateMoves => (true, s.(result := s.pending, delivered := s.delivered + 1, owner := UpdateClears))
    case UpdateClears => (true, s.(pending := [], owner := UpdateIdles))
    case UpdateIdles => (true, s.(status := Idle, owner := UpdateUnlocks))
    case UpdateUnlocks => (true, s.(lock := Free, owner := Between))
    case DestroyJoins => (s.worker == NoWorker || s.worker == Exited, s.(worker := NoWorker, owner := Destroyed))
    case Destroyed => (false, s)
  }

  function WorkerDoes(s: Client, items: seq<int>, ok: bool): (t: (bool, Client)) {
    match s.worker
    case NoWorker => (false, s)
    case Starts => (s.lock == Free, s.(lock := WorkerHolds, worker := FetchesTypes))
    case FetchesTypes =>
      var news := Tagged(s.accepted, items);
      (true, s.(pending := s.pending + news, fetched := s.fetched + news, worker := if ok then FetchesSymbols
                else Publishes))
    case FetchesSymbols =>
      var news := Tagged(s.accepted, items);
      (true, s.(pending := s.pending + news, fetched := s.fetched + news, worker := Publishes))
    case Publishes => (true, s.(status := Ready, worker := Unlocks))
    case Unlocks => (true, s.(lock := Free, worker := Exited))
    case Exited => (false, s)
  }

  predicate Enabled(s: Client, a: Action) {
    match a
    case CallFetch => s.owner == Between
    case CallUpdate => s.owner == Between
    case CallDestroy => s.owner == Between
    case OwnerStep => OwnerDoes(s).0
    case WorkerStep(items, ok) => WorkerDoes(s, items, ok).0
  }

  function After(s: Client, a: Action): Client {
    match a
    case CallFetch => s.(owner := FetchWaits)
    case CallUpdate => s.(owner := UpdateWaits)
    case CallDestroy => s.(owner := DestroyJoins)
    case OwnerStep => OwnerDoes(s).1
    case WorkerStep(items, ok) => WorkerDoes(s, items, ok).1
  }

  predicate IsCall(a: Action) {
    a == CallFetch || a == CallUpdate || a == CallDestroy
  }

  // ----- What holds in every reachable state -----

  predicate OwnerInside(o: Owner) {
    o == FetchChecks || o == FetchSpawns || o == FetchUnlocks || o == UpdateChecks || o == UpdateJoins
      || o == UpdateMoves
    || o == UpdateClears || o == UpdateIdles || o == UpdateUnlocks
  }

  predicate WorkerInside(w: Worker) {
    w == FetchesTypes || w == FetchesSymbols || w == Publishes || w == Unlocks
  }

  ghost predicate Good(s: Client) {
    // The lock is held by whoever is inside.
    && (s.lock == OwnerHolds <==> OwnerInside(s.owner))
    && (s.lock == WorkerHolds <==> WorkerInside(s.worker))
    // Idle means that nothing is going on: no worker, nothing pending, everything delivered.
    && (s.status == Idle ==> s.worker == NoWorker && s.pending == [] && s.delivered == s.accepted)
    // Pending: the worker is on its way, or about to be started by the owner.
    && (s.status == Pending ==>
          && s.delivered + 1 == s.accepted && s.pending == s.fetched
          && (if s.owner == FetchSpawns then s.worker == NoWorker && s.pending == []
              else
                || s.worker == Starts || s.worker == FetchesTypes || s.worker == FetchesSymbols
                  || s.worker == Publishes)
          && (s.worker == Starts || s.worker == FetchesTypes ==> s.pending == []))
    // Ready: the worker no longer needs the lock, except to let go of it.
    && (s.status == Ready ==>
          && (if s.owner == UpdateClears || s.owner == UpdateIdles then
                s.delivered == s.accepted && s.result == s.fetched
              else
                s.delivered + 1 == s.accepted && s.pending == s.fetched)
          && (s.owner == UpdateIdles ==> s.pending == [])
          && (if s.owner == UpdateMoves || s.owner == UpdateClears || s.owner == UpdateIdles || s.owner == Destroyed
              then s.worker == NoWorker else s.worker == Unlocks || s.worker == Exited))
    // The owner's position tells the status where it just looked.
    && (s.owner == FetchSpawns ==> s.status == Pending)
    && (s.owner == UpdateJoins || s.owner == UpdateMoves || s.owner == UpdateClears || s.owner == UpdateIdles ==>
        s.status == Ready)
    && (s.owner == Destroyed ==> s.worker == NoWorker)
    && (forall i :: 0 <= i < |s.fetched| ==> s.fetched[i].request == s.accepted)
  }

  lemma OwnerKeeps(s: Client)
    requires Good(s) && OwnerDoes(s).0
    ensures Good(OwnerDoes(s).1)
  {}

  lemma WorkerKeeps(s: Client, items: seq<int>, ok: bool)
    requires Good(s) && WorkerDoes(s, items, ok).0
    ensures Good(WorkerDoes(s, items, ok).1)
  {}

  lemma CallKeeps(s: Client, a: Action)
    requires Good(s) && Enabled(s, a) && IsCall(a)
    ensures Good(After(s, a))
  {}

  lemma StepKeeps(s: Client, a: Action)
    requires Good(s) && Enabled(s, a)
    ensures Good(After(s, a))
  {
    hide Good, OwnerDoes, WorkerDoes;
    match a
    case OwnerStep => OwnerKeeps(s);
    case WorkerStep(items, ok) => WorkerKeeps(s, items, ok);
    case CallFetch => CallKeeps(s, a);
    case CallUpdate => CallKeeps(s, a);
    case CallDestroy => CallKeeps(s, a);
  }

  // ----- Whole runs -----

  /** The actions lead from s to t, each one enabled when its turn comes. */
  predicate Leads(s: Client, actions: seq<Action>, t: Client)
    decreases |actions|
  {
    if actions == [] then t == s else Enabled(s, actions[0]) && Leads(After(s, actions[0]), actions[1..], t)
  }

  lemma {:induction false} LeadsKeeps(s: Client, actions: seq<Action>, t: Client)
    requires Good(s) && Leads(s, actions, t)
    ensures Good(t)
    decreases |actions|
  {
    hide Good, Enabled, After;
    if actions != [] {
      StepKeeps(s, actions[0]);
      LeadsKeeps(After(s, actions[0]), actions[1..], t);
    }
  }

  /** In every interleaving: a worker is started only when there is none to overwrite; the join under the lock finds a
      worker that has left; destruction leaves no worker; at most one accepted request is undelivered. */
  lemma EveryInterleaving(actions: seq<Action>, t: Client)
    requires Leads(Initial(), actions, t)
    ensures t.owner == FetchSpawns ==> t.worker == NoWorker
    ensures t.owner == UpdateJoins ==> t.worker == Exited && Enabled(t, OwnerStep)
    ensures t.owner == Destroyed ==> t.worker == NoWorker
    ensures t.delivered <= t.accepted <= t.delivered + 1
  {
    LeadsKeeps(Initial(), actions, t);
  }

  /** The step writes shared data only under the lock, and the result only as the owner. */
  predicate IsExclusive(s: Client, a: Action, t: Client) {
    && (t.status != s.status || t.pending != s.pending ==>
          if a.WorkerStep? then s.lock == WorkerHolds else a == OwnerStep && s.lock == OwnerHolds)
    && (t.result != s.result ==> a == OwnerStep && s.owner == UpdateMoves)
  }

  lemma WritesUnderLock(s: Client, a: Action)
    requires Good(s) && Enabled(s, a)
    ensures IsExclusive(s, a, After(s, a))
  {}

  /** In every interleaving, each thread changes shared data only while it holds the lock, and only the owner changes
      the result. */
  lemma Exclusive(actions: seq<Action>, s: Client, a: Action)
    requires Leads(Initial(), actions, s) && Enabled(s, a)
    ensures IsExclusive(s, a, After(s, a))
  {
    hide IsExclusive, Enabled, After, Good;
    InitialGood();
    LeadsKeeps(Initial(), actions, s);
    WritesUnderLock(s, a);
  }

  lemma InitialGood()
    ensures Good(Initial())
  {}

  // ----- Delivery -----

  /** The requests whose data is handed over along a run, in order. */
  function Deliveries(s: Client, actions: seq<Action>): seq<nat>
    decreases |actions|
  {
    if actions == [] then []
    else (if actions[0] == OwnerStep && s.owner == UpdateMoves then [s.accepted] else [])
         + Deliveries(After(s, actions[0]), actions[1..])
  }

  function UpFrom(first: nat, last: nat): seq<nat> {
    seq(if last < first then 0 else last - first + 1, i requires 0 <= i => first + i)
  }

  lemma {:induction false} DeliveredInOrder(s: Client, actions: seq<Action>, t: Client)
    requires Good(s) && Leads(s, actions, t)
    ensures s.delivered <= t.delivered && Deliveries(s, actions) == UpFrom(s.delivered + 1, t.delivered)
    decreases |actions|
  {
    hide Good, Enabled, OwnerDoes, WorkerDoes;
    if actions != [] {
      var u := After(s, actions[0]);
      StepKeeps(s, actions[0]);
      DeliveredInOrder(u, actions[1..], t);
      CountsDeliveries(s, actions[0]);
      var head := if actions[0] == OwnerStep && s.owner == UpdateMoves then [s.accepted] else [];
      assert head + UpFrom(u.delivered + 1, t.delivered) == UpFrom(s.delivered + 1, t.delivered);
    }
  }

  lemma CountsDeliveries(s: Client, a: Action)
    requires Good(s) && Enabled(s, a)
    ensures After(s, a).delivered == if a == OwnerStep && s.owner == UpdateMoves then s.delivered + 1 else s.delivered
    ensures a == OwnerStep && s.owner == UpdateMoves ==> s.accepted == s.delivered + 1
  {}

  /** Every accepted request is delivered exactly once and in order: the deliveries of a run are 1, 2, 3 and so on, and
      all accepted ones when the client ends up idle. */
  lemma ExactlyOnce(actions: seq<Action>, t: Client)
    requires Leads(Initial(), actions, t)
    ensures Deliveries(Initial(), actions) == UpFrom(1, t.delivered)
    ensures t.status == Idle ==> t.delivered == t.accepted
  {
    LeadsKeeps(Initial(), actions, t);
    DeliveredInOrder(Initial(), actions, t);
  }

  /** What is handed over is all that the worker of this request fetched and nothing else. */
  lemma DeliversItsOwn(actions: seq<Action>, s: Client)
    requires Leads(Initial(), actions, s) && s.owner == UpdateMoves
    ensures After(s, OwnerStep).result == s.fetched
    ensures forall i :: 0 <= i < |s.fetched| ==> s.fetched[i].request == s.delivered + 1
  {
    LeadsKeeps(Initial(), actions, s);
  }

  // ----- Progress -----

  function OwnerWork(o: Owner): nat {
    match o
    case Between => 0
    case FetchWaits => 9
    case FetchChecks => 8
    case FetchSpawns => 7
    case FetchUnlocks => 1
    case UpdateWaits => 7
    case UpdateChecks => 6
    case UpdateJoins => 5
    case UpdateMoves => 4
    case UpdateClears => 3
    case UpdateIdles => 2
    case UpdateUnlocks => 1
    case DestroyJoins => 1
    case Destroyed => 0
  }

  function WorkerWork(w: Worker): nat {
    match w
    case NoWorker => 0
    case Starts => 5
    case FetchesTypes => 4
    case FetchesSymbols => 3
    case Publishes => 2
    case Unlocks => 1
    case Exited => 0
  }

  function Work(s: Client): nat {
    OwnerWork(s.owner) + WorkerWork(s.worker)
  }

  lemma StepWorks(s: Client, a: Action)
    requires Good(s) && Enabled(s, a) && !IsCall(a)
    ensures Work(After(s, a)) < Work(s)
  {}

  /** No deadlock: while a call or a fetch is under way, one of the threads can take a step. */
  lemma SomeoneCanStep(actions: seq<Action>, s: Client)
    requires Leads(Initial(), actions, s) && Work(s) > 0
    ensures Enabled(s, OwnerStep) || forall items: seq<int>, ok: bool :: Enabled(s, WorkerStep(items, ok))
  {
    LeadsKeeps(Initial(), actions, s);
  }

  /** Whatever the scheduling, the calls and the fetch under way are over after at most Work(s) steps. */
  lemma {:induction false} RunsOut(s: Client, actions: seq<Action>, t: Client)
    requires Good(s) && Leads(s, actions, t) && forall a :: a in actions ==> !IsCall(a)
    ensures |actions| + Work(t) <= Work(s)
    decreases |actions|
  {
    hide Good, Enabled, After, Work, IsCall;
    if actions != [] {
      assert actions[0] in actions;
      StepKeeps(s, actions[0]);
      StepWorks(s, actions[0]);
      RunsOut(After(s, actions[0]), actions[1..], t);
    }
  }

  lemma OneCanStep(s: Client) returns (a: Action)
    requires Good(s) && Work(s) > 0
    ensures Enabled(s, a) && !IsCall(a)
  {
    a := if Enabled(s, OwnerStep) then OwnerStep else WorkerStep([], true);
  }

  /** What is under way can always be brought to its end. */
  lemma {:induction false} Finishes(s: Client) returns (rest: seq<Action>, t: Client)
    requires Good(s)
    ensures Leads(s, rest, t) && NoCalls(rest) && Work(t) == 0
    decreases Work(s)
  {
    hide Good, Enabled, After, Work, IsCall;
    rest, t := [], s;
    if Work(s) > 0 {
      var a := OneCanStep(s);
      StepKeeps(s, a);
      StepWorks(s, a);
      rest, t := Finishes(After(s, a));
      LeadsStep(s, a, rest, t);
      rest := [a] + rest;
    }
  }

  // ----- What the calls do -----

  predicate NoCalls(actions: seq<Action>) {
    forall a :: a in actions ==> !IsCall(a)
  }

  /** The worker's steps along a run. */
  function WorkerSteps(actions: seq<Action>): seq<Action> {
    if actions == [] then []
    else (if actions[0].WorkerStep? then [actions[0]] else []) + WorkerSteps(actions[1..])
  }

  function Contents(items: seq<Item>): seq<int> {
    seq(|items|, i requires 0 <= i < |items| => items[i].content)
  }

  /** The worker's steps are those of one whole fetch, and got is what the server sent: the types, and the symbols
      unless fetching the types failed. */
  predicate IsFetch(steps: seq<Action>, got: seq<int>) {
    && |steps| >= 4 && (forall a :: a in steps ==> a.WorkerStep?)
    && (if steps[1].ok then |steps| == 5 && got == steps[1].items + steps[2].items
        else |steps| == 4 && got == steps[1].items)
  }

  /** Where a fetch is after these of its worker's steps. */
  ghost predicate Fetching(s: Client, done: seq<Action>) {
    && (forall a :: a in done ==> a.WorkerStep?)
    && (s.owner == FetchWaits || s.owner == FetchChecks || s.owner == FetchSpawns || s.owner == FetchUnlocks
        || s.owner == Between)
    && (s.status == Idle <==> s.owner == FetchWaits || s.owner == FetchChecks)
    && match s.worker
       case NoWorker => |done| == 0 && (s.status != Idle ==> s.owner == FetchSpawns && s.fetched == [])
       case Starts => |done| == 0 && s.fetched == []
       case FetchesTypes => |done| == 1 && s.fetched == []
       case FetchesSymbols => |done| == 2 && done[1].ok && Contents(s.fetched) == done[1].items
       case Publishes => Fetched(s, done, 0)
       case Unlocks => Fetched(s, done, 1)
       case Exited => Fetched(s, done, 2)
  }

  /** All data has been fetched, more steps ago. */
  ghost predicate Fetched(s: Client, done: seq<Action>, more: nat)
    requires forall a :: a in done ==> a.WorkerStep?
  {
    && |done| >= 2
    && (if done[1].ok then |done| == 3 + more && Contents(s.fetched) == done[1].items + done[2].items
        else |done| == 2 + more && Contents(s.fetched) == done[1].items)
  }

  /** The requests accepted before the call. */
  function Before(s: Client): int {
    if s.status == Idle then s.accepted else s.accepted - 1
  }

  lemma FetchSteps(s: Client, done: seq<Action>, a: Action)
    requires Good(s) && Fetching(s, done) && Enabled(s, a) && !IsCall(a)
    ensures Fetching(After(s, a), done + WorkerSteps([a]))
    ensures Before(After(s, a)) == Before(s)
    ensures After(s, a).delivered == s.delivered && After(s, a).result == s.result
  {
    assert [a][1..] == [];
    if a.WorkerStep? {
      assert WorkerSteps([a]) == [a];
    } else {
      assert done + WorkerSteps([a]) == done;
    }
  }

  lemma Associates(a: seq<Action>, b: seq<Action>, c: seq<Action>)
    ensures a + (b + c) == (a + b) + c
  {}

  lemma FirstStep(a: Action)
    ensures WorkerSteps([a]) == if a.WorkerStep? then [a] else []
  {
    assert [a][1..] == [];
  }

  lemma WorkerStepsCons(done: seq<Action>, actions: seq<Action>)
    requires actions != []
    ensures done + WorkerSteps(actions) == (done + WorkerSteps([actions[0]])) + WorkerSteps(actions[1..])
  {
    FirstStep(actions[0]);
    Associates(done, WorkerSteps([actions[0]]), WorkerSteps(actions[1..]));
  }

  lemma {:induction false} FetchRuns(s: Client, done: seq<Action>, rest: seq<Action>, t: Client)
    requires Good(s) && Fetching(s, done) && NoCalls(rest) && Leads(s, rest, t)
    ensures Good(t) && Fetching(t, done + WorkerSteps(rest)) && t.delivered == s.delivered && t.result == s.result
    ensures Before(t) == Before(s)
    decreases |rest|
  {
    hide Good, Enabled, After, IsCall, Fetching, Before;
    if rest == [] {
      assert done + WorkerSteps(rest) == done;
    } else {
      assert rest[0] in rest;
      StepKeeps(s, rest[0]);
      FetchSteps(s, done, rest[0]);
      WorkerStepsCons(done, rest);
      hide WorkerSteps;
      FetchRuns(After(s, rest[0]), done + WorkerSteps([rest[0]]), rest[1..], t);
    }
  }

  lemma AtRest(s: Client, done: seq<Action>)
    requires Good(s) && Fetching(s, done) && Work(s) == 0
    ensures s.owner == Between && s.lock == Free && s.status == Ready && s.worker == Exited
    ensures s.pending == s.fetched && IsFetch(done, Contents(s.fetched))
  {}

  /** FetchAll on an idle client, however its steps and the worker's are interleaved: when nothing more can happen, one
      more request has been accepted, and all that was fetched for it is ready. */
  lemma FetchTakesUp(actions: seq<Action>, s: Client, rest: seq<Action>, t: Client)
    requires Leads(Initial(), actions, s) && s.owner == Between && s.status == Idle
    requires Leads(After(s, CallFetch), rest, t) && NoCalls(rest) && Work(t) == 0
    ensures t.status == Ready && t.owner == Between && t.lock == Free && t.worker == Exited
    ensures t.accepted == s.accepted + 1 && t.delivered == s.delivered && t.result == s.result
    ensures t.pending == t.fetched && IsFetch(WorkerSteps(rest), Contents(t.fetched))
  {
    InitialGood();
    LeadsKeeps(Initial(), actions, s);
    CallKeeps(s, CallFetch);
    assert Fetching(After(s, CallFetch), []);
    assert Before(After(s, CallFetch)) == s.accepted;
    hide Good, Fetching, Leads, Work;
    FetchRuns(After(s, CallFetch), [], rest, t);
    assert [] + WorkerSteps(rest) == WorkerSteps(rest);
    AtRest(t, WorkerSteps(rest));
  }

  /** FetchAll while a request is under way: the call itself changes nothing. */
  lemma FetchRefused(s: Client)
    requires s.owner == Between && s.lock == Free && s.status != Idle
    ensures Leads(s, [CallFetch, OwnerStep, OwnerStep, OwnerStep], s)
  {
    var waits, checks, unlocks := After(s, CallFetch), s.(lock := OwnerHolds, owner := FetchChecks),
      s.(lock := OwnerHolds, owner := FetchUnlocks);
    LeadsStep(unlocks, OwnerStep, [], s);
    LeadsStep(checks, OwnerStep, [OwnerStep], s);
    LeadsStep(waits, OwnerStep, [OwnerStep, OwnerStep], s);
    LeadsStep(s, CallFetch, [OwnerStep, OwnerStep, OwnerStep], s);
  }

  lemma LeadsStep(s: Client, a: Action, rest: seq<Action>, t: Client)
    requires Enabled(s, a) && Leads(After(s, a), rest, t)
    ensures Leads(s, [a] + rest, t)
  {
    hide Enabled, After;
    assert ([a] + rest)[1..] == rest;
  }

  /** Where an UpdateResult of a ready client is, with the data to hand over. */
  ghost predicate Updating(s: Client, data: seq<Item>, accepted: nat) {
    && s.accepted == accepted
    && match s.owner
       case UpdateWaits => s.status == Ready && s.fetched == data
       case UpdateChecks => s.status == Ready && s.fetched == data
       case UpdateJoins => s.status == Ready && s.fetched == data
       case UpdateMoves => s.status == Ready && s.fetched == data
       case UpdateClears => s.status == Ready && s.result == data && s.fetched == data
       case UpdateIdles => s.status == Ready && s.result == data && s.fetched == data
       case UpdateUnlocks => s.status == Idle && s.result == data
       case Between => s.status == Idle && s.result == data
       case _ => false
  }

  lemma UpdateSteps(s: Client, data: seq<Item>, accepted: nat, a: Action)
    requires Good(s) && Updating(s, data, accepted) && Enabled(s, a) && !IsCall(a)
    ensures Updating(After(s, a), data, accepted)
  {}

  lemma {:induction false} UpdateRuns(s: Client, data: seq<Item>, accepted: nat, rest: seq<Action>, t: Client)
    requires Good(s) && Updating(s, data, accepted) && NoCalls(rest) && Leads(s, rest, t)
    ensures Good(t) && Updating(t, data, accepted)
    decreases |rest|
  {
    hide Good, Enabled, After, IsCall, Updating;
    if rest != [] {
      assert rest[0] in rest;
      StepKeeps(s, rest[0]);
      UpdateSteps(s, data, accepted, rest[0]);
      UpdateRuns(After(s, rest[0]), data, accepted, rest[1..], t);
    }
  }

  /** UpdateResult on a ready client, in every interleaving: the data of the request is the result, and the client is
      idle again. */
  lemma UpdateHandsOver(actions: seq<Action>, s: Client, rest: seq<Action>, t: Client)
    requires Leads(Initial(), actions, s) && s.owner == Between && s.status == Ready
    requires Leads(After(s, CallUpdate), rest, t) && NoCalls(rest) && Work(t) == 0
    ensures t.result == s.pending && t.status == Idle && t.owner == Between && t.worker == NoWorker && t.pending == []
    ensures t.accepted == s.accepted == t.delivered
  {
    InitialGood();
    LeadsKeeps(Initial(), actions, s);
    CallKeeps(s, CallUpdate);
    UpdateRuns(After(s, CallUpdate), s.fetched, s.accepted, rest, t);
  }

  /** UpdateResult on an idle client changes nothing. */
  lemma UpdateRefused(s: Client)
    requires s.owner == Between && s.lock == Free && s.status != Ready
    ensures Leads(s, [CallUpdate, OwnerStep, OwnerStep, OwnerStep], s)
  {
    var waits, checks, unlocks := After(s, CallUpdate), s.(lock := OwnerHolds, owner := UpdateChecks),
      s.(lock := OwnerHolds, owner := UpdateUnlocks);
    LeadsStep(unlocks, OwnerStep, [], s);
    LeadsStep(checks, OwnerStep, [OwnerStep], s);
    LeadsStep(waits, OwnerStep, [OwnerStep, OwnerStep], s);
    LeadsStep(s, CallUpdate, [OwnerStep, OwnerStep, OwnerStep], s);
  }

  /** The destructor has joined the worker when nothing more can happen. */
  lemma {:induction false} DestroyEnds(s: Client, rest: seq<Action>, t: Client)
    requires Good(s) && (s.owner == DestroyJoins || s.owner == Destroyed)
    requires Leads(s, rest, t) && NoCalls(rest) && Work(t) == 0
    ensures t.owner == Destroyed && t.worker == NoWorker && t.accepted == s.accepted && t.delivered == s.delivered
    decreases |rest|
  {
    if rest != [] {
      assert rest[0] in rest;
      StepKeeps(s, rest[0]);
      DestroyEnds(After(s, rest[0]), rest[1..], t);
    }
  }

  /** A whole cycle: what the server sent for the request is the result at its end. */
  lemma WholeCycle(actions: seq<Action>, s: Client, fetch: seq<Action>, t: Client, update: seq<Action>, u: Client)
    requires Leads(Initial(), actions, s) && s.owner == Between && s.status == Idle
    requires Leads(After(s, CallFetch), fetch, t) && NoCalls(fetch) && Work(t) == 0
    requires Leads(After(t, CallUpdate), update, u) && NoCalls(update) && Work(u) == 0
    ensures u.status == Idle && u.accepted == u.delivered == s.accepted + 1
    ensures IsFetch(WorkerSteps(fetch), Contents(u.result))
    ensures forall i :: 0 <= i < |u.result| ==> u.result[i].request == u.accepted
  {
    hide Good, Leads, Work, After, IsFetch, NoCalls;
    FetchTakesUp(actions, s, fetch, t);
    LeadsThrough(actions, s, CallFetch, fetch, t);
    UpdateHandsOver(actions + [CallFetch] + fetch, t, update, u);
    InitialGood();
    LeadsKeeps(Initial(), actions + [CallFetch] + fetch, t);
    OwnRequest(t);
  }

  lemma OwnRequest(s: Client)
    requires Good(s)
    ensures forall i :: 0 <= i < |s.fetched| ==> s.fetched[i].request == s.accepted
  {}

  lemma {:induction false} LeadsOn(s: Client, actions: seq<Action>, t: Client, more: seq<Action>, u: Client)
    requires Leads(s, actions, t) && Leads(t, more, u)
    ensures Leads(s, actions + more, u)
    decreases |actions|
  {
    hide Enabled, After;
    if actions == [] {
      assert actions + more == more;
    } else {
      LeadsOn(After(s, actions[0]), actions[1..], t, more, u);
      assert (actions + more)[1..] == actions[1..] + more;
    }
  }

  lemma LeadsThrough(actions: seq<Action>, s: Client, call: Action, rest: seq<Action>, t: Client)
    requires Leads(Initial(), actions, s) && Enabled(s, call) && Leads(After(s, call), rest, t)
    ensures Leads(Initial(), actions + [call] + rest, t)
  {
    hide *;
    LeadsStep(s, call, rest, t);
    LeadsOn(Initial(), actions, s, [call] + rest, t);
    assert actions + ([call] + rest) == actions + [call] + rest;
  }
}
