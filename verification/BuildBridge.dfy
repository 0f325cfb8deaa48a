/**
 The build bridge: clients leave requests as files, one worker at a time holds the process lock,
 claims requests by renaming them, runs at most one build child, and answers. A transition system
 over the files, the workers' local variables and the live child trees; any interleaving of its
 steps is a run. A worker crash and a failed process cleanup are not steps of this system.
 */
module BuildBridge {
  import opened Wrappers
  import opened Distinct

  datatype Operation = Probe | Stop | Build | Unknown

  /** What a client writes into its request file, with the worker it read from the worker file. */
  datatype Request = Request(workerId: string, operation: Operation, transaction: Option<string>)

  /** What a worker is doing with a request: the steps of the loop body and of finishing. */
  datatype Task =
    | Idle
    | Deciding(id: string)
    | StoppingTree(id: string)
    | CheckingMarker(id: string)
    | RemovingMarker(id: string)
    | Answering(id: string)

  /** Serving in the loop, leaving it with the lock still held, or released and answering stop requests. */
  datatype Mode = Serving | Leaving | Released

  datatype Worker = Worker(mode: Mode, active: Option<string>, task: Task, stops: seq<string>)

  datatype Spawn = Spawn(id: string, worker: string)

  /**
   Request contents by directory name, request files pending and renamed, cancel files, transaction
   markers, workers, the lock, live child trees, and the logs of spawned children and of answers.
   */
  datatype World = World(
    requests: map<string, Request>,
    pending: set<string>,
    running: set<string>,
    cancelled: set<string>,
    markers: map<string, string>,
    workers: map<string, Worker>,
    lock: Option<string>,
    children: set<string>,
    spawned: seq<Spawn>,
    answers: seq<string>)

  datatype Action =
    | Prepare(id: string, request: Request)
    | Submit(id: string)
    | Cancel(id: string)
    | TreeExits(id: string)
    | StartWorker(worker: string)
    | Claim(worker: string, id: string)
    | Decide(worker: string, spawns: bool)
    | FinishActive(worker: string)
    | StopTree(worker: string)
    | CheckMarker(worker: string)
    | RemoveMarker(worker: string)
    | Answer(worker: string)
    | Leave(worker: string)
    | Release(worker: string)
    | TakeStop(worker: string)

  function Start(): World {
    World(map[], {}, {}, {}, map[], map[], None, {}, [], [])
  }

  function SetWorker(s: World, w: string, worker: Worker): World {
    s.(workers := s.workers[w := worker])
  }

  function SetTask(s: World, w: string, task: Task): World
    requires w in s.workers
  {
    SetWorker(s, w, s.workers[w].(task := task))
  }

  function MarkerOf(request: Request, id: string): map<string, string> {
    if request.transaction.Some? then map[request.transaction.value := id] else map[]
  }

  /** The marker exists and names this request. */
  predicate OwnsMarker(s: World, id: string) {
    id in s.requests && s.requests[id].transaction.Some?
    && s.requests[id].transaction.value in s.markers && s.markers[s.requests[id].transaction.value] == id
  }

  /** A request that is refused, answered at once, or cannot be started goes straight to finishing. */
  predicate FinishesAtOnce(s: World, w: string, id: string, spawns: bool)
    requires w in s.workers && id in s.requests
  {
    var request := s.requests[id];
    || request.workerId != w
    || id in s.cancelled
    || request.operation.Probe?
    || (!request.operation.Stop? && (s.workers[w].active.Some? || request.operation.Unknown? || !spawns))
  }

  function Decided(s: World, w: string, id: string, spawns: bool): World
    requires w in s.workers && id in s.requests
  {
    var worker := s.workers[w];
    if FinishesAtOnce(s, w, id, spawns) then SetTask(s, w, CheckingMarker(id))
    else if s.requests[id].operation.Stop? then
      SetWorker(s, w, worker.(mode := Leaving, task := Idle, stops := worker.stops + [id]))
    else
      SetWorker(s, w, worker.(active := Some(id), task := Idle))
        .(children := s.children + {id}, spawned := s.spawned + [Spawn(id, w)])
  }

  /** The steps of the system; None when a step is not enabled. */
  function Next(s: World, a: Action): Option<World> {
    match a
    // A client makes a fresh directory and, for a package, writes the transaction marker first.
    case Prepare(id, request) =>
      if id in s.requests then None
      else Some(s.(requests := s.requests[id := request], markers := s.markers + MarkerOf(request, id)))
    case Submit(id) =>
      if id !in s.requests || id in s.pending || id in s.running then None
      else Some(s.(pending := s.pending + {id}))
    case Cancel(id) =>
      if id !in s.requests then None else Some(s.(cancelled := s.cancelled + {id}))
    // All processes of a child tree may end by themselves.
    case TreeExits(id) => Some(s.(children := s.children - {id}))
    case StartWorker(w) =>
      if s.lock.Some? || w in s.workers then None
      else Some(SetWorker(s, w, Worker(Serving, None, Idle, [])).(lock := Some(w)))
    case Claim(w, id) =>
      if w !in s.workers || !s.workers[w].mode.Serving? || !s.workers[w].task.Idle? || id !in s.pending then None
      else Some(SetTask(s, w, Deciding(id)).(pending := s.pending - {id}, running := s.running + {id}))
    case Decide(w, spawns) =>
      if w !in s.workers || !s.workers[w].task.Deciding? || s.workers[w].task.id !in s.requests then None
      else Some(Decided(s, w, s.workers[w].task.id, spawns))
    // A cancelled or exited active build, or the one left when the loop ends, is taken off and finished.
    case FinishActive(w) =>
      if w !in s.workers || s.workers[w].mode.Released? || !s.workers[w].task.Idle? || s.workers[w].active.None? then None
      else Some(SetWorker(s, w, s.workers[w].(active := None, task := StoppingTree(s.workers[w].active.value))))
    case StopTree(w) =>
      if w !in s.workers || !s.workers[w].task.StoppingTree? then None
      else
        var id := s.workers[w].task.id;
        Some(SetTask(s, w, CheckingMarker(id)).(children := s.children - {id}))
    case CheckMarker(w) =>
      if w !in s.workers || !s.workers[w].task.CheckingMarker? then None
      else
        var id := s.workers[w].task.id;
        Some(SetTask(s, w, if OwnsMarker(s, id) then RemovingMarker(id) else Answering(id)))
    case RemoveMarker(w) =>
      if w !in s.workers || !s.workers[w].task.RemovingMarker? || !HasTransaction(s, s.workers[w].task.id) then None
      else
        var id := s.workers[w].task.id;
        Some(SetTask(s, w, Answering(id)).(markers := s.markers - {s.requests[id].transaction.value}))
    case Answer(w) =>
      if w !in s.workers || !s.workers[w].task.Answering? then None
      else Some(SetTask(s, w, Idle).(answers := s.answers + [s.workers[w].task.id]))
    case Leave(w) =>
      if w !in s.workers || !s.workers[w].mode.Serving? || !s.workers[w].task.Idle? then None
      else Some(SetWorker(s, w, s.workers[w].(mode := Leaving)))
    case Release(w) =>
      if w !in s.workers || !s.workers[w].mode.Leaving? || !s.workers[w].task.Idle? || s.workers[w].active.Some? then None
      else Some(SetWorker(s, w, s.workers[w].(mode := Released)).(lock := None))
    // Stop requests are answered after the lock is released.
    case TakeStop(w) =>
      if w !in s.workers || !s.workers[w].mode.Released? || !s.workers[w].task.Idle? || s.workers[w].stops == [] then None
      else
        var worker := s.workers[w];
        Some(SetWorker(s, w, worker.(task := CheckingMarker(worker.stops[0]), stops := worker.stops[1..])))
  }

  predicate HasTransaction(s: World, id: string) {
    id in s.requests && s.requests[id].transaction.Some?
  }

  function Run(s: World, actions: seq<Action>): Option<World>
    decreases |actions|
  {
    if actions == [] then Some(s)
    else
      match Next(s, actions[0])
      case None => None
      case Some(t) => Run(t, actions[1..])
  }

  /******* The invariant *******/

  predicate Holds(worker: Worker, id: string) {
    worker.active == Some(id) || (!worker.task.Idle? && worker.task.id == id) || id in worker.stops
  }

  /** One worker's variables fit together. */
  ghost predicate WorkerFits(worker: Worker) {
    && NoRepeats(worker.stops)
    && (worker.active.Some? ==> worker.active.value !in worker.stops)
    && (!worker.task.Idle? ==> worker.task.id !in worker.stops && worker.active != Some(worker.task.id))
    && (worker.task.StoppingTree? ==> worker.active.None?)
    && (worker.task.Deciding? ==> worker.mode.Serving?)
    && (worker.mode.Released? ==> worker.active.None? && !worker.task.StoppingTree?)
  }

  ghost predicate FilesFit(s: World) {
    && s.pending <= s.requests.Keys && s.running <= s.requests.Keys && s.pending !! s.running
    && s.cancelled <= s.requests.Keys
    && NoRepeats(s.answers) && (forall id :: id in s.answers ==> id in s.running)
  }

  ghost predicate LockFits(s: World) {
    && (s.lock.Some? ==> s.lock.value in s.workers)
    && (forall w :: w in s.workers ==> (!s.workers[w].mode.Released? <==> s.lock == Some(w)))
  }

  /** A claimed request is held by at most one worker until it is answered. */
  ghost predicate HoldingFits(s: World) {
    && (forall w :: w in s.workers ==> WorkerFits(s.workers[w]))
    && (forall w, id :: w in s.workers && Holds(s.workers[w], id) ==> id in s.running && id !in s.answers)
    && (forall v, w, id :: v in s.workers && w in s.workers && Holds(s.workers[v], id) && Holds(s.workers[w], id) ==> v == w)
  }

  /** A child tree lives only as the lock holder's active build, or while that worker stops it. */
  ghost predicate ChildrenFit(s: World) {
    forall id :: id in s.children ==>
      && s.lock.Some? && s.lock.value in s.workers
      && (s.workers[s.lock.value].active == Some(id) || s.workers[s.lock.value].task == StoppingTree(id))
  }

  predicate WasSpawned(s: World, id: string) {
    exists k :: 0 <= k < |s.spawned| && s.spawned[k].id == id
  }

  ghost predicate SpawnsFit(s: World) {
    && (forall i, j :: 0 <= i < j < |s.spawned| ==> s.spawned[i].id != s.spawned[j].id)
    && (forall k :: 0 <= k < |s.spawned| ==>
          && s.spawned[k].id in s.running && s.spawned[k].id in s.requests
          && s.requests[s.spawned[k].id].workerId == s.spawned[k].worker
          && s.requests[s.spawned[k].id].operation.Build?)
    && (forall w :: w in s.workers && s.workers[w].task.Deciding? ==> !WasSpawned(s, s.workers[w].task.id))
  }

  ghost predicate Inv(s: World) {
    FilesFit(s) && LockFits(s) && HoldingFits(s) && ChildrenFit(s) && SpawnsFit(s)
  }

  lemma FilesKept(s: World, a: Action)
    requires Inv(s) && Next(s, a).Some?
    ensures FilesFit(Next(s, a).value)
  {
    hide ChildrenFit, SpawnsFit, LockFits, FinishesAtOnce, OwnsMarker, HasTransaction;
    if a.Answer? {
      assert Holds(s.workers[a.worker], s.workers[a.worker].task.id);
      NoRepeatsAppend(s.answers, s.workers[a.worker].task.id);
    }
  }

  /** How a step changes the lock. */
  lemma LockAfter(s: World, a: Action)
    requires Next(s, a).Some?
    ensures var t := Next(s, a).value;
      && s.workers.Keys <= t.workers.Keys
      && t.lock == (if a.StartWorker? then Some(a.worker) else if a.Release? then None else s.lock)
      && (a.StartWorker? ==> s.lock.None? && a.worker !in s.workers && t.workers.Keys == s.workers.Keys + {a.worker})
      && (a.Release? ==> a.worker in s.workers && s.workers[a.worker].mode.Leaving?)
      && (!a.StartWorker? ==> t.workers.Keys == s.workers.Keys)
  {
    hide FinishesAtOnce, OwnsMarker, HasTransaction, MarkerOf;
  }

  /** How a step changes whether a worker still holds the lock. */
  lemma ModeAfter(s: World, a: Action, w: string)
    requires Next(s, a).Some? && w in Next(s, a).value.workers
    requires w in s.workers && s.workers[w].task.Deciding? ==> s.workers[w].mode.Serving?
    ensures var mode := Next(s, a).value.workers[w].mode;
      mode.Released? <==> a == Release(w) || (a != StartWorker(w) && w in s.workers && s.workers[w].mode.Released?)
  {
    hide FinishesAtOnce, OwnsMarker, HasTransaction, MarkerOf;
  }

  lemma LockKept(s: World, a: Action)
    requires Inv(s) && Next(s, a).Some?
    ensures LockFits(Next(s, a).value)
  {
    var t := Next(s, a).value;
    hide Next, ChildrenFit, SpawnsFit, FilesFit;
    LockAfter(s, a);
    forall w | w in t.workers ensures !t.workers[w].mode.Released? <==> t.lock == Some(w) {
      assert w in s.workers ==> WorkerFits(s.workers[w]);
      ModeAfter(s, a, w);
    }
  }

  lemma ChildrenKept(s: World, a: Action)
    requires Inv(s) && Next(s, a).Some?
    ensures ChildrenFit(Next(s, a).value)
  {
    hide SpawnsFit, FilesFit, NoRepeats, OwnsMarker, HasTransaction, MarkerOf;
  }

  lemma SpawnsKept(s: World, a: Action)
    requires Inv(s) && Next(s, a).Some?
    ensures SpawnsFit(Next(s, a).value)
  {
    var t := Next(s, a).value;
    if a.Decide? {
      DecideKeepsSpawns(s, a.worker, a.spawns);
    } else {
      assert t.spawned == s.spawned;
      assert forall id :: WasSpawned(t, id) <==> WasSpawned(s, id);
      if a.Claim? {
        assert !WasSpawned(s, a.id);
      }
    }
  }

  lemma DecideKeepsSpawns(s: World, w: string, spawns: bool)
    requires Inv(s) && Next(s, Decide(w, spawns)).Some?
    ensures SpawnsFit(Next(s, Decide(w, spawns)).value)
  {
    var t := Next(s, Decide(w, spawns)).value;
    var id := s.workers[w].task.id;
    assert Holds(s.workers[w], id);
    assert forall v :: v in t.workers && v != w ==> t.workers[v] == s.workers[v];
    assert forall v :: v in t.workers ==> !t.workers[v].task.Deciding?;
    assert forall k :: 0 <= k < |s.spawned| ==> t.spawned[k] == s.spawned[k];
  }

  /******* Holding *******/

  /** The step is one of worker `w`. */
  predicate Acts(a: Action, w: string) {
    match a
    case Prepare(_, _) => false
    case Submit(_) => false
    case Cancel(_) => false
    case TreeExits(_) => false
    case _ => a.worker == w
  }

  /** What a step of worker `w` leaves it holding. */
  lemma ActorHolds(s: World, a: Action, w: string)
    requires Next(s, a).Some? && Acts(a, w) && (w in s.workers ==> WorkerFits(s.workers[w]))
    requires a.Claim? && w in s.workers ==> !Holds(s.workers[w], a.id)
    ensures w in Next(s, a).value.workers
    ensures var worker := Next(s, a).value.workers[w];
      && WorkerFits(worker)
      && forall id :: Holds(worker, id) ==>
           (w in s.workers && Holds(s.workers[w], id) && (a.Answer? ==> id != s.workers[w].task.id)) || a == Claim(w, id)
  {
    if w in s.workers && !s.workers[w].task.Idle? {
      NoRepeatsAppend(s.workers[w].stops, s.workers[w].task.id);
    }
    assert NoRepeats<string>([]);
    hide NoRepeats, FinishesAtOnce, OwnsMarker, HasTransaction, MarkerOf;
  }

  /** After any step a worker fits and holds only what it held before, apart from a request it claims. */
  lemma WorkerKept(s: World, a: Action, w: string)
    requires Inv(s) && Next(s, a).Some? && w in Next(s, a).value.workers
    ensures var worker := Next(s, a).value.workers[w];
      && WorkerFits(worker)
      && forall id :: Holds(worker, id) ==>
           (w in s.workers && Holds(s.workers[w], id) && (a.Answer? && a.worker == w ==> id != s.workers[w].task.id))
           || a == Claim(w, id)
  {
    if a.Claim? {
      assert a.id in s.pending;
    }
    hide Next, WorkerFits, Holds, LockFits, ChildrenFit, SpawnsFit;
    if Acts(a, w) {
      ActorHolds(s, a, w);
    }
  }

  lemma HoldingKept(s: World, a: Action)
    requires Inv(s) && Next(s, a).Some?
    ensures HoldingFits(Next(s, a).value)
  {
    var t := Next(s, a).value;
    forall w | w in t.workers ensures WorkerFits(t.workers[w]) {
      WorkerKept(s, a, w);
    }
    forall w, id | w in t.workers && Holds(t.workers[w], id) ensures id in t.running && id !in t.answers {
      WorkerKept(s, a, w);
      HeldStaysRunning(s, a, w, id);
    }
    forall v, w, id | v in t.workers && w in t.workers && Holds(t.workers[v], id) && Holds(t.workers[w], id) ensures v == w {
      WorkerKept(s, a, v);
      WorkerKept(s, a, w);
      hide Next;
    }
  }

  lemma HeldStaysRunning(s: World, a: Action, w: string, id: string)
    requires Inv(s) && Next(s, a).Some? && w in Next(s, a).value.workers
    requires a == Claim(w, id)
          || (w in s.workers && Holds(s.workers[w], id) && (a.Answer? && a.worker == w ==> id != s.workers[w].task.id))
    ensures id in Next(s, a).value.running && id !in Next(s, a).value.answers
  {
    var t := Next(s, a).value;
    if a.Answer? {
      assert Holds(s.workers[a.worker], s.workers[a.worker].task.id);
      assert t.answers == s.answers + [s.workers[a.worker].task.id];
    }
  }

  lemma InvKept(s: World, a: Action)
    requires Inv(s) && Next(s, a).Some?
    ensures Inv(Next(s, a).value)
  {
    hide Next, FilesFit, LockFits, HoldingFits, ChildrenFit, SpawnsFit;
    FilesKept(s, a);
    LockKept(s, a);
    HoldingKept(s, a);
    ChildrenKept(s, a);
    SpawnsKept(s, a);
  }

  /** The invariant holds in every state of every run. */
  lemma {:induction false} EveryRunFits(s: World, actions: seq<Action>)
    requires Inv(s) && Run(s, actions).Some?
    ensures Inv(Run(s, actions).value)
    decreases |actions|
  {
    if actions != [] {
      InvKept(s, actions[0]);
      hide Inv, Next;
      EveryRunFits(Next(s, actions[0]).value, actions[1..]);
    }
  }

  /******* Safety *******/

  ghost predicate Reachable(s: World) {
    exists actions :: Run(Start(), actions) == Some(s)
  }

  lemma ReachableFits(s: World)
    requires Reachable(s)
    ensures Inv(s)
  {
    var actions :| Run(Start(), actions) == Some(s);
    hide Inv, Run;
    EveryRunFits(Start(), actions);
  }

  /** At most one build child tree is alive at any time, whatever workers come and go. */
  lemma AtMostOneChild(s: World, a: string, b: string)
    requires Reachable(s) && a in s.children && b in s.children
    ensures a == b
  {
    ReachableFits(s);
  }

  /** A request is spawned at most once, and only by the worker it names. */
  lemma ExecutedOnceByItsWorker(s: World, i: nat, j: nat)
    requires Reachable(s) && i < |s.spawned| && j < |s.spawned|
    ensures s.spawned[i].id == s.spawned[j].id ==> i == j
    ensures s.spawned[i].id in s.requests && s.requests[s.spawned[i].id].workerId == s.spawned[i].worker
    ensures s.requests[s.spawned[i].id].operation.Build?
  {
    ReachableFits(s);
  }

  /** Only the lock holder spawns, and only when no child tree is alive. */
  lemma SpawnNeedsTheLock(s: World, a: Action)
    requires Reachable(s) && Next(s, a).Some? && Next(s, a).value.spawned != s.spawned
    ensures a.Decide? && s.lock == Some(a.worker) && s.children == {}
    ensures exists id :: Next(s, a).value.spawned == s.spawned + [Spawn(id, a.worker)]
  {
    ReachableFits(s);
    assert a.Decide?;
    assert WorkerFits(s.workers[a.worker]);
    var id := s.workers[a.worker].task.id;
    assert Next(s, a).value.spawned == s.spawned + [Spawn(id, a.worker)];
    assert s.workers[a.worker].active.None?;
  }

  /** A request gets at most one answer, and only after it was claimed. */
  lemma AnsweredAtMostOnce(s: World)
    requires Reachable(s)
    ensures NoRepeats(s.answers) && forall id :: id in s.answers ==> id in s.running && id !in s.pending
  {
    ReachableFits(s);
  }

  /******* What a worker does with a request *******/

  /** A claimed request is spawned exactly when it is a build for this worker, not cancelled, no build is active and the start succeeds. */
  lemma SpawnedExactly(s: World, w: string, spawns: bool)
    requires Next(s, Decide(w, spawns)).Some?
    ensures var id := s.workers[w].task.id; var t := Next(s, Decide(w, spawns)).value;
      && t.spawned == (if && s.requests[id] == Request(w, Build, s.requests[id].transaction)
                          && id !in s.cancelled && s.workers[w].active.None? && spawns
                       then s.spawned + [Spawn(id, w)] else s.spawned)
      && (t.spawned != s.spawned <==> t.workers[w].active == Some(id) && s.workers[w].active != Some(id))
      && t.children == (if t.spawned != s.spawned then s.children + {id} else s.children)
  {
  }

  /** It is kept for the time after the release exactly when it is a stop request for this worker and not cancelled; the worker then leaves. */
  lemma StopKeptExactly(s: World, w: string, spawns: bool)
    requires Inv(s) && Next(s, Decide(w, spawns)).Some?
    ensures var id := s.workers[w].task.id; var after := Next(s, Decide(w, spawns)).value.workers[w];
      if s.requests[id] == Request(w, Operation.Stop, s.requests[id].transaction) && id !in s.cancelled then
        after.mode.Leaving? && after.stops == s.workers[w].stops + [id] && after.task.Idle?
      else after.mode == s.workers[w].mode && after.stops == s.workers[w].stops
  {
    assert WorkerFits(s.workers[w]);
  }

  /** Every other request goes straight to its answer. */
  lemma OthersAreFinished(s: World, w: string, spawns: bool)
    requires Next(s, Decide(w, spawns)).Some?
    ensures var id := s.workers[w].task.id; var t := Next(s, Decide(w, spawns)).value;
      t.spawned == s.spawned && t.workers[w].stops == s.workers[w].stops ==> t.workers[w] == s.workers[w].(task := CheckingMarker(id))
  {
  }

  lemma CancelledIsNotSpawned(s: World, a: Action, id: string)
    requires Next(s, a).Some? && id in s.cancelled
    ensures id in Next(s, a).value.cancelled && (WasSpawned(Next(s, a).value, id) <==> WasSpawned(s, id))
  {
    var t := Next(s, a).value;
    if a.Decide? {
      var own := s.workers[a.worker].task.id;
      SpawnedExactly(s, a.worker, a.spawns);
      hide Next;
      assert t.spawned == s.spawned || (own != id && t.spawned == s.spawned + [Spawn(own, a.worker)]);
      assert forall k :: 0 <= k < |s.spawned| ==> t.spawned[k] == s.spawned[k];
    } else {
      assert t.spawned == s.spawned;
    }
  }

  /** A request that was cancelled before it was started is never started. */
  lemma {:induction false} CancelledNeverStarts(s: World, id: string, actions: seq<Action>)
    requires id in s.cancelled && Run(s, actions).Some?
    ensures WasSpawned(Run(s, actions).value, id) <==> WasSpawned(s, id)
    decreases |actions|
  {
    if actions != [] {
      CancelledIsNotSpawned(s, actions[0], id);
      hide Next, WasSpawned;
      CancelledNeverStarts(Next(s, actions[0]).value, id, actions[1..]);
    }
  }

  /** A kept stop request is taken up only when its worker has released the lock. */
  lemma StopWaitsForRelease(s: World, a: Action, w: string, id: string)
    requires Inv(s) && Next(s, a).Some? && w in s.workers && id in s.workers[w].stops
    ensures w in Next(s, a).value.workers
    ensures id in Next(s, a).value.workers[w].stops || (a == TakeStop(w) && s.workers[w].mode.Released? && s.lock != Some(w))
  {
    assert Holds(s.workers[w], id);
    hide FinishesAtOnce, OwnsMarker, HasTransaction, MarkerOf, ChildrenFit, SpawnsFit, FilesFit;
  }

  /******* Transaction markers *******/

  predicate SameTransaction(a: Request, b: Request) {
    a.transaction.Some? && a.transaction == b.transaction
  }

  /** A client prepares a request for a transaction only when that transaction has no marker. */
  predicate Guarded(s: World, a: Action) {
    a.Prepare? && a.request.transaction.Some? ==> a.request.transaction.value !in s.markers
  }

  predicate GuardedRun(s: World, actions: seq<Action>)
    decreases |actions|
  {
    actions != [] ==>
      Guarded(s, actions[0]) && (Next(s, actions[0]).Some? ==> GuardedRun(Next(s, actions[0]).value, actions[1..]))
  }

  /** The request is past the removal of its marker: being answered, or answered. */
  ghost predicate Past(s: World, id: string) {
    id in s.answers || exists w :: w in s.workers && s.workers[w].task == Answering(id)
  }

  /** Markers name requests of their transaction; a request has its marker exactly until it is past it. */
  ghost predicate MarkersFit(s: World) {
    && (forall t :: t in s.markers ==> s.markers[t] in s.requests && s.requests[s.markers[t]].transaction == Some(t))
    && (forall id :: HasTransaction(s, id) ==> (OwnsMarker(s, id) <==> !Past(s, id)))
    && (forall w :: w in s.workers && s.workers[w].task.RemovingMarker? ==> OwnsMarker(s, s.workers[w].task.id))
  }

  /** The steps after which a request is past its marker. */
  predicate PassesMarker(s: World, a: Action, id: string) {
    || (a.CheckMarker? && a.worker in s.workers && s.workers[a.worker].task == CheckingMarker(id) && !OwnsMarker(s, id))
    || (a.RemoveMarker? && a.worker in s.workers && s.workers[a.worker].task == RemovingMarker(id))
  }

  lemma PastStays(s: World, a: Action, id: string)
    requires Next(s, a).Some? && (Past(s, id) || PassesMarker(s, a, id))
    ensures Past(Next(s, a).value, id)
  {
    var t := Next(s, a).value;
    hide FinishesAtOnce, HasTransaction, MarkerOf, OwnsMarker;
    if PassesMarker(s, a, id) {
      assert t.workers[a.worker].task == Answering(id);
    } else if id !in s.answers {
      var w :| w in s.workers && s.workers[w].task == Answering(id);
      if a == Answer(w) {
        assert id in t.answers;
      } else {
        assert t.workers[w].task == Answering(id);
      }
    }
  }

  lemma PastBegins(s: World, a: Action, id: string)
    requires Next(s, a).Some? && Past(Next(s, a).value, id)
    ensures Past(s, id) || PassesMarker(s, a, id)
  {
    var t := Next(s, a).value;
    hide FinishesAtOnce, HasTransaction, MarkerOf, OwnsMarker;
    if id !in t.answers {
      var w :| w in t.workers && t.workers[w].task == Answering(id);
      assert w in s.workers;
    }
  }

  lemma PastAfter(s: World, a: Action, id: string)
    requires Next(s, a).Some?
    ensures Past(Next(s, a).value, id) <==> Past(s, id) || PassesMarker(s, a, id)
  {
    hide Next, Past, PassesMarker;
    if Past(s, id) || PassesMarker(s, a, id) {
      PastStays(s, a, id);
    }
    if Past(Next(s, a).value, id) {
      PastBegins(s, a, id);
    }
  }

  /** A request past its marker has no child tree and is not about to get one. */
  lemma PastIsQuiescent(s: World, id: string)
    requires Inv(s) && Past(s, id)
    ensures id !in s.children && id in s.requests
    ensures forall w :: w in s.workers ==> s.workers[w].task != Deciding(id) && s.workers[w].active != Some(id)
  {
    if id in s.answers {
      assert forall w :: w in s.workers ==> !Holds(s.workers[w], id);
    } else {
      var v :| v in s.workers && s.workers[v].task == Answering(id);
      assert Holds(s.workers[v], id) && WorkerFits(s.workers[v]);
      assert forall w :: w in s.workers && w != v ==> !Holds(s.workers[w], id);
    }
  }

  lemma RequestsGrow(s: World, a: Action)
    requires Next(s, a).Some?
    ensures forall id :: id in s.requests ==> id in Next(s, a).value.requests && Next(s, a).value.requests[id] == s.requests[id]
  {
  }

  /** How a step changes markers, requests and who is removing a marker. */
  lemma MarkersAfter(s: World, a: Action)
    requires Next(s, a).Some?
    ensures var t := Next(s, a).value;
      && (a.Prepare? ==> t.markers == s.markers + MarkerOf(a.request, a.id) && t.requests == s.requests[a.id := a.request] && a.id !in s.requests)
      && (!a.Prepare? ==> t.requests == s.requests)
      && (a.RemoveMarker? ==>
            && a.worker in s.workers && s.workers[a.worker].task.RemovingMarker? && HasTransaction(s, s.workers[a.worker].task.id)
            && t.markers == s.markers - {s.requests[s.workers[a.worker].task.id].transaction.value}
            && a.worker in t.workers && !t.workers[a.worker].task.RemovingMarker?)
      && (!a.Prepare? && !a.RemoveMarker? ==> t.markers == s.markers)
      && (forall w :: w in t.workers && t.workers[w].task.RemovingMarker? ==>
            && w in s.workers
            && (t.workers[w].task == s.workers[w].task
                || (a == CheckMarker(w) && s.workers[w].task == CheckingMarker(t.workers[w].task.id)
                    && OwnsMarker(s, t.workers[w].task.id))))
  {
    hide FinishesAtOnce;
  }

  /** Two workers never remove the marker of one request. */
  lemma OneRemover(s: World, v: string, w: string)
    requires Inv(s) && v in s.workers && w in s.workers && v != w
    requires s.workers[v].task.RemovingMarker? && s.workers[w].task.RemovingMarker?
    ensures s.workers[v].task.id != s.workers[w].task.id
  {
    assert Holds(s.workers[v], s.workers[v].task.id);
    assert Holds(s.workers[w], s.workers[w].task.id);
  }

  /** A guarded preparation gives the new request its marker and takes none away. */
  lemma PreparedOwnsMarker(s: World, id: string, request: Request)
    requires id !in s.requests && Guarded(s, Prepare(id, request))
    requires forall t :: t in s.markers ==> s.markers[t] in s.requests
    ensures var t := Next(s, Prepare(id, request)).value;
      && t.workers == s.workers && t.answers == s.answers
      && (request.transaction.Some? ==> OwnsMarker(t, id))
      && (forall i :: i != id ==> (HasTransaction(t, i) <==> HasTransaction(s, i)) && (OwnsMarker(t, i) <==> OwnsMarker(s, i)))
      && (forall m :: m in t.markers ==>
            if m in s.markers then t.markers[m] == s.markers[m] else t.markers[m] == id && request.transaction == Some(m))
  {
  }

  lemma MarkersKeptByPrepare(s: World, id: string, request: Request)
    requires Inv(s) && MarkersFit(s) && Next(s, Prepare(id, request)).Some? && Guarded(s, Prepare(id, request))
    ensures MarkersFit(Next(s, Prepare(id, request)).value)
  {
    hide Inv, MarkerOf;
    var t := Next(s, Prepare(id, request)).value;
    assert t.requests == s.requests[id := request] && id !in s.requests;
    hide Next;
    PreparedOwnsMarker(s, id, request);
    assert forall i :: Past(t, i) <==> Past(s, i);
    if Past(s, id) {
      PastIsQuiescent(s, id);
    }
    hide OwnsMarker, Past, Guarded;
  }

  lemma MarkersKeptByRemoval(s: World, a: Action)
    requires Inv(s) && MarkersFit(s) && Next(s, a).Some? && a.RemoveMarker?
    ensures MarkersFit(Next(s, a).value)
  {
    hide Inv;
    var t := Next(s, a).value;
    var own := s.workers[a.worker].task.id;
    MarkersAfter(s, a);
    hide Next, Past;
    forall id ensures Past(t, id) <==> Past(s, id) || id == own {
      PastAfter(s, a, id);
    }
    forall w | w in t.workers && t.workers[w].task.RemovingMarker? ensures OwnsMarker(t, t.workers[w].task.id) {
      OneRemover(s, a.worker, w);
    }
  }

  /** A guarded step keeps markers, requests and finishing in agreement. */
  lemma MarkersKept(s: World, a: Action)
    requires Inv(s) && MarkersFit(s) && Next(s, a).Some? && Guarded(s, a)
    ensures MarkersFit(Next(s, a).value)
  {
    hide MarkersFit, Next, Inv, Past;
    if a.Prepare? {
      MarkersKeptByPrepare(s, a.id, a.request);
    } else if a.RemoveMarker? {
      MarkersKeptByRemoval(s, a);
    } else {
      MarkersKeptByOthers(s, a);
    }
  }

  lemma MarkersKeptByOthers(s: World, a: Action)
    requires MarkersFit(s) && Next(s, a).Some? && !a.Prepare? && !a.RemoveMarker?
    ensures MarkersFit(Next(s, a).value)
  {
    var t := Next(s, a).value;
    MarkersAfter(s, a);
    forall id ensures Past(t, id) <==> Past(s, id) || PassesMarker(s, a, id) {
      PastAfter(s, a, id);
    }
    hide Next, Past;
    assert forall id :: OwnsMarker(t, id) <==> OwnsMarker(s, id);
  }

  lemma {:induction false} EveryRunFitsMarkers(s: World, actions: seq<Action>)
    requires Inv(s) && MarkersFit(s) && Run(s, actions).Some? && GuardedRun(s, actions)
    ensures MarkersFit(Run(s, actions).value)
    decreases |actions|
  {
    if actions != [] {
      var t := Next(s, actions[0]).value;
      hide MarkersFit, Next, Inv;
      InvKept(s, actions[0]);
      MarkersKept(s, actions[0]);
      EveryRunFitsMarkers(t, actions[1..]);
    }
  }

  lemma {:induction false} RunConcat(s: World, first: seq<Action>, rest: seq<Action>)
    requires Run(s, first).Some?
    ensures Run(s, first + rest) == Run(Run(s, first).value, rest)
    decreases |first|
  {
    hide Next;
    if first == [] {
      assert first + rest == rest;
    } else {
      assert (first + rest)[0] == first[0] && (first + rest)[1..] == first[1..] + rest;
      RunConcat(Next(s, first[0]).value, first[1..], rest);
    }
  }

  lemma GuardedMarkers(s: World, actions: seq<Action>)
    requires Run(Start(), actions) == Some(s) && GuardedRun(Start(), actions)
    ensures Inv(s) && MarkersFit(s)
  {
    ReachableFits(s);
    assert MarkersFit(Start()) && Inv(Start());
    hide MarkersFit, Run, Inv;
    EveryRunFitsMarkers(Start(), actions);
  }

  /**
   A client that prepares a transaction's next request after the earlier ones have their results
   satisfies the guard: the marker is gone before the result is written.
   */
  lemma WaitingForResultsIsGuarded(s: World, actions: seq<Action>, id: string, request: Request)
    requires Run(Start(), actions) == Some(s) && GuardedRun(Start(), actions)
    requires forall i :: i in s.requests && SameTransaction(s.requests[i], request) ==> i in s.answers
    ensures Guarded(s, Prepare(id, request))
  {
    GuardedMarkers(s, actions);
    if !Guarded(s, Prepare(id, request)) {
      var owner := s.markers[request.transaction.value];
      assert HasTransaction(s, owner) && OwnsMarker(s, owner) && Past(s, owner);
    }
  }

  /** The tree of a request whose marker is being removed was stopped before. */
  lemma RemovingHasNoTree(s: World, w: string, id: string)
    requires Inv(s) && w in s.workers && s.workers[w].task == RemovingMarker(id)
    ensures id !in s.children
  {
    assert Holds(s.workers[w], id) && WorkerFits(s.workers[w]);
    assert forall v :: v in s.workers && v != w ==> !Holds(s.workers[v], id);
  }

  /**
   In a guarded run a marker changes or goes only while its own request is being finished, after
   that request's child tree was stopped.
   */
  lemma MarkerRemovedByItsOwnFinish(s: World, actions: seq<Action>, a: Action, transaction: string)
    requires Run(Start(), actions) == Some(s) && GuardedRun(Start(), actions) && Guarded(s, a)
    requires Next(s, a).Some? && transaction in s.markers
    requires transaction !in Next(s, a).value.markers || Next(s, a).value.markers[transaction] != s.markers[transaction]
    ensures a.RemoveMarker? && a.worker in s.workers && transaction !in Next(s, a).value.markers
    ensures s.workers[a.worker].task == RemovingMarker(s.markers[transaction]) && s.markers[transaction] !in s.children
  {
    GuardedMarkers(s, actions);
    MarkersAfter(s, a);
    hide Next, Run, Inv;
    assert a.RemoveMarker?;
    RemovingHasNoTree(s, a.worker, s.workers[a.worker].task.id);
  }

  lemma {:induction false} NoLaterSpawn(s: World, id: string, actions: seq<Action>)
    requires Inv(s) && Past(s, id) && Run(s, actions).Some?
    ensures var t := Run(s, actions).value;
      id !in t.children && (WasSpawned(t, id) <==> WasSpawned(s, id))
    decreases |actions|
  {
    PastIsQuiescent(s, id);
    if actions != [] {
      var t := Next(s, actions[0]).value;
      InvKept(s, actions[0]);
      PastAfter(s, actions[0], id);
      SpawnedAfter(s, actions[0], id);
      hide Next, Past, Inv, WasSpawned;
      NoLaterSpawn(t, id, actions[1..]);
    }
  }

  lemma SpawnedAfter(s: World, a: Action, id: string)
    requires Next(s, a).Some? && forall w :: w in s.workers ==> s.workers[w].task != Deciding(id)
    ensures WasSpawned(Next(s, a).value, id) <==> WasSpawned(s, id)
  {
    var t := Next(s, a).value;
    if a.Decide? {
      var own := s.workers[a.worker].task.id;
      assert own != id;
      assert t.spawned == s.spawned || t.spawned == s.spawned + [Spawn(own, a.worker)];
      hide Next;
      assert forall k :: 0 <= k < |s.spawned| ==> t.spawned[k] == s.spawned[k];
    } else {
      assert t.spawned == s.spawned;
    }
  }

  /**
   What a cancelling client may conclude in a guarded run: it read a request's name from the marker,
   later the marker is gone or names another request. Then that request has no child tree, and never
   gets one again, whatever happens afterwards.
   */
  lemma VanishedMarkerMeansQuiescent(s: World, before: seq<Action>, between: seq<Action>, after: seq<Action>, transaction: string)
    requires Run(Start(), before) == Some(s) && GuardedRun(Start(), before) && transaction in s.markers
    requires Run(s, between).Some? && GuardedRun(s, between)
    requires var seen := Run(s, between).value;
      transaction !in seen.markers || seen.markers[transaction] != s.markers[transaction]
    requires Run(Run(s, between).value, after).Some?
    ensures var seen, end := Run(s, between).value, Run(Run(s, between).value, after).value;
      var id := s.markers[transaction];
      && id !in seen.children && id !in end.children
      && (WasSpawned(end, id) <==> WasSpawned(seen, id))
  {
    var seen := Run(s, between).value;
    var id := s.markers[transaction];
    GuardedMarkers(s, before);
    EveryRunFitsMarkers(s, between);
    EveryRunFits(s, between);
    RequestsGrowOverRun(s, between);
    hide Next, Inv, Past, WasSpawned, GuardedRun;
    assert HasTransaction(seen, id) && !OwnsMarker(seen, id);
    NoLaterSpawn(seen, id, []);
    NoLaterSpawn(seen, id, after);
  }

  lemma {:induction false} RequestsGrowOverRun(s: World, actions: seq<Action>)
    requires Run(s, actions).Some?
    ensures forall i :: i in s.requests ==> i in Run(s, actions).value.requests && Run(s, actions).value.requests[i] == s.requests[i]
    decreases |actions|
  {
    if actions != [] {
      RequestsGrow(s, actions[0]);
      hide Next;
      RequestsGrowOverRun(Next(s, actions[0]).value, actions[1..]);
    }
  }

  /******* Preparing beside a live marker *******/

  lemma OneMore(s: World, actions: seq<Action>, t: World, a: Action, u: World)
    requires Run(s, actions) == Some(t) && Next(t, a) == Some(u)
    ensures Run(s, actions + [a]) == Some(u)
  {
    hide Next;
    RunConcat(s, actions, [a]);
    assert [a][1..] == [];
    assert Run(t, [a]) == Run(u, []);
  }

  /** For a new request the guard is exactly what keeps every request its marker until it is past it. */
  lemma GuardKeepsMarkersExactly(s: World, id: string, request: Request)
    requires Inv(s) && MarkersFit(s) && id !in s.requests
    ensures MarkersFit(Next(s, Prepare(id, request)).value) <==> Guarded(s, Prepare(id, request))
  {
    var a := Prepare(id, request);
    var t := Next(s, a).value;
    if Guarded(s, a) {
      MarkersKept(s, a);
    } else {
      var owner := s.markers[request.transaction.value];
      assert OwnsMarker(s, owner) && HasTransaction(s, owner) && !Past(s, owner);
      assert t.workers == s.workers && t.answers == s.answers;
      assert !Past(t, owner) && HasTransaction(t, owner) && !OwnsMarker(t, owner);
    }
  }

  /**
   Preparing a build without the guard while the worker removes the transaction's marker loses the new
   one: the removal takes it away, and the worker then runs the build without a marker.
   */
  lemma PreparationDuringRemovalMisleads(s: World, w: string, a: string, b: string, second: Request, transaction: string)
    returns (between: seq<Action>, seen: World)
    requires Inv(s) && MarkersFit(s) && b !in s.requests
    requires w in s.workers && s.workers[w].mode.Serving? && s.workers[w].active.None? && s.workers[w].task == RemovingMarker(a)
    requires HasTransaction(s, a) && s.requests[a].transaction == Some(transaction)
    requires second == Request(w, Build, Some(transaction))
    ensures |between| > 0 && between[0] == Prepare(b, second) && !Guarded(s, between[0])
    ensures Run(s, between) == Some(seen) && transaction !in seen.markers && b in seen.children
  {
    assert OwnsMarker(s, a) && b !in s.pending && b !in s.running && b !in s.cancelled;
    hide Inv, MarkersFit;
    var s1 := Next(s, Prepare(b, second)).value;
    var s2 := Next(s1, RemoveMarker(w)).value;
    var s3 := Next(s2, Answer(w)).value;
    assert transaction !in s3.markers && s3.workers[w].task.Idle? && s3.requests == s.requests[b := second];
    OneMore(s, [], s, Prepare(b, second), s1);
    OneMore(s, [] + [Prepare(b, second)], s1, RemoveMarker(w), s2);
    OneMore(s, [] + [Prepare(b, second)] + [RemoveMarker(w)], s2, Answer(w), s3);
    between, seen := PreparedBuildRuns(s3, w, b, s, [] + [Prepare(b, second)] + [RemoveMarker(w)] + [Answer(w)]);
  }

  /** A guarded run reaches such a state, so every build prepared beside another request's marker can mislead. */
  lemma SharedRemovalMisleads(a: string, first: Request, b: string, transaction: string)
    returns (before: seq<Action>, between: seq<Action>, s: World, seen: World)
    requires a != b && first.transaction == Some(transaction) && !first.operation.Stop?
    ensures var second := Request(first.workerId, Build, Some(transaction));
      && Run(Start(), before) == Some(s) && GuardedRun(Start(), before)
      && |between| > 0 && between[0] == Prepare(b, second) && Run(s, between) == Some(seen)
    ensures transaction in s.markers && s.markers[transaction] == a && transaction !in seen.markers && b in seen.children
  {
    before, s := RemovalStarts(a, first);
    hide Run, Next, GuardedRun;
    GuardedMarkers(s, before);
    assert HasTransaction(s, a) && OwnsMarker(s, a);
    between, seen := PreparationDuringRemovalMisleads(s, first.workerId, a, b, Request(first.workerId, Build, Some(transaction)), transaction);
  }

  lemma RemovalStarts(a: string, first: Request) returns (before: seq<Action>, s: World)
    requires !first.operation.Stop? && first.transaction.Some?
    ensures Run(Start(), before) == Some(s) && GuardedRun(Start(), before)
    ensures var w := first.workerId;
      && w in s.workers && s.workers[w].mode.Serving? && s.workers[w].active.None? && s.workers[w].task == RemovingMarker(a)
    ensures s.requests == map[a := first]
  {
    var w := first.workerId;
    var s0 := Start();
    var s1 := Next(s0, StartWorker(w)).value;
    var s2 := Next(s1, Prepare(a, first)).value;
    var s3 := Next(s2, Submit(a)).value;
    var s4 := Next(s3, Claim(w, a)).value;
    var s5 := Next(s4, Decide(w, false)).value;
    s := Next(s5, CheckMarker(w)).value;
    var fifth := [Decide(w, false)] + ([CheckMarker(w)] + []);
    before := [StartWorker(w)] + ([Prepare(a, first)] + ([Submit(a)] + ([Claim(w, a)] + fifth)));
    hide Next;
    FirstStep(s5, CheckMarker(w), s, []);
    FirstStep(s4, Decide(w, false), s5, [CheckMarker(w)] + []);
    FirstStep(s3, Claim(w, a), s4, fifth);
    FirstStep(s2, Submit(a), s3, [Claim(w, a)] + fifth);
    FirstStep(s1, Prepare(a, first), s2, [Submit(a)] + ([Claim(w, a)] + fifth));
    FirstStep(s0, StartWorker(w), s1, [Prepare(a, first)] + ([Submit(a)] + ([Claim(w, a)] + fifth)));
  }

  /** An idle worker can claim and run a prepared build; its markers stay as they are. */
  lemma PreparedBuildRuns(s: World, w: string, b: string, start: World, before: seq<Action>)
    returns (between: seq<Action>, seen: World)
    requires Run(start, before) == Some(s) && before != []
    requires w in s.workers && s.workers[w].mode.Serving? && s.workers[w].active.None? && s.workers[w].task.Idle?
    requires b in s.requests && s.requests[b].workerId == w && s.requests[b].operation.Build?
    requires b !in s.pending && b !in s.running && b !in s.cancelled
    ensures Run(start, between) == Some(seen) && seen.markers == s.markers && b in seen.children
    ensures |between| > 0 && between[0] == before[0]
  {
    var s1 := Next(s, Submit(b)).value;
    var s2 := Next(s1, Claim(w, b)).value;
    seen := Next(s2, Decide(w, true)).value;
    OneMore(start, before, s, Submit(b), s1);
    OneMore(start, before + [Submit(b)], s1, Claim(w, b), s2);
    OneMore(start, before + [Submit(b)] + [Claim(w, b)], s2, Decide(w, true), seen);
    between := before + [Submit(b)] + [Claim(w, b)] + [Decide(w, true)];
  }

  /******* Every request can be answered *******/

  /** From checking its marker on, a worker can answer a request, and removes the marker that names it. */
  lemma FinishingAnswers(s: World, w: string, id: string, start: World, before: seq<Action>)
    returns (between: seq<Action>, seen: World)
    requires Run(start, before) == Some(s) && w in s.workers && s.workers[w].task == CheckingMarker(id)
    ensures Run(start, between) == Some(seen) && seen.answers == s.answers + [id] && !OwnsMarker(seen, id)
    ensures w in seen.workers && seen.workers[w] == s.workers[w].(task := Idle) && seen.lock == s.lock && seen.children == s.children
    ensures seen.requests == s.requests
  {
    var s1 := Next(s, CheckMarker(w)).value;
    OneMore(start, before, s, CheckMarker(w), s1);
    if OwnsMarker(s, id) {
      var s2 := Next(s1, RemoveMarker(w)).value;
      seen := Next(s2, Answer(w)).value;
      OneMore(start, before + [CheckMarker(w)], s1, RemoveMarker(w), s2);
      OneMore(start, before + [CheckMarker(w)] + [RemoveMarker(w)], s2, Answer(w), seen);
      between := before + [CheckMarker(w)] + [RemoveMarker(w)] + [Answer(w)];
    } else {
      seen := Next(s1, Answer(w)).value;
      OneMore(start, before + [CheckMarker(w)], s1, Answer(w), seen);
      between := before + [CheckMarker(w)] + [Answer(w)];
    }
  }

  /** An active build can be stopped and answered: its tree and its marker are gone then. */
  lemma ActiveBuildIsAnswered(s: World, w: string, id: string) returns (between: seq<Action>, seen: World)
    requires w in s.workers && !s.workers[w].mode.Released? && s.workers[w].task.Idle? && s.workers[w].active == Some(id)
    ensures Run(s, between) == Some(seen) && seen.answers == s.answers + [id]
    ensures id !in seen.children && !OwnsMarker(seen, id) && w in seen.workers && seen.workers[w].active.None?
  {
    var s1 := Next(s, FinishActive(w)).value;
    var s2 := Next(s1, StopTree(w)).value;
    OneMore(s, [], s, FinishActive(w), s1);
    OneMore(s, [] + [FinishActive(w)], s1, StopTree(w), s2);
    between, seen := FinishingAnswers(s2, w, id, s, [] + [FinishActive(w)] + [StopTree(w)]);
  }

  /** A kept stop request can be answered once the worker is idle without a build; the lock is free then. */
  lemma StopIsAnswered(s: World, w: string, id: string) returns (between: seq<Action>, seen: World)
    requires Inv(s) && w in s.workers && s.workers[w].mode.Leaving? && s.workers[w].task.Idle? && s.workers[w].active.None?
    requires s.workers[w].stops != [] && s.workers[w].stops[0] == id
    ensures Run(s, between) == Some(seen) && seen.answers == s.answers + [id] && seen.lock.None? && !OwnsMarker(seen, id)
  {
    var s1 := Next(s, Release(w)).value;
    var s2 := Next(s1, TakeStop(w)).value;
    OneMore(s, [], s, Release(w), s1);
    OneMore(s, [] + [Release(w)], s1, TakeStop(w), s2);
    between, seen := FinishingAnswers(s2, w, id, s, [] + [Release(w)] + [TakeStop(w)]);
  }

  /** Any pending request can be claimed by an idle worker that serves, and all but builds and stops are answered. */
  lemma OtherRequestIsAnswered(s: World, w: string, id: string) returns (between: seq<Action>, seen: World)
    requires Inv(s) && w in s.workers && s.workers[w].mode.Serving? && s.workers[w].task.Idle? && id in s.pending
    requires s.requests[id].workerId != w || id in s.cancelled || s.requests[id].operation in {Probe, Unknown}
          || (s.requests[id].operation.Build? && s.workers[w].active.Some?)
    ensures Run(s, between) == Some(seen) && seen.answers == s.answers + [id] && seen.children == s.children
  {
    assert id in s.requests;
    var s1 := Next(s, Claim(w, id)).value;
    var s2 := Next(s1, Decide(w, false)).value;
    OneMore(s, [], s, Claim(w, id), s1);
    OneMore(s, [] + [Claim(w, id)], s1, Decide(w, false), s2);
    between, seen := FinishingAnswers(s2, w, id, s, [] + [Claim(w, id)] + [Decide(w, false)]);
  }

  /** A client can cancel a pending request, which is then answered and never spawned. */
  lemma CancelledIsAnswered(s: World, w: string, id: string) returns (between: seq<Action>, seen: World)
    requires Inv(s) && w in s.workers && s.workers[w].mode.Serving? && s.workers[w].task.Idle? && id in s.pending
    ensures between != [] && between[0] == Cancel(id) && Run(s, between) == Some(seen)
    ensures seen.answers == s.answers + [id] && seen.children == s.children && (WasSpawned(seen, id) <==> WasSpawned(s, id))
  {
    assert id in s.requests;
    var s1 := Next(s, Cancel(id)).value;
    InvKept(s, Cancel(id));
    hide Inv;
    var rest;
    rest, seen := OtherRequestIsAnswered(s1, w, id);
    between := [Cancel(id)] + rest;
    assert between[1..] == rest;
    CancelledNeverStarts(s1, id, rest);
  }

  /** An idle worker without a build can leave and release the lock at any time. */
  lemma WorkerCanLeave(s: World, w: string) returns (seen: World)
    requires w in s.workers && s.workers[w].mode.Serving? && s.workers[w].task.Idle? && s.workers[w].active.None?
    ensures Run(s, [Leave(w), Release(w)]) == Some(seen) && seen.lock.None?
  {
    var s1 := Next(s, Leave(w)).value;
    seen := Next(s1, Release(w)).value;
    OneMore(s, [], s, Leave(w), s1);
    OneMore(s, [] + [Leave(w)], s1, Release(w), seen);
    assert [] + [Leave(w)] + [Release(w)] == [Leave(w), Release(w)];
  }

  /** The build `a` runs in the worker `w`, which can claim the next request; its marker is in place. */
  ghost predicate BuildRuns(s: World, w: string, a: string, transaction: string) {
    && w in s.workers && s.workers[w].mode.Serving? && s.workers[w].active == Some(a) && s.workers[w].task.Idle?
    && a in s.children && transaction in s.markers && s.markers[transaction] == a
  }

  /**
   Without the guard the marker misleads: whenever a second request is prepared for the transaction of
   a running build, it replaces the marker, and a run follows in which the worker refuses it and
   finishing it removes the marker while the build's tree is alive.
   */
  lemma UnguardedPreparationMisleads(s: World, w: string, a: string, b: string, second: Request, transaction: string)
    returns (between: seq<Action>, seen: World)
    requires Inv(s) && BuildRuns(s, w, a, transaction) && b !in s.requests
    requires second.transaction == Some(transaction) && !second.operation.Stop?
    ensures |between| > 0 && between[0] == Prepare(b, second) && !Guarded(s, between[0])
    ensures Run(s, between) == Some(seen) && transaction !in seen.markers && a in seen.children
  {
    assert b !in s.pending && b !in s.running;
    hide Inv;
    var s1 := Next(s, Prepare(b, second)).value;
    var s2 := Next(s1, Submit(b)).value;
    var s3 := Next(s2, Claim(w, b)).value;
    OneMore(s, [], s, Prepare(b, second), s1);
    OneMore(s, [] + [Prepare(b, second)], s1, Submit(b), s2);
    OneMore(s, [] + [Prepare(b, second)] + [Submit(b)], s2, Claim(w, b), s3);
    assert s3.workers[w].task == Deciding(b) && s3.markers[transaction] == b && s3.children == s.children;
    between, seen := RefusedRequestClears(s3, w, b, transaction, s, [] + [Prepare(b, second)] + [Submit(b)] + [Claim(w, b)]);
  }

  /** The second request is refused, and finishing it takes away the marker that now names it. */
  lemma RefusedRequestClears(s: World, w: string, b: string, marker: string, start: World, before: seq<Action>)
    returns (between: seq<Action>, seen: World)
    requires Run(start, before) == Some(s) && before != []
    requires w in s.workers && s.workers[w].active.Some? && s.workers[w].task == Deciding(b)
    requires marker in s.markers && s.markers[marker] == b
    requires b in s.requests && s.requests[b].transaction == Some(marker) && !s.requests[b].operation.Stop?
    ensures Run(start, between) == Some(seen) && marker !in seen.markers && seen.children == s.children
    ensures |between| > 0 && between[0] == before[0]
  {
    var s1 := Next(s, Decide(w, false)).value;
    assert s1.workers[w].task == CheckingMarker(b);
    var s2 := Next(s1, CheckMarker(w)).value;
    assert s2.workers[w].task == RemovingMarker(b);
    seen := Next(s2, RemoveMarker(w)).value;
    OneMore(start, before, s, Decide(w, false), s1);
    OneMore(start, before + [Decide(w, false)], s1, CheckMarker(w), s2);
    OneMore(start, before + [Decide(w, false)] + [CheckMarker(w)], s2, RemoveMarker(w), seen);
    between := before + [Decide(w, false)] + [CheckMarker(w)] + [RemoveMarker(w)];
  }

  /** Every build request reaches such a state by a guarded run, so every second request can mislead. */
  lemma SharedTransactionMisleads(a: string, first: Request, b: string, second: Request)
    returns (before: seq<Action>, between: seq<Action>, s: World, seen: World)
    requires a != b && first.operation.Build? && SameTransaction(first, second) && !second.operation.Stop?
    ensures Run(Start(), before) == Some(s) && GuardedRun(Start(), before)
    ensures |between| > 0 && between[0] == Prepare(b, second) && Run(s, between) == Some(seen)
    ensures var transaction := first.transaction.value;
      transaction in s.markers && s.markers[transaction] == a && transaction !in seen.markers && a in seen.children
  {
    var w, transaction := first.workerId, first.transaction.value;
    before, s := BuildStarts(a, first);
    hide Run, Next, GuardedRun;
    ReachableFits(s);
    between, seen := UnguardedPreparationMisleads(s, w, a, b, second, transaction);
  }

  lemma BuildStarts(a: string, first: Request) returns (before: seq<Action>, s: World)
    requires first.operation.Build? && first.transaction.Some?
    ensures Run(Start(), before) == Some(s) && GuardedRun(Start(), before)
    ensures BuildRuns(s, first.workerId, a, first.transaction.value) && s.requests == map[a := first]
  {
    var w := first.workerId;
    var s0 := Start();
    var s1 := Next(s0, StartWorker(w)).value;
    var s2 := Next(s1, Prepare(a, first)).value;
    var s3 := Next(s2, Submit(a)).value;
    var s4 := Next(s3, Claim(w, a)).value;
    s := Next(s4, Decide(w, true)).value;
    before := [StartWorker(w)] + ([Prepare(a, first)] + ([Submit(a)] + ([Claim(w, a)] + ([Decide(w, true)] + []))));
    hide Next;
    FirstStep(s4, Decide(w, true), s, []);
    FirstStep(s3, Claim(w, a), s4, [Decide(w, true)] + []);
    FirstStep(s2, Submit(a), s3, [Claim(w, a)] + ([Decide(w, true)] + []));
    FirstStep(s1, Prepare(a, first), s2, [Submit(a)] + ([Claim(w, a)] + ([Decide(w, true)] + [])));
    FirstStep(s0, StartWorker(w), s1, [Prepare(a, first)] + ([Submit(a)] + ([Claim(w, a)] + ([Decide(w, true)] + []))));
  }

  lemma FirstStep(s: World, a: Action, t: World, rest: seq<Action>)
    requires Next(s, a) == Some(t) && Guarded(s, a)
    ensures Run(s, [a] + rest) == Run(t, rest) && (GuardedRun(s, [a] + rest) <==> GuardedRun(t, rest))
  {
    hide Next;
    assert ([a] + rest)[1..] == rest;
  }
}
