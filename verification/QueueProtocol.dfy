/** `LxcQueue`: any number of client threads and one worker thread around a mutex and a
    condition variable, as a step relation.

    A step is one statement of the source between two points where another thread may run.
    Waiting releases the mutex and falls asleep in one step. A signal wakes the worker if it
    sleeps and is lost otherwise. The worker may also wake up without a signal. */
module QueueProtocol {
  type Task = nat
  type ClientId = nat

  /** What a client can ask for: `addTask`, `stop` and `isFinished`. */
  datatype Op = Add(task: Task) | Stop | Ask

  datatype Client =
    | Idle
    | Locking(op: Op)       // waits for the mutex
    | Inside(op: Op)        // holds it and is about to do its work
    | Signalling            // holds it and is about to signal
    | Unlocking             // holds it and is about to release it

  /** The places of the worker in `run`. */
  datatype Worker =
    | Relocking             // at the head of the outer loop, waits for the mutex
    | Testing               // holds the mutex, at the test of the waiting loop
    | Asleep                // inside pthread_cond_wait
    | Waking                // woken up, waits for the mutex
    | Deciding              // holds the mutex, behind the waiting loop
    | Exiting               // holds the mutex, about to release it and leave
    | Taking                // holds the mutex, about to dequeue
    | Releasing(task: Task) // holds the mutex and a task
    | Running(task: Task)
    | CallingBack(task: Task, code: int)
    | Deleting(task: Task)
    | Gone

  datatype Owner = Nobody | TheWorker | AClient(id: ClientId)

  /** The shared state, the places of the threads, and what has happened so far: the tasks in
      the order they were added, the runs and the callbacks with their codes, the deletions,
      and the answers of `isFinished`. */
  datatype State = State(
    queue: seq<Task>, stopped: bool, owner: Owner,
    worker: Worker, clients: map<ClientId, Client>,
    added: seq<Task>, ran: seq<(Task, int)>, called: seq<(Task, int)>, deleted: seq<Task>,
    answers: seq<bool>)

  datatype Action =
    | Call(id: ClientId, op: Op)   // an idle client enters an operation
    | ClientStep(id: ClientId)
    | WorkerStep(code: int)        // `code` is what a task returns when it is run
    | SpuriousWake

  function Initial(clients: set<ClientId>): State {
    State([], false, Nobody, Relocking, map c | c in clients :: Idle, [], [], [], [], [])
  }

  predicate Enabled(s: State, a: Action) {
    match a
    case Call(id, _) => id in s.clients && s.clients[id].Idle?
    case ClientStep(id) =>
      && id in s.clients && !s.clients[id].Idle?
      && (s.clients[id].Locking? ==> s.owner == Nobody)
    case WorkerStep(_) =>
      && !s.worker.Asleep? && !s.worker.Gone?
      && (s.worker.Relocking? || s.worker.Waking? ==> s.owner == Nobody)
      && (s.worker.Taking? ==> s.queue != [])
    case SpuriousWake => s.worker.Asleep?
  }

  function AfterClientStep(s: State, id: ClientId): State
    requires Enabled(s, ClientStep(id))
  {
    match s.clients[id]
    case Locking(op) => s.(owner := AClient(id), clients := s.clients[id := Inside(op)])
    case Inside(Add(task)) =>
      s.(queue := s.queue + [task], added := s.added + [task], clients := s.clients[id := Signalling])
    case Inside(Stop) => s.(stopped := true, clients := s.clients[id := Signalling])
    case Inside(Ask) => s.(answers := s.answers + [s.queue == []], clients := s.clients[id := Unlocking])
    case Signalling =>
      s.(worker := if s.worker.Asleep? then Waking else s.worker, clients := s.clients[id := Unlocking])
    case Unlocking => s.(owner := Nobody, clients := s.clients[id := Idle])
    case Idle => s
  }

  function AfterWorkerStep(s: State, code: int): State
    requires Enabled(s, WorkerStep(code))
  {
    match s.worker
    case Relocking => s.(owner := TheWorker, worker := Testing)
    case Testing =>
      if s.queue == [] && !s.stopped then s.(owner := Nobody, worker := Asleep) else s.(worker := Deciding)
    case Waking => s.(owner := TheWorker, worker := Testing)
    case Deciding => if s.stopped && s.queue == [] then s.(worker := Exiting) else s.(worker := Taking)
    case Exiting => s.(owner := Nobody, worker := Gone)
    case Taking => s.(queue := s.queue[1..], worker := Releasing(s.queue[0]))
    case Releasing(task) => s.(owner := Nobody, worker := Running(task))
    case Running(task) => s.(ran := s.ran + [(task, code)], worker := CallingBack(task, code))
    case CallingBack(task, c) => s.(called := s.called + [(task, c)], worker := Deleting(task))
    case Deleting(task) => s.(deleted := s.deleted + [task], worker := Relocking)
    case Asleep => s
    case Gone => s
  }

  function After(s: State, a: Action): State
    requires Enabled(s, a)
  {
    match a
    case Call(id, op) => s.(clients := s.clients[id := Locking(op)])
    case ClientStep(id) => AfterClientStep(s, id)
    case WorkerStep(code) => AfterWorkerStep(s, code)
    case SpuriousWake => s.(worker := Waking)
  }

  /** A run: every step is possible where it is taken. */
  predicate CanRun(s: State, acts: seq<Action>)
    decreases acts
  {
    acts == [] || (Enabled(s, acts[0]) && CanRun(After(s, acts[0]), acts[1..]))
  }

  function EndOf(s: State, acts: seq<Action>): State
    requires CanRun(s, acts)
    decreases acts
  {
    if acts == [] then s else EndOf(After(s, acts[0]), acts[1..])
  }

  ghost predicate Reachable(s: State) {
    exists clients: set<ClientId>, acts: seq<Action> ::
      CanRun(Initial(clients), acts) && EndOf(Initial(clients), acts) == s
  }

  // ----- the invariant -----

  predicate WorkerHolds(w: Worker) {
    w.Testing? || w.Deciding? || w.Exiting? || w.Taking? || w.Releasing?
  }

  predicate ClientHolds(c: Client) {
    c.Inside? || c.Signalling? || c.Unlocking?
  }

  /** The mutex has the owner that is at a place where it holds the mutex, and no other thread is. */
  ghost predicate MutexHeld(s: State) {
    && (s.owner == TheWorker <==> WorkerHolds(s.worker))
    && (forall c :: c in s.clients ==> (ClientHolds(s.clients[c]) <==> s.owner == AClient(c)))
    && (s.owner.AClient? ==> s.owner.id in s.clients)
  }

  function Tasks(runs: seq<(Task, int)>): (ts: seq<Task>)
    ensures |ts| == |runs|
  {
    seq(|runs|, i requires 0 <= i < |runs| => runs[i].0)
  }

  /** The task the worker has taken and not yet deleted, if any. */
  function InFlight(w: Worker): seq<Task> {
    match w
    case Releasing(t) => [t]
    case Running(t) => [t]
    case CallingBack(t, _) => [t]
    case Deleting(t) => [t]
    case _ => []
  }

  ghost predicate InOrder(s: State) {
    && s.added == s.deleted + InFlight(s.worker) + s.queue
    && s.ran == s.called + (if s.worker.CallingBack? then [(s.worker.task, s.worker.code)] else [])
    && Tasks(s.called) == s.deleted + (if s.worker.Deleting? then [s.worker.task] else [])
  }

  /** A sleeping worker with something to do is about to be signalled. */
  ghost predicate NoLostWakeUp(s: State) {
    s.worker.Asleep? && (s.queue != [] || s.stopped) ==>
      s.owner.AClient? && s.owner.id in s.clients && s.clients[s.owner.id].Signalling?
  }

  ghost predicate LeavesWhenDone(s: State) {
    && (s.worker.Deciding? ==> s.queue != [] || s.stopped)
    && (s.worker.Taking? ==> s.queue != [])
    && (s.worker.Exiting? ==> s.stopped && s.queue == [])
    && (s.worker.Gone? ==> s.stopped)
  }

  ghost predicate Inv(s: State) {
    MutexHeld(s) && InOrder(s) && NoLostWakeUp(s) && LeavesWhenDone(s)
  }

  lemma InitialInv(clients: set<ClientId>)
    ensures Inv(Initial(clients))
  {
  }

  lemma WorkerStepKeepsOrder(s: State, code: int)
    requires InOrder(s) && Enabled(s, WorkerStep(code))
    ensures InOrder(AfterWorkerStep(s, code))
  {
    match s.worker
    case Taking =>
      assert s.deleted + [] + s.queue == s.deleted + [s.queue[0]] + s.queue[1..];
    case Running(task) =>
      assert s.called + [] == s.called;
    case CallingBack(task, c) =>
      CalledBack(s, task, c);
    case Deleting(task) =>
      assert s.deleted + [task] + [] == s.deleted + [task];
    case _ =>
  }

  lemma CalledBack(s: State, task: Task, code: int)
    requires InOrder(s) && s.worker == CallingBack(task, code)
    ensures s.ran == s.called + [(task, code)] + []
    ensures Tasks(s.called + [(task, code)]) == s.deleted + [task]
  {
    assert s.deleted + [] == s.deleted;
    assert Tasks(s.called + [(task, code)]) == Tasks(s.called) + [task];
  }

  lemma WorkerStepKeepsInv(s: State, code: int)
    requires Inv(s) && Enabled(s, WorkerStep(code))
    ensures Inv(AfterWorkerStep(s, code))
  {
    WorkerStepKeepsOrder(s, code);
  }

  lemma ClientStepKeepsInv(s: State, id: ClientId)
    requires Inv(s) && Enabled(s, ClientStep(id))
    ensures Inv(AfterClientStep(s, id))
  {
    ClientStepKeepsMutex(s, id);
    ClientStepKeepsOrder(s, id);
  }

  lemma ClientStepKeepsMutex(s: State, id: ClientId)
    requires MutexHeld(s) && Enabled(s, ClientStep(id))
    ensures MutexHeld(AfterClientStep(s, id))
  {
  }

  lemma ClientStepKeepsOrder(s: State, id: ClientId)
    requires InOrder(s) && Enabled(s, ClientStep(id))
    ensures InOrder(AfterClientStep(s, id))
  {
    var n := AfterClientStep(s, id);
    if s.clients[id].Inside? && s.clients[id].op.Add? {
      assert n.added == s.deleted + InFlight(s.worker) + (s.queue + [s.clients[id].op.task]);
    }
  }

  lemma StepKeepsInv(s: State, a: Action)
    requires Inv(s) && Enabled(s, a)
    ensures Inv(After(s, a))
  {
    match a
    case ClientStep(id) => ClientStepKeepsInv(s, id);
    case WorkerStep(code) => WorkerStepKeepsInv(s, code);
    case _ =>
  }

  // ----- what holds in every reachable state -----

  lemma {:induction false} RunKeepsInv(s: State, acts: seq<Action>)
    requires Inv(s) && CanRun(s, acts)
    ensures Inv(EndOf(s, acts))
    decreases acts
  {
    if acts == [] {
    } else {
      StepKeepsInv(s, acts[0]);
      RunKeepsInv(After(s, acts[0]), acts[1..]);
    }
  }

  lemma ReachableInv(s: State)
    requires Reachable(s)
    ensures Inv(s)
  {
    var clients: set<ClientId>, acts: seq<Action> :|
      CanRun(Initial(clients), acts) && EndOf(Initial(clients), acts) == s;
    InitialInv(clients);
    RunKeepsInv(Initial(clients), acts);
  }

  /** The tasks added so far are, in order, the finished ones, the one in flight and the queued
      ones. They are run, called back with the code of that run, and deleted in that order. */
  lemma TasksInOrder(s: State)
    requires Reachable(s)
    ensures s.added == s.deleted + InFlight(s.worker) + s.queue
    ensures Tasks(s.ran) <= s.added && s.called <= s.ran && s.deleted <= Tasks(s.called)
    ensures |s.ran| <= |s.deleted| + 1
  {
    ReachableInv(s);
    assert Tasks(s.ran) == Tasks(s.called) + (if s.worker.CallingBack? then [s.worker.task] else []);
    assert |InFlight(s.worker)| <= 1;
  }

  ghost predicate NoDuplicates<T>(ts: seq<T>) {
    forall i, j :: 0 <= i < j < |ts| ==> ts[i] != ts[j]
  }

  /** If no task is added twice, none is run, called back or deleted twice. */
  lemma AtMostOnce(s: State)
    requires Reachable(s) && NoDuplicates(s.added)
    ensures NoDuplicates(Tasks(s.ran)) && NoDuplicates(Tasks(s.called)) && NoDuplicates(s.deleted)
  {
    TasksInOrder(s);
    var ran, called := Tasks(s.ran), Tasks(s.called);
    assert forall i :: 0 <= i < |called| ==> called[i] == ran[i];
  }

  /** No wake-up is lost: the worker never sleeps on a non-empty queue or through a stop, unless
      a client holds the mutex and is about to signal. */
  lemma NoWakeUpIsLost(s: State)
    requires Reachable(s)
    ensures s.worker.Asleep? && (s.queue != [] || s.stopped) ==>
      exists c :: c in s.clients && s.clients[c].Signalling? && s.owner == AClient(c)
  {
    ReachableInv(s);
  }

  /** Two threads are never inside the mutex together, and the worker does not hold it while a
      task is run, called back or deleted, while it sleeps, or once it is gone. */
  lemma MutualExclusion(s: State)
    requires Reachable(s)
    ensures forall c, d :: c in s.clients && d in s.clients && ClientHolds(s.clients[c]) && ClientHolds(s.clients[d])
              ==> c == d
    ensures WorkerHolds(s.worker) ==> forall c :: c in s.clients ==> !ClientHolds(s.clients[c])
    ensures s.worker.Running? || s.worker.CallingBack? || s.worker.Deleting? || s.worker.Asleep? || s.worker.Gone? ==>
              s.owner != TheWorker
  {
    ReachableInv(s);
  }

  /** The worker dequeues from a non-empty queue only, and leaves only when stopped with nothing queued. */
  lemma LeavesOnlyWhenDone(s: State)
    requires Reachable(s)
    ensures s.worker.Taking? ==> s.queue != []
    ensures s.worker.Exiting? ==> s.stopped && s.queue == [] && s.deleted == s.added
    ensures s.worker.Gone? ==> s.stopped
  {
    ReachableInv(s);
  }

  /** `isFinished` answers whether every added task has been taken from the queue: the last one
      may still be running. It changes nothing and wakes nobody. */
  lemma IsFinishedMeansTaken(s: State, id: ClientId)
    requires Reachable(s) && id in s.clients && s.clients[id] == Inside(Ask)
    ensures Enabled(s, ClientStep(id))
    ensures After(s, ClientStep(id)).answers == s.answers + [s.added == s.deleted + InFlight(s.worker)]
    ensures var n := After(s, ClientStep(id));
            && n.queue == s.queue && n.stopped == s.stopped && n.worker == s.worker
            && Enabled(n, ClientStep(id))
            && var m := After(n, ClientStep(id)); m.worker == s.worker && m.owner == Nobody && m.clients[id] == Idle
  {
    ReachableInv(s);
    var done := s.deleted + InFlight(s.worker);
    assert s.added == done <==> s.queue == [] by {
      assert |s.added| == |done| + |s.queue|;
      assert done + [] == done;
    }
  }

  /** One run after another. */
  lemma {:induction false} RunsCompose(s: State, acts: seq<Action>, more: seq<Action>)
    requires CanRun(s, acts) && CanRun(EndOf(s, acts), more)
    ensures CanRun(s, acts + more) && EndOf(s, acts + more) == EndOf(EndOf(s, acts), more)
    decreases acts
  {
    if acts == [] {
      assert acts + more == more;
    } else {
      RunsCompose(After(s, acts[0]), acts[1..], more);
      assert (acts + more)[1..] == acts[1..] + more;
    }
  }

  lemma OneMore(s: State, acts: seq<Action>, a: Action) returns (n: State, more: seq<Action>)
    requires CanRun(s, acts) && Enabled(EndOf(s, acts), a)
    ensures more == acts + [a] && CanRun(s, more) && n == EndOf(s, more) == After(EndOf(s, acts), a)
  {
    n, more := After(EndOf(s, acts), a), acts + [a];
    assert CanRun(n, []) && [a][1..] == [];
    assert CanRun(EndOf(s, acts), [a]) && EndOf(EndOf(s, acts), [a]) == n;
    RunsCompose(s, acts, [a]);
  }

  /** `isFinished` can answer true while a task that was added has not even begun to run. */
  lemma FinishedBeforeRun() returns (s: State)
    ensures Reachable(s) && s.answers == [true] && s.added == [7] && s.ran == [] && s.worker == Running(7)
  {
    var start := Initial({0});
    var acts := SevenIsAdded(start);
    acts := SevenIsTaken(start, acts);
    s, acts := OneMore(start, acts, Call(0, Ask));
    s, acts := OneMore(start, acts, ClientStep(0));
    s, acts := OneMore(start, acts, ClientStep(0));
  }

  lemma SevenIsAdded(start: State) returns (acts: seq<Action>)
    requires start == Initial({0})
    ensures CanRun(start, acts) && EndOf(start, acts) == start.(queue := [7], added := [7])
  {
    var s;
    acts := [];
    s, acts := OneMore(start, acts, Call(0, Add(7)));
    s, acts := OneMore(start, acts, ClientStep(0));
    s, acts := OneMore(start, acts, ClientStep(0));
    s, acts := OneMore(start, acts, ClientStep(0));
    s, acts := OneMore(start, acts, ClientStep(0));
  }

  lemma SevenIsTaken(start: State, before: seq<Action>) returns (acts: seq<Action>)
    requires CanRun(start, before)
    requires var s := EndOf(start, before); s.queue == [7] && s.owner == Nobody && s.worker == Relocking
    ensures CanRun(start, acts)
    ensures EndOf(start, acts) == EndOf(start, before).(queue := [], owner := Nobody, worker := Running(7))
  {
    var s;
    s, acts := OneMore(start, before, WorkerStep(0));
    s, acts := OneMore(start, acts, WorkerStep(0));
    s, acts := OneMore(start, acts, WorkerStep(0));
    s, acts := OneMore(start, acts, WorkerStep(0));
    s, acts := OneMore(start, acts, WorkerStep(0));
  }

  // ----- stopping -----

  function PlaceRank(w: Worker): nat {
    match w
    case Gone => 0
    case Exiting => 1
    case Taking => 2
    case Deciding => 3
    case Testing => 4
    case Relocking => 5
    case Waking => 5
    case Asleep => 6
    case Deleting(_) => 6
    case CallingBack(_, _) => 7
    case Running(_) => 8
    case Releasing(_) => 9
  }

  /** How many steps the worker can still take once it is stopped and nothing more is added. */
  function StepsLeft(s: State): nat {
    10 * |s.queue| + PlaceRank(s.worker)
  }

  predicate Enqueues(s: State, a: Action) {
    a.ClientStep? && a.id in s.clients && s.clients[a.id].Inside? && s.clients[a.id].op.Add?
  }

  predicate ByWorker(a: Action) {
    a.WorkerStep? || a.SpuriousWake?
  }

  function WorkerSteps(acts: seq<Action>): nat {
    if acts == [] then 0 else (if ByWorker(acts[0]) then 1 else 0) + WorkerSteps(acts[1..])
  }

  /** Once stopped, every step of the worker brings it closer to its exit and no step of a
      client that adds nothing takes it further away. */
  lemma StoppedStep(s: State, a: Action)
    requires Inv(s) && s.stopped && Enabled(s, a) && !Enqueues(s, a)
    ensures After(s, a).stopped && After(s, a).added == s.added
    ensures StepsLeft(After(s, a)) + (if ByWorker(a) then 1 else 0) <= StepsLeft(s)
    ensures (s.worker.Gone? ==> s.queue == []) ==> (After(s, a).worker.Gone? ==> After(s, a).queue == [])
  {
  }

  predicate AddsNothing(s: State, acts: seq<Action>)
    requires CanRun(s, acts)
    decreases acts
  {
    acts == [] || (!Enqueues(s, acts[0]) && AddsNothing(After(s, acts[0]), acts[1..]))
  }

  lemma {:induction false} StoppedRun(s: State, acts: seq<Action>)
    requires Inv(s) && s.stopped && CanRun(s, acts) && AddsNothing(s, acts)
    requires s.worker.Gone? ==> s.queue == []
    ensures var n := EndOf(s, acts);
            && Inv(n) && n.stopped && n.added == s.added
            && WorkerSteps(acts) + StepsLeft(n) <= StepsLeft(s)
            && (n.worker.Gone? ==> n.queue == [])
    decreases acts
  {
    if acts == [] {
    } else {
      StepKeepsInv(s, acts[0]);
      StoppedStep(s, acts[0]);
      StoppedRun(After(s, acts[0]), acts[1..]);
    }
  }

  /** A step that only the worker, or the client that holds the mutex, can take. */
  predicate Urgent(s: State, a: Action) {
    ByWorker(a) || (a.ClientStep? && s.owner == AClient(a.id))
  }

  /** A worker that has been stopped and has not left can always go on, at the latest when the
      client that holds the mutex has. */
  lemma StoppedWorkerIsNotStuck(s: State)
    requires Inv(s) && s.stopped && !s.worker.Gone?
    ensures exists a :: Enabled(s, a) && Urgent(s, a)
  {
    if s.owner.AClient? {
      assert Enabled(s, ClientStep(s.owner.id)) && Urgent(s, ClientStep(s.owner.id));
    } else {
      assert Enabled(s, WorkerStep(0)) && Urgent(s, WorkerStep(0));
    }
  }

  predicate DrainedAt(s: State) {
    s.worker.Gone? && s.queue == [] && s.deleted == s.added
  }

  /** The state right after a client's `stop` has taken effect. */
  function AfterStop(s: State, id: ClientId): State
    requires id in s.clients && s.clients[id] == Inside(Stop)
  {
    After(s, ClientStep(id))
  }

  lemma StopStops(s: State, id: ClientId)
    requires Inv(s) && id in s.clients && s.clients[id] == Inside(Stop)
    ensures var n := AfterStop(s, id);
            Inv(n) && n.stopped && n.queue == s.queue && n.worker == s.worker && n.added == s.added && !HolderAdds(n)
  {
    StepKeepsInv(s, ClientStep(id));
  }

  /** Stop and drain: once a client's `stop` has taken effect, and as long as nothing is added, the
      worker takes a bounded number of steps, where no urgent step is left it has deleted every
      task and gone, and from wherever the run has got to it can be taken on to there. */
  lemma {:induction false} StopDrains(s: State, id: ClientId, acts: seq<Action>)
    requires Reachable(s) && id in s.clients && s.clients[id] == Inside(Stop)
    requires CanRun(AfterStop(s, id), acts) && AddsNothing(AfterStop(s, id), acts)
    requires s.worker.Gone? ==> s.queue == []
    ensures WorkerSteps(acts) <= StepsLeft(s)
    ensures var n := EndOf(AfterStop(s, id), acts);
            (forall a :: Urgent(n, a) ==> !Enabled(n, a)) ==> n.worker.Gone? && n.queue == [] && n.deleted == s.added
    ensures exists more :: CanRun(AfterStop(s, id), acts + more) && DrainedAt(EndOf(AfterStop(s, id), acts + more))
  {
    ReachableInv(s);
    StopStops(s, id);
    StoppedDrains(AfterStop(s, id), acts);
  }

  lemma {:induction false} StoppedDrains(s: State, acts: seq<Action>)
    requires Inv(s) && s.stopped && CanRun(s, acts) && AddsNothing(s, acts)
    requires s.worker.Gone? ==> s.queue == []
    ensures WorkerSteps(acts) <= StepsLeft(s)
    ensures var n := EndOf(s, acts);
            (forall a :: Urgent(n, a) ==> !Enabled(n, a)) ==> n.worker.Gone? && n.queue == [] && n.deleted == s.added
    ensures exists more :: CanRun(s, acts + more) && DrainedAt(EndOf(s, acts + more))
  {
    StoppedRun(s, acts);
    var n := EndOf(s, acts);
    if forall a :: Urgent(n, a) ==> !Enabled(n, a) {
      if !n.worker.Gone? {
        StoppedWorkerIsNotStuck(n);
        assert false;
      }
      assert n.deleted + [] + [] == n.deleted;
    }
    var more := ExitFrom(n);
    RunsCompose(s, acts, more);
    assert DrainedAt(EndOf(s, acts + more));
  }

  /** The client that holds the mutex is about to add a task. */
  predicate HolderAdds(s: State) {
    s.owner.AClient? && s.owner.id in s.clients && s.clients[s.owner.id].Inside? && s.clients[s.owner.id].op.Add?
  }

  /** How many steps the client that holds the mutex still takes before it lets go of it, and
      what the worker gets to do through them. */
  function HolderLeft(s: State): nat {
    if !s.owner.AClient? || s.owner.id !in s.clients then 0
    else match s.clients[s.owner.id]
      case Inside(Add(_)) => 13
      case Inside(_) => 3
      case Signalling => 2
      case Unlocking => 1
      case _ => 0
  }

  lemma UrgentStep(s: State, a: Action)
    requires Inv(s) && s.stopped && Enabled(s, a) && Urgent(s, a)
    ensures var n := After(s, a);
            && n.stopped && StepsLeft(n) + HolderLeft(n) < StepsLeft(s) + HolderLeft(s)
            && (!HolderAdds(s) ==> !HolderAdds(n) && n.added == s.added)
            && (!s.worker.Gone? && n.worker.Gone? ==> n.queue == [])
  {
  }

  predicate AllUrgent(s: State, acts: seq<Action>)
    requires CanRun(s, acts)
    decreases acts
  {
    acts == [] || (Urgent(s, acts[0]) && AllUrgent(After(s, acts[0]), acts[1..]))
  }

  /** If only the worker and the client inside the mutex are scheduled, a run after a stop ends. */
  lemma {:induction false} UrgentRunsEnd(s: State, acts: seq<Action>)
    requires Inv(s) && s.stopped && CanRun(s, acts) && AllUrgent(s, acts)
    ensures |acts| + StepsLeft(EndOf(s, acts)) <= StepsLeft(s) + (if HolderAdds(s) then 13 else 3)
    ensures |acts| + StepsLeft(EndOf(s, acts)) + HolderLeft(EndOf(s, acts)) <= StepsLeft(s) + HolderLeft(s)
    decreases acts
  {
    if acts == [] {
    } else {
      StepKeepsInv(s, acts[0]);
      UrgentStep(s, acts[0]);
      UrgentRunsEnd(After(s, acts[0]), acts[1..]);
    }
  }

  /** And it can always be brought to its end: once a client's `stop` has taken effect, the worker
      and the client inside the mutex alone get to where every added task is deleted and the
      worker has gone, with nothing added on the way. */
  lemma {:induction false} StopReachesExit(s: State, id: ClientId) returns (acts: seq<Action>)
    requires Reachable(s) && id in s.clients && s.clients[id] == Inside(Stop)
    requires s.worker.Gone? ==> s.queue == []
    ensures CanRun(AfterStop(s, id), acts) && AllUrgent(AfterStop(s, id), acts) && |acts| <= StepsLeft(s) + 3
    ensures DrainedAt(EndOf(AfterStop(s, id), acts)) && EndOf(AfterStop(s, id), acts).added == s.added
  {
    ReachableInv(s);
    StopStops(s, id);
    acts := StoppedReachesExit(AfterStop(s, id));
  }

  /** The same from any stopped state; there the client inside the mutex may still be about to add. */
  lemma {:induction false} StoppedReachesExit(s: State) returns (acts: seq<Action>)
    requires Inv(s) && s.stopped
    requires s.worker.Gone? ==> s.queue == []
    ensures CanRun(s, acts) && AllUrgent(s, acts) && |acts| <= StepsLeft(s) + (if HolderAdds(s) then 13 else 3)
    ensures var n := EndOf(s, acts); DrainedAt(n) && (!HolderAdds(s) ==> n.added == s.added)
  {
    acts := ExitFrom(s);
    UrgentRunsEnd(s, acts);
  }

  lemma {:induction false} ExitFrom(s: State) returns (acts: seq<Action>)
    requires Inv(s) && s.stopped
    requires s.worker.Gone? ==> s.queue == []
    ensures CanRun(s, acts) && AllUrgent(s, acts)
    ensures var n := EndOf(s, acts);
            n.worker.Gone? && n.queue == [] && n.deleted == n.added && (!HolderAdds(s) ==> n.added == s.added)
    decreases StepsLeft(s) + HolderLeft(s)
  {
    if s.worker.Gone? {
      acts := [];
      assert s.deleted + [] + [] == s.deleted;
    } else {
      StoppedWorkerIsNotStuck(s);
      var a :| Enabled(s, a) && Urgent(s, a);
      StepKeepsInv(s, a);
      UrgentStep(s, a);
      var more := ExitFrom(After(s, a));
      acts := [a] + more;
      assert acts[1..] == more;
    }
  }
}
