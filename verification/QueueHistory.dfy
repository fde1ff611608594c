/** What a run of the task queue has done: which calls were made, which took effect, and in what order. */
module QueueHistory {
  import opened QueueProtocol

  /** An operation that took effect. */
  datatype Event = Event(id: ClientId, op: Op)

  /** What a step makes take effect: the step of a client that is inside the mutex to do its work. */
  function EventOf(s: State, a: Action): seq<Event> {
    if a.ClientStep? && a.id in s.clients && s.clients[a.id].Inside? then [Event(a.id, s.clients[a.id].op)] else []
  }

  /** The run of a task, with the code it returns: the worker's step when it is about to run one. */
  function RunOf(s: State, a: Action): seq<(Task, int)> {
    if a.WorkerStep? && s.worker.Running? then [(s.worker.task, a.code)] else []
  }

  function Events(s: State, acts: seq<Action>): seq<Event>
    requires CanRun(s, acts)
    decreases acts
  {
    if acts == [] then [] else EventOf(s, acts[0]) + Events(After(s, acts[0]), acts[1..])
  }

  function Runs(s: State, acts: seq<Action>): seq<(Task, int)>
    requires CanRun(s, acts)
    decreases acts
  {
    if acts == [] then [] else RunOf(s, acts[0]) + Runs(After(s, acts[0]), acts[1..])
  }

  /** The tasks of the additions among some events. */
  function Added(events: seq<Event>): seq<Task> {
    if events == [] then []
    else (if events[0].op.Add? then [events[0].op.task] else []) + Added(events[1..])
  }

  function Asked(events: seq<Event>): nat {
    if events == [] then 0 else (if events[0].op.Ask? then 1 else 0) + Asked(events[1..])
  }

  ghost predicate Stops(events: seq<Event>) {
    exists i :: 0 <= i < |events| && events[i].op == Stop
  }

  /** The operations of one client among some events. */
  function OpsBy(events: seq<Event>, id: ClientId): seq<Op> {
    if events == [] then []
    else (if events[0].id == id then [events[0].op] else []) + OpsBy(events[1..], id)
  }

  /** The operations that one client has called. */
  function CallsBy(acts: seq<Action>, id: ClientId): seq<Op> {
    if acts == [] then [] else CallOf(acts[0], id) + CallsBy(acts[1..], id)
  }

  function CallOf(a: Action, id: ClientId): seq<Op> {
    if a.Call? && a.id == id then [a.op] else []
  }

  /** A call that has not taken effect yet. */
  function Pending(c: Client): seq<Op> {
    match c
    case Locking(op) => [op]
    case Inside(op) => [op]
    case _ => []
  }

  // ----- one step -----

  lemma OneStep(s: State, a: Action)
    requires Enabled(s, a)
    ensures var n := After(s, a);
            && n.added == s.added + Added(EventOf(s, a))
            && (n.stopped <==> s.stopped || (EventOf(s, a) != [] && EventOf(s, a)[0].op == Stop))
            && |n.answers| == |s.answers| + Asked(EventOf(s, a))
            && n.ran == s.ran + RunOf(s, a)
            && n.clients.Keys == s.clients.Keys
  {
    match a
    case ClientStep(id) => OneClientStep(s, id);
    case _ =>
  }

  lemma OneClientStep(s: State, id: ClientId)
    requires Enabled(s, ClientStep(id))
    ensures var n, e := AfterClientStep(s, id), EventOf(s, ClientStep(id));
            && n.added == s.added + Added(e)
            && (n.stopped <==> s.stopped || (e != [] && e[0].op == Stop))
            && |n.answers| == |s.answers| + Asked(e)
            && n.ran == s.ran && n.clients.Keys == s.clients.Keys
  {
    assert Added([]) == [] && Asked([]) == 0;
  }

  lemma PendingAfter(s: State, a: Action, id: ClientId)
    requires Enabled(s, a) && id in s.clients
    ensures id in After(s, a).clients
    ensures if a.Call? && a.id == id then s.clients[id] == Idle && After(s, a).clients[id] == Locking(a.op)
            else if EventOf(s, a) != [] && a.id == id then After(s, a).clients[id] in {Signalling, Unlocking}
            else Pending(After(s, a).clients[id]) == Pending(s.clients[id])
  {
  }

  lemma OneStepOf(s: State, a: Action, id: ClientId)
    requires Enabled(s, a) && id in s.clients
    ensures id in After(s, a).clients
    ensures Pending(s.clients[id]) + CallOf(a, id) == OpsBy(EventOf(s, a), id) + Pending(After(s, a).clients[id])
  {
    PendingAfter(s, a, id);
    assert OpsBy([], id) == [];
    if EventOf(s, a) != [] {
      assert EventOf(s, a)[1..] == [];
    }
  }

  // ----- whole runs -----

  lemma {:induction false} AddedAppend(a: seq<Event>, b: seq<Event>)
    ensures Added(a + b) == Added(a) + Added(b)
    ensures Asked(a + b) == Asked(a) + Asked(b)
  {
    if a == [] {
      assert a + b == b;
    } else {
      AddedAppend(a[1..], b);
      assert (a + b)[0] == a[0] && (a + b)[1..] == a[1..] + b;
      Chain(if a[0].op.Add? then [a[0].op.task] else [], Added(a[1..]), Added(b));
    }
  }

  lemma {:induction false} OpsAppend(a: seq<Event>, b: seq<Event>, id: ClientId)
    ensures OpsBy(a + b, id) == OpsBy(a, id) + OpsBy(b, id)
  {
    if a == [] {
      assert a + b == b;
    } else {
      OpsAppend(a[1..], b, id);
      assert (a + b)[0] == a[0] && (a + b)[1..] == a[1..] + b;
      Chain(if a[0].id == id then [a[0].op] else [], OpsBy(a[1..], id), OpsBy(b, id));
    }
  }

  /** The state at the end of a run is what took effect in it: the tasks added, in order; a stop,
      if there was one, and only then; one answer for each question; and each task that was run
      with the code that its run returned. */
  lemma {:induction false} History(s: State, acts: seq<Action>)
    requires CanRun(s, acts)
    ensures var n := EndOf(s, acts);
            && n.added == s.added + Added(Events(s, acts))
            && (n.stopped <==> s.stopped || Stops(Events(s, acts)))
            && |n.answers| == |s.answers| + Asked(Events(s, acts))
            && n.ran == s.ran + Runs(s, acts)
            && n.clients.Keys == s.clients.Keys
    decreases acts
  {
    if acts == [] {
    } else {
      var first, rest := EventOf(s, acts[0]), Events(After(s, acts[0]), acts[1..]);
      OneStep(s, acts[0]);
      History(After(s, acts[0]), acts[1..]);
      AddedAppend(first, rest);
      StopsAppend(first, rest);
      Chain(s.added, Added(first), Added(rest));
      Chain(s.ran, RunOf(s, acts[0]), Runs(After(s, acts[0]), acts[1..]));
    }
  }

  lemma Chain<T>(a: seq<T>, b: seq<T>, c: seq<T>)
    ensures (a + b) + c == a + (b + c)
  {
  }

  lemma StopsAppend(a: seq<Event>, b: seq<Event>)
    requires |a| <= 1
    ensures Stops(a + b) <==> (a != [] && a[0].op == Stop) || Stops(b)
  {
    if a != [] && a[0].op == Stop {
      assert (a + b)[0].op == Stop;
    }
    if Stops(b) {
      var i :| 0 <= i < |b| && b[i].op == Stop;
      assert (a + b)[|a| + i].op == Stop;
    }
    if Stops(a + b) {
      var i :| 0 <= i < |a + b| && (a + b)[i].op == Stop;
      assert i >= |a| ==> b[i - |a|].op == Stop;
    }
  }

  /** From the start: a state is stopped exactly when some client's `stop` has taken effect on the
      way to it, and the callbacks are given the codes that the tasks returned. */
  lemma {:induction false} StoppedByStop(clients: set<ClientId>, acts: seq<Action>)
    requires CanRun(Initial(clients), acts)
    ensures var n := EndOf(Initial(clients), acts);
            && (n.stopped <==> Stops(Events(Initial(clients), acts)))
            && n.added == Added(Events(Initial(clients), acts))
            && |n.answers| == Asked(Events(Initial(clients), acts))
            && n.ran == Runs(Initial(clients), acts)
            && n.called <= Runs(Initial(clients), acts)
            && n.clients.Keys == clients
  {
    var s := Initial(clients);
    History(s, acts);
    InitialInv(clients);
    RunKeepsInv(s, acts);
    Chain([], Added(Events(s, acts)), []);
    assert [] + Runs(s, acts) == Runs(s, acts);
  }

  /** What a client calls takes effect, as called and in the order of its calls, up to the call
      that is still waiting for its turn. */
  lemma {:induction false} CallsTakeEffect(s: State, acts: seq<Action>, id: ClientId)
    requires CanRun(s, acts) && id in s.clients
    ensures id in EndOf(s, acts).clients
    ensures Pending(s.clients[id]) + CallsBy(acts, id) ==
              OpsBy(Events(s, acts), id) + Pending(EndOf(s, acts).clients[id])
    decreases acts
  {
    if acts == [] {
    } else {
      var n, first, rest := After(s, acts[0]), EventOf(s, acts[0]), Events(After(s, acts[0]), acts[1..]);
      OneStepOf(s, acts[0], id);
      CallsTakeEffect(n, acts[1..], id);
      OpsAppend(first, rest, id);
      var waiting, call, calls := Pending(s.clients[id]), CallOf(acts[0], id), CallsBy(acts[1..], id);
      Regroup(waiting, call, calls, OpsBy(first, id), Pending(n.clients[id]), OpsBy(rest, id),
              Pending(EndOf(s, acts).clients[id]));
    }
  }

  lemma Regroup<T>(a: seq<T>, b: seq<T>, c: seq<T>, d: seq<T>, e: seq<T>, f: seq<T>, g: seq<T>)
    requires a + b == d + e && e + c == f + g
    ensures a + (b + c) == (d + f) + g
  {
    assert a + (b + c) == (a + b) + c == d + (e + c) == d + (f + g);
  }

  // ----- a call can always be brought to its effect -----

  /** How many steps the thread inside the mutex takes before it lets go of it. */
  function HoldLeft(s: State): nat {
    match s.owner
    case Nobody => 0
    case TheWorker =>
      (match s.worker
       case Testing => 4
       case Deciding => 3
       case Taking => 2
       case _ => 1)
    case AClient(id) =>
      if id !in s.clients then 0
      else match s.clients[id]
        case Inside(_) => 3
        case Signalling => 2
        case _ => 1
  }

  function Holder(s: State): Action {
    if s.owner.AClient? then ClientStep(s.owner.id) else WorkerStep(0)
  }

  lemma HolderSteps(s: State)
    requires Inv(s) && s.owner != Nobody
    ensures Enabled(s, Holder(s))
    ensures var n := After(s, Holder(s));
            && (n.owner == Nobody || HoldLeft(n) < HoldLeft(s)) && (n.owner == Nobody || n.owner == s.owner)
            && forall c :: c in s.clients && s.clients[c] == Idle ==> n.clients[c] == Idle
  {
  }

  lemma {:induction false} MutexComesFree(s: State) returns (acts: seq<Action>)
    requires Inv(s)
    ensures CanRun(s, acts) && EndOf(s, acts).owner == Nobody && Inv(EndOf(s, acts))
    ensures EndOf(s, acts).clients.Keys == s.clients.Keys
    ensures forall c :: c in s.clients && s.clients[c] == Idle ==> EndOf(s, acts).clients[c] == Idle
    decreases HoldLeft(s)
  {
    if s.owner == Nobody {
      acts := [];
    } else {
      HolderSteps(s);
      StepKeepsInv(s, Holder(s));
      OneStep(s, Holder(s));
      var n := After(s, Holder(s));
      if n.owner == Nobody {
        acts := [Holder(s)];
        assert CanRun(n, []) && acts[1..] == [];
      } else {
        var more := MutexComesFree(n);
        acts := [Holder(s)] + more;
        assert acts[1..] == more;
      }
    }
  }

  /** In every reachable state an idle client can call any operation and have it take effect:
      nothing in the queue can be stuck for ever. */
  lemma {:induction false} CallCanTakeEffect(s: State, id: ClientId, op: Op) returns (acts: seq<Action>)
    requires Reachable(s) && id in s.clients && s.clients[id] == Idle
    ensures CanRun(s, acts) && EndOf(s, acts).clients.Keys == s.clients.Keys
    ensures EndOf(s, acts).clients[id] == Inside(op) && Enabled(EndOf(s, acts), ClientStep(id))
    ensures EventOf(EndOf(s, acts), ClientStep(id)) == [Event(id, op)]
  {
    ReachableInv(s);
    var before := MutexComesFree(s);
    var n := EndOf(s, before);
    var m, first := OneMore(s, before, Call(id, op));
    m, acts := OneMore(s, first, ClientStep(id));
  }
}
