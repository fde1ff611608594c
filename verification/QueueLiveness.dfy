/** That a stop is followed by the exit of the worker, in every run that goes on for ever and is
    fair to the worker and to the client inside the mutex. */
module QueueLiveness {
  import opened Options
  import opened QueueProtocol

  /** The state at each moment and the action taken then, if any. */
  datatype Trace = Trace(state: nat -> State, action: nat -> Option<Action>)

  ghost predicate Moves(t: Trace, i: nat) {
    match t.action(i)
    case None => t.state(i + 1) == t.state(i)
    case Some(a) => Enabled(t.state(i), a) && t.state(i + 1) == After(t.state(i), a)
  }

  ghost predicate IsRun(t: Trace) {
    forall i: nat :: Moves(t, i)
  }

  /** Nothing is added from a moment on. */
  ghost predicate AddsNoMore(t: Trace, from: nat) {
    forall i: nat :: from <= i && t.action(i).Some? ==> !Enqueues(t.state(i), t.action(i).value)
  }

  ghost predicate StepsAt(t: Trace, i: nat, c: ClientId) {
    t.action(i) == Some(ClientStep(c))
  }

  ghost predicate WorkerAt(t: Trace, i: nat) {
    t.action(i).Some? && ByWorker(t.action(i).value)
  }

  ghost predicate WorkerCan(t: Trace, i: nat) {
    Enabled(t.state(i), WorkerStep(0))
  }

  ghost predicate CanAgain(t: Trace, n: nat) {
    exists j: nat :: n <= j && WorkerCan(t, j)
  }

  ghost predicate CanEverAgain(t: Trace, i: nat) {
    forall n: nat :: i <= n ==> CanAgain(t, n)
  }

  ghost predicate HeldAt(t: Trace, i: nat, c: ClientId) {
    t.state(i).owner == AClient(c)
  }

  /** A client inside the mutex takes its next step at some time. */
  ghost predicate HolderGoesOn(t: Trace) {
    forall i: nat, c :: HeldAt(t, i, c) ==> exists j: nat :: i <= j && StepsAt(t, j, c)
  }

  /** The mutex is not withheld from the worker for ever: if it can move again and again, it
      moves. This is what a mutex gives that hands itself on after a bounded number of releases. */
  ghost predicate WorkerGetsItsTurn(t: Trace) {
    forall i: nat :: CanEverAgain(t, i) ==> exists j: nat :: i <= j && WorkerAt(t, j)
  }

  /** A run from the start of some reachable state, fair to the client inside the mutex and to the worker. */
  ghost predicate IsFairRun(t: Trace) {
    Reachable(t.state(0)) && IsRun(t) && HolderGoesOn(t) && WorkerGetsItsTurn(t)
  }

  // ----- what holds at every moment -----

  lemma {:induction false} AlwaysInv(t: Trace, i: nat)
    requires IsRun(t) && Reachable(t.state(0))
    ensures Inv(t.state(i))
    decreases i
  {
    if i == 0 {
      ReachableInv(t.state(0));
    } else {
      AlwaysInv(t, i - 1);
      assert Moves(t, i - 1);
      if t.action(i - 1).Some? {
        StepKeepsInv(t.state(i - 1), t.action(i - 1).value);
      }
    }
  }

  // ----- the mutex is let go of -----

  function Left(s: State, c: ClientId): nat {
    if c !in s.clients then 0
    else match s.clients[c]
      case Inside(_) => 3
      case Signalling => 2
      case Unlocking => 1
      case _ => 0
  }

  /** A client holds the mutex until it steps, and each of its steps brings it closer to letting go. */
  lemma HolderStays(s: State, a: Action, c: ClientId)
    requires Inv(s) && Enabled(s, a) && s.owner == AClient(c)
    ensures a != ClientStep(c) ==> After(s, a).owner == AClient(c) && Left(After(s, a), c) == Left(s, c)
    ensures a == ClientStep(c) ==>
              After(s, a).owner == Nobody || (After(s, a).owner == AClient(c) && Left(After(s, a), c) < Left(s, c))
  {
  }

  ghost predicate HoldsWith(s: State, c: ClientId, left: nat) {
    s.owner == AClient(c) && Left(s, c) <= left
  }

  lemma HolderAt(t: Trace, i: nat, c: ClientId)
    requires IsRun(t) && Reachable(t.state(0)) && t.state(i).owner == AClient(c)
    ensures t.state(i + 1).owner == Nobody || HoldsWith(t.state(i + 1), c, Left(t.state(i), c))
    ensures StepsAt(t, i, c) && t.state(i + 1).owner != Nobody ==> Left(t.state(i + 1), c) < Left(t.state(i), c)
  {
    AlwaysInv(t, i);
    assert Moves(t, i);
    if t.action(i).Some? {
      HolderStays(t.state(i), t.action(i).value, c);
    }
  }

  lemma {:induction false} HeldUntil(t: Trace, i: nat, j: nat, c: ClientId) returns (k: nat)
    requires IsRun(t) && Reachable(t.state(0)) && i <= j && t.state(i).owner == AClient(c)
    ensures i <= k
    ensures t.state(k).owner == Nobody || (k == j && HoldsWith(t.state(j), c, Left(t.state(i), c)))
    decreases j - i
  {
    k := i;
    if i < j {
      HolderAt(t, i, c);
      if t.state(i + 1).owner == Nobody {
        k := i + 1;
      } else {
        k := HeldUntil(t, i + 1, j, c);
      }
    }
  }

  lemma StepLater(t: Trace, i: nat, c: ClientId) returns (j: nat)
    requires HolderGoesOn(t) && t.state(i).owner == AClient(c)
    ensures i <= j && StepsAt(t, j, c)
  {
    assert HeldAt(t, i, c);
    j :| i <= j && StepsAt(t, j, c);
  }

  lemma CloserLater(t: Trace, i: nat, c: ClientId) returns (k: nat)
    requires IsFairRun(t) && t.state(i).owner == AClient(c)
    ensures i <= k && (t.state(k).owner == Nobody || t.state(k).owner == AClient(c))
    ensures t.state(k).owner != Nobody ==> Left(t.state(k), c) < Left(t.state(i), c)
  {
    var j := StepLater(t, i, c);
    k := HeldUntil(t, i, j, c);
    if t.state(k).owner != Nobody {
      HolderAt(t, j, c);
      k := j + 1;
    }
  }

  lemma {:induction false} LetGo(t: Trace, i: nat, c: ClientId) returns (k: nat)
    requires IsFairRun(t) && t.state(i).owner == AClient(c)
    ensures i <= k && t.state(k).owner == Nobody
    decreases Left(t.state(i), c)
  {
    k := CloserLater(t, i, c);
    if t.state(k).owner != Nobody {
      k := LetGo(t, k, c);
    }
  }

  // ----- the worker goes on -----

  /** The worker has not left, and has something to do. */
  ghost predicate HasWork(s: State) {
    !s.worker.Gone? && (s.queue != [] || s.stopped || InFlight(s.worker) != [])
  }

  /** A worker with something to do can move as soon as no client is inside the mutex: it cannot
      be asleep then, since no wake-up is lost. */
  lemma CanMove(s: State)
    requires Inv(s) && HasWork(s) && !s.owner.AClient?
    ensures Enabled(s, WorkerStep(0))
  {
  }

  lemma CanMoveLater(t: Trace, n: nat)
    requires IsFairRun(t) && forall j: nat :: n <= j ==> HasWork(t.state(j))
    ensures CanAgain(t, n)
  {
    var k := n;
    if t.state(n).owner.AClient? {
      k := LetGo(t, n, t.state(n).owner.id);
    }
    AlwaysInv(t, k);
    CanMove(t.state(k));
    assert WorkerCan(t, k);
  }

  /** It moves, or has nothing to do any more. */
  lemma WorkerMovesLater(t: Trace, i: nat) returns (j: nat)
    requires IsFairRun(t)
    ensures i <= j && (WorkerAt(t, j) || !HasWork(t.state(j)))
  {
    if exists j: nat :: i <= j && !HasWork(t.state(j)) {
      j :| i <= j && !HasWork(t.state(j));
    } else {
      forall n: nat | i <= n ensures CanAgain(t, n) {
        CanMoveLater(t, n);
      }
      assert CanEverAgain(t, i);
      j :| i <= j && WorkerAt(t, j);
    }
  }

  // ----- a task that is added is run in the end -----

  /** The first `n` tasks added are finished. */
  ghost predicate FirstDone(s: State, n: nat) {
    n <= |s.deleted|
  }

  /** How many steps the worker takes until they are. */
  function StepsTo(s: State, n: nat): int {
    10 * (n - |s.deleted| - |InFlight(s.worker)|) + PlaceRank(s.worker)
  }

  lemma NotDoneYet(s: State, n: nat)
    requires Inv(s) && n <= |s.added| && !FirstDone(s, n) && !s.worker.Gone?
    ensures HasWork(s) && StepsTo(s, n) >= 0
  {
    assert |s.added| == |s.deleted| + |InFlight(s.worker)| + |s.queue|;
  }

  /** The first `n` tasks are added and not finished, and the worker is there. */
  ghost predicate Awaited(s: State, n: nat, steps: int) {
    n <= |s.added| && !FirstDone(s, n) && !s.worker.Gone? && StepsTo(s, n) <= steps
  }

  lemma TowardsTask(s: State, a: Action, n: nat)
    requires Inv(s) && Enabled(s, a) && Awaited(s, n, StepsTo(s, n))
    ensures var m := After(s, a);
            s.added <= m.added &&
            (FirstDone(m, n) || Awaited(m, n, StepsTo(s, n) - (if ByWorker(a) then 1 else 0)))
  {
    NotDoneYet(s, n);
  }

  lemma TowardsTaskAt(t: Trace, i: nat, n: nat)
    requires IsFairRun(t) && Awaited(t.state(i), n, StepsTo(t.state(i), n))
    ensures HasWork(t.state(i)) && StepsTo(t.state(i), n) >= 0
    ensures t.state(i).added <= t.state(i + 1).added
    ensures FirstDone(t.state(i + 1), n)
            || Awaited(t.state(i + 1), n, StepsTo(t.state(i), n) - (if WorkerAt(t, i) then 1 else 0))
  {
    AlwaysInv(t, i);
    NotDoneYet(t.state(i), n);
    assert Moves(t, i);
    if t.action(i).Some? {
      TowardsTask(t.state(i), t.action(i).value, n);
    }
  }

  lemma {:induction false} AwaitedUntil(t: Trace, i: nat, j: nat, n: nat) returns (k: nat)
    requires IsFairRun(t) && i <= j && Awaited(t.state(i), n, StepsTo(t.state(i), n))
    ensures i <= k && t.state(i).added <= t.state(k).added
    ensures FirstDone(t.state(k), n) || (k == j && Awaited(t.state(j), n, StepsTo(t.state(i), n)))
    decreases j - i
  {
    k := i;
    if i < j {
      TowardsTaskAt(t, i, n);
      if FirstDone(t.state(i + 1), n) {
        k := i + 1;
      } else {
        k := AwaitedUntil(t, i + 1, j, n);
      }
    }
  }

  lemma {:induction false} DoneFrom(t: Trace, i: nat, n: nat) returns (j: nat)
    requires IsFairRun(t) && Awaited(t.state(i), n, StepsTo(t.state(i), n))
    ensures i <= j && FirstDone(t.state(j), n) && t.state(i).added <= t.state(j).added
    decreases StepsTo(t.state(i), n)
  {
    TowardsTaskAt(t, i, n);
    var k := WorkerMovesLater(t, i);
    j := AwaitedUntil(t, i, k, n);
    if !FirstDone(t.state(j), n) {
      TowardsTaskAt(t, j, n);
      if FirstDone(t.state(j + 1), n) {
        j := j + 1;
      } else {
        var next := DoneFrom(t, j + 1, n);
        j := next;
      }
    }
  }

  /** Every task that is added while the worker is there is run, called back and deleted in the
      end, in its turn, however many are added later and whether there is a stop or not. */
  lemma AddedIsFinished(t: Trace, i: nat, n: nat) returns (j: nat)
    requires IsFairRun(t) && n <= |t.state(i).added| && !t.state(i).worker.Gone?
    ensures i <= j && n <= |t.state(j).deleted|
    ensures t.state(j).deleted[..n] == t.state(i).added[..n]
    ensures t.state(j).deleted <= Tasks(t.state(j).called) && t.state(j).called <= t.state(j).ran
  {
    j := i;
    if !FirstDone(t.state(i), n) {
      j := DoneFrom(t, i, n);
    }
    AlwaysInv(t, j);
    InOrderPrefix(t.state(j), n);
    assert t.state(i).added[..n] == t.state(j).added[..n];
  }

  lemma InOrderPrefix(s: State, n: nat)
    requires InOrder(s) && n <= |s.deleted|
    ensures n <= |s.added| && s.deleted[..n] == s.added[..n]
    ensures s.deleted <= Tasks(s.called) && s.called <= s.ran
  {
  }

  // ----- a stop is followed by the exit -----

  ghost predicate Stopped(s: State) {
    Inv(s) && s.stopped && (s.worker.Gone? ==> s.queue == [])
  }

  lemma OneMoment(t: Trace, i: nat, from: nat)
    requires IsRun(t) && AddsNoMore(t, from) && from <= i && Stopped(t.state(i))
    ensures Stopped(t.state(i + 1)) && t.state(i + 1).added == t.state(i).added
    ensures StepsLeft(t.state(i + 1)) + (if WorkerAt(t, i) then 1 else 0) <= StepsLeft(t.state(i))
  {
    assert Moves(t, i);
    match t.action(i)
    case None =>
    case Some(a) =>
      StepKeepsInv(t.state(i), a);
      StoppedStep(t.state(i), a);
  }

  lemma {:induction false} AlwaysStopped(t: Trace, i: nat, j: nat, from: nat)
    requires IsRun(t) && AddsNoMore(t, from) && from <= i <= j && Stopped(t.state(i))
    ensures Stopped(t.state(j)) && t.state(j).added == t.state(i).added
    ensures StepsLeft(t.state(j)) <= StepsLeft(t.state(i))
    decreases j - i
  {
    if i == j {
    } else {
      OneMoment(t, i, from);
      AlwaysStopped(t, i + 1, j, from);
    }
  }

  lemma {:induction false} LeavesFrom(t: Trace, i: nat, from: nat) returns (j: nat)
    requires IsFairRun(t) && AddsNoMore(t, from) && from <= i && Stopped(t.state(i))
    ensures i <= j && t.state(j).worker.Gone?
    decreases StepsLeft(t.state(i))
  {
    var k := WorkerMovesLater(t, i);
    AlwaysStopped(t, i, k, from);
    if t.state(k).worker.Gone? {
      j := k;
    } else {
      OneMoment(t, k, from);
      j := LeavesFrom(t, k + 1, from);
    }
  }

  /** Once a client's `stop` takes effect, and if nothing is added from then on, the worker leaves
      in the end, with every added task run, called back and deleted. */
  lemma StopLeadsToExit(t: Trace, i: nat, c: ClientId) returns (j: nat)
    requires IsFairRun(t) && AddsNoMore(t, i)
    requires StepsAt(t, i, c) && c in t.state(i).clients && t.state(i).clients[c] == Inside(Stop)
    requires t.state(i).worker.Gone? ==> t.state(i).queue == []
    ensures i < j && DrainedAt(t.state(j)) && t.state(j).added == t.state(i).added
    ensures Tasks(t.state(j).called) == t.state(j).deleted && t.state(j).ran == t.state(j).called
  {
    AlwaysInv(t, i);
    assert Moves(t, i);
    StopStops(t.state(i), c);
    j := LeavesFrom(t, i + 1, i);
    AlwaysStopped(t, i + 1, j, i);
    LeftInOrder(t.state(j));
  }

  lemma LeftInOrder(s: State)
    requires Stopped(s) && s.worker.Gone?
    ensures DrainedAt(s) && Tasks(s.called) == s.deleted && s.ran == s.called
  {
    assert s.deleted + [] + [] == s.deleted && s.called + [] == s.called;
  }
}
