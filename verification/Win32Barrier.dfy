// The barrier of WAIT_INIT and WAIT_FINISH on top of the Windows condition variable: every run is a run of the
// abstract barrier, whose waiters wake at a broadcast and at no other time.

module Win32Barrier {
  import Barrier
  import Win32Cond
  import opened Counting

  /** The condition variable with its mutex, count_threads, and how many barriers each participant has passed. */
  datatype State = State(cond: Win32Cond.State, count: int, passed: seq<nat>)

  ghost predicate Initial(s: State) {
    && Win32Cond.Initial(s.cond) && |s.cond.threads| >= 2 && |s.passed| == |s.cond.threads| && s.count == 0
    && forall i :: 0 <= i < |s.passed| ==> s.passed[i] == 0
  }

  /** The test of the macro: everybody else is there. */
  predicate Last(s: State, i: nat)
    requires i < |s.passed|
  {
    if s.passed[i] % 2 == 0 then s.count >= |s.passed| - 1 else s.count <= 0
  }

  /** Not the last: count, with the mutex held, and begin to wait. */
  ghost predicate Wait(s: State, s': State, i: nat) {
    && i < |s.passed| && !Last(s, i) && Win32Cond.Enter(s.cond, s'.cond, i)
    && s' == s.(cond := s'.cond, count := if s.passed[i] % 2 == 0 then s.count + 1 else s.count - 1)
  }

  /** The last: begin to broadcast. */
  ghost predicate Open(s: State, s': State, i: nat) {
    && i < |s.passed| && Last(s, i) && Win32Cond.Broadcast(s.cond, s'.cond, i)
    && s' == s.(cond := s'.cond, passed := s.passed[i := s.passed[i] + 1])
  }

  /** A waiter has the mutex back. */
  ghost predicate Leave(s: State, s': State, i: nat) {
    && i < |s.passed| && Win32Cond.Rejoin(s.cond, s'.cond, i)
    && s' == s.(cond := s'.cond, passed := s.passed[i := s.passed[i] + 1])
  }

  /** Every other step of the condition variable and its mutex. */
  ghost predicate Inside(s: State, s': State, i: nat) {
    && s' == s.(cond := s'.cond)
    && (|| Win32Cond.Lock(s.cond, s'.cond, i) || Win32Cond.Unlock(s.cond, s'.cond, i) || Win32Cond.Sleep(s.cond, s'.cond, i)
        || Win32Cond.Take(s.cond, s'.cond, i) || Win32Cond.Remove(s.cond, s'.cond, i) || Win32Cond.Notify(s.cond, s'.cond, i)
        || Win32Cond.Continue(s.cond, s'.cond, i) || Win32Cond.Return(s.cond, s'.cond, i))
  }

  ghost predicate StepOf(s: State, s': State, i: nat) {
    Wait(s, s', i) || Open(s, s', i) || Leave(s, s', i) || Inside(s, s', i)
  }

  ghost predicate Next(s: State, s': State) {
    exists i: nat :: StepOf(s, s', i)
  }

  // ----- the abstraction -----

  /** A broadcast is being made. */
  predicate Broadcasts(c: Win32Cond.State) {
    0 <= c.owner < |c.threads| && (c.threads[c.owner] == Win32Cond.Broadcasting || c.threads[c.owner] == Win32Cond.Resetting)
  }

  /** What a thread is to the abstract barrier: a sleeper is woken as soon as a broadcast has begun. */
  function Seen(t: Win32Cond.Status, broadcast: bool): Barrier.Status {
    match t
    case Outside => Barrier.Running
    case Broadcasting => Barrier.Running
    case Resetting => Barrier.Running
    case Entered => Barrier.Waiting
    case Sleeping => if broadcast then Barrier.Woken else Barrier.Waiting
    case Taken => Barrier.Woken
    case Notifying => Barrier.Woken
    case Rejoining => Barrier.Woken
  }

  function AllSeen(threads: seq<Win32Cond.Status>, broadcast: bool): (r: seq<Barrier.Status>)
    ensures |r| == |threads| && forall i :: 0 <= i < |r| ==> r[i] == Seen(threads[i], broadcast)
  {
    seq(|threads|, i requires 0 <= i < |threads| => Seen(threads[i], broadcast))
  }

  function Abstract(s: State): Barrier.State {
    Barrier.State(s.count, AllSeen(s.cond.threads, Broadcasts(s.cond)), s.passed)
  }

  ghost predicate Inv(s: State) {
    Win32Cond.Inv(s.cond) && |s.passed| == |s.cond.threads|
  }

  // ----- the simulation -----

  lemma {:induction false} WaitArrives(s: State, s': State, i: nat)
    requires Inv(s) && Wait(s, s', i)
    ensures Barrier.Arrive(Abstract(s), Abstract(s'), i)
  {
    hide Win32Cond.TokensOk, Win32Cond.PresentOk;
    assert Abstract(s').status == Abstract(s).status[i := Barrier.Waiting];
  }

  /** The broadcaster holds the mutex, so everybody who waits is asleep, and becomes woken. */
  lemma {:induction false} OpenArrives(s: State, s': State, i: nat)
    requires Inv(s) && Open(s, s', i)
    ensures Barrier.Arrive(Abstract(s), Abstract(s'), i)
  {
    CountNone(s.cond.threads, Win32Cond.Sleeping);
    assert Abstract(s').status == Barrier.WakeAll(Abstract(s).status);
  }

  lemma {:induction false} LeaveLeaves(s: State, s': State, i: nat)
    requires Inv(s) && Leave(s, s', i)
    ensures Barrier.Leave(Abstract(s), Abstract(s'), i)
  {
    hide Win32Cond.TokensOk, Win32Cond.PresentOk;
    assert Abstract(s').status == Abstract(s).status[i := Barrier.Running];
  }

  /** Tokens are only taken during a broadcast, and it ends with nobody asleep: no other step shows. */
  lemma {:induction false} InsideUnseen(s: State, s': State, i: nat)
    requires Inv(s) && Inside(s, s', i)
    ensures Abstract(s') == Abstract(s)
  {
    hide Win32Cond.Return, Win32Cond.Take, Win32Cond.Lock, Win32Cond.Unlock, Win32Cond.Sleep, Win32Cond.Remove, Win32Cond.Notify, Win32Cond.Continue;
    hide AllSeen, Broadcasts, Win32Cond.TokensOk, Win32Cond.PresentOk, Win32Cond.MutexOk;
    if Win32Cond.Return(s.cond, s'.cond, i) || Win32Cond.Take(s.cond, s'.cond, i) {
      TokensUnseen(s.cond, s'.cond, i);
    } else {
      MovesUnseen(s.cond, s'.cond, i);
    }
  }

  lemma {:induction false} TokensUnseen(c: Win32Cond.State, c': Win32Cond.State, i: nat)
    requires Win32Cond.Inv(c) && (Win32Cond.Return(c, c', i) || Win32Cond.Take(c, c', i))
    ensures AllSeen(c'.threads, Broadcasts(c')) == AllSeen(c.threads, Broadcasts(c))
  {
    CountNone(c.threads, Win32Cond.Sleeping);
  }

  lemma {:induction false} MovesUnseen(c: Win32Cond.State, c': Win32Cond.State, i: nat)
    requires Win32Cond.MutexOk(c)
    requires Win32Cond.Lock(c, c', i) || Win32Cond.Unlock(c, c', i) || Win32Cond.Sleep(c, c', i) || Win32Cond.Remove(c, c', i)
      || Win32Cond.Notify(c, c', i) || Win32Cond.Continue(c, c', i)
    ensures AllSeen(c'.threads, Broadcasts(c')) == AllSeen(c.threads, Broadcasts(c))
  {
  }

  lemma {:induction false} StepInv(s: State, s': State)
    requires Inv(s) && Next(s, s')
    ensures Inv(s')
  {
    hide Win32Cond.Inv;
    var i: nat :| StepOf(s, s', i);
    assert Win32Cond.StepOf(s.cond, s'.cond, i);
    Win32Cond.StepInv(s.cond, s'.cond);
  }

  /** Every step is a step of the abstract barrier, or none at all. */
  lemma {:induction false} Simulates(s: State, s': State)
    requires Inv(s) && Next(s, s')
    ensures Abstract(s') == Abstract(s) || Barrier.Next(Abstract(s), Abstract(s'))
  {
    hide Inv, Wait, Open, Leave, Inside, Abstract, Barrier.Arrive, Barrier.Leave;
    var i: nat :| StepOf(s, s', i);
    if Wait(s, s', i) {
      WaitArrives(s, s', i);
    } else if Open(s, s', i) {
      OpenArrives(s, s', i);
    } else if Leave(s, s', i) {
      LeaveLeaves(s, s', i);
    } else {
      InsideUnseen(s, s', i);
    }
  }

  ghost predicate Run(run: seq<State>) {
    && run != [] && Initial(run[0]) && forall k :: 0 <= k < |run| - 1 ==> Next(run[k], run[k + 1])
  }

  lemma {:induction false} InitialInv(s: State)
    requires Initial(s)
    ensures Inv(s) && Barrier.Initial(Abstract(s))
  {
    Win32Cond.InitialInv(s.cond);
  }

  lemma {:induction false} RunInv(run: seq<State>) returns (p: nat)
    requires Run(run)
    ensures Inv(run[|run| - 1]) && Barrier.Inv(Abstract(run[|run| - 1]), p)
    decreases |run|
  {
    hide Inv, Initial, Next, Abstract, Barrier.Inv, Barrier.Initial, Barrier.Next;
    if |run| == 1 {
      InitialInv(run[0]);
      Barrier.InitialInv(Abstract(run[0]));
      p := 0;
    } else {
      var before := run[..|run| - 1];
      forall k | 0 <= k < |before| - 1
        ensures Next(before[k], before[k + 1])
      {
        assert Next(run[k], run[k + 1]);
      }
      p := RunInv(before);
      var s, s' := run[|run| - 2], run[|run| - 2 + 1];
      assert Next(s, s');
      Simulates(s, s');
      StepInv(s, s');
      if Abstract(s') != Abstract(s) {
        p := Barrier.StepInv(Abstract(s), Abstract(s'), p);
      }
    }
  }

  /** So on Windows the barrier holds over any number of jobs and any interleaving, with nothing assumed about wakeups. */
  lemma {:induction false} BarrierHolds(run: seq<State>)
    requires Run(run)
    ensures Barrier.Sound(Abstract(run[|run| - 1]))
  {
    hide Inv, Abstract, Barrier.Inv, Barrier.Sound;
    var p := RunInv(run);
    Barrier.InvSound(Abstract(run[|run| - 1]), p);
  }

  /** And some thread can always take a step. */
  lemma {:induction false} NeverStuck(run: seq<State>)
    requires Run(run)
    ensures var s := run[|run| - 1]; exists s': State :: Next(s, s')
  {
    hide Inv, Win32Cond.Inv, Win32Cond.Ready, Inside, Leave, Barrier.Inv, Barrier.Sound, Abstract;
    var s := run[|run| - 1];
    var p := RunInv(run);
    SomebodyAwake(s, p);
    var i := Win32Cond.SomebodyReady(s.cond);
    var c := Win32Cond.Moves(s.cond, i);
    var s' := NextState(s, c, i);
    assert StepOf(s, s', i) && Next(s, s');
  }

  lemma {:induction false} NextState(s: State, c: Win32Cond.State, i: nat) returns (s': State)
    requires Inv(s) && i < |s.passed|
    requires Win32Cond.Lock(s.cond, c, i) || Win32Cond.Unlock(s.cond, c, i) || Win32Cond.Sleep(s.cond, c, i) || Win32Cond.Take(s.cond, c, i)
      || Win32Cond.Remove(s.cond, c, i) || Win32Cond.Notify(s.cond, c, i) || Win32Cond.Rejoin(s.cond, c, i)
      || Win32Cond.Continue(s.cond, c, i) || Win32Cond.Return(s.cond, c, i)
    ensures Inside(s, s', i) || Leave(s, s', i)
  {
    hide Win32Cond.Inv;
    s' := if Win32Cond.Rejoin(s.cond, c, i) then State(c, s.count, s.passed[i := s.passed[i] + 1]) else State(c, s.count, s.passed);
  }

  lemma {:induction false} SomebodyAwake(s: State, p: nat)
    requires Inv(s) && Barrier.Inv(Abstract(s), p)
    ensures Win32Cond.Inv(s.cond) && |s.passed| == |s.cond.threads|
    ensures exists k: nat :: k < |s.cond.threads| && s.cond.threads[k] != Win32Cond.Sleeping
  {
    hide Win32Cond.TokensOk, Win32Cond.PresentOk;
    Barrier.InvSound(Abstract(s), p);
    var k: nat :| k < |s.cond.threads| && Abstract(s).status[k] != Barrier.Waiting;
    if s.cond.threads[k] == Win32Cond.Sleeping {
      assert Broadcasts(s.cond) && s.cond.threads[s.cond.owner] != Win32Cond.Sleeping;
    }
  }
}
