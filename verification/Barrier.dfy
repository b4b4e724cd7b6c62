// The counter barrier of WAIT_INIT and WAIT_FINISH, over any number of jobs and any interleaving, with
// a condition variable that wakes its waiters at a broadcast and at no other time.

module Counting {
  /** How many elements of `s` are `x`. */
  function Count<T(==)>(s: seq<T>, x: T): (n: nat)
    ensures n <= |s|
  {
    if s == [] then 0 else (if s[0] == x then 1 else 0) + Count(s[1..], x)
  }

  lemma {:induction false} CountUpdate<T>(s: seq<T>, i: nat, y: T, x: T)
    requires i < |s|
    ensures Count(s[i := y], x) == Count(s, x) - (if s[i] == x then 1 else 0) + (if y == x then 1 else 0)
  {
    if i > 0 {
      CountUpdate(s[1..], i - 1, y, x);
      assert s[i := y][1..] == s[1..][i - 1 := y];
    } else {
      assert s[i := y][1..] == s[1..];
    }
  }

  lemma {:induction false} CountNone<T>(s: seq<T>, x: T)
    ensures Count(s, x) == 0 <==> forall i :: 0 <= i < |s| ==> s[i] != x
  {
    if s != [] {
      CountNone(s[1..], x);
      assert forall i :: 1 <= i < |s| ==> s[i] == s[1..][i - 1];
      if Count(s, x) == 0 {
        assert forall i :: 0 <= i < |s| ==> i == 0 || s[i] == s[1..][i - 1];
      } else if s[0] != x {
        var j :| 0 <= j < |s[1..]| && s[1..][j] == x;
        assert s[j + 1] == x;
      }
    }
  }

  /** When all but one are `x`, they are the others. */
  lemma {:induction false} CountOthers<T>(s: seq<T>, i: nat, x: T)
    requires i < |s| && s[i] != x && Count(s, x) == |s| - 1
    ensures forall j :: 0 <= j < |s| && j != i ==> s[j] == x
  {
    forall j | 0 <= j < |s| && j != i
      ensures s[j] == x
    {
      if s[j] != x {
        CountUpdate(s, i, x, x);
        CountUpdate(s[i := x], j, x, x);
      }
    }
  }

  lemma {:induction false} CountAll<T>(s: seq<T>, x: T)
    requires forall j :: 0 <= j < |s| ==> s[j] == x
    ensures Count(s, x) == |s|
  {
    if s != [] {
      CountAll(s[1..], x);
    }
  }
}

module Barrier {
  import opened Counting

  /** A participant is outside the barrier, asleep in pthread_cond_wait, or woken but without the mutex yet. */
  datatype Status = Running | Waiting | Woken

  /** count_threads, the participants (numthreads workers and the calling thread) and, as history, how many
      barriers each has passed. WAIT_INIT and WAIT_FINISH alternate, so the parity tells which one is next. */
  datatype State = State(count: int, status: seq<Status>, passed: seq<nat>)

  ghost predicate Initial(s: State) {
    && |s.status| >= 2 && |s.passed| == |s.status| && s.count == 0
    && forall i :: 0 <= i < |s.status| ==> s.status[i] == Running && s.passed[i] == 0
  }

  /** pthread_cond_broadcast: all sleepers are woken. */
  function WakeAll(status: seq<Status>): (r: seq<Status>)
    ensures |r| == |status|
    ensures forall i :: 0 <= i < |status| ==> r[i] == if status[i] == Waiting then Woken else status[i]
  {
    seq(|status|, i requires 0 <= i < |status| => if status[i] == Waiting then Woken else status[i])
  }

  /** The macro's body under the mutex: wait, or be the last and broadcast. */
  ghost predicate Arrive(s: State, s': State, i: nat) {
    && i < |s.status| == |s.passed| && s.status[i] == Running
    && var numthreads := |s.status| - 1;
    var last := if s.passed[i] % 2 == 0 then s.count >= numthreads else s.count <= 0;
    if last then
      s' == s.(status := WakeAll(s.status), passed := s.passed[i := s.passed[i] + 1])
    else
      s' == s.(count := if s.passed[i] % 2 == 0 then s.count + 1 else s.count - 1, status := s.status[i := Waiting])
  }

  /** A woken participant gets the mutex back and leaves. */
  ghost predicate Leave(s: State, s': State, i: nat) {
    && i < |s.status| == |s.passed| && s.status[i] == Woken
    && s' == s.(status := s.status[i := Running], passed := s.passed[i := s.passed[i] + 1])
  }

  ghost predicate Next(s: State, s': State) {
    exists i: nat :: Arrive(s, s', i) || Leave(s, s', i)
  }

  /** How many barriers a participant has reached: one more than it has passed while it is inside one. */
  function Arrived(s: State, i: nat): nat
    requires i < |s.status| == |s.passed|
  {
    s.passed[i] + if s.status[i] == Running then 0 else 1
  }

  /** Everybody is at barrier `p`, except that some may still be on their way out of the one before. */
  ghost predicate Inv(s: State, p: nat) {
    && |s.status| >= 2 && |s.passed| == |s.status|
    && (forall i :: 0 <= i < |s.status| ==> s.passed[i] + (if s.status[i] == Woken then 1 else 0) == p)
    && var waiting := Count(s.status, Waiting);
    waiting < |s.status| && s.count == if p % 2 == 0 then waiting else |s.status| - 1 - waiting
  }

  lemma {:induction false} InitialInv(s: State)
    requires Initial(s)
    ensures Inv(s, 0)
  {
    CountNone(s.status, Waiting);
  }

  /** The last one to arrive finds all others asleep, and opens the barrier for them. */
  lemma {:induction false} LastArrives(s: State, s': State, i: nat, p: nat)
    requires Inv(s, p) && Arrive(s, s', i) && s'.passed != s.passed
    ensures Inv(s', p + 1)
  {
    CountOthers(s.status, i, Waiting);
    assert forall j :: 0 <= j < |s.status| ==> s'.status[j] != Waiting;
    CountNone(s'.status, Waiting);
  }

  /** Any other one goes to sleep. */
  lemma {:induction false} OneArrives(s: State, s': State, i: nat, p: nat)
    requires Inv(s, p) && Arrive(s, s', i) && s'.passed == s.passed
    ensures Inv(s', p)
  {
    CountUpdate(s.status, i, Waiting, Waiting);
  }

  lemma {:induction false} LeaveInv(s: State, s': State, i: nat, p: nat)
    requires Inv(s, p) && Leave(s, s', i)
    ensures Inv(s', p)
  {
    CountUpdate(s.status, i, Running, Waiting);
  }

  /** Every step keeps the invariant, for the same barrier or the next. */
  lemma {:induction false} StepInv(s: State, s': State, p: nat) returns (p': nat)
    requires Inv(s, p) && Next(s, s')
    ensures Inv(s', p') && p <= p' <= p + 1
  {
    hide Inv, Arrive, Leave;
    var i: nat :| Arrive(s, s', i) || Leave(s, s', i);
    p' := p;
    if Leave(s, s', i) {
      LeaveInv(s, s', i, p);
    } else if s'.passed == s.passed {
      OneArrives(s, s', i, p);
    } else {
      LastArrives(s, s', i, p);
      p' := p + 1;
    }
  }

  ghost predicate Run(run: seq<State>) {
    && run != [] && Initial(run[0]) && forall k :: 0 <= k < |run| - 1 ==> Next(run[k], run[k + 1])
  }

  lemma {:induction false} RunInv(run: seq<State>) returns (p: nat)
    requires Run(run)
    ensures Inv(run[|run| - 1], p)
    decreases |run|
  {
    hide Inv, Initial, Next;
    if |run| == 1 {
      InitialInv(run[0]);
      p := 0;
    } else {
      var before := run[..|run| - 1];
      forall k | 0 <= k < |before| - 1
        ensures Next(before[k], before[k + 1])
      {
        assert Next(run[k], run[k + 1]);
      }
      p := RunInv(before);
      assert Next(run[|run| - 2], run[|run| - 2 + 1]);
      p := StepInv(run[|run| - 2], run[|run| - 1], p);
    }
  }

  /** Nobody has passed a barrier that somebody has not reached; somebody can always move; and between jobs,
      when nobody is waiting for the next one to start, the counter is 0. */
  ghost predicate Sound(s: State) {
    && |s.passed| == |s.status|
    && (forall i, j :: 0 <= i < |s.status| && 0 <= j < |s.status| ==> s.passed[i] <= Arrived(s, j))
    && (exists k :: 0 <= k < |s.status| && s.status[k] != Waiting)
    && ((forall k :: 0 <= k < |s.status| ==> s.status[k] == Running && s.passed[k] % 2 == 0) ==> s.count == 0)
  }

  lemma {:induction false} InvSound(s: State, p: nat)
    requires Inv(s, p)
    ensures Sound(s)
  {
    CountNone(s.status, Waiting);
    if forall k :: 0 <= k < |s.status| ==> s.status[k] == Waiting {
      CountAll(s.status, Waiting);
      assert false;
    }
  }

  /** So it is over any number of jobs. */
  lemma {:induction false} BarrierHolds(run: seq<State>)
    requires Run(run)
    ensures Sound(run[|run| - 1])
  {
    hide Inv, Sound;
    var p := RunInv(run);
    InvSound(run[|run| - 1], p);
  }

  /** Nobody waits forever for nothing: some participant can take a step. */
  lemma {:induction false} NeverStuck(run: seq<State>)
    requires Run(run)
    ensures var s := run[|run| - 1]; exists s': State :: Next(s, s')
  {
    var s := run[|run| - 1];
    var p := RunInv(run);
    InvSound(s, p);
    var i: nat :| i < |s.status| && s.status[i] != Waiting;
    if s.status[i] == Woken {
      var s' := s.(status := s.status[i := Running], passed := s.passed[i := s.passed[i] + 1]);
      assert Leave(s, s', i) && Next(s, s');
    } else {
      CanArrive(s, i);
    }
  }

  lemma {:induction false} CanArrive(s: State, i: nat)
    requires i < |s.status| == |s.passed| && s.status[i] == Running
    ensures exists s': State :: Next(s, s')
  {
    var last := if s.passed[i] % 2 == 0 then s.count >= |s.status| - 1 else s.count <= 0;
    var s' := if last then s.(status := WakeAll(s.status), passed := s.passed[i := s.passed[i] + 1])
      else s.(count := if s.passed[i] % 2 == 0 then s.count + 1 else s.count - 1, status := s.status[i := Waiting]);
    assert Arrive(s, s', i) && Next(s, s');
  }

  /** Two for every barrier passed and one for every participant inside one. */
  function Steps(s: State, n: nat): nat
    requires n <= |s.status| == |s.passed|
  {
    if n == 0 then 0 else Steps(s, n - 1) + 2 * s.passed[n - 1] + if s.status[n - 1] == Running then 0 else 1
  }

  lemma {:induction false} StepsGrow(s: State, s': State, i: nat, n: nat)
    requires |s.status| == |s.passed| == |s'.status| == |s'.passed| && n <= |s.status| && (Arrive(s, s', i) || Leave(s, s', i))
    ensures Steps(s', n) >= Steps(s, n) + if i < n then 1 else 0
    decreases n
  {
    if n > 0 {
      StepsGrow(s, s', i, n - 1);
    }
  }

  lemma {:induction false} StepsAtMost(s: State, p: nat, n: nat)
    requires Inv(s, p) && n <= |s.status|
    ensures Steps(s, n) <= n * (2 * p + 1)
    decreases n
  {
    if n > 0 {
      StepsAtMost(s, p, n - 1);
      assert n * (2 * p + 1) == (n - 1) * (2 * p + 1) + (2 * p + 1);
    }
  }

  lemma {:induction false} RunSteps(run: seq<State>) returns (p: nat)
    requires Run(run)
    ensures var s := run[|run| - 1]; Inv(s, p) && |s.status| == |run[0].status| && Steps(s, |s.status|) >= |run| - 1
    decreases |run|
  {
    hide Initial, Arrive, Leave, Steps;
    p := RunInv(run);
    if |run| > 1 {
      var before := run[..|run| - 1];
      forall k | 0 <= k < |before| - 1
        ensures Next(before[k], before[k + 1])
      {
        assert Next(run[k], run[k + 1]);
      }
      var q := RunSteps(before);
      var s, s' := run[|run| - 2], run[|run| - 2 + 1];
      assert Next(s, s');
      var i: nat :| Arrive(s, s', i) || Leave(s, s', i);
      SameParticipants(s, s', i);
      StepsGrow(s, s', i, |s.status|);
    }
  }

  lemma {:induction false} SameParticipants(s: State, s': State, i: nat)
    requires Arrive(s, s', i) || Leave(s, s', i)
    ensures i < |s.status| == |s.passed| == |s'.status| == |s'.passed|
  {
  }

  /** Whatever the order, after k steps of n participants everybody has passed at least (k / n - 3) / 2 barriers. */
  lemma {:induction false} EverybodyPasses(run: seq<State>, i: nat)
    requires Run(run) && i < |run[0].status|
    ensures var s, n := run[|run| - 1], |run[0].status|; i < |s.passed| && |run| - 1 <= n * (2 * s.passed[i] + 3)
  {
    hide Initial, Next, Steps;
    var p := RunSteps(run);
    var s, n := run[|run| - 1], |run[0].status|;
    StepsAtMost(s, p, n);
    assert p <= s.passed[i] + 1;
    assert n * (2 * p + 1) <= n * (2 * s.passed[i] + 3);
  }

  /** A wakeup without a broadcast. */
  ghost predicate Spurious(s: State, s': State, i: nat) {
    i < |s.status| && s.status[i] == Waiting && s' == s.(status := s.status[i := Woken])
  }

  /** The waits are not in loops, so with any number of participants one spurious wakeup of anybody but the last
      to arrive is enough to let it through while somebody has not arrived. */
  lemma {:induction false} SpuriousBreaks(s0: State, s1: State, s2: State, s3: State, i: nat, p: nat) returns (j: nat)
    requires Inv(s0, p) && Arrive(s0, s1, i) && s1.passed == s0.passed && Spurious(s1, s2, i) && Leave(s2, s3, i)
    ensures j < |s3.status| == |s3.passed| && s3.passed[i] == p + 1 > Arrived(s3, j)
  {
    CountUpdate(s0.status, i, Waiting, Waiting);
    if forall k :: 0 <= k < |s1.status| ==> s1.status[k] == Waiting {
      CountAll(s1.status, Waiting);
      assert false;
    }
    j :| 0 <= j < |s1.status| && s1.status[j] != Waiting;
  }

  /** It can come at the very first barrier, to whoever arrives first. */
  lemma {:induction false} FirstCanBreak(s0: State, i: nat) returns (s1: State, s2: State, s3: State)
    requires Initial(s0) && i < |s0.status|
    ensures Inv(s0, 0) && Arrive(s0, s1, i) && s1.passed == s0.passed && Spurious(s1, s2, i) && Leave(s2, s3, i)
  {
    InitialInv(s0);
    s1 := s0.(count := 1, status := s0.status[i := Waiting]);
    s2 := s1.(status := s1.status[i := Woken]);
    s3 := s2.(status := s2.status[i := Running], passed := s2.passed[i := 1]);
  }
}
