// pthread_cond_wait and pthread_cond_broadcast of blosc/win32/pthread.c: a condition variable made of a
// semaphore and an auto-reset event, for any number of threads. A broadcast wakes exactly the threads that
// were waiting when it began, and nothing else ever wakes one.

module Win32Cond {
  import opened Counting

  /** Where a thread stands. Entering adds it to the waiters; it then leaves the mutex and sleeps on the
      semaphore; after its token it removes itself; the last one notifies the broadcaster; all take the mutex
      again. A broadcaster releases the tokens, sleeps on the event and resets the flag. */
  datatype Status = Outside | Entered | Sleeping | Taken | Notifying | Rejoining | Broadcasting | Resetting

  /** The fields of the condition variable and its kernel objects, the external mutex, the threads; and, as
      history, who was waiting when the last broadcast began. */
  datatype State = State(
    threads: seq<Status>, owner: int, waiters: nat, wasBroadcast: bool, sema: nat, event: bool, present: set<nat>)

  ghost predicate Initial(s: State) {
    && (forall i :: 0 <= i < |s.threads| ==> s.threads[i] == Outside)
    && s.owner == -1 && s.waiters == 0 && !s.wasBroadcast && s.sema == 0 && !s.event && s.present == {}
  }

  function Set(s: State, i: nat, t: Status): State
    requires i < |s.threads|
  {
    s.(threads := s.threads[i := t])
  }

  // ----- the steps; waiters_lock makes each of them atomic -----

  /** Outside the condition variable, threads take and leave the mutex as they like. */
  ghost predicate Lock(s: State, s': State, i: nat) {
    i < |s.threads| && s.threads[i] == Outside && s.owner == -1 && s' == s.(owner := i)
  }

  ghost predicate Unlock(s: State, s': State, i: nat) {
    i < |s.threads| && s.threads[i] == Outside && s.owner == i && s' == s.(owner := -1)
  }

  /** pthread_cond_wait, with the mutex held. */
  ghost predicate Enter(s: State, s': State, i: nat) {
    i < |s.threads| && s.threads[i] == Outside && s.owner == i && s' == Set(s, i, Entered).(waiters := s.waiters + 1)
  }

  ghost predicate Sleep(s: State, s': State, i: nat) {
    i < |s.threads| && s.threads[i] == Entered && s.owner == i && s' == Set(s, i, Sleeping).(owner := -1)
  }

  ghost predicate Take(s: State, s': State, i: nat) {
    i < |s.threads| && s.threads[i] == Sleeping && s.sema > 0 && s' == Set(s, i, Taken).(sema := s.sema - 1)
  }

  ghost predicate Remove(s: State, s': State, i: nat) {
    && i < |s.threads| && s.threads[i] == Taken && s.waiters > 0
    && s' == Set(s, i, if s.wasBroadcast && s.waiters == 1 then Notifying else Rejoining).(waiters := s.waiters - 1)
  }

  ghost predicate Notify(s: State, s': State, i: nat) {
    i < |s.threads| && s.threads[i] == Notifying && s' == Set(s, i, Rejoining).(event := true)
  }

  ghost predicate Rejoin(s: State, s': State, i: nat) {
    i < |s.threads| && s.threads[i] == Rejoining && s.owner == -1 && s' == Set(s, i, Outside).(owner := i)
  }

  /** The set of threads asleep. */
  function Sleepers(threads: seq<Status>): (r: set<nat>)
    ensures forall i: nat :: i in r <==> i < |threads| && threads[i] == Sleeping
  {
    set i: nat | i < |threads| && threads[i] == Sleeping
  }

  /** pthread_cond_broadcast, with the mutex held; without waiters it has no effect. */
  ghost predicate Broadcast(s: State, s': State, i: nat) {
    && i < |s.threads| && s.threads[i] == Outside && s.owner == i
    && if s.waiters > 0 then
         s' == Set(s, i, Broadcasting).(wasBroadcast := true, sema := s.sema + s.waiters, present := Sleepers(s.threads))
       else s' == s.(wasBroadcast := false, present := {})
  }

  ghost predicate Continue(s: State, s': State, i: nat) {
    i < |s.threads| && s.threads[i] == Broadcasting && s.event && s' == Set(s, i, Resetting).(event := false)
  }

  ghost predicate Return(s: State, s': State, i: nat) {
    i < |s.threads| && s.threads[i] == Resetting && s' == Set(s, i, Outside).(wasBroadcast := false)
  }

  ghost predicate StepOf(s: State, s': State, i: nat) {
    || Lock(s, s', i) || Unlock(s, s', i) || Enter(s, s', i) || Sleep(s, s', i) || Take(s, s', i) || Remove(s, s', i)
    || Notify(s, s', i) || Rejoin(s, s', i) || Broadcast(s, s', i) || Continue(s, s', i) || Return(s, s', i)
  }

  ghost predicate Next(s: State, s': State) {
    exists i: nat :: StepOf(s, s', i)
  }

  // ----- the invariant -----

  /** The mutex belongs to the one thread that is between its calls. */
  ghost predicate MutexOk(s: State) {
    && -1 <= s.owner < |s.threads|
    && (forall i :: 0 <= i < |s.threads| && (s.threads[i] == Entered || s.threads[i] == Broadcasting || s.threads[i] == Resetting) ==> s.owner == i)
    && (s.owner >= 0 ==> s.threads[s.owner] in {Outside, Entered, Broadcasting, Resetting})
  }

  function Waiting(s: State): nat {
    Count(s.threads, Entered) + Count(s.threads, Sleeping) + Count(s.threads, Taken)
  }

  /** Tokens, waiters and the event. Without a broadcast under way there is no token and nobody holds one. During
      one there is a token for every sleeper, and exactly one of: somebody still has to leave, the last one is
      about to notify, the event is set. Before the flag is reset nobody is left. */
  ghost predicate TokensOk(s: State) {
    && s.waiters == Waiting(s)
    && var taken, notifying := Count(s.threads, Taken), Count(s.threads, Notifying);
    if s.owner >= 0 && s.owner < |s.threads| && s.threads[s.owner] == Broadcasting then
      && s.wasBroadcast && s.sema == Count(s.threads, Sleeping)
      && (if s.event then 1 else 0) + notifying + (if s.waiters > 0 then 1 else 0) == 1
    else if s.owner >= 0 && s.owner < |s.threads| && s.threads[s.owner] == Resetting then
      s.waiters == 0 && s.sema == 0 && notifying == 0 && !s.event
    else
      !s.wasBroadcast && s.sema == 0 && taken == 0 && notifying == 0 && !s.event
  }

  /** During a broadcast the threads that still sleep or are on their way out are among those present at its start. */
  ghost predicate PresentOk(s: State) {
    && (forall t: nat :: t in s.present ==> t < |s.threads|)
    && (s.owner >= 0 && s.owner < |s.threads| && s.threads[s.owner] in {Broadcasting, Resetting} ==>
      forall t: nat :: t < |s.threads| ==>
        && (s.threads[t] in {Sleeping, Taken, Notifying} ==> t in s.present)
        && (t in s.present ==> s.threads[t] in {Sleeping, Taken, Notifying, Rejoining}))
  }

  ghost predicate Inv(s: State) {
    MutexOk(s) && TokensOk(s) && PresentOk(s)
  }

  lemma {:induction false} InitialInv(s: State)
    requires Initial(s)
    ensures Inv(s)
  {
    CountNone(s.threads, Entered);
    CountNone(s.threads, Sleeping);
    CountNone(s.threads, Taken);
    CountNone(s.threads, Notifying);
  }

  /** All counts after one thread has moved on. */
  lemma {:induction false} Counts(s: seq<Status>, i: nat, t: Status)
    requires i < |s|
    ensures Count(s[i := t], Entered) == Count(s, Entered) - (if s[i] == Entered then 1 else 0) + (if t == Entered then 1 else 0)
    ensures Count(s[i := t], Sleeping) == Count(s, Sleeping) - (if s[i] == Sleeping then 1 else 0) + (if t == Sleeping then 1 else 0)
    ensures Count(s[i := t], Taken) == Count(s, Taken) - (if s[i] == Taken then 1 else 0) + (if t == Taken then 1 else 0)
    ensures Count(s[i := t], Notifying) == Count(s, Notifying) - (if s[i] == Notifying then 1 else 0) + (if t == Notifying then 1 else 0)
  {
    CountUpdate(s, i, t, Entered);
    CountUpdate(s, i, t, Sleeping);
    CountUpdate(s, i, t, Taken);
    CountUpdate(s, i, t, Notifying);
  }

  /** Somebody in a state is counted. */
  lemma {:induction false} Counted(s: seq<Status>, i: nat)
    requires i < |s|
    ensures Count(s, s[i]) > 0
  {
    CountNone(s, s[i]);
  }

  lemma {:induction false} LockInv(s: State, s': State, i: nat)
    requires Inv(s) && (Lock(s, s', i) || Unlock(s, s', i))
    ensures Inv(s')
  {
  }

  lemma {:induction false} EnterInv(s: State, s': State, i: nat)
    requires Inv(s) && (Enter(s, s', i) || Sleep(s, s', i))
    ensures Inv(s')
  {
    Counts(s.threads, i, s'.threads[i]);
  }

  lemma {:induction false} TakeInv(s: State, s': State, i: nat)
    requires Inv(s) && Take(s, s', i)
    ensures Inv(s')
  {
    Counts(s.threads, i, Taken);
    Counted(s.threads, i);
  }

  lemma {:induction false} RemoveInv(s: State, s': State, i: nat)
    requires Inv(s) && Remove(s, s', i)
    ensures Inv(s')
  {
    Counts(s.threads, i, s'.threads[i]);
    Counted(s.threads, i);
  }

  lemma {:induction false} NotifyInv(s: State, s': State, i: nat)
    requires Inv(s) && Notify(s, s', i)
    ensures Inv(s')
  {
    Counts(s.threads, i, Rejoining);
    Counted(s.threads, i);
  }

  lemma {:induction false} RejoinInv(s: State, s': State, i: nat)
    requires Inv(s) && Rejoin(s, s', i)
    ensures Inv(s')
  {
    Counts(s.threads, i, Outside);
  }

  /** With the mutex held by the broadcaster all waiters are asleep. */
  lemma {:induction false} BroadcastInv(s: State, s': State, i: nat)
    requires Inv(s) && Broadcast(s, s', i)
    ensures Inv(s')
  {
    CountNone(s.threads, Entered);
    CountNone(s.threads, Taken);
    CountNone(s.threads, Notifying);
    if s.waiters > 0 {
      Counts(s.threads, i, Broadcasting);
    }
  }

  lemma {:induction false} ContinueInv(s: State, s': State, i: nat)
    requires Inv(s) && Continue(s, s', i)
    ensures Inv(s')
  {
    Counts(s.threads, i, Resetting);
  }

  lemma {:induction false} ReturnInv(s: State, s': State, i: nat)
    requires Inv(s) && Return(s, s', i)
    ensures Inv(s')
  {
    Counts(s.threads, i, Outside);
  }

  lemma {:induction false} StepInv(s: State, s': State)
    requires Inv(s) && Next(s, s')
    ensures Inv(s')
  {
    hide Inv, Lock, Unlock, Enter, Sleep, Take, Remove, Notify, Rejoin, Broadcast, Continue, Return;
    var i: nat :| StepOf(s, s', i);
    if Lock(s, s', i) || Unlock(s, s', i) {
      LockInv(s, s', i);
    } else if Enter(s, s', i) || Sleep(s, s', i) {
      EnterInv(s, s', i);
    } else if Take(s, s', i) {
      TakeInv(s, s', i);
    } else if Remove(s, s', i) {
      RemoveInv(s, s', i);
    } else if Notify(s, s', i) {
      NotifyInv(s, s', i);
    } else if Rejoin(s, s', i) {
      RejoinInv(s, s', i);
    } else if Broadcast(s, s', i) {
      BroadcastInv(s, s', i);
    } else if Continue(s, s', i) {
      ContinueInv(s, s', i);
    } else {
      ReturnInv(s, s', i);
    }
  }

  ghost predicate Run(run: seq<State>) {
    && run != [] && Initial(run[0]) && forall k :: 0 <= k < |run| - 1 ==> Next(run[k], run[k + 1])
  }

  lemma {:induction false} RunInv(run: seq<State>)
    requires Run(run)
    ensures Inv(run[|run| - 1])
    decreases |run|
  {
    hide Inv, Initial, Next;
    if |run| == 1 {
      InitialInv(run[0]);
    } else {
      var before := run[..|run| - 1];
      forall k | 0 <= k < |before| - 1
        ensures Next(before[k], before[k + 1])
      {
        assert Next(run[k], run[k + 1]);
      }
      RunInv(before);
      assert Next(run[|run| - 2], run[|run| - 2 + 1]);
      StepInv(run[|run| - 2], run[|run| - 1]);
    }
  }

  /** In every run, when a broadcast returns, the semaphore is at 0, nobody waits or holds a token, and every
      thread that was waiting at its start has been woken and stands before the mutex. */
  lemma {:induction false} BroadcastReturns(run: seq<State>, s': State, i: nat)
    requires Run(run) && Return(run[|run| - 1], s', i)
    ensures s'.sema == 0 && s'.waiters == 0 && !s'.event && !s'.wasBroadcast && s'.owner == i
    ensures forall t: nat :: t < |s'.threads| ==> s'.threads[t] != Sleeping && s'.threads[t] != Taken && s'.threads[t] != Notifying
    ensures forall t: nat :: t in s'.present ==> t < |s'.threads| && s'.threads[t] == Rejoining
  {
    RunInv(run);
    var s := run[|run| - 1];
    CountNone(s.threads, Sleeping);
    CountNone(s.threads, Taken);
    CountNone(s.threads, Notifying);
  }

  /** In every run a sleeper only gets a token while a broadcast that began after it fell asleep is under way:
      there are no spurious wakeups. */
  lemma {:induction false} NoSpuriousWakeups(run: seq<State>, s': State, i: nat)
    requires Run(run) && Take(run[|run| - 1], s', i)
    ensures var s := run[|run| - 1];
      0 <= s.owner < |s.threads| && s.threads[s.owner] == Broadcasting && i in s.present
  {
    RunInv(run);
  }

  /** A broadcast begun while somebody waits has a token for everybody asleep, who are all that wait. */
  lemma {:induction false} BroadcastReleases(run: seq<State>, s': State, i: nat)
    requires Run(run) && Broadcast(run[|run| - 1], s', i)
    ensures var s := run[|run| - 1];
      if Sleepers(s.threads) == {} then s'.threads == s.threads && s'.sema == 0
      else s'.threads == s.threads[i := Broadcasting] && s'.present == Sleepers(s.threads) && s'.sema == Count(s.threads, Sleeping) == s'.waiters > 0
  {
    RunInv(run);
    var s := run[|run| - 1];
    CountNone(s.threads, Entered);
    CountNone(s.threads, Sleeping);
    CountNone(s.threads, Taken);
    if Sleepers(s.threads) == {} {
      forall k | 0 <= k < |s.threads| ensures s.threads[k] != Sleeping {
        assert k !in Sleepers(s.threads);
      }
    } else {
      var k: nat :| k in Sleepers(s.threads);
    }
  }

  /** What a thread needs for a step: the mutex, a token or the event may be missing, nothing else. */
  predicate Ready(s: State, i: nat)
    requires i < |s.threads|
  {
    match s.threads[i]
    case Outside => s.owner == -1 || s.owner == i
    case Sleeping => s.sema > 0
    case Rejoining => s.owner == -1
    case Broadcasting => s.event
    case _ => true
  }

  /** Then it has one that neither begins to wait nor to broadcast. */
  lemma {:induction false} Moves(s: State, i: nat) returns (s': State)
    requires Inv(s) && i < |s.threads| && Ready(s, i)
    ensures Lock(s, s', i) || Unlock(s, s', i) || Sleep(s, s', i) || Take(s, s', i) || Remove(s, s', i) || Notify(s, s', i)
      || Rejoin(s, s', i) || Continue(s, s', i) || Return(s, s', i)
  {
    Counted(s.threads, i);
    s' := match s.threads[i]
      case Outside => if s.owner == -1 then s.(owner := i) else s.(owner := -1)
      case Entered => Set(s, i, Sleeping).(owner := -1)
      case Sleeping => Set(s, i, Taken).(sema := s.sema - 1)
      case Taken => Set(s, i, if s.wasBroadcast && s.waiters == 1 then Notifying else Rejoining).(waiters := s.waiters - 1)
      case Notifying => Set(s, i, Rejoining).(event := true)
      case Rejoining => Set(s, i, Outside).(owner := i)
      case Broadcasting => Set(s, i, Resetting).(event := false)
      case Resetting => Set(s, i, Outside).(wasBroadcast := false);
  }

  lemma {:induction false} CanStep(s: State, i: nat)
    requires Inv(s) && i < |s.threads|
    ensures (exists s': State :: StepOf(s, s', i)) <==> Ready(s, i)
  {
    if Ready(s, i) {
      var s' := Moves(s, i);
      assert StepOf(s, s', i);
    }
  }

  /** Somebody can always take a step, unless all are asleep. */
  lemma {:induction false} SomebodyReady(s: State) returns (i: nat)
    requires Inv(s)
    requires exists k: nat :: k < |s.threads| && s.threads[k] != Sleeping
    ensures i < |s.threads| && Ready(s, i)
  {
    i := 0;
    if s.owner >= 0 && s.threads[s.owner] != Broadcasting {
      i := s.owner;
    } else if s.owner >= 0 {
      SomebodyLeaves(s);
      if s.event {
        i := s.owner;
      } else {
        i :| i < |s.threads| && (s.threads[i] == Notifying || s.threads[i] == Taken || (s.threads[i] == Sleeping && s.sema > 0));
      }
    } else {
      i :| i < |s.threads| && s.threads[i] != Sleeping;
    }
  }

  lemma {:induction false} NeverStuck(run: seq<State>)
    requires Run(run)
    ensures var s := run[|run| - 1]; (exists s': State :: Next(s, s')) || forall k :: 0 <= k < |s.threads| ==> s.threads[k] == Sleeping
  {
    hide StepOf, Inv, Ready;
    RunInv(run);
    var s := run[|run| - 1];
    if k: nat :| k < |s.threads| && s.threads[k] != Sleeping {
      var i := SomebodyReady(s);
      CanStep(s, i);
      var s' :| StepOf(s, s', i);
      assert Next(s, s');
    }
  }

  /** A broadcast that has begun can always go on: some thread that it waits for, or itself, has a step to take. */
  lemma {:induction false} BroadcastProgresses(run: seq<State>)
    requires Run(run) && 0 <= run[|run| - 1].owner < |run[|run| - 1].threads|
    requires run[|run| - 1].threads[run[|run| - 1].owner] == Broadcasting
    ensures var s := run[|run| - 1];
      s.event || (exists t: nat :: t < |s.threads| && (s.threads[t] == Notifying || s.threads[t] == Taken || (s.threads[t] == Sleeping && s.sema > 0)))
  {
    RunInv(run);
    SomebodyLeaves(run[|run| - 1]);
  }

  lemma {:induction false} SomebodyLeaves(s: State)
    requires Inv(s) && 0 <= s.owner < |s.threads| && s.threads[s.owner] == Broadcasting
    ensures s.event || (exists t: nat :: t < |s.threads| && (s.threads[t] == Notifying || s.threads[t] == Taken || (s.threads[t] == Sleeping && s.sema > 0)))
  {
    CountNone(s.threads, Entered);
    CountNone(s.threads, Sleeping);
    CountNone(s.threads, Taken);
    CountNone(s.threads, Notifying);
  }
}
