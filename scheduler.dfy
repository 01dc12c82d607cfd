/** The interval timer of src/ptScheduler.cpp and src/ptScheduler.h.

    A task is polled by `call()`. When no cycle is open, the poll opens one and
    fires if the task is activated; when a cycle is open, the poll closes it
    once `interval` time units have passed since its entry. A negative interval
    is a one-time deferral: the first cycle runs silently for its magnitude.

    The public fields are captured by the value type `Task`; the transition
    functions below say what each operation does to it, and the class
    `PtScheduler` performs the same updates in place on its fields. */
module Scheduler {
  import opened Clock

  /** The public fields of one task (src/ptScheduler.h). The backup field
      `interval_` is called `intervalBackup` here. */
  datatype Task = Task(
    entry: int,
    exit: int,
    elapsed: int,
    residue: int,
    interval: int,
    intervalBackup: int,
    intervalCounter: nat,
    taskCounter: nat,
    activated: bool,
    started: bool,
    dormant: bool,
    suspended: bool,
    ended: bool,
    running: bool)

  /** What one poll yields: the new fields and the fire/no-fire decision. */
  datatype Outcome = Outcome(task: Task, fired: bool)

  /** The operations a caller can apply to a task, for reasoning about
      arbitrary sequences of them. */
  datatype Action =
    | DoCall(now: int)
    | DoActivate
    | DoSuspend
    | DoDeactivate
    | DoSetInterval(value: int)

  /** What every reachable task satisfies: the task has not been executed
      more often than intervals have begun, `residue` is never written, and
      the interval is either its backup or, once a negative sentinel has
      been consumed, the backup's magnitude. */
  predicate Inv(t: Task) {
    && t.taskCounter <= t.intervalCounter
    && t.residue == 0
    && (t.interval == t.intervalBackup || (t.intervalBackup < 0 && t.interval == -t.intervalBackup))
  }

  /** A task as declared with interval `timeValue`. */
  function Initial(timeValue: int): (t: Task)
    ensures !t.started && t.ended && !t.running && !t.dormant && !t.suspended
    ensures t.intervalCounter == 0 && t.taskCounter == 0
    ensures t.activated
    ensures t.interval == timeValue && t.intervalBackup == timeValue
    ensures t.entry == 0 && t.exit == 0 && t.elapsed == 0
    ensures Inv(t)
  {
    Task(entry := 0, exit := 0, elapsed := 0, residue := 0,
         interval := timeValue, intervalBackup := timeValue,
         intervalCounter := 0, taskCounter := 0,
         activated := true, started := false, dormant := false,
         suspended := false, ended := true, running := false)
  }

  /** One poll of `call()` at clock reading `now`. */
  function Poll(s: Task, now: int): (r: Outcome)
    // it fires exactly when it opens a cycle with a usable interval while activated
    ensures r.fired <==> !s.started && s.interval >= 0 && s.activated
    ensures r.task.running == r.fired
    // one more interval begins on every non-deferred cycle start; the task
    // counter follows the decision
    ensures r.task.intervalCounter == s.intervalCounter + (if !s.started && s.interval >= 0 then 1 else 0)
    ensures r.task.taskCounter == s.taskCounter + (if r.fired then 1 else 0)
    // opening a cycle: the entry is now, and a negative sentinel is consumed
    ensures !s.started ==> r.task.started && !r.task.ended && r.task.entry == now
    ensures !s.started ==> r.task.interval == Abs(s.interval) && r.task.exit == s.exit
    ensures !s.started ==> r.task.elapsed == s.elapsed
    ensures !s.started ==> (r.task.dormant <==> !r.fired)
    // waiting: the cycle closes exactly when a full interval has elapsed
    ensures s.started ==> r.task.entry == s.entry && r.task.interval == s.interval
    ensures s.started ==> r.task.elapsed == now - s.entry
    ensures s.started ==> (r.task.started <==> now - s.entry < s.interval)
    ensures s.started ==> (r.task.dormant <==> r.task.started)
    ensures s.started && now - s.entry >= s.interval ==> r.task.ended && r.task.exit == now
    ensures s.started && now - s.entry < s.interval ==> r.task.ended == s.ended && r.task.exit == s.exit
    // what a poll never touches
    ensures r.task.activated == s.activated && r.task.intervalBackup == s.intervalBackup
    ensures r.task.residue == s.residue && r.task.suspended == s.suspended
    ensures Inv(s) ==> Inv(r.task)
  {
    if !s.started then
      if s.interval < 0 then
        // deferred start: the first cycle is silent
        Outcome(s.(interval := Abs(s.interval), entry := now, started := true,
                   running := false, dormant := true, ended := false), false)
      else
        var begun := s.(entry := now, started := true, ended := false,
                         intervalCounter := s.intervalCounter + 1);
        if s.activated then
          Outcome(begun.(running := true, dormant := false, taskCounter := s.taskCounter + 1), true)
        else
          Outcome(begun.(running := false, dormant := true), false)
    else
      var elapsed := now - s.entry;
      if elapsed >= s.interval then
        Outcome(s.(elapsed := elapsed, started := false, running := false, dormant := false,
                   ended := true, exit := s.entry + elapsed), false)
      else
        Outcome(s.(elapsed := elapsed, running := false, dormant := true), false)
  }

  /** `activate()`: lets cycle starts fire again. */
  function AfterActivate(s: Task): (r: Task)
    ensures r.activated
    ensures r.(activated := s.activated) == s
    ensures Inv(s) ==> Inv(r)
  {
    s.(activated := true)
  }

  /** `suspend()`: cycle starts keep counting intervals but do not fire. */
  function AfterSuspend(s: Task): (r: Task)
    ensures !r.activated
    ensures r.(activated := s.activated) == s
    ensures Inv(s) ==> Inv(r)
  {
    s.(activated := false)
  }

  /** `deactivate()`: stops firing, zeroes both counters, restores the
      interval from its backup (re-arming a negative sentinel) and clears the
      entry; whether a cycle is open is left as it was. */
  function AfterDeactivate(s: Task): (r: Task)
    ensures !r.activated && r.taskCounter == 0 && r.intervalCounter == 0
    ensures r.interval == r.intervalBackup == s.intervalBackup && r.entry == 0
    ensures r.started == s.started && r.ended == s.ended && r.running == s.running && r.dormant == s.dormant
    ensures r.exit == s.exit && r.elapsed == s.elapsed && r.residue == s.residue && r.suspended == s.suspended
    ensures Inv(s) ==> Inv(r)
  {
    s.(activated := false, taskCounter := 0, intervalCounter := 0,
       interval := s.intervalBackup, entry := 0)
  }

  /** `setInterval(timeValue)`: writes the interval and its backup. */
  function AfterSetInterval(s: Task, timeValue: int): (r: Task)
    ensures r.interval == timeValue && r.intervalBackup == timeValue
    ensures r.(interval := s.interval, intervalBackup := s.intervalBackup) == s
    ensures Inv(s) ==> Inv(r)
  {
    s.(interval := timeValue, intervalBackup := timeValue)
  }

  /** One operation applied to a task. */
  function Apply(s: Task, a: Action): (r: Task)
    ensures Inv(s) ==> Inv(r)
  {
    match a
    case DoCall(now) => Poll(s, now).task
    case DoActivate => AfterActivate(s)
    case DoSuspend => AfterSuspend(s)
    case DoDeactivate => AfterDeactivate(s)
    case DoSetInterval(v) => AfterSetInterval(s, v)
  }

  /** The task after applying `actions` in order. */
  function Replay(s: Task, actions: seq<Action>): Task
    decreases |actions|
  {
    if actions == [] then s else Replay(Apply(s, actions[0]), actions[1..])
  }

  /** The decisions of successive polls at the clock readings `times`. */
  function Fires(s: Task, times: seq<int>): (r: seq<bool>)
    ensures |r| == |times|
    decreases |times|
  {
    if times == [] then []
    else
      var o := Poll(s, times[0]);
      [o.fired] + Fires(o.task, times[1..])
  }

  /** The task after successive polls at the clock readings `times`. */
  function AfterPolls(s: Task, times: seq<int>): Task
    decreases |times|
  {
    if times == [] then s else AfterPolls(Poll(s, times[0]).task, times[1..])
  }

  /** How many polls fired. */
  function CountFired(fires: seq<bool>): nat
    decreases |fires|
  {
    if fires == [] then 0 else (if fires[0] then 1 else 0) + CountFired(fires[1..])
  }

  /** Every task reachable from a declared one, by any sequence of
      operations, satisfies the invariant; in particular it has never been
      executed more often than intervals have begun. */
  lemma {:induction false} InvAlways(timeValue: int, actions: seq<Action>)
    ensures Inv(Replay(Initial(timeValue), actions))
    ensures Replay(Initial(timeValue), actions).taskCounter <= Replay(Initial(timeValue), actions).intervalCounter
  {
    InvReplay(Initial(timeValue), actions);
  }

  lemma {:induction false} InvReplay(s: Task, actions: seq<Action>)
    requires Inv(s)
    ensures Inv(Replay(s, actions))
    decreases |actions|
  {
    if actions != [] {
      InvReplay(Apply(s, actions[0]), actions[1..]);
    }
  }

  /** Polling leaves a non-negative interval as it is. */
  lemma PollKeepsInterval(s: Task, now: int)
    requires s.interval >= 0
    ensures Poll(s, now).task.interval == s.interval
  {
  }

  /** After a fire at some earlier time `anchor`, no poll at the readings
      `times` fires before `anchor + interval`: either the cycle opened at or
      after `anchor` is still open, or the readings are already that late. */
  lemma {:induction false} NoFireBefore(s: Task, times: seq<int>, anchor: int)
    requires s.interval >= 0 && NonDecreasing(times)
    requires s.started ==> anchor <= s.entry
    requires !s.started && times != [] ==> anchor + s.interval <= times[0]
    ensures forall k :: 0 <= k < |times| && Fires(s, times)[k] ==> anchor + s.interval <= times[k]
    decreases |times|
  {
    if times != [] {
      var o := Poll(s, times[0]);
      assert Fires(s, times) == [o.fired] + Fires(o.task, times[1..]);
      if s.started && o.task.started {
        PollKeepsInterval(s, times[0]);
        assert NonDecreasing(times[1..]);
        NoFireBefore(o.task, times[1..], anchor);
        forall k | 0 < k < |times| && Fires(s, times)[k]
          ensures anchor + s.interval <= times[k]
        {
          assert Fires(o.task, times[1..])[k - 1];
        }
      } else {
        // no cycle is open after this poll, and it is at least `anchor + interval`
        assert anchor + s.interval <= times[0];
      }
    }
  }

  /** Two polls that both fire, under a fixed non-negative interval and a
      clock that does not go backwards, are at least one interval apart. */
  lemma {:induction false} FiresAreSpaced(s: Task, times: seq<int>, i: nat, j: nat)
    requires s.interval >= 0 && NonDecreasing(times)
    requires i < j < |times|
    requires Fires(s, times)[i] && Fires(s, times)[j]
    ensures times[i] + s.interval <= times[j]
    decreases i
  {
    var o := Poll(s, times[0]);
    assert Fires(s, times) == [o.fired] + Fires(o.task, times[1..]);
    PollKeepsInterval(s, times[0]);
    assert NonDecreasing(times[1..]);
    assert Fires(o.task, times[1..])[j - 1];
    if i == 0 {
      NoFireBefore(o.task, times[1..], times[0]);
    } else {
      FiresAreSpaced(o.task, times[1..], i - 1, j - 1);
    }
  }

  /** `taskCounter` is how many times the task was executed: over any run
      of polls it grows by exactly the number of polls that fired. */
  lemma {:induction false} TaskCounterCountsFires(s: Task, times: seq<int>)
    ensures AfterPolls(s, times).taskCounter == s.taskCounter + CountFired(Fires(s, times))
    decreases |times|
  {
    if times != [] {
      var o := Poll(s, times[0]);
      assert Fires(s, times) == [o.fired] + Fires(o.task, times[1..]);
      assert Fires(s, times)[1..] == Fires(o.task, times[1..]);
      TaskCounterCountsFires(o.task, times[1..]);
    }
  }

  /** A declared task with a non-negative interval fires on its first poll;
      one with a negative interval does not, and begins its deferral. */
  lemma FirstPoll(timeValue: int, now: int)
    ensures Poll(Initial(timeValue), now).fired <==> timeValue >= 0
    ensures timeValue < 0 ==> Poll(Initial(timeValue), now).task.interval == -timeValue
  {
  }

  /** A declared task with a negative interval is postponed until that
      interval has passed for the first time: no poll fires before the first
      poll's reading plus the magnitude of the declared interval. */
  lemma {:induction false} DeferralIsSilent(timeValue: int, times: seq<int>)
    requires timeValue < 0 && times != [] && NonDecreasing(times)
    ensures forall k :: 0 <= k < |times| && Fires(Initial(timeValue), times)[k] ==> times[0] - timeValue <= times[k]
  {
    var o := Poll(Initial(timeValue), times[0]);
    assert Fires(Initial(timeValue), times) == [o.fired] + Fires(o.task, times[1..]);
    assert NonDecreasing(times[1..]);
    NoFireBefore(o.task, times[1..], times[0]);
    forall k | 0 < k < |times| && Fires(Initial(timeValue), times)[k]
      ensures times[0] - timeValue <= times[k]
    {
      assert Fires(o.task, times[1..])[k - 1];
    }
  }

  /** `deactivate()` re-arms a negative sentinel: once the open cycle is
      closed, the next poll defers again instead of firing, even when the
      task has been activated in between. */
  lemma DeactivateRearmsDeferral(s: Task, now: int)
    requires Inv(s) && s.intervalBackup < 0 && !s.started
    ensures !Poll(AfterActivate(AfterDeactivate(s)), now).fired
    ensures Poll(AfterActivate(AfterDeactivate(s)), now).task.interval == -s.intervalBackup
  {
  }

  /** `deactivate()` during an open cycle: the restored negative interval
      makes the next poll close the cycle without firing, and the poll after
      that defers again, even when the task has been activated in between. */
  lemma DeactivateRearmsDeferralInCycle(s: Task, now1: int, now2: int)
    requires Inv(s) && s.intervalBackup < 0 && s.started && 0 <= now1
    ensures !Poll(AfterActivate(AfterDeactivate(s)), now1).fired
    ensures !Poll(AfterActivate(AfterDeactivate(s)), now1).task.started
    ensures !Poll(Poll(AfterActivate(AfterDeactivate(s)), now1).task, now2).fired
    ensures Poll(Poll(AfterActivate(AfterDeactivate(s)), now1).task, now2).task.interval == -s.intervalBackup
  {
  }

  /** An activated task with a non-negative interval fires again: in a run of
      polls under a non-decreasing clock, if some poll other than the last is
      at least one interval after the open cycle's entry, some poll fires. The
      fire comes on the poll after the one that closes the cycle. */
  lemma {:induction false} FiresAgain(s: Task, times: seq<int>)
    requires s.activated && s.interval >= 0 && NonDecreasing(times)
    requires |times| >= 2 && (s.started ==> s.entry + s.interval <= times[|times| - 2])
    ensures true in Fires(s, times)
    decreases |times|
  {
    var o := Poll(s, times[0]);
    assert Fires(s, times) == [o.fired] + Fires(o.task, times[1..]);
    PollKeepsInterval(s, times[0]);
    if !s.started {
      assert Fires(s, times)[0];
    } else if times[0] - s.entry >= s.interval {
      // the first poll closes the cycle, so the second opens one and fires
      assert Poll(o.task, times[1]).fired;
      assert Fires(o.task, times[1..])[0];
      assert Fires(s, times)[1];
    } else {
      assert |times| >= 3;
      assert NonDecreasing(times[1..]);
      assert times[1..][|times| - 3] == times[|times| - 2];
      FiresAgain(o.task, times[1..]);
      var k :| 0 <= k < |Fires(o.task, times[1..])| && Fires(o.task, times[1..])[k];
      assert Fires(s, times)[k + 1];
    }
  }

  /** With interval 1000 polled at 0, 1000 and 2000, the task fires at 0,
      closes its cycle at 1000, and fires again at 2000: the period is the
      interval plus the gap to the next poll. */
  lemma PeriodIncludesOnePollGap()
    ensures Fires(Initial(1000), [0, 1000, 2000]) == [true, false, true]
  {
    var s1 := Poll(Initial(1000), 0).task;
    var s2 := Poll(s1, 1000).task;
    assert [1000, 2000][1..] == [2000];
    assert [0, 1000, 2000][1..] == [1000, 2000];
    assert Fires(s2, [2000]) == [true] + Fires(Poll(s2, 2000).task, []);
  }

  /** `activate()` and `suspend()` are idempotent, and the later of the two wins. */
  lemma ActivationIdempotent(s: Task)
    ensures AfterActivate(AfterActivate(s)) == AfterActivate(s)
    ensures AfterSuspend(AfterSuspend(s)) == AfterSuspend(s)
    ensures AfterActivate(AfterSuspend(s)) == AfterActivate(s)
    ensures AfterSuspend(AfterActivate(s)) == AfterSuspend(s)
  {
  }

  /** One `ptScheduler` object; its fields are those of src/ptScheduler.h. */
  class PtScheduler {
    var entry: int
    var exit: int
    var elapsed: int
    var residue: int
    var interval: int
    var intervalBackup: int
    var intervalCounter: nat
    var taskCounter: nat
    var activated: bool
    var started: bool
    var dormant: bool
    var suspended: bool
    var ended: bool
    var running: bool
    /** The latest clock reading handed to `Call`. */
    ghost var lastNow: int

    ghost function Snapshot(): Task
      reads this
    {
      Task(entry, exit, elapsed, residue, interval, intervalBackup,
           intervalCounter, taskCounter, activated, started, dormant,
           suspended, ended, running)
    }

    ghost predicate Valid()
      reads this
    {
      Inv(Snapshot()) && 0 <= lastNow && entry <= lastNow
    }

    constructor (timeValue: int)
      ensures Valid() && Snapshot() == Initial(timeValue) && lastNow == 0
    {
      entry, exit, elapsed, residue := 0, 0, 0, 0;
      interval := timeValue;
      intervalBackup := timeValue;
      intervalCounter, taskCounter := 0, 0;
      activated := true;
      started, dormant, suspended, ended, running := false, false, false, true, false;
      lastNow := 0;
    }

    /** `call()`, with the clock reading passed in as `now`. */
    method Call(now: int) returns (fire: bool)
      requires Valid() && lastNow <= now
      modifies this
      ensures Valid() && lastNow == now
      ensures Outcome(Snapshot(), fire) == Poll(old(Snapshot()), now)
    {
      if !started {
        if interval < 0 {
          interval := Abs(interval);
          entry := now;
          started := true;
          running := false;
          dormant := true;
          ended := false;
          fire := false;
        } else {
          entry := now;
          started := true;
          ended := false;
          intervalCounter := intervalCounter + 1;
          if activated {
            running := true;
            dormant := false;
            taskCounter := taskCounter + 1;
            fire := true;
          } else {
            running := false;
            dormant := true;
            fire := false;
          }
        }
      } else {
        elapsed := now - entry;
        if elapsed >= interval {
          started := false;
          running := false;
          dormant := false;
          ended := true;
          exit := entry + elapsed;
          fire := false;
        } else {
          running := false;
          dormant := true;
          fire := false;
        }
      }
      lastNow := now;
    }

    method Activate()
      requires Valid()
      modifies this
      ensures Valid() && lastNow == old(lastNow)
      ensures Snapshot() == AfterActivate(old(Snapshot()))
    {
      activated := true;
    }

    method Suspend()
      requires Valid()
      modifies this
      ensures Valid() && lastNow == old(lastNow)
      ensures Snapshot() == AfterSuspend(old(Snapshot()))
    {
      activated := false;
    }

    method Deactivate()
      requires Valid()
      modifies this
      ensures Valid() && lastNow == old(lastNow)
      ensures Snapshot() == AfterDeactivate(old(Snapshot()))
    {
      activated := false;
      taskCounter := 0;
      intervalCounter := 0;
      interval := intervalBackup;
      entry := 0;
    }

    method SetInterval(timeValue: int)
      requires Valid()
      modifies this
      ensures Valid() && lastNow == old(lastNow)
      ensures Snapshot() == AfterSetInterval(old(Snapshot()), timeValue)
    {
      interval := timeValue;
      intervalBackup := timeValue;
    }
  }
}
