/** The older revision of the interval timer, src/ptScheduler_VMA.cpp.

    Its `call()` takes the same branches as the main revision, but writes
    `suspended` where the main revision writes `dormant`. It keeps no backup
    of the interval, has no `suspend()`, and its `deactivate()` only clears
    `activated`: a negative sentinel, once consumed, is gone for good. */
module SchedulerVma {
  import opened Clock

  /** The public fields of one task in this revision. */
  datatype Task = Task(
    entry: int,
    exit: int,
    elapsed: int,
    residue: int,
    interval: int,
    intervalCounter: nat,
    taskCounter: nat,
    activated: bool,
    started: bool,
    suspended: bool,
    ended: bool,
    running: bool)

  /** What one poll yields: the new fields and the fire/no-fire decision. */
  datatype Outcome = Outcome(task: Task, fired: bool)

  /** The operations a caller can apply to a task of this revision. */
  datatype Action =
    | DoCall(now: int)
    | DoActivate
    | DoDeactivate
    | DoSetInterval(value: int)

  /** What every reachable task satisfies: it has not been executed more
      often than intervals have begun, and `residue` is never written. */
  predicate Inv(t: Task) {
    t.taskCounter <= t.intervalCounter && t.residue == 0
  }

  /** A task as declared with interval `timeValue`. */
  function Initial(timeValue: int): (t: Task)
    ensures !t.started && t.ended && !t.running && !t.suspended
    ensures t.intervalCounter == 0 && t.taskCounter == 0
    ensures t.activated && t.interval == timeValue
    ensures t.entry == 0 && t.exit == 0 && t.elapsed == 0
    ensures Inv(t)
  {
    Task(entry := 0, exit := 0, elapsed := 0, residue := 0, interval := timeValue,
         intervalCounter := 0, taskCounter := 0, activated := true,
         started := false, suspended := false, ended := true, running := false)
  }

  /** One poll of `call()` at clock reading `now`. */
  function Poll(s: Task, now: int): (r: Outcome)
    // it fires exactly when it opens a cycle with a usable interval while activated
    ensures r.fired <==> !s.started && s.interval >= 0 && s.activated
    ensures r.task.running == r.fired
    ensures r.task.intervalCounter == s.intervalCounter + (if !s.started && s.interval >= 0 then 1 else 0)
    ensures r.task.taskCounter == s.taskCounter + (if r.fired then 1 else 0)
    // opening a cycle: the entry is now, a negative sentinel is consumed, and
    // the task is marked suspended unless it fired
    ensures !s.started ==> r.task.started && !r.task.ended && r.task.entry == now
    ensures !s.started ==> r.task.interval == Abs(s.interval) && r.task.exit == s.exit
    ensures !s.started ==> r.task.elapsed == s.elapsed
    ensures !s.started ==> (r.task.suspended <==> !r.fired)
    // waiting: the cycle closes exactly when a full interval has elapsed
    ensures s.started ==> r.task.entry == s.entry && r.task.interval == s.interval
    ensures s.started ==> r.task.elapsed == now - s.entry
    ensures s.started ==> (r.task.started <==> now - s.entry < s.interval)
    ensures s.started ==> (r.task.suspended <==> r.task.started)
    ensures s.started && now - s.entry >= s.interval ==> r.task.ended && r.task.exit == now
    ensures s.started && now - s.entry < s.interval ==> r.task.ended == s.ended && r.task.exit == s.exit
    // what a poll never touches
    ensures r.task.activated == s.activated && r.task.residue == s.residue
    ensures Inv(s) ==> Inv(r.task)
  {
    if !s.started then
      if s.interval < 0 then
        // deferred start: the first cycle is silent
        Outcome(s.(interval := Abs(s.interval), entry := now, started := true,
                   running := false, suspended := true, ended := false), false)
      else
        var begun := s.(entry := now, started := true, ended := false,
                        intervalCounter := s.intervalCounter + 1);
        if s.activated then
          Outcome(begun.(running := true, suspended := false, taskCounter := s.taskCounter + 1), true)
        else
          Outcome(begun.(running := false, suspended := true), false)
    else
      var elapsed := now - s.entry;
      if elapsed >= s.interval then
        Outcome(s.(elapsed := elapsed, started := false, running := false, suspended := false,
                   ended := true, exit := s.entry + elapsed), false)
      else
        Outcome(s.(elapsed := elapsed, running := false, suspended := true), false)
  }

  /** `activate()`: lets cycle starts fire again. */
  function AfterActivate(s: Task): (r: Task)
    ensures r.activated
    ensures r.(activated := s.activated) == s
    ensures Inv(s) ==> Inv(r)
  {
    s.(activated := true)
  }

  /** `deactivate()`: cycle starts keep counting intervals but do not fire;
      nothing but `activated` changes. */
  function AfterDeactivate(s: Task): (r: Task)
    ensures !r.activated
    ensures r.(activated := s.activated) == s
    ensures Inv(s) ==> Inv(r)
  {
    s.(activated := false)
  }

  /** `setInterval(timeValue)`: overwrites the interval. */
  function AfterSetInterval(s: Task, timeValue: int): (r: Task)
    ensures r.interval == timeValue
    ensures r.(interval := s.interval) == s
    ensures Inv(s) ==> Inv(r)
  {
    s.(interval := timeValue)
  }

  /** One operation applied to a task. */
  function Apply(s: Task, a: Action): (r: Task)
    ensures Inv(s) ==> Inv(r)
  {
    match a
    case DoCall(now) => Poll(s, now).task
    case DoActivate => AfterActivate(s)
    case DoDeactivate => AfterDeactivate(s)
    case DoSetInterval(v) => AfterSetInterval(s, v)
  }

  /** The task after applying `actions` in order. */
  function Replay(s: Task, actions: seq<Action>): Task
    decreases |actions|
  {
    if actions == [] then s else Replay(Apply(s, actions[0]), actions[1..])
  }

  /** Every operation keeps the invariant, so every task reachable from a
      declared one has `taskCounter <= intervalCounter`. */
  lemma {:induction false} InvReplay(s: Task, actions: seq<Action>)
    requires Inv(s)
    ensures Inv(Replay(s, actions))
    ensures Replay(s, actions).taskCounter <= Replay(s, actions).intervalCounter
    decreases |actions|
  {
    if actions != [] {
      InvReplay(Apply(s, actions[0]), actions[1..]);
    }
  }

  /** No operation other than `setInterval` changes a non-negative interval. */
  lemma {:induction false} IntervalStaysPut(s: Task, actions: seq<Action>)
    requires s.interval >= 0
    requires forall k :: 0 <= k < |actions| ==> !actions[k].DoSetInterval?
    ensures Replay(s, actions).interval == s.interval
    decreases |actions|
  {
    if actions != [] {
      assert Apply(s, actions[0]).interval == s.interval;
      IntervalStaysPut(Apply(s, actions[0]), actions[1..]);
    }
  }

  /** The negative sentinel is consumed for good: after the first poll of a
      declared task, and whatever polls, activations and deactivations follow,
      the interval is the magnitude of the declared one. */
  lemma SentinelConsumed(timeValue: int, now: int, actions: seq<Action>)
    requires forall k :: 0 <= k < |actions| ==> !actions[k].DoSetInterval?
    ensures Replay(Poll(Initial(timeValue), now).task, actions).interval == Abs(timeValue)
  {
    IntervalStaysPut(Poll(Initial(timeValue), now).task, actions);
  }

  /** A declared task with a non-negative interval fires on its first poll;
      one with a negative interval does not, and begins its deferral. */
  lemma FirstPoll(timeValue: int, now: int)
    ensures Poll(Initial(timeValue), now).fired <==> timeValue >= 0
    ensures timeValue < 0 ==> Poll(Initial(timeValue), now).task.suspended
  {
  }

  /** `activate()` and `deactivate()` are idempotent, and the later of the two wins. */
  lemma ActivationIdempotent(s: Task)
    ensures AfterActivate(AfterActivate(s)) == AfterActivate(s)
    ensures AfterDeactivate(AfterDeactivate(s)) == AfterDeactivate(s)
    ensures AfterActivate(AfterDeactivate(s)) == AfterActivate(s)
    ensures AfterDeactivate(AfterActivate(s)) == AfterDeactivate(s)
  {
  }

  /** One `ptScheduler` object of this revision. */
  class PtScheduler {
    var entry: int
    var exit: int
    var elapsed: int
    var residue: int
    var interval: int
    var intervalCounter: nat
    var taskCounter: nat
    var activated: bool
    var started: bool
    var suspended: bool
    var ended: bool
    var running: bool
    /** The latest clock reading handed to `Call`. */
    ghost var lastNow: int

    ghost function Snapshot(): Task
      reads this
    {
      Task(entry, exit, elapsed, residue, interval, intervalCounter, taskCounter,
           activated, started, suspended, ended, running)
    }

    ghost predicate Valid()
      reads this
    {
      Inv(Snapshot()) && 0 <= lastNow && entry <= lastNow
    }

    constructor (timeValue: int)
      ensures Valid() && Snapshot() == Initial(timeValue) && lastNow == 0
    {
      entry, exit, elapsed, residue := 0, 0, 0, 0;
      interval := timeValue;
      intervalCounter, taskCounter := 0, 0;
      activated := true;
      started, suspended, ended, running := false, false, true, false;
      lastNow := 0;
    }

    /** `call()`, with the clock reading passed in as `now`. */
    method Call(now: int) returns (fire: bool)
      requires Valid() && lastNow <= now
      modifies this
      ensures Valid() && lastNow == now
      ensures Outcome(Snapshot(), fire) == Poll(old(Snapshot()), now)
    {
      if !started {
        if interval < 0 {
          interval := Abs(interval);
          entry := now;
          started := true;
          running := false;
          suspended := true;
          ended := false;
          fire := false;
        } else {
          entry := now;
          started := true;
          ended := false;
          intervalCounter := intervalCounter + 1;
          if activated {
            running := true;
            suspended := false;
            taskCounter := taskCounter + 1;
            fire := true;
          } else {
            running := false;
            suspended := true;
            fire := false;
          }
        }
      } else {
        elapsed := now - entry;
        if elapsed >= interval {
          started := false;
          running := false;
          suspended := false;
          ended := true;
          exit := entry + elapsed;
          fire := false;
        } else {
          running := false;
          suspended := true;
          fire := false;
        }
      }
      lastNow := now;
    }

    method Activate()
      requires Valid()
      modifies this
      ensures Valid() && lastNow == old(lastNow)
      ensures Snapshot() == AfterActivate(old(Snapshot()))
    {
      activated := true;
    }

    method Deactivate()
      requires Valid()
      modifies this
      ensures Valid() && lastNow == old(lastNow)
      ensures Snapshot() == AfterDeactivate(old(Snapshot()))
    {
      activated := false;
    }

    method SetInterval(timeValue: int)
      requires Valid()
      modifies this
      ensures Valid() && lastNow == old(lastNow)
      ensures Snapshot() == AfterSetInterval(old(Snapshot()), timeValue)
    {
      interval := timeValue;
    }
  }
}
