# ptScheduler: a verified model of the cooperative interval timer

ptScheduler ("Pretty tiny Scheduler") lets an Arduino main loop run periodic
tasks without blocking delays. Each task is polled with `call()`. The poll reads
the millisecond clock and returns whether the task should run this time. A task
is a small two-phase state machine:

- **idle** (`started == false`): the poll opens a cycle and records `entry`;
  unless the interval is negative, it also counts one more interval and fires
  if the task is `activated`. A negative
  interval is a one-time sentinel: the first cycle is silent, and the interval
  becomes its magnitude.
- **waiting** (`started == true`): the poll never fires. It closes the cycle
  once `elapsed = now - entry` reaches `interval`, and sets `ended` and `exit`.

So an activated task with a non-negative interval fires again on the poll after
the one that closes its cycle: the period is the interval plus the gap to the
next poll (polled at 0, 1000 and 2000 with interval 1000, it fires at 0 and
2000).

Two revisions are modelled, each in its own module:

- `Scheduler` (`scheduler.dfy`) models `src/ptScheduler.cpp` with the fields of
  `src/ptScheduler.h`. It has a backup `interval_`, called `intervalBackup` here,
  and `activate`, `suspend`, `deactivate` and `setInterval`. Its `deactivate`
  zeroes both counters, clears `entry` and restores the interval from the backup,
  so a negative sentinel is armed again.
- `SchedulerVma` (`scheduler_vma.dfy`) models the older `src/ptScheduler_VMA.cpp`.
  It has no backup and no `suspend`. It writes `suspended` where the main
  revision writes `dormant`. Its `deactivate` only clears `activated`, so a
  consumed sentinel stays consumed.

Each module has three parts:

- a value type `Task` holding the public fields;
- pure transition functions (`Poll`, `AfterActivate`, `AfterDeactivate`, …)
  whose contracts say what each operation does;
- a class `PtScheduler` with the same fields, whose methods update them in place.
  Each method is proved to agree with its transition function on
  `Snapshot()` and to keep the object invariant `Valid()`.

The lemmas are stated over the transition functions. They cover single
operations, replays of arbitrary operation sequences (`Apply`, `Replay`) and
runs of polls (`Fires`, `AfterPolls`). `clock.dfy` holds `Abs`, which both
revisions use, and the non-decreasing-clock predicate `NonDecreasing`, which
the spacing lemmas of `Scheduler` use.

The clock `millis()` becomes a parameter `now` of `Call`. A ghost field
`lastNow` records the latest reading, and `Call` requires `lastNow <= now`.
`lastNow` starts at 0 because `millis()` counts up from boot.

Later releases of ptScheduler add interval sequences, a spanning (level) mode,
repetition limits, skip counts and input-error flags; none of that is in these
files. Here `deactivate()` leaves `started` as it is, so it does not return an
open cycle to idle, and `Scheduler.AfterDeactivate` states this.

## Model

| member | source | states |
|---|---|---|
| `Clock.Abs` | src/ptScheduler.cpp:45 | the magnitude of the interval is non-negative, and it is the interval itself or its negation |
| `Scheduler.Initial` | src/ptScheduler.h:28-41 | a declared task is idle (`started` false, `ended` true, `running` false), both counters are 0, it is activated, and `interval` and its backup equal the given value; the invariant holds |
| `Scheduler.Poll` | src/ptScheduler.cpp:42-93 | a poll fires exactly when it opens a cycle with a non-negative interval while activated, so a poll that starts in the waiting phase never fires; `intervalCounter` grows by one on each non-deferred cycle start and `taskCounter` by one on each fire; opening a cycle sets `entry = now`, leaves `elapsed` as it was, replaces a negative interval by its magnitude and leaves both counters alone on a deferral; waiting closes the cycle exactly when `now - entry >= interval`, then sets `ended` and `exit = now`; otherwise `started`, `entry` and both counters are unchanged; `running` is true exactly on a fire; the invariant is preserved |
| `Scheduler.AfterActivate` | src/ptScheduler.cpp:99-101 | `activated` becomes true and nothing else changes |
| `Scheduler.AfterSuspend` | src/ptScheduler.cpp:103-105 | `activated` becomes false and nothing else changes |
| `Scheduler.AfterDeactivate` | src/ptScheduler.cpp:110-119 | `activated` becomes false, both counters become 0, `interval` is restored from the backup, `entry` becomes 0; `started`, `ended`, `exit`, `elapsed` and `residue` are unchanged; the invariant is preserved |
| `Scheduler.AfterSetInterval` | src/ptScheduler.cpp:129-132 | both `interval` and its backup become the new value, so they agree, and nothing else changes |
| `Scheduler.Apply` | src/ptScheduler.h:45-49 | each public operation preserves the invariant `taskCounter <= intervalCounter`, `residue == 0`, interval equal to its backup or to the magnitude of a negative backup |
| `Scheduler.InvReplay` | src/ptScheduler.cpp:42-132 | the invariant holds after any sequence of operations applied to a task that satisfies it |
| `Scheduler.InvAlways` | src/ptScheduler.h:34-35 | every task reachable from a declared one has `taskCounter <= intervalCounter` and keeps the backup consistent with the interval |
| `Scheduler.PollKeepsInterval` | src/ptScheduler.cpp:73-89 | a poll leaves a non-negative interval unchanged |
| `Scheduler.NoFireBefore` | src/ptScheduler.cpp:73-89 | while the cycle opened at or after time `anchor` is open, no poll fires before `anchor + interval` |
| `Scheduler.FiresAreSpaced` | src/ptScheduler.cpp:42-93 | with a fixed non-negative interval and a non-decreasing clock, two polls that both fire are at least `interval` time units apart |
| `Scheduler.TaskCounterCountsFires` | src/ptScheduler.h:35 | over any run of polls, `taskCounter` grows by exactly the number of polls that fired |
| `Scheduler.FirstPoll` | src/ptScheduler.cpp:24-28 | a declared task fires on its first poll exactly when its interval is non-negative; a negative one is replaced by its magnitude |
| `Scheduler.DeferralIsSilent` | src/ptScheduler.cpp:43-51 | a declared task with a negative interval does not fire on any poll before the first poll's reading plus the magnitude of that interval, under a non-decreasing clock |
| `Scheduler.DeactivateRearmsDeferral` | src/ptScheduler.cpp:110-119 | after `deactivate` on an idle task whose backup is negative, the next poll defers again (no fire) even if the task was activated again, and consumes the sentinel once more |
| `Scheduler.DeactivateRearmsDeferralInCycle` | src/ptScheduler.cpp:110-119 | after `deactivate` during an open cycle whose backup is negative, the next poll closes the cycle without firing (entry 0, negative interval) and the poll after it defers again, with the interval back at the backup's magnitude, even if the task was activated again |
| `Scheduler.FiresAgain` | src/ptScheduler.cpp:124-127 | an activated task with a non-negative interval fires again once the interval has passed: under a non-decreasing clock, if a poll other than the last is at least one interval after the open cycle's entry (or no cycle is open), some poll of the run fires |
| `Scheduler.PeriodIncludesOnePollGap` | src/ptScheduler.cpp:73-81 | a task with interval 1000 polled at 0, 1000 and 2000 fires, closes its cycle, then fires: the fire comes on the poll after the closing one |
| `Scheduler.ActivationIdempotent` | src/ptScheduler.cpp:99-105 | `activate` and `suspend` are idempotent and the later of the two wins |
| `Scheduler.PtScheduler.constructor` | src/ptScheduler.cpp:24-28 | the new object holds the declared task `Initial(timeValue)` and is valid |
| `Scheduler.PtScheduler.Call` | src/ptScheduler.cpp:42-93 | under a non-decreasing clock, the fields and the returned decision are exactly those of `Poll` on the old fields, and validity is kept |
| `Scheduler.PtScheduler.Activate` | src/ptScheduler.cpp:99-101 | the fields become `AfterActivate` of the old fields |
| `Scheduler.PtScheduler.Suspend` | src/ptScheduler.cpp:103-105 | the fields become `AfterSuspend` of the old fields |
| `Scheduler.PtScheduler.Deactivate` | src/ptScheduler.cpp:110-119 | the fields become `AfterDeactivate` of the old fields, and validity is kept |
| `Scheduler.PtScheduler.SetInterval` | src/ptScheduler.cpp:129-132 | the fields become `AfterSetInterval` of the old fields |
| `SchedulerVma.Initial` | src/ptScheduler_VMA.cpp:24-27 | a declared task is idle, both counters are 0, it is activated and holds the given interval |
| `SchedulerVma.Poll` | src/ptScheduler_VMA.cpp:41-92 | same decision and counter updates as the main revision; opening a cycle sets `entry = now` and leaves `elapsed` as it was; a deferral or an unactivated cycle start sets `suspended`, a fire clears it; a poll in the waiting phase never fires, closes the cycle exactly when `now - entry >= interval` (then `exit = now`), and otherwise leaves `started` true and `suspended` set |
| `SchedulerVma.AfterActivate` | src/ptScheduler_VMA.cpp:98-100 | `activated` becomes true and nothing else changes |
| `SchedulerVma.AfterDeactivate` | src/ptScheduler_VMA.cpp:105-107 | `activated` becomes false and nothing else changes: counters, interval, entry and `started` stay as they were |
| `SchedulerVma.AfterSetInterval` | src/ptScheduler_VMA.cpp:117-119 | `interval` becomes the new value and nothing else changes |
| `SchedulerVma.Apply` | src/ptScheduler_VMA.cpp:41-119 | each public operation preserves `taskCounter <= intervalCounter` and `residue == 0` |
| `SchedulerVma.InvReplay` | src/ptScheduler_VMA.cpp:56-61 | `taskCounter <= intervalCounter` holds after any sequence of operations from a task that satisfies the invariant |
| `SchedulerVma.IntervalStaysPut` | src/ptScheduler_VMA.cpp:105-107 | polls, activations and deactivations never change a non-negative interval |
| `SchedulerVma.SentinelConsumed` | src/ptScheduler_VMA.cpp:43-44 | after the first poll of a declared task, and whatever polls, activations and deactivations follow, the interval is the magnitude of the declared one: the sentinel is consumed for good |
| `SchedulerVma.FirstPoll` | src/ptScheduler_VMA.cpp:42-62 | a declared task fires on its first poll exactly when its interval is non-negative; a deferral leaves it suspended |
| `SchedulerVma.ActivationIdempotent` | src/ptScheduler_VMA.cpp:98-107 | `activate` and `deactivate` are idempotent and the later of the two wins |
| `SchedulerVma.PtScheduler.constructor` | src/ptScheduler_VMA.cpp:24-27 | the new object holds the declared task `Initial(timeValue)` and is valid |
| `SchedulerVma.PtScheduler.Call` | src/ptScheduler_VMA.cpp:41-92 | under a non-decreasing clock, the fields and the returned decision are exactly those of `Poll` on the old fields, and validity is kept |
| `SchedulerVma.PtScheduler.Activate` | src/ptScheduler_VMA.cpp:98-100 | the fields become `AfterActivate` of the old fields |
| `SchedulerVma.PtScheduler.Deactivate` | src/ptScheduler_VMA.cpp:105-107 | the fields become `AfterDeactivate` of the old fields |
| `SchedulerVma.PtScheduler.SetInterval` | src/ptScheduler_VMA.cpp:117-119 | the fields become `AfterSetInterval` of the old fields |

## Left out

- `millis()` and the Arduino core are not modelled. The clock reading is the parameter `now`, and the model requires readings to be non-decreasing.
- The 32-bit wrap-around of `millis()` and its conversion to `int64_t` (src/ptScheduler.cpp:74) are not modelled. Time is an unbounded integer. On the board, `elapsed` goes negative after a wrap and the open cycle never closes; the model does not show this.
- The fields declared `int64_t` are unbounded integers. `abs` of the 64-bit minimum, which overflows on the board (src/ptScheduler.cpp:45), is not modelled.
- The counters declared `uint64_t` are unbounded naturals, so their wrap after 2^64 intervals is not modelled. `taskCounter <= intervalCounter` relies on this.
- The empty destructors have no behaviour and are not modelled.
- src/ptScheduler_VMA.h is not part of this model. The fields of `SchedulerVma.Task` and their initial values are those of src/ptScheduler.h, without `interval_` and `dormant`.
- The out-of-line constructor definitions give `timeValue` a default of 0 that the header's declaration does not have. The Dafny constructors take it explicitly, so that default is `new PtScheduler(0)`.
- The spacing of fires (`FiresAreSpaced`) is proved for runs of polls only. `deactivate` sets `entry` to 0 and restores the interval from its backup, so an open cycle then closes at the first poll with `now >= interval`, which can be earlier or later than one interval after its entry; fires around a `deactivate` or `setInterval` are therefore not bounded by one interval.
