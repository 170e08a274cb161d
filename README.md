# Capacitive touch button (pxt-calliope-buttons, touch.ts)

A Dafny model of `CapacitiveButton` from touch.ts. The class turns noisy
analog readings from a touch pad into the button events Down, Up, LongClick
and Hold. It has four parts:

- **Sampling.** `read()` averages four analog reads with `Math.idiv`.
- **Calibration.** Part of the lazy `init()`: the threshold becomes the
  largest of eight averaged readings plus 4.
- **Debounce counter.** `sigma` saturates in [0, 5] and moves toward "active"
  or "inactive" on every tick.
- **Event machine.** Driven by the tick: a hysteresis band (4 up, 2 down)
  on `sigma` produces Down and Up on the STATE bit. LongClick follows Up.
  Hold fires when a press has lasted 1500 and STATE_HOLD_TRIGGERED is still
  clear; that tick then sets the bit.

The model has two modules:

- **`TouchLogic`** (touch_logic.dfy) is the pure layer:
  - the constants and the status bits;
  - the averaging and the calibration threshold;
  - the saturating update of sigma;
  - the transition of one tick (`Tick`) and of a run of ticks (`Run`);
  - the invariant linking the log of raised events to the status:
    - Down and Up alternate, starting with Down;
    - STATE tells which of them came last;
    - there is at most one Hold per lifetime;
    - every LongClick comes right after an Up.
- **`Touch`** (touch_button.dfy) holds the class `CapacitiveButton`:
  - its fields are those of the source;
  - the log `events` stands for `control.raiseEvent`;
  - `subscriptions` stands for `control.onEvent`;
  - `workerSpawned` stands for `control.inBackground`.

  The methods follow the source statement by statement, including the loops
  in `read()` and in the calibration. Each method is proved against the
  `TouchLogic` functions. `Init`, `OnEvent`, `IsTouched` and `Value` state
  their effect through the twostate predicate `InitEffect`, and
  `PeriodicCallback` and `IdleWorkerStep` through `TickEffect`; `Calibrate`
  states its new fields directly. The constructor, `Init`,
  `PeriodicCallback`, `IdleWorkerStep`, `Calibrate`, `OnEvent`, `IsTouched`
  and `Value` keep the object invariant `Valid()`. The helpers `Read`,
  `UpdateSigma`, `Transition` and `RunCalibration` run inside them, where
  `Valid()` need not hold (during a first calibration `lastReading` is still
  -1 after CALIBRATION_REQUIRED has been cleared), and state only their
  effect.

**Inputs.** The pin is replaced by the readings passed in:
- a `Batch` of four reads, each in 0..1023, for `read()`;
- eight batches for the calibration inside `init()`.

The clock is the parameter `now` of a tick.

**The status word.** It is modelled as the set of its bits that are set:
- `status |= B` becomes `status + {B}`;
- `status &= ~B` becomes `status - {B}`;
- `status & B` becomes `B in status`;
- `!status` becomes `status == {}`.

`Word` maps the set back to the number. Lemmas show that this map agrees with the source:
- `WordIsZero`: the word is 0 exactly for the empty set;
- `WordSetBit`: setting a bit adds its mask;
- `WordClearBit`: clearing a bit subtracts its mask;
- `WordIsInjective`: different sets give different words.

**Behaviours of the code worth knowing:**
- STATE_HOLD_TRIGGERED is never cleared; the release branch (touch.ts:141) clears only STATE, so Hold fires at most once per instance (`RunHoldAtMostOnce`), not once per press.
- LongClick is raised when the press lasted at least `DAL.MICROBIT_BUTTON_EVT_LONG_CLICK`. That constant is the event code 4, so `LONG_CLICK_TIME` is 4.
- Click is commented out of the enumeration and of the release branch. The model has no Click constructor, so it can never be raised.
- `calibrate()` on a fresh instance sets CALIBRATION_REQUIRED before `init()` tests for status 0. The spawn is therefore skipped, and calibration leaves status 0 again. The next public call spawns the worker and calibrates a second time (`CalibrateOnFreshButton`, `CalibrateFreshButton`).

## Model

| member | source | states |
|---|---|---|
| `TouchLogic.StatusBit.Mask` | touch.ts:35-41 | each named status bit has the mask 1, 2, 16, 32 or 64 |
| `TouchLogic.Word` | touch.ts:35-41 | the status word built from the five named bits lies in 0..127 |
| `TouchLogic.WordIsZero` | touch.ts:79 | the word is 0 exactly when no bit is set, so `!this.status` is the empty set |
| `TouchLogic.WordSetBit` | touch.ts:80 | setting bit B with or-assignment adds the mask of B to the word unless B was already set |
| `TouchLogic.WordClearBit` | touch.ts:86 | clearing bit B with `&= ~B` subtracts the mask of B from the word if B was set |
| `TouchLogic.WordIsInjective` | touch.ts:35-41 | two statuses with the same word have the same bits |
| `TouchLogic.TouchButtonEvent.Code` | touch.ts:4-15 | the event codes are 1, 2, 4 and 5; the Click code 3 is never produced |
| `TouchLogic.CodesAreDistinct` | touch.ts:4-15 | two events have the same code exactly when they are the same event |
| `TouchLogic.IDiv` | touch.ts:73 | Math.idiv where operands and quotient lie in the signed 32-bit range (it wraps outside it; the sums divided here lie in 0..4092): the quotient's magnitude is floor(abs x / abs y), it is non-negative when the signs agree and non-positive when they differ (truncation toward zero), 0 for a zero divisor, and the floor quotient for non-negative operands |
| `TouchLogic.Sum` | touch.ts:67-72 | the accumulated reading of n samples lies in 0..1023*n |
| `TouchLogic.SumOfEqual` | touch.ts:67-72 | n equal samples v accumulate to v*n |
| `TouchLogic.Average` | touch.ts:73 | the integer average `Math.idiv(reading, CAP_SAMPLES)` of one batch; its meaning is stated by `AverageIsFloor` |
| `TouchLogic.AverageIsFloor` | touch.ts:73 | the stored reading is the sum of the four samples divided by 4, rounded down |
| `TouchLogic.MaxReading` | touch.ts:89-94 | the running maximum started from 0 stays in 0..1023 |
| `TouchLogic.MaxReadingIsMaximum` | touch.ts:89-94 | the running maximum is at least every averaged reading and equals one of them (0 with no rounds) |
| `TouchLogic.CalibrationThreshold` | touch.ts:89-97 | a calibrated threshold lies in 4..1027 |
| `TouchLogic.CalibrationThresholdIsMax` | touch.ts:89-97 | the threshold is max(0, r1..rn) + 4 over the averaged readings r1..rn |
| `TouchLogic.CalibrationScenario` | touch.ts:89-97 | readings whose largest average is 200 give threshold 204 |
| `TouchLogic.Initialised` | touch.ts:79-82 | the status after the spawn test: INITIALIZED and CALIBRATION_REQUIRED are added only to status 0 |
| `TouchLogic.SpawnsWorker` | touch.ts:79-82 | init() starts the worker exactly when the status is 0 |
| `TouchLogic.CalibrationDue` | touch.ts:85 | the calibration block runs exactly when CALIBRATION_REQUIRED is set after the spawn test |
| `TouchLogic.InitStatus` | touch.ts:78-99 | init() clears both calibration bits when calibration is due and otherwise leaves the status as it was; STATE, STATE_HOLD_TRIGGERED and INITIALIZED (set from status 0) are kept |
| `TouchLogic.CalibrateStatus` | touch.ts:167-170 | calibrate() leaves the status with both calibration bits cleared and every other bit unchanged |
| `TouchLogic.FreshInitialises` | touch.ts:78-99 | on status 0, init() spawns the worker, calibrates, and leaves the word 16 (INITIALIZED only) |
| `TouchLogic.CalibrateOnFreshButton` | touch.ts:167-170 | calibrate() on status 0 skips the spawn, calibrates, and leaves status 0, so the next init() spawns and calibrates again |
| `TouchLogic.InitIsIdempotent` | touch.ts:78-99 | once INITIALIZED is set and no calibration is required, init() neither spawns nor calibrates and keeps the status |
| `TouchLogic.WorkerMayRun` | touch.ts:105 | the worker's guard: neither CALIBRATION_INPROGRESS nor CALIBRATION_REQUIRED is set |
| `TouchLogic.InitOpensWorker` | touch.ts:78-99 | after init() on a status with both calibration bits clear, or with a calibration required, the worker's guard is open |
| `TouchLogic.WorkerGuard` | touch.ts:105 | the worker's guard passes exactly when the status word is below 32, i.e. neither calibration bit is set |
| `TouchLogic.Debounce` | touch.ts:119-126 | sigma stays in [0, 5]; it rises by 1 iff active and below 5, falls by 1 iff inactive and above 0, else stays |
| `TouchLogic.Transition` | touch.ts:128-159 | the else-if chain on the updated sigma; its branches are characterised by `TickDown`, `TickUp`, `TickHold` and `TickRaisesAtMostOne` |
| `TouchLogic.Tick` | touch.ts:111-160 | periodicCallback() on values: read, update sigma, run the transition; its properties are the `Tick*` lemmas below |
| `TouchLogic.TickSigma` | touch.ts:118-126 | after a tick sigma is in [0, 5] and moved by at most one, up exactly when the new reading reaches the threshold and sigma was below 5, down exactly when it is below the threshold and sigma was above 0 |
| `TouchLogic.TickFrame` | touch.ts:118-159 | a tick stores the averaged reading, keeps the threshold and every status bit other than STATE and STATE_HOLD_TRIGGERED, and never clears STATE_HOLD_TRIGGERED |
| `TouchLogic.TickDown` | touch.ts:129-137 | Down is raised iff STATE was clear and the new sigma is at least 4; it is the only event, STATE is set and downStartTime becomes now |
| `TouchLogic.TickUp` | touch.ts:139-150 | Up is raised iff STATE was set and the new sigma is at most 2; only STATE is cleared, and LongClick follows iff now - downStartTime >= 4 |
| `TouchLogic.TickHold` | touch.ts:152-159 | Hold is raised iff STATE is set, sigma stays above 2, STATE_HOLD_TRIGGERED is clear and 1500 have elapsed since the press; the tick then raises only Hold, sets STATE_HOLD_TRIGGERED and keeps downStartTime |
| `TouchLogic.TickRaisesAtMostOne` | touch.ts:129-159 | a tick raises nothing, Down, Up, Up then LongClick, or Hold; a silent tick changes neither status nor downStartTime |
| `TouchLogic.LongClicksFollowUpAt` | touch.ts:139-147 | in a log where every LongClick follows an Up, each LongClick at position i has an Up at i-1 |
| `TouchLogic.ContinuesConcat` | touch.ts:129-159 | the log invariant composes: two stretches of events that continue from status s to m and from m to t continue from s to t |
| `TouchLogic.TickContinues` | touch.ts:129-159 | the events of one tick continue the pressed state and the hold bit of the status before it into the status after it |
| `TouchLogic.TickKeepsLogConsistent` | touch.ts:129-159 | appending the events of a tick to a consistent log gives a log consistent with the new status |
| `TouchLogic.Run` | touch.ts:102-109 | successive ticks of the worker, with the events of all of them in order; its properties are the `Run*` lemmas below |
| `TouchLogic.RunSigmaBounds` | touch.ts:119-126 | sigma stays in [0, 5] over any run of ticks, and the threshold is kept |
| `TouchLogic.RunContinues` | touch.ts:129-159 | the events of any run continue from the status at its start to the status at its end |
| `TouchLogic.RunAlternates` | touch.ts:129-150 | over any run Down and Up alternate, starting from the pressed state of the first status, and STATE at the end matches the last of them |
| `TouchLogic.RunHoldAtMostOnce` | touch.ts:152-159 | over any run at most one Hold is raised, none once STATE_HOLD_TRIGGERED is set, and the bit is never cleared |
| `TouchLogic.RunDownNeedsEvidence` | touch.ts:119-137 | from a released button, until a Down sigma grows by at most the number of active ticks, and a Down needs at least 4 - sigma active ticks |
| `TouchLogic.FirstDownNeedsFourActiveTicks` | touch.ts:119-137 | from sigma 0 and released, a run that raises Down has at least 4 active ticks |
| `TouchLogic.ActiveTicksRaiseDown` | touch.ts:119-137 | from a released button with sigma s, 4 - s consecutive active ticks raise exactly one Down, on the last of them, leaving STATE set, sigma 4 and downStartTime the last tick's time |
| `TouchLogic.FourActiveTicksRaiseDown` | touch.ts:119-137 | from sigma 0 and released, any four consecutive active ticks raise exactly [Down], with downStartTime the fourth tick's time |
| `TouchLogic.PressScenario` | touch.ts:118-137 | threshold 204, sigma 0: four ticks reading 210 raise nothing, nothing, nothing, then Down with sigma 4 and downStartTime the fourth time |
| `TouchLogic.ReleaseScenario` | touch.ts:118-150 | then two ticks reading 50 raise nothing, then Up and LongClick with sigma 2 and STATE clear |
| `Touch.ToInt32` | touch.ts:198 | `lastReading` or-ed with 0 wraps to the signed 32-bit range, is congruent to x modulo 2^32 and is x inside that range |
| `Touch.CapacitiveButton.constructor` | touch.ts:56-64 | a new button has threshold 1023, sigma 0, status 0, lastReading -1, downStartTime 0, no events, no subscriptions, no worker, and satisfies the invariant |
| `Touch.CapacitiveButton.IsActive` | touch.ts:202-204 | isActive(): the last reading has reached the threshold |
| `Touch.CapacitiveButton.Read` | touch.ts:66-76 | the loop accumulates the four samples; lastReading and the result are their average |
| `Touch.CapacitiveButton.Init` | touch.ts:78-100 | init() has the effect InitEffect: the status becomes InitStatus, the worker is spawned iff the status was 0, and a due calibration sets the threshold and the last reading; the invariant is kept; a status whose calibration bits were clear, or with a calibration required, ends with both bits clear |
| `Touch.CapacitiveButton.RunCalibration` | touch.ts:85-99 | the calibration loop leaves threshold = max of the eight averages + 4, lastReading = the eighth average, both calibration bits cleared and no other bit changed; throughout the loop the in-progress bit keeps the worker's guard closed |
| `Touch.CapacitiveButton.PeriodicCallback` | touch.ts:111-160 | periodicCallback() has the effect TickEffect: the fields become those of Tick, its events are appended to the log, and the invariant is kept |
| `Touch.CapacitiveButton.UpdateSigma` | touch.ts:119-126 | sigma becomes the saturating Debounce of the old sigma |
| `Touch.CapacitiveButton.Transition` | touch.ts:128-159 | the else-if chain leaves the fields and appends the events of the pure Transition |
| `Touch.CapacitiveButton.IdleWorkerStep` | touch.ts:102-109 | one worker iteration runs a tick exactly when neither calibration bit is set, and otherwise changes nothing |
| `Touch.CapacitiveButton.Calibrate` | touch.ts:167-170 | calibrate() always recalibrates: the threshold is CalibrationThreshold of the readings, the calibration bits are cleared so the worker's guard is open again, the worker flag and the log are unchanged |
| `Touch.CapacitiveButton.OnEvent` | touch.ts:177-180 | onEvent() runs init() and then records the subscription |
| `Touch.CapacitiveButton.IsTouched` | touch.ts:186-189 | isTouched() runs init() and returns isActive(), i.e. threshold <= lastReading |
| `Touch.CapacitiveButton.Value` | touch.ts:196-199 | value() runs init() and returns lastReading, which is then an averaged reading in 0..1023 |
| `Touch.CalibrateTwice` | touch.ts:167-170 | two calibrations on the same readings leave the same threshold, whatever the state before |
| `Touch.ValueAfterTick` | touch.ts:196-199 | value() right after a worker tick that ran returns that tick's averaged reading |
| `Touch.CalibrateFreshButton` | touch.ts:167-170 | calibrate() on a new button spawns no worker; the next public call spawns it and calibrates again, leaving only INITIALIZED set |

## Left out

- Pin hardware is not modelled: `digitalWrite`, `control.waitMicros` and `analogRead` (touch.ts:69-74). The samples are passed in as values in 0..1023.
- Scheduling is not modelled:
  - `control.inBackground` is the flag `workerSpawned`;
  - the unbounded `while (true)` of `idleWorker()` is the single step `IdleWorkerStep`;
  - `basic.pause` (touch.ts:91, 107) is dropped.
- Calibration and the worker do not interleave in the model. The loop invariant of `RunCalibration` states that the worker's guard stays closed during every round, which is what protects the calibration at each `pause(1)`. `Init`, `Calibrate`, `OnEvent`, `IsTouched`, `Value` and `PeriodicCallback` end with the guard open whenever it was open before, so the skip branch of `IdleWorkerStep` is reachable only by a worker step taken inside a calibration, which the model does not represent.
- Public calls from other fibers during the `pause(1)` of a calibration (touch.ts:91) are not modelled either. In the source such a call sees the calibration's interim fields:
  - `isTouched()` compares the previous round's average with the running maximum (touch.ts:89-93). On the first pause of a button's first calibration that is `0 <= -1`, which is false, since `lastReading` is still the initial -1. On the first pause of a re-calibration it is true. On later pauses it is true exactly when the previous round's average is the largest so far.
  - A nested `calibrate()` runs the calibration block again and leaves its own maximum plus 4. The outer loop then goes on taking `Math.max` over the rounds it still reads (touch.ts:93) and adds 4 (touch.ts:97). The outer pass therefore ends at max(inner maximum + 4, the outer averages read after the nesting) + 4, and the outer averages read before the nesting are lost.
  - The nested call also clears CALIBRATION_INPROGRESS early, which reopens the worker's guard for the outer pass's remaining rounds.
- The event bus is not modelled. `control.raiseEvent` appends to `events`. `control.onEvent` appends the event kind to `subscriptions`; the handler and its delivery are not modelled.
- `input.runningTime()` is the parameter `now` of a tick. This is exact rather than a simplification: the three reads at touch.ts:136, 145 and 154 lie on mutually exclusive branches of the else-if chain, and the read at 154 only happens once the earlier conjuncts hold, so one `periodicCallback()` reads the clock at most once.
- The identifier is kept as `id` but never used in a contract. The fixed pin instances and block-editor annotations (touch.ts:213-229) are not modelled.
- `Touch.CapacitiveButton.IdleWorkerStep`: it states one iteration of the polling loop, not the infinite loop itself.
- Status bits 2 and 3 (commented out in the source) and bits above 6 are never set by the source. The set-of-bits model therefore covers every status the code can reach; operations on other bits are not represented.
- Integers are unbounded. Readings lie in 0..1023 (`lastReading` starts at -1) and thresholds in 0..1027, so no 32-bit wrap-around occurs there; `value()` applies `| 0` explicitly through `ToInt32`. Timestamps `now` and `downStartTime` are arbitrary integers: every lemma holds for any values of them, including values after a wrap of `input.runningTime()`, but the wrap itself is not modelled.
