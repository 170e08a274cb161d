/** Pure logic of the capacitive touch button of touch.ts: its constants and
    status bits, the averaging of one batch of analog samples, the calibration
    threshold, the saturating debounce counter `sigma` and the event transition
    run on every polling tick. The class in module Touch is proved against the
    functions defined here. */
module TouchLogic {

  // ---------------------------------------------------------------------------
  // Constants and status bits (touch.ts:25-41)
  // ---------------------------------------------------------------------------

  const CALIBRATION_SAMPLES: nat := 8
  const CAP_SAMPLES: nat := 4
  const CALIBRATION_CONSTANT_OFFSET: int := 4
  const SIGMA_THRESH_MAX: int := 5
  const SIGMA_THRESH_HI: int := 4
  const SIGMA_THRESH_LO: int := 2
  const SIGMA_THRESH_MIN: int := 0
  const BUTTON_HOLD_TIME: int := 1500

  /** The release branch compares the press duration with
      DAL.MICROBIT_BUTTON_EVT_LONG_CLICK, which is the event code 4, not a
      duration; the model keeps that value. */
  const LONG_CLICK_TIME: int := 4

  /** Largest value an analog read of the pin returns (10-bit converter). */
  const ANALOG_MAX: int := 1023

  /** The named bits of the status word (touch.ts:35-41). */
  datatype StatusBit =
    | STATE
    | STATE_HOLD_TRIGGERED
    | STATE_INITIALIZED
    | STATE_CALIBRATION_REQUIRED
    | STATE_CALIBRATION_INPROGRESS
  {
    /** The bit's mask in the numeric status word. */
    function Mask(): (m: int)
      ensures m == 1 || m == 2 || m == 16 || m == 32 || m == 64
    {
      match this
      case STATE => 1
      case STATE_HOLD_TRIGGERED => 2
      case STATE_INITIALIZED => 16
      case STATE_CALIBRATION_REQUIRED => 32
      case STATE_CALIBRATION_INPROGRESS => 64
    }
  }

  /** The status word, as the set of its bits that are 1. The source only
      ever sets the five named bits, so `status |= B` is `status + {B}`,
      `status &= ~B` is `status - {B}`, `status & B` is `B in status` and the
      word 0 is the empty set. */
  type Status = set<StatusBit>

  /** The number the status word holds. */
  function Word(s: Status): (w: int)
    ensures 0 <= w < 128
  {
    (if STATE in s then 1 else 0) +
    (if STATE_HOLD_TRIGGERED in s then 2 else 0) +
    (if STATE_INITIALIZED in s then 16 else 0) +
    (if STATE_CALIBRATION_REQUIRED in s then 32 else 0) +
    (if STATE_CALIBRATION_INPROGRESS in s then 64 else 0)
  }

  /** The word is 0 exactly when no bit is set. */
  lemma {:induction false} WordIsZero(s: Status)
    ensures Word(s) == 0 <==> s == {}
  {
    if Word(s) == 0 {
      forall b | b in s
        ensures false
      {
        match b
        case STATE =>
        case STATE_HOLD_TRIGGERED =>
        case STATE_INITIALIZED =>
        case STATE_CALIBRATION_REQUIRED =>
        case STATE_CALIBRATION_INPROGRESS =>
      }
    }
  }

  /** Setting a bit with | adds its mask unless it was already set. */
  lemma WordSetBit(s: Status, b: StatusBit)
    ensures Word(s + {b}) == Word(s) + (if b in s then 0 else b.Mask())
  {
  }

  /** Clearing a bit with & ~ subtracts its mask if it was set. */
  lemma WordClearBit(s: Status, b: StatusBit)
    ensures Word(s - {b}) == Word(s) - (if b in s then b.Mask() else 0)
  {
  }

  /** Two statuses holding the same number have the same bits. */
  lemma {:induction false} WordIsInjective(s: Status, t: Status)
    requires Word(s) == Word(t)
    ensures s == t
  {
    assert (STATE_CALIBRATION_INPROGRESS in s) == (STATE_CALIBRATION_INPROGRESS in t);
    assert (STATE_CALIBRATION_REQUIRED in s) == (STATE_CALIBRATION_REQUIRED in t);
    assert (STATE_INITIALIZED in s) == (STATE_INITIALIZED in t);
    assert (STATE_HOLD_TRIGGERED in s) == (STATE_HOLD_TRIGGERED in t);
    forall b
      ensures b in s <==> b in t
    {
      match b
      case STATE =>
      case STATE_HOLD_TRIGGERED =>
      case STATE_INITIALIZED =>
      case STATE_CALIBRATION_REQUIRED =>
      case STATE_CALIBRATION_INPROGRESS =>
    }
  }

  /** The logical "pressed" bit. */
  predicate Pressed(status: Status) { STATE in status }

  /** The bit recording that Hold has been raised. */
  predicate HoldTriggered(status: Status) { STATE_HOLD_TRIGGERED in status }

  /** The two bits of the status that the raised events depend on. */
  datatype PressState = PressState(pressed: bool, held: bool)

  function Bits(status: Status): PressState
  {
    PressState(Pressed(status), HoldTriggered(status))
  }

  /** The events the button raises. Click is commented out of the enumeration
      in the source and has no constructor here, so it can never be raised. */
  datatype TouchButtonEvent = LongClick | Up | Down | Hold
  {
    /** The event value passed to the event bus. */
    function Code(): (c: int)
      ensures 1 <= c <= 5 && c != 3
    {
      match this
      case LongClick => 4
      case Up => 2
      case Down => 1
      case Hold => 5
    }
  }

  lemma CodesAreDistinct(a: TouchButtonEvent, b: TouchButtonEvent)
    ensures a.Code() == b.Code() <==> a == b
  {
  }

  // ---------------------------------------------------------------------------
  // Sampling (touch.ts:66-76)
  // ---------------------------------------------------------------------------

  /** One value returned by an analog read of the pin. */
  type AnalogValue = x: int | 0 <= x <= ANALOG_MAX

  /** The CAP_SAMPLES analog reads taken by one call of read(). */
  type Batch = s: seq<AnalogValue> | |s| == CAP_SAMPLES witness [0, 0, 0, 0]

  function Abs(x: int): nat { if x < 0 then -x else x }

  /** Math.idiv where operands and quotient lie in the signed 32-bit range
      (outside it Math.idiv wraps; the sums of readings it divides here lie
      in 0..4092): the integer quotient rounded toward zero; a zero divisor
      yields 0, as `(x / 0) | 0` does. */
  function IDiv(x: int, y: int): (q: int)
    ensures y == 0 ==> q == 0
    ensures y != 0 ==> Abs(q) == Abs(x) / Abs(y)
    ensures q < 0 ==> (x < 0) != (y < 0)
    ensures (x < 0) != (y < 0) ==> q <= 0
    ensures 0 <= x && 0 < y ==> q == x / y
  {
    if y == 0 then 0
    else if (x < 0) == (y < 0) then Abs(x) / Abs(y)
    else -(Abs(x) / Abs(y))
  }

  /** The running total `reading += analogRead()`, accumulated front to back. */
  function Sum(s: seq<AnalogValue>): (r: int)
    ensures 0 <= r <= ANALOG_MAX * |s|
  {
    if s == [] then 0 else Sum(s[..|s| - 1]) + s[|s| - 1]
  }

  /** A batch of equal samples sums to that sample times the batch size. */
  lemma {:induction false} SumOfEqual(s: seq<AnalogValue>, v: AnalogValue)
    requires forall i :: 0 <= i < |s| ==> s[i] == v
    ensures Sum(s) == v * |s|
  {
    if s != [] {
      SumOfEqual(s[..|s| - 1], v);
    }
  }

  /** The value read() stores in lastReading: the integer quotient of the
      sum of the batch by CAP_SAMPLES. */
  function Average(batch: Batch): (r: AnalogValue)
  {
    var q := IDiv(Sum(batch), CAP_SAMPLES);
    assert q == Sum(batch) / 4;
    q
  }

  /** The average is the sum of the batch divided by CAP_SAMPLES, rounded down. */
  lemma AverageIsFloor(batch: Batch)
    ensures CAP_SAMPLES * Average(batch) <= Sum(batch) < CAP_SAMPLES * Average(batch) + CAP_SAMPLES
  {
  }

  // ---------------------------------------------------------------------------
  // Calibration (touch.ts:85-99)
  // ---------------------------------------------------------------------------

  function Max(a: int, b: int): int { if a < b then b else a }

  /** The running maximum `threshold := Math.max(threshold, read())` started
      from 0, over the averaged readings of the given rounds. */
  function MaxReading(rounds: seq<Batch>): (m: int)
    ensures 0 <= m <= ANALOG_MAX
  {
    if rounds == [] then 0
    else Max(MaxReading(rounds[..|rounds| - 1]), Average(rounds[|rounds| - 1]))
  }

  /** The running maximum is the maximum: no averaged reading exceeds it, it
      is one of them, and it is 0 when there are none. */
  lemma {:induction false} MaxReadingIsMaximum(rounds: seq<Batch>)
    ensures forall i :: 0 <= i < |rounds| ==> Average(rounds[i]) <= MaxReading(rounds)
    ensures rounds == [] ==> MaxReading(rounds) == 0
    ensures rounds != [] ==> exists i :: 0 <= i < |rounds| && MaxReading(rounds) == Average(rounds[i])
    decreases |rounds|
  {
    if rounds != [] {
      var init := rounds[..|rounds| - 1];
      MaxReadingIsMaximum(init);
      assert forall i :: 0 <= i < |init| ==> init[i] == rounds[i];
      if init != [] && MaxReading(rounds) == MaxReading(init) {
        var j :| 0 <= j < |init| && MaxReading(init) == Average(init[j]);
        assert MaxReading(rounds) == Average(rounds[j]);
      } else {
        assert MaxReading(rounds) == Average(rounds[|rounds| - 1]);
      }
    }
  }

  /** The threshold a completed calibration leaves: the largest averaged
      reading (at least 0) plus the constant offset. */
  function CalibrationThreshold(rounds: seq<Batch>): (t: int)
    ensures CALIBRATION_CONSTANT_OFFSET <= t <= ANALOG_MAX + CALIBRATION_CONSTANT_OFFSET
  {
    MaxReading(rounds) + CALIBRATION_CONSTANT_OFFSET
  }

  /** The threshold is max(0, r1, ..., rn) + CALIBRATION_CONSTANT_OFFSET for
      the averaged readings r1..rn of the rounds: every reading lies at least
      the offset below it, and one of them, or 0 when there are none, exactly. */
  lemma CalibrationThresholdIsMax(rounds: seq<Batch>)
    ensures forall i :: 0 <= i < |rounds| ==>
      Average(rounds[i]) + CALIBRATION_CONSTANT_OFFSET <= CalibrationThreshold(rounds)
    ensures rounds == [] ==> CalibrationThreshold(rounds) == CALIBRATION_CONSTANT_OFFSET
    ensures rounds != [] ==>
      exists i :: 0 <= i < |rounds| && CalibrationThreshold(rounds) == Average(rounds[i]) + CALIBRATION_CONSTANT_OFFSET
  {
    MaxReadingIsMaximum(rounds);
  }

  /** Scenario: ambient readings whose largest average is 200 give threshold 204. */
  lemma CalibrationScenario(rounds: seq<Batch>)
    requires |rounds| == CALIBRATION_SAMPLES
    requires forall i :: 0 <= i < |rounds| ==> Average(rounds[i]) <= 200
    requires exists i :: 0 <= i < |rounds| && Average(rounds[i]) == 200
    ensures CalibrationThreshold(rounds) == 204
  {
    MaxReadingIsMaximum(rounds);
  }

  // ---------------------------------------------------------------------------
  // Lazy initialisation (touch.ts:78-99)
  // ---------------------------------------------------------------------------

  /** The status after the first statement of init(): an untouched status
      becomes INITIALIZED | CALIBRATION_REQUIRED; the worker is spawned
      exactly in that case. */
  function Initialised(status: Status): Status
  {
    if status == {} then status + {STATE_INITIALIZED, STATE_CALIBRATION_REQUIRED} else status
  }

  /** init() spawns the background worker exactly when the status is 0. */
  predicate SpawnsWorker(status: Status) { status == {} }

  /** init() runs a calibration exactly when CALIBRATION_REQUIRED is set after
      its first statement. */
  predicate CalibrationDue(status: Status)
  {
    STATE_CALIBRATION_REQUIRED in Initialised(status)
  }

  /** The status init() leaves. */
  function InitStatus(status: Status): (r: Status)
    ensures CalibrationDue(status) ==>
      r == Initialised(status) - {STATE_CALIBRATION_REQUIRED, STATE_CALIBRATION_INPROGRESS}
    ensures CalibrationDue(status) ==>
      STATE_CALIBRATION_REQUIRED !in r && STATE_CALIBRATION_INPROGRESS !in r
    ensures !CalibrationDue(status) ==> r == status
    ensures Pressed(r) == Pressed(status) && HoldTriggered(r) == HoldTriggered(status)
    ensures (STATE_INITIALIZED in r) == (STATE_INITIALIZED in status || status == {})
  {
    var s := Initialised(status);
    if STATE_CALIBRATION_REQUIRED in s then
      ((s - {STATE_CALIBRATION_REQUIRED}) + {STATE_CALIBRATION_INPROGRESS}) - {STATE_CALIBRATION_INPROGRESS}
    else s
  }

  /** The status calibrate() leaves: it sets CALIBRATION_REQUIRED, then runs
      init(), which clears both calibration bits and touches no other. */
  function CalibrateStatus(status: Status): (r: Status)
    ensures STATE_CALIBRATION_REQUIRED !in r && STATE_CALIBRATION_INPROGRESS !in r
    ensures r == status - {STATE_CALIBRATION_REQUIRED, STATE_CALIBRATION_INPROGRESS}
  {
    InitStatus(status + {STATE_CALIBRATION_REQUIRED})
  }

  /** The first public call on a fresh button spawns the worker, calibrates,
      and leaves only INITIALIZED set. */
  lemma FreshInitialises()
    ensures SpawnsWorker({}) && CalibrationDue({})
    ensures InitStatus({}) == {STATE_INITIALIZED}
    ensures Word(InitStatus({})) == 16
  {
  }

  /** calibrate() on a fresh button skips the spawn (the status is no longer 0
      when init() tests it) and leaves the status 0 again, so the next public
      call initialises and calibrates once more. */
  lemma CalibrateOnFreshButton()
    ensures !SpawnsWorker({STATE_CALIBRATION_REQUIRED})
    ensures CalibrationDue({STATE_CALIBRATION_REQUIRED})
    ensures CalibrateStatus({}) == {}
    ensures SpawnsWorker(CalibrateStatus({})) && CalibrationDue(CalibrateStatus({}))
  {
  }

  /** Once initialised and calibrated, a later init() changes nothing. */
  lemma InitIsIdempotent(status: Status)
    requires STATE_INITIALIZED in status
    requires STATE_CALIBRATION_REQUIRED !in status
    ensures !SpawnsWorker(status) && !CalibrationDue(status)
    ensures InitStatus(status) == status
  {
  }

  // ---------------------------------------------------------------------------
  // The idle worker's guard (touch.ts:105-106)
  // ---------------------------------------------------------------------------

  /** The worker runs the periodic callback only when neither calibration bit is set. */
  predicate WorkerMayRun(status: Status)
  {
    STATE_CALIBRATION_INPROGRESS !in status && STATE_CALIBRATION_REQUIRED !in status
  }

  /** init() opens the worker's guard again: whether it spawned the worker,
      calibrated, or did nothing to a status with both calibration bits clear,
      neither calibration bit is set afterwards. */
  lemma InitOpensWorker(status: Status)
    requires WorkerMayRun(status) || STATE_CALIBRATION_REQUIRED in status
    ensures WorkerMayRun(InitStatus(status))
  {
  }

  /** In terms of the word: the two calibration bits are its top bits, so the
      guard `status & (64 | 32)` is 0 exactly when the word is below 32. */
  lemma WorkerGuard(status: Status)
    ensures WorkerMayRun(status) <==> Word(status) < 32
  {
  }

  // ---------------------------------------------------------------------------
  // Debounce counter and event transition (touch.ts:111-160)
  // ---------------------------------------------------------------------------

  /** The fields of the button that the periodic callback reads or writes. */
  datatype Fields = Fields(threshold: int, lastReading: int, status: Status, sigma: int, downStartTime: int)
  {
    /** isActive(): the last reading has reached the threshold (touch.ts:202-204). */
    predicate IsActive() { threshold <= lastReading }
  }

  /** The new fields after one tick, and the events it raised, in order. */
  datatype Outcome = Outcome(fields: Fields, raised: seq<TouchButtonEvent>)

  /** The saturating update of sigma (touch.ts:119-126). */
  function Debounce(sigma: int, active: bool): (r: int)
    ensures SIGMA_THRESH_MIN <= sigma <= SIGMA_THRESH_MAX ==> SIGMA_THRESH_MIN <= r <= SIGMA_THRESH_MAX
    ensures r == sigma + 1 <==> active && sigma < SIGMA_THRESH_MAX
    ensures r == sigma - 1 <==> !active && sigma > SIGMA_THRESH_MIN
    ensures r == sigma <==> (active && sigma >= SIGMA_THRESH_MAX) || (!active && sigma <= SIGMA_THRESH_MIN)
  {
    if active then
      if sigma < SIGMA_THRESH_MAX then sigma + 1 else sigma
    else
      if sigma > SIGMA_THRESH_MIN then sigma - 1 else sigma
  }

  /** The else-if chain on the updated sigma (touch.ts:129-159). */
  function Transition(f: Fields, now: int): Outcome
  {
    if f.sigma >= SIGMA_THRESH_HI && !Pressed(f.status) then
      Outcome(f.(status := f.status + {STATE}, downStartTime := now), [Down])
    else if f.sigma <= SIGMA_THRESH_LO && Pressed(f.status) then
      Outcome(f.(status := f.status - {STATE}),
              if now - f.downStartTime >= LONG_CLICK_TIME then [Up, LongClick] else [Up])
    else if Pressed(f.status) && !HoldTriggered(f.status) && now - f.downStartTime >= BUTTON_HOLD_TIME then
      Outcome(f.(status := f.status + {STATE_HOLD_TRIGGERED}), [Hold])
    else
      Outcome(f, [])
  }

  /** periodicCallback(): read a batch, update sigma, run the transition. */
  function Tick(f: Fields, batch: Batch, now: int): Outcome
  {
    var read := f.(lastReading := Average(batch));
    Transition(read.(sigma := Debounce(f.sigma, read.IsActive())), now)
  }

  /** One tick keeps sigma inside [SIGMA_THRESH_MIN, SIGMA_THRESH_MAX]; it rises
      by one exactly when the averaged reading reaches the threshold and sigma
      is below the maximum, and falls by one exactly when the reading is below
      the threshold and sigma is above the minimum. */
  lemma TickSigma(f: Fields, batch: Batch, now: int)
    requires SIGMA_THRESH_MIN <= f.sigma <= SIGMA_THRESH_MAX
    ensures var g := Tick(f, batch, now).fields;
      && SIGMA_THRESH_MIN <= g.sigma <= SIGMA_THRESH_MAX
      && (g.sigma == f.sigma + 1 <==> f.threshold <= Average(batch) && f.sigma < SIGMA_THRESH_MAX)
      && (g.sigma == f.sigma - 1 <==> Average(batch) < f.threshold && f.sigma > SIGMA_THRESH_MIN)
      && (g.sigma == f.sigma + 1 || g.sigma == f.sigma || g.sigma == f.sigma - 1)
  {
  }

  /** One tick stores the averaged reading and leaves the threshold, and every
      status bit other than STATE and STATE_HOLD_TRIGGERED, as they were. */
  lemma TickFrame(f: Fields, batch: Batch, now: int)
    ensures var g := Tick(f, batch, now).fields;
      && g.lastReading == Average(batch)
      && g.threshold == f.threshold
      && g.status - {STATE, STATE_HOLD_TRIGGERED} == f.status - {STATE, STATE_HOLD_TRIGGERED}
      && (HoldTriggered(f.status) ==> HoldTriggered(g.status))
  {
  }

  /** Down is raised exactly when the button was released and the updated
      sigma reached SIGMA_THRESH_HI; the tick then raises nothing else, sets
      STATE and records the press time. */
  lemma TickDown(f: Fields, batch: Batch, now: int)
    ensures var o := Tick(f, batch, now);
      && (Down in o.raised <==> !Pressed(f.status) && o.fields.sigma >= SIGMA_THRESH_HI)
      && (Down in o.raised ==>
            o.raised == [Down] && o.fields.downStartTime == now &&
            o.fields.status == f.status + {STATE})
  {
  }

  /** Up is raised exactly when the button was pressed and the updated sigma
      fell to SIGMA_THRESH_LO or below; the tick then clears only STATE and
      raises LongClick after Up exactly when at least LONG_CLICK_TIME elapsed
      since the press. */
  lemma TickUp(f: Fields, batch: Batch, now: int)
    ensures var o := Tick(f, batch, now);
      && (Up in o.raised <==> Pressed(f.status) && o.fields.sigma <= SIGMA_THRESH_LO)
      && (Up in o.raised ==>
            o.fields.status == f.status - {STATE} &&
            o.fields.downStartTime == f.downStartTime &&
            o.raised == if now - f.downStartTime >= LONG_CLICK_TIME then [Up, LongClick] else [Up])
  {
  }

  /** Hold is raised exactly when the button is pressed and stays pressed,
      Hold has not been triggered, and BUTTON_HOLD_TIME has elapsed since the
      press; the tick then sets STATE_HOLD_TRIGGERED. */
  lemma TickHold(f: Fields, batch: Batch, now: int)
    ensures var o := Tick(f, batch, now);
      && (Hold in o.raised <==>
            Pressed(f.status) && o.fields.sigma > SIGMA_THRESH_LO &&
            !HoldTriggered(f.status) && now - f.downStartTime >= BUTTON_HOLD_TIME)
      && (Hold in o.raised ==>
            o.raised == [Hold] && o.fields.status == f.status + {STATE_HOLD_TRIGGERED} &&
            o.fields.downStartTime == f.downStartTime)
  {
  }

  /** A tick raises at most one of Down, Up and Hold; LongClick only directly
      after Up; and a tick that raises nothing changes no status bit. */
  lemma TickRaisesAtMostOne(f: Fields, batch: Batch, now: int)
    ensures var o := Tick(f, batch, now);
      && (o.raised == [] || o.raised == [Down] || o.raised == [Up] ||
          o.raised == [Up, LongClick] || o.raised == [Hold])
      && (o.raised == [] ==> o.fields.status == f.status && o.fields.downStartTime == f.downStartTime)
  {
  }

  // ---------------------------------------------------------------------------
  // Properties of the event log
  // ---------------------------------------------------------------------------

  /** The Down and Up events of a log, in order. */
  function Presses(log: seq<TouchButtonEvent>): (p: seq<TouchButtonEvent>)
    ensures |p| <= |log|
  {
    if log == [] then []
    else (if log[0] == Down || log[0] == Up then [log[0]] else []) + Presses(log[1..])
  }

  lemma {:induction false} PressesConcat(a: seq<TouchButtonEvent>, b: seq<TouchButtonEvent>)
    ensures Presses(a + b) == Presses(a) + Presses(b)
  {
    if a == [] {
      assert a + b == b;
    } else {
      var head: seq<TouchButtonEvent> := if a[0] == Down || a[0] == Up then [a[0]] else [];
      assert (a + b)[0] == a[0];
      assert (a + b)[1..] == a[1..] + b;
      assert Presses(a + b) == head + Presses(a[1..] + b);
      PressesConcat(a[1..], b);
      assert head + (Presses(a[1..]) + Presses(b)) == (head + Presses(a[1..])) + Presses(b);
    }
  }

  /** Down and Up alternate, starting with Up when `pressed` and with Down otherwise. */
  predicate Alternating(p: seq<TouchButtonEvent>, pressed: bool)
    decreases |p|
  {
    p == [] || (p[0] == (if pressed then Up else Down) && Alternating(p[1..], !pressed))
  }

  /** The pressed state after the alternating presses p, started from `pressed`. */
  function PressedAfter(p: seq<TouchButtonEvent>, pressed: bool): bool
  {
    pressed != (|p| % 2 == 1)
  }

  lemma {:induction false} AlternatingConcat(a: seq<TouchButtonEvent>, b: seq<TouchButtonEvent>, pressed: bool)
    ensures Alternating(a + b, pressed) <==> Alternating(a, pressed) && Alternating(b, PressedAfter(a, pressed))
    decreases |a|
  {
    if a == [] {
      assert a + b == b;
    } else {
      assert (a + b)[1..] == a[1..] + b;
      AlternatingConcat(a[1..], b, !pressed);
    }
  }

  /** Every LongClick of the log comes directly after an Up; `afterUp` says
      whether the event before the log was an Up. */
  predicate LongClicksFollowUpFrom(log: seq<TouchButtonEvent>, afterUp: bool)
    decreases |log|
  {
    log == [] || ((log[0] == LongClick ==> afterUp) && LongClicksFollowUpFrom(log[1..], log[0] == Up))
  }

  /** Every LongClick of the log comes directly after an Up of the log. */
  predicate LongClicksFollowUp(log: seq<TouchButtonEvent>)
  {
    LongClicksFollowUpFrom(log, false)
  }

  /** Whether the last event, after `afterUp` as the state before the log, is an Up. */
  function EndsWithUp(log: seq<TouchButtonEvent>, afterUp: bool): bool
  {
    if log == [] then afterUp else log[|log| - 1] == Up
  }

  /** The quantified reading of LongClicksFollowUp. */
  lemma {:induction false} LongClicksFollowUpAt(log: seq<TouchButtonEvent>, i: nat)
    requires LongClicksFollowUp(log)
    requires i < |log| && log[i] == LongClick
    ensures 0 < i && log[i - 1] == Up
  {
    LongClickFollowsUpFrom(log, false, i);
  }

  lemma {:induction false} LongClickFollowsUpFrom(log: seq<TouchButtonEvent>, afterUp: bool, i: nat)
    requires LongClicksFollowUpFrom(log, afterUp)
    requires i < |log| && log[i] == LongClick
    ensures if i == 0 then afterUp else log[i - 1] == Up
    decreases i
  {
    if i > 0 {
      LongClickFollowsUpFrom(log[1..], log[0] == Up, i - 1);
    }
  }

  lemma {:induction false} LongClicksFollowUpWeaken(log: seq<TouchButtonEvent>, afterUp: bool)
    requires LongClicksFollowUpFrom(log, false)
    ensures LongClicksFollowUpFrom(log, afterUp)
  {
  }

  lemma {:induction false} LongClicksFollowUpConcat(a: seq<TouchButtonEvent>, b: seq<TouchButtonEvent>, afterUp: bool)
    ensures LongClicksFollowUpFrom(a + b, afterUp) <==>
      LongClicksFollowUpFrom(a, afterUp) && LongClicksFollowUpFrom(b, EndsWithUp(a, afterUp))
    decreases |a|
  {
    if a == [] {
      assert a + b == b;
    } else {
      assert (a + b)[1..] == a[1..] + b;
      LongClicksFollowUpConcat(a[1..], b, a[0] == Up);
      if a[1..] != [] {
        assert a[1..][|a[1..]| - 1] == a[|a| - 1];
      }
    }
  }

  /** The parity of Down/Up events composes over concatenated logs. */
  lemma PressedAfterConcat(a: seq<TouchButtonEvent>, b: seq<TouchButtonEvent>, pressed: bool)
    ensures PressedAfter(a + b, pressed) == PressedAfter(b, PressedAfter(a, pressed))
  {
    assert |a + b| == |a| + |b|;
  }

  /** What a stretch of events raised between status s and status t
      guarantees: its Down and Up events alternate, continuing from the pressed
      state of s and ending in the pressed state of t; STATE_HOLD_TRIGGERED is
      never cleared, and Hold was raised once if it went from clear to set and
      never otherwise; every LongClick directly follows an Up of the stretch. */
  ghost predicate Continues(raised: seq<TouchButtonEvent>, s: PressState, t: PressState)
  {
    && Alternating(Presses(raised), s.pressed)
    && t.pressed == PressedAfter(Presses(raised), s.pressed)
    && (s.held ==> t.held)
    && multiset(raised)[Hold] == (if t.held then 1 else 0) - (if s.held then 1 else 0)
    && LongClicksFollowUp(raised)
  }

  lemma ContinuesConcat(a: seq<TouchButtonEvent>, b: seq<TouchButtonEvent>, s: PressState, m: PressState, t: PressState)
    requires Continues(a, s, m) && Continues(b, m, t)
    ensures Continues(a + b, s, t)
  {
    PressesConcat(a, b);
    AlternatingConcat(Presses(a), Presses(b), s.pressed);
    PressedAfterConcat(Presses(a), Presses(b), s.pressed);
    LongClicksFollowUpWeaken(b, EndsWithUp(a, false));
    LongClicksFollowUpConcat(a, b, false);
    assert multiset(a + b) == multiset(a) + multiset(b);
  }

  /** What the event log of a button says about its status: the log is what
      was raised since the fresh status 0, so Down and Up alternate starting
      with Down, STATE is set exactly when the last of them was Down, Hold was
      raised once if STATE_HOLD_TRIGGERED is set and never otherwise, and every
      LongClick follows an Up. */
  ghost predicate LogConsistent(log: seq<TouchButtonEvent>, status: Status)
  {
    Continues(log, Bits({}), Bits(status))
  }

  /** The events one tick raises continue from the status before it to the status after it. */
  lemma TickContinues(f: Fields, batch: Batch, now: int)
    ensures Continues(Tick(f, batch, now).raised, Bits(f.status), Bits(Tick(f, batch, now).fields.status))
  {
    var o := Tick(f, batch, now);
    TickRaisesAtMostOne(f, batch, now);
    TickHold(f, batch, now);
    TickFrame(f, batch, now);
    if o.raised == [Up, LongClick] {
      assert Presses(o.raised) == [Up] + Presses([LongClick]);
    }
  }

  /** One tick keeps the log consistent with the status (periodicCallback
      appends exactly the events it raises to the log). */
  lemma TickKeepsLogConsistent(f: Fields, batch: Batch, now: int, log: seq<TouchButtonEvent>)
    requires LogConsistent(log, f.status)
    ensures LogConsistent(log + Tick(f, batch, now).raised, Tick(f, batch, now).fields.status)
  {
    var o := Tick(f, batch, now);
    TickContinues(f, batch, now);
    ContinuesConcat(log, o.raised, Bits({}), Bits(f.status), Bits(o.fields.status));
  }

  // ---------------------------------------------------------------------------
  // Runs of ticks
  // ---------------------------------------------------------------------------

  /** The input of one tick: the batch read and the time of the tick. */
  datatype Sample = Sample(batch: Batch, now: int)

  /** Successive ticks from f; the events of all of them, in order. */
  function Run(f: Fields, ticks: seq<Sample>): Outcome
    decreases |ticks|
  {
    if ticks == [] then Outcome(f, [])
    else
      var first := Tick(f, ticks[0].batch, ticks[0].now);
      var rest := Run(first.fields, ticks[1..]);
      Outcome(rest.fields, first.raised + rest.raised)
  }

  /** The number of ticks whose averaged reading reaches the threshold. */
  function ActiveTicks(threshold: int, ticks: seq<Sample>): (n: nat)
    ensures n <= |ticks|
  {
    if ticks == [] then 0
    else (if threshold <= Average(ticks[0].batch) then 1 else 0) + ActiveTicks(threshold, ticks[1..])
  }

  /** sigma stays within its bounds over any number of ticks, and the threshold is kept. */
  lemma {:induction false} RunSigmaBounds(f: Fields, ticks: seq<Sample>)
    requires SIGMA_THRESH_MIN <= f.sigma <= SIGMA_THRESH_MAX
    ensures SIGMA_THRESH_MIN <= Run(f, ticks).fields.sigma <= SIGMA_THRESH_MAX
    ensures Run(f, ticks).fields.threshold == f.threshold
    decreases |ticks|
  {
    if ticks != [] {
      TickSigma(f, ticks[0].batch, ticks[0].now);
      RunSigmaBounds(Tick(f, ticks[0].batch, ticks[0].now).fields, ticks[1..]);
    }
  }

  /** The events of any run continue from the status at its start to the status at its end. */
  lemma {:induction false} RunContinues(f: Fields, ticks: seq<Sample>)
    ensures Continues(Run(f, ticks).raised, Bits(f.status), Bits(Run(f, ticks).fields.status))
    decreases |ticks|
  {
    if ticks != [] {
      var first := Tick(f, ticks[0].batch, ticks[0].now);
      var rest := Run(first.fields, ticks[1..]);
      TickContinues(f, ticks[0].batch, ticks[0].now);
      RunContinues(first.fields, ticks[1..]);
      ContinuesConcat(first.raised, rest.raised, Bits(f.status), Bits(first.fields.status), Bits(rest.fields.status));
    }
  }

  /** Over any run the Down and Up events alternate, continuing from the
      pressed state at the start, and STATE at the end reflects the last of
      them; from a released button exactly one Down is raised before the next Up. */
  lemma RunAlternates(f: Fields, ticks: seq<Sample>)
    ensures var o := Run(f, ticks);
      && Alternating(Presses(o.raised), Pressed(f.status))
      && Pressed(o.fields.status) == PressedAfter(Presses(o.raised), Pressed(f.status))
  {
    RunContinues(f, ticks);
  }

  /** STATE_HOLD_TRIGGERED is never cleared, so over any run Hold is raised
      once when the bit goes from clear to set and never otherwise: at most
      one Hold in the whole lifetime of a button. */
  lemma RunHoldAtMostOnce(f: Fields, ticks: seq<Sample>)
    ensures var o := Run(f, ticks);
      && (HoldTriggered(f.status) ==> HoldTriggered(o.fields.status))
      && multiset(o.raised)[Hold] <= 1
      && (HoldTriggered(f.status) ==> Hold !in o.raised)
  {
    RunContinues(f, ticks);
  }

  /** From a released button, sigma can only have grown by the number of
      active ticks while no Down was raised; and a Down needs at least
      SIGMA_THRESH_HI - sigma active ticks. */
  lemma {:induction false} RunDownNeedsEvidence(f: Fields, ticks: seq<Sample>)
    requires !Pressed(f.status)
    requires SIGMA_THRESH_MIN <= f.sigma <= SIGMA_THRESH_MAX
    ensures var o := Run(f, ticks);
      && (Down !in o.raised ==> !Pressed(o.fields.status) && o.fields.sigma <= f.sigma + ActiveTicks(f.threshold, ticks))
      && (Down in o.raised ==> ActiveTicks(f.threshold, ticks) >= SIGMA_THRESH_HI - f.sigma)
    decreases |ticks|
  {
    if ticks != [] {
      var first := Tick(f, ticks[0].batch, ticks[0].now);
      var rest := Run(first.fields, ticks[1..]);
      TickSigma(f, ticks[0].batch, ticks[0].now);
      TickFrame(f, ticks[0].batch, ticks[0].now);
      TickDown(f, ticks[0].batch, ticks[0].now);
      TickRaisesAtMostOne(f, ticks[0].batch, ticks[0].now);
      if Down !in first.raised {
        assert !Pressed(first.fields.status);
        RunDownNeedsEvidence(first.fields, ticks[1..]);
      }
    }
  }

  /** Starting from sigma == 0 and released, at least SIGMA_THRESH_HI active
      ticks are needed before any Down; shorter bursts of touch evidence are
      rejected as noise. */
  lemma FirstDownNeedsFourActiveTicks(f: Fields, ticks: seq<Sample>)
    requires !Pressed(f.status) && f.sigma == 0
    requires Down in Run(f, ticks).raised
    ensures ActiveTicks(f.threshold, ticks) >= SIGMA_THRESH_HI
  {
    RunDownNeedsEvidence(f, ticks);
  }

  /** Conversely, from a released button, SIGMA_THRESH_HI - sigma consecutive
      active ticks raise exactly one Down, on the last of them, which records
      that tick's time as the press time. */
  lemma {:induction false} ActiveTicksRaiseDown(f: Fields, ticks: seq<Sample>)
    requires !Pressed(f.status)
    requires SIGMA_THRESH_MIN <= f.sigma && f.sigma + |ticks| == SIGMA_THRESH_HI && ticks != []
    requires forall i :: 0 <= i < |ticks| ==> f.threshold <= Average(ticks[i].batch)
    ensures var o := Run(f, ticks);
      && o.raised == [Down] && o.fields.downStartTime == ticks[|ticks| - 1].now
      && Pressed(o.fields.status) && o.fields.sigma == SIGMA_THRESH_HI
    decreases |ticks|
  {
    var first := Tick(f, ticks[0].batch, ticks[0].now);
    var rest := Run(first.fields, ticks[1..]);
    assert f.threshold <= Average(ticks[0].batch);
    TickSigma(f, ticks[0].batch, ticks[0].now);
    TickFrame(f, ticks[0].batch, ticks[0].now);
    TickDown(f, ticks[0].batch, ticks[0].now);
    TickUp(f, ticks[0].batch, ticks[0].now);
    TickHold(f, ticks[0].batch, ticks[0].now);
    TickRaisesAtMostOne(f, ticks[0].batch, ticks[0].now);
    if |ticks| == 1 {
      assert first.raised == [Down];
      assert ticks[1..] == [];
      assert first.raised + rest.raised == [Down];
    } else {
      assert first.raised == [];
      forall i | 0 <= i < |ticks[1..]|
        ensures first.fields.threshold <= Average(ticks[1..][i].batch)
      {
        assert ticks[1..][i] == ticks[i + 1];
      }
      ActiveTicksRaiseDown(first.fields, ticks[1..]);
      assert ticks[1..][|ticks[1..]| - 1] == ticks[|ticks| - 1];
      assert first.raised + rest.raised == rest.raised;
    }
  }

  /** From sigma == 0 and released, four consecutive active ticks raise
      exactly one Down, on the fourth, whatever the readings and times. */
  lemma FourActiveTicksRaiseDown(f: Fields, ticks: seq<Sample>)
    requires !Pressed(f.status) && f.sigma == 0 && |ticks| == 4
    requires forall i :: 0 <= i < 4 ==> f.threshold <= Average(ticks[i].batch)
    ensures Run(f, ticks).raised == [Down] && Run(f, ticks).fields.downStartTime == ticks[3].now
  {
    ActiveTicksRaiseDown(f, ticks);
  }

  // ---------------------------------------------------------------------------
  // Scenarios
  // ---------------------------------------------------------------------------

  /** Threshold 204, sigma 0, released: four ticks reading 210 raise Down on
      the fourth tick and nothing before. */
  lemma PressScenario(f: Fields, t0: int, t1: int, t2: int, t3: int)
    requires f.threshold == 204 && f.sigma == 0 && !Pressed(f.status)
    ensures var b: Batch := [210, 210, 210, 210];
      var o1 := Tick(f, b, t0);
      var o2 := Tick(o1.fields, b, t1);
      var o3 := Tick(o2.fields, b, t2);
      var o4 := Tick(o3.fields, b, t3);
      && o1.raised == [] && o2.raised == [] && o3.raised == []
      && o4.raised == [Down] && o4.fields.sigma == 4 && o4.fields.downStartTime == t3
      && Pressed(o4.fields.status)
  {
    var b: Batch := [210, 210, 210, 210];
    SumOfEqual(b, 210);
  }

  /** After that Down, two ticks reading 50 bring sigma down to 2 and raise Up,
      followed on the same tick by LongClick since at least LONG_CLICK_TIME elapsed. */
  lemma ReleaseScenario(f: Fields, t0: int, t1: int)
    requires f.threshold == 204 && f.sigma == 4 && Pressed(f.status)
    requires f.downStartTime + LONG_CLICK_TIME <= t1
    requires t0 - f.downStartTime < BUTTON_HOLD_TIME
    ensures var b: Batch := [50, 50, 50, 50];
      var o1 := Tick(f, b, t0);
      var o2 := Tick(o1.fields, b, t1);
      && o1.raised == [] && o2.raised == [Up, LongClick] && o2.fields.sigma == 2
      && !Pressed(o2.fields.status)
  {
    var b: Batch := [50, 50, 50, 50];
    SumOfEqual(b, 50);
  }
}
