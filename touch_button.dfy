/** The capacitive button of touch.ts as an object whose methods update its
    fields in place. The analog pin is replaced by the readings each method is
    given, the event bus by the log `events`, and the background task by the
    flag `workerSpawned` and the single worker step IdleWorkerStep. */
module Touch {
  import opened TouchLogic

  /** The value of `x | 0` in JavaScript: x wrapped to a signed 32-bit integer. */
  function ToInt32(x: int): (r: int)
    ensures -0x8000_0000 <= r < 0x8000_0000
    ensures (x - r) % 0x1_0000_0000 == 0
    ensures -0x8000_0000 <= x < 0x8000_0000 ==> r == x
  {
    var m := x % 0x1_0000_0000;
    if m < 0x8000_0000 then m else m - 0x1_0000_0000
  }

  class CapacitiveButton {
    /** The identifier every raised event and every subscription is addressed to. */
    const id: int
    var threshold: int
    var lastReading: int
    var status: Status
    var sigma: int
    var downStartTime: int

    /** The events raised with control.raiseEvent(id, _), oldest first. */
    var events: seq<TouchButtonEvent>
    /** The event kinds registered with control.onEvent(id, _, handler), oldest first. */
    var subscriptions: seq<TouchButtonEvent>
    /** Whether control.inBackground has started idleWorker. */
    var workerSpawned: bool

    /** The object invariant: sigma within its bounds, lastReading either the
        initial -1 or an averaged reading, no reading yet only while the next
        init() will calibrate, the worker spawned exactly when INITIALIZED is
        set, and the event log consistent with the STATE and
        STATE_HOLD_TRIGGERED bits. */
    ghost predicate Valid()
      reads this
    {
      && SIGMA_THRESH_MIN <= sigma <= SIGMA_THRESH_MAX
      && -1 <= lastReading <= ANALOG_MAX
      && (lastReading < 0 ==> CalibrationDue(status))
      && (workerSpawned <==> STATE_INITIALIZED in status)
      && LogConsistent(events, status)
    }

    /** The fields the periodic callback works on. */
    function Snapshot(): Fields
      reads this
    {
      Fields(threshold, lastReading, status, sigma, downStartTime)
    }

    /** isActive(): the comparison of the last reading with the threshold. */
    predicate IsActive()
      reads this
    {
      Snapshot().IsActive()
    }

    /** What init() does to the fields, given the calibration readings it would use. */
    twostate predicate InitEffect(rounds: seq<Batch>)
      reads this
    {
      && |rounds| == CALIBRATION_SAMPLES
      && status == InitStatus(old(status))
      && workerSpawned == (old(workerSpawned) || SpawnsWorker(old(status)))
      && (if CalibrationDue(old(status)) then
            threshold == CalibrationThreshold(rounds) && lastReading == Average(rounds[CALIBRATION_SAMPLES - 1])
          else
            threshold == old(threshold) && lastReading == old(lastReading))
      && sigma == old(sigma) && downStartTime == old(downStartTime) && events == old(events)
    }

    /** What periodicCallback() does: the fields become those of one Tick, the
        events it raised are appended to the log, and nothing else changes. */
    twostate predicate TickEffect(batch: Batch, now: int)
      reads this
    {
      var o := Tick(old(Snapshot()), batch, now);
      && Snapshot() == o.fields
      && events == old(events) + o.raised
      && workerSpawned == old(workerSpawned)
      && subscriptions == old(subscriptions)
    }

    constructor (id: int)
      ensures Valid()
      ensures this.id == id && threshold == 1023 && sigma == 0 && status == {}
      ensures lastReading == -1 && downStartTime == 0
      ensures events == [] && subscriptions == [] && !workerSpawned
    {
      this.id := id;
      threshold := 1023;
      sigma := 0;
      status := {};
      lastReading := -1;
      downStartTime := 0;
      events := [];
      subscriptions := [];
      workerSpawned := false;
    }

    /** read(): sum the CAP_SAMPLES reads of the pin and store their integer average. */
    method Read(samples: Batch) returns (r: int)
      modifies this`lastReading
      ensures r == lastReading == Average(samples)
    {
      var reading: int := 0;
      var i := 0;
      while i < CAP_SAMPLES
        invariant 0 <= i <= CAP_SAMPLES
        invariant reading == Sum(samples[..i])
      {
        assert samples[..i + 1][..i] == samples[..i];
        reading := reading + samples[i];
        i := i + 1;
      }
      assert samples[..CAP_SAMPLES] == samples;
      lastReading := IDiv(reading, CAP_SAMPLES);
      r := lastReading;
    }

    /** init(): on an untouched status spawn the worker and require a
        calibration; then, if one is required, calibrate from the eight
        rounds of readings. */
    method Init(rounds: seq<Batch>)
      requires Valid()
      requires |rounds| == CALIBRATION_SAMPLES
      modifies this
      ensures Valid()
      ensures InitEffect(rounds)
      ensures subscriptions == old(subscriptions)
      ensures (STATE_CALIBRATION_REQUIRED !in status && STATE_CALIBRATION_INPROGRESS !in status) ||
              status == old(status)
      ensures WorkerMayRun(old(status)) || STATE_CALIBRATION_REQUIRED in old(status) ==> WorkerMayRun(status)
    {
      ghost var status0 := status;
      if status == {} {
        status := status + {STATE_INITIALIZED, STATE_CALIBRATION_REQUIRED};
        workerSpawned := true;
      }
      if STATE_CALIBRATION_REQUIRED in status {
        RunCalibration(rounds);
      }
      assert Bits(status) == Bits(status0);
    }

    /** The calibration block of init(): mark the calibration in progress,
        take the largest of eight averaged readings, add the offset, and
        clear both calibration bits. */
    method RunCalibration(rounds: seq<Batch>)
      requires |rounds| == CALIBRATION_SAMPLES
      modifies this`status, this`threshold, this`lastReading
      ensures status == old(status) - {STATE_CALIBRATION_REQUIRED, STATE_CALIBRATION_INPROGRESS}
      ensures threshold == CalibrationThreshold(rounds)
      ensures lastReading == Average(rounds[CALIBRATION_SAMPLES - 1])
    {
      status := status - {STATE_CALIBRATION_REQUIRED};
      status := status + {STATE_CALIBRATION_INPROGRESS};
      threshold := 0;
      var i := 0;
      while i < CALIBRATION_SAMPLES
        modifies this`threshold, this`lastReading
        invariant 0 <= i <= CALIBRATION_SAMPLES
        invariant !WorkerMayRun(status)
        invariant threshold == MaxReading(rounds[..i])
        invariant i > 0 ==> lastReading == Average(rounds[i - 1])
      {
        var reading := Read(rounds[i]);
        assert rounds[..i + 1][..i] == rounds[..i];
        threshold := Max(threshold, reading);
        i := i + 1;
      }
      assert rounds[..CALIBRATION_SAMPLES] == rounds;
      threshold := threshold + CALIBRATION_CONSTANT_OFFSET;
      status := status - {STATE_CALIBRATION_INPROGRESS};
    }

    /** periodicCallback(): read the pin, update the debounce counter sigma,
        then run the state transition. */
    method PeriodicCallback(batch: Batch, now: int)
      requires Valid()
      modifies this
      ensures Valid()
      ensures TickEffect(batch, now)
      ensures WorkerMayRun(old(status)) ==> WorkerMayRun(status)
    {
      ghost var before := Snapshot();
      ghost var log := events;
      var _ := Read(batch);
      UpdateSigma();
      ghost var read := before.(lastReading := Average(batch));
      assert Snapshot() == read.(sigma := Debounce(before.sigma, read.IsActive()));
      Transition(now);
      ghost var o := Tick(before, batch, now);
      assert Snapshot() == o.fields && events == log + o.raised;
      TickSigma(before, batch, now);
      TickFrame(before, batch, now);
      TickKeepsLogConsistent(before, batch, now, log);
    }

    /** The saturating update of sigma in periodicCallback(): one up while
        active, one down while not, within [SIGMA_THRESH_MIN, SIGMA_THRESH_MAX]. */
    method UpdateSigma()
      modifies this`sigma
      ensures sigma == Debounce(old(sigma), IsActive())
    {
      if IsActive() {
        if sigma < SIGMA_THRESH_MAX {
          sigma := sigma + 1;
        }
      } else {
        if sigma > SIGMA_THRESH_MIN {
          sigma := sigma - 1;
        }
      }
    }

    /** The else-if chain of periodicCallback() on the updated sigma: Down on
        the way up through SIGMA_THRESH_HI, Up (and possibly LongClick) on the
        way down through SIGMA_THRESH_LO, Hold once a press has lasted
        BUTTON_HOLD_TIME. */
    method Transition(now: int)
      modifies this`status, this`events, this`downStartTime
      ensures var o := TouchLogic.Transition(old(Snapshot()), now);
        Snapshot() == o.fields && events == old(events) + o.raised
    {
      if sigma >= SIGMA_THRESH_HI && STATE !in status {
        status := status + {STATE};
        events := events + [Down];
        downStartTime := now;
      } else if sigma <= SIGMA_THRESH_LO && STATE in status {
        status := status - {STATE};
        events := events + [Up];
        var elapsed := now - downStartTime;
        if elapsed >= LONG_CLICK_TIME {
          events := events + [LongClick];
        }
      } else if STATE in status && STATE_HOLD_TRIGGERED !in status &&
                now - downStartTime >= BUTTON_HOLD_TIME {
        status := status + {STATE_HOLD_TRIGGERED};
        events := events + [Hold];
      }
    }

    /** One iteration of idleWorker(): run the periodic callback unless a
        calibration is required or in progress. */
    method IdleWorkerStep(batch: Batch, now: int)
      requires Valid()
      requires workerSpawned
      modifies this
      ensures Valid()
      ensures WorkerMayRun(old(status)) ==> TickEffect(batch, now)
      ensures !WorkerMayRun(old(status)) ==> unchanged(this)
    {
      if STATE_CALIBRATION_INPROGRESS !in status && STATE_CALIBRATION_REQUIRED !in status {
        PeriodicCallback(batch, now);
      }
    }

    /** calibrate(): require a calibration, then init(). It never spawns the
        worker itself, and always leaves a fresh threshold. */
    method Calibrate(rounds: seq<Batch>)
      requires Valid()
      requires |rounds| == CALIBRATION_SAMPLES
      modifies this
      ensures Valid()
      ensures status == CalibrateStatus(old(status)) && WorkerMayRun(status)
      ensures threshold == CalibrationThreshold(rounds)
      ensures lastReading == Average(rounds[CALIBRATION_SAMPLES - 1])
      ensures workerSpawned == old(workerSpawned)
      ensures sigma == old(sigma) && downStartTime == old(downStartTime)
      ensures events == old(events) && subscriptions == old(subscriptions)
    {
      status := status + {STATE_CALIBRATION_REQUIRED};
      Init(rounds);
    }

    /** onEvent(event, handler): init(), then subscribe to the event kind. */
    method OnEvent(event: TouchButtonEvent, rounds: seq<Batch>)
      requires Valid()
      requires |rounds| == CALIBRATION_SAMPLES
      modifies this
      ensures Valid()
      ensures InitEffect(rounds)
      ensures WorkerMayRun(old(status)) ==> WorkerMayRun(status)
      ensures subscriptions == old(subscriptions) + [event]
    {
      Init(rounds);
      subscriptions := subscriptions + [event];
    }

    /** isTouched(): init(), then the undebounced comparison isActive(). */
    method IsTouched(rounds: seq<Batch>) returns (touched: bool)
      requires Valid()
      requires |rounds| == CALIBRATION_SAMPLES
      modifies this
      ensures Valid()
      ensures InitEffect(rounds) && subscriptions == old(subscriptions)
      ensures WorkerMayRun(old(status)) ==> WorkerMayRun(status)
      ensures touched == (threshold <= lastReading)
    {
      Init(rounds);
      touched := IsActive();
    }

    /** value(): init(), then the last averaged reading. */
    method Value(rounds: seq<Batch>) returns (v: int)
      requires Valid()
      requires |rounds| == CALIBRATION_SAMPLES
      modifies this
      ensures Valid()
      ensures InitEffect(rounds) && subscriptions == old(subscriptions)
      ensures WorkerMayRun(old(status)) ==> WorkerMayRun(status)
      ensures v == lastReading && 0 <= v <= ANALOG_MAX
    {
      Init(rounds);
      v := ToInt32(lastReading);
    }
  }

  /** Two calibrations on the same ambient readings leave the same threshold. */
  method CalibrateTwice(b: CapacitiveButton, rounds: seq<Batch>) returns (first: int, second: int)
    requires b.Valid()
    requires |rounds| == CALIBRATION_SAMPLES
    modifies b
    ensures b.Valid()
    ensures first == second == b.threshold == CalibrationThreshold(rounds)
  {
    b.Calibrate(rounds);
    first := b.threshold;
    b.Calibrate(rounds);
    second := b.threshold;
  }

  /** value() right after a worker step that ran reports the reading of that
      step, not a stale one: a button whose worker runs needs no calibration. */
  method ValueAfterTick(b: CapacitiveButton, batch: Batch, now: int, rounds: seq<Batch>) returns (v: int)
    requires b.Valid() && b.workerSpawned && WorkerMayRun(b.status)
    requires |rounds| == CALIBRATION_SAMPLES
    modifies b
    ensures b.Valid()
    ensures v == Average(batch)
  {
    b.IdleWorkerStep(batch, now);
    InitIsIdempotent(b.status);
    v := b.Value(rounds);
  }

  /** A fresh button asked to calibrate does not start its worker; the next
      public call starts it and calibrates again. */
  method CalibrateFreshButton(id: int, rounds: seq<Batch>, again: seq<Batch>) returns (b: CapacitiveButton)
    requires |rounds| == CALIBRATION_SAMPLES && |again| == CALIBRATION_SAMPLES
    ensures b.Valid() && b.workerSpawned
    ensures b.status == {STATE_INITIALIZED}
    ensures b.threshold == CalibrationThreshold(again)
  {
    b := new CapacitiveButton(id);
    b.Calibrate(rounds);
    CalibrateOnFreshButton();
    assert !b.workerSpawned && b.status == {};
    var _ := b.IsTouched(again);
    FreshInitialises();
  }
}
