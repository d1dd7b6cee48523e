/**
 * The safety shutoff of the reconciliation tick: once a device has been
 * tracked as heating for `disableAfterSeconds`, it is forced off.
 *
 * A tick whose connect step succeeded mirrors the controller's power state
 * into the record and then takes one decision. The timer `heatingSince`
 * starts when the device is seen on with no timer running, and is cleared
 * only by a successful forced turn-off: seeing the device off leaves it.
 */
module Shutoff {
  import opened JsValue

  datatype Action = Idle | StartTimer | ForceOff

  /** `(now - heatingSince) / 1000`: milliseconds to seconds */
  function ElapsedSeconds(now: int, since: int): real {
    (now - since) as real / 1000.0
  }

  /**
   * The decision of one tick, taken on the freshly mirrored power state:
   * without a limit nothing happens; without a timer one starts iff the
   * device is on; a running timer forces the device off once it reached the limit
   */
  function Policy(limit: Option<real>, since: Option<int>, on: bool, now: int): (a: Action)
    ensures a == StartTimer <==> limit.Some? && since.None? && on
    ensures a == ForceOff <==> limit.Some? && since.Some? && ElapsedSeconds(now, since.value) >= limit.value
  {
    if limit.None? then Idle
    else if since.None? then (if on then StartTimer else Idle)
    else if ElapsedSeconds(now, since.value) < limit.value then Idle
    else ForceOff
  }

  /** The record fields a tick writes */
  datatype Timer = Timer(state: bool, heatingSince: Option<int>)

  /**
   * The record after a tick whose connect step succeeded: the power state is
   * mirrored; the timer starts only when the device is on and a limit is set,
   * and is cleared only by a forced turn-off that succeeded.
   */
  function AfterTick(t: Timer, on: bool, limit: Option<real>, now: int, offOk: bool): (r: Timer)
    ensures r.state == on
    ensures limit.None? ==> r.heatingSince == t.heatingSince
    ensures t.heatingSince.None? && r.heatingSince.Some? ==> on && limit.Some? && r.heatingSince == Some(now)
    ensures t.heatingSince.Some? && r.heatingSince != t.heatingSince ==>
      r.heatingSince.None? && offOk && limit.Some? && ElapsedSeconds(now, t.heatingSince.value) >= limit.value
    ensures t.heatingSince.None? && on && limit.Some? ==> r.heatingSince == Some(now)
    ensures t.heatingSince.Some? && limit.Some? && offOk && ElapsedSeconds(now, t.heatingSince.value) >= limit.value ==>
      r.heatingSince.None?
  {
    match Policy(limit, t.heatingSince, on, now)
    case Idle => Timer(on, t.heatingSince)
    case StartTimer => Timer(on, Some(now))
    case ForceOff => Timer(on, if offOk then None else t.heatingSince)
  }

  /** One tick whose connect step succeeded: the clock, the power state read, whether a turn-off would succeed */
  datatype Sample = Sample(now: int, on: bool, offOk: bool)

  /** Elapsed milliseconds of the timer at each forced turn-off along a run of ticks */
  function Shutoffs(t: Timer, limit: Option<real>, samples: seq<Sample>): seq<int>
    decreases |samples|
  {
    if samples == [] then []
    else
      var s := samples[0];
      var here := if Policy(limit, t.heatingSince, s.on, s.now) == ForceOff
        then [s.now - t.heatingSince.value] else [];
      here + Shutoffs(AfterTick(t, s.on, limit, s.now, s.offOk), limit, samples[1..])
  }

  /** After a tick at `last`, a running timer has not yet reached the limit, or was started at `last` */
  ghost predicate Settled(t: Timer, limit: real, last: int) {
    t.heatingSince.Some? ==>
      var h := t.heatingSince.value;
      h <= last && (ElapsedSeconds(last, h) < limit || h == last)
  }

  /** Ticks strictly after `last`, each at most `period` milliseconds after the one before */
  ghost predicate Paced(last: int, samples: seq<Sample>, period: nat)
    decreases |samples|
  {
    samples == [] ||
    (last < samples[0].now <= last + period && Paced(samples[0].now, samples[1..], period))
  }

  /**
   * With a non-negative limit, ticks at most `period` apart and turn-offs
   * that succeed, every forced turn-off happens when the timer has run for at
   * least the limit and at most one tick period longer.
   */
  lemma {:induction false} ShutoffWindow(t: Timer, limit: real, last: int, samples: seq<Sample>, period: nat)
    requires 0.0 <= limit
    requires Settled(t, limit, last)
    requires Paced(last, samples, period)
    requires forall i :: 0 <= i < |samples| ==> samples[i].offOk
    ensures forall e :: e in Shutoffs(t, Some(limit), samples) ==>
      1000.0 * limit <= e as real <= 1000.0 * limit + period as real
    decreases |samples|
  {
    if samples != [] {
      var s := samples[0];
      var t' := AfterTick(t, s.on, Some(limit), s.now, s.offOk);
      assert Settled(t', limit, s.now);
      assert forall i :: 0 <= i < |samples[1..]| ==> samples[1..][i].offOk by {
        forall i | 0 <= i < |samples[1..]| ensures samples[1..][i].offOk {
          assert samples[1..][i] == samples[i + 1];
        }
      }
      ShutoffWindow(t', limit, s.now, samples[1..], period);
    }
  }

  /** Every tick of the run sees the device on, and every forced turn-off succeeds */
  ghost predicate AlwaysOn(samples: seq<Sample>) {
    forall i :: 0 <= i < |samples| ==> samples[i].on && samples[i].offOk
  }

  lemma AlwaysOnTail(samples: seq<Sample>)
    requires AlwaysOn(samples) && samples != []
    ensures AlwaysOn(samples[1..])
  {
    forall i | 0 <= i < |samples[1..]| ensures samples[1..][i].on && samples[1..][i].offOk {
      assert samples[1..][i] == samples[i + 1];
    }
  }

  /**
   * While the device stays on, a timer started at `h` is first forced off at
   * the first tick at least the limit after `h`
   */
  lemma {:induction false} RunningTimerShutoff(state: bool, h: int, limit: real, samples: seq<Sample>, k: nat)
    requires k < |samples| && AlwaysOn(samples)
    requires forall i :: 0 <= i < k ==> ((samples[i].now - h) as real) < 1000.0 * limit
    requires 1000.0 * limit <= (samples[k].now - h) as real
    ensures var offs := Shutoffs(Timer(state, Some(h)), Some(limit), samples);
      |offs| > 0 && offs[0] == samples[k].now - h
    decreases k
  {
    var s := samples[0];
    if k == 0 {
      assert ElapsedSeconds(s.now, h) >= limit;
    } else {
      assert ((samples[0].now - h) as real) < 1000.0 * limit;
      assert ElapsedSeconds(s.now, h) < limit;
      AlwaysOnTail(samples);
      forall i | 0 <= i < k - 1 ensures ((samples[1..][i].now - h) as real) < 1000.0 * limit {
        assert samples[1..][i] == samples[i + 1];
      }
      assert samples[1..][k - 1] == samples[k];
      RunningTimerShutoff(true, h, limit, samples[1..], k - 1);
    }
  }

  /** While the device stays on and the limit is not reached, a timer started at `h` forces nothing */
  lemma {:induction false} RunningTimerHolds(state: bool, h: int, limit: real, samples: seq<Sample>)
    requires AlwaysOn(samples)
    requires forall i :: 0 <= i < |samples| ==> ((samples[i].now - h) as real) < 1000.0 * limit
    ensures Shutoffs(Timer(state, Some(h)), Some(limit), samples) == []
    decreases |samples|
  {
    if samples != [] {
      assert ((samples[0].now - h) as real) < 1000.0 * limit;
      assert ElapsedSeconds(samples[0].now, h) < limit;
      AlwaysOnTail(samples);
      forall i | 0 <= i < |samples[1..]| ensures ((samples[1..][i].now - h) as real) < 1000.0 * limit {
        assert samples[1..][i] == samples[i + 1];
      }
      RunningTimerHolds(true, h, limit, samples[1..]);
    }
  }

  /**
   * A device seen on at every tick, starting with no timer: the first tick
   * starts the timer, and the first forced turn-off comes at the first later
   * tick at least the limit after the first one
   */
  lemma ContinuousHeatingShutoff(state: bool, limit: real, samples: seq<Sample>, k: nat)
    requires 0 < k < |samples| && AlwaysOn(samples)
    requires forall i :: 0 < i < k ==> ((samples[i].now - samples[0].now) as real) < 1000.0 * limit
    requires 1000.0 * limit <= (samples[k].now - samples[0].now) as real
    ensures var offs := Shutoffs(Timer(state, None), Some(limit), samples);
      |offs| > 0 && offs[0] == samples[k].now - samples[0].now
  {
    var h := samples[0].now;
    AlwaysOnTail(samples);
    forall i | 0 <= i < k - 1 ensures ((samples[1..][i].now - h) as real) < 1000.0 * limit {
      assert samples[1..][i] == samples[i + 1];
    }
    assert samples[1..][k - 1] == samples[k];
    RunningTimerShutoff(true, h, limit, samples[1..], k - 1);
  }

  /** A device seen on at every tick, starting with no timer, is never forced off before the limit is reached */
  lemma ContinuousHeatingBeforeLimit(state: bool, limit: real, samples: seq<Sample>)
    requires samples != [] && AlwaysOn(samples)
    requires forall i :: 0 < i < |samples| ==> ((samples[i].now - samples[0].now) as real) < 1000.0 * limit
    ensures Shutoffs(Timer(state, None), Some(limit), samples) == []
  {
    var h := samples[0].now;
    AlwaysOnTail(samples);
    forall i | 0 <= i < |samples[1..]| ensures ((samples[1..][i].now - h) as real) < 1000.0 * limit {
      assert samples[1..][i] == samples[i + 1];
    }
    RunningTimerHolds(true, h, limit, samples[1..]);
  }

  /** Example: on at every tick with a 10 s limit, the device is forced off at 10 s */
  lemma ContinuousHeating()
    ensures Shutoffs(Timer(false, None), Some(10.0),
      [Sample(0, true, true), Sample(5000, true, true), Sample(10000, true, true)]) == [10000]
  {
  }

  /**
   * A device seen off in between keeps its timer: on at 0 s, off at 5 s, on
   * again by 55 s, it is forced off at 60 s, 5 s into its second heating period.
   */
  lemma TimerSurvivesOffPeriod()
    ensures AfterTick(Timer(true, Some(0)), false, Some(60.0), 5000, true) == Timer(false, Some(0))
    ensures Shutoffs(Timer(false, None), Some(60.0),
      [Sample(0, true, true), Sample(5000, false, true), Sample(55000, true, true), Sample(60000, true, true)]) == [60000]
  {
  }
}
