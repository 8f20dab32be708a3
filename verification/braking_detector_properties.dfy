/** What the braking detector guarantees over any sequence of speed
    samples: the published intensity stays in [0, 1], recorded events are
    only ever appended and are more than 3 seconds apart, and exactly which
    sample records an event. */
module BrakingDetectorProperties {
  import opened Wrappers
  import opened BrakingEvents
  import opened BrakingDetector

  /** A speed sample as the detector receives it: the speed, the time it is
      handled, and the identifier a new event would get. */
  datatype Sample = Sample(speed: int, time: real, freshId: nat)

  function Step(d: Detector, s: Sample): Detector {
    CheckBrakingParameters(d, s.speed, s.time, s.freshId)
  }

  /** Samples handled one after another, oldest first. */
  function Run(d: Detector, samples: seq<Sample>): Detector
    decreases |samples|
  {
    if |samples| == 0 then d else Step(Run(d, samples[..|samples| - 1]), samples[|samples| - 1])
  }

  predicate InUnitRange(x: real) {
    0.0 <= x <= 1.0
  }

  /** Successive events are more than the debounce interval apart. */
  predicate Spaced(events: seq<BrakingEvent>) {
    forall i :: 0 < i < |events| ==> events[i].timestamp - events[i - 1].timestamp > DebounceInterval
  }

  /** The detector's invariant: the published intensity and every recorded
      intensity lie in [0, 1], and the events are spaced. */
  predicate Valid(d: Detector) {
    && InUnitRange(d.brakingIntensity)
    && (forall i :: 0 <= i < |d.events| ==> InUnitRange(d.events[i].intensity))
    && Spaced(d.events)
  }

  lemma InitValid(createdAt: real)
    ensures Valid(Init(createdAt))
  {
  }

  /** Appending an event after the debounce keeps the events spaced, and an
      event carrying an in-range intensity keeps every intensity in range. */
  lemma AppendKeepsValid(d: Detector, e: BrakingEvent, now: real)
    requires Valid(d) && DebounceAllows(d.events, now)
    requires e.timestamp == now && InUnitRange(e.intensity)
    ensures Spaced(d.events + [e])
    ensures forall i :: 0 <= i < |d.events + [e]| ==> InUnitRange((d.events + [e])[i].intensity)
  {
    var es := d.events + [e];
    forall i | 0 < i < |es| ensures es[i].timestamp - es[i - 1].timestamp > DebounceInterval {
      if i < |d.events| {
        assert es[i] == d.events[i] && es[i - 1] == d.events[i - 1];
      }
    }
    forall i | 0 <= i < |es| ensures InUnitRange(es[i].intensity) {
      if i < |d.events| {
        assert es[i] == d.events[i];
      }
    }
  }

  /** One sample keeps the invariant. */
  lemma StepKeepsValid(d: Detector, s: Sample)
    requires Valid(d)
    ensures Valid(Step(d, s))
  {
    var dt := s.time - d.lastUpdateTime;
    if InWindow(dt) {
      var rate := DecelerationRate(d.previousSpeed, s.speed, dt);
      if rate > SpeedDecelThreshold && DebounceAllows(d.events, s.time) {
        AppendKeepsValid(d, NewEvent(s.freshId, s.time, rate, Some(s.speed), intensity := d.brakingIntensity),
                         s.time);
      }
    }
  }

  lemma RunSnoc(d: Detector, init: seq<Sample>, last: Sample)
    ensures Run(d, init + [last]) == Step(Run(d, init), last)
  {
    assert (init + [last])[..|init|] == init;
  }

  /** Over any trace: the invariant holds throughout, the events recorded
      before are kept as they were (append-only), and at most one event is
      recorded per sample. */
  lemma {:induction false} RunKeepsValid(d: Detector, samples: seq<Sample>)
    requires Valid(d)
    ensures Valid(Run(d, samples))
    ensures d.events <= Run(d, samples).events
    ensures |Run(d, samples).events| <= |d.events| + |samples|
    decreases |samples|
  {
    if |samples| > 0 {
      var init, last := samples[..|samples| - 1], samples[|samples| - 1];
      assert samples == init + [last];
      RunKeepsValid(d, init);
      RunSnoc(d, init, last);
      StepKeepsValid(Run(d, init), last);
      StepAppendsAtMostOne(Run(d, init), last);
    }
  }

  /** The events after a sample extend those before by at most one. */
  lemma StepAppendsAtMostOne(d: Detector, s: Sample)
    ensures d.events <= Step(d, s).events
    ensures |Step(d, s).events| <= |d.events| + 1
  {
  }

  /** Exactly when a sample records an event: the interval is evaluated,
      the rate exceeds the threshold and the debounce allows it. The event
      then holds the rate, the new speed, the time, the fresh identifier and
      the intensity published before this sample. */
  lemma EventIffHardBraking(d: Detector, newSpeed: int, now: real, freshId: nat)
    ensures var r := CheckBrakingParameters(d, newSpeed, now, freshId);
      var dt := now - d.lastUpdateTime;
      (|r.events| == |d.events| + 1)
        <==> (InWindow(dt) && DecelerationRate(d.previousSpeed, newSpeed, dt) > SpeedDecelThreshold
              && DebounceAllows(d.events, now))
    ensures var r := CheckBrakingParameters(d, newSpeed, now, freshId);
      var dt := now - d.lastUpdateTime;
      |r.events| == |d.events| + 1 ==>
        r.events[|d.events|] == NewEvent(freshId, now, DecelerationRate(d.previousSpeed, newSpeed, dt),
                                         Some(newSpeed), intensity := d.brakingIntensity)
  {
  }

  /** A speed that did not drop never records an event, whatever the
      interval. */
  lemma NoEventWithoutDeceleration(d: Detector, newSpeed: int, now: real, freshId: nat)
    requires newSpeed >= d.previousSpeed
    ensures CheckBrakingParameters(d, newSpeed, now, freshId).events == d.events
  {
  }

  /** The intensity an event records is the one published by the previous
      evaluated sample, not the one computed for the braking itself: from a
      new detector, a sample of 100 km/h one second later (speeding up, so
      intensity 0) followed by 70 km/h one second after that (30 km/h/s,
      full intensity) records an event with intensity 0 while 1 is
      published. */
  lemma EventIntensityIsStale()
    ensures var d := Run(Init(0.0), [Sample(100, 1.0, 1), Sample(70, 2.0, 2)]);
      && |d.events| == 1
      && d.events[0].deceleration == 30.0
      && d.events[0].intensity == 0.0
      && d.brakingIntensity == 1.0
  {
    var d1 := Step(Init(0.0), Sample(100, 1.0, 1));
    assert d1.brakingIntensity == 0.0 && d1.events == [];
    assert Run(Init(0.0), [Sample(100, 1.0, 1), Sample(70, 2.0, 2)]) == Step(d1, Sample(70, 2.0, 2)) by {
      RunSnoc(Init(0.0), [Sample(100, 1.0, 1)], Sample(70, 2.0, 2));
      assert [Sample(100, 1.0, 1)] + [Sample(70, 2.0, 2)] == [Sample(100, 1.0, 1), Sample(70, 2.0, 2)];
      RunSnoc(Init(0.0), [], Sample(100, 1.0, 1));
      assert [] + [Sample(100, 1.0, 1)] == [Sample(100, 1.0, 1)];
    }
    assert DecelerationRate(100, 70, 1.0) == 30.0;
  }

  /** In general, an event records the intensity the previous sample
      published, whatever this sample's own rate. */
  lemma EventCarriesPreviousIntensity(d: Detector, s1: Sample, s2: Sample)
    requires InWindow(s1.time - d.lastUpdateTime)
    ensures var d1 := Step(d, s1);
      var d2 := Step(d1, s2);
      |d2.events| == |d1.events| + 1 ==>
        d2.events[|d1.events|].intensity
          == Clamp01(DecelerationRate(d.previousSpeed, s1.speed, s1.time - d.lastUpdateTime) / FullIntensityRate)
  {
    EventIffHardBraking(Step(d, s1), s2.speed, s2.time, s2.freshId);
  }

  /** Attaching a location keeps the invariant and every event's identity:
      only the last event's location and address can change. */
  lemma AddLocationKeepsValid(d: Detector, location: Option<Coordinate>, address: string)
    requires Valid(d)
    ensures var r := AddLocationToLastEvent(d, location, address);
      && Valid(r)
      && forall i :: 0 <= i < |d.events| ==> SameIdentity(r.events[i], d.events[i])
  {
    var r := AddLocationToLastEvent(d, location, address);
    if |d.events| > 0 {
      var n := |d.events|;
      forall i | 0 <= i < n ensures SameIdentity(r.events[i], d.events[i]) && r.events[i].intensity == d.events[i].intensity {
        if i < n - 1 {
          assert r.events[i] == r.events[..n - 1][i];
        }
      }
    }
  }
}
