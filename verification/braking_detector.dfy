/** The hard-braking detector (O-Buddy's `BrakingViewModel`). Every speed
    sample is compared with the previous one; within a plausible sampling
    interval the deceleration rate is turned into an intensity between 0
    and 1, and a rate above 10 km/h/s records a braking event unless one was
    recorded less than 3 seconds before.

    The clock is the parameter `now` (seconds), the fresh event identifier
    the parameter `freshId`. The intensity is published asynchronously in
    the source, after the handler has returned; the event built during the
    handler therefore reads the intensity of the previous evaluated sample.
    The model makes that order explicit. */
module BrakingDetector {
  import opened Wrappers
  import opened BrakingEvents

  /** The thresholds of the source: a sampling interval strictly between
      0.1 s and 2 s is evaluated, a rate above 10 km/h/s is hard braking,
      30 km/h/s is full intensity, and events are at least 3 s apart. */
  const MinInterval: real := 0.1
  const MaxInterval: real := 2.0
  const SpeedDecelThreshold: real := 10.0
  const FullIntensityRate: real := 30.0
  const DebounceInterval: real := 3.0

  datatype Detector = Detector(
    events: seq<BrakingEvent>,
    isBraking: bool,
    brakingIntensity: real,
    previousSpeed: int,
    lastUpdateTime: real)

  /** A new detector, created at time `createdAt`. */
  function Init(createdAt: real): (d: Detector)
    ensures d.events == [] && !d.isBraking && d.brakingIntensity == 0.0
    ensures d.previousSpeed == 0 && d.lastUpdateTime == createdAt
  {
    Detector([], false, 0.0, 0, createdAt)
  }

  /** `min(max(x, 0), 1)`. */
  function Clamp01(x: real): (r: real)
    ensures 0.0 <= r <= 1.0
    ensures 0.0 <= x <= 1.0 ==> r == x
    ensures x <= 0.0 ==> r == 0.0
    ensures x >= 1.0 ==> r == 1.0
  {
    if x < 0.0 then 0.0 else if x > 1.0 then 1.0 else x
  }

  /** Whether a sampling interval is evaluated at all. */
  predicate InWindow(dt: real) {
    MinInterval < dt < MaxInterval
  }

  /** The deceleration between two speed samples `dt` seconds apart, in
      km/h/s: positive when the car slows down. */
  function DecelerationRate(previousSpeed: int, newSpeed: int, dt: real): (rate: real)
    requires dt > 0.0
    ensures rate * dt == (previousSpeed - newSpeed) as real
    ensures rate > 0.0 <==> newSpeed < previousSpeed
  {
    (previousSpeed - newSpeed) as real / dt
  }

  /** Whether the debounce lets a new event through at time `now`: there is
      no event yet, or the last one is more than 3 s old. */
  predicate DebounceAllows(events: seq<BrakingEvent>, now: real) {
    |events| == 0 || now - events[|events| - 1].timestamp > DebounceInterval
  }

  /** `handleBrakingEvent`: the detector reports braking and, unless
      debounced, records an event with the rate, the speed and the intensity
      published so far. */
  function HandleBrakingEvent(d: Detector, rate: real, speed: int, now: real, freshId: nat): (r: Detector)
    ensures r.isBraking
    ensures r == d.(isBraking := true, events := r.events)
    ensures DebounceAllows(d.events, now) ==>
      r.events == d.events + [NewEvent(freshId, now, rate, Some(speed), intensity := d.brakingIntensity)]
    ensures !DebounceAllows(d.events, now) ==> r.events == d.events
  {
    var events :=
      if DebounceAllows(d.events, now)
      then d.events + [NewEvent(freshId, now, rate, Some(speed), intensity := d.brakingIntensity)]
      else d.events;
    d.(isBraking := true, events := events)
  }

  /** `checkBrakingParameters`: one speed sample at time `now`. */
  function CheckBrakingParameters(d: Detector, newSpeed: int, now: real, freshId: nat): (r: Detector)
    ensures r.previousSpeed == newSpeed && r.lastUpdateTime == now
    ensures !InWindow(now - d.lastUpdateTime) ==>
      r == d.(previousSpeed := newSpeed, lastUpdateTime := now)
    ensures InWindow(now - d.lastUpdateTime) ==>
      var rate := DecelerationRate(d.previousSpeed, newSpeed, now - d.lastUpdateTime);
      && r.brakingIntensity == Clamp01(rate / FullIntensityRate)
      && r.isBraking == (d.isBraking || rate > SpeedDecelThreshold)
      && (rate > SpeedDecelThreshold ==>
            r.events == HandleBrakingEvent(d, rate, newSpeed, now, freshId).events)
      && (rate <= SpeedDecelThreshold ==> r.events == d.events)
  {
    var dt := now - d.lastUpdateTime;
    if !InWindow(dt) then
      d.(previousSpeed := newSpeed, lastUpdateTime := now)
    else
      var rate := DecelerationRate(d.previousSpeed, newSpeed, dt);
      var normalized := Clamp01(rate / FullIntensityRate);
      var d1 := if rate > SpeedDecelThreshold then HandleBrakingEvent(d, rate, newSpeed, now, freshId) else d;
      // the asynchronous publication of the intensity lands after the event
      d1.(brakingIntensity := normalized, previousSpeed := newSpeed, lastUpdateTime := now)
  }

  /** `addLocationToLastEvent`: on an empty list nothing happens; otherwise
      the last event gets the location and the address. */
  function AddLocationToLastEvent(d: Detector, location: Option<Coordinate>, address: string): (r: Detector)
    ensures |d.events| == 0 ==> r == d
    ensures r == d.(events := r.events)
    ensures |r.events| == |d.events|
    ensures |d.events| > 0 ==>
      && r.events[..|d.events| - 1] == d.events[..|d.events| - 1]
      && r.events[|d.events| - 1] == WithLocation(d.events[|d.events| - 1], location).(address := address)
  {
    if |d.events| == 0 then d
    else
      var i := |d.events| - 1;
      d.(events := d.events[i := WithLocation(d.events[i], location).(address := address)])
  }
}
