/** A recorded hard-braking event (O-Buddy's `BrakingEvent`). A `UUID` is a
    natural number chosen by the caller, a `Date` the number of seconds on
    some fixed clock, and `Double` a real number. A `CLLocation` is reduced
    to its coordinate pair. */
module BrakingEvents {
  import opened Wrappers

  datatype Coordinate = Coordinate(latitude: real, longitude: real)

  /** `id`, `timestamp`, `deceleration` and `speed` are set once, by the
      initializer; the other fields are the struct's `var`s. */
  datatype BrakingEvent = BrakingEvent(
    id: nat,
    timestamp: real,
    deceleration: real,
    speed: Option<int>,
    intensity: real,
    latitude: Option<real>,
    longitude: Option<real>,
    address: string,
    fuelUsedLiters: real,
    fuelCost: real,
    speedAtReturn: Option<int>)

  /** The memberwise initializer with its defaults: no intensity, no
      location, no address, no fuel figures and no return speed. Latitude
      and longitude both come from the location, or are both absent. */
  function NewEvent(id: nat, timestamp: real, deceleration: real, speed: Option<int>,
                    intensity: real := 0.0, location: Option<Coordinate> := None, address: string := "",
                    fuelUsedLiters: real := 0.0, fuelCost: real := 0.0,
                    speedAtReturn: Option<int> := None): (e: BrakingEvent)
    ensures e.id == id && e.timestamp == timestamp && e.deceleration == deceleration && e.speed == speed
    ensures e.intensity == intensity && e.address == address
    ensures e.fuelUsedLiters == fuelUsedLiters && e.fuelCost == fuelCost && e.speedAtReturn == speedAtReturn
    ensures e.latitude.Some? <==> location.Some?
    ensures e.longitude.Some? <==> location.Some?
    ensures location.Some? ==>
      e.latitude == Some(location.value.latitude) && e.longitude == Some(location.value.longitude)
  {
    BrakingEvent(id, timestamp, deceleration, speed, intensity,
                 if location.Some? then Some(location.value.latitude) else None,
                 if location.Some? then Some(location.value.longitude) else None,
                 address, fuelUsedLiters, fuelCost, speedAtReturn)
  }

  /** The computed `location`: present exactly when both coordinates are. */
  function Location(e: BrakingEvent): (loc: Option<Coordinate>)
    ensures loc.Some? <==> e.latitude.Some? && e.longitude.Some?
    ensures loc.Some? ==> Some(loc.value.latitude) == e.latitude && Some(loc.value.longitude) == e.longitude
  {
    if e.latitude.Some? && e.longitude.Some? then Some(Coordinate(e.latitude.value, e.longitude.value))
    else None
  }

  /** Setting `location`: both coordinates are taken from it, or both are
      cleared, as the initializer does. */
  function WithLocation(e: BrakingEvent, location: Option<Coordinate>): (r: BrakingEvent)
    ensures r == e.(latitude := r.latitude, longitude := r.longitude)
    ensures r.latitude.Some? <==> location.Some?
    ensures r.longitude.Some? <==> location.Some?
  {
    e.(latitude := if location.Some? then Some(location.value.latitude) else None,
       longitude := if location.Some? then Some(location.value.longitude) else None)
  }

  /** What an event records once created and can never change. */
  predicate SameIdentity(a: BrakingEvent, b: BrakingEvent) {
    a.id == b.id && a.timestamp == b.timestamp && a.deceleration == b.deceleration && a.speed == b.speed
  }

  /** The location given to the initializer is the location read back. */
  lemma LocationRoundTrip(id: nat, timestamp: real, deceleration: real, speed: Option<int>,
                           location: Option<Coordinate>)
    ensures Location(NewEvent(id, timestamp, deceleration, speed, location := location)) == location
  {
    var e := NewEvent(id, timestamp, deceleration, speed, location := location);
    if location.Some? {
      assert e.latitude == Some(location.value.latitude);
      assert e.longitude == Some(location.value.longitude);
    }
  }

  /** Setting a location and reading it back gives that location; nothing
      the initializer fixed changes. */
  lemma SetLocationRoundTrip(e: BrakingEvent, location: Option<Coordinate>)
    ensures Location(WithLocation(e, location)) == location
    ensures SameIdentity(WithLocation(e, location), e)
  {
  }

  /** A location read from an event and written back changes nothing. */
  lemma LocationWriteBack(e: BrakingEvent)
    requires e.latitude.Some? <==> e.longitude.Some?
    ensures WithLocation(e, Location(e)) == e
  {
  }
}
