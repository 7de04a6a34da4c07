// Passengers, stations, schools and the bus: the values a search state is made of.

module Types {

  /** A passenger waits at its origin stop and rides to the stop of its school. */
  datatype Passenger = Passenger(origin: nat, destination: nat)

  /** A stop and the passengers currently waiting there, in arrival order. */
  datatype Station = Station(id: nat, passengers: seq<Passenger>)

  /** A school and the stop it is located at. */
  datatype School = School(id: nat, stationId: nat)

  /** The bus: where it started, where it is, how many it may carry and who is on board. */
  datatype Bus = Bus(origin: nat, current: nat, capacity: nat, passengers: seq<Passenger>)

  // ---------------------------------------------------------------------------
  // Default values
  // ---------------------------------------------------------------------------

  /** The default passenger goes from stop 0 to stop 0. */
  function DefaultPassenger(): (p: Passenger)
    ensures p.origin == 0 && p.destination == 0
  {
    Passenger(0, 0)
  }

  /** The default bus sits at stop 0, started there, carries no one and may carry no one. */
  function DefaultBus(): (b: Bus)
    ensures b.origin == 0 && b.current == 0 && b.capacity == 0
    ensures b.passengers == []
  {
    Bus(0, 0, 0, [])
  }

  // ---------------------------------------------------------------------------
  // Comparisons
  // ---------------------------------------------------------------------------

  /** Passenger `==`: both stops agree. */
  function SamePassenger(a: Passenger, b: Passenger): (r: bool)
    ensures r <==> a == b
  {
    a.origin == b.origin && a.destination == b.destination
  }

  /** Passenger `!=`, written out independently as "some stop differs". */
  function DifferentPassenger(a: Passenger, b: Passenger): (r: bool)
    ensures r <==> !SamePassenger(a, b)
  {
    a.origin != b.origin || a.destination != b.destination
  }

  /** Station `<`: stop ids only; the waiting passengers play no part. */
  function StationLess(a: Station, b: Station): bool
  {
    a.id < b.id
  }

  /** StationLess is a strict order that cannot tell apart two stations with the same id. */
  lemma StationLessIsStrictOnIds(a: Station, b: Station, c: Station)
    ensures !StationLess(a, a)
    ensures StationLess(a, b) ==> !StationLess(b, a)
    ensures StationLess(a, b) && StationLess(b, c) ==> StationLess(a, c)
    ensures a.id == b.id ==> !StationLess(a, b) && !StationLess(b, a)
    ensures StationLess(a, b) || StationLess(b, a) || a.id == b.id
  {
  }

  // ---------------------------------------------------------------------------
  // Assignment operators
  // ---------------------------------------------------------------------------

  /**
   * The station left-hand side `target` holds after `target = source`: the id is
   * copied, but the source's passengers are appended after the target's own.
   * When both sides are the same object nothing changes.
   */
  function StationAssigned(target: Station, source: Station, sameObject: bool): Station
  {
    if sameObject then target else Station(source.id, target.passengers + source.passengers)
  }

  /** The bus assignment overwrites the stops and the capacity and appends the passengers. */
  function BusAssigned(target: Bus, source: Bus, sameObject: bool): Bus
  {
    if sameObject then target
    else Bus(source.origin, source.current, source.capacity, target.passengers + source.passengers)
  }

  /**
   * Station assignment, one `push_back` per source passenger. Self-assignment
   * (the `this != &other` guard) is the `sameObject` flag, since values have no
   * addresses here.
   */
  method AssignStation(target: Station, source: Station, sameObject: bool) returns (r: Station)
    requires sameObject ==> target == source
    ensures r == StationAssigned(target, source, sameObject)
  {
    r := target;
    if !sameObject {
      var ps := target.passengers;
      var k := 0;
      while k < |source.passengers|
        invariant 0 <= k <= |source.passengers|
        invariant ps == target.passengers + source.passengers[..k]
      {
        ps := ps + [source.passengers[k]];
        k := k + 1;
      }
      r := Station(source.id, ps);
    }
  }

  /** Bus assignment, fields first, then one `push_back` per source passenger. */
  method AssignBus(target: Bus, source: Bus, sameObject: bool) returns (r: Bus)
    requires sameObject ==> target == source
    ensures r == BusAssigned(target, source, sameObject)
  {
    r := target;
    if !sameObject {
      var ps := target.passengers;
      var k := 0;
      while k < |source.passengers|
        invariant 0 <= k <= |source.passengers|
        invariant ps == target.passengers + source.passengers[..k]
      {
        ps := ps + [source.passengers[k]];
        k := k + 1;
      }
      r := Bus(source.origin, source.current, source.capacity, ps);
    }
  }

  /**
   * Station assignment is a copy only when the target had no passengers; in
   * every other case the target keeps its old passengers in front.
   */
  lemma StationAssignmentCopiesOnlyIntoEmpty(target: Station, source: Station)
    ensures StationAssigned(target, source, false) == source <==> target.passengers == []
    ensures multiset(StationAssigned(target, source, false).passengers)
            == multiset(target.passengers) + multiset(source.passengers)
  {
    var r := StationAssigned(target, source, false);
    if r == source {
      assert |target.passengers| + |source.passengers| == |source.passengers|;
    }
  }

  /**
   * Bus assignment is a copy only when the target had no passengers; assigning
   * the same bus twice doubles its passenger list.
   */
  lemma BusAssignmentCopiesOnlyIntoEmpty(target: Bus, source: Bus)
    ensures BusAssigned(target, source, false) == source <==> target.passengers == []
    ensures var twice := BusAssigned(BusAssigned(target, source, false), source, false);
            twice.passengers == target.passengers + source.passengers + source.passengers
  {
    var r := BusAssigned(target, source, false);
    if r == source {
      assert |target.passengers| + |source.passengers| == |source.passengers|;
    }
  }
}
