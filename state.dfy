// A search state: the bus, the passengers waiting at every stop, the cost so
// far, the state id and the expansion record; its successors, the goal test
// and the heuristics.

module SearchState {
  import opened Types
  import opened Transit
  import opened Ledger

  /**
   * The hash that gives a state its id. It sees the bus stop, the passengers
   * (on board first, then those waiting at each stop, stop boundaries not
   * marked) and the parent's id. Nothing is assumed about it, injectivity
   * included.
   */
  type Hasher = (nat, seq<Passenger>, nat) -> nat

  /** The recognised heuristic names. */
  const MaxDistPassengerH: string := "max_distance_passenger"
  const MaxDistStationH: string := "max_distance_station"
  const AllH: string := "all"

  /** A search state. The graph is shared by all states and never changes. */
  datatype State = State(bus: Bus, cost: nat, graph: Graph, stations: seq<Station>,
                         id: nat, heuristic: string, expansion: Expanded)

  // ---------------------------------------------------------------------------
  // Passengers of a state
  // ---------------------------------------------------------------------------

  /** Everyone waiting, stop after stop. */
  function Waiting(stations: seq<Station>): seq<Passenger>
  {
    if stations == [] then [] else stations[0].passengers + Waiting(stations[1..])
  }

  /** Everyone still to deliver: on board or waiting. */
  function Everyone(s: State): multiset<Passenger>
  {
    multiset(s.bus.passengers) + multiset(Waiting(s.stations))
  }

  /** Replacing one stop's list replaces exactly its passengers in the waiting crowd. */
  lemma {:induction false} WaitingUpdate(stations: seq<Station>, i: nat, st: Station)
    requires i < |stations|
    ensures multiset(Waiting(stations[i := st])) + multiset(stations[i].passengers)
            == multiset(Waiting(stations)) + multiset(st.passengers)
    decreases |stations|
  {
    var upd := stations[i := st];
    var head := multiset(stations[0].passengers);
    var o := multiset(stations[i].passengers);
    var n := multiset(st.passengers);
    var rest := multiset(Waiting(stations[1..]));
    assert multiset(Waiting(stations)) == head + rest;
    if i == 0 {
      assert upd[1..] == stations[1..];
      assert multiset(Waiting(upd)) == n + rest;
      assert o == head;
      forall x
        ensures (n + rest + o)[x] == (head + rest + n)[x]
      {
      }
    } else {
      assert upd[1..] == stations[1..][i - 1 := st];
      assert stations[1..][i - 1] == stations[i] && upd[0] == stations[0];
      WaitingUpdate(stations[1..], i - 1, st);
      var updRest := multiset(Waiting(upd[1..]));
      assert multiset(Waiting(upd)) == head + updRest;
      MultisetShift(head, updRest, o, rest, n);
    }
  }

  /** Adding the same multiset on the left keeps an equation of sums. */
  lemma MultisetShift(a: multiset<Passenger>, u: multiset<Passenger>, o: multiset<Passenger>,
                      r: multiset<Passenger>, n: multiset<Passenger>)
    requires u + o == r + n
    ensures a + u + o == a + r + n
  {
    forall x
      ensures (a + u + o)[x] == (a + r + n)[x]
    {
      assert (u + o)[x] == (r + n)[x];
    }
  }

  /** No one waits anywhere exactly when every stop's list is empty. */
  lemma {:induction false} WaitingEmpty(stations: seq<Station>)
    ensures Waiting(stations) == [] <==> forall i :: 0 <= i < |stations| ==> stations[i].passengers == []
    decreases |stations|
  {
    if stations != [] {
      WaitingEmpty(stations[1..]);
      if Waiting(stations) == [] {
        forall i | 0 <= i < |stations|
          ensures stations[i].passengers == []
        {
          if i > 0 {
            assert stations[i] == stations[1..][i - 1];
          }
        }
      }
      if forall i :: 0 <= i < |stations| ==> stations[i].passengers == [] {
        forall i | 0 <= i < |stations[1..]|
          ensures stations[1..][i].passengers == []
        {
          assert stations[1..][i] == stations[i + 1];
        }
      }
    }
  }

  // ---------------------------------------------------------------------------
  // Ids, records and the four constructors
  // ---------------------------------------------------------------------------

  /** The id of a state with this bus and these stops whose parent has id `parent`. */
  function StateId(hash: Hasher, bus: Bus, stations: seq<Station>, parent: nat): nat
  {
    hash(bus.current, bus.passengers + Waiting(stations), parent)
  }

  /**
   * The record of s agrees with s: its id is the state's hash over `parent`,
   * it names the state's stop, and it never claims both an embark and a
   * disembark.
   */
  predicate RecordOf(s: State, hash: Hasher, parent: nat)
  {
    && s.id == StateId(hash, s.bus, s.stations, parent)
    && s.expansion.id == s.id
    && s.expansion.parent == parent
    && s.expansion.station == s.bus.current
    && !(s.expansion.embarking && s.expansion.disembarking)
  }

  /** The initial state: cost 0, parent id 0, no flags, destination 0. */
  function Initial(graph: Graph, stations: seq<Station>, bus: Bus, heuristic: string, hash: Hasher): (s: State)
    ensures RecordOf(s, hash, 0) && s.cost == 0
    ensures !s.expansion.embarking && !s.expansion.disembarking && s.expansion.destination == 0
    ensures s.bus == bus && s.stations == stations && s.graph == graph && s.heuristic == heuristic
  {
    var id := StateId(hash, bus, stations, 0);
    State(bus, 0, graph, stations, id, heuristic, Expanded(id, 0, bus.current, false, false, 0))
  }

  /** What every child inherits from its father: graph, heuristic, and the father's id as parent. */
  predicate ChildOf(father: State, s: State, hash: Hasher)
  {
    RecordOf(s, hash, father.id) && s.graph == father.graph && s.heuristic == father.heuristic
  }

  /** The state reached by a trip: the father's stops, the new bus and cost, no flags. */
  function FromTransition(father: State, newBus: Bus, newCost: nat, hash: Hasher): (s: State)
    ensures ChildOf(father, s, hash)
    ensures s.bus == newBus && s.cost == newCost && s.stations == father.stations
    ensures !s.expansion.embarking && !s.expansion.disembarking && s.expansion.destination == 0
  {
    var id := StateId(hash, newBus, father.stations, father.id);
    State(newBus, newCost, father.graph, father.stations, id, father.heuristic,
          Expanded(id, father.id, newBus.current, false, false, 0))
  }

  /** The state after a disembark: the father's stops, the new bus, one more unit of cost. */
  function FromDisembark(father: State, newBus: Bus, hash: Hasher): (s: State)
    ensures ChildOf(father, s, hash)
    ensures s.bus == newBus && s.cost == father.cost + 1 && s.stations == father.stations
    ensures !s.expansion.embarking && s.expansion.disembarking && s.expansion.destination == 0
  {
    var id := StateId(hash, newBus, father.stations, father.id);
    State(newBus, father.cost + 1, father.graph, father.stations, id, father.heuristic,
          Expanded(id, father.id, newBus.current, false, true, 0))
  }

  /** The state after an embark: new bus and stops, one more unit of cost, the passenger's destination. */
  function FromEmbark(father: State, newBus: Bus, stations: seq<Station>, destination: nat, hash: Hasher): (s: State)
    ensures ChildOf(father, s, hash)
    ensures s.bus == newBus && s.cost == father.cost + 1 && s.stations == stations
    ensures s.expansion.embarking && !s.expansion.disembarking && s.expansion.destination == destination
  {
    var id := StateId(hash, newBus, stations, father.id);
    State(newBus, father.cost + 1, father.graph, stations, id, father.heuristic,
          Expanded(id, father.id, newBus.current, true, false, destination))
  }

  // ---------------------------------------------------------------------------
  // Well-formed states
  // ---------------------------------------------------------------------------

  /** Every passenger waiting at stop `id` starts there and goes to a stop in 1..n. */
  predicate StationOk(st: Station, id: nat, n: nat)
  {
    st.id == id && forall p :: p in st.passengers ==> p.origin == id && 1 <= p.destination <= n
  }

  /**
   * The shape every state of a search keeps: one stop record per graph node,
   * numbered 1..N, the bus at a stop, every passenger bound for a stop.
   */
  predicate WellFormed(s: State)
  {
    && s.graph.WellFormed()
    && |s.stations| == s.graph.vectorCount
    && 1 <= s.bus.current <= |s.stations|
    && (forall i :: 0 <= i < |s.stations| ==> StationOk(s.stations[i], i + 1, |s.stations|))
    && (forall p :: p in s.bus.passengers ==> 1 <= p.destination <= |s.stations|)
  }

  /** No more passengers on board than the bus may carry. */
  predicate WithinCapacity(s: State)
  {
    |s.bus.passengers| <= s.bus.capacity
  }

  // ---------------------------------------------------------------------------
  // The three operations
  // ---------------------------------------------------------------------------

  /** Travel along `trip`: only the bus's stop and the cost change. */
  function TransitToStation(s: State, trip: Transition, hash: Hasher): (r: State)
    ensures ChildOf(s, r, hash)
    ensures r.bus == s.bus.(current := trip.destination) && r.cost == s.cost + trip.cost
    ensures r.stations == s.stations && Everyone(r) == Everyone(s)
  {
    FromTransition(s, s.bus.(current := trip.destination), s.cost + trip.cost, hash)
  }

  /** The position of the first occurrence of p in ps. */
  function FirstIndex(ps: seq<Passenger>, p: Passenger): (k: nat)
    requires p in ps
    ensures k < |ps| && ps[k] == p
    ensures forall j :: 0 <= j < k ==> ps[j] != p
  {
    if ps[0] == p then 0 else 1 + FirstIndex(ps[1..], p)
  }

  /** ps without its first occurrence of p; ps itself when p does not occur. */
  function RemoveFirst(ps: seq<Passenger>, p: Passenger): (r: seq<Passenger>)
    ensures p !in ps ==> r == ps
    ensures p in ps ==> r == ps[..FirstIndex(ps, p)] + ps[FirstIndex(ps, p) + 1..]
  {
    if ps == [] then []
    else if ps[0] == p then ps[1..]
    else
      var rest := RemoveFirst(ps[1..], p);
      FirstIndexInTail(ps, p);
      [ps[0]] + rest
  }

  /** When the head is not p, the first p of ps is the first p of the tail, one place later. */
  lemma FirstIndexInTail(ps: seq<Passenger>, p: Passenger)
    requires ps != [] && ps[0] != p
    ensures p in ps <==> p in ps[1..]
    ensures p in ps ==>
      var k := FirstIndex(ps[1..], p);
      && FirstIndex(ps, p) == k + 1
      && ps[..k + 1] + ps[k + 2..] == [ps[0]] + (ps[1..][..k] + ps[1..][k + 1..])
  {
    if p in ps {
      var i :| 0 <= i < |ps| && ps[i] == p;
      assert ps[1..][i - 1] == p;
      var k := FirstIndex(ps[1..], p);
      assert FirstIndex(ps, p) == k + 1;
      DropAfterHead(ps, k);
    } else {
      assert forall i :: 0 <= i < |ps[1..]| ==> ps[1..][i] == ps[i + 1];
    }
  }

  /** Dropping index k + 1 of a sequence is keeping its head and dropping index k of its tail. */
  lemma DropAfterHead<T>(ps: seq<T>, k: nat)
    requires k + 1 < |ps|
    ensures ps[..k + 1] + ps[k + 2..] == [ps[0]] + (ps[1..][..k] + ps[1..][k + 1..])
  {
    assert ps[..k + 1] == [ps[0]] + ps[1..][..k];
    assert ps[k + 2..] == ps[1..][k + 1..];
  }

  /** RemoveFirst takes away exactly one p when there is one, and nothing else. */
  lemma RemoveFirstCount(ps: seq<Passenger>, p: Passenger)
    ensures p in ps ==> multiset(RemoveFirst(ps, p)) + multiset{p} == multiset(ps)
    ensures forall x :: x in RemoveFirst(ps, p) ==> x in ps
  {
    if p in ps {
      var k := FirstIndex(ps, p);
      assert ps == ps[..k] + [ps[k]] + ps[k + 1..];
    }
  }

  /** The state after p leaves the bus: the bus without its first p, stops untouched. */
  function Disembark(s: State, p: Passenger, hash: Hasher): State
  {
    FromDisembark(s, Bus(s.bus.origin, s.bus.current, s.bus.capacity, RemoveFirst(s.bus.passengers, p)), hash)
  }

  /** The state after p, waiting at the bus's stop, boards: appended to the bus, taken off that stop's list. */
  function Embark(s: State, p: Passenger, hash: Hasher): State
    requires 1 <= s.bus.current <= |s.stations|
  {
    var c := s.bus.current - 1;
    FromEmbark(s, s.bus.(passengers := s.bus.passengers + [p]),
               s.stations[c := s.stations[c].(passengers := RemoveFirst(s.stations[c].passengers, p))],
               p.destination, hash)
  }

  /**
   * Disembark drops the first matching passenger, keeps the rest in order,
   * touches no stop, and (when p is on board) there is exactly one
   * passenger fewer to deliver.
   */
  lemma DisembarkFacts(s: State, p: Passenger, hash: Hasher)
    ensures var r := Disembark(s, p, hash);
      && ChildOf(s, r, hash) && r.cost == s.cost + 1 && r.stations == s.stations
      && r.bus.origin == s.bus.origin && r.bus.current == s.bus.current && r.bus.capacity == s.bus.capacity
      && r.bus.passengers == RemoveFirst(s.bus.passengers, p)
      && (p !in s.bus.passengers ==> r.bus == s.bus)
      && (p in s.bus.passengers ==> Everyone(r) + multiset{p} == Everyone(s))
  {
    RemoveFirstCount(s.bus.passengers, p);
  }

  /**
   * Embark appends p to the bus, removes its first occurrence from the
   * current stop only, and keeps everyone to deliver.
   */
  lemma EmbarkFacts(s: State, p: Passenger, hash: Hasher)
    requires 1 <= s.bus.current <= |s.stations|
    requires p in s.stations[s.bus.current - 1].passengers
    ensures var r := Embark(s, p, hash);
      && ChildOf(s, r, hash) && r.cost == s.cost + 1 && r.expansion.destination == p.destination
      && r.bus == s.bus.(passengers := s.bus.passengers + [p])
      && |r.stations| == |s.stations|
      && r.stations[s.bus.current - 1].passengers == RemoveFirst(s.stations[s.bus.current - 1].passengers, p)
      && (forall i :: 0 <= i < |s.stations| && i != s.bus.current - 1 ==> r.stations[i] == s.stations[i])
      && Everyone(r) == Everyone(s)
  {
    EmbarkConserves(s, p, hash);
  }

  lemma EmbarkConserves(s: State, p: Passenger, hash: Hasher)
    requires 1 <= s.bus.current <= |s.stations|
    requires p in s.stations[s.bus.current - 1].passengers
    ensures Everyone(Embark(s, p, hash)) == Everyone(s)
  {
    var c := s.bus.current - 1;
    var ws := s.stations[c].passengers;
    var st := s.stations[c].(passengers := RemoveFirst(ws, p));
    var r := Embark(s, p, hash);
    assert r.stations == s.stations[c := st];
    assert r.bus.passengers == s.bus.passengers + [p];
    RemoveFirstCount(ws, p);
    WaitingUpdate(s.stations, c, st);
    MultisetCancel(multiset(Waiting(r.stations)), multiset(Waiting(s.stations)),
                   multiset(ws), multiset(RemoveFirst(ws, p)), p);
  }

  /** w' + o == w + rest and rest + {p} == o give w' + {p} == w. */
  lemma MultisetCancel(w': multiset<Passenger>, w: multiset<Passenger>, o: multiset<Passenger>,
                       rest: multiset<Passenger>, p: Passenger)
    requires w' + o == w + rest && rest + multiset{p} == o
    ensures w' + multiset{p} == w
  {
    forall x
      ensures (w' + multiset{p})[x] == w[x]
    {
      assert (w' + o)[x] == (w + rest)[x];
    }
  }

  /** Embark has no capacity check of its own: boarding a full bus overfills it. */
  lemma EmbarkHasNoCapacityCheck(s: State, p: Passenger, hash: Hasher)
    requires 1 <= s.bus.current <= |s.stations|
    requires |s.bus.passengers| == s.bus.capacity
    ensures !WithinCapacity(Embark(s, p, hash))
  {
  }

  /** The disembark operation: copies the bus fields, then every passenger but the first match. */
  method DisembarkPassenger(s: State, p: Passenger, hash: Hasher) returns (r: State)
    ensures r == Disembark(s, p, hash)
  {
    var ps := s.bus.passengers;
    var kept: seq<Passenger> := [];
    var removed := false;
    var k := 0;
    while k < |ps|
      invariant 0 <= k <= |ps|
      invariant removed <==> p in ps[..k]
      invariant !removed ==> kept == ps[..k]
      invariant removed ==> FirstIndex(ps, p) < k && kept == ps[..FirstIndex(ps, p)] + ps[FirstIndex(ps, p) + 1..k]
    {
      assert ps[..k + 1] == ps[..k] + [ps[k]];
      if ps[k] == p && !removed {
        removed := true;
      } else {
        kept := kept + [ps[k]];
      }
      k := k + 1;
    }
    assert ps[..k] == ps;
    r := FromDisembark(s, Bus(s.bus.origin, s.bus.current, s.bus.capacity, kept), hash);
  }

  /** The embark operation: the source's two assertions, then append, then erase the first match. */
  method EmbarkPassenger(s: State, p: Passenger, hash: Hasher) returns (r: State)
    requires 1 <= s.bus.current <= |s.stations|
    requires p.origin == s.stations[s.bus.current - 1].id && p.origin == s.bus.current
    ensures r == Embark(s, p, hash)
  {
    var newBus := s.bus.(passengers := s.bus.passengers + [p]);
    var c := s.bus.current - 1;
    var ps := s.stations[c].passengers;
    var k := 0;
    while k < |ps|
      invariant 0 <= k <= |ps|
      invariant ps == s.stations[c].passengers
      invariant forall j :: 0 <= j < k ==> ps[j] != p
    {
      if ps[k] == p {
        assert FirstIndex(ps, p) == k;
        ps := ps[..k] + ps[k + 1..];
        break;
      }
      k := k + 1;
    }
    assert ps == RemoveFirst(s.stations[c].passengers, p);
    var stations := s.stations[c := s.stations[c].(passengers := ps)];
    r := FromEmbark(s, newBus, stations, p.destination, hash);
  }

  // ---------------------------------------------------------------------------
  // Successors
  // ---------------------------------------------------------------------------

  /** One move per trip, in order. */
  function Moves(s: State, trips: seq<Transition>, hash: Hasher): seq<State>
  {
    if trips == [] then []
    else Moves(s, trips[..|trips| - 1], hash) + [TransitToStation(s, trips[|trips| - 1], hash)]
  }

  /** One disembark per passenger of ps bound for the bus's stop, in order. */
  function Disembarks(s: State, ps: seq<Passenger>, hash: Hasher): seq<State>
  {
    if ps == [] then []
    else Disembarks(s, ps[..|ps| - 1], hash)
         + (if ps[|ps| - 1].destination == s.bus.current then [Disembark(s, ps[|ps| - 1], hash)] else [])
  }

  /** One embark per passenger of ps, in order. */
  function Embarks(s: State, ps: seq<Passenger>, hash: Hasher): seq<State>
    requires 1 <= s.bus.current <= |s.stations|
  {
    if ps == [] then []
    else Embarks(s, ps[..|ps| - 1], hash) + [Embark(s, ps[|ps| - 1], hash)]
  }

  /**
   * All successors, in the fixed order of the source: a move per nonzero-cost
   * neighbour, then a disembark per passenger on board bound for this stop,
   * then, only when the bus has a free seat, an embark per passenger waiting
   * here.
   */
  function Successors(s: State, hash: Hasher): seq<State>
    requires WellFormed(s)
  {
    var c := s.bus.current;
    Moves(s, NonZero(s.graph.transitions[c - 1]), hash)
    + Disembarks(s, s.bus.passengers, hash)
    + (if |s.bus.passengers| < s.bus.capacity then Embarks(s, s.stations[c - 1].passengers, hash) else [])
  }

  /** The k-th move is the trip along the k-th trip. */
  lemma {:induction false} MoveAt(s: State, trips: seq<Transition>, hash: Hasher, k: nat)
    requires k < |trips|
    ensures |Moves(s, trips, hash)| == |trips|
    ensures Moves(s, trips, hash)[k] == TransitToStation(s, trips[k], hash)
    decreases |trips|
  {
    if k < |trips| - 1 {
      MoveAt(s, trips[..|trips| - 1], hash, k);
    } else if |trips| > 1 {
      MoveAt(s, trips[..|trips| - 1], hash, 0);
    }
  }

  /** The k-th embark boards the k-th waiting passenger. */
  lemma {:induction false} EmbarkAt(s: State, ps: seq<Passenger>, hash: Hasher, k: nat)
    requires 1 <= s.bus.current <= |s.stations|
    requires k < |ps|
    ensures |Embarks(s, ps, hash)| == |ps|
    ensures Embarks(s, ps, hash)[k] == Embark(s, ps[k], hash)
    decreases |ps|
  {
    if k < |ps| - 1 {
      EmbarkAt(s, ps[..|ps| - 1], hash, k);
    } else if |ps| > 1 {
      EmbarkAt(s, ps[..|ps| - 1], hash, 0);
    }
  }

  /** Every disembark successor drops a passenger of ps bound for the bus's stop. */
  lemma {:induction false} DisembarkAt(s: State, ps: seq<Passenger>, hash: Hasher, k: nat) returns (p: Passenger)
    requires k < |Disembarks(s, ps, hash)|
    ensures p in ps && p.destination == s.bus.current
    ensures Disembarks(s, ps, hash)[k] == Disembark(s, p, hash)
    decreases |ps|
  {
    var init := ps[..|ps| - 1];
    if k < |Disembarks(s, init, hash)| {
      p := DisembarkAt(s, init, hash, k);
    } else {
      p := ps[|ps| - 1];
    }
  }

  /** The order of kinds: a move ranks 0, a disembark 1, an embark 2. */
  function KindRank(s: State): nat
  {
    if s.expansion.embarking then 2 else if s.expansion.disembarking then 1 else 0
  }

  /**
   * What a single successor t of a well-formed state s is: a child of s that
   * is well-formed, costs strictly more, keeps the bus within its capacity,
   * and keeps everyone to deliver, except a disembark, which delivers exactly
   * one passenger bound for this stop.
   */
  predicate GoodChild(s: State, t: State, hash: Hasher)
    requires WellFormed(s)
  {
    && ChildOf(s, t, hash)
    && WellFormed(t)
    && t.cost > s.cost
    && (WithinCapacity(s) ==> WithinCapacity(t))
    && (t.expansion.disembarking ==>
          |Everyone(t)| + 1 == |Everyone(s)| && Everyone(t) <= Everyone(s))
    && (!t.expansion.disembarking ==> Everyone(t) == Everyone(s))
    && (t.expansion.embarking ==> |s.bus.passengers| < s.bus.capacity)
  }

  lemma MoveIsGood(s: State, trip: Transition, hash: Hasher)
    requires WellFormed(s) && trip in NonZero(s.graph.transitions[s.bus.current - 1])
    ensures GoodChild(s, TransitToStation(s, trip, hash), hash)
    ensures KindRank(TransitToStation(s, trip, hash)) == 0
  {
    var ts := s.graph.transitions[s.bus.current - 1];
    NonZeroExact(ts);
    assert trip.cost != 0;
    assert multiset(ts)[trip] > 0;
    var r := TransitToStation(s, trip, hash);
    assert r.stations == s.stations;
  }

  lemma DisembarkIsGood(s: State, p: Passenger, hash: Hasher)
    requires WellFormed(s) && p in s.bus.passengers
    ensures GoodChild(s, Disembark(s, p, hash), hash)
    ensures KindRank(Disembark(s, p, hash)) == 1
  {
    var r := Disembark(s, p, hash);
    DisembarkFacts(s, p, hash);
    RemoveFirstCount(s.bus.passengers, p);
    assert |multiset(r.bus.passengers)| + 1 == |multiset(s.bus.passengers)|;
    assert WithinCapacity(s) ==> WithinCapacity(r);
    assert Everyone(r) + multiset{p} == Everyone(s);
    assert |Everyone(r)| + 1 == |Everyone(s)| && Everyone(r) <= Everyone(s);
    assert r.stations == s.stations && r.graph == s.graph && r.bus.current == s.bus.current;
    assert WellFormed(r);
  }

  lemma EmbarkIsGood(s: State, p: Passenger, hash: Hasher)
    requires WellFormed(s) && p in s.stations[s.bus.current - 1].passengers
    requires |s.bus.passengers| < s.bus.capacity
    ensures GoodChild(s, Embark(s, p, hash), hash)
    ensures KindRank(Embark(s, p, hash)) == 2
  {
    EmbarkFacts(s, p, hash);
    var c := s.bus.current - 1;
    var r := Embark(s, p, hash);
    RemoveFirstCount(s.stations[c].passengers, p);
    assert StationOk(s.stations[c], c + 1, |s.stations|);
    forall i | 0 <= i < |r.stations|
      ensures StationOk(r.stations[i], i + 1, |r.stations|)
    {
      assert StationOk(s.stations[i], i + 1, |s.stations|);
    }
  }

  /** The moves of a well-formed state, its disembarks, and (when the bus has a free seat) its embarks. */
  function MovesOf(s: State, hash: Hasher): seq<State>
    requires WellFormed(s)
  {
    Moves(s, NonZero(s.graph.transitions[s.bus.current - 1]), hash)
  }

  function DisembarksOf(s: State, hash: Hasher): seq<State>
  {
    Disembarks(s, s.bus.passengers, hash)
  }

  function EmbarksOf(s: State, hash: Hasher): seq<State>
    requires WellFormed(s)
  {
    if |s.bus.passengers| < s.bus.capacity then Embarks(s, s.stations[s.bus.current - 1].passengers, hash) else []
  }

  /** The k-th move successor is a good child and a move. */
  lemma MovesAreGood(s: State, hash: Hasher, k: nat)
    requires WellFormed(s) && k < |MovesOf(s, hash)|
    ensures GoodChild(s, MovesOf(s, hash)[k], hash)
    ensures KindRank(MovesOf(s, hash)[k]) == 0
  {
    var trips := NonZero(s.graph.transitions[s.bus.current - 1]);
    MoveAt(s, trips, hash, 0);
    MoveAt(s, trips, hash, k);
    assert trips[k] in trips;
    MoveIsGood(s, trips[k], hash);
  }

  /** The k-th disembark successor is a good child and a disembark. */
  lemma DisembarksAreGood(s: State, hash: Hasher, k: nat)
    requires WellFormed(s) && k < |DisembarksOf(s, hash)|
    ensures GoodChild(s, DisembarksOf(s, hash)[k], hash)
    ensures KindRank(DisembarksOf(s, hash)[k]) == 1
  {
    var p := DisembarkAt(s, s.bus.passengers, hash, k);
    DisembarkIsGood(s, p, hash);
  }

  /** The k-th embark successor is a good child and an embark. */
  lemma EmbarksAreGood(s: State, hash: Hasher, k: nat)
    requires WellFormed(s) && k < |EmbarksOf(s, hash)|
    ensures GoodChild(s, EmbarksOf(s, hash)[k], hash)
    ensures KindRank(EmbarksOf(s, hash)[k]) == 2
  {
    var ws := s.stations[s.bus.current - 1].passengers;
    EmbarkAt(s, ws, hash, 0);
    EmbarkAt(s, ws, hash, k);
    assert ws[k] in ws;
    EmbarkIsGood(s, ws[k], hash);
  }

  /** The rank of every member of a list of states. */
  predicate AllRank(ts: seq<State>, rank: nat)
  {
    forall i :: 0 <= i < |ts| ==> KindRank(ts[i]) == rank
  }

  /** Three blocks of constant, increasing rank make a list of non-decreasing rank. */
  lemma RanksInOrder(a: seq<State>, b: seq<State>, c: seq<State>)
    requires AllRank(a, 0) && AllRank(b, 1) && AllRank(c, 2)
    ensures forall i, j :: 0 <= i <= j < |a + b + c| ==> KindRank((a + b + c)[i]) <= KindRank((a + b + c)[j])
  {
    var all := a + b + c;
    forall i, j | 0 <= i <= j < |all|
      ensures KindRank(all[i]) <= KindRank(all[j])
    {
      var ri := if i < |a| then 0 else if i < |a| + |b| then 1 else 2;
      var rj := if j < |a| then 0 else if j < |a| + |b| then 1 else 2;
      assert KindRank(all[i]) == ri by {
        if i < |a| { assert all[i] == a[i]; }
        else if i < |a| + |b| { assert all[i] == b[i - |a|]; }
        else { assert all[i] == c[i - |a| - |b|]; }
      }
      assert KindRank(all[j]) == rj by {
        if j < |a| { assert all[j] == a[j]; }
        else if j < |a| + |b| { assert all[j] == b[j - |a|]; }
        else { assert all[j] == c[j - |a| - |b|]; }
      }
    }
  }

  /**
   * The successor list of a well-formed state: every member is a good child
   * (well-formed, dearer, capacity kept, passengers conserved but for one
   * delivery on a disembark, embarks only with a free seat), and the kinds
   * come in the fixed order moves, disembarks, embarks.
   */
  lemma SuccessorsAreGood(s: State, hash: Hasher)
    requires WellFormed(s)
    ensures forall t :: t in Successors(s, hash) ==> GoodChild(s, t, hash)
    ensures forall i, j :: 0 <= i <= j < |Successors(s, hash)| ==>
              KindRank(Successors(s, hash)[i]) <= KindRank(Successors(s, hash)[j])
  {
    var ms := MovesOf(s, hash);
    var ds := DisembarksOf(s, hash);
    var es := EmbarksOf(s, hash);
    assert Successors(s, hash) == ms + ds + es;
    forall t | t in ms
      ensures GoodChild(s, t, hash)
    {
      var k :| 0 <= k < |ms| && ms[k] == t;
      MovesAreGood(s, hash, k);
    }
    forall t | t in ds
      ensures GoodChild(s, t, hash)
    {
      var k :| 0 <= k < |ds| && ds[k] == t;
      DisembarksAreGood(s, hash, k);
    }
    forall t | t in es
      ensures GoodChild(s, t, hash)
    {
      var k :| 0 <= k < |es| && es[k] == t;
      EmbarksAreGood(s, hash, k);
    }
    forall k | 0 <= k < |ms|
      ensures KindRank(ms[k]) == 0
    {
      MovesAreGood(s, hash, k);
    }
    forall k | 0 <= k < |ds|
      ensures KindRank(ds[k]) == 1
    {
      DisembarksAreGood(s, hash, k);
    }
    forall k | 0 <= k < |es|
      ensures KindRank(es[k]) == 2
    {
      EmbarksAreGood(s, hash, k);
    }
    RanksInOrder(ms, ds, es);
  }

  /** get_successors: moves, then disembarks, then (with a free seat) embarks, pushed onto one list. */
  method GetSuccessors(s: State, hash: Hasher) returns (succ: seq<State>)
    requires WellFormed(s)
    ensures succ == Successors(s, hash)
  {
    var c := s.bus.current;
    var trips := s.graph.GetNeighbors(c);
    var ms := CollectMoves(s, trips, hash);
    var ds := CollectDisembarks(s, hash);
    succ := ms + ds;
    if |s.bus.passengers| < s.bus.capacity {
      assert StationOk(s.stations[c - 1], c, |s.stations|);
      var es := CollectEmbarks(s, s.stations[c - 1].passengers, hash);
      succ := succ + es;
    }
  }

  /** The move loop of get_successors. */
  method CollectMoves(s: State, trips: seq<Transition>, hash: Hasher) returns (succ: seq<State>)
    ensures succ == Moves(s, trips, hash)
  {
    succ := [];
    var k := 0;
    while k < |trips|
      invariant 0 <= k <= |trips|
      invariant succ == Moves(s, trips[..k], hash)
    {
      assert trips[..k + 1][..k] == trips[..k];
      succ := succ + [TransitToStation(s, trips[k], hash)];
      k := k + 1;
    }
    assert trips[..|trips|] == trips;
  }

  /** The disembark loop of get_successors. */
  method CollectDisembarks(s: State, hash: Hasher) returns (succ: seq<State>)
    ensures succ == Disembarks(s, s.bus.passengers, hash)
  {
    var ps := s.bus.passengers;
    succ := [];
    var k := 0;
    while k < |ps|
      invariant 0 <= k <= |ps|
      invariant succ == Disembarks(s, ps[..k], hash)
    {
      assert ps[..k + 1][..k] == ps[..k];
      if ps[k].destination == s.bus.current {
        var d := DisembarkPassenger(s, ps[k], hash);
        succ := succ + [d];
      }
      k := k + 1;
    }
    assert ps[..|ps|] == ps;
  }

  /** The embark loop of get_successors; everyone in ws waits at the bus's stop. */
  method CollectEmbarks(s: State, ws: seq<Passenger>, hash: Hasher) returns (succ: seq<State>)
    requires 1 <= s.bus.current <= |s.stations|
    requires forall p :: p in ws ==> p.origin == s.bus.current
    requires s.stations[s.bus.current - 1].id == s.bus.current
    ensures succ == Embarks(s, ws, hash)
  {
    succ := [];
    var k := 0;
    while k < |ws|
      invariant 0 <= k <= |ws|
      invariant succ == Embarks(s, ws[..k], hash)
    {
      assert ws[..k + 1][..k] == ws[..k];
      assert ws[k] in ws;
      var e := EmbarkPassenger(s, ws[k], hash);
      succ := succ + [e];
      k := k + 1;
    }
    assert ws[..|ws|] == ws;
  }

  // ---------------------------------------------------------------------------
  // The goal test
  // ---------------------------------------------------------------------------

  /** No one waits anywhere, and the bus is back at its origin and empty. */
  predicate IsGoal(s: State)
  {
    && (forall i :: 0 <= i < |s.stations| ==> s.stations[i].passengers == [])
    && s.bus.current == s.bus.origin
    && s.bus.passengers == []
  }

  /** A goal is a state with no one left to deliver whose bus is home. */
  lemma GoalMeansAllDelivered(s: State)
    ensures IsGoal(s) <==> Everyone(s) == multiset{} && s.bus.current == s.bus.origin
  {
    WaitingEmpty(s.stations);
  }

  /** is_final: scan the stops for a waiting passenger, then check the bus. */
  method IsFinal(s: State) returns (b: bool)
    ensures b == IsGoal(s)
  {
    var k := 0;
    while k < |s.stations|
      invariant 0 <= k <= |s.stations|
      invariant forall i :: 0 <= i < k ==> s.stations[i].passengers == []
    {
      if s.stations[k].passengers != [] {
        return false;
      }
      k := k + 1;
    }
    b := s.bus.current == s.bus.origin && s.bus.passengers == [];
  }

  // ---------------------------------------------------------------------------
  // max and min
  // ---------------------------------------------------------------------------

  /** The largest element, or 0 for the empty list. */
  function MaxOf(xs: seq<nat>): (m: nat)
    ensures forall i :: 0 <= i < |xs| ==> xs[i] <= m
    ensures m == 0 || m in xs
  {
    if xs == [] then 0
    else
      var m := MaxOf(xs[..|xs| - 1]);
      if xs[|xs| - 1] > m then xs[|xs| - 1] else m
  }

  /** The running-maximum loop, starting from 0. */
  method Max(xs: seq<nat>) returns (m: nat)
    ensures m == MaxOf(xs)
  {
    m := 0;
    var k := 0;
    while k < |xs|
      invariant 0 <= k <= |xs|
      invariant m == MaxOf(xs[..k])
    {
      assert xs[..k + 1][..k] == xs[..k];
      if xs[k] > m {
        m := xs[k];
      }
      k := k + 1;
    }
    assert xs[..|xs|] == xs;
  }

  /** The running-minimum loop as written: it starts from 0, which no unsigned value undercuts. */
  method MinAsWritten(xs: seq<nat>) returns (m: nat)
    ensures m == 0
  {
    var least: int := 0;
    var k := 0;
    while k < |xs|
      invariant 0 <= k <= |xs| && least == 0
    {
      var x: int := xs[k];
      if x < least {
        least := x;
      }
      k := k + 1;
    }
    m := least;
  }

  /** The smallest element of a non-empty list. */
  function MinOf(xs: seq<nat>): (m: nat)
    requires xs != []
    ensures forall i :: 0 <= i < |xs| ==> m <= xs[i]
    ensures m in xs
  {
    if |xs| == 1 then xs[0]
    else
      var m := MinOf(xs[..|xs| - 1]);
      if xs[|xs| - 1] < m then xs[|xs| - 1] else m
  }

  /** The running minimum started from the first element, as evidently intended. */
  method Min(xs: seq<nat>) returns (m: nat)
    requires xs != []
    ensures m == MinOf(xs)
  {
    m := xs[0];
    var k := 1;
    while k < |xs|
      invariant 1 <= k <= |xs|
      invariant m == MinOf(xs[..k])
    {
      assert xs[..k + 1][..k] == xs[..k];
      if xs[k] < m {
        m := xs[k];
      }
      k := k + 1;
    }
    assert xs[..|xs|] == xs;
  }

  /** On [3] the minimum is 3, while the loop as written answers 0. */
  method MinAsWrittenMissesMinimum() returns (written: nat, intended: nat)
    ensures written == 0 && intended == 3
  {
    written := MinAsWritten([3]);
    intended := Min([3]);
  }

  // ---------------------------------------------------------------------------
  // Heuristics
  // ---------------------------------------------------------------------------

  /** The capped distances from stop `from` to every stop that has someone waiting. */
  function StationDistances(adj: seq<seq<Transition>>, from: nat, stations: seq<Station>): seq<nat>
    requires 1 <= from <= |adj|
    requires forall i :: 0 <= i < |stations| ==> 1 <= stations[i].id <= |adj|
  {
    if stations == [] then []
    else
      var last := stations[|stations| - 1];
      StationDistances(adj, from, stations[..|stations| - 1])
      + (if |last.passengers| != 0 then [ShortestPath(adj, from, last.id)] else [])
  }

  /** The capped distances from stop `from` to the destination of every passenger in ps. */
  function DeliveryDistances(adj: seq<seq<Transition>>, from: nat, ps: seq<Passenger>): seq<nat>
    requires 1 <= from <= |adj|
    requires forall p :: p in ps ==> 1 <= p.destination <= |adj|
  {
    if ps == [] then []
    else DeliveryDistances(adj, from, ps[..|ps| - 1]) + [ShortestPath(adj, from, ps[|ps| - 1].destination)]
  }

  /** Every stop of a well-formed state is a graph node. */
  lemma StationIdsInRange(s: State)
    requires WellFormed(s)
    ensures forall i :: 0 <= i < |s.stations| ==> 1 <= s.stations[i].id <= |s.graph.transitions|
  {
    forall i | 0 <= i < |s.stations|
      ensures 1 <= s.stations[i].id <= |s.graph.transitions|
    {
      assert StationOk(s.stations[i], i + 1, |s.stations|);
    }
  }

  /** max_cost_to_passenger: the largest of 0 and the distances to stops with someone waiting. */
  function MaxCostToPassenger(s: State): nat
    requires WellFormed(s)
  {
    StationIdsInRange(s);
    MaxOf([0] + StationDistances(s.graph.transitions, s.bus.current, s.stations))
  }

  /** max_distance_to_deliver_passenger: the largest distance to an on-board passenger's destination, or 0. */
  function MaxDistanceToDeliver(s: State): nat
    requires WellFormed(s)
  {
    var ds := DeliveryDistances(s.graph.transitions, s.bus.current, s.bus.passengers);
    if |ds| == 0 then 0 else MaxOf(ds)
  }

  /** get_heuristic_cost: the largest of 0 and the heuristics the name selects. */
  function HeuristicCost(s: State): nat
    requires WellFormed(s)
  {
    var h := s.heuristic;
    MaxOf([0]
          + (if h == AllH then [MaxDistanceToDeliver(s), MaxCostToPassenger(s)] else [])
          + (if h == MaxDistPassengerH then [MaxDistanceToDeliver(s)] else [])
          + (if h == MaxDistStationH then [MaxCostToPassenger(s)] else []))
  }

  /** get_total_cost: the cost so far plus the heuristic. */
  function TotalCost(s: State): nat
    requires WellFormed(s)
  {
    s.cost + HeuristicCost(s)
  }

  lemma {:induction false} StationDistancesEmpty(adj: seq<seq<Transition>>, from: nat, stations: seq<Station>)
    requires 1 <= from <= |adj|
    requires forall i :: 0 <= i < |stations| ==> 1 <= stations[i].id <= |adj|
    requires forall i :: 0 <= i < |stations| ==> stations[i].passengers == []
    ensures StationDistances(adj, from, stations) == []
    decreases |stations|
  {
    if stations != [] {
      StationDistancesEmpty(adj, from, stations[..|stations| - 1]);
    }
  }

  lemma {:induction false} StationDistancesCover(adj: seq<seq<Transition>>, from: nat, stations: seq<Station>, i: nat)
    requires 1 <= from <= |adj|
    requires forall i :: 0 <= i < |stations| ==> 1 <= stations[i].id <= |adj|
    requires i < |stations| && stations[i].passengers != []
    ensures ShortestPath(adj, from, stations[i].id) in StationDistances(adj, from, stations)
    decreases |stations|
  {
    var init := stations[..|stations| - 1];
    if i < |init| {
      assert init[i] == stations[i];
      StationDistancesCover(adj, from, init, i);
    }
  }

  lemma {:induction false} StationDistancesBounded(adj: seq<seq<Transition>>, from: nat, stations: seq<Station>)
    requires 1 <= from <= |adj|
    requires forall i :: 0 <= i < |stations| ==> 1 <= stations[i].id <= |adj|
    ensures forall x :: x in StationDistances(adj, from, stations) ==> x <= Unreachable
    decreases |stations|
  {
    if stations != [] {
      StationDistancesBounded(adj, from, stations[..|stations| - 1]);
    }
  }

  lemma {:induction false} StationDistancesFrom(adj: seq<seq<Transition>>, from: nat, stations: seq<Station>)
    requires 1 <= from <= |adj|
    requires forall i :: 0 <= i < |stations| ==> 1 <= stations[i].id <= |adj|
    ensures forall x :: x in StationDistances(adj, from, stations) ==>
              exists i :: 0 <= i < |stations| && stations[i].passengers != [] && x == ShortestPath(adj, from, stations[i].id)
    decreases |stations|
  {
    if stations != [] {
      var init := stations[..|stations| - 1];
      StationDistancesFrom(adj, from, init);
      forall x | x in StationDistances(adj, from, stations)
        ensures exists i :: 0 <= i < |stations| && stations[i].passengers != [] && x == ShortestPath(adj, from, stations[i].id)
      {
        if x in StationDistances(adj, from, init) {
          var i :| 0 <= i < |init| && init[i].passengers != [] && x == ShortestPath(adj, from, init[i].id);
          assert stations[i] == init[i];
        } else {
          var k := |stations| - 1;
          assert stations[k].passengers != [] && x == ShortestPath(adj, from, stations[k].id);
        }
      }
    }
  }

  /** The pickup heuristic, when not 0, is the distance to some stop where someone waits. */
  lemma PickupHeuristicAttained(s: State)
    requires WellFormed(s)
    ensures MaxCostToPassenger(s) == 0
            || exists i :: 0 <= i < |s.stations| && s.stations[i].passengers != []
                           && MaxCostToPassenger(s) == ShortestPath(s.graph.transitions, s.bus.current, s.stations[i].id)
  {
    StationIdsInRange(s);
    var adj := s.graph.transitions;
    var c := s.bus.current;
    var sd := StationDistances(adj, c, s.stations);
    var m := MaxCostToPassenger(s);
    assert m == MaxOf([0] + sd);
    if m != 0 {
      assert m in [0] + sd;
      assert m in sd;
      StationDistancesFrom(adj, c, s.stations);
    }
  }

  lemma {:induction false} DeliveryDistancesFacts(adj: seq<seq<Transition>>, from: nat, ps: seq<Passenger>)
    requires 1 <= from <= |adj|
    requires forall p :: p in ps ==> 1 <= p.destination <= |adj|
    ensures |DeliveryDistances(adj, from, ps)| == |ps|
    ensures forall i :: 0 <= i < |ps| ==> DeliveryDistances(adj, from, ps)[i] == ShortestPath(adj, from, ps[i].destination)
    decreases |ps|
  {
    if ps != [] {
      var init := ps[..|ps| - 1];
      assert forall p :: p in init ==> p in ps;
      DeliveryDistancesFacts(adj, from, init);
    }
  }

  /**
   * The delivery heuristic is 0 with no one on board, and otherwise the
   * largest capped distance from the bus to an on-board passenger's
   * destination; the station heuristic is 0 with no one waiting, and
   * otherwise the largest capped distance to a stop with someone waiting.
   * Neither exceeds 127.
   */
  lemma DistanceHeuristics(s: State)
    requires WellFormed(s)
    ensures s.bus.passengers == [] ==> MaxDistanceToDeliver(s) == 0
    ensures forall p :: p in s.bus.passengers ==>
              ShortestPath(s.graph.transitions, s.bus.current, p.destination) <= MaxDistanceToDeliver(s)
    ensures s.bus.passengers != [] ==>
              exists p :: (p in s.bus.passengers &&
                           MaxDistanceToDeliver(s) == ShortestPath(s.graph.transitions, s.bus.current, p.destination))
    ensures Waiting(s.stations) == [] ==> MaxCostToPassenger(s) == 0
    ensures forall i :: 0 <= i < |s.stations| && s.stations[i].passengers != [] ==>
              ShortestPath(s.graph.transitions, s.bus.current, s.stations[i].id) <= MaxCostToPassenger(s)
    ensures MaxDistanceToDeliver(s) <= Unreachable && MaxCostToPassenger(s) <= Unreachable
  {
    DeliveryHeuristicBounds(s);
    PickupHeuristicBounds(s);
  }

  lemma DeliveryHeuristicBounds(s: State)
    requires WellFormed(s)
    ensures s.bus.passengers == [] ==> MaxDistanceToDeliver(s) == 0
    ensures forall p :: p in s.bus.passengers ==>
              ShortestPath(s.graph.transitions, s.bus.current, p.destination) <= MaxDistanceToDeliver(s)
    ensures s.bus.passengers != [] ==>
              exists p :: (p in s.bus.passengers &&
                           MaxDistanceToDeliver(s) == ShortestPath(s.graph.transitions, s.bus.current, p.destination))
    ensures MaxDistanceToDeliver(s) <= Unreachable
  {
    var adj := s.graph.transitions;
    var c := s.bus.current;
    var ps := s.bus.passengers;
    DeliveryDistancesFacts(adj, c, ps);
    var ds := DeliveryDistances(adj, c, ps);
    forall p | p in ps
      ensures ShortestPath(adj, c, p.destination) <= MaxDistanceToDeliver(s)
    {
      var i :| 0 <= i < |ps| && ps[i] == p;
      assert ds[i] == ShortestPath(adj, c, p.destination);
    }
    if ps != [] {
      var m := MaxOf(ds);
      if m == 0 {
        assert ds[0] <= m;
        assert m == ShortestPath(adj, c, ps[0].destination);
      } else {
        var i :| 0 <= i < |ds| && ds[i] == m;
        assert ps[i] in ps;
      }
    }
  }

  lemma PickupHeuristicBounds(s: State)
    requires WellFormed(s)
    ensures Waiting(s.stations) == [] ==> MaxCostToPassenger(s) == 0
    ensures forall i :: 0 <= i < |s.stations| && s.stations[i].passengers != [] ==>
              ShortestPath(s.graph.transitions, s.bus.current, s.stations[i].id) <= MaxCostToPassenger(s)
    ensures MaxCostToPassenger(s) <= Unreachable
  {
    var adj := s.graph.transitions;
    var c := s.bus.current;
    StationIdsInRange(s);
    StationDistancesBounded(adj, c, s.stations);
    if Waiting(s.stations) == [] {
      WaitingEmpty(s.stations);
      StationDistancesEmpty(adj, c, s.stations);
      assert [0] + StationDistances(adj, c, s.stations) == [0];
      MaxOfZero();
    }
    var sd := [0] + StationDistances(adj, c, s.stations);
    forall x | x in sd
      ensures x <= Unreachable
    {
    }
    forall i | 0 <= i < |s.stations| && s.stations[i].passengers != []
      ensures ShortestPath(adj, c, s.stations[i].id) <= MaxCostToPassenger(s)
    {
      StationDistancesCover(adj, c, s.stations, i);
      var x := ShortestPath(adj, c, s.stations[i].id);
      var j :| 0 <= j < |StationDistances(adj, c, s.stations)| && StationDistances(adj, c, s.stations)[j] == x;
      assert sd[j + 1] == x;
    }
  }

  /**
   * The heuristic the name selects: "all" is the larger of the two distance
   * heuristics, each single name gives its own, and any other name gives 0.
   */
  lemma HeuristicByName(s: State)
    requires WellFormed(s)
    ensures s.heuristic == AllH ==>
              HeuristicCost(s) == if MaxDistanceToDeliver(s) >= MaxCostToPassenger(s)
                                  then MaxDistanceToDeliver(s) else MaxCostToPassenger(s)
    ensures s.heuristic == MaxDistPassengerH ==> HeuristicCost(s) == MaxDistanceToDeliver(s)
    ensures s.heuristic == MaxDistStationH ==> HeuristicCost(s) == MaxCostToPassenger(s)
    ensures s.heuristic !in {AllH, MaxDistPassengerH, MaxDistStationH} ==> HeuristicCost(s) == 0
  {
    var h := s.heuristic;
    HeuristicNamesDistinct();
    if h == AllH {
      HeuristicAll(s);
    } else if h == MaxDistPassengerH {
      HeuristicDelivery(s);
    } else if h == MaxDistStationH {
      HeuristicPickup(s);
    } else {
      HeuristicNone(s);
    }
  }

  lemma HeuristicNamesDistinct()
    ensures AllH != MaxDistPassengerH && AllH != MaxDistStationH && MaxDistPassengerH != MaxDistStationH
  {
    assert |AllH| != |MaxDistPassengerH| && |AllH| != |MaxDistStationH|;
    assert MaxDistPassengerH[13] != MaxDistStationH[13];
  }

  lemma HeuristicAll(s: State)
    requires WellFormed(s) && s.heuristic == AllH
    ensures HeuristicCost(s) == if MaxDistanceToDeliver(s) >= MaxCostToPassenger(s)
                                then MaxDistanceToDeliver(s) else MaxCostToPassenger(s)
  {
    HeuristicNamesDistinct();
    var d := MaxDistanceToDeliver(s);
    var st := MaxCostToPassenger(s);
    assert HeuristicCost(s) == MaxOf([0] + [d, st] + [] + []);
    assert [0] + [d, st] + [] + [] == [0, d] + [st];
    assert [0] + [d] == [0, d];
    MaxOfZero();
    MaxOfSnoc([0], d);
    MaxOfSnoc([0, d], st);
  }

  lemma HeuristicDelivery(s: State)
    requires WellFormed(s) && s.heuristic == MaxDistPassengerH
    ensures HeuristicCost(s) == MaxDistanceToDeliver(s)
  {
    HeuristicNamesDistinct();
    var d := MaxDistanceToDeliver(s);
    assert HeuristicCost(s) == MaxOf([0] + [] + [d] + []);
    assert [0] + [] + [d] + [] == [0] + [d];
    MaxOfZero();
    MaxOfSnoc([0], d);
  }

  lemma HeuristicPickup(s: State)
    requires WellFormed(s) && s.heuristic == MaxDistStationH
    ensures HeuristicCost(s) == MaxCostToPassenger(s)
  {
    HeuristicNamesDistinct();
    var st := MaxCostToPassenger(s);
    assert HeuristicCost(s) == MaxOf([0] + [] + [] + [st]);
    assert [0] + [] + [] + [st] == [0] + [st];
    MaxOfZero();
    MaxOfSnoc([0], st);
  }

  lemma HeuristicNone(s: State)
    requires WellFormed(s) && s.heuristic !in {AllH, MaxDistPassengerH, MaxDistStationH}
    ensures HeuristicCost(s) == 0
  {
    assert HeuristicCost(s) == MaxOf([0] + [] + [] + []);
    assert [0] + [] + [] + [] == [0];
    MaxOfZero();
  }

  lemma MaxOfZero()
    ensures MaxOf([0]) == 0
  {
    assert [0][..0] == [];
  }

  /** Appending x raises the maximum to x exactly when x is larger. */
  lemma MaxOfSnoc(xs: seq<nat>, x: nat)
    ensures MaxOf(xs + [x]) == if x > MaxOf(xs) then x else MaxOf(xs)
  {
    assert (xs + [x])[..|xs + [x]| - 1] == xs;
  }

  /** At a goal there is nothing left to estimate: the total cost is the cost so far. */
  lemma GoalCostsItsPath(s: State)
    requires WellFormed(s) && IsGoal(s)
    ensures HeuristicCost(s) == 0 && TotalCost(s) == s.cost
  {
    WaitingEmpty(s.stations);
    DistanceHeuristics(s);
    HeuristicByName(s);
  }

  // ---------------------------------------------------------------------------
  // Consistency: no successor costs less in total than its father
  // ---------------------------------------------------------------------------

  /** When every distance the delivery heuristic of s looks at is within `slack` of t's, so is the heuristic. */
  lemma DeliveryWithin(s: State, t: State, slack: nat)
    requires WellFormed(s) && WellFormed(t)
    requires forall p :: p in s.bus.passengers ==>
               ShortestPath(s.graph.transitions, s.bus.current, p.destination) <= MaxDistanceToDeliver(t) + slack
    ensures MaxDistanceToDeliver(s) <= MaxDistanceToDeliver(t) + slack
  {
    DeliveryHeuristicBounds(s);
    if s.bus.passengers != [] {
      var p :| p in s.bus.passengers
               && MaxDistanceToDeliver(s) == ShortestPath(s.graph.transitions, s.bus.current, p.destination);
    }
  }

  /** When every distance the pickup heuristic of s looks at is within `slack` of t's, so is the heuristic. */
  lemma PickupWithin(s: State, t: State, slack: nat)
    requires WellFormed(s) && WellFormed(t)
    requires forall i :: 0 <= i < |s.stations| && s.stations[i].passengers != [] ==>
               ShortestPath(s.graph.transitions, s.bus.current, s.stations[i].id) <= MaxCostToPassenger(t) + slack
    ensures MaxCostToPassenger(s) <= MaxCostToPassenger(t) + slack
  {
    PickupHeuristicAttained(s);
  }

  /** Whatever the name, a heuristic built from two bounded distance heuristics stays within the same slack. */
  lemma HeuristicWithin(s: State, t: State, slack: nat)
    requires WellFormed(s) && WellFormed(t) && s.heuristic == t.heuristic
    requires MaxDistanceToDeliver(s) <= MaxDistanceToDeliver(t) + slack
    requires MaxCostToPassenger(s) <= MaxCostToPassenger(t) + slack
    ensures HeuristicCost(s) <= HeuristicCost(t) + slack
  {
    HeuristicByName(s);
    HeuristicByName(t);
  }

  /** Going first along the i-th transition out of a costs at most that transition's cost more. */
  lemma TripDetour(adj: seq<seq<Transition>>, a: nat, i: nat, x: nat)
    requires ValidAdjacency(adj) && 1 <= a <= |adj| && i < |adj[a - 1]| && 1 <= x <= |adj|
    ensures ShortestPath(adj, a, x) <= adj[a - 1][i].cost + ShortestPath(adj, adj[a - 1][i].destination, x)
  {
    ShortestPathBelowEdge(adj, a, i);
    ShortestPathTriangle(adj, a, adj[a - 1][i].destination, x);
  }

  /** After a trip with the same passengers aboard, the delivery heuristic fell by at most the trip's cost. */
  lemma TripDelivery(s: State, t: State, i: nat)
    requires WellFormed(s) && WellFormed(t) && t.graph == s.graph && t.bus.passengers == s.bus.passengers
    requires i < |s.graph.transitions[s.bus.current - 1]|
    requires t.bus.current == s.graph.transitions[s.bus.current - 1][i].destination
    ensures MaxDistanceToDeliver(s) <= MaxDistanceToDeliver(t) + s.graph.transitions[s.bus.current - 1][i].cost
  {
    var adj := s.graph.transitions;
    var a := s.bus.current;
    DeliveryHeuristicBounds(t);
    forall p | p in s.bus.passengers
      ensures ShortestPath(adj, a, p.destination) <= MaxDistanceToDeliver(t) + adj[a - 1][i].cost
    {
      TripDetour(adj, a, i, p.destination);
    }
    DeliveryWithin(s, t, adj[a - 1][i].cost);
  }

  /** After a trip with the same stops, the pickup heuristic fell by at most the trip's cost. */
  lemma TripPickup(s: State, t: State, i: nat)
    requires WellFormed(s) && WellFormed(t) && t.graph == s.graph && t.stations == s.stations
    requires i < |s.graph.transitions[s.bus.current - 1]|
    requires t.bus.current == s.graph.transitions[s.bus.current - 1][i].destination
    ensures MaxCostToPassenger(s) <= MaxCostToPassenger(t) + s.graph.transitions[s.bus.current - 1][i].cost
  {
    var adj := s.graph.transitions;
    var a := s.bus.current;
    PickupHeuristicBounds(t);
    StationIdsInRange(s);
    forall k | 0 <= k < |s.stations| && s.stations[k].passengers != []
      ensures ShortestPath(adj, a, s.stations[k].id) <= MaxCostToPassenger(t) + adj[a - 1][i].cost
    {
      TripDetour(adj, a, i, s.stations[k].id);
    }
    PickupWithin(s, t, adj[a - 1][i].cost);
  }

  /**
   * A trip of cost c brings the bus at most c closer to any stop, so no
   * heuristic falls by more than c: the total cost does not drop.
   */
  lemma MoveKeepsTotal(s: State, trip: Transition, hash: Hasher)
    requires WellFormed(s) && trip in NonZero(s.graph.transitions[s.bus.current - 1])
    ensures WellFormed(TransitToStation(s, trip, hash))
    ensures TotalCost(s) <= TotalCost(TransitToStation(s, trip, hash))
  {
    var t := TransitToStation(s, trip, hash);
    MoveIsGood(s, trip, hash);
    var ts := s.graph.transitions[s.bus.current - 1];
    NonZeroExact(ts);
    assert multiset(ts)[trip] > 0;
    var i :| 0 <= i < |ts| && ts[i] == trip;
    TripDelivery(s, t, i);
    TripPickup(s, t, i);
    HeuristicWithin(s, t, trip.cost);
  }

  /**
   * A disembark at the passenger's destination drops a distance of 0 and
   * leaves every other one: the heuristic does not fall and the cost rises by 1.
   */
  lemma DisembarkRaisesTotal(s: State, p: Passenger, hash: Hasher)
    requires WellFormed(s) && p in s.bus.passengers && p.destination == s.bus.current
    ensures WellFormed(Disembark(s, p, hash))
    ensures TotalCost(s) < TotalCost(Disembark(s, p, hash))
  {
    var t := Disembark(s, p, hash);
    DisembarkIsGood(s, p, hash);
    DisembarkFacts(s, p, hash);
    RemoveFirstCount(s.bus.passengers, p);
    var adj := s.graph.transitions;
    var a := s.bus.current;
    ShortestPathToSelf(adj, a);
    DeliveryHeuristicBounds(t);
    forall q | q in s.bus.passengers
      ensures ShortestPath(adj, a, q.destination) <= MaxDistanceToDeliver(t) + 0
    {
      if q != p {
        assert q in multiset(s.bus.passengers);
        assert q in multiset(t.bus.passengers);
      }
    }
    DeliveryWithin(s, t, 0);
    assert MaxCostToPassenger(t) == MaxCostToPassenger(s);
    HeuristicWithin(s, t, 0);
  }

  /** With more passengers aboard and the bus where it was, the delivery heuristic does not fall. */
  lemma BoardingDelivery(s: State, t: State)
    requires WellFormed(s) && WellFormed(t) && t.graph == s.graph && t.bus.current == s.bus.current
    requires forall q :: q in s.bus.passengers ==> q in t.bus.passengers
    ensures MaxDistanceToDeliver(s) <= MaxDistanceToDeliver(t)
  {
    DeliveryHeuristicBounds(t);
    DeliveryWithin(s, t, 0);
  }

  /**
   * When only the bus's own stop may have lost waiting passengers, the pickup
   * heuristic does not fall: that stop is at distance 0.
   */
  lemma BoardingPickup(s: State, t: State)
    requires WellFormed(s) && WellFormed(t) && t.graph == s.graph && t.bus.current == s.bus.current
    requires |t.stations| == |s.stations|
    requires forall k :: 0 <= k < |s.stations| && k != s.bus.current - 1 ==> t.stations[k] == s.stations[k]
    ensures MaxCostToPassenger(s) <= MaxCostToPassenger(t)
  {
    var adj := s.graph.transitions;
    var a := s.bus.current;
    ShortestPathToSelf(adj, a);
    PickupHeuristicBounds(t);
    forall k | 0 <= k < |s.stations| && s.stations[k].passengers != []
      ensures ShortestPath(adj, a, s.stations[k].id) <= MaxCostToPassenger(t) + 0
    {
      assert StationOk(s.stations[k], k + 1, |s.stations|);
      if k != a - 1 {
        assert t.stations[k] == s.stations[k];
      }
    }
    PickupWithin(s, t, 0);
  }

  /**
   * An embark adds a passenger to the bus and may empty the current stop,
   * whose distance is 0: the heuristic does not fall and the cost rises by 1.
   */
  lemma EmbarkRaisesTotal(s: State, p: Passenger, hash: Hasher)
    requires WellFormed(s) && p in s.stations[s.bus.current - 1].passengers
    requires |s.bus.passengers| < s.bus.capacity
    ensures WellFormed(Embark(s, p, hash))
    ensures TotalCost(s) < TotalCost(Embark(s, p, hash))
  {
    var t := Embark(s, p, hash);
    EmbarkIsGood(s, p, hash);
    EmbarkFacts(s, p, hash);
    assert forall q :: q in s.bus.passengers ==> q in t.bus.passengers;
    BoardingDelivery(s, t);
    BoardingPickup(s, t);
    HeuristicWithin(s, t, 0);
  }

  /** Every state of ts is well formed and costs no less in total than s. */
  predicate NoneCheaper(s: State, ts: seq<State>)
    requires WellFormed(s)
  {
    forall t :: t in ts ==> WellFormed(t) && TotalCost(s) <= TotalCost(t)
  }

  /**
   * The heuristics of the program are consistent: every successor of a
   * well-formed state has a total cost at least its father's.
   */
  lemma SuccessorsNotCheaper(s: State, hash: Hasher)
    requires WellFormed(s)
    ensures NoneCheaper(s, Successors(s, hash))
  {
    var ms := MovesOf(s, hash);
    var ds := DisembarksOf(s, hash);
    var es := EmbarksOf(s, hash);
    MovesNotCheaper(s, NonZero(s.graph.transitions[s.bus.current - 1]), hash);
    DisembarksNotCheaper(s, s.bus.passengers, hash);
    if |s.bus.passengers| < s.bus.capacity {
      EmbarksNotCheaper(s, s.stations[s.bus.current - 1].passengers, hash);
    }
    NoneCheaperConcat(s, ms, ds);
    NoneCheaperConcat(s, ms + ds, es);
    assert Successors(s, hash) == ms + ds + es;
  }

  /** Two lists whose states cost no less than s concatenate to such a list. */
  lemma NoneCheaperConcat(s: State, a: seq<State>, b: seq<State>)
    requires WellFormed(s) && NoneCheaper(s, a) && NoneCheaper(s, b)
    ensures NoneCheaper(s, a + b)
  {
    forall t | t in a + b
      ensures WellFormed(t) && TotalCost(s) <= TotalCost(t)
    {
      assert t in a || t in b;
    }
  }

  /** Moves along trips out of the bus's stop cost no less in total than their father. */
  lemma {:induction false} MovesNotCheaper(s: State, trips: seq<Transition>, hash: Hasher)
    requires WellFormed(s)
    requires forall trip :: trip in trips ==> trip in NonZero(s.graph.transitions[s.bus.current - 1])
    ensures NoneCheaper(s, Moves(s, trips, hash))
    decreases |trips|
  {
    if trips != [] {
      var init, last := trips[..|trips| - 1], trips[|trips| - 1];
      assert last in trips;
      forall trip | trip in init
        ensures trip in NonZero(s.graph.transitions[s.bus.current - 1])
      {
        assert trip in trips;
      }
      MovesNotCheaper(s, init, hash);
      MoveKeepsTotal(s, last, hash);
    }
  }

  /** Disembarks at the bus's stop cost more in total than their father. */
  lemma {:induction false} DisembarksNotCheaper(s: State, ps: seq<Passenger>, hash: Hasher)
    requires WellFormed(s)
    requires forall p :: p in ps ==> p in s.bus.passengers
    ensures NoneCheaper(s, Disembarks(s, ps, hash))
    decreases |ps|
  {
    if ps != [] {
      var last := ps[|ps| - 1];
      DisembarksNotCheaper(s, ps[..|ps| - 1], hash);
      if last.destination == s.bus.current {
        DisembarkRaisesTotal(s, last, hash);
      }
    }
  }

  /** Embarks of passengers waiting at the bus's stop, with a free seat, cost more in total than their father. */
  lemma {:induction false} EmbarksNotCheaper(s: State, ps: seq<Passenger>, hash: Hasher)
    requires WellFormed(s) && |s.bus.passengers| < s.bus.capacity
    requires forall p :: p in ps ==> p in s.stations[s.bus.current - 1].passengers
    ensures NoneCheaper(s, Embarks(s, ps, hash))
    decreases |ps|
  {
    if ps != [] {
      var init, last := ps[..|ps| - 1], ps[|ps| - 1];
      assert last in ps;
      forall p | p in init
        ensures p in s.stations[s.bus.current - 1].passengers
      {
        assert p in ps;
      }
      EmbarksNotCheaper(s, init, hash);
      EmbarkRaisesTotal(s, last, hash);
    }
  }

  /** The station-distance loop: 0 first, then one shortest-path query per stop with someone waiting. */
  method GetMaxCostToPassenger(s: State) returns (h: nat)
    requires WellFormed(s)
    ensures h == MaxCostToPassenger(s)
  {
    StationIdsInRange(s);
    var adj := s.graph.transitions;
    var c := s.bus.current;
    var ds: seq<nat> := [];
    var k := 0;
    while k < |s.stations|
      invariant 0 <= k <= |s.stations|
      invariant ds == StationDistances(adj, c, s.stations[..k])
    {
      assert s.stations[..k + 1][..k] == s.stations[..k];
      if |s.stations[k].passengers| != 0 {
        var d := s.graph.ShortestPathCost(c, s.stations[k].id);
        ds := ds + [d];
      }
      k := k + 1;
    }
    assert s.stations[..|s.stations|] == s.stations;
    h := Max([0] + ds);
  }

  /** The delivery-distance loop: one shortest-path query per passenger on board. */
  method GetMaxDistanceToDeliver(s: State) returns (h: nat)
    requires WellFormed(s)
    ensures h == MaxDistanceToDeliver(s)
  {
    var adj := s.graph.transitions;
    var c := s.bus.current;
    var ps := s.bus.passengers;
    var ds: seq<nat> := [];
    var k := 0;
    while k < |ps|
      invariant 0 <= k <= |ps|
      invariant forall p :: p in ps[..k] ==> p in ps
      invariant ds == DeliveryDistances(adj, c, ps[..k])
    {
      assert ps[..k + 1][..k] == ps[..k];
      assert ps[k] in ps;
      var d := s.graph.ShortestPathCost(c, ps[k].destination);
      ds := ds + [d];
      k := k + 1;
    }
    assert ps[..|ps|] == ps;
    if |ds| == 0 {
      return 0;
    }
    h := Max(ds);
  }

  /** get_heuristic_cost: collect 0 and the selected heuristics, then take the largest. */
  method GetHeuristicCost(s: State) returns (h: nat)
    requires WellFormed(s)
    ensures h == HeuristicCost(s)
  {
    var costs: seq<nat> := [0];
    var hs := s.heuristic;
    var allPart: seq<nat> := [];
    var passengerPart: seq<nat> := [];
    var stationPart: seq<nat> := [];
    if hs == AllH {
      var d := GetMaxDistanceToDeliver(s);
      var st := GetMaxCostToPassenger(s);
      allPart := [d, st];
    }
    if hs == MaxDistPassengerH {
      var d := GetMaxDistanceToDeliver(s);
      passengerPart := [d];
    }
    if hs == MaxDistStationH {
      var st := GetMaxCostToPassenger(s);
      stationPart := [st];
    }
    h := Max(costs + allPart + passengerPart + stationPart);
  }

  /** get_total_cost. */
  method GetTotalCost(s: State) returns (t: nat)
    requires WellFormed(s)
    ensures t == TotalCost(s)
  {
    var h := GetHeuristicCost(s);
    t := s.cost + h;
  }

  // ---------------------------------------------------------------------------
  // State comparisons
  // ---------------------------------------------------------------------------

  /** State `<`, `>` and `==` look at the total cost only. */
  function StateLess(a: State, b: State): bool
    requires WellFormed(a) && WellFormed(b)
  {
    TotalCost(a) < TotalCost(b)
  }

  function StateGreater(a: State, b: State): bool
    requires WellFormed(a) && WellFormed(b)
  {
    TotalCost(a) > TotalCost(b)
  }

  function StateEqual(a: State, b: State): bool
    requires WellFormed(a) && WellFormed(b)
  {
    TotalCost(a) == TotalCost(b)
  }

  /** Exactly one of `<`, `==`, `>` holds, and `==` holds between different states of equal cost. */
  lemma StateComparisonsTrichotomy(a: State, b: State)
    requires WellFormed(a) && WellFormed(b)
    ensures StateLess(a, b) || StateEqual(a, b) || StateGreater(a, b)
    ensures !(StateLess(a, b) && StateEqual(a, b)) && !(StateLess(a, b) && StateGreater(a, b))
    ensures !(StateEqual(a, b) && StateGreater(a, b))
    ensures StateLess(a, b) <==> StateGreater(b, a)
  {
  }
}
