// The closed list: expansion records of the states already expanded, keyed by state id.

module Ledger {

  /**
   * The compact form of an expanded state, enough to rebuild the route: its id,
   * its parent's id, the stop it is at, whether it was made by an embark or a
   * disembark, and the destination of an embarked passenger.
   */
  datatype Expanded = Expanded(id: nat, parent: nat, station: nat,
                               embarking: bool, disembarking: bool, destination: nat)

  /** The default record: every number 0, neither flag set. */
  function DefaultExpanded(): (r: Expanded)
    ensures r.id == 0 && r.parent == 0 && r.station == 0 && r.destination == 0
    ensures !r.embarking && !r.disembarking
  {
    Expanded(0, 0, 0, false, false, 0)
  }

  /** Record `==`: the ids alone decide. */
  function SameRecord(a: Expanded, b: Expanded): bool
  {
    a.id == b.id
  }

  /** Record `!=`: the ids alone decide. */
  function DifferentRecord(a: Expanded, b: Expanded): bool
  {
    a.id != b.id
  }

  /** Record `<`, which compares ids with `<=`. */
  function RecordLess(a: Expanded, b: Expanded): bool
  {
    a.id <= b.id
  }

  /** Record `>`, which compares ids with `>=`. */
  function RecordGreater(a: Expanded, b: Expanded): bool
  {
    a.id >= b.id
  }

  /**
   * Equality ignores everything but the id, `!=` is its negation, and neither
   * `<` nor `>` is strict: a record is both less and greater than any record
   * with its id, itself included.
   */
  lemma RecordComparisons(a: Expanded, b: Expanded)
    ensures SameRecord(a, b) <==> a.id == b.id
    ensures DifferentRecord(a, b) <==> !SameRecord(a, b)
    ensures RecordLess(a, a) && RecordGreater(a, a)
    ensures SameRecord(a, b) <==> RecordLess(a, b) && RecordLess(b, a)
    ensures RecordLess(a, b) <==> RecordGreater(b, a)
  {
  }

  /** The closed list: a map from state id to the record first inserted under it. */
  class OrderedSet {
    var oset: map<nat, Expanded>

    /** Every stored record sits under its own id. */
    predicate Valid()
      reads this
    {
      forall id :: id in oset ==> oset[id].id == id
    }

    /** A new closed list is empty. */
    constructor ()
      ensures Valid() && oset == map[]
    {
      oset := map[];
    }

    /**
     * Stores the record under its id unless that id is already present: the
     * map's `insert` never overwrites.
     */
    method Insert(r: Expanded)
      requires Valid()
      modifies this
      ensures Valid()
      ensures r.id in old(oset) ==> oset == old(oset)
      ensures r.id !in old(oset) ==> oset == old(oset)[r.id := r]
    {
      if r.id !in oset {
        oset := oset[r.id := r];
      }
    }

    /** True exactly when a record with the same id has been inserted. */
    method Lookup(r: Expanded) returns (b: bool)
      ensures b <==> r.id in oset
    {
      b := r.id in oset;
    }

    /** The record stored under id; the id must be present. */
    method Recover(id: nat) returns (r: Expanded)
      requires Valid() && id in oset
      ensures r == oset[id] && r.id == id
    {
      r := oset[id];
    }
  }

  /**
   * Insert, then query: a lookup with any record carrying the inserted id
   * succeeds, every other id answers as before, and the record recovered
   * under the id is the one first inserted with it.
   */
  method InsertThenQuery(s: OrderedSet, r: Expanded, probe: Expanded)
    returns (found: bool, stored: Expanded)
    requires s.Valid()
    modifies s
    ensures found <==> probe.id == r.id || probe.id in old(s.oset)
    ensures stored == if r.id in old(s.oset) then old(s.oset)[r.id] else r
  {
    s.Insert(r);
    found := s.Lookup(probe);
    stored := s.Recover(r.id);
  }

  /** A fresh closed list finds nothing. */
  method EmptyLookup(r: Expanded) returns (b: bool)
    ensures !b
  {
    var s := new OrderedSet();
    b := s.Lookup(r);
  }
}
