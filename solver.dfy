// The best-first search: an open list ordered by total cost, a closed list of
// expansion records, and the reconstruction of the route from parent links.

module Search {
  import opened Types
  import opened Transit
  import opened Ledger
  import opened SearchState
  import opened Text

  // ---------------------------------------------------------------------------
  // The open list: a multimap from total cost to state
  // ---------------------------------------------------------------------------

  /** One element of the open list: the key it is ordered by and the state. */
  datatype Entry = Entry(key: nat, state: State)

  predicate Sorted(q: seq<Entry>)
  {
    forall i, j :: 0 <= i < j < |q| ==> q[i].key <= q[j].key
  }

  /** The number of leading entries whose key is at most `key`. */
  function UpperBound(q: seq<Entry>, key: nat): (p: nat)
    ensures p <= |q|
    ensures forall i :: 0 <= i < p ==> q[i].key <= key
    ensures p < |q| ==> q[p].key > key
  {
    if q == [] || q[0].key > key then 0 else 1 + UpperBound(q[1..], key)
  }

  /**
   * Multimap insertion: the new entry goes after every entry with a key not
   * greater than its own, so entries with equal keys leave in arrival order.
   */
  function InsertEntry(q: seq<Entry>, e: Entry): seq<Entry>
  {
    if q == [] || e.key < q[0].key then [e] + q else [q[0]] + InsertEntry(q[1..], e)
  }

  /** The entry lands at the upper bound of its key; nothing else moves. */
  lemma {:induction false} InsertEntryAtUpperBound(q: seq<Entry>, e: Entry)
    ensures InsertEntry(q, e) == q[..UpperBound(q, e.key)] + [e] + q[UpperBound(q, e.key)..]
    decreases |q|
  {
    if q != [] && e.key >= q[0].key {
      InsertEntryAtUpperBound(q[1..], e);
      var p := UpperBound(q[1..], e.key);
      assert q[..p + 1] == [q[0]] + q[1..][..p];
      assert q[p + 1..] == q[1..][p..];
    }
  }

  /** Insertion adds exactly the new entry and keeps the list sorted. */
  lemma InsertEntryFacts(q: seq<Entry>, e: Entry)
    ensures multiset(InsertEntry(q, e)) == multiset(q) + multiset{e}
    ensures Sorted(q) ==> Sorted(InsertEntry(q, e))
  {
    InsertEntryAtUpperBound(q, e);
    var p := UpperBound(q, e.key);
    assert q == q[..p] + q[p..];
    if Sorted(q) {
      InsertEntrySorted(q, e, p);
    }
  }

  /** Where each element of a sequence ends up once `e` is placed at index `p`. */
  lemma InsertAt<T>(q: seq<T>, e: T, p: nat)
    requires p <= |q|
    ensures |q[..p] + [e] + q[p..]| == |q| + 1
    ensures forall k :: 0 <= k < p ==> (q[..p] + [e] + q[p..])[k] == q[k]
    ensures (q[..p] + [e] + q[p..])[p] == e
    ensures forall k :: p < k <= |q| ==> (q[..p] + [e] + q[p..])[k] == q[k - 1]
  {
  }

  /** Placing an entry at the upper bound of its key keeps a sorted list sorted. */
  lemma InsertEntrySorted(q: seq<Entry>, e: Entry, p: nat)
    requires Sorted(q) && p == UpperBound(q, e.key)
    ensures Sorted(q[..p] + [e] + q[p..])
  {
    var r := q[..p] + [e] + q[p..];
    InsertAt(q, e, p);
    forall i, j | 0 <= i < j < |r|
      ensures r[i].key <= r[j].key
    {
      if j < p {
        assert q[i].key <= q[j].key;
      } else if j == p {
        assert q[i].key <= e.key;
      } else if i < p {
        assert q[i].key <= e.key < q[p].key <= q[j - 1].key;
      } else if i == p {
        assert e.key < q[p].key <= q[j - 1].key;
      } else {
        assert q[i - 1].key <= q[j - 1].key;
      }
    }
  }

  /** The open list after inserting each entry of `es` in turn. */
  function InsertAll(q: seq<Entry>, es: seq<Entry>): seq<Entry>
  {
    if es == [] then q else InsertEntry(InsertAll(q, es[..|es| - 1]), es[|es| - 1])
  }

  /** Inserting a batch adds exactly the batch and keeps the list sorted. */
  lemma InsertAllFacts(q: seq<Entry>, es: seq<Entry>)
    ensures multiset(InsertAll(q, es)) == multiset(q) + multiset(es)
    ensures Sorted(q) ==> Sorted(InsertAll(q, es))
  {
    InsertAllAddsBatch(q, es);
    if Sorted(q) {
      InsertAllSorted(q, es);
    }
  }

  /** Inserting a batch adds exactly the batch. */
  lemma {:induction false} InsertAllAddsBatch(q: seq<Entry>, es: seq<Entry>)
    ensures multiset(InsertAll(q, es)) == multiset(q) + multiset(es)
    decreases |es|
  {
    if es != [] {
      var init, last := es[..|es| - 1], es[|es| - 1];
      var before := InsertAll(q, init);
      InsertAllAddsBatch(q, init);
      InsertEntryFacts(before, last);
      MultisetSnoc(es);
    }
  }

  /** Inserting a batch into a sorted list keeps it sorted. */
  lemma {:induction false} InsertAllSorted(q: seq<Entry>, es: seq<Entry>)
    requires Sorted(q)
    ensures Sorted(InsertAll(q, es))
    decreases |es|
  {
    if es != [] {
      InsertAllSorted(q, es[..|es| - 1]);
      InsertEntryFacts(InsertAll(q, es[..|es| - 1]), es[|es| - 1]);
    }
  }

  /** The successors keyed by their total cost, in the order they are inserted. */
  function Keyed(succ: seq<State>): (es: seq<Entry>)
    requires forall t :: t in succ ==> WellFormed(t)
    ensures |es| == |succ|
    ensures forall i :: 0 <= i < |es| ==> es[i] == Entry(TotalCost(succ[i]), succ[i])
  {
    if succ == [] then []
    else Keyed(succ[..|succ| - 1]) + [Entry(TotalCost(succ[|succ| - 1]), succ[|succ| - 1])]
  }

  /** The successors of a well-formed state, keyed by total cost. */
  function KeyedSuccessors(c: State, hash: Hasher): seq<Entry>
    requires WellFormed(c)
  {
    SuccessorsWellFormed(c, hash);
    Keyed(Successors(c, hash))
  }

  /** Every successor of a well-formed state is well formed. */
  lemma SuccessorsWellFormed(c: State, hash: Hasher)
    requires WellFormed(c)
    ensures forall t :: t in Successors(c, hash) ==> WellFormed(t)
  {
    SuccessorsAreGood(c, hash);
  }

  /**
   * Inserts the successors of the front state, each under its total cost,
   * and then erases the front of the list.
   */
  method QueueSuccessors(open: seq<Entry>, hash: Hasher) returns (q: seq<Entry>)
    requires open != [] && WellFormed(open[0].state)
    ensures q == InsertThenErase(open, KeyedSuccessors(open[0].state, hash))
  {
    var succ := GetSuccessors(open[0].state, hash);
    SuccessorsWellFormed(open[0].state, hash);
    var r := InsertSuccessors(open, succ);
    InsertAllFacts(open, Keyed(succ));
    assert open[0] in multiset(r);
    q := r[1..];
  }

  /**
   * No successor is keyed below its father's key: the heuristics are
   * consistent, so the total cost never drops along a move, a boarding or an
   * alighting, and the initial key 0 is below every key.
   */
  lemma SuccessorKeysNotBelow(c: State, key: nat, hash: Hasher)
    requires WellFormed(c) && (key == TotalCost(c) || key == 0)
    ensures forall i :: 0 <= i < |KeyedSuccessors(c, hash)| ==> KeyedSuccessors(c, hash)[i].key >= key
  {
    SuccessorsNotCheaper(c, hash);
    var succ := Successors(c, hash);
    forall i | 0 <= i < |KeyedSuccessors(c, hash)|
      ensures KeyedSuccessors(c, hash)[i].key >= key
    {
      assert succ[i] in succ;
    }
  }

  /**
   * The erase after the insertions removes the candidate itself: the front
   * entry of an open list that keeps the invariant stays at the front while
   * its successors are inserted, so inserting then erasing is the same as
   * replacing the front by the successors.
   */
  lemma FrontIsErased(open: seq<Entry>, oset: map<nat, Expanded>, init: Expanded, hash: Hasher)
    requires open != [] && EntryOk(open[0], oset, init)
    ensures InsertAll(open, KeyedSuccessors(open[0].state, hash))[0] == open[0]
    ensures InsertThenErase(open, KeyedSuccessors(open[0].state, hash))
            == ReplaceFront(open, KeyedSuccessors(open[0].state, hash))
  {
    SuccessorKeysNotBelow(open[0].state, open[0].key, hash);
    ExpandOrdersAgree(open, KeyedSuccessors(open[0].state, hash));
  }

  /** Inserts the successors one by one, each under its total cost. */
  method InsertSuccessors(q: seq<Entry>, succ: seq<State>) returns (r: seq<Entry>)
    requires forall t :: t in succ ==> WellFormed(t)
    ensures r == InsertAll(q, Keyed(succ))
  {
    r := q;
    var k := 0;
    while k < |succ|
      invariant 0 <= k <= |succ|
      invariant r == InsertAll(q, Keyed(succ[..k]))
    {
      var key := GetTotalCost(succ[k]);
      assert succ[..k + 1] == succ[..k] + [succ[k]];
      assert Keyed(succ[..k + 1])[..k] == Keyed(succ[..k]);
      r := InsertEntry(r, Entry(key, succ[k]));
      k := k + 1;
    }
    assert succ[..k] == succ;
  }

  // ---------------------------------------------------------------------------
  // Expanding the candidate: when is it removed from the open list?
  // ---------------------------------------------------------------------------

  /**
   * The order of the search loop: the successors are inserted first and then
   * the front of the list is erased, on the assumption that the front is
   * still the candidate.
   */
  function InsertThenErase(q: seq<Entry>, es: seq<Entry>): seq<Entry>
    requires q != []
  {
    var r := InsertAll(q, es);
    assert multiset(r) == multiset(q) + multiset(es) by { InsertAllFacts(q, es); }
    assert q[0] in multiset(r);
    r[1..]
  }

  /**
   * The reference meaning of an expansion: the candidate leaves the list and
   * its successors go in.
   */
  function ReplaceFront(q: seq<Entry>, es: seq<Entry>): (r: seq<Entry>)
    requires q != []
    ensures multiset(r) == multiset(q) - multiset{q[0]} + multiset(es)
    ensures Sorted(q) ==> Sorted(r)
  {
    InsertAllFacts(q[1..], es);
    assert q == [q[0]] + q[1..];
    assert Sorted(q) ==> Sorted(q[1..]);
    InsertAll(q[1..], es)
  }

  /**
   * Both orders agree whenever no successor has a smaller key than the
   * candidate: equal keys queue behind it, so the front is still the candidate.
   */
  lemma {:induction false} ExpandOrdersAgree(q: seq<Entry>, es: seq<Entry>)
    requires q != []
    requires forall i :: 0 <= i < |es| ==> es[i].key >= q[0].key
    ensures InsertAll(q, es) != [] && InsertAll(q, es)[0] == q[0]
    ensures InsertThenErase(q, es) == ReplaceFront(q, es)
    decreases |es|
  {
    if es != [] {
      var init := es[..|es| - 1];
      ExpandOrdersAgree(q, init);
      var Q := InsertAll(q, init);
      assert Q == [Q[0]] + Q[1..];
      assert InsertAll(q, es) == [q[0]] + InsertEntry(Q[1..], es[|es| - 1]);
    } else {
      assert q == [q[0]] + q[1..];
    }
  }

  /**
   * What consistency rules out: were a successor keyed below the candidate,
   * the erase after the insertions would remove the successor and leave the
   * candidate, whose state was already released, at the front.
   */
  lemma EraseAfterInsertLosesSuccessor(candidate: State, child: State)
    ensures InsertThenErase([Entry(5, candidate)], [Entry(3, child)]) == [Entry(5, candidate)]
    ensures ReplaceFront([Entry(5, candidate)], [Entry(3, child)]) == [Entry(3, child)]
  {
    assert [Entry(3, child)][..0] == [];
    assert InsertAll([Entry(5, candidate)], [Entry(3, child)]) == [Entry(3, child), Entry(5, candidate)];
    assert [Entry(5, candidate)][1..] == [];
    assert InsertAll([], [Entry(3, child)]) == [Entry(3, child)] + [];
  }

  // ---------------------------------------------------------------------------
  // What the search keeps true
  // ---------------------------------------------------------------------------

  /**
   * An open entry holds a well-formed state whose record is consistent, and
   * whose father is already closed unless it is the initial state. Its key is
   * its total cost, except for the initial entry, inserted with key 0.
   */
  predicate EntryOk(e: Entry, oset: map<nat, Expanded>, init: Expanded)
  {
    && WellFormed(e.state)
    && e.state.expansion.id == e.state.id
    && !(e.state.expansion.embarking && e.state.expansion.disembarking)
    && (e.state.expansion == init || e.state.expansion.parent in oset)
    && (e.key == TotalCost(e.state) || (e.key == 0 && e.state.expansion == init))
  }

  /**
   * The closed records form a forest rooted at the initial id: each other
   * record's father is closed and was closed earlier (a smaller rank).
   */
  predicate ClosedOk(oset: map<nat, Expanded>, rank: map<nat, nat>, init: Expanded, expansions: nat)
  {
    && rank.Keys == oset.Keys
    && (forall id :: id in rank ==> rank[id] < expansions)
    && (forall id :: id in oset ==> !(oset[id].embarking && oset[id].disembarking))
    && (forall id :: id in oset && id != init.id ==> oset[id].parent in oset && rank[oset[id].parent] < rank[id])
    && (oset == map[] || (init.id in oset && oset[init.id] == init))
  }

  /**
   * The route recovered from a final record: it starts at the final record,
   * each record is followed by its father as stored in the closed list, and
   * it stops at the first record carrying the initial id.
   */
  predicate ParentChain(chain: seq<Expanded>, oset: map<nat, Expanded>, initId: nat, final: Expanded)
  {
    && |chain| >= 1
    && chain[0] == final
    && chain[|chain| - 1].id == initId
    && forall i :: 0 <= i < |chain| - 1 ==>
         chain[i].id != initId && chain[i].parent in oset && chain[i + 1] == oset[chain[i].parent]
  }

  /** The parent links determine the route: two routes from the same final record are equal. */
  lemma {:induction false} ParentChainIsUnique(a: seq<Expanded>, b: seq<Expanded>, oset: map<nat, Expanded>,
                                               initId: nat, final: Expanded)
    requires ParentChain(a, oset, initId, final) && ParentChain(b, oset, initId, final)
    ensures a == b
  {
    var k := 0;
    while k < |a| - 1 && k < |b| - 1
      invariant 0 <= k < |a| && k < |b|
      invariant a[..k + 1] == b[..k + 1]
      decreases |a| - k
    {
      assert a[k] == b[k];
      assert a[..k + 2] == a[..k + 1] + [a[k + 1]] && b[..k + 2] == b[..k + 1] + [b[k + 1]];
      k := k + 1;
    }
    assert a[k] == b[k];
    assert k == |a| - 1 && k == |b| - 1;
    assert a == a[..k + 1] && b == b[..k + 1];
  }

  /** A goal recorded by the search: its record, its cost, and a closed father unless it is the initial state. */
  predicate GoalOk(goal: State, final: Expanded, cost: nat, oset: map<nat, Expanded>, init: Expanded)
  {
    && IsGoal(goal) && WellFormed(goal)
    && goal.expansion == final && cost == goal.cost
    && !(final.embarking && final.disembarking)
    && (final == init || final.parent in oset)
  }

  /** The open list is sorted by key and holds consistent entries. */
  predicate OpenOk(open: seq<Entry>, oset: map<nat, Expanded>, init: Expanded)
  {
    && Sorted(open)
    && (forall e :: e in open ==> EntryOk(e, oset, init))
    && (open != [] ==> WellFormed(open[0].state))
  }

  /**
   * The search invariant: the open list is sorted by key and holds
   * consistent entries, the closed records are well ranked and counted by
   * the expansion count, and a solved search holds its goal.
   */
  predicate SearchOk(open: seq<Entry>, oset: map<nat, Expanded>, rank: map<nat, nat>, init: Expanded,
                     expansions: nat, solved: bool, goal: State, final: Expanded, cost: nat)
  {
    && OpenOk(open, oset, init)
    && ClosedOk(oset, rank, init, expansions)
    && expansions == |oset|
    && (solved ==> GoalOk(goal, final, cost, oset, init))
  }

  /** Finding a goal at the front keeps the invariant, with the goal recorded. */
  lemma GoalKeepsOk(open: seq<Entry>, oset: map<nat, Expanded>, rank: map<nat, nat>, init: Expanded,
                    n: nat, goal: State, final: Expanded, cost: nat)
    requires SearchOk(open, oset, rank, init, n, false, goal, final, cost)
    requires open != [] && IsGoal(open[0].state)
    ensures var c := open[0].state;
            SearchOk(open, oset, rank, init, n, true, c, c.expansion, c.cost)
  {
    assert EntryOk(open[0], oset, init);
  }

  /** Dropping a front entry that is already closed keeps the invariant. */
  lemma DropKeepsOk(open: seq<Entry>, oset: map<nat, Expanded>, rank: map<nat, nat>, init: Expanded,
                    n: nat, goal: State, final: Expanded, cost: nat)
    requires SearchOk(open, oset, rank, init, n, false, goal, final, cost)
    requires open != []
    ensures SearchOk(open[1..], oset, rank, init, n, false, goal, final, cost)
  {
    if |open| > 1 {
      assert open[1] in open;
    }
  }

  /** Closing the record of the front state keeps the invariant. */
  lemma CloseKeepsOk(open: seq<Entry>, oset: map<nat, Expanded>, rank: map<nat, nat>, init: Expanded,
                     n: nat, goal: State, final: Expanded, cost: nat)
    requires SearchOk(open, oset, rank, init, n, false, goal, final, cost)
    requires open != [] && open[0].state.expansion.id !in oset
    ensures var rec := open[0].state.expansion;
            SearchOk(open, oset[rec.id := rec], rank[rec.id := n], init, n + 1, false, goal, final, cost)
  {
    var rec := open[0].state.expansion;
    assert EntryOk(open[0], oset, init);
    ClosingKeepsClosedOk(oset, rank, init, n, rec);
    EntriesStayOk(open, oset, oset[rec.id := rec], init);
  }

  /** Replacing a closed front state by its successors keeps the invariant. */
  lemma QueueKeepsOk(open: seq<Entry>, oset: map<nat, Expanded>, rank: map<nat, nat>, init: Expanded,
                     n: nat, goal: State, final: Expanded, cost: nat, hash: Hasher, q: seq<Entry>)
    requires SearchOk(open, oset, rank, init, n, false, goal, final, cost)
    requires open != [] && open[0].state.id in oset
    requires WellFormed(open[0].state) && q == ReplaceFront(open, KeyedSuccessors(open[0].state, hash))
    ensures SearchOk(q, oset, rank, init, n, false, goal, final, cost)
  {
    var c := open[0].state;
    assert EntryOk(open[0], oset, init);
    SuccessorsAreGood(c, hash);
    forall e | e in open[1..]
      ensures EntryOk(e, oset, init)
    {
      assert e in open;
    }
    ChildrenAreOk(open, c, Successors(c, hash), oset, init, hash);
    if q != [] {
      assert q[0] in q;
    }
  }

  /** Closing a new record keeps the forest of closed records well ranked. */
  lemma ClosingKeepsClosedOk(oset0: map<nat, Expanded>, rank0: map<nat, nat>, init: Expanded, n: nat,
                             r: Expanded)
    requires ClosedOk(oset0, rank0, init, n)
    requires !(r.embarking && r.disembarking)
    requires r == init || r.parent in oset0
    requires r.id !in oset0
    ensures ClosedOk(oset0[r.id := r], rank0[r.id := n], init, n + 1)
  {
    var oset := oset0[r.id := r];
    var rank := rank0[r.id := n];
    forall id | id in oset && id != init.id
      ensures oset[id].parent in oset && rank[oset[id].parent] < rank[id]
    {
      if id == r.id {
        assert r != init && r.parent in oset0;
      } else {
        assert oset[id] == oset0[id] && oset0[id].parent in oset0;
      }
    }
    if oset0 == map[] {
      assert r == init;
    }
  }

  /** After the expansion every open entry, old or new, is consistent. */
  lemma ChildrenAreOk(q0: seq<Entry>, c: State, succ: seq<State>, oset: map<nat, Expanded>, init: Expanded,
                      hash: Hasher)
    requires q0 != [] && WellFormed(c)
    requires c.expansion.id == c.id && c.id in oset
    requires succ == Successors(c, hash)
    requires forall t :: t in succ ==> GoodChild(c, t, hash)
    requires forall e :: e in q0[1..] ==> EntryOk(e, oset, init)
    ensures forall e :: e in ReplaceFront(q0, KeyedSuccessors(c, hash)) ==> EntryOk(e, oset, init)
  {
    var es := KeyedSuccessors(c, hash);
    forall i | 0 <= i < |es|
      ensures EntryOk(es[i], oset, init)
    {
      assert succ[i] in succ;
      ChildEntryOk(c, succ[i], oset, init, hash);
    }
    forall e | e in ReplaceFront(q0, es)
      ensures EntryOk(e, oset, init)
    {
      InExpand(q0, es, e);
    }
  }

  /** A successor queued under its total cost is a consistent entry once its father is closed. */
  lemma ChildEntryOk(c: State, t: State, oset: map<nat, Expanded>, init: Expanded, hash: Hasher)
    requires WellFormed(c) && GoodChild(c, t, hash) && c.id in oset
    ensures EntryOk(Entry(TotalCost(t), t), oset, init)
  {
  }

  /** An entry of the list after the expansion was either already queued or is a successor. */
  lemma InExpand(q0: seq<Entry>, es: seq<Entry>, e: Entry)
    requires q0 != [] && e in ReplaceFront(q0, es)
    ensures e in q0[1..] || e in es
  {
    var r := ReplaceFront(q0, es);
    assert e in multiset(r);
    assert q0 == [q0[0]] + q0[1..];
    assert multiset(q0) - multiset{q0[0]} == multiset(q0[1..]);
  }

  /** Open entries stay consistent when the closed list grows. */
  lemma EntriesStayOk(q: seq<Entry>, oset0: map<nat, Expanded>, oset1: map<nat, Expanded>, init: Expanded)
    requires forall e :: e in q ==> EntryOk(e, oset0, init)
    requires oset0.Keys <= oset1.Keys
    ensures forall e :: e in q ==> EntryOk(e, oset1, init)
  {
  }

  /**
   * A partial chain while chasing parents: it starts at the final record,
   * each record is followed by its father, every record after the first is
   * the one stored under its id, and the last one's father is closed unless
   * it carries the initial id.
   */
  predicate FollowOk(chain: seq<Expanded>, oset: map<nat, Expanded>, init: Expanded, final: Expanded)
  {
    && |chain| >= 1 && chain[0] == final
    && (forall i :: 0 <= i < |chain| - 1 ==>
          chain[i].id != init.id && chain[i].parent in oset && chain[i + 1] == oset[chain[i].parent])
    && (|chain| > 1 ==> chain[|chain| - 1].id in oset && oset[chain[|chain| - 1].id] == chain[|chain| - 1])
    && SingleFlag(chain)
    && (chain[|chain| - 1].id != init.id ==> chain[|chain| - 1].parent in oset)
  }

  /** One more father keeps the partial chain consistent, and its rank is smaller. */
  lemma FollowStep(chain: seq<Expanded>, oset: map<nat, Expanded>, rank: map<nat, nat>, init: Expanded,
                   n: nat, final: Expanded)
    requires forall id :: id in oset ==> oset[id].id == id
    requires ClosedOk(oset, rank, init, n) && FollowOk(chain, oset, init, final)
    requires chain[|chain| - 1].id != init.id
    ensures var last := chain[|chain| - 1];
            && last.parent in oset && last.parent in rank
            && FollowOk(chain + [oset[last.parent]], oset, init, final)
            && (|chain| == 1 ==> rank[last.parent] < n)
            && (|chain| > 1 ==> last.id in rank && rank[last.parent] < rank[last.id])
  {
    var last := chain[|chain| - 1];
    var next := chain + [oset[last.parent]];
    forall i | 0 <= i < |next| - 1
      ensures next[i].id != init.id && next[i].parent in oset && next[i + 1] == oset[next[i].parent]
    {
      if i < |chain| - 1 {
        assert next[i] == chain[i] && next[i + 1] == chain[i + 1];
      }
    }
  }

  /**
   * The reconstruction loop of recover_solution: push the final record, then
   * recover fathers from the closed list until a record carries the initial id.
   */
  method FollowParents(closed: OrderedSet, ghost rank: map<nat, nat>, init: Expanded, final: Expanded,
                       ghost n: nat)
    returns (chain: seq<Expanded>)
    requires closed.Valid() && ClosedOk(closed.oset, rank, init, n)
    requires final == init || final.parent in closed.oset
    requires !(final.embarking && final.disembarking)
    ensures ParentChain(chain, closed.oset, init.id, final)
    ensures |chain| > 1 ==> chain[|chain| - 1] == init
    ensures SingleFlag(chain)
  {
    var expansion := final;
    chain := [final];
    while expansion.id != init.id
      invariant FollowOk(chain, closed.oset, init, final) && expansion == chain[|chain| - 1]
      invariant |chain| > 1 ==> expansion.id in rank
      decreases if |chain| == 1 then n else rank[expansion.id]
    {
      FollowStep(chain, closed.oset, rank, init, n, final);
      var parent := closed.Recover(expansion.parent);
      chain := chain + [parent];
      expansion := parent;
    }
    if |chain| > 1 {
      assert closed.oset != map[];
    }
  }

  // ---------------------------------------------------------------------------
  // Rendering the route
  // ---------------------------------------------------------------------------

  /** The text built so far, the stop count, and the two flags of the rendering loop. */
  datatype Rendering = Rendering(text: string, stops: nat, paren: bool, first: bool)

  predicate IsMove(r: Expanded)
  {
    !r.embarking && !r.disembarking
  }

  predicate SingleFlag(chain: seq<Expanded>)
  {
    forall i :: 0 <= i < |chain| ==> !(chain[i].embarking && chain[i].disembarking)
  }

  /**
   * One record of the route: a move closes an open parenthesis and names the
   * stop; an embark or a disembark names the school, opening "(S: " or
   * "(B: " unless a parenthesis is already open.
   */
  function RenderRecord(r: Expanded, schools: seq<School>, st: Rendering): Rendering
    requires !(r.embarking && r.disembarking)
  {
    if IsMove(r) then
      Rendering(st.text + (if st.paren then ") " else "") + (if st.first then "P" else "->P")
                + NatToString(r.station) + " ", st.stops + 1, false, false)
    else
      var sid := IntToString(if r.embarking then SchoolAt(r.destination, schools) else SchoolAt(r.station, schools));
      if st.paren then Rendering(st.text + ", 1 C" + sid, st.stops, true, st.first)
      else Rendering(st.text + (if st.first then "->P" + NatToString(r.station) + " " else "")
                     + (if r.embarking then "(S: 1 C" else "(B: 1 C") + sid, st.stops, true, st.first)
  }

  /** The route rendered from its last record (the initial one) back to the first (the goal). */
  function RenderChain(chain: seq<Expanded>, schools: seq<School>): Rendering
    requires SingleFlag(chain)
    decreases |chain|
  {
    if chain == [] then Rendering("", 0, false, true)
    else RenderRecord(chain[0], schools, RenderChain(chain[1..], schools))
  }

  /** Which records of the route are moves. */
  function MoveFlags(chain: seq<Expanded>): seq<bool>
  {
    seq(|chain|, i requires 0 <= i < |chain| => IsMove(chain[i]))
  }

  /** The stop count is the number of move records in the route. */
  lemma {:induction false} RenderCountsMoves(chain: seq<Expanded>, schools: seq<School>)
    requires SingleFlag(chain)
    ensures RenderChain(chain, schools).stops == multiset(MoveFlags(chain))[true]
    decreases |chain|
  {
    if chain != [] {
      RenderCountsMoves(chain[1..], schools);
      assert MoveFlags(chain) == [IsMove(chain[0])] + MoveFlags(chain[1..]);
    }
  }

  /** The text only grows: the rendering of a tail of the route is a prefix of the whole. */
  lemma {:induction false} RenderTextGrows(chain: seq<Expanded>, schools: seq<School>, k: nat)
    requires SingleFlag(chain) && k <= |chain|
    ensures RenderChain(chain[k..], schools).text <= RenderChain(chain, schools).text
    decreases k
  {
    if k > 0 {
      RenderTextGrows(chain[1..], schools, k - 1);
      assert chain[1..][k - 1..] == chain[k..];
    }
  }

  /** A route that begins with a move (the initial record) is written starting with "P<stop> ". */
  lemma RenderStartsAtFirstStop(chain: seq<Expanded>, schools: seq<School>)
    requires SingleFlag(chain) && chain != [] && IsMove(chain[|chain| - 1])
    ensures "P" + NatToString(chain[|chain| - 1].station) + " " <= RenderChain(chain, schools).text
  {
    var last := chain[|chain| - 1];
    RenderTextGrows(chain, schools, |chain| - 1);
    assert chain[|chain| - 1..] == [last];
    assert [last][1..] == [];
    assert RenderChain([last], schools).text == "" + "" + "P" + NatToString(last.station) + " ";
  }

  // ---------------------------------------------------------------------------
  // The solver
  // ---------------------------------------------------------------------------

  class Solver {
    const closed: OrderedSet
    var solved: bool
    var open: seq<Entry>
    const schools: seq<School>
    var solution: string
    var finalRecord: Expanded
    const initialRecord: Expanded
    var expansions: nat
    var stops: nat
    var solutionCost: nat
    const hash: Hasher
    /** When each closed id was closed. */
    ghost var rank: map<nat, nat>
    /** The goal state found, once solved. */
    ghost var goal: State

    ghost predicate Valid()
      reads this, closed
    {
      && closed.Valid()
      && SearchOk(open, closed.oset, rank, initialRecord, expansions, solved, goal, finalRecord, solutionCost)
    }

    /** The open list holds the initial state under key 0; nothing is closed yet. */
    constructor (graph: Graph, schools: seq<School>, stations: seq<Station>, bus: Bus,
                 heuristic: string, hash: Hasher)
      ensures open == [Entry(0, Initial(graph, stations, bus, heuristic, hash))]
      ensures initialRecord == Initial(graph, stations, bus, heuristic, hash).expansion
      ensures fresh(closed) && closed.oset == map[]
      ensures !solved && expansions == 0 && stops == 0 && solutionCost == 0 && solution == ""
      ensures this.schools == schools && this.hash == hash
      ensures WellFormed(Initial(graph, stations, bus, heuristic, hash)) ==> Valid()
    {
      var initial := Initial(graph, stations, bus, heuristic, hash);
      closed := new OrderedSet();
      solved := false;
      open := [Entry(0, initial)];
      this.schools := schools;
      solution := "";
      finalRecord := DefaultExpanded();
      initialRecord := initial.expansion;
      expansions := 0;
      stops := 0;
      solutionCost := 0;
      this.hash := hash;
      rank := map[];
      goal := initial;
    }

    /**
     * One turn of the search loop on the front of the open list: a goal ends
     * the search; a state already closed is dropped; any other state is
     * closed, replaced by its successors keyed by total cost, and counted.
     */
    method Step()
      requires Valid() && open != [] && !solved
      modifies this, closed
      ensures Valid()
      ensures var c := old(open[0].state);
              if IsGoal(c) then
                && solved && finalRecord == c.expansion && solutionCost == c.cost
                && open == old(open) && closed.oset == old(closed.oset) && expansions == old(expansions)
              else if c.expansion.id in old(closed.oset) then
                && !solved && open == old(open)[1..]
                && closed.oset == old(closed.oset) && expansions == old(expansions)
              else
                && !solved && open == InsertThenErase(old(open), KeyedSuccessors(c, hash))
                && open == ReplaceFront(old(open), KeyedSuccessors(c, hash))
                && closed.oset == old(closed.oset)[c.expansion.id := c.expansion]
                && expansions == old(expansions) + 1
    {
      var c := open[0].state;
      var isFinal := IsFinal(c);
      if isFinal {
        RecordGoal();
        return;
      }
      var wasClosed := closed.Lookup(c.expansion);
      if wasClosed {
        DropFront();
        return;
      }
      Expand();
    }

    /** The front state is a goal: the search is solved and the goal's record and cost are kept. */
    method RecordGoal()
      requires Valid() && open != [] && !solved && IsGoal(open[0].state)
      modifies this
      ensures Valid() && solved
      ensures finalRecord == old(open[0].state.expansion) && solutionCost == old(open[0].state.cost)
      ensures open == old(open) && expansions == old(expansions)
    {
      var c := open[0].state;
      ghost var open0, oset0, rank0, n0, goal0, final0, cost0 :=
        open, closed.oset, rank, expansions, goal, finalRecord, solutionCost;
      solved := true;
      finalRecord := c.expansion;
      solutionCost := c.cost;
      goal := c;
      assert open == open0 && closed.oset == oset0 && rank == rank0 && expansions == n0;
      GoalKeepsOk(open0, oset0, rank0, initialRecord, n0, goal0, final0, cost0);
    }

    /** The front state was already expanded: it is dropped. */
    method DropFront()
      requires Valid() && open != [] && !solved
      modifies this
      ensures Valid() && !solved
      ensures open == old(open)[1..] && expansions == old(expansions)
    {
      ghost var open0, oset0, rank0, n0 := open, closed.oset, rank, expansions;
      open := open[1..];
      assert closed.oset == oset0 && rank == rank0 && expansions == n0;
      DropKeepsOk(open0, oset0, rank0, initialRecord, n0, goal, finalRecord, solutionCost);
    }

    /** Closes the front state and queues its successors in its place. */
    method Expand()
      requires Valid() && open != [] && !solved && open[0].state.expansion.id !in closed.oset
      modifies this, closed
      ensures Valid() && !solved
      ensures var c := old(open[0].state);
              && open == InsertThenErase(old(open), KeyedSuccessors(c, hash))
              && open == ReplaceFront(old(open), KeyedSuccessors(c, hash))
              && closed.oset == old(closed.oset)[c.expansion.id := c.expansion]
              && expansions == old(expansions) + 1
    {
      CloseFront();
      QueueFront();
    }

    /** Stores the record of the front state in the closed list and counts the expansion. */
    method CloseFront()
      requires Valid() && open != [] && !solved && open[0].state.expansion.id !in closed.oset
      modifies this, closed
      ensures Valid() && !solved && open == old(open) && open[0].state.id in closed.oset
      ensures closed.oset == old(closed.oset)[open[0].state.expansion.id := open[0].state.expansion]
      ensures expansions == old(expansions) + 1
    {
      var rec := open[0].state.expansion;
      CloseKeepsOk(open, closed.oset, rank, initialRecord, expansions, goal, finalRecord, solutionCost);
      assert EntryOk(open[0], closed.oset, initialRecord);
      closed.Insert(rec);
      rank := rank[rec.id := expansions];
      expansions := expansions + 1;
    }

    /**
     * Inserts the successors of the front entry, already closed, keyed by
     * total cost, then erases the front, which is still that entry.
     */
    method QueueFront()
      requires Valid() && open != [] && !solved && open[0].state.id in closed.oset
      modifies this
      ensures Valid() && !solved
      ensures open == InsertThenErase(old(open), KeyedSuccessors(old(open[0].state), hash))
      ensures open == ReplaceFront(old(open), KeyedSuccessors(old(open[0].state), hash))
      ensures closed.oset == old(closed.oset) && expansions == old(expansions)
    {
      assert EntryOk(open[0], closed.oset, initialRecord);
      var q := QueueSuccessors(open, hash);
      FrontIsErased(open, closed.oset, initialRecord, hash);
      QueueKeepsOk(open, closed.oset, rank, initialRecord, expansions, goal, finalRecord, solutionCost, hash, q);
      open := q;
    }

    /** parse_school: the id of the first school at this stop, or -1. */
    method ParseSchool(stationId: nat) returns (r: int)
      ensures r == SchoolAt(stationId, schools)
    {
      var k := 0;
      while k < |schools|
        invariant 0 <= k <= |schools|
        invariant SchoolAt(stationId, schools[k..]) == SchoolAt(stationId, schools)
      {
        assert schools[k..][1..] == schools[k + 1..];
        if schools[k].stationId == stationId {
          return schools[k].id;
        }
        k := k + 1;
      }
      r := -1;
    }

    /** Follows the parent links from the final record back to the first record with the initial id. */
    method RecoverChain() returns (chain: seq<Expanded>)
      requires Valid() && solved
      ensures ParentChain(chain, closed.oset, initialRecord.id, finalRecord)
      ensures |chain| > 1 ==> chain[|chain| - 1] == initialRecord
      ensures SingleFlag(chain)
    {
      chain := FollowParents(closed, rank, initialRecord, finalRecord, expansions);
    }

    /** Renders the route, last record first, counting the stops. */
    method RenderRoute(chain: seq<Expanded>) returns (r: Rendering)
      requires SingleFlag(chain)
      ensures r == RenderChain(chain, schools)
    {
      r := Rendering("", 0, false, true);
      var i := |chain|;
      while i > 0
        invariant 0 <= i <= |chain|
        invariant r == RenderChain(chain[i..], schools)
      {
        i := i - 1;
        assert chain[i..][1..] == chain[i + 1..];
        r := RenderOne(chain[i], r);
      }
    }

    /** One turn of the rendering loop. */
    method RenderOne(rec: Expanded, r: Rendering) returns (r': Rendering)
      requires !(rec.embarking && rec.disembarking)
      ensures r' == RenderRecord(rec, schools, r)
    {
      if IsMove(rec) {
        var text := r.text + (if r.paren then ") " else "");
        text := text + (if r.first then "P" else "->P") + NatToString(rec.station) + " ";
        r' := Rendering(text, r.stops + 1, false, false);
      } else {
        var school := ParseSchool(if rec.embarking then rec.destination else rec.station);
        var sid := IntToString(school);
        if r.paren {
          r' := r.(text := r.text + ", 1 C" + sid);
        } else {
          var text := r.text + (if r.first then "->P" + NatToString(rec.station) + " " else "");
          text := text + (if rec.embarking then "(S: 1 C" else "(B: 1 C") + sid;
          r' := r.(text := text, paren := true);
        }
      }
    }

    /** recover_solution: the route text is stored and its stops are added to the stop count. */
    method RecoverSolution() returns (chain: seq<Expanded>)
      requires Valid() && solved
      modifies this
      ensures Valid()
      ensures ParentChain(chain, closed.oset, initialRecord.id, finalRecord) && SingleFlag(chain)
      ensures solution == RenderChain(chain, schools).text
      ensures stops == old(stops) + RenderChain(chain, schools).stops
      ensures open == old(open) && solved && expansions == old(expansions)
      ensures finalRecord == old(finalRecord) && solutionCost == old(solutionCost)
    {
      chain := RecoverChain();
      var r := RenderRoute(chain);
      ghost var open0, oset0, rank0, n0, goal0, final0, cost0 :=
        open, closed.oset, rank, expansions, goal, finalRecord, solutionCost;
      solution := r.text;
      stops := stops + r.stops;
      assert open == open0 && closed.oset == oset0 && rank == rank0 && expansions == n0;
      assert goal == goal0 && finalRecord == final0 && solutionCost == cost0;
    }

    /**
     * solve: repeat the step on the front of the open list until a goal is
     * found or the list is empty, then recover the route. The loop of the
     * source has no bound; `fuel` bounds the number of steps here.
     */
    method Solve(fuel: nat) returns (r: bool, steps: nat, chain: seq<Expanded>)
      requires Valid()
      modifies this, closed
      ensures Valid()
      ensures r == solved && steps <= fuel
      ensures steps < fuel ==> r || open == []
      ensures r ==> IsGoal(goal) && goal.expansion == finalRecord && solutionCost == goal.cost
      ensures r ==> ParentChain(chain, closed.oset, initialRecord.id, finalRecord) && SingleFlag(chain)
                    && solution == RenderChain(chain, schools).text
    {
      solved := false;
      steps := 0;
      while open != [] && !solved && steps < fuel
        invariant Valid() && steps <= fuel
        decreases fuel - steps
      {
        Step();
        steps := steps + 1;
      }
      chain := [];
      if solved {
        chain := RecoverSolution();
      }
      r := solved;
    }
  }

  /** Every record of a recovered route has one flag at most, and the route opens at the initial stop. */
  lemma RecoveredRouteStartsAtOrigin(chain: seq<Expanded>, schools: seq<School>, init: Expanded)
    requires SingleFlag(chain) && |chain| > 1 && chain[|chain| - 1] == init && IsMove(init)
    ensures "P" + NatToString(init.station) + " " <= RenderChain(chain, schools).text
    ensures RenderChain(chain, schools).stops >= 1
  {
    RenderStartsAtFirstStop(chain, schools);
    RenderCountsMoves(chain, schools);
    assert MoveFlags(chain)[|chain| - 1];
    assert true in multiset(MoveFlags(chain));
  }
}
