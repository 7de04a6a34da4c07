/// The transit graph: a directed adjacency list over stops numbered 1..N,
/// with a neighbour query, a point cost lookup and a Bellman-Ford
/// shortest-path query whose "unreachable" value is INT8_MAX.
module Transit {

  /** An input edge: source stop, destination stop (both 1-based) and cost. */
  datatype Edge = Edge(src: nat, dest: nat, cost: nat)

  /** An entry of an adjacency list: the stop the edge leads to and its cost. */
  datatype Transition = Transition(destination: nat, cost: nat)

  /** The "unreachable" distance used by the shortest-path query (INT8_MAX). */
  const Unreachable: int := 127

  // ---------------------------------------------------------------------------
  // Construction
  // ---------------------------------------------------------------------------

  /** The transitions that `edges` contribute to stop `src`, in input order. */
  function EdgesFrom(edges: seq<Edge>, src: nat): seq<Transition>
  {
    if edges == [] then []
    else
      (if edges[0].src == src then [Transition(edges[0].dest, edges[0].cost)] else [])
        + EdgesFrom(edges[1..], src)
  }

  /** The adjacency lists of an N-stop graph built from `edges`: list u belongs to stop u + 1. */
  function Adjacency(edges: seq<Edge>, n: nat): seq<seq<Transition>>
  {
    seq(n, u requires 0 <= u < n => EdgesFrom(edges, u + 1))
  }

  /** Every transition leads to a stop in 1..N. */
  predicate ValidAdjacency(adj: seq<seq<Transition>>)
  {
    forall u, i :: 0 <= u < |adj| && 0 <= i < |adj[u]| ==> 1 <= adj[u][i].destination <= |adj|
  }

  /** Total number of transitions stored over all adjacency lists. */
  function TotalLength(adj: seq<seq<Transition>>): nat
  {
    if adj == [] then 0 else TotalLength(adj[..|adj| - 1]) + |adj[|adj| - 1]|
  }

  lemma {:induction false} EdgesFromSnoc(edges: seq<Edge>, e: Edge, src: nat)
    ensures EdgesFrom(edges + [e], src)
         == EdgesFrom(edges, src) + (if e.src == src then [Transition(e.dest, e.cost)] else [])
    decreases |edges|
  {
    if edges != [] {
      assert (edges + [e])[1..] == edges[1..] + [e];
      EdgesFromSnoc(edges[1..], e, src);
    } else {
      assert ([] + [e])[1..] == [];
    }
  }

  /** Appending an edge appends one transition to its source's list and changes nothing else. */
  lemma AdjacencySnoc(edges: seq<Edge>, e: Edge, n: nat)
    requires 1 <= e.src <= n
    ensures Adjacency(edges + [e], n)
         == Adjacency(edges, n)[e.src - 1 := Adjacency(edges, n)[e.src - 1] + [Transition(e.dest, e.cost)]]
  {
    var before := Adjacency(edges, n);
    var after := Adjacency(edges + [e], n);
    var expected := before[e.src - 1 := before[e.src - 1] + [Transition(e.dest, e.cost)]];
    assert |after| == n == |expected|;
    forall u | 0 <= u < n
      ensures after[u] == expected[u]
    {
      EdgesFromSnoc(edges, e, u + 1);
      assert after[u] == EdgesFrom(edges + [e], u + 1);
      assert before[u] == EdgesFrom(edges, u + 1);
    }
  }

  lemma {:induction false} EdgesFromMembership(edges: seq<Edge>, src: nat, t: Transition)
    ensures t in EdgesFrom(edges, src)
        <==> exists k :: 0 <= k < |edges| && edges[k].src == src && t == Transition(edges[k].dest, edges[k].cost)
    decreases |edges|
  {
    if edges != [] {
      var rest := edges[1..];
      EdgesFromMembership(rest, src, t);
      if t in EdgesFrom(edges, src) {
        if t !in EdgesFrom(rest, src) {
          assert edges[0].src == src && t == Transition(edges[0].dest, edges[0].cost);
        } else {
          var k :| 0 <= k < |rest| && rest[k].src == src && t == Transition(rest[k].dest, rest[k].cost);
          assert edges[k + 1] == rest[k];
        }
      } else {
        forall k | 0 <= k < |edges| && edges[k].src == src
          ensures t != Transition(edges[k].dest, edges[k].cost)
        {
          if k > 0 {
            assert edges[k] == rest[k - 1];
          }
        }
      }
    }
  }

  /** The constructor stores an edge exactly at its source's list (no reverse edge). */
  lemma AdjacencyMembership(edges: seq<Edge>, n: nat, u: nat, t: Transition)
    requires u < n
    ensures t in Adjacency(edges, n)[u]
        <==> exists k :: 0 <= k < |edges| && edges[k].src == u + 1 && t == Transition(edges[k].dest, edges[k].cost)
  {
    EdgesFromMembership(edges, u + 1, t);
  }

  lemma {:induction false} TotalLengthGrow(adj: seq<seq<Transition>>, u: nat, t: Transition)
    requires u < |adj|
    ensures TotalLength(adj[u := adj[u] + [t]]) == TotalLength(adj) + 1
    decreases |adj|
  {
    var adj' := adj[u := adj[u] + [t]];
    if u == |adj| - 1 {
      assert adj'[..|adj'| - 1] == adj[..|adj| - 1];
    } else {
      assert adj'[..|adj'| - 1] == adj[..|adj| - 1][u := adj[u] + [t]];
      TotalLengthGrow(adj[..|adj| - 1], u, t);
    }
  }

  /** N empty adjacency lists. */
  function NoTransitions(n: nat): seq<seq<Transition>>
  {
    seq(n, _ => [])
  }

  lemma {:induction false} TotalLengthEmpty(n: nat)
    ensures TotalLength(NoTransitions(n)) == 0
  {
    if n > 0 {
      assert NoTransitions(n)[..n - 1] == NoTransitions(n - 1);
      TotalLengthEmpty(n - 1);
    }
  }

  /** Every edge is stored exactly once: the lists hold |edges| transitions in all. */
  lemma {:induction false} AdjacencyStoresEachEdgeOnce(edges: seq<Edge>, n: nat)
    requires forall k :: 0 <= k < |edges| ==> 1 <= edges[k].src <= n
    ensures TotalLength(Adjacency(edges, n)) == |edges|
    decreases |edges|
  {
    if edges == [] {
      assert Adjacency(edges, n) == NoTransitions(n);
      TotalLengthEmpty(n);
    } else {
      var front := edges[..|edges| - 1];
      var e := edges[|edges| - 1];
      assert edges == front + [e];
      AdjacencyStoresEachEdgeOnce(front, n);
      AdjacencySnoc(front, e, n);
      TotalLengthGrow(Adjacency(front, n), e.src - 1, Transition(e.dest, e.cost));
    }
  }

  /** If every edge ends at a stop in 1..N, so does every stored transition. */
  lemma AdjacencyIsValid(edges: seq<Edge>, n: nat)
    requires forall k :: 0 <= k < |edges| ==> 1 <= edges[k].dest <= n
    ensures ValidAdjacency(Adjacency(edges, n))
  {
    var adj: seq<seq<Transition>> := Adjacency(edges, n);
    forall u: int, i: int | 0 <= u < |adj| && 0 <= i < |adj[u]|
      ensures 1 <= adj[u][i].destination <= |adj|
    {
      AdjacencyMembership(edges, n, u, adj[u][i]);
    }
  }

  // ---------------------------------------------------------------------------
  // Neighbour query
  // ---------------------------------------------------------------------------

  /** The transitions of `ts` with a nonzero cost, in their stored order. */
  function NonZero(ts: seq<Transition>): seq<Transition>
  {
    if ts == [] then []
    else NonZero(ts[..|ts| - 1]) + (if ts[|ts| - 1].cost != 0 then [ts[|ts| - 1]] else [])
  }

  /** A sequence's multiset is that of all but its last element plus the last one. */
  lemma MultisetSnoc<T>(s: seq<T>)
    requires s != []
    ensures multiset(s) == multiset(s[..|s| - 1]) + multiset{s[|s| - 1]}
  {
    assert s == s[..|s| - 1] + [s[|s| - 1]];
  }

  /** NonZero keeps every nonzero-cost transition as often as it occurs and drops the zero-cost ones. */
  lemma NonZeroExact(ts: seq<Transition>)
    ensures forall t: Transition :: t.cost != 0 ==> multiset(NonZero(ts))[t] == multiset(ts)[t]
    ensures forall t: Transition :: t.cost == 0 ==> t !in NonZero(ts)
  {
    forall t: Transition
      ensures t.cost != 0 ==> multiset(NonZero(ts))[t] == multiset(ts)[t]
      ensures t.cost == 0 ==> t !in NonZero(ts)
    {
      NonZeroCount(ts, t);
    }
  }

  /** How often one transition occurs in NonZero(ts): as in ts when its cost is nonzero, else never. */
  lemma {:induction false} NonZeroCount(ts: seq<Transition>, t: Transition)
    ensures multiset(NonZero(ts))[t] == if t.cost != 0 then multiset(ts)[t] else 0
    decreases |ts|
  {
    if ts != [] {
      var front, last := ts[..|ts| - 1], ts[|ts| - 1];
      var kept := if last.cost != 0 then [last] else [];
      NonZeroCount(front, t);
      MultisetSnoc(ts);
      assert NonZero(ts) == NonZero(front) + kept;
      assert multiset(NonZero(ts)) == multiset(NonZero(front)) + multiset(kept);
    }
  }

  // ---------------------------------------------------------------------------
  // Walks and the shortest-path specification
  // ---------------------------------------------------------------------------

  /** One step of a walk: the `index`-th transition out of the 0-based node `from`. */
  datatype Step = Step(from: nat, index: nat)

  ghost predicate StepOk(adj: seq<seq<Transition>>, st: Step)
  {
    st.from < |adj| && st.index < |adj[st.from]|
  }

  /** The 0-based node a step leads to (-1 for a step that is not in the graph). */
  ghost function Target(adj: seq<seq<Transition>>, st: Step): int
  {
    if StepOk(adj, st) then adj[st.from][st.index].destination - 1 else -1
  }

  ghost function StepCost(adj: seq<seq<Transition>>, st: Step): nat
  {
    if StepOk(adj, st) then adj[st.from][st.index].cost else 0
  }

  /** `w` is a walk in the graph from 0-based node s to 0-based node v. */
  ghost predicate IsWalk(adj: seq<seq<Transition>>, s: int, v: int, w: seq<Step>)
  {
    && (forall k :: 0 <= k < |w| ==> StepOk(adj, w[k]))
    && (w == [] ==> s == v)
    && (w != [] ==> w[0].from == s && Target(adj, w[|w| - 1]) == v)
    && (forall k :: 0 <= k < |w| - 1 ==> Target(adj, w[k]) == w[k + 1].from)
  }

  ghost function WalkCost(adj: seq<seq<Transition>>, w: seq<Step>): nat
  {
    if w == [] then 0 else WalkCost(adj, w[..|w| - 1]) + StepCost(adj, w[|w| - 1])
  }

  lemma {:induction false} WalkCostAppend(adj: seq<seq<Transition>>, a: seq<Step>, b: seq<Step>)
    ensures WalkCost(adj, a + b) == WalkCost(adj, a) + WalkCost(adj, b)
    decreases |b|
  {
    if b == [] {
      assert a + b == a;
    } else {
      var b' := b[..|b| - 1];
      assert (a + b)[..|a + b| - 1] == a + b';
      WalkCostAppend(adj, a, b');
    }
  }

  lemma WalkExtend(adj: seq<seq<Transition>>, s: int, u: int, w: seq<Step>, st: Step)
    requires IsWalk(adj, s, u, w) && StepOk(adj, st) && st.from == u
    ensures IsWalk(adj, s, Target(adj, st), w + [st])
    ensures WalkCost(adj, w + [st]) == WalkCost(adj, w) + StepCost(adj, st)
  {
    var w' := w + [st];
    assert w'[..|w'| - 1] == w;
    forall k | 0 <= k < |w'| - 1
      ensures Target(adj, w'[k]) == w'[k + 1].from
    {
      if k < |w| - 1 {
        assert w'[k] == w[k] && w'[k + 1] == w[k + 1];
      }
    }
  }

  lemma WalkConcat(adj: seq<seq<Transition>>, a: int, b: int, c: int, w1: seq<Step>, w2: seq<Step>)
    requires IsWalk(adj, a, b, w1) && IsWalk(adj, b, c, w2)
    ensures IsWalk(adj, a, c, w1 + w2)
    ensures WalkCost(adj, w1 + w2) == WalkCost(adj, w1) + WalkCost(adj, w2)
  {
    WalkCostAppend(adj, w1, w2);
    var w := w1 + w2;
    if w1 == [] {
      assert w == w2;
    } else if w2 == [] {
      assert w == w1;
    } else {
      forall k | 0 <= k < |w| - 1
        ensures Target(adj, w[k]) == w[k + 1].from
      {
        if k < |w1| - 1 {
          assert w[k] == w1[k] && w[k + 1] == w1[k + 1];
        } else if k == |w1| - 1 {
          assert w[k] == w1[|w1| - 1] && w[k + 1] == w2[0];
        } else {
          assert w[k] == w2[k - |w1|] && w[k + 1] == w2[k - |w1| + 1];
        }
      }
    }
  }

  /** Any |xs| > n values drawn from 0..n-1 contain a repetition. */
  lemma {:induction false} Pigeonhole(xs: seq<int>, n: nat)
    requires forall k :: 0 <= k < |xs| ==> 0 <= xs[k] < n
    requires |xs| > n
    ensures exists i, j :: 0 <= i < j < |xs| && xs[i] == xs[j]
    decreases n
  {
    var last := xs[|xs| - 1];
    if i :| 0 <= i < |xs| - 1 && xs[i] == last {
      assert xs[i] == xs[|xs| - 1];
    } else {
      var ys := seq(|xs| - 1, k requires 0 <= k < |xs| - 1 => if xs[k] > last then xs[k] - 1 else xs[k]);
      forall k | 0 <= k < |ys|
        ensures 0 <= ys[k] < n - 1
      {
        assert xs[k] != last;
      }
      Pigeonhole(ys, n - 1);
      var i, j :| 0 <= i < j < |ys| && ys[i] == ys[j];
      assert xs[i] != last && xs[j] != last;
      assert xs[i] == xs[j];
    }
  }

  /** The node a walk from s has reached after its first k steps. */
  ghost function NodeAt(adj: seq<seq<Transition>>, s: int, w: seq<Step>, k: nat): int
    requires k <= |w|
  {
    if k == 0 then s else Target(adj, w[k - 1])
  }

  lemma WalkPrefix(adj: seq<seq<Transition>>, s: int, v: int, w: seq<Step>, i: nat)
    requires IsWalk(adj, s, v, w) && i <= |w|
    ensures IsWalk(adj, s, NodeAt(adj, s, w, i), w[..i])
  {
    var a := w[..i];
    forall k | 0 <= k < |a| - 1
      ensures Target(adj, a[k]) == a[k + 1].from
    {
      assert a[k] == w[k] && a[k + 1] == w[k + 1];
    }
  }

  lemma WalkSuffix(adj: seq<seq<Transition>>, s: int, v: int, w: seq<Step>, j: nat)
    requires IsWalk(adj, s, v, w) && j <= |w|
    ensures IsWalk(adj, NodeAt(adj, s, w, j), v, w[j..])
  {
    var b := w[j..];
    if b != [] {
      assert b[0] == w[j];
      if j > 0 {
        assert Target(adj, w[j - 1]) == w[j].from;
      }
      assert b[|b| - 1] == w[|w| - 1];
    }
    forall k | 0 <= k < |b| - 1
      ensures Target(adj, b[k]) == b[k + 1].from
    {
      assert b[k] == w[j + k] && b[k + 1] == w[j + k + 1];
    }
  }

  /** Cutting the closed sub-walk between two visits of the same node leaves a cheaper walk. */
  lemma Splice(adj: seq<seq<Transition>>, s: int, v: int, w: seq<Step>, i: nat, j: nat)
    requires IsWalk(adj, s, v, w) && i < j <= |w|
    requires NodeAt(adj, s, w, i) == NodeAt(adj, s, w, j)
    ensures IsWalk(adj, s, v, w[..i] + w[j..])
    ensures WalkCost(adj, w[..i] + w[j..]) <= WalkCost(adj, w)
  {
    var a, mid, b := w[..i], w[i..j], w[j..];
    assert w == a + mid + b;
    WalkCostAppend(adj, a + mid, b);
    WalkCostAppend(adj, a, mid);
    WalkCostAppend(adj, a, b);
    WalkPrefix(adj, s, v, w, i);
    WalkSuffix(adj, s, v, w, j);
    WalkConcat(adj, s, NodeAt(adj, s, w, i), v, a, b);
  }

  /** With non-negative costs every walk can be shortened to fewer than N steps at no extra cost. */
  lemma {:induction false} ShortenWalk(adj: seq<seq<Transition>>, s: nat, v: int, w: seq<Step>) returns (w': seq<Step>)
    requires ValidAdjacency(adj) && s < |adj| && IsWalk(adj, s, v, w)
    ensures IsWalk(adj, s, v, w') && |w'| < |adj| && WalkCost(adj, w') <= WalkCost(adj, w)
    decreases |w|
  {
    if |w| < |adj| {
      w' := w;
    } else {
      var nodes := seq(|w| + 1, k requires 0 <= k <= |w| => NodeAt(adj, s, w, k));
      forall k | 0 <= k < |nodes|
        ensures 0 <= nodes[k] < |adj|
      {
        if k > 0 {
          assert StepOk(adj, w[k - 1]);
        }
      }
      Pigeonhole(nodes, |adj|);
      var i, j :| 0 <= i < j < |nodes| && nodes[i] == nodes[j];
      Splice(adj, s, v, w, i, j);
      w' := ShortenWalk(adj, s, v, w[..i] + w[j..]);
    }
  }

  /** Distances before the first round: 0 at the source, Unreachable elsewhere. */
  function InitialDistances(n: nat, s: nat): seq<int>
  {
    seq(n, v => if v == s then 0 else Unreachable)
  }

  /** Relaxes `best` (a distance of node v) with each edge of `ts` entering v from a node at distance `du`. */
  function OfferAll(ts: seq<Transition>, du: int, v: nat, best: int): (r: int)
    ensures r <= best
    ensures r == best || r >= du
    decreases |ts|
  {
    if ts == [] then best
    else OfferAll(ts[1..], du, v, if ts[0].destination == v + 1 && du + ts[0].cost < best then du + ts[0].cost else best)
  }

  /**
   * The distance of 0-based node v from s after k synchronous Bellman-Ford
   * rounds: its value after k - 1 rounds, lowered by every edge u -> v offered
   * at u's value after k - 1 rounds.
   */
  function Dist(adj: seq<seq<Transition>>, s: nat, k: nat, v: nat): (r: int)
    ensures 0 <= r <= Unreachable
    decreases k, 0
  {
    if k == 0 then (if v == s then 0 else Unreachable)
    else RelaxInto(adj, s, k - 1, v, 0, Dist(adj, s, k - 1, v))
  }

  /** Lowers `best` with every edge entering v out of the nodes u, u+1, ..., N-1 at their distances after k rounds. */
  function RelaxInto(adj: seq<seq<Transition>>, s: nat, k: nat, v: nat, u: nat, best: int): (r: int)
    requires u <= |adj|
    ensures r <= best
    ensures best >= 0 ==> r >= 0
    decreases k, 1, |adj| - u
  {
    if u == |adj| then best
    else RelaxInto(adj, s, k, v, u + 1, OfferAll(adj[u], Dist(adj, s, k, u), v, best))
  }

  /** The distances of all nodes after k rounds. */
  ghost function DistRow(adj: seq<seq<Transition>>, s: nat, k: nat): seq<int>
  {
    seq(|adj|, v requires 0 <= v < |adj| => Dist(adj, s, k, v))
  }

  /**
   * The documented meaning of shortestPathCost(src, dest) for 1-based stops:
   * the distance of dest after |V| - 1 rounds.
   */
  function ShortestPath(adj: seq<seq<Transition>>, src: nat, dest: nat): (r: nat)
    requires 1 <= src <= |adj| && 1 <= dest <= |adj|
    ensures r <= Unreachable
  {
    Dist(adj, src - 1, |adj| - 1, dest - 1)
  }

  lemma {:induction false} OfferAllBelow(ts: seq<Transition>, du: int, v: nat, best: int)
    ensures forall i :: 0 <= i < |ts| && ts[i].destination == v + 1 ==> OfferAll(ts, du, v, best) <= du + ts[i].cost
    decreases |ts|
  {
    if ts != [] {
      var b := if ts[0].destination == v + 1 && du + ts[0].cost < best then du + ts[0].cost else best;
      OfferAllBelow(ts[1..], du, v, b);
      forall i | 1 <= i < |ts| && ts[i].destination == v + 1
        ensures OfferAll(ts, du, v, best) <= du + ts[i].cost
      {
        assert ts[1..][i - 1] == ts[i];
      }
    }
  }

  lemma {:induction false} OfferAllAttained(ts: seq<Transition>, du: int, v: nat, best: int)
    ensures var r := OfferAll(ts, du, v, best);
      r == best || exists i :: 0 <= i < |ts| && ts[i].destination == v + 1 && r == du + ts[i].cost
    decreases |ts|
  {
    if ts != [] {
      var b := if ts[0].destination == v + 1 && du + ts[0].cost < best then du + ts[0].cost else best;
      OfferAllAttained(ts[1..], du, v, b);
      var r := OfferAll(ts, du, v, best);
      if r != best && r != b {
        var i :| 0 <= i < |ts[1..]| && ts[1..][i].destination == v + 1 && r == du + ts[1..][i].cost;
        assert ts[i + 1] == ts[1..][i];
      }
    }
  }

  /** RelaxInto is below every offer of an edge entering v. */
  lemma {:induction false} RelaxIntoBelow(adj: seq<seq<Transition>>, s: nat, k: nat, v: nat, u: nat, best: int)
    requires u <= |adj|
    ensures forall u', i :: u <= u' < |adj| && 0 <= i < |adj[u']| && adj[u'][i].destination == v + 1 ==>
              RelaxInto(adj, s, k, v, u, best) <= Dist(adj, s, k, u') + adj[u'][i].cost
    decreases |adj| - u
  {
    if u < |adj| {
      var b := OfferAll(adj[u], Dist(adj, s, k, u), v, best);
      OfferAllBelow(adj[u], Dist(adj, s, k, u), v, best);
      RelaxIntoBelow(adj, s, k, v, u + 1, b);
    }
  }

  /** RelaxInto is its starting value or the offer of some edge entering v. */
  lemma {:induction false} RelaxIntoAttained(adj: seq<seq<Transition>>, s: nat, k: nat, v: nat, u: nat, best: int)
    requires u <= |adj|
    ensures var r := RelaxInto(adj, s, k, v, u, best);
      r == best || exists u', i :: u <= u' < |adj| && 0 <= i < |adj[u']| && adj[u'][i].destination == v + 1
                                  && r == Dist(adj, s, k, u') + adj[u'][i].cost
    decreases |adj| - u
  {
    if u < |adj| {
      var b := OfferAll(adj[u], Dist(adj, s, k, u), v, best);
      OfferAllAttained(adj[u], Dist(adj, s, k, u), v, best);
      RelaxIntoAttained(adj, s, k, v, u + 1, b);
    }
  }

  /** After k rounds the distance of v is at most the cost of any walk of at most k steps to v. */
  lemma {:induction false} DistBelowWalks(adj: seq<seq<Transition>>, s: nat, k: nat, v: nat, w: seq<Step>)
    requires IsWalk(adj, s, v, w) && |w| <= k
    ensures Dist(adj, s, k, v) <= WalkCost(adj, w)
    decreases k
  {
    if k > 0 {
      assert Dist(adj, s, k, v) == RelaxInto(adj, s, k - 1, v, 0, Dist(adj, s, k - 1, v));
      if |w| <= k - 1 {
        DistBelowWalks(adj, s, k - 1, v, w);
      } else {
        var last := w[|w| - 1];
        WalkPrefix(adj, s, v, w, |w| - 1);
        assert StepOk(adj, last);
        if |w| > 1 {
          assert Target(adj, w[|w| - 2]) == last.from;
        }
        DistBelowWalks(adj, s, k - 1, last.from, w[..|w| - 1]);
        RelaxIntoBelow(adj, s, k - 1, v, 0, Dist(adj, s, k - 1, v));
      }
    }
  }

  /** After k rounds a distance below Unreachable is the cost of an actual walk. */
  lemma {:induction false} DistAttained(adj: seq<seq<Transition>>, s: nat, k: nat, v: nat) returns (w: seq<Step>)
    requires ValidAdjacency(adj) && v < |adj|
    requires Dist(adj, s, k, v) < Unreachable
    ensures IsWalk(adj, s, v, w) && WalkCost(adj, w) == Dist(adj, s, k, v)
    decreases k
  {
    if k == 0 {
      w := [];
    } else {
      var r := Dist(adj, s, k, v);
      assert r == RelaxInto(adj, s, k - 1, v, 0, Dist(adj, s, k - 1, v));
      RelaxIntoAttained(adj, s, k - 1, v, 0, Dist(adj, s, k - 1, v));
      if r == Dist(adj, s, k - 1, v) {
        w := DistAttained(adj, s, k - 1, v);
      } else {
        var u, i :| 0 <= u < |adj| && 0 <= i < |adj[u]| && adj[u][i].destination == v + 1
                    && r == Dist(adj, s, k - 1, u) + adj[u][i].cost;
        var wu := DistAttained(adj, s, k - 1, u);
        WalkExtend(adj, s, u, wu, Step(u, i));
        w := wu + [Step(u, i)];
      }
    }
  }

  /** shortestPathCost is at most the cost of every walk from src to dest. */
  lemma ShortestPathIsLeast(adj: seq<seq<Transition>>, src: nat, dest: nat, w: seq<Step>)
    requires ValidAdjacency(adj) && 1 <= src <= |adj| && 1 <= dest <= |adj|
    requires IsWalk(adj, src - 1, dest - 1, w)
    ensures ShortestPath(adj, src, dest) <= WalkCost(adj, w)
  {
    var w' := ShortenWalk(adj, src - 1, dest - 1, w);
    DistBelowWalks(adj, src - 1, |adj| - 1, dest - 1, w');
  }

  /** A shortestPathCost below 127 is the cost of an actual walk from src to dest. */
  lemma ShortestPathIsAttained(adj: seq<seq<Transition>>, src: nat, dest: nat) returns (w: seq<Step>)
    requires ValidAdjacency(adj) && 1 <= src <= |adj| && 1 <= dest <= |adj|
    requires ShortestPath(adj, src, dest) < Unreachable
    ensures IsWalk(adj, src - 1, dest - 1, w) && WalkCost(adj, w) == ShortestPath(adj, src, dest)
  {
    w := DistAttained(adj, src - 1, |adj| - 1, dest - 1);
  }

  /** Node values that no edge lowers by more than its cost. */
  ghost predicate Potential(adj: seq<seq<Transition>>, pot: seq<int>)
    requires ValidAdjacency(adj)
  {
    && |pot| == |adj|
    && forall u, i :: 0 <= u < |adj| && 0 <= i < |adj[u]| ==>
         pot[adj[u][i].destination - 1] <= pot[u] + adj[u][i].cost
  }

  /** A walk from s to v costs at least the rise of a potential from s to v. */
  lemma {:induction false} PotentialBelowWalk(adj: seq<seq<Transition>>, pot: seq<int>, s: nat, v: nat, w: seq<Step>)
    requires ValidAdjacency(adj) && Potential(adj, pot) && s < |adj| && v < |adj| && IsWalk(adj, s, v, w)
    ensures pot[v] - pot[s] <= WalkCost(adj, w)
    decreases |w|
  {
    if w != [] {
      var last := w[|w| - 1];
      WalkPrefix(adj, s, v, w, |w| - 1);
      assert StepOk(adj, last);
      if |w| > 1 {
        assert StepOk(adj, w[|w| - 2]);
        assert Target(adj, w[|w| - 2]) == last.from;
      }
      PotentialBelowWalk(adj, pot, s, last.from, w[..|w| - 1]);
    }
  }

  /** A potential that is 0 at src and at most 127 at dest bounds shortestPathCost(src, dest) from below. */
  lemma ShortestPathAbovePotential(adj: seq<seq<Transition>>, pot: seq<int>, src: nat, dest: nat)
    requires ValidAdjacency(adj) && Potential(adj, pot) && 1 <= src <= |adj| && 1 <= dest <= |adj|
    requires pot[src - 1] == 0 && pot[dest - 1] <= Unreachable
    ensures pot[dest - 1] <= ShortestPath(adj, src, dest)
  {
    if ShortestPath(adj, src, dest) < Unreachable {
      var w := ShortestPathIsAttained(adj, src, dest);
      PotentialBelowWalk(adj, pot, src - 1, dest - 1, w);
    }
  }

  /** The distance from a stop to itself is 0 (costs are never negative). */
  lemma ShortestPathToSelf(adj: seq<seq<Transition>>, a: nat)
    requires ValidAdjacency(adj) && 1 <= a <= |adj|
    ensures ShortestPath(adj, a, a) == 0
  {
    assert IsWalk(adj, a - 1, a - 1, []);
    ShortestPathIsLeast(adj, a, a, []);
  }

  /** The capped distance obeys the triangle inequality. */
  lemma ShortestPathTriangle(adj: seq<seq<Transition>>, a: nat, b: nat, c: nat)
    requires ValidAdjacency(adj) && 1 <= a <= |adj| && 1 <= b <= |adj| && 1 <= c <= |adj|
    ensures ShortestPath(adj, a, c) <= ShortestPath(adj, a, b) + ShortestPath(adj, b, c)
  {
    if ShortestPath(adj, a, b) < Unreachable && ShortestPath(adj, b, c) < Unreachable {
      var w1 := ShortestPathIsAttained(adj, a, b);
      var w2 := ShortestPathIsAttained(adj, b, c);
      WalkConcat(adj, a - 1, b - 1, c - 1, w1, w2);
      ShortestPathIsLeast(adj, a, c, w1 + w2);
    }
  }

  /** A direct edge bounds the distance: shortestPathCost(a, b) <= cost(a -> b). */
  lemma ShortestPathBelowEdge(adj: seq<seq<Transition>>, a: nat, i: nat)
    requires ValidAdjacency(adj) && 1 <= a <= |adj| && i < |adj[a - 1]|
    ensures ShortestPath(adj, a, adj[a - 1][i].destination) <= adj[a - 1][i].cost
  {
    var w := [Step(a - 1, i)];
    assert w[..0] == [];
    assert IsWalk(adj, a - 1, adj[a - 1][i].destination - 1, w);
    ShortestPathIsLeast(adj, a, adj[a - 1][i].destination, w);
  }

  // ---------------------------------------------------------------------------
  // Invariants of the in-place (Gauss-Seidel) relaxation
  // ---------------------------------------------------------------------------

  /** Every finite distance in `d` is the cost of the walk recorded for it in `pred`. */
  ghost predicate Sound(adj: seq<seq<Transition>>, s: nat, d: seq<int>, pred: seq<seq<Step>>)
  {
    && |d| == |adj| && |pred| == |adj|
    && forall v :: 0 <= v < |adj| ==>
         && 0 <= d[v] <= Unreachable
         && (d[v] == Unreachable || (IsWalk(adj, s, v, pred[v]) && WalkCost(adj, pred[v]) == d[v]))
  }

  ghost predicate Below(d: seq<int>, p: seq<int>)
  {
    |d| == |p| && forall v :: 0 <= v < |d| ==> d[v] <= p[v]
  }

  /** Every edge before position (j, i) has been relaxed against the round-start distances p. */
  ghost predicate RelaxedUpTo(adj: seq<seq<Transition>>, d: seq<int>, p: seq<int>, j: nat, i: nat)
    requires ValidAdjacency(adj) && |d| == |adj| && |p| == |adj|
  {
    forall u, k :: 0 <= u < |adj| && 0 <= k < |adj[u]| && (u < j || (u == j && k < i)) ==>
      d[adj[u][k].destination - 1] <= p[u] + adj[u][k].cost
  }

  /** The effect of relaxing edge (j, i) on the distances and on the recorded walks. */
  ghost predicate RelaxedEdge(adj: seq<seq<Transition>>, d: seq<int>, pred: seq<seq<Step>>, j: nat, i: nat,
                              d': seq<int>, pred': seq<seq<Step>>)
    requires ValidAdjacency(adj) && j < |adj| && i < |adj[j]| && |d| == |adj| && |pred| == |adj|
  {
    var e := adj[j][i];
    var t := e.destination - 1;
    if d[j] + e.cost < d[t] then d' == d[t := d[j] + e.cost] && pred' == pred[t := pred[j] + [Step(j, i)]]
    else d' == d && pred' == pred
  }

  lemma RelaxKeepsSound(adj: seq<seq<Transition>>, s: nat, d: seq<int>, pred: seq<seq<Step>>,
                        j: nat, i: nat, d': seq<int>, pred': seq<seq<Step>>)
    requires ValidAdjacency(adj) && s < |adj| && j < |adj| && i < |adj[j]|
    requires Sound(adj, s, d, pred) && RelaxedEdge(adj, d, pred, j, i, d', pred')
    ensures Sound(adj, s, d', pred')
  {
    var e := adj[j][i];
    var t := e.destination - 1;
    if d[j] + e.cost < d[t] {
      WalkExtend(adj, s, j, pred[j], Step(j, i));
      forall v | 0 <= v < |adj|
        ensures 0 <= d'[v] <= Unreachable
        ensures d'[v] == Unreachable || (IsWalk(adj, s, v, pred'[v]) && WalkCost(adj, pred'[v]) == d'[v])
      {
        if v != t {
          assert d'[v] == d[v] && pred'[v] == pred[v];
        }
      }
    }
  }

  lemma RelaxKeepsOrder(adj: seq<seq<Transition>>, p: seq<int>, d: seq<int>, pred: seq<seq<Step>>,
                        j: nat, i: nat, d': seq<int>, pred': seq<seq<Step>>)
    requires ValidAdjacency(adj) && j < |adj| && i < |adj[j]| && |p| == |adj| && |d| == |adj| && |pred| == |adj|
    requires Below(d, p) && RelaxedUpTo(adj, d, p, j, i) && RelaxedEdge(adj, d, pred, j, i, d', pred')
    ensures Below(d', p) && RelaxedUpTo(adj, d', p, j, i + 1)
  {
    var e := adj[j][i];
    var t := e.destination - 1;
    assert |d'| == |adj|;
    forall v | 0 <= v < |d'|
      ensures d'[v] <= d[v]
    {
    }
    forall u, k | 0 <= u < |adj| && 0 <= k < |adj[u]| && (u < j || (u == j && k < i + 1))
      ensures d'[adj[u][k].destination - 1] <= p[u] + adj[u][k].cost
    {
      if u == j && k == i {
        assert d'[t] <= d[j] + e.cost;
      } else {
        assert d'[adj[u][k].destination - 1] <= d[adj[u][k].destination - 1];
      }
    }
  }

  /** A round that relaxed every edge against the distances after k rounds leaves d below those after k + 1. */
  lemma RoundComplete(adj: seq<seq<Transition>>, s: nat, k: nat, d: seq<int>)
    requires ValidAdjacency(adj)
    requires Below(d, DistRow(adj, s, k)) && RelaxedUpTo(adj, d, DistRow(adj, s, k), |adj|, 0)
    ensures Below(d, DistRow(adj, s, k + 1))
  {
    var p := DistRow(adj, s, k);
    forall v | 0 <= v < |adj|
      ensures d[v] <= Dist(adj, s, k + 1, v)
    {
      RelaxIntoAttained(adj, s, k, v, 0, Dist(adj, s, k, v));
      assert d[v] <= p[v];
    }
  }

  /** n empty walks. */
  ghost function NoWalks(n: nat): seq<seq<Step>>
  {
    seq(n, _ => [])
  }

  /** Before the first round the distances are sound and equal to those after 0 rounds. */
  lemma InitialState(adj: seq<seq<Transition>>, s: nat)
    requires s < |adj|
    ensures Sound(adj, s, InitialDistances(|adj|, s), NoWalks(|adj|))
    ensures Below(InitialDistances(|adj|, s), DistRow(adj, s, 0))
  {
    assert IsWalk(adj, s, s, []);
  }

  /** Sound distances below the distances after N - 1 rounds are exactly those distances. */
  lemma SoundAndBelowIsExact(adj: seq<seq<Transition>>, s: nat, d: seq<int>, pred: seq<seq<Step>>)
    requires ValidAdjacency(adj) && s < |adj|
    requires Sound(adj, s, d, pred) && Below(d, DistRow(adj, s, |adj| - 1))
    ensures forall v :: 0 <= v < |adj| ==> d[v] == Dist(adj, s, |adj| - 1, v)
  {
    forall v | 0 <= v < |adj|
      ensures d[v] == Dist(adj, s, |adj| - 1, v)
    {
      assert d[v] <= DistRow(adj, s, |adj| - 1)[v];
      if d[v] != Unreachable {
        var w := ShortenWalk(adj, s, v, pred[v]);
        DistBelowWalks(adj, s, |adj| - 1, v, w);
      }
    }
  }

  /** No transition of `ts` leads to dest. */
  predicate NoEdgeTo(ts: seq<Transition>, dest: nat)
  {
    forall k :: 0 <= k < |ts| ==> ts[k].destination != dest
  }

  /** c is the cost of the first transition of `ts` that leads to dest. */
  predicate FirstEdgeCost(ts: seq<Transition>, dest: nat, c: int)
  {
    exists k :: 0 <= k < |ts| && ts[k].destination == dest && c == ts[k].cost
                && forall m :: 0 <= m < k ==> ts[m].destination != dest
  }

  /** The first transition leading to dest fixes the cost FirstEdgeCost can name. */
  lemma FirstEdgeCostAt(ts: seq<Transition>, dest: nat, c: int, k: nat)
    requires k < |ts| && ts[k].destination == dest && forall m :: 0 <= m < k ==> ts[m].destination != dest
    requires FirstEdgeCost(ts, dest, c)
    ensures c == ts[k].cost
  {
  }

  /** The scan of one adjacency list: the first matching transition's cost, or -1. */
  method FindCost(ts: seq<Transition>, dest: nat) returns (c: int)
    ensures c == -1 <==> NoEdgeTo(ts, dest)
    ensures c != -1 ==> FirstEdgeCost(ts, dest, c)
  {
    var k := 0;
    while k < |ts|
      invariant 0 <= k <= |ts|
      invariant forall m :: 0 <= m < k ==> ts[m].destination != dest
    {
      if ts[k].destination == dest {
        return ts[k].cost;
      }
      k := k + 1;
    }
    return -1;
  }

  /** Relaxes the `i`-th edge out of node j against the distances in `d`, in place. */
  method RelaxEdgeInPlace(adj: seq<seq<Transition>>, d: array<int>, ghost pred: seq<seq<Step>>, j: nat, i: nat)
    returns (ghost pred': seq<seq<Step>>)
    requires ValidAdjacency(adj) && j < |adj| && i < |adj[j]| && d.Length == |adj| && |pred| == |adj|
    modifies d
    ensures RelaxedEdge(adj, old(d[..]), pred, j, i, d[..], pred')
  {
    var e := adj[j][i];
    var t := e.destination - 1;
    pred' := pred;
    if d[j] + e.cost < d[t] {
      d[t] := d[j] + e.cost;
      pred' := pred[t := pred[j] + [Step(j, i)]];
    }
  }

  /**
   * One in-place round: relaxes every edge, list by list, in stored order,
   * against the distances in `d`, which start below those after k rounds.
   */
  method RelaxAllEdges(adj: seq<seq<Transition>>, s: nat, d: array<int>, ghost pred: seq<seq<Step>>, ghost k: nat)
    returns (ghost pred': seq<seq<Step>>)
    requires ValidAdjacency(adj) && s < |adj| && d.Length == |adj|
    requires Sound(adj, s, d[..], pred) && Below(d[..], DistRow(adj, s, k))
    modifies d
    ensures Sound(adj, s, d[..], pred') && Below(d[..], DistRow(adj, s, k + 1))
  {
    ghost var p := DistRow(adj, s, k);
    pred' := RelaxEachEdge(adj, s, d, pred, p);
    RoundComplete(adj, s, k, d[..]);
  }

  method RelaxEachEdge(adj: seq<seq<Transition>>, s: nat, d: array<int>, ghost pred: seq<seq<Step>>, ghost p: seq<int>)
    returns (ghost pred': seq<seq<Step>>)
    requires ValidAdjacency(adj) && s < |adj| && d.Length == |adj| && |p| == |adj|
    requires Sound(adj, s, d[..], pred) && Below(d[..], p)
    modifies d
    ensures Sound(adj, s, d[..], pred') && Below(d[..], p) && RelaxedUpTo(adj, d[..], p, |adj|, 0)
  {
    pred' := pred;
    var j := 0;
    while j < |adj|
      invariant 0 <= j <= |adj|
      invariant Sound(adj, s, d[..], pred') && Below(d[..], p)
      invariant RelaxedUpTo(adj, d[..], p, j, 0)
    {
      var ts := adj[j];
      var i := 0;
      while i < |ts|
        invariant 0 <= i <= |ts|
        invariant Sound(adj, s, d[..], pred') && Below(d[..], p)
        invariant RelaxedUpTo(adj, d[..], p, j, i)
      {
        ghost var d0, pred0 := d[..], pred';
        pred' := RelaxEdgeInPlace(adj, d, pred', j, i);
        RelaxKeepsSound(adj, s, d0, pred0, j, i, d[..], pred');
        RelaxKeepsOrder(adj, p, d0, pred0, j, i, d[..], pred');
        i := i + 1;
      }
      j := j + 1;
    }
  }

  /** A fresh distance array: 0 at s, Unreachable elsewhere. */
  method NewDistances(n: nat, s: nat) returns (d: array<int>)
    requires s < n
    ensures fresh(d) && d[..] == InitialDistances(n, s)
  {
    d := new int[n];
    var v := 0;
    while v < n
      invariant 0 <= v <= n
      invariant forall m :: 0 <= m < v ==> d[m] == Unreachable
    {
      d[v] := Unreachable;
      v := v + 1;
    }
    d[s] := 0;
  }

  // ---------------------------------------------------------------------------
  // The graph object
  // ---------------------------------------------------------------------------

  /** The transit graph; it is never changed after construction. */
  class Graph {
    const transitions: seq<seq<Transition>>
    const vectorCount: nat

    /** One adjacency list per stop. */
    predicate Valid()
    {
      |transitions| == vectorCount
    }

    /** Valid, and every stored transition leads to a stop in 1..N. */
    predicate WellFormed()
    {
      Valid() && ValidAdjacency(transitions)
    }

    /** Creates N empty lists, then appends each edge's (dest, cost) to list src - 1 in input order. */
    constructor (edges: seq<Edge>, n: nat)
      requires forall k :: 0 <= k < |edges| ==> 1 <= edges[k].src <= n
      ensures Valid() && vectorCount == n
      ensures transitions == Adjacency(edges, n)
      ensures (forall k :: 0 <= k < |edges| ==> 1 <= edges[k].dest <= n) ==> WellFormed()
    {
      var adj: seq<seq<Transition>> := [];
      var i := 0;
      while i < n
        invariant 0 <= i <= n
        invariant adj == NoTransitions(i)
      {
        adj := adj + [[]];
        i := i + 1;
      }
      assert adj == Adjacency(edges[..0], n);
      var k := 0;
      while k < |edges|
        invariant 0 <= k <= |edges|
        invariant adj == Adjacency(edges[..k], n)
      {
        var e := edges[k];
        assert edges[..k + 1] == edges[..k] + [e];
        AdjacencySnoc(edges[..k], e, n);
        adj := adj[e.src - 1 := adj[e.src - 1] + [Transition(e.dest, e.cost)]];
        k := k + 1;
      }
      assert edges[..|edges|] == edges;
      transitions := adj;
      vectorCount := n;
      if forall k :: 0 <= k < |edges| ==> 1 <= edges[k].dest <= n {
        AdjacencyIsValid(edges, n);
      }
    }

    /** The copy (and move) constructor: same lists, same node count. */
    constructor Copy(other: Graph)
      ensures transitions == other.transitions && vectorCount == other.vectorCount
    {
      transitions := other.transitions;
      vectorCount := other.vectorCount;
    }

    /** The number of stops given at construction. */
    method GetVectorCount() returns (n: nat)
      requires Valid()
      ensures n == |transitions|
    {
      n := vectorCount;
    }

    /** The transitions out of stop src, in stored order, without the zero-cost ones. */
    method GetNeighbors(src: nat) returns (result: seq<Transition>)
      requires 1 <= src <= |transitions|
      ensures result == NonZero(transitions[src - 1])
    {
      var ts := transitions[src - 1];
      result := [];
      var k := 0;
      while k < |ts|
        invariant 0 <= k <= |ts|
        invariant result == NonZero(ts[..k])
      {
        assert ts[..k + 1][..k] == ts[..k];
        if ts[k].cost != 0 {
          result := result + [ts[k]];
        }
        k := k + 1;
      }
      assert ts[..|ts|] == ts;
    }

    /**
     * The cost of the first transition from src to dest, or -1. As written, the
     * range check is `dest < N`, so the last stop N is always answered with -1,
     * and src is not checked at all.
     */
    method GetCost(src: nat, dest: nat) returns (c: int)
      requires Valid()
      requires 0 < |transitions| && dest < |transitions| ==> 1 <= src <= |transitions|
      ensures !(0 < |transitions| && dest < |transitions|) ==> c == -1
      ensures dest == |transitions| ==> c == -1
      ensures 0 < |transitions| && dest < |transitions| ==>
        && (c == -1 <==> NoEdgeTo(transitions[src - 1], dest))
        && (c != -1 ==> FirstEdgeCost(transitions[src - 1], dest, c))
    {
      if !(0 < |transitions| && dest < |transitions|) {
        return -1;
      }
      c := FindCost(transitions[src - 1], dest);
    }

    /** GetCost with the evidently intended range check 1 <= src, dest <= N. */
    method GetCostChecked(src: nat, dest: nat) returns (c: int)
      requires Valid()
      ensures c == -1 <==> !(1 <= src <= |transitions| && 1 <= dest <= |transitions|)
                           || NoEdgeTo(transitions[src - 1], dest)
      ensures c != -1 ==> 1 <= src <= |transitions| && FirstEdgeCost(transitions[src - 1], dest, c)
    {
      if !(1 <= src <= |transitions| && 1 <= dest <= |transitions|) {
        return -1;
      }
      c := FindCost(transitions[src - 1], dest);
    }

    /**
     * Bellman-Ford from src: |V| - 1 rounds, each relaxing every edge in place,
     * starting from 127 everywhere but src. The result is the capped shortest
     * distance (see ShortestPathIsLeast, ShortestPathIsAttained).
     */
    method ShortestPathCost(src: nat, dest: nat) returns (r: nat)
      requires WellFormed()
      requires 1 <= src <= vectorCount && 1 <= dest <= vectorCount
      ensures r == ShortestPath(transitions, src, dest)
    {
      var n := vectorCount;
      var adj := transitions;
      var s := src - 1;
      assert ValidAdjacency(adj);
      var d := NewDistances(n, s);
      ghost var pred := NoWalks(n);
      InitialState(adj, s);
      var round := 1;
      while round < n
        invariant 1 <= round <= n
        invariant Sound(adj, s, d[..], pred)
        invariant Below(d[..], DistRow(adj, s, round - 1))
      {
        pred := RelaxAllEdges(adj, s, d, pred, round - 1);
        round := round + 1;
      }
      SoundAndBelowIsExact(adj, s, d[..], pred);
      r := d[dest - 1];
    }
  }

  // ---------------------------------------------------------------------------
  // The four-stop test graph
  // ---------------------------------------------------------------------------

  function TestEdges(): seq<Edge>
  {
    [Edge(1, 2, 2), Edge(1, 3, 3), Edge(1, 4, 19), Edge(2, 1, 2), Edge(2, 3, 1),
     Edge(2, 4, 9), Edge(3, 1, 3), Edge(3, 2, 1), Edge(4, 1, 1), Edge(4, 2, 9)]
  }

  function TestAdjacency(): seq<seq<Transition>>
  {
    [[Transition(2, 2), Transition(3, 3), Transition(4, 19)],
     [Transition(1, 2), Transition(3, 1), Transition(4, 9)],
     [Transition(1, 3), Transition(2, 1)],
     [Transition(1, 1), Transition(2, 9)]]
  }

  /** The constructor's lists for the test edges. */
  lemma TestAdjacencyBuilt()
    ensures Adjacency(TestEdges(), 4) == TestAdjacency()
  {
    TestList(0);
    TestList(1);
    TestList(2);
    TestList(3);
  }

  lemma TestList(u: nat)
    requires u < 4
    ensures EdgesFrom(TestEdges(), u + 1) == TestAdjacency()[u]
  {
  }

  lemma TestWalk(adj: seq<seq<Transition>>) returns (w: seq<Step>)
    requires adj == TestAdjacency()
    ensures ValidAdjacency(adj) && IsWalk(adj, 0, 3, w) && WalkCost(adj, w) == 11
  {
    w := [Step(0, 0), Step(1, 2)];
    assert w[..1][..0] == [] && w[..1] == [Step(0, 0)];
  }

  lemma TestPotential(adj: seq<seq<Transition>>)
    requires adj == TestAdjacency()
    ensures ValidAdjacency(adj) && Potential(adj, [0, 2, 3, 11])
  {
    var pot := [0, 2, 3, 11];
    forall u, i | 0 <= u < |adj| && 0 <= i < |adj[u]|
      ensures pot[adj[u][i].destination - 1] <= pot[u] + adj[u][i].cost
    {
      assert u == 0 || u == 1 || u == 2 || u == 3;
      assert i < 3;
    }
  }

  /** In the test graph the cheapest way from stop 1 to stop 4 costs 11 (1 -> 2 -> 4). */
  lemma TestShortestPath(adj: seq<seq<Transition>>)
    requires adj == TestAdjacency()
    ensures ValidAdjacency(adj)
    ensures ShortestPath(adj, 1, 4) == 11
  {
    var w := TestWalk(adj);
    ShortestPathIsLeast(adj, 1, 4, w);
    // the potential [0, 2, 3, 11] shows that nothing is cheaper
    TestPotential(adj);
    ShortestPathAbovePotential(adj, [0, 2, 3, 11], 1, 4);
  }

  /** The graph of the self-test, built by the constructor from the test edges. */
  method BuildTestGraph() returns (g: Graph)
    ensures g.Valid() && g.transitions == TestAdjacency()
  {
    g := new Graph(TestEdges(), 4);
    TestAdjacencyBuilt();
  }

  /** The cost checks of the graph self-test, plus the lookup of the edge 2 -> 4 that the range check hides. */
  method TestGraphCosts(g: Graph) returns (c12: int, c13: int, c32: int, c24: int, c24Checked: int)
    requires g.Valid() && g.transitions == TestAdjacency()
    ensures c12 == 2 && c13 == 3 && c32 == 1
    ensures c24 == -1 && c24Checked == 9
  {
    var adj := g.transitions;
    c12 := g.GetCost(1, 2);
    FirstEdgeCostAt(adj[0], 2, c12, 0);
    c13 := g.GetCost(1, 3);
    FirstEdgeCostAt(adj[0], 3, c13, 1);
    c32 := g.GetCost(3, 2);
    FirstEdgeCostAt(adj[2], 2, c32, 1);
    c24 := g.GetCost(2, 4);
    c24Checked := g.GetCostChecked(2, 4);
    FirstEdgeCostAt(adj[1], 4, c24Checked, 2);
  }

  /** The distance check of the graph self-test: shortestPathCost(1, 4) == 11. */
  method TestGraphDistance(g: Graph) returns (spc14: nat)
    requires g.Valid() && g.transitions == TestAdjacency()
    ensures spc14 == 11
  {
    TestShortestPath(g.transitions);
    spc14 := g.ShortestPathCost(1, 4);
  }

  /** The graph self-test: the three cost lookups and the distance from stop 1 to stop 4. */
  method TestGraph() returns (c12: int, c13: int, c32: int, c24: int, c24Checked: int, spc14: nat)
    ensures c12 == 2 && c13 == 3 && c32 == 1
    ensures c24 == -1 && c24Checked == 9
    ensures spc14 == 11
  {
    var g := BuildTestGraph();
    c12, c13, c32, c24, c24Checked := TestGraphCosts(g);
    spc14 := TestGraphDistance(g);
  }
}
