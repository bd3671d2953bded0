/**
  The edges one round of debt simplification carries over to the next
  network: every edge of the solved network that still has capacity left,
  copied with that leftover as its amount, in adjacency-list order.
 */
module Leftovers {
  import opened FlowNetwork
  import opened MaxFlow
  import opened DebtBalance

  /** What is left of an edge after the solve: its whole capacity when its
      flow is negative, otherwise its capacity minus its flow. */
  function Leftover(e: Edge): (r: int)
    ensures e.flow >= 0 ==> r == e.RemainingCapacity()
    ensures e.IsResidual() && e.flow <= 0 ==> r == 0
    ensures 0 <= e.flow <= e.capacity ==> 0 <= r <= e.capacity
  {
    if e.flow < 0 then e.capacity else e.capacity - e.flow
  }

  /** The copy an edge contributes: a new edge with the same endpoints, the
      leftover as amount and no flow, present only for a positive leftover.
      A residual edge, which has no capacity and no positive flow, is never
      copied. */
  function Copy(e: Edge): (r: seq<Edge>)
    ensures |r| <= 1
    ensures e.IsResidual() && e.flow <= 0 ==> r == []
    ensures forall k :: 0 <= k < |r| ==>
      r[k].from == e.from && r[k].to == e.to && r[k].capacity > 0 && r[k].flow == 0
  {
    if Leftover(e) > 0 then [Edge(e.from, e.to, Leftover(e), 0)] else []
  }

  /** The copies of the arena edges at the indices idx, in that order (an
      index outside the arena contributes nothing). */
  function Copies(arena: seq<Edge>, idx: seq<nat>): (r: seq<Edge>)
    ensures |r| <= |idx|
    ensures forall k :: 0 <= k < |r| ==> r[k].capacity > 0 && r[k].flow == 0
  {
    if idx == [] then []
    else Copies(arena, idx[..|idx| - 1]) +
         (if idx[|idx| - 1] < |arena| then Copy(arena[idx[|idx| - 1]]) else [])
  }

  /** The edges the next network starts from: the copies of the solved
      network's edges, scanning node 0's list first, then node 1's, and so on. */
  ghost function LeftoverEdges(net: Network): (r: seq<Edge>)
    ensures Positive(r) && forall k :: 0 <= k < |r| ==> r[k].flow == 0
  {
    Copies(net.arena, Flat(net.graph))
  }

  /** Scans every adjacency list in node order and copies each edge with a
      positive leftover. */
  method CollectLeftovers(net: Network) returns (r: seq<Edge>)
    requires Wellformed(net)
    ensures r == LeftoverEdges(net)
  {
    r := [];
    var u := 0;
    while u < |net.graph|
      invariant 0 <= u <= |net.graph|
      invariant r == Copies(net.arena, Flat(net.graph[..u]))
    {
      var c := CollectFrom(net.arena, net.graph[u]);
      CopiesAppend(net.arena, Flat(net.graph[..u]), net.graph[u]);
      assert net.graph[..u + 1][..u] == net.graph[..u];
      r := r + c;
      u := u + 1;
    }
    assert net.graph[..u] == net.graph;
  }

  /** The inner scan: copies the edges of one adjacency list in order. */
  method CollectFrom(arena: seq<Edge>, adj: seq<nat>) returns (r: seq<Edge>)
    requires forall j :: 0 <= j < |adj| ==> adj[j] < |arena|
    ensures r == Copies(arena, adj)
  {
    r := [];
    var j := 0;
    while j < |adj|
      invariant 0 <= j <= |adj|
      invariant r == Copies(arena, adj[..j])
    {
      var e := arena[adj[j]];
      var remaining := if e.flow < 0 then e.capacity else e.capacity - e.flow;
      if remaining > 0 {
        r := r + [Edge(e.from, e.to, remaining, 0)];
      }
      assert adj[..j + 1][..j] == adj[..j];
      j := j + 1;
    }
    assert adj[..j] == adj;
  }

  lemma {:induction false} CopiesAppend(arena: seq<Edge>, x: seq<nat>, y: seq<nat>)
    ensures Copies(arena, x + y) == Copies(arena, x) + Copies(arena, y)
    decreases |y|
  {
    if y == [] {
      assert x + y == x;
    } else {
      assert (x + y)[..|x + y| - 1] == x + y[..|y| - 1];
      CopiesAppend(arena, x, y[..|y| - 1]);
    }
  }

  /** The balance of the copies of a concatenation is the sum of the two balances. */
  lemma CopiesBalanceAppend(arena: seq<Edge>, x: seq<nat>, y: seq<nat>, v: int)
    ensures Balance(Copies(arena, x + y), v) ==
            Balance(Copies(arena, x), v) + Balance(Copies(arena, y), v)
  {
    CopiesAppend(arena, x, y);
    BalanceAppend(Copies(arena, x), Copies(arena, y), v);
  }

  /** The element at p splits y, and removing it removes one occurrence. */
  lemma RemoveAt(y: seq<nat>, p: nat)
    requires p < |y|
    ensures y == y[..p] + ([y[p]] + y[p + 1..])
    ensures multiset(y[..p] + y[p + 1..]) == multiset(y) - multiset{y[p]}
  {
    assert y == y[..p] + [y[p]] + y[p + 1..];
  }

  /** The balance of the copies does not depend on the order of the scan. */
  lemma {:induction false} CopiesPermutation(arena: seq<Edge>, x: seq<nat>, y: seq<nat>, v: int)
    requires multiset(x) == multiset(y)
    ensures Balance(Copies(arena, x), v) == Balance(Copies(arena, y), v)
    decreases |x|
  {
    if x == [] {
      assert |y| == |multiset(y)| == 0;
    } else {
      var init, last := x[..|x| - 1], x[|x| - 1];
      assert x == init + [last];
      assert last in multiset(y);
      var p :| 0 <= p < |y| && y[p] == last;
      var before, after := y[..p], y[p + 1..];
      RemoveAt(x, |x| - 1);
      RemoveAt(y, p);
      assert x[..|x| - 1] + x[|x|..] == init;
      CopiesPermutation(arena, init, before + after, v);
      MoveOne(arena, init, last, before, after, v);
    }
  }

  /** Moving one index to another place in the scan keeps the balance. */
  lemma MoveOne(arena: seq<Edge>, init: seq<nat>, last: nat, before: seq<nat>, after: seq<nat>, v: int)
    requires Balance(Copies(arena, init), v) == Balance(Copies(arena, before + after), v)
    ensures Balance(Copies(arena, init + [last]), v) == Balance(Copies(arena, before + ([last] + after)), v)
  {
    CopiesBalanceAppend(arena, init, [last], v);
    CopiesBalanceAppend(arena, before, [last] + after, v);
    CopiesBalanceAppend(arena, [last], after, v);
    CopiesBalanceAppend(arena, before, after, v);
  }

  /** Two edges appended to a prefix add their balance and their outflow. */
  lemma PrefixStep(a: seq<Edge>, m: nat, v: int)
    requires m + 2 <= |a|
    ensures Balance(a[..m + 2], v) == Balance(a[..m], v) + Contribution(a[m], v) + Contribution(a[m + 1], v)
    ensures NetOut(a[..m + 2], v) == NetOut(a[..m], v) +
            (if a[m].from == v then a[m].flow else 0) + (if a[m + 1].from == v then a[m + 1].flow else 0)
  {
    assert a[..m + 2][..m + 1] == a[..m + 1] && a[..m + 1][..m] == a[..m];
  }

  /** A forward edge and its residual: only the forward edge is copied, with
      its capacity minus its flow, so the pair's copies owe what the pair
      owes less the flow it carries. */
  lemma PairCopies(fwd: Edge, res: Edge, v: int)
    requires PairOk(fwd, res)
    ensures Balance(Copy(fwd) + Copy(res), v) ==
            Contribution(fwd, v) + Contribution(res, v) -
            ((if fwd.from == v then fwd.flow else 0) + (if res.from == v then res.flow else 0))
  {
    assert Copy(res) == [];
    assert Copy(fwd) + Copy(res) == Copy(fwd);
    if Copy(fwd) != [] {
      assert Copy(fwd)[..0] == [];
    }
  }

  lemma CopiesTwo(a: seq<Edge>, i: nat, j: nat)
    requires i < |a| && j < |a|
    ensures Copies(a, [i, j]) == Copy(a[i]) + Copy(a[j])
  {
    assert [i, j][..1] == [i] && [i][..0] == [];
    assert Copies(a, [i]) == Copy(a[i]);
  }

  /** Over the first k pairs of a paired arena, the copies' balance is the
      arena's balance minus the net flow out of v. */
  lemma {:induction false} CopiesOfPairs(a: seq<Edge>, k: nat, v: int)
    requires Paired(a) && 2 * k <= |a|
    ensures Balance(Copies(a, Range(2 * k)), v) == Balance(a[..2 * k], v) - NetOut(a[..2 * k], v)
    decreases k
  {
    if k == 0 {
      assert Range(0) == [] && a[..0] == [];
    } else {
      var m := 2 * (k - 1);
      assert m + 2 == 2 * k && m % 2 == 0;
      assert PairAt(a, m);
      CopiesOfPairs(a, k - 1, v);
      PairStep(a, m, v);
    }
  }

  /** The pair at m adds to the copies' balance what it adds to the arena's
      balance less the flow it sends out of v. */
  lemma PairStep(a: seq<Edge>, m: nat, v: int)
    requires m + 2 <= |a| && PairAt(a, m)
    ensures Balance(Copies(a, Range(m + 2)), v) - Balance(Copies(a, Range(m)), v) ==
            (Balance(a[..m + 2], v) - Balance(a[..m], v)) - (NetOut(a[..m + 2], v) - NetOut(a[..m], v))
  {
    PairCopies(a[m], a[m + 1], v);
    PrefixStep(a, m, v);
    assert Range(m + 2) == Range(m) + [m, m + 1];
    CopiesBalanceAppend(a, Range(m), [m, m + 1], v);
    CopiesTwo(a, m, m + 1);
  }

  /** In a valid network each node's balance over the leftover edges is its
      balance over the arena minus the net flow it sends. */
  lemma LeftoverBalance(net: Network, v: int)
    requires Valid(net)
    ensures Balance(LeftoverEdges(net), v) == Balance(net.arena, v) - NetOut(net.arena, v)
  {
    CopiesPermutation(net.arena, Flat(net.graph), Range(|net.arena|), v);
    CopiesOfPairs(net.arena, |net.arena| / 2, v);
    assert net.arena[..2 * (|net.arena| / 2)] == net.arena;
  }

  /** The copies of edges between distinct people are between distinct
      people and have positive amounts. */
  lemma {:induction false} CopiesBetween(arena: seq<Edge>, idx: seq<nat>, n: nat)
    requires Between(arena, n)
    ensures Between(Copies(arena, idx), n)
    ensures forall k :: 0 <= k < |Copies(arena, idx)| ==>
      Copies(arena, idx)[k].capacity > 0 && Copies(arena, idx)[k].flow == 0
    decreases |idx|
  {
    if idx != [] {
      CopiesBetween(arena, idx[..|idx| - 1], n);
    }
  }

  /** Once a flow f has been pushed from s to t through a network that
      carried none, the leftovers plus one debt s -> t of f owe what the
      network's edges owe. */
  lemma BalanceKept(net0: Network, net: Network, f: int, s: int, t: int, v: int)
    requires Flowing(net0, net, f, s, t) && s != t
    requires NetOut(net0.arena, s) == 0 && NetOut(net0.arena, t) == 0 && NetOut(net0.arena, v) == 0
    ensures Balance(LeftoverEdges(net) + [Edge(s, t, f, 0)], v) == Balance(net0.arena, v)
  {
    LeftoverBalance(net, v);
    BalanceSameShape(net0.arena, net.arena, v);
    BalanceAppend(LeftoverEdges(net), [Edge(s, t, f, 0)], v);
    assert [Edge(s, t, f, 0)][..0] == [];
  }

  /** One round of debt simplification keeps every balance: given the flow
      the solve pushed from s to t over the network built from cur, the
      leftovers followed by one consolidated debt s -> t of that flow owe
      exactly what cur owed, and remain debts between distinct people. */
  lemma Rebuild(n: nat, cur: seq<Edge>, net: Network, f: int, s: int, t: int)
    requires Between(cur, n) && s != t
    requires EndpointsIn(cur, n) && Flowing(WithEdges(Empty(n), cur), net, f, s, t)
    ensures Between(LeftoverEdges(net) + [Edge(s, t, f, 0)], n)
    ensures NonNegative(LeftoverEdges(net) + [Edge(s, t, f, 0)])
    ensures forall v :: Balance(LeftoverEdges(net) + [Edge(s, t, f, 0)], v) == Balance(cur, v)
  {
    var net0 := WithEdges(Empty(n), cur);
    BuiltBetween(n, cur);
    BetweenSameShape(net0.arena, net.arena, n);
    CopiesBetween(net.arena, Flat(net.graph), n);
    BuiltFrom(n, cur, s);
    BuiltFrom(n, cur, t);
    forall v
      ensures Balance(LeftoverEdges(net) + [Edge(s, t, f, 0)], v) == Balance(cur, v)
    {
      BuiltFrom(n, cur, v);
      BalanceKept(net0, net, f, s, t, v);
    }
  }
}
