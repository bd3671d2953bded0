/**
  The flow network shared by every solver: directed capacitated edges stored
  in an arena, each forward edge paired with a zero-capacity residual edge,
  and one adjacency list of arena indices per node.

  Every edge knows its residual partner through its place in the arena: the
  forward edge added k-th lives at index 2k, its residual at 2k+1, and
  `Partner` maps one to the other.
 */
module FlowNetwork {

  /** Long.MAX_VALUE / 2: the "infinite" bound on the flow a search may push. */
  const INF: int := 4611686018427387903

  /** Outcome of an operation that can reject its argument. */
  datatype Status = Success | InvalidArgument

  datatype Edge = Edge(from: int, to: int, capacity: int, flow: int) {
    /** A residual edge is one with no capacity of its own: what it can
        still carry is exactly the flow its forward partner carries. */
    predicate IsResidual(): (r: bool)
      ensures r ==> capacity - flow == -flow
    {
      capacity == 0
    }

    /** What the edge can still carry: positive exactly while its flow is
        below its capacity, zero once it is saturated. */
    function RemainingCapacity(): int {
      capacity - flow
    }
  }

  /** The arena index of the other edge of a forward/residual pair. */
  function Partner(i: nat): nat {
    if i % 2 == 0 then i + 1 else i - 1
  }

  /** A flow network with n nodes: the edge arena and the adjacency lists. */
  datatype Network = Network(n: nat, arena: seq<Edge>, graph: seq<seq<nat>>)

  /** A network with n nodes, no edges and n empty adjacency lists. */
  function Empty(n: nat): (net: Network)
    ensures |net.graph| == n && net.arena == []
    ensures forall v :: 0 <= v < n ==> net.graph[v] == []
  {
    Network(n, [], seq(n, _ => []))
  }

  /** Every endpoint is a node and every node lists only edges leaving it. */
  ghost predicate Wellformed(net: Network) {
    |net.graph| == net.n &&
    (forall i :: 0 <= i < |net.arena| ==>
       0 <= net.arena[i].from < net.n && 0 <= net.arena[i].to < net.n) &&
    (forall v, j :: 0 <= v < net.n && 0 <= j < |net.graph[v]| ==>
       net.graph[v][j] < |net.arena| && net.arena[net.graph[v][j]].from == v)
  }

  /** A forward edge and its residual: reversed endpoints, no residual
      capacity, opposite flows, and forward flow within the capacity. */
  ghost predicate PairOk(fwd: Edge, res: Edge) {
    res.from == fwd.to && res.to == fwd.from && res.capacity == 0 &&
    res.flow == -fwd.flow && 0 <= fwd.flow <= fwd.capacity
  }

  /** The edge at even index i and the one after it form a pair. */
  ghost predicate PairAt(arena: seq<Edge>, i: int)
    requires 0 <= i && i + 1 < |arena|
  {
    PairOk(arena[i], arena[i + 1])
  }

  ghost predicate Paired(arena: seq<Edge>) {
    |arena| % 2 == 0 &&
    forall i :: 0 <= i < |arena| && i % 2 == 0 ==> PairAt(arena, i)
  }

  /** The adjacency lists together hold every arena index exactly once. */
  ghost predicate Partitioned(net: Network) {
    multiset(Flat(net.graph)) == multiset(Range(|net.arena|))
  }

  ghost predicate Valid(net: Network) {
    Wellformed(net) && Paired(net.arena) && Partitioned(net)
  }

  ghost function Flat(g: seq<seq<nat>>): seq<nat> {
    if g == [] then [] else Flat(g[..|g| - 1]) + g[|g| - 1]
  }

  /** Every entry of the flattened lists sits in one of the lists. */
  lemma {:induction false} FlatMember(g: seq<seq<nat>>, x: nat)
    requires x in Flat(g)
    ensures exists u, j :: 0 <= u < |g| && 0 <= j < |g[u]| && g[u][j] == x
  {
    if g != [] {
      var init := g[..|g| - 1];
      if x in Flat(init) {
        FlatMember(init, x);
        var u, j :| 0 <= u < |init| && 0 <= j < |init[u]| && init[u][j] == x;
        assert g[u] == init[u];
      } else {
        var j :| 0 <= j < |g[|g| - 1]| && g[|g| - 1][j] == x;
      }
    }
  }

  function Range(m: nat): (r: seq<nat>)
    ensures |r| == m && forall k :: 0 <= k < m ==> r[k] == k
  {
    seq(m, k => k)
  }

  /** Two arenas that differ at most in the flows of their edges. */
  ghost predicate SameShape(a: seq<Edge>, b: seq<Edge>) {
    |a| == |b| &&
    forall i :: 0 <= i < |a| ==>
      a[i].from == b[i].from && a[i].to == b[i].to && a[i].capacity == b[i].capacity
  }

  lemma {:induction false} PartnerFacts(net: Network, i: nat)
    requires Valid(net) && i < |net.arena|
    ensures Partner(i) < |net.arena| && Partner(i) != i && Partner(Partner(i)) == i
    ensures net.arena[Partner(i)].from == net.arena[i].to
    ensures net.arena[Partner(i)].to == net.arena[i].from
    ensures net.arena[i].flow + net.arena[Partner(i)].flow == 0
    ensures 0 <= net.arena[i].capacity && net.arena[i].RemainingCapacity() >= 0
    ensures i % 2 == 1 ==> net.arena[i].IsResidual() &&
                           net.arena[i].RemainingCapacity() == net.arena[Partner(i)].flow
  {
    if i % 2 == 0 {
      assert PairAt(net.arena, i);
    } else {
      assert PairAt(net.arena, i - 1);
    }
  }

  /** Moves b units of flow onto edge i and off its partner. */
  function Augment(arena: seq<Edge>, i: nat, b: int): (r: seq<Edge>)
    requires i < |arena| && Partner(i) < |arena|
    ensures SameShape(arena, r)
  {
    var p := Partner(i);
    arena[i := arena[i].(flow := arena[i].flow + b)][p := arena[p].(flow := arena[p].flow - b)]
  }

  /** Augmenting an edge by at most its remaining capacity keeps every pair valid. */
  lemma {:induction false} AugmentValid(net: Network, i: nat, b: int)
    requires Valid(net) && i < |net.arena| && 0 <= b <= net.arena[i].RemainingCapacity()
    ensures Partner(i) < |net.arena|
    ensures Valid(net.(arena := Augment(net.arena, i, b)))
  {
    PartnerFacts(net, i);
    var a := Augment(net.arena, i, b);
    var net' := net.(arena := a);
    var lo := if i % 2 == 0 then i else i - 1;
    forall k | 0 <= k < |a| && k % 2 == 0
      ensures PairAt(a, k)
    {
      assert PairAt(net.arena, k);
      if k != lo {
        assert a[k] == net.arena[k] && a[k + 1] == net.arena[k + 1];
      }
    }
    assert Wellformed(net');
  }

  // ---------------------------------------------------------------------
  // Net flow out of a node

  /** Sum of the flows on the arena edges leaving v; because every residual
      carries minus its forward edge's flow, this is the flow v sends on
      forward edges minus the flow it receives on them. */
  ghost function NetOut(arena: seq<Edge>, v: int): int {
    if arena == [] then 0
    else NetOut(arena[..|arena| - 1], v) +
         (if arena[|arena| - 1].from == v then arena[|arena| - 1].flow else 0)
  }

  /** Sum of the capacities of the arena edges leaving v. */
  ghost function OutCap(arena: seq<Edge>, v: int): int {
    if arena == [] then 0
    else OutCap(arena[..|arena| - 1], v) +
         (if arena[|arena| - 1].from == v then arena[|arena| - 1].capacity else 0)
  }

  lemma {:induction false} NetOutUpdate(a: seq<Edge>, j: nat, e: Edge, v: int)
    requires j < |a| && e.from == a[j].from
    ensures NetOut(a[j := e], v) == NetOut(a, v) + (if e.from == v then e.flow - a[j].flow else 0)
    ensures OutCap(a[j := e], v) == OutCap(a, v) + (if e.from == v then e.capacity - a[j].capacity else 0)
    decreases |a|
  {
    var b := a[j := e];
    if j == |a| - 1 {
      assert b[..|b| - 1] == a[..|a| - 1];
    } else {
      assert b[..|b| - 1] == a[..|a| - 1][j := e];
      NetOutUpdate(a[..|a| - 1], j, e, v);
    }
  }

  /** Augmenting edge i by b moves b units of net outflow from its head to its tail. */
  lemma {:induction false} NetOutAugment(a: seq<Edge>, i: nat, b: int, v: int)
    requires i < |a| && Partner(i) < |a| && Partner(i) != i && a[Partner(i)].from == a[i].to
    ensures NetOut(Augment(a, i, b), v) ==
            NetOut(a, v) + (if a[i].from == v then b else 0) - (if a[i].to == v then b else 0)
    ensures OutCap(Augment(a, i, b), v) == OutCap(a, v)
  {
    var p := Partner(i);
    var a1 := a[i := a[i].(flow := a[i].flow + b)];
    NetOutUpdate(a, i, a[i].(flow := a[i].flow + b), v);
    NetOutUpdate(a1, p, a1[p].(flow := a1[p].flow - b), v);
  }

  /** No node sends more than the capacity of its outgoing edges. */
  lemma {:induction false} NetOutAtMostCap(a: seq<Edge>, v: int)
    requires forall i :: 0 <= i < |a| ==> a[i].flow <= a[i].capacity
    ensures NetOut(a, v) <= OutCap(a, v)
    decreases |a|
  {
    if a != [] {
      NetOutAtMostCap(a[..|a| - 1], v);
    }
  }

  lemma {:induction false} FlowWithinCapacity(net: Network)
    requires Valid(net)
    ensures forall i :: 0 <= i < |net.arena| ==> net.arena[i].flow <= net.arena[i].capacity
  {
    forall i | 0 <= i < |net.arena|
      ensures net.arena[i].flow <= net.arena[i].capacity
    {
      PartnerFacts(net, i);
    }
  }

  lemma {:induction false} OutCapSameShape(a: seq<Edge>, b: seq<Edge>, v: int)
    requires SameShape(a, b)
    ensures OutCap(a, v) == OutCap(b, v)
    decreases |a|
  {
    if a != [] {
      OutCapSameShape(a[..|a| - 1], b[..|b| - 1], v);
    }
  }
  // ---------------------------------------------------------------------
  // Building the network

  /** The forward edges, in the order they were added. */
  function ForwardEdges(net: Network): (r: seq<Edge>)
    ensures |r| == |net.arena| / 2
  {
    seq(|net.arena| / 2, k requires 0 <= k < |net.arena| / 2 => net.arena[2 * k])
  }

  /** The network after adding a forward edge from -> to with capacity c and
      its residual to -> from: both appended to the arena, the forward edge's
      index appended to from's list, then the residual's to to's list. */
  function WithEdge(net: Network, from: int, to: int, c: int): (r: Network)
    requires |net.graph| == net.n && |net.arena| % 2 == 0
    requires 0 <= from < net.n && 0 <= to < net.n
    ensures r.n == net.n && |r.graph| == net.n
    ensures r.arena == net.arena + [Edge(from, to, c, 0), Edge(to, from, 0, 0)]
    ensures ForwardEdges(r) == ForwardEdges(net) + [Edge(from, to, c, 0)]
    ensures from != to ==> r.graph[from] == net.graph[from] + [|net.arena|] &&
                           r.graph[to] == net.graph[to] + [|net.arena| + 1]
    ensures from == to ==> r.graph[from] == net.graph[from] + [|net.arena|, |net.arena| + 1]
    ensures forall v :: 0 <= v < net.n && v != from && v != to ==> r.graph[v] == net.graph[v]
  {
    var k := |net.arena|;
    var g1 := net.graph[from := net.graph[from] + [k]];
    var g2 := g1[to := g1[to] + [k + 1]];
    var r := Network(net.n, net.arena + [Edge(from, to, c, 0), Edge(to, from, 0, 0)], g2);
    assert |r.arena| / 2 == k / 2 + 1;
    assert forall m :: 0 <= m < k / 2 ==> 2 * m < k && r.arena[2 * m] == net.arena[2 * m];
    assert r.arena[2 * (k / 2)] == Edge(from, to, c, 0);
    assert ForwardEdges(r) == ForwardEdges(net) + [Edge(from, to, c, 0)];
    r
  }

  /** Every edge of the list has endpoints among the n nodes. */
  ghost predicate EndpointsIn(list: seq<Edge>, n: nat) {
    forall k :: 0 <= k < |list| ==> 0 <= list[k].from < n && 0 <= list[k].to < n
  }

  /** The network after adding the edges of the list one after the other. */
  function WithEdges(net: Network, list: seq<Edge>): (r: Network)
    requires |net.graph| == net.n && |net.arena| % 2 == 0 && EndpointsIn(list, net.n)
    ensures r.n == net.n && |r.graph| == net.n && |r.arena| == |net.arena| + 2 * |list|
    decreases |list|
  {
    if list == [] then net
    else
      var last := list[|list| - 1];
      WithEdge(WithEdges(net, list[..|list| - 1]), last.from, last.to, last.capacity)
  }

  /** Adding the first k + 1 edges is adding the first k, then edge k. */
  lemma WithEdgesSnoc(net: Network, list: seq<Edge>, k: int)
    requires |net.graph| == net.n && |net.arena| % 2 == 0 && EndpointsIn(list, net.n)
    requires 0 <= k < |list|
    ensures EndpointsIn(list[..k], net.n) && EndpointsIn(list[..k + 1], net.n)
    ensures WithEdges(net, list[..k + 1]) ==
            WithEdge(WithEdges(net, list[..k]), list[k].from, list[k].to, list[k].capacity)
  {
    assert list[..k + 1][..k] == list[..k];
  }

  /** The list with every flow reset to 0: what adding it stores as forward edges. */
  function Fresh(list: seq<Edge>): (r: seq<Edge>)
    ensures |r| == |list|
    ensures forall k :: 0 <= k < |list| ==>
      r[k] == Edge(list[k].from, list[k].to, list[k].capacity, 0)
  {
    seq(|list|, k requires 0 <= k < |list| => Edge(list[k].from, list[k].to, list[k].capacity, 0))
  }

  /** Adding a list grows the forward edges by exactly that list, in order. */
  lemma {:induction false} WithEdgesForward(net: Network, list: seq<Edge>)
    requires |net.graph| == net.n && |net.arena| % 2 == 0 && EndpointsIn(list, net.n)
    ensures ForwardEdges(WithEdges(net, list)) == ForwardEdges(net) + Fresh(list)
    decreases |list|
  {
    if list != [] {
      var init := list[..|list| - 1];
      WithEdgesForward(net, init);
      assert Fresh(list) == Fresh(init) + [Fresh(list)[|list| - 1]];
    }
  }

  lemma {:induction false} FlatAppend(g: seq<seq<nat>>, v: nat, i: nat)
    requires v < |g|
    ensures multiset(Flat(g[v := g[v] + [i]])) == multiset(Flat(g)) + multiset{i}
    decreases |g|
  {
    var h := g[v := g[v] + [i]];
    var last := |g| - 1;
    assert Flat(g) == Flat(g[..last]) + g[last];
    assert Flat(h) == Flat(h[..last]) + h[last];
    if v == last {
      assert h[..last] == g[..last];
      assert h[last] == g[last] + [i];
    } else {
      assert h[..last] == g[..last][v := g[v] + [i]];
      assert h[last] == g[last];
      FlatAppend(g[..last], v, i);
    }
  }

  lemma {:induction false} WithEdgePartitioned(net: Network, from: int, to: int, c: int)
    requires |net.graph| == net.n && Partitioned(net) && |net.arena| % 2 == 0
    requires 0 <= from < net.n && 0 <= to < net.n
    ensures Partitioned(WithEdge(net, from, to, c))
  {
    var k := |net.arena|;
    var r := WithEdge(net, from, to, c);
    var g1 := net.graph[from := net.graph[from] + [k]];
    FlatAppend(net.graph, from, k);
    FlatAppend(g1, to, k + 1);
    assert r.graph == g1[to := g1[to] + [k + 1]];
    RangeGrows(k);
  }

  lemma RangeGrows(k: nat)
    ensures multiset(Range(k + 2)) == multiset(Range(k)) + multiset{k} + multiset{(k + 1) as nat}
  {
    assert Range(k + 2) == Range(k) + [k] + [k + 1];
  }

  lemma {:induction false} WithEdgeWellformed(net: Network, from: int, to: int, c: int)
    requires Wellformed(net) && |net.arena| % 2 == 0
    requires 0 <= from < net.n && 0 <= to < net.n
    ensures Wellformed(WithEdge(net, from, to, c))
  {
    var k := |net.arena|;
    var r := WithEdge(net, from, to, c);
    forall v, j | 0 <= v < r.n && 0 <= j < |r.graph[v]|
      ensures r.graph[v][j] < |r.arena| && r.arena[r.graph[v][j]].from == v
    {
      if j < |net.graph[v]| {
        assert r.graph[v][j] == net.graph[v][j];
      }
    }
  }

  lemma {:induction false} WithEdgePaired(net: Network, from: int, to: int, c: int)
    requires |net.graph| == net.n && Paired(net.arena)
    requires 0 <= from < net.n && 0 <= to < net.n && c >= 0
    ensures Paired(WithEdge(net, from, to, c).arena)
  {
    var k := |net.arena|;
    var r := WithEdge(net, from, to, c);
    forall i | 0 <= i < |r.arena| && i % 2 == 0
      ensures PairAt(r.arena, i)
    {
      if i < k {
        assert PairAt(net.arena, i);
      }
    }
  }

  /** Adding an edge with a non-negative capacity keeps the network valid. */
  lemma {:induction false} WithEdgeValid(net: Network, from: int, to: int, c: int)
    requires Valid(net) && 0 <= from < net.n && 0 <= to < net.n && c >= 0
    ensures Valid(WithEdge(net, from, to, c))
  {
    WithEdgePartitioned(net, from, to, c);
    WithEdgeWellformed(net, from, to, c);
    WithEdgePaired(net, from, to, c);
  }

  /** Adding a list of edges with non-negative capacities keeps the network valid. */
  lemma {:induction false} WithEdgesValid(net: Network, list: seq<Edge>)
    requires Valid(net) && EndpointsIn(list, net.n)
    requires forall k :: 0 <= k < |list| ==> list[k].capacity >= 0
    ensures Valid(WithEdges(net, list))
    decreases |list|
  {
    if list != [] {
      var last := list[|list| - 1];
      WithEdgesValid(net, list[..|list| - 1]);
      WithEdgeValid(WithEdges(net, list[..|list| - 1]), last.from, last.to, last.capacity);
    }
  }
  lemma {:induction false} FlatOfEmptyLists(g: seq<seq<nat>>)
    requires forall v :: 0 <= v < |g| ==> g[v] == []
    ensures Flat(g) == []
    decreases |g|
  {
    if g != [] {
      FlatOfEmptyLists(g[..|g| - 1]);
    }
  }

  /** A network without edges is valid. */
  lemma EmptyValid(n: nat)
    ensures Valid(Empty(n))
  {
    FlatOfEmptyLists(Empty(n).graph);
  }
  /** The index of the first edge with a negative capacity, or the length of
      the list when there is none. */
  function FirstNegative(list: seq<Edge>): (k: nat)
    ensures k <= |list|
    ensures forall j :: 0 <= j < k ==> list[j].capacity >= 0
    ensures k < |list| ==> list[k].capacity < 0
  {
    if list == [] then 0
    else if list[0].capacity < 0 then 0
    else 1 + FirstNegative(list[1..])
  }
}
