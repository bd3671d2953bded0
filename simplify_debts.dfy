/**
  Debt simplification: debts are edges of a flow network. Each round picks
  a pair of people (debtor, creditor) not yet settled, solves maximum flow
  from the debtor to the creditor, and rebuilds the network from the
  leftover capacities plus one consolidated debt carrying that flow. Every
  round keeps each person's balance; the rounds end once every remaining
  debt's pair has been settled.
 */
module SimplifyDebts {
  import opened Wrappers
  import opened FlowNetwork
  import opened MaxFlow
  import opened DebtBalance
  import opened Leftovers

  /** The factor that separates the debtor from the creditor in a pair key. */
  const OFFSET: int := 1000000000

  /** The key of the directed pair (u, v). */
  function Key(u: int, v: int): (r: int)
    ensures 0 <= v < OFFSET ==> r / OFFSET == u && r % OFFSET == v
  {
    u * OFFSET + v
  }

  /** Keys tell pairs apart as long as the second node is below OFFSET. */
  lemma KeyInjective(u1: int, v1: int, u2: int, v2: int)
    requires 0 <= u1 && 0 <= u2 && 0 <= v1 < OFFSET && 0 <= v2 < OFFSET
    ensures Key(u1, v1) == Key(u2, v2) <==> u1 == u2 && v1 == v2
  {
    if u1 < u2 {
      assert u1 * OFFSET + OFFSET <= u2 * OFFSET;
    } else if u2 < u1 {
      assert u2 * OFFSET + OFFSET <= u1 * OFFSET;
    }
  }

  /** Keys are directed: a pair and its reverse have different keys. */
  lemma KeyDirected(u: int, v: int)
    requires 0 <= u < OFFSET && 0 <= v < OFFSET && u != v
    ensures Key(u, v) != Key(v, u)
  {
    KeyInjective(u, v, v, u);
  }

  /** The keys of the pairs (u, v) with u below k and v below m. */
  ghost function Grid(k: nat, m: nat): set<int> {
    set u, v | 0 <= u < k && 0 <= v < m :: Key(u, v)
  }

  /** The keys of the pairs (u, v) with v below m. */
  ghost function Row(u: nat, m: nat): set<int> {
    set v | 0 <= v < m :: Key(u, v)
  }

  /** The keys of all ordered pairs of nodes among n. */
  ghost function AllKeys(n: nat): set<int> {
    Grid(n, n)
  }

  lemma {:induction false} RowSize(u: nat, m: nat)
    ensures |Row(u, m)| <= m
    decreases m
  {
    if m > 0 {
      RowSize(u, m - 1);
      assert Row(u, m) == Row(u, m - 1) + {Key(u, m - 1)};
    }
  }

  lemma {:induction false} GridSize(k: nat, m: nat)
    ensures |Grid(k, m)| <= k * m
    decreases k
  {
    if k == 0 {
      assert Grid(k, m) == {};
    } else {
      GridSize(k - 1, m);
      RowSize(k - 1, m);
      assert Grid(k, m) == Grid(k - 1, m) + Row(k - 1, m) by {
        forall x | x in Grid(k, m)
          ensures x in Grid(k - 1, m) + Row(k - 1, m)
        {
          var u, v :| 0 <= u < k && 0 <= v < m && x == Key(u, v);
          if u < k - 1 {
            assert x in Grid(k - 1, m);
          } else {
            assert x in Row(k - 1, m);
          }
        }
      }
      assert (k - 1) * m + m == k * m;
    }
  }

  /** There are at most n * n pair keys among n nodes. */
  lemma AllKeysBound(n: nat)
    ensures |AllKeys(n)| <= n * n
  {
    GridSize(n, n);
  }

  lemma InAllKeys(n: nat, u: int, v: int)
    requires 0 <= u < n && 0 <= v < n
    ensures Key(u, v) in AllKeys(n)
  {
    assert Key(u, v) in Grid(n, n);
  }

  /** The pair of edge k is not settled. */
  predicate Unsettled(edges: seq<Edge>, visited: set<int>, k: int): (b: bool)
    requires 0 <= k < |edges|
    ensures forall k' :: 0 <= k' < |edges| && edges[k'].from == edges[k].from && edges[k'].to == edges[k].to ==>
              (b <==> Key(edges[k'].from, edges[k'].to) !in visited)
  {
    Key(edges[k].from, edges[k].to) !in visited
  }

  /** Finds the last edge whose pair is not yet settled, if any. */
  method NonVisitedEdge(edges: seq<Edge>, visited: set<int>) returns (r: Option<nat>)
    ensures r.None? <==> forall k :: 0 <= k < |edges| ==> !Unsettled(edges, visited, k)
    ensures r.Some? ==> r.value < |edges| && Unsettled(edges, visited, r.value)
    ensures r.Some? ==> forall k :: r.value < k < |edges| ==> !Unsettled(edges, visited, k)
  {
    r := None;
    var cur := 0;
    while cur < |edges|
      invariant 0 <= cur <= |edges|
      invariant r.None? <==> forall k :: 0 <= k < cur ==> !Unsettled(edges, visited, k)
      invariant r.Some? ==> r.value < cur && Unsettled(edges, visited, r.value)
      invariant r.Some? ==> forall k :: r.value < k < cur ==> !Unsettled(edges, visited, k)
    {
      if Unsettled(edges, visited, cur) {
        r := Some(cur);
      }
      cur := cur + 1;
    }
  }

  /** Simplifies the debts among n people with the given labels. Returns
      None when a debt has a negative amount (the network rejects it);
      otherwise the final debts, the settled pair keys and the number of
      rounds. */
  method Simplify(n: nat, labels: seq<string>, debts: seq<Edge>)
    returns (r: Option<seq<Edge>>, visited: set<int>, rounds: nat)
    requires |labels| == n && Between(debts, n)
    ensures r.None? <==> !NonNegative(debts)
    ensures visited <= AllKeys(n) && rounds == |visited| <= n * n
    ensures r.Some? ==> Between(r.value, n) && NonNegative(r.value)
    ensures r.Some? && Positive(debts) ==> Positive(r.value)
    ensures r.Some? ==> forall v :: Balance(r.value, v) == Balance(debts, v)
    ensures r.Some? ==> forall k :: 0 <= k < |r.value| ==> !Unsettled(r.value, visited, k)
  {
    visited, rounds := {}, 0;
    var solver, ok := Start(n, labels, debts);
    if !ok {
      return None, visited, rounds;
    }
    ghost var cur := debts;
    var pos: Option<nat> := NonVisitedEdge(solver.Edges(), visited);
    while pos.Some?
      invariant fresh(solver) && fresh(solver.level) && fresh(solver.minCut)
      invariant Progress(solver, n, debts, cur, visited, rounds, pos)
      decreases AllKeys(n) - visited
    {
      ghost var graph, flow;
      solver, cur, visited, rounds, pos, graph, flow := SimplifyRound(solver, n, labels, debts, cur, visited, rounds, pos.value);
    }
    Finished(solver, n, debts, cur, visited, rounds);
    return Some(solver.Edges()), visited, rounds;
  }

  /** The state between rounds: the solver holds a fresh network built from
      cur, which owes what the original debts owed; the settled keys are
      pairs of people, one per round; pos is the last unsettled edge. */
  ghost predicate Progress(solver: Dinics, n: nat, debts: seq<Edge>, cur: seq<Edge>,
                           visited: set<int>, rounds: nat, pos: Option<nat>)
    reads solver
  {
    Round(solver, n, cur) &&
    (forall v :: Balance(cur, v) == Balance(debts, v)) &&
    (Positive(debts) ==> Positive(cur)) &&
    visited <= AllKeys(n) && rounds == |visited| &&
    (pos.None? <==> forall k :: 0 <= k < |solver.Edges()| ==> !Unsettled(solver.Edges(), visited, k)) &&
    (pos.Some? ==> pos.value < |solver.Edges()| && Unsettled(solver.Edges(), visited, pos.value))
  }

  /** Once no edge is unsettled, the solver's edges are the simplified debts. */
  lemma Finished(solver: Dinics, n: nat, debts: seq<Edge>, cur: seq<Edge>, visited: set<int>, rounds: nat)
    requires Progress(solver, n, debts, cur, visited, rounds, None)
    ensures rounds <= n * n
    ensures Between(solver.Edges(), n) && NonNegative(solver.Edges())
    ensures Positive(debts) ==> Positive(solver.Edges())
    ensures forall v :: Balance(solver.Edges(), v) == Balance(debts, v)
    ensures forall k :: 0 <= k < |solver.Edges()| ==> !Unsettled(solver.Edges(), visited, k)
  {
    SubsetSize(visited, AllKeys(n));
    AllKeysBound(n);
    FreshFacts(cur, n);
  }

  /** The first solver, built from the debts; the build fails on a negative amount. */
  method Start(n: nat, labels: seq<string>, debts: seq<Edge>) returns (solver: Dinics, ok: bool)
    requires |labels| == n && Between(debts, n)
    ensures fresh(solver) && fresh(solver.level) && fresh(solver.minCut)
    ensures ok <==> NonNegative(debts)
    ensures ok ==> Round(solver, n, debts)
  {
    StartFacts(n, debts);
    solver := new Dinics(n, labels);
    var st := solver.AddEdges(Some(debts));
    ok := st == Success;
  }

  /** What building from the debts needs: a list without negative amounts is
      added whole, and the built network's edges are the list with no flow. */
  lemma StartFacts(n: nat, debts: seq<Edge>)
    requires Between(debts, n)
    ensures EndpointsIn(debts, n)
    ensures NonNegative(debts) <==> FirstNegative(debts) == |debts|
    ensures NonNegative(debts) ==> debts[..FirstNegative(debts)] == debts
    ensures ForwardEdges(WithEdges(Empty(n), debts)) == Fresh(debts)
  {
    BuiltBetween(n, debts);
    assert debts[..|debts|] == debts;
    Settle(n, debts, WithEdges(Empty(n), debts));
  }

  lemma SubsetSize(a: set<int>, b: set<int>)
    requires a <= b
    ensures |a| <= |b|
  {
    assert b == a + (b - a);
  }

  /** The solver holds a fresh, unsolved network built from cur: debts
      between distinct people with non-negative amounts. */
  ghost predicate Round(solver: Dinics, n: nat, cur: seq<Edge>)
    reads solver
  {
    solver.Valid() && |solver.labels| == n && solver.net.n == n &&
    Between(cur, n) && NonNegative(cur) && EndpointsIn(cur, n) &&
    solver.net == WithEdges(Empty(n), cur) && solver.Edges() == Fresh(cur) &&
    solver.maxFlow == 0 && !solver.solved
  }

  /** One round: settles the pair of edge pos, builds the next solver from
      the leftovers and one consolidated debt carrying the flow, marks the
      pair settled and finds the next unsettled edge. */
  method SimplifyRound(solver: Dinics, n: nat, labels: seq<string>, ghost debts: seq<Edge>,
                       ghost cur: seq<Edge>, visited: set<int>, rounds: nat, pos: nat)
    returns (next: Dinics, ghost cur': seq<Edge>, visited': set<int>, rounds': nat, pos': Option<nat>,
             ghost graph: Network, ghost flow: int)
    requires |labels| == n && Progress(solver, n, debts, cur, visited, rounds, Some(pos))
    modifies solver, solver.level, solver.minCut
    ensures fresh(next) && fresh(next.level) && fresh(next.minCut)
    ensures Progress(next, n, debts, cur', visited', rounds', pos')
    ensures Flowing(WithEdges(Empty(n), cur), graph, flow, cur[pos].from, cur[pos].to)
    ensures cur' == LeftoverEdges(graph) + [Edge(cur[pos].from, cur[pos].to, flow, 0)]
    ensures Key(cur[pos].from, cur[pos].to) !in visited
    ensures visited' == visited + {Key(cur[pos].from, cur[pos].to)}
    ensures AllKeys(n) - visited' < AllKeys(n) - visited
  {
    assert cur[pos].from == solver.Edges()[pos].from && cur[pos].to == solver.Edges()[pos].to;
    var newEdges, maxFlow, source, sink;
    newEdges, maxFlow, source, sink, graph := SolvePair(solver, n, pos, cur);
    flow := maxFlow;
    next := Reseed(n, labels, newEdges, source, sink, maxFlow);
    cur' := newEdges + [Edge(source, sink, maxFlow, 0)];
    Settled(n, visited, source, sink);
    visited' := visited + {Key(source, sink)};
    rounds' := rounds + 1;
    pos' := NonVisitedEdge(next.Edges(), visited');
  }

  /** Settling a new pair of people adds one key and leaves fewer pairs to settle. */
  lemma Settled(n: nat, visited: set<int>, u: int, v: int)
    requires visited <= AllKeys(n) && 0 <= u < n && 0 <= v < n && Key(u, v) !in visited
    ensures visited + {Key(u, v)} <= AllKeys(n)
    ensures |visited + {Key(u, v)}| == |visited| + 1
    ensures AllKeys(n) - (visited + {Key(u, v)}) < AllKeys(n) - visited
  {
    InAllKeys(n, u, v);
  }

  /** Solves maximum flow from the debtor to the creditor of edge pos and
      collects the leftovers: together with one debt of the flow between
      the two they owe what cur owed. */
  method SolvePair(solver: Dinics, n: nat, pos: nat, ghost cur: seq<Edge>)
    returns (newEdges: seq<Edge>, maxFlow: int, source: int, sink: int, graph: Network)
    requires Round(solver, n, cur) && pos < |cur|
    modifies solver, solver.level, solver.minCut
    ensures source == cur[pos].from && sink == cur[pos].to
    ensures Flowing(WithEdges(Empty(n), cur), graph, maxFlow, source, sink)
    ensures newEdges == LeftoverEdges(graph)
    ensures Between(newEdges + [Edge(source, sink, maxFlow, 0)], n)
    ensures NonNegative(newEdges + [Edge(source, sink, maxFlow, 0)])
    ensures forall v :: Balance(newEdges + [Edge(source, sink, maxFlow, 0)], v) == Balance(cur, v)
    ensures cur[pos].capacity > 0 ==> Positive(newEdges + [Edge(source, sink, maxFlow, 0)])
  {
    graph, maxFlow, source, sink := Query(solver, n, pos, cur);
    newEdges := CollectLeftovers(graph);
    Rebuild(n, cur, graph, maxFlow, source, sink);
  }

  /** Asks the solver for the maximum flow from the debtor to the creditor
      of edge pos: the graph it returns carries that flow over the network
      built from cur. */
  method Query(solver: Dinics, n: nat, pos: nat, ghost cur: seq<Edge>)
    returns (graph: Network, maxFlow: int, source: int, sink: int)
    requires Round(solver, n, cur) && pos < |cur|
    modifies solver, solver.level, solver.minCut
    ensures source == cur[pos].from && sink == cur[pos].to
    ensures Between(cur, n) && source != sink && EndpointsIn(cur, n)
    ensures Flowing(WithEdges(Empty(n), cur), graph, maxFlow, source, sink)
    ensures cur[pos].capacity > 0 ==> maxFlow > 0
  {
    solver.Recompute();
    var first := solver.Edges()[pos];
    DirectDebt(solver.net, cur, pos);
    solver.SetSource(first.from);
    solver.SetSink(first.to);
    graph := solver.GetGraph();
    maxFlow := solver.GetMaxFlow();
    source, sink := solver.s, solver.t;
  }

  /** A debt with a positive amount is an edge with capacity straight from
      the debtor to the creditor of the network built from the debts. */
  lemma DirectDebt(net: Network, cur: seq<Edge>, pos: nat)
    requires FlowNetwork.Valid(net) && ForwardEdges(net) == Fresh(cur) && pos < |cur|
    ensures cur[pos].capacity > 0 ==> Direct(net, cur[pos].from, cur[pos].to)
  {
    if cur[pos].capacity > 0 {
      assert ForwardEdges(net)[pos] == net.arena[2 * pos];
      DirectEdge(net, 2 * pos);
    }
  }

  /** A new solver holding the leftovers and then the consolidated debt. */
  method Reseed(n: nat, labels: seq<string>, newEdges: seq<Edge>, source: int, sink: int, maxFlow: int)
    returns (next: Dinics)
    requires |labels| == n
    requires Between(newEdges + [Edge(source, sink, maxFlow, 0)], n)
    requires NonNegative(newEdges + [Edge(source, sink, maxFlow, 0)])
    ensures fresh(next) && fresh(next.level) && fresh(next.minCut)
    ensures Round(next, n, newEdges + [Edge(source, sink, maxFlow, 0)])
  {
    ReseedFacts(n, newEdges, Edge(source, sink, maxFlow, 0));
    next := Seeded(n, labels, newEdges);
    var st := next.AddEdge(source, sink, maxFlow);
  }

  /** A new solver holding the leftovers. */
  method Seeded(n: nat, labels: seq<string>, newEdges: seq<Edge>) returns (next: Dinics)
    requires |labels| == n && EndpointsIn(newEdges, n)
    requires newEdges[..FirstNegative(newEdges)] == newEdges
    ensures fresh(next) && fresh(next.level) && fresh(next.minCut)
    ensures next.Valid() && |next.labels| == n && next.net.n == n
    ensures next.net == WithEdges(Empty(n), newEdges)
    ensures next.maxFlow == 0 && !next.solved
  {
    next := new Dinics(n, labels);
    var st := next.AddEdges(Some(newEdges));
  }

  /** What building from the leftovers and then the consolidated debt e
      needs: every addition succeeds, and the result is the network built
      from the whole list, whose edges are the list with no flow. */
  lemma ReseedFacts(n: nat, newEdges: seq<Edge>, e: Edge)
    requires Between(newEdges + [e], n) && NonNegative(newEdges + [e])
    ensures Between(newEdges, n) && NonNegative(newEdges) && EndpointsIn(newEdges, n)
    ensures EndpointsIn(newEdges + [e], n) && 0 <= e.from < n && 0 <= e.to < n && e.capacity >= 0
    ensures newEdges[..FirstNegative(newEdges)] == newEdges
    ensures WithEdges(Empty(n), newEdges + [e]) ==
            WithEdge(WithEdges(Empty(n), newEdges), e.from, e.to, e.capacity)
    ensures ForwardEdges(WithEdges(Empty(n), newEdges + [e])) == Fresh(newEdges + [e])
  {
    var cur := newEdges + [e];
    assert cur[..|cur| - 1] == newEdges && cur[|cur| - 1] == e;
    assert Between(newEdges, n) && NonNegative(newEdges);
    assert FirstNegative(newEdges) == |newEdges|;
    BuiltBetween(n, cur);
    Settle(n, cur, WithEdges(Empty(n), cur));
  }

  /** The edges of a network built from a list are the list with no flow. */
  lemma Settle(n: nat, list: seq<Edge>, net: Network)
    requires EndpointsIn(list, n) && net == WithEdges(Empty(n), list)
    ensures ForwardEdges(net) == Fresh(list)
  {
    WithEdgesForward(Empty(n), list);
    assert ForwardEdges(Empty(n)) == [];
  }

  /** Clearing the flows keeps every balance, every endpoint and every amount. */
  lemma FreshFacts(list: seq<Edge>, n: nat)
    requires Between(list, n) && NonNegative(list)
    ensures Between(Fresh(list), n) && NonNegative(Fresh(list))
    ensures forall v :: Balance(Fresh(list), v) == Balance(list, v)
  {
    BetweenSameShape(list, Fresh(list), n);
    forall v
      ensures Balance(Fresh(list), v) == Balance(list, v)
    {
      BalanceSameShape(list, Fresh(list), v);
    }
  }
}
