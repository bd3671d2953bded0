/**
  Dinic's maximum-flow algorithm over the network of module FlowNetwork,
  together with the solver state it runs in: the visited marks, the
  solve-once gate, the accumulated maximum flow and the minimum cut.
 */
module MaxFlow {
  import opened FlowNetwork
  import opened Wrappers

  // ---------------------------------------------------------------------
  // Level graphs

  /** An upper bound of every level; it measures how far a level-increasing
      walk can still go. */
  function Top(lv: seq<int>): (m: int)
    ensures forall i :: 0 <= i < |lv| ==> lv[i] <= m
  {
    if lv == [] then 0
    else
      var m := Top(lv[..|lv| - 1]);
      if lv[|lv| - 1] > m then lv[|lv| - 1] else m
  }

  /** Edge i goes from a level to the next one. */
  ghost predicate LevelEdge(net: Network, lv: seq<int>, i: nat)
    requires Wellformed(net) && |lv| == net.n && i < |net.arena|
  {
    lv[net.arena[i].to] == lv[net.arena[i].from] + 1
  }

  /** Edge i may carry more flow in the level graph. */
  ghost predicate Admissible(net: Network, lv: seq<int>, i: nat)
    requires Wellformed(net) && |lv| == net.n && i < |net.arena|
  {
    net.arena[i].RemainingCapacity() > 0 && LevelEdge(net, lv, i)
  }

  /** Some walk of admissible edges leads from v to t. */
  ghost predicate LevelPath(net: Network, lv: seq<int>, v: int, t: int)
    requires Wellformed(net) && |lv| == net.n && 0 <= v < net.n
    decreases Top(lv) - lv[v]
  {
    v == t ||
    exists j :: 0 <= j < |net.graph[v]| && Admissible(net, lv, net.graph[v][j]) &&
                LevelPath(net, lv, net.arena[net.graph[v][j]].to, t)
  }

  /** Edge i cannot be the first edge of an admissible walk to t. */
  ghost predicate Blocked(net: Network, lv: seq<int>, i: nat, t: int)
    requires Wellformed(net) && |lv| == net.n && i < |net.arena|
  {
    !Admissible(net, lv, i) || !LevelPath(net, lv, net.arena[i].to, t)
  }

  /** Every edge a cursor has moved past is blocked: the dead-end pruning invariant. */
  ghost predicate Pruned(net: Network, lv: seq<int>, nxt: seq<int>, t: int)
    requires Wellformed(net) && |lv| == net.n && |nxt| == net.n
  {
    forall v, j {:trigger Blocked(net, lv, net.graph[v][j], t)} ::
      0 <= v < net.n && 0 <= j < nxt[v] && j < |net.graph[v]| ==> Blocked(net, lv, net.graph[v][j], t)
  }

  /** Edge j, or its partner, is a level edge leaving a level at least d:
      only such edges can change during a search started at level d. */
  ghost predicate Touchable(net: Network, lv: seq<int>, j: nat, d: int)
    requires Valid(net) && |lv| == net.n && j < |net.arena|
  {
    PartnerFacts(net, j);
    (LevelEdge(net, lv, j) && lv[net.arena[j].from] >= d) ||
    (LevelEdge(net, lv, Partner(j)) && lv[net.arena[Partner(j)].from] >= d)
  }

  /** What the breadth-first search establishes: s has level 0, every other
      node either has level -1 or was reached from the level below through
      an edge with remaining capacity. */
  ghost predicate LevelGraph(net: Network, lv: seq<int>, s: int)
    requires Wellformed(net) && |lv| == net.n && 0 <= s < net.n
  {
    lv[s] == 0 &&
    (forall v :: 0 <= v < net.n ==> lv[v] >= -1) &&
    (forall v {:trigger HasParent(net, lv, v)} :: 0 <= v < net.n && v != s && lv[v] != -1 ==>
       lv[v] > 0 && HasParent(net, lv, v))
  }

  /** Some edge with remaining capacity reaches v from the level just below v's. */
  ghost predicate HasParent(net: Network, lv: seq<int>, v: int)
    requires Wellformed(net) && |lv| == net.n
  {
    exists u, j :: 0 <= u < net.n && 0 <= j < |net.graph[u]| &&
                   net.arena[net.graph[u][j]].to == v && Admissible(net, lv, net.graph[u][j])
  }

  /** No edge with remaining capacity leaves the reached nodes, and none
      skips a level: together with LevelGraph this makes every level the
      least number of such edges on a walk from s. */
  ghost predicate Closed(net: Network, lv: seq<int>)
    requires Wellformed(net) && |lv| == net.n
  {
    forall u, j :: 0 <= u < net.n && 0 <= j < |net.graph[u]| && lv[u] != -1 &&
                   net.arena[net.graph[u][j]].RemainingCapacity() > 0 ==>
      lv[net.arena[net.graph[u][j]].to] != -1 &&
      lv[net.arena[net.graph[u][j]].to] <= lv[u] + 1
  }

  /** A level graph that reaches t holds an admissible walk from s to t. */
  lemma {:induction false} PathFromSource(net: Network, lv: seq<int>, s: int, t: int, w: int)
    requires Wellformed(net) && |lv| == net.n && 0 <= s < net.n && 0 <= w < net.n
    requires LevelGraph(net, lv, s) && lv[w] != -1 && LevelPath(net, lv, w, t)
    ensures LevelPath(net, lv, s, t)
    decreases lv[w]
  {
    if w != s {
      assert HasParent(net, lv, w);
      var u, j :| 0 <= u < net.n && 0 <= j < |net.graph[u]| &&
                  net.arena[net.graph[u][j]].to == w && Admissible(net, lv, net.graph[u][j]);
      assert LevelPath(net, lv, u, t);
      PathFromSource(net, lv, s, t, u);
    }
  }

  /** Augmenting a level edge never creates an admissible walk. */
  lemma {:induction false} LevelPathAugment(net: Network, lv: seq<int>, i: nat, b: int, v: int, t: int)
    requires Valid(net) && |lv| == net.n && i < |net.arena| && 0 <= v < net.n && b >= 0
    requires LevelEdge(net, lv, i)
    requires Partner(i) < |net.arena|
    requires LevelPath(net.(arena := Augment(net.arena, i, b)), lv, v, t)
    ensures LevelPath(net, lv, v, t)
    decreases Top(lv) - lv[v]
  {
    var net' := net.(arena := Augment(net.arena, i, b));
    PartnerFacts(net, i);
    assert Wellformed(net');
    if v != t {
      var j :| 0 <= j < |net'.graph[v]| && Admissible(net', lv, net'.graph[v][j]) &&
               LevelPath(net', lv, net'.arena[net'.graph[v][j]].to, t);
      var e := net.graph[v][j];
      assert Admissible(net, lv, e);
      LevelPathAugment(net, lv, i, b, net.arena[e].to, t);
    }
  }

  /** Augmenting a level edge keeps every pruned edge blocked. */
  lemma {:induction false} PrunedAugment(net: Network, lv: seq<int>, nxt: seq<int>, i: nat, b: int, t: int)
    requires Valid(net) && |lv| == net.n && |nxt| == net.n && i < |net.arena| && b >= 0
    requires LevelEdge(net, lv, i) && Pruned(net, lv, nxt, t)
    requires Partner(i) < |net.arena|
    ensures Pruned(net.(arena := Augment(net.arena, i, b)), lv, nxt, t)
  {
    var net' := net.(arena := Augment(net.arena, i, b));
    PartnerFacts(net, i);
    assert Wellformed(net');
    forall v, j | 0 <= v < net.n && 0 <= j < nxt[v] && j < |net.graph[v]|
      ensures Blocked(net', lv, net'.graph[v][j], t)
    {
      var e := net.graph[v][j];
      assert Blocked(net, lv, e, t);
      if Admissible(net', lv, e) && LevelPath(net', lv, net'.arena[e].to, t) {
        assert Admissible(net, lv, e);
        LevelPathAugment(net, lv, i, b, net.arena[e].to, t);
        assert false;
      }
    }
  }

  /** The network arose from net0 by pushing `pushed` units from s to t:
      s sends that much more, t receives it, every other node passes on
      exactly what it receives, and s still sends no more than its outgoing
      capacity. */
  ghost predicate Flowing(net0: Network, net: Network, pushed: int, s: int, t: int)
  {
    Valid(net) && net.n == net0.n && net.graph == net0.graph && SameShape(net0.arena, net.arena) &&
    0 <= s < net.n && 0 <= t < net.n && 0 <= pushed &&
    NetOut(net.arena, s) == NetOut(net0.arena, s) + pushed &&
    NetOut(net.arena, t) == NetOut(net0.arena, t) - pushed &&
    (forall v :: v != s && v != t ==> NetOut(net.arena, v) == NetOut(net0.arena, v)) &&
    NetOut(net.arena, s) <= OutCap(net0.arena, s)
  }

  /** Some edge with remaining capacity leads straight from s to t. */
  ghost predicate Direct(net: Network, s: int, t: int)
  {
    0 <= s < |net.graph| &&
    exists j :: 0 <= j < |net.graph[s]| && net.graph[s][j] < |net.arena| &&
      net.arena[net.graph[s][j]].to == t && net.arena[net.graph[s][j]].RemainingCapacity() > 0
  }

  /** Every edge of the arena with remaining capacity leads straight from
      its tail to its head. */
  lemma DirectEdge(net: Network, i: nat)
    requires Valid(net) && i < |net.arena| && net.arena[i].RemainingCapacity() > 0
    ensures Direct(net, net.arena[i].from, net.arena[i].to)
  {
    assert Range(|net.arena|)[i] == i;
    assert i in multiset(Range(|net.arena|));
    assert i in multiset(Flat(net.graph));
    FlatMember(net.graph, i);
    var u, j :| 0 <= u < |net.graph| && 0 <= j < |net.graph[u]| && net.graph[u][j] == i;
    assert net.arena[net.graph[u][j]].from == u;
  }

  /** A closed level graph from s levels the head of every edge with
      capacity that leaves s. */
  lemma DirectReached(net: Network, lv: seq<int>, s: int, t: int)
    requires Wellformed(net) && |lv| == net.n && 0 <= s < net.n
    requires LevelGraph(net, lv, s) && Closed(net, lv) && Direct(net, s, t)
    ensures 0 <= t < net.n && lv[t] != -1
  {
    var j :| 0 <= j < |net.graph[s]| && net.graph[s][j] < |net.arena| &&
             net.arena[net.graph[s][j]].to == t && net.arena[net.graph[s][j]].RemainingCapacity() > 0;
  }

  /** What one run of the algorithm guarantees about the state it leaves,
      relative to the state it started from: the accumulated maximum flow
      grew by what was pushed from s to t, the final level graph no longer
      reaches t and cannot be extended, and the cut marks every node it
      reached while keeping the earlier marks. When an edge with capacity
      leads straight from s to t, the flow grew. */
  ghost predicate SolveOutcome(net0: Network, mf0: int, cut0: seq<bool>,
                               net1: Network, mf1: int, cut1: seq<bool>, lv: seq<int>,
                               s: int, t: int)
  {
    Flowing(net0, net1, mf1 - mf0, s, t) && |lv| == net1.n &&
    LevelGraph(net1, lv, s) && Closed(net1, lv) && lv[t] == -1 &&
    CutMarks(cut0, cut1, lv) && (Direct(net0, s, t) ==> mf1 > mf0)
  }

  /** cut1 keeps every mark of cut0 and adds exactly the nodes with a level. */
  ghost predicate CutMarks(cut0: seq<bool>, cut1: seq<bool>, lv: seq<int>)
  {
    |cut0| == |lv| && |cut1| == |lv| &&
    forall i :: 0 <= i < |lv| ==> cut1[i] == (cut0[i] || lv[i] != -1)
  }

  /** Pushing nothing leaves a valid network flowing. */
  lemma SolveStart(net: Network, s: int, t: int)
    requires Valid(net) && 0 <= s < net.n && 0 <= t < net.n
    ensures Flowing(net, net, 0, s, t)
  {
    FlowWithinCapacity(net);
    NetOutAtMostCap(net.arena, s);
  }

  /** At the start of a phase whose level graph reaches t, the cleared
      cursors are trivially pruned and an admissible walk leads from s to t. */
  lemma PhaseStart(net: Network, lv: seq<int>, nxt: seq<int>, s: int, t: int)
    requires Wellformed(net) && |lv| == net.n && 0 <= s < net.n && 0 <= t < net.n
    requires LevelGraph(net, lv, s) && lv[t] != -1
    requires |nxt| == net.n && forall v :: 0 <= v < net.n ==> nxt[v] == 0
    ensures Cursors(net.graph, nxt) && Pruned(net, lv, nxt, t) && LevelPath(net, lv, s, t)
  {
    assert LevelPath(net, lv, t, t);
    PathFromSource(net, lv, s, t, t);
  }

  /** Pushing p1 units and then p2 more pushes p1 + p2. */
  lemma FlowingTrans(net0: Network, net1: Network, net2: Network, p1: int, p2: int, p: int, s: int, t: int)
    requires Flowing(net0, net1, p1, s, t) && Flowing(net1, net2, p2, s, t) && p == p1 + p2
    ensures Flowing(net0, net2, p, s, t)
  {
    OutCapSameShape(net0.arena, net1.arena, s);
  }

  /** A search that pushed f more units keeps the network flowing, now with f more. */
  lemma MorePushed(net0: Network, netB: Network, net1: Network, pushed: int, lv: seq<int>,
                   nxtB: seq<int>, nxt1: seq<int>, s: int, t: int, f: int)
    requires Flowing(net0, netB, pushed, s, t) && s != t && |lv| == netB.n
    requires SearchDone(netB, net1, lv, nxtB, nxt1, s, t, INF, f)
    ensures Flowing(net0, net1, pushed + f, s, t)
    ensures Cursors(net1.graph, nxt1) && Pruned(net1, lv, nxt1, t)
    ensures NetOut(net1.arena, s) == NetOut(netB.arena, s) + f
    ensures 0 <= f && (f == 0 ==> !LevelPath(netB, lv, s, t))
  {
    FlowWithinCapacity(net1);
    NetOutAtMostCap(net1.arena, s);
    OutCapSameShape(net0.arena, net1.arena, s);
  }

  /** Edge j of u's list brought v to the level after u's. */
  ghost predicate ParentOk(net: Network, lv: seq<int>, v: int, u: int, j: int)
    requires Wellformed(net) && |lv| == net.n
  {
    0 <= u < net.n && 0 <= j < |net.graph[u]| &&
    net.arena[net.graph[u][j]].to == v && Admissible(net, lv, net.graph[u][j]) && lv[v] > 0
  }

  // ---------------------------------------------------------------------
  // The breadth-first search, step by step

  /** The state of the search: the queue holds nodes with levels, every node
      with a level is in the queue at pos[v], the nodes without a level are
      exactly `unreached`, and every reached node other than s remembers the
      edge (pu[v], pj[v]) that reached it. */
  ghost predicate BfsState(net: Network, lv: seq<int>, q: seq<int>, s: int, unreached: set<int>,
                           pu: seq<int>, pj: seq<int>, pos: seq<int>)
    requires Wellformed(net)
  {
    |lv| == net.n && |pu| == net.n && |pj| == net.n && |pos| == net.n &&
    0 <= s < net.n && lv[s] == 0 &&
    (forall k :: 0 <= k < |q| ==> 0 <= q[k] < net.n && lv[q[k]] >= 0) &&
    (forall v :: 0 <= v < net.n ==> lv[v] >= -1) &&
    (forall v {:trigger pos[v]} :: 0 <= v < net.n && lv[v] != -1 ==> 0 <= pos[v] < |q| && q[pos[v]] == v) &&
    (forall v :: 0 <= v < net.n ==> (v in unreached <==> lv[v] == -1)) &&
    (forall v :: v in unreached ==> 0 <= v < net.n) &&
    Parents(net, lv, s, pu, pj)
  }

  /** Every reached node other than s remembers the edge (pu[v], pj[v]) that reached it. */
  ghost predicate Parents(net: Network, lv: seq<int>, s: int, pu: seq<int>, pj: seq<int>)
    requires Wellformed(net) && |lv| == net.n
  {
    |pu| == net.n && |pj| == net.n &&
    forall v :: 0 <= v < net.n && v != s && lv[v] != -1 ==> ParentOk(net, lv, v, pu[v], pj[v])
  }

  /** The first m queued nodes have had all their edges scanned. */
  ghost predicate ClosedUpTo(net: Network, lv: seq<int>, q: seq<int>, m: int)
    requires Wellformed(net) && |lv| == net.n
  {
    0 <= m <= |q| && (forall k :: 0 <= k < |q| ==> 0 <= q[k] < net.n) &&
    forall k, j :: 0 <= k < m && 0 <= j < |net.graph[q[k]]| ==>
      net.arena[net.graph[q[k]][j]].RemainingCapacity() > 0 ==>
      lv[net.arena[net.graph[q[k]][j]].to] != -1 &&
      lv[net.arena[net.graph[q[k]][j]].to] <= lv[q[k]] + 1
  }

  /** The first j edges of the list, which leaves a node at level d, have
      been scanned. */
  ghost predicate ClosedPrefix(net: Network, lv: seq<int>, adj: seq<nat>, j: int, d: int)
    requires Wellformed(net) && |lv| == net.n
  {
    0 <= j <= |adj| && (forall k :: 0 <= k < |adj| ==> adj[k] < |net.arena|) &&
    forall k :: 0 <= k < j ==>
      net.arena[adj[k]].RemainingCapacity() > 0 ==>
      lv[net.arena[adj[k]].to] != -1 && lv[net.arena[adj[k]].to] <= d + 1
  }

  /** The queue is ordered by level, and its last node is at most one level
      past q[m]'s: the order in which a first-in first-out queue levels nodes. */
  ghost predicate Layered(lv: seq<int>, q: seq<int>, m: int)
  {
    0 <= m < |q| && (forall k :: 0 <= k < |q| ==> 0 <= q[k] < |lv|) &&
    (forall i, k :: 0 <= i <= k < |q| ==> lv[q[i]] <= lv[q[k]]) &&
    lv[q[|q| - 1]] <= lv[q[m]] + 1
  }

  /** A search that has levelled only s starts in a good state. */
  lemma BfsStart(net: Network, lv: seq<int>, s: int)
    returns (unreached: set<int>, pu: seq<int>, pj: seq<int>, pos: seq<int>)
    requires Wellformed(net) && |lv| == net.n && 0 <= s < net.n
    requires lv[s] == 0 && forall v :: 0 <= v < net.n && v != s ==> lv[v] == -1
    ensures BfsState(net, lv, [s], s, unreached, pu, pj, pos) && ClosedUpTo(net, lv, [s], 0)
    ensures Layered(lv, [s], 0)
  {
    forall v | 0 <= v < net.n
      ensures v in Range(net.n)
    {
      assert Range(net.n)[v] == v;
    }
    unreached := set v | v in Range(net.n) && v != s;
    pu := seq(net.n, _ => 0);
    pj := seq(net.n, _ => 0);
    pos := seq(net.n, _ => 0);
  }

  /** The search while the edges of q[m] are scanned: the first j of them
      are done, the queue only grew past its first `base` entries, and every
      newly queued node came out of `unreached`. */
  ghost predicate Scanning(net: Network, lv: seq<int>, q: seq<int>, s: int, unreached: set<int>,
                           pu: seq<int>, pj: seq<int>, pos: seq<int>, m: int, j: int)
    requires Wellformed(net)
  {
    BfsState(net, lv, q, s, unreached, pu, pj, pos) && 0 <= m < |q| && Layered(lv, q, m) &&
    ClosedUpTo(net, lv, q, m) && ClosedPrefix(net, lv, net.graph[q[m]], j, lv[q[m]])
  }

  /** Giving an unreached node the level after q[m]'s keeps the search state. */
  lemma Discover(net: Network, lv: seq<int>, q: seq<int>, s: int, unreached: set<int>,
                 pu: seq<int>, pj: seq<int>, pos: seq<int>, m: int, j: int, node: int, to: int)
    requires Wellformed(net) && Scanning(net, lv, q, s, unreached, pu, pj, pos, m, j)
    requires node == q[m] && j < |net.graph[node]| && to == net.arena[net.graph[node][j]].to
    requires net.arena[net.graph[node][j]].RemainingCapacity() > 0
    requires lv[to] == -1
    ensures 0 <= to < |lv| && 0 <= node < |lv| && to in unreached
    ensures Scanning(net, lv[to := lv[node] + 1], q + [to], s, unreached - {to},
                     pu[to := node], pj[to := j], pos[to := |q|], m, j + 1)
  {
    DiscoverState(net, lv, q, s, unreached, pu, pj, pos, node, j);
    DiscoverClosed(net, lv, q, m, j);
    DiscoverLayered(lv, q, m, to);
    assert (q + [to])[m] == node;
  }

  lemma DiscoverState(net: Network, lv: seq<int>, q: seq<int>, s: int, unreached: set<int>,
                      pu: seq<int>, pj: seq<int>, pos: seq<int>, node: int, j: int)
    requires Wellformed(net) && BfsState(net, lv, q, s, unreached, pu, pj, pos)
    requires 0 <= node < net.n && lv[node] >= 0 && 0 <= j < |net.graph[node]|
    requires net.arena[net.graph[node][j]].RemainingCapacity() > 0
    requires lv[net.arena[net.graph[node][j]].to] == -1
    ensures var to := net.arena[net.graph[node][j]].to;
            to in unreached &&
            BfsState(net, lv[to := lv[node] + 1], q + [to], s, unreached - {to},
                     pu[to := node], pj[to := j], pos[to := |q|])
  {
    ParentsExtend(net, lv, s, pu, pj, node, j);
  }

  lemma ParentsExtend(net: Network, lv: seq<int>, s: int, pu: seq<int>, pj: seq<int>, node: int, j: int)
    requires Wellformed(net) && |lv| == net.n && Parents(net, lv, s, pu, pj)
    requires 0 <= node < net.n && lv[node] >= 0 && 0 <= j < |net.graph[node]|
    requires net.arena[net.graph[node][j]].RemainingCapacity() > 0
    requires lv[net.arena[net.graph[node][j]].to] == -1
    ensures var to := net.arena[net.graph[node][j]].to;
            Parents(net, lv[to := lv[node] + 1], s, pu[to := node], pj[to := j])
  {
    var to := net.arena[net.graph[node][j]].to;
    var lv' := lv[to := lv[node] + 1];
    forall v | 0 <= v < net.n && v != s && lv'[v] != -1
      ensures ParentOk(net, lv', v, pu[to := node][v], pj[to := j][v])
    {
      if v != to {
        assert ParentOk(net, lv, v, pu[v], pj[v]);
      }
    }
  }

  lemma DiscoverClosed(net: Network, lv: seq<int>, q: seq<int>, m: int, j: int)
    requires Wellformed(net) && |lv| == net.n && 0 <= m < |q|
    requires ClosedUpTo(net, lv, q, m) && ClosedPrefix(net, lv, net.graph[q[m]], j, lv[q[m]]) && lv[q[m]] >= 0
    requires forall k :: 0 <= k < |q| ==> lv[q[k]] >= 0
    requires j < |net.graph[q[m]]|
    requires var to := net.arena[net.graph[q[m]][j]].to; 0 <= to < net.n && lv[to] == -1
    ensures var to := net.arena[net.graph[q[m]][j]].to;
            var lv' := lv[to := lv[q[m]] + 1];
            ClosedUpTo(net, lv', q + [to], m) && ClosedPrefix(net, lv', net.graph[q[m]], j + 1, lv'[q[m]])
  {
    var to := net.arena[net.graph[q[m]][j]].to;
    var lv' := lv[to := lv[q[m]] + 1];
    var q' := q + [to];
    forall k, j' | 0 <= k < m && 0 <= j' < |net.graph[q'[k]]|
      ensures net.arena[net.graph[q'[k]][j']].RemainingCapacity() > 0 ==>
              lv'[net.arena[net.graph[q'[k]][j']].to] != -1 &&
              lv'[net.arena[net.graph[q'[k]][j']].to] <= lv'[q'[k]] + 1
    {
      assert q'[k] == q[k] && q[k] != to;
    }
    assert q[m] != to;
  }

  /** Moving past a scanned node keeps the queue layered. */
  lemma NextLayered(lv: seq<int>, q: seq<int>, m: int)
    requires Layered(lv, q, m) && m + 1 < |q|
    ensures Layered(lv, q, m + 1)
  {
    assert lv[q[m]] <= lv[q[m + 1]];
  }

  /** A newly levelled node at the level after q[m]'s keeps the queue layered. */
  lemma DiscoverLayered(lv: seq<int>, q: seq<int>, m: int, to: int)
    requires Layered(lv, q, m) && 0 <= to < |lv| && lv[to] == -1
    requires forall k :: 0 <= k < |q| ==> lv[q[k]] >= 0
    ensures Layered(lv[to := lv[q[m]] + 1], q + [to], m)
  {
    var lv' := lv[to := lv[q[m]] + 1];
    var q' := q + [to];
    forall k | 0 <= k < |q|
      ensures q'[k] == q[k] && lv'[q'[k]] == lv[q[k]]
    {
      assert q[k] != to;
    }
    forall i, k | 0 <= i <= k < |q'|
      ensures lv'[q'[i]] <= lv'[q'[k]]
    {
      if k == |q| && i < |q| {
        assert lv[q[i]] <= lv[q[|q| - 1]];
      }
    }
  }

  /** Passing over an edge without capacity or into a reached node keeps the
      search state. */
  lemma Pass(net: Network, lv: seq<int>, q: seq<int>, s: int, unreached: set<int>,
             pu: seq<int>, pj: seq<int>, pos: seq<int>, m: int, j: int)
    requires Wellformed(net) && Scanning(net, lv, q, s, unreached, pu, pj, pos, m, j)
    requires j < |net.graph[q[m]]|
    requires net.arena[net.graph[q[m]][j]].RemainingCapacity() > 0 ==>
             lv[net.arena[net.graph[q[m]][j]].to] != -1
    ensures Scanning(net, lv, q, s, unreached, pu, pj, pos, m, j + 1)
  {
    var to := net.arena[net.graph[q[m]][j]].to;
    if net.arena[net.graph[q[m]][j]].RemainingCapacity() > 0 {
      var k := pos[to];
      assert q[k] == to;
      assert lv[q[k]] <= lv[q[|q| - 1]];
    }
  }

  /** Once every edge of the next queued node is scanned, one more node is closed. */
  lemma ExtendClosed(net: Network, lv: seq<int>, q: seq<int>, m: int)
    requires Wellformed(net) && |lv| == net.n && 0 <= m < |q|
    requires ClosedUpTo(net, lv, q, m)
    requires ClosedPrefix(net, lv, net.graph[q[m]], |net.graph[q[m]]|, lv[q[m]])
    ensures ClosedUpTo(net, lv, q, m + 1)
  {
  }

  /** An empty queue leaves a level graph that is closed under edges with capacity. */
  lemma BfsDone(net: Network, lv: seq<int>, q: seq<int>, s: int, unreached: set<int>,
                pu: seq<int>, pj: seq<int>, pos: seq<int>)
    requires Wellformed(net) && BfsState(net, lv, q, s, unreached, pu, pj, pos)
    requires ClosedUpTo(net, lv, q, |q|)
    ensures LevelGraph(net, lv, s) && Closed(net, lv)
  {
    forall v | 0 <= v < net.n && v != s && lv[v] != -1
      ensures HasParent(net, lv, v)
    {
      assert ParentOk(net, lv, v, pu[v], pj[v]);
    }
    forall u, j | 0 <= u < net.n && 0 <= j < |net.graph[u]| && lv[u] != -1 &&
                  net.arena[net.graph[u][j]].RemainingCapacity() > 0
      ensures lv[net.arena[net.graph[u][j]].to] != -1 && lv[net.arena[net.graph[u][j]].to] <= lv[u] + 1
    {
      var k := pos[u];
      assert q[k] == u;
    }
  }

  /** Every cursor points into or just past its node's edge list. */
  ghost predicate Cursors(graph: seq<seq<nat>>, nxt: seq<int>)
  {
    |nxt| == |graph| && forall v :: 0 <= v < |graph| ==> 0 <= nxt[v] <= |graph[v]|
  }

  /** The cursors only moved forward, and none moved at a node other than
      `at` whose level is not above at's. */
  ghost predicate Advanced(graph: seq<seq<nat>>, lv: seq<int>, nxt0: seq<int>, nxt1: seq<int>, at: int)
  {
    Cursors(graph, nxt1) && |nxt0| == |graph| && |lv| == |graph| && 0 <= at < |graph| &&
    (forall v :: 0 <= v < |graph| ==> nxt0[v] <= nxt1[v]) &&
    (forall v :: 0 <= v < |graph| && v != at && lv[v] <= lv[at] ==> nxt1[v] == nxt0[v])
  }

  lemma AdvancedTrans(graph: seq<seq<nat>>, lv: seq<int>, nxt0: seq<int>, nxt1: seq<int>, nxt2: seq<int>,
                       at: int, to: int)
    requires Advanced(graph, lv, nxt0, nxt1, at) && Advanced(graph, lv, nxt1, nxt2, to)
    requires 0 <= to < |graph| && lv[to] == lv[at] + 1
    ensures Advanced(graph, lv, nxt0, nxt2, at) && nxt2[at] == nxt1[at]
  {
  }

  /** Moving the cursor of `at` past an edge that is not admissible, or
      whose head has no admissible walk to t, keeps the pruning invariant. */
  lemma PruneStep(net: Network, lv: seq<int>, nxt0: seq<int>, nxt: seq<int>, at: int, t: int)
    requires Wellformed(net) && Advanced(net.graph, lv, nxt0, nxt, at) && Pruned(net, lv, nxt, t)
    requires nxt[at] < |net.graph[at]|
    requires var i := net.graph[at][nxt[at]];
             Admissible(net, lv, i) ==> !LevelPath(net, lv, net.arena[i].to, t)
    ensures Advanced(net.graph, lv, nxt0, nxt[at := nxt[at] + 1], at)
    ensures Pruned(net, lv, nxt[at := nxt[at] + 1], t)
  {
  }

  /** What a search from `at` that pushed r units leaves behind: a valid
      network of the same shape in which `at` sends r more units, t receives
      them, every other node is balanced as before, and only edges a search
      from level lv[at] can reach have changed. */
  ghost predicate Pushed(net0: Network, net1: Network, lv: seq<int>, at: int, t: int, r: int)
    requires Valid(net0) && |lv| == net0.n && 0 <= at < net0.n
  {
    Valid(net1) && net1.n == net0.n && net1.graph == net0.graph &&
    SameShape(net0.arena, net1.arena) &&
    (forall v :: NetOut(net1.arena, v) ==
       NetOut(net0.arena, v) + (if v == at then r else 0) - (if v == t then r else 0)) &&
    (forall j {:trigger Touchable(net0, lv, j, lv[at])} ::
       0 <= j < |net0.arena| && !Touchable(net0, lv, j, lv[at]) ==> net1.arena[j] == net0.arena[j])
  }

  /** Everything a search from `at` with at most `flow` units guarantees:
      it pushed r of them (none when at is a dead end, all of them when at
      is t), moved the cursors forward only, and kept the pruning invariant. */
  ghost predicate SearchDone(net0: Network, net1: Network, lv: seq<int>, nxt0: seq<int>, nxt1: seq<int>,
                             at: int, t: int, flow: int, r: int)
    requires Valid(net0) && |lv| == net0.n && 0 <= at < net0.n
  {
    Pushed(net0, net1, lv, at, t, r) && Advanced(net1.graph, lv, nxt0, nxt1, at) &&
    Pruned(net1, lv, nxt1, t) && 0 <= r <= flow &&
    (at == t ==> r == flow && net1 == net0) &&
    (r == 0 ==> net1 == net0 && !LevelPath(net1, lv, at, t))
  }

  /** A search that starts at t delivers all it carries. */
  lemma Arrived(net: Network, lv: seq<int>, nxt: seq<int>, t: int, flow: int)
    requires Valid(net) && |lv| == net.n && 0 <= t < net.n && flow > 0
    requires Cursors(net.graph, nxt) && Pruned(net, lv, nxt, t)
    ensures SearchDone(net, net, lv, nxt, nxt, t, t, flow, flow)
  {
  }

  /** A node whose cursor has passed every edge has no admissible walk to t,
      so a search from it pushes nothing. */
  lemma DeadEnd(net: Network, lv: seq<int>, nxt0: seq<int>, nxt: seq<int>, at: int, t: int, flow: int)
    requires Valid(net) && |lv| == net.n && 0 <= at < net.n && at != t && flow >= 0
    requires Advanced(net.graph, lv, nxt0, nxt, at) && Pruned(net, lv, nxt, t)
    requires nxt[at] == |net.graph[at]|
    ensures SearchDone(net, net, lv, nxt0, nxt, at, t, flow, 0)
  {
    forall j | 0 <= j < |net.graph[at]|
      ensures Blocked(net, lv, net.graph[at][j], t)
    {
    }
  }

  /** Pushing b units through the level edge i out of `at`, after the search
      from its head pushed them on to t, completes a search from `at`. */
  lemma PushStep(net0: Network, net1: Network, lv: seq<int>, nxt0: seq<int>, nxtMid: seq<int>, nxt: seq<int>,
                 at: int, t: int, i: nat, b: int, flow: int, sub: int)
    requires Valid(net0) && |lv| == net0.n && 0 <= at < net0.n && at != t
    requires i < |net0.arena| && net0.arena[i].from == at && LevelEdge(net0, lv, i)
    requires sub <= net0.arena[i].RemainingCapacity() && sub <= flow && 0 < b
    requires SearchDone(net0, net1, lv, nxtMid, nxt, net0.arena[i].to, t, sub, b)
    requires Advanced(net0.graph, lv, nxt0, nxt, at)
    ensures Partner(i) < |net1.arena|
    ensures SearchDone(net0, net1.(arena := Augment(net1.arena, i, b)), lv, nxt0, nxt, at, t, flow, b)
  {
    var to := net0.arena[i].to;
    PartnerFacts(net0, i);
    assert !Touchable(net0, lv, i, lv[to]);
    assert net1.arena[i] == net0.arena[i];
    AugmentValid(net1, i, b);
    PrunedAugment(net1, lv, nxt, i, b, t);
    var net2 := net1.(arena := Augment(net1.arena, i, b));
    forall v
      ensures NetOut(net2.arena, v) ==
              NetOut(net0.arena, v) + (if v == at then b else 0) - (if v == t then b else 0)
    {
      NetOutAugment(net1.arena, i, b, v);
    }
    forall j | 0 <= j < |net0.arena| && !Touchable(net0, lv, j, lv[at])
      ensures net2.arena[j] == net0.arena[j]
    {
      assert !Touchable(net0, lv, j, lv[to]);
      assert j != i && j != Partner(i);
    }
  }

  function Min(a: int, b: int): int { if a <= b then a else b }

  /** A flow solver: the network under construction, the source and sink,
      and the state of the last solve. */
  class Dinics {
    var net: Network
    var labels: seq<string>
    var s: int
    var t: int
    var maxFlow: int
    var minCut: array<bool>
    /** visited[i] == visitedToken marks node i as visited. */
    var visited: array<int>
    var visitedToken: int
    /** Set once the algorithm has run; cleared by Recompute. */
    var solved: bool
    var level: array<int>
    /** How many times the algorithm has run on this solver. */
    ghost var solveRuns: nat

    ghost predicate Valid()
      reads this
    {
      FlowNetwork.Valid(net) && |labels| == net.n &&
      minCut.Length == net.n && visited.Length == net.n && level.Length == net.n &&
      visited != level
    }

    /** No stamp is ahead of the token, so a new token unmarks every node. */
    ghost predicate Stamped()
      reads this, visited
    {
      forall i :: 0 <= i < visited.Length ==> visited[i] <= visitedToken
    }

    /** A solver for n nodes with one label each and no edges. */
    constructor (n: nat, vertexLabels: seq<string>)
      requires |vertexLabels| == n
      ensures Valid() && Stamped() && fresh(minCut) && fresh(visited) && fresh(level)
      ensures net == Empty(n) && labels == vertexLabels
      ensures s == 0 && t == 0 && maxFlow == 0 && !solved && solveRuns == 0
      ensures forall i :: 0 <= i < n ==> !minCut[i] && !IsVisited(i)
    {
      net := Empty(n);
      labels := vertexLabels;
      s, t := 0, 0;
      maxFlow := 0;
      minCut := new bool[n](_ => false);
      visited := new int[n](_ => 0);
      visitedToken := 1;
      solved := false;
      level := new int[n](_ => 0);
      solveRuns := 0;
      EmptyValid(n);
    }

    /** Construction rejects a label list whose length is not n. */
    static method Create(n: nat, vertexLabels: seq<string>) returns (r: Option<Dinics>)
      ensures r.Some? <==> |vertexLabels| == n
      ensures r.Some? ==> fresh(r.value) && fresh(r.value.minCut) && fresh(r.value.visited) &&
                          fresh(r.value.level) && r.value.Valid()
      ensures r.Some? ==> r.value.net == Empty(n) && r.value.labels == vertexLabels &&
                          r.value.maxFlow == 0 && !r.value.solved && r.value.solveRuns == 0
    {
      if |vertexLabels| != n {
        return None;
      }
      var d := new Dinics(n, vertexLabels);
      return Some(d);
    }

    /** The forward edges in insertion order. */
    function Edges(): (r: seq<Edge>)
      reads this
      ensures |r| == |net.arena| / 2
    {
      ForwardEdges(net)
    }

    /** Adds a forward edge and its residual; a negative capacity is rejected
        and leaves the network as it was. */
    method AddEdge(from: int, to: int, capacity: int) returns (r: Status)
      requires Valid() && 0 <= from < net.n && 0 <= to < net.n
      modifies this`net
      ensures Valid()
      ensures r == Success <==> capacity >= 0
      ensures net == if capacity >= 0 then WithEdge(old(net), from, to, capacity) else old(net)
      ensures maxFlow == old(maxFlow) && solved == old(solved) && labels == old(labels)
      ensures level == old(level) && minCut == old(minCut)
    {
      if capacity < 0 {
        return InvalidArgument;
      }
      WithEdgeValid(net, from, to, capacity);
      net := WithEdge(net, from, to, capacity);
      return Success;
    }

    /** Adds the edges of a list in order; an absent list is rejected, and
        the first negative capacity stops the additions there. */
    method AddEdges(edges: Option<seq<Edge>>) returns (r: Status)
      requires Valid() && (edges.Some? ==> EndpointsIn(edges.value, net.n))
      modifies this`net
      ensures Valid()
      ensures edges.None? ==> r == InvalidArgument && net == old(net)
      ensures edges.Some? ==>
        var k := FirstNegative(edges.value);
        net == WithEdges(old(net), edges.value[..k]) && (r == Success <==> k == |edges.value|)
      ensures maxFlow == old(maxFlow) && solved == old(solved) && labels == old(labels)
      ensures level == old(level) && minCut == old(minCut)
    {
      if edges.None? {
        return InvalidArgument;
      }
      var list := edges.value;
      var k := 0;
      while k < |list|
        invariant 0 <= k <= |list| && k <= FirstNegative(list)
        invariant Valid() && net.n == old(net.n)
        invariant net == WithEdges(old(net), list[..k])
      {
        WithEdgesSnoc(old(net), list, k);
        var st := AddEdge(list[k].from, list[k].to, list[k].capacity);
        if st != Success {
          assert FirstNegative(list) == k;
          return InvalidArgument;
        }
        assert FirstNegative(list) != k;
        k := k + 1;
      }
      assert list[..k] == list && FirstNegative(list) == k;
      return Success;
    }

    /** While no stamp is ahead of the token, a node is visited exactly
        when its stamp has caught up with the token. */
    predicate IsVisited(i: int): (r: bool)
      reads this, visited
      requires 0 <= i < visited.Length
      ensures Stamped() ==> (r <==> visited[i] >= visitedToken)
    {
      visited[i] == visitedToken
    }

    method Visit(i: int)
      requires Stamped() && 0 <= i < visited.Length
      modifies visited
      ensures Stamped() && IsVisited(i)
      ensures forall j :: 0 <= j < visited.Length && j != i ==> IsVisited(j) == old(IsVisited(j))
    {
      visited[i] := visitedToken;
    }

    /** Unmarks every node at once by moving to a new token. */
    method MarkAllNodesAsUnvisited()
      requires Stamped()
      modifies this`visitedToken
      ensures Stamped() && visitedToken == old(visitedToken) + 1
      ensures forall j :: 0 <= j < visited.Length ==> !IsVisited(j)
    {
      visitedToken := visitedToken + 1;
    }

    method SetSource(source: int)
      modifies this`s
      ensures s == source
    {
      s := source;
    }

    method SetSink(sink: int)
      modifies this`t
      ensures t == sink
    {
      t := sink;
    }

    /** Breadth-first search over edges with remaining capacity: gives every
        node its least number of such edges from s (-1 when s does not reach
        it) and reports whether t was reached. */
    method Bfs() returns (r: bool)
      requires Valid() && 0 <= s < net.n
      modifies level
      ensures Valid()
      ensures LevelGraph(net, level[..], s) && Closed(net, level[..])
      ensures 0 <= t < net.n ==> (r <==> level[t] != -1)
    {
      var n := net.n;
      assert Wellformed(net) && level.Length == n;
      forall i | 0 <= i < level.Length {
        level[i] := -1;
      }
      level[s] := 0;
      var q := [s];
      var head := 0;
      ghost var unreached, pu, pj, pos := BfsStart(net, level[..], s);
      while head < |q|
        invariant 0 <= head <= |q|
        invariant BfsState(net, level[..], q, s, unreached, pu, pj, pos)
        invariant ClosedUpTo(net, level[..], q, head)
        invariant head < |q| ==> Layered(level[..], q, head)
        decreases |unreached| + |q| - head
      {
        var node := q[head];
        q, unreached, pu, pj, pos := ScanEdges(node, q, head, unreached, pu, pj, pos);
        head := head + 1;
      }
      BfsDone(net, level[..], q, s, unreached, pu, pj, pos);
      r := 0 <= t < n && level[t] != -1;
    }

    /** Scans the edges leaving the queued node q[m]: every edge with
        remaining capacity into a node without a level gives that node the
        next level and appends it to the queue. */
    method ScanEdges(node: int, q: seq<int>, m: int, ghost unreached: set<int>,
                     ghost pu: seq<int>, ghost pj: seq<int>, ghost pos: seq<int>)
      returns (q': seq<int>, ghost unreached': set<int>,
               ghost pu': seq<int>, ghost pj': seq<int>, ghost pos': seq<int>)
      requires Wellformed(net) && level.Length == net.n
      requires Scanning(net, level[..], q, s, unreached, pu, pj, pos, m, 0) && q[m] == node
      modifies level
      ensures BfsState(net, level[..], q', s, unreached', pu', pj', pos')
      ensures ClosedUpTo(net, level[..], q', m + 1)
      ensures m + 1 < |q'| ==> Layered(level[..], q', m + 1)
      ensures |q| <= |q'|
      ensures |unreached'| + |q'| == |unreached| + |q|
    {
      var adj := net.graph[node];
      q', unreached', pu', pj', pos' := q, unreached, pu, pj, pos;
      var j := 0;
      while j < |adj|
        invariant 0 <= j <= |adj| && |q| <= |q'| && 0 <= m < |q'| && q'[m] == node
        invariant Scanning(net, level[..], q', s, unreached', pu', pj', pos', m, j)
        invariant |unreached'| + |q'| == |unreached| + |q|
        invariant level.Length == net.n
      {
        q', unreached', pu', pj', pos' := ScanEdge(node, j, q', m, unreached', pu', pj', pos');
        j := j + 1;
      }
      ExtendClosed(net, level[..], q', m);
      if m + 1 < |q'| {
        NextLayered(level[..], q', m);
      }
    }

    /** Scans edge j of the queued node q[m]: an edge with remaining capacity
        into a node without a level gives that node the next level and
        appends it to the queue. */
    method ScanEdge(node: int, j: int, q: seq<int>, m: int, ghost unreached: set<int>,
                    ghost pu: seq<int>, ghost pj: seq<int>, ghost pos: seq<int>)
      returns (q': seq<int>, ghost unreached': set<int>,
               ghost pu': seq<int>, ghost pj': seq<int>, ghost pos': seq<int>)
      requires Wellformed(net) && level.Length == net.n
      requires Scanning(net, level[..], q, s, unreached, pu, pj, pos, m, j) && q[m] == node
      requires j < |net.graph[node]|
      modifies level
      ensures Scanning(net, level[..], q', s, unreached', pu', pj', pos', m, j + 1)
      ensures |q| <= |q'| && q'[m] == node
      ensures |unreached'| + |q'| == |unreached| + |q|
    {
      var edge := net.arena[net.graph[node][j]];
      ghost var lv := level[..];
      if edge.RemainingCapacity() > 0 && level[edge.to] == -1 {
        var to := edge.to;
        Discover(net, lv, q, s, unreached, pu, pj, pos, m, j, node, to);
        level[to] := level[node] + 1;
        assert level[..] == lv[to := lv[node] + 1];
        q', unreached' := q + [to], unreached - {to};
        pu', pj', pos' := pu[to := node], pj[to := j], pos[to := |q|];
      } else {
        Pass(net, lv, q, s, unreached, pu, pj, pos, m, j);
        q', unreached', pu', pj', pos' := q, unreached, pu, pj, pos;
      }
    }

    /** Depth-first search for an augmenting walk from `at` to t along
        admissible edges that carries at most `flow`. The cursor next[at]
        skips the edges already found to be dead ends for the rest of the
        phase. The result is the bottleneck pushed along the walk, or 0 when
        no admissible walk leaves `at`. */
    method Dfs(at: int, next: array<int>, flow: int) returns (r: int)
      requires FlowNetwork.Valid(net) && level.Length == net.n && next != level
      requires 0 <= at < net.n && 0 <= t < net.n && flow > 0
      requires Cursors(net.graph, next[..]) && Pruned(net, level[..], next[..], t)
      modifies this`net, next
      decreases Top(level[..]) - level[at]
      ensures SearchDone(old(net), net, level[..], old(next[..]), next[..], at, t, flow, r)
    {
      ghost var lv := level[..];
      if at == t {
        Arrived(net, lv, next[..], t, flow);
        return flow;
      }
      var numEdges := |net.graph[at]|;
      while next[at] < numEdges
        invariant net == old(net)
        invariant Advanced(net.graph, lv, old(next[..]), next[..], at)
        invariant Pruned(net, lv, next[..], t)
        decreases numEdges - next[at]
      {
        var i := net.graph[at][next[at]];
        var edge := net.arena[i];
        var cap := edge.RemainingCapacity();
        if cap > 0 && level[edge.to] == level[at] + 1 {
          ghost var before := next[..];
          var sub := Min(flow, cap);
          var b := Dfs(edge.to, next, sub);
          assert level[..] == lv;
          AdvancedTrans(net.graph, lv, old(next[..]), before, next[..], at, edge.to);
          if b > 0 {
            PushStep(old(net), net, lv, old(next[..]), before, next[..], at, t, i, b, flow, sub);
            net := net.(arena := Augment(net.arena, i, b));
            return b;
          }
        }
        ghost var before := next[..];
        next[at] := next[at] + 1;
        assert next[..] == before[at := before[at] + 1];
        PruneStep(net, lv, old(next[..]), before, at, t);
      }
      DeadEnd(net, lv, old(next[..]), next[..], at, t, flow);
      return 0;
    }

    /** Dinic's algorithm: phase after phase, a breadth-first search builds
        the level graph and repeated depth-first searches push a blocking
        flow through it, until t is no longer reachable; then every node the
        last search reached joins the source side of the cut. */
    method Solve()
      requires Valid() && 0 <= s < net.n && 0 <= t < net.n && s != t
      modifies this`net, this`maxFlow, level, minCut
      ensures Valid()
      ensures SolveOutcome(old(net), old(maxFlow), old(minCut[..]), net, maxFlow, minCut[..], level[..], s, t)
    {
      var next := new int[net.n];
      Phases(next);
      ghost var lv := level[..];
      MarkCut();
      assert level[..] == lv;
    }

    /** Repeats a phase for as long as the breadth-first search reaches t. */
    method Phases(next: array<int>)
      requires Valid() && next.Length == net.n && next != level
      requires 0 <= s < net.n && 0 <= t < net.n && s != t
      modifies this`net, this`maxFlow, level, next
      ensures Valid() && Flowing(old(net), net, maxFlow - old(maxFlow), s, t)
      ensures LevelGraph(net, level[..], s) && Closed(net, level[..]) && level[t] == -1
      ensures Direct(old(net), s, t) ==> maxFlow > old(maxFlow)
    {
      ghost var net0 := net;
      ghost var mf0 := maxFlow;
      ghost var cap := OutCap(net0.arena, s);
      SolveStart(net0, s, t);
      var more := Bfs();
      if Direct(net0, s, t) {
        DirectReached(net, level[..], s, t);
      }
      while more
        invariant Valid() && next.Length == net.n && next != level
        invariant Flowing(net0, net, maxFlow - mf0, s, t)
        invariant LevelGraph(net, level[..], s) && Closed(net, level[..])
        invariant more <==> level[t] != -1
        invariant Direct(net0, s, t) ==> more || maxFlow > mf0
        decreases cap - NetOut(net.arena, s) + (if more then 1 else 0)
      {
        more := Phase(next, net0, mf0);
      }
    }

    /** One phase of the algorithm: a blocking flow along the current level
        graph, then a new breadth-first search. Since net0, with mf0
        accumulated, the network keeps flowing and s sends strictly more. */
    method Phase(next: array<int>, ghost net0: Network, ghost mf0: int) returns (more: bool)
      requires Valid() && next.Length == net.n && next != level
      requires 0 <= s < net.n && 0 <= t < net.n && s != t
      requires Flowing(net0, net, maxFlow - mf0, s, t)
      requires LevelGraph(net, level[..], s) && level[t] != -1
      modifies this`net, this`maxFlow, level, next
      ensures Valid() && Flowing(net0, net, maxFlow - mf0, s, t)
      ensures NetOut(net.arena, s) > NetOut(old(net).arena, s)
      ensures LevelGraph(net, level[..], s) && Closed(net, level[..])
      ensures more <==> level[t] != -1
    {
      var pushed := BlockingFlow(next);
      FlowingTrans(net0, old(net), net, maxFlow - mf0, pushed, maxFlow + pushed - mf0, s, t);
      maxFlow := maxFlow + pushed;
      more := Bfs();
    }

    /** One phase: clears the cursors and pushes flow from s along the level
        graph until a search finds no more. */
    method BlockingFlow(next: array<int>) returns (sum: int)
      requires FlowNetwork.Valid(net) && level.Length == net.n && next.Length == net.n && next != level
      requires 0 <= s < net.n && 0 <= t < net.n && s != t
      requires LevelGraph(net, level[..], s) && level[t] != -1
      modifies this`net, next
      ensures Flowing(old(net), net, sum, s, t) && sum > 0
    {
      ghost var lv := level[..];
      forall i | 0 <= i < next.Length {
        next[i] := 0;
      }
      assert level[..] == lv;
      ghost var netP := net;
      SolveStart(netP, s, t);
      PhaseStart(net, level[..], next[..], s, t);
      ghost var pushed := 0;
      var f := Search(next, netP, pushed);
      pushed := pushed + f;
      sum := 0;
      while f != 0
        invariant level.Length == net.n && next.Length == net.n
        invariant Flowing(netP, net, pushed, s, t) && pushed == sum + f
        invariant Cursors(net.graph, next[..]) && Pruned(net, level[..], next[..], t)
        invariant 0 <= f && pushed > 0
        decreases OutCap(netP.arena, s) - NetOut(netP.arena, s) - pushed + (if f > 0 then 1 else 0)
      {
        sum := sum + f;
        f := Search(next, netP, pushed);
        pushed := pushed + f;
      }
    }

    /** One search from s with unbounded flow, on top of `pushed` units
        already pushed since netP; it finds nothing only when no admissible
        walk reaches t any more. */
    method Search(next: array<int>, ghost netP: Network, ghost pushed: int) returns (f: int)
      requires level.Length == net.n && next.Length == net.n && next != level && s != t
      requires Flowing(netP, net, pushed, s, t)
      requires Cursors(net.graph, next[..]) && Pruned(net, level[..], next[..], t)
      modifies this`net, next
      ensures Flowing(netP, net, pushed + f, s, t)
      ensures Cursors(net.graph, next[..]) && Pruned(net, level[..], next[..], t)
      ensures 0 <= f && (f == 0 ==> !LevelPath(old(net), level[..], s, t))
    {
      f := Dfs(s, next, INF);
      MorePushed(netP, old(net), net, pushed, level[..], old(next[..]), next[..], s, t, f);
    }

    /** Marks every node the last search reached as being on the source side. */
    method MarkCut()
      requires Valid()
      modifies minCut
      ensures CutMarks(old(minCut[..]), minCut[..], level[..])
    {
      for i := 0 to minCut.Length
        invariant forall j :: 0 <= j < i ==> minCut[j] == (old(minCut[j]) || level[j] != -1)
        invariant forall j :: i <= j < minCut.Length ==> minCut[j] == old(minCut[j])
      {
        if level[i] != -1 {
          minCut[i] := true;
        }
      }
    }

    /** Clears the gate so that the next query runs the algorithm again. */
    method Recompute()
      modifies this`solved
      ensures !solved
    {
      solved := false;
    }

    /** The state after a query, relative to the state before it: if the
        algorithm had already run nothing changed, otherwise it ran once
        more and its outcome holds. */
    ghost predicate Executed(net0: Network, mf0: int, cut0: seq<bool>, solved0: bool, runs0: nat)
      reads this, minCut, level
    {
      Valid() && solved &&
      (solved0 ==> net == net0 && maxFlow == mf0 && minCut[..] == cut0 && solveRuns == runs0) &&
      (!solved0 ==> solveRuns == runs0 + 1 &&
                    SolveOutcome(net0, mf0, cut0, net, maxFlow, minCut[..], level[..], s, t))
    }

    /** Runs the algorithm unless it already ran since construction or the
        last Recompute; the gate is closed before the run. */
    method Execute()
      requires Valid() && (!solved ==> 0 <= s < net.n && 0 <= t < net.n && s != t)
      modifies this`net, this`maxFlow, this`solved, this`solveRuns, level, minCut
      ensures Executed(old(net), old(maxFlow), old(minCut[..]), old(solved), old(solveRuns))
    {
      if solved {
        return;
      }
      solved := true;
      solveRuns := solveRuns + 1;
      Solve();
    }

    /** The network with the flows of the (at most once) solved instance. */
    method GetGraph() returns (r: Network)
      requires Valid() && (!solved ==> 0 <= s < net.n && 0 <= t < net.n && s != t)
      modifies this`net, this`maxFlow, this`solved, this`solveRuns, level, minCut
      ensures Executed(old(net), old(maxFlow), old(minCut[..]), old(solved), old(solveRuns))
      ensures r == net
    {
      Execute();
      r := net;
    }

    /** The accumulated maximum flow. */
    method GetMaxFlow() returns (r: int)
      requires Valid() && (!solved ==> 0 <= s < net.n && 0 <= t < net.n && s != t)
      modifies this`net, this`maxFlow, this`solved, this`solveRuns, level, minCut
      ensures Executed(old(net), old(maxFlow), old(minCut[..]), old(solved), old(solveRuns))
      ensures r == maxFlow
    {
      Execute();
      r := maxFlow;
    }

    /** The cut marks: true for the nodes on the source side. */
    method GetMinCut() returns (r: array<bool>)
      requires Valid() && (!solved ==> 0 <= s < net.n && 0 <= t < net.n && s != t)
      modifies this`net, this`maxFlow, this`solved, this`solveRuns, level, minCut
      ensures Executed(old(net), old(maxFlow), old(minCut[..]), old(solved), old(solveRuns))
      ensures r == minCut
    {
      Execute();
      r := minCut;
    }

    /** Two queries in a row run the algorithm at most once and report the
        same maximum flow. */
    method MaxFlowTwice() returns (a: int, b: int)
      requires Valid() && (!solved ==> 0 <= s < net.n && 0 <= t < net.n && s != t)
      modifies this`net, this`maxFlow, this`solved, this`solveRuns, level, minCut
      ensures solved && solveRuns <= old(solveRuns) + 1 && a == b
    {
      a := GetMaxFlow();
      b := GetMaxFlow();
    }
  }
}
