# Dinic's maximum flow and debt simplification, modelled in Dafny

This project models the DinicsMaxFlow repository. The repository has three parts:

- a flow-network solver base (`NetworkFlowSolverBase`). It holds edges paired with
  zero-capacity residual edges, one adjacency list per node, a flat list of the forward
  edges, a token-based visited set and a gate that runs the solve at most once until
  `recompute` clears it;
- Dinic's maximum-flow algorithm (`Dinics`). A breadth-first search builds the level
  graph. Depth-first searches with per-node cursors push a blocking flow, with dead-end
  pruning. When the sink is no longer reachable, every levelled node is marked on the
  source side of the cut;
- the debt-simplification driver (`SimplifyDebts`). Each round picks the last debt whose
  directed (debtor, creditor) pair has not been settled. It solves maximum flow from that
  debtor to that creditor. It then builds a fresh network from the leftover capacities
  plus one consolidated debt carrying the flow.

Files:

- `flow_network.dfy` (module `FlowNetwork`): edges and networks as values.
  - The residual references are replaced by an edge arena: the k-th forward edge lives at
    index 2k and its residual at 2k+1.
  - It defines edge addition, augmentation and net outflow sums, with the lemmas that
    keep a network valid.
- `dinics.dfy` (module `MaxFlow`): class `Dinics`, the solver base and Dinic's algorithm
  merged into one class.
  - Its methods update the fields in place: the network, source, sink, maxFlow, the
    `minCut`, `level` and `visited` arrays, the visited token and the solved flag.
  - It also holds the level-graph and blocking-flow predicates and lemmas.
- `debt_balance.dfy` (module `DebtBalance`): a person's balance over a list of debts.
- `leftovers.dfy` (module `Leftovers`): the leftover scan that builds the next round's
  debts, and the proof that it keeps every balance.
- `simplify_debts.dfy` (module `SimplifyDebts`): the pair key, the selection of an
  unsettled edge, and the driver loop.
- `wrappers.dfy` (module `Wrappers`): `Option`.

The main results:

- Every query runs the algorithm at most once per `Recompute`. A run leaves a valid
  network in which s sends exactly the flow added to `maxFlow` and t receives it. Every
  other node is balanced, the final level graph no longer reaches t, and the cut adds
  exactly the levelled nodes.
- Every round of debt simplification settles a pair key that was not settled before, and
  keeps each person's balance. The final debts are between distinct people, have
  non-negative amounts (positive ones when every original amount is positive) and owe
  exactly what the original debts owed. There are at most n·n rounds.
- The breadth-first search assigns every node its distance from s over edges with
  remaining capacity: a level graph in which no such edge skips a level.

## Model

| member | source | states |
|---|---|---|
| FlowNetwork.PartnerFacts | src/com/kv/main/NetworkFlowSolverBase.java:119-128 | In a valid network the partner of an edge is a different edge with reversed endpoints, whose partner is the edge itself. Their flows sum to 0, the capacity is non-negative, the remaining capacity is non-negative, and a residual edge has no capacity and as much remaining capacity as its forward edge carries flow |
| FlowNetwork.Augment | src/com/kv/main/NetworkFlowSolverBase.java:36-39 | Augmenting changes no endpoint and no capacity of any edge, only flows |
| FlowNetwork.AugmentValid | src/com/kv/main/NetworkFlowSolverBase.java:36-39 | Augmenting an edge by at most its remaining capacity keeps every forward/residual pair consistent and the network valid |
| FlowNetwork.NetOutAugment | src/com/kv/main/NetworkFlowSolverBase.java:36-39 | Augmenting edge i by b raises its tail's net outflow by b and lowers its head's by b; no other node's net outflow changes, and no outgoing capacity changes |
| FlowNetwork.NetOutAtMostCap | src/com/kv/main/Dinics.java:66-71 | When no edge carries more than its capacity, no node sends more than the capacity leaving it |
| FlowNetwork.FlowWithinCapacity | src/com/kv/main/Dinics.java:66-71 | In a valid network every edge's flow is at most its capacity |
| FlowNetwork.OutCapSameShape | src/com/kv/main/NetworkFlowSolverBase.java:36-39 | Flows do not change the capacity leaving a node |
| FlowNetwork.Empty | src/com/kv/main/NetworkFlowSolverBase.java:88-91 | The empty network has n adjacency lists, all empty, and no edges |
| FlowNetwork.EmptyValid | src/com/kv/main/NetworkFlowSolverBase.java:78-91 | A network without edges is valid |
| FlowNetwork.WithEdge | src/com/kv/main/NetworkFlowSolverBase.java:119-128 | Adding an edge appends the forward edge (capacity c, flow 0) and its residual (reversed, capacity 0, flow 0) to the arena. The forward edge's index goes to from's list and the residual's to to's list. The edge list grows by exactly the forward edge, and every other list is unchanged |
| FlowNetwork.WithEdgeValid | src/com/kv/main/NetworkFlowSolverBase.java:119-128 | Adding an edge with a non-negative capacity keeps the network valid |
| FlowNetwork.WithEdgePartitioned | src/com/kv/main/NetworkFlowSolverBase.java:125-126 | After an addition the adjacency lists still hold every arena index exactly once |
| FlowNetwork.WithEdgeWellformed | src/com/kv/main/NetworkFlowSolverBase.java:121-126 | After an addition every node still lists only edges leaving it |
| FlowNetwork.WithEdgePaired | src/com/kv/main/NetworkFlowSolverBase.java:121-124 | After an addition every forward edge is still paired with its residual |
| FlowNetwork.WithEdgesValid | src/com/kv/main/NetworkFlowSolverBase.java:105-110 | Adding a list of edges with non-negative capacities keeps the network valid |
| FlowNetwork.WithEdgesSnoc | src/com/kv/main/NetworkFlowSolverBase.java:107-109 | Adding the first k+1 edges of a list is adding the first k and then edge k |
| FlowNetwork.WithEdgesForward | src/com/kv/main/NetworkFlowSolverBase.java:127 | Adding a list grows the edge list by exactly that list, in order, with no flow |
| FlowNetwork.WithEdges | src/com/kv/main/NetworkFlowSolverBase.java:105-110 | Adding a list of edges keeps the node count and one list per node, and grows the arena by a forward/residual pair per listed edge |
| FlowNetwork.ForwardEdges | src/com/kv/main/NetworkFlowSolverBase.java:59 | The edge list holds one forward edge per forward/residual pair of the arena; FlowNetwork.WithEdgesForward states that additions append exactly the added edges, in order |
| FlowNetwork.FlatMember | src/com/kv/main/NetworkFlowSolverBase.java:125-126 | An index in the concatenated adjacency lists sits in one of the lists |
| FlowNetwork.Edge.IsResidual | src/com/kv/main/NetworkFlowSolverBase.java:28-30 | A residual edge has no capacity of its own, so what it can still carry is exactly the negated flow, the flow its forward partner carries |
| FlowNetwork.Edge.RemainingCapacity | src/com/kv/main/NetworkFlowSolverBase.java:32-34 | Capacity minus flow: positive exactly while the edge can carry more; MaxFlow.Closed, MaxFlow.Admissible and FlowNetwork.PartnerFacts state what the algorithm relies on about it |
| FlowNetwork.FirstNegative | src/com/kv/main/NetworkFlowSolverBase.java:107-120 | The additions of a list stop at the first negative capacity: every earlier edge has a non-negative one |
| MaxFlow.PathFromSource | src/com/kv/main/Dinics.java:42-58 | When the level graph reaches a node with an admissible walk to t, an admissible walk leads from s to t |
| MaxFlow.LevelPathAugment | src/com/kv/main/Dinics.java:69-72 | Augmenting a level edge creates no new admissible walk to t |
| MaxFlow.PrunedAugment | src/com/kv/main/Dinics.java:64-72 | Augmenting a level edge keeps every edge behind a cursor a dead end |
| MaxFlow.SolveStart | src/com/kv/main/Dinics.java:24-29 | A valid network with nothing pushed satisfies the flow invariant |
| MaxFlow.PhaseStart | src/com/kv/main/Dinics.java:29-30 | With cleared cursors and a level graph that reaches t, the pruning invariant holds and an admissible walk leads from s to t |
| MaxFlow.FlowingTrans | src/com/kv/main/Dinics.java:32-34 | Pushing p1 units and then p2 more pushes p1 + p2 from s to t |
| MaxFlow.MorePushed | src/com/kv/main/Dinics.java:32-33 | A search from s that pushed f keeps the network flowing with f more units. It keeps the cursors and pruning, and it finds nothing only when no admissible walk is left |
| MaxFlow.BfsStart | src/com/kv/main/Dinics.java:43-46 | Levelling only s, with s queued, satisfies the search invariant, and the one-node queue is ordered by level |
| MaxFlow.Discover | src/com/kv/main/Dinics.java:50-54 | Giving an unreached node the level after the scanned node's, and queueing it, keeps the search invariant, including the level order of the queue |
| MaxFlow.DiscoverState | src/com/kv/main/Dinics.java:51-53 | The discovered node was unreached, and its new level and queue position keep the search state |
| MaxFlow.ParentsExtend | src/com/kv/main/Dinics.java:51-52 | The newly levelled node is reached by the scanned edge from the level below |
| MaxFlow.DiscoverClosed | src/com/kv/main/Dinics.java:49-54 | After a discovery, every scanned edge with capacity still leads to a levelled node at most one level past the edge's tail |
| MaxFlow.DiscoverLayered | src/com/kv/main/Dinics.java:51-53 | Queueing a newly levelled node at the level after q[m]'s keeps the queue ordered by level, with its last node one level past q[m] |
| MaxFlow.NextLayered | src/com/kv/main/Dinics.java:47-48 | Moving the queue head past a scanned node keeps the last queued node at most one level past the new head |
| MaxFlow.Pass | src/com/kv/main/Dinics.java:50-51 | Passing over an edge without capacity, or into a levelled node, keeps the search invariant: a node already levelled is at most one level past the scanned node, because the queue is ordered by level |
| MaxFlow.ExtendClosed | src/com/kv/main/Dinics.java:49-55 | Once all of a queued node's edges are scanned, that node is closed |
| MaxFlow.BfsDone | src/com/kv/main/Dinics.java:47-57 | An exhausted queue leaves a level graph: s at 0, every other levelled node reached from the level below by an edge with capacity, and every edge with capacity from a levelled node leads to a node at most one level further |
| MaxFlow.AdvancedTrans | src/com/kv/main/Dinics.java:64-69 | Cursor moves of a nested search compose, and they leave the caller's cursor where it was |
| MaxFlow.PruneStep | src/com/kv/main/Dinics.java:64 | Advancing a cursor past a dead-end edge keeps the pruning invariant and the forward-only cursor rule |
| MaxFlow.Arrived | src/com/kv/main/Dinics.java:61 | A search at t delivers all it carries and changes nothing |
| MaxFlow.DeadEnd | src/com/kv/main/Dinics.java:64-76 | A node whose cursor has passed every edge has no admissible walk to t, and its search returns 0 with no change |
| MaxFlow.PushStep | src/com/kv/main/Dinics.java:67-72 | Augmenting the level edge by what the search from its head delivered completes a search from the tail: b units leave it and reach t, and only edges at or beyond at's level change |
| MaxFlow.Dinics.constructor | src/com/kv/main/NetworkFlowSolverBase.java:78-85 | A new solver for n nodes has no edges, n empty lists, the labels, zeroed state, no cut mark and no visited node |
| MaxFlow.Dinics.Create | src/com/kv/main/NetworkFlowSolverBase.java:94-98 | Construction succeeds exactly when there are n labels |
| MaxFlow.Dinics.Edges | src/com/kv/main/NetworkFlowSolverBase.java:170-172 | The edge list holds one forward edge per pair in the arena |
| MaxFlow.Dinics.AddEdge | src/com/kv/main/NetworkFlowSolverBase.java:119-128 | A negative capacity is rejected and leaves the network unchanged. Otherwise the network is the one with the edge and its residual added, and no other field changes |
| MaxFlow.Dinics.AddEdges | src/com/kv/main/NetworkFlowSolverBase.java:105-110 | An absent list is rejected. Otherwise the edges are added in order up to the first negative capacity, and success means the whole list was added |
| MaxFlow.Dinics.IsVisited | src/com/kv/main/NetworkFlowSolverBase.java:147-149 | While no stamp is ahead of the token, a node is visited exactly when its stamp has caught up with the token |
| MaxFlow.Dinics.Visit | src/com/kv/main/NetworkFlowSolverBase.java:142-144 | After visit(i), i is visited, no other node's status changes, and no stamp is ahead of the token |
| MaxFlow.Dinics.MarkAllNodesAsUnvisited | src/com/kv/main/NetworkFlowSolverBase.java:153-155 | One token increment leaves every node unvisited |
| MaxFlow.Dinics.SetSource | src/com/kv/main/NetworkFlowSolverBase.java:198-200 | The source becomes the given node and nothing else changes |
| MaxFlow.Dinics.SetSink | src/com/kv/main/NetworkFlowSolverBase.java:205-207 | The sink becomes the given node and nothing else changes |
| MaxFlow.Dinics.Bfs | src/com/kv/main/Dinics.java:40-58 | The level of every node is the least number of edges with remaining capacity on a walk from s, or -1 when no such walk exists: s has level 0, every other levelled node is reached by such an edge from the level just below, and every such edge from a levelled node leads to a levelled node at most one level further. The result is true exactly when t got a level |
| MaxFlow.Dinics.ScanEdges | src/com/kv/main/Dinics.java:49-55 | Scanning the edges of the queued node keeps the search invariant, closes the node, keeps the queue ordered by level from the next head, and only grows the queue |
| MaxFlow.Dinics.ScanEdge | src/com/kv/main/Dinics.java:50-54 | Scanning one edge of the queued node levels and queues its head when the edge has capacity and the head had no level, and keeps the search invariant either way |
| MaxFlow.Dinics.Dfs | src/com/kv/main/Dinics.java:60-77 | A search from at returns r in [0, flow], exactly flow when at is t. It pushes r from at to t, changing only edges at or beyond at's level. It moves cursors only forward, keeps the pruning invariant, and returns 0 only when no admissible walk leaves at |
| MaxFlow.Dinics.Solve | src/com/kv/main/Dinics.java:24-38 | The network stays valid. s sends exactly the flow added to maxFlow, t receives it, and every other node is balanced. The final level graph has level[t] = -1, and minCut keeps its old marks and adds every levelled node, s included. When an edge with remaining capacity leads straight from s to t, maxFlow strictly grows |
| MaxFlow.Dinics.Phases | src/com/kv/main/Dinics.java:29-35 | Phases run until the breadth-first search misses t, with the pushed flow accumulated in maxFlow. When an edge with remaining capacity leads straight from s to t, at least one phase runs and maxFlow strictly grows |
| MaxFlow.DirectEdge | src/com/kv/main/NetworkFlowSolverBase.java:119-128 | In a valid network every edge with remaining capacity is listed by its tail, so it leads straight from its tail to its head |
| MaxFlow.DirectReached | src/com/kv/main/Dinics.java:49-53 | A closed level graph from s levels the head of every edge with capacity leaving s |
| MaxFlow.Dinics.Phase | src/com/kv/main/Dinics.java:30-34 | A phase whose level graph reaches t strictly raises the flow out of s, and the next search reports whether t is still reachable |
| MaxFlow.Dinics.BlockingFlow | src/com/kv/main/Dinics.java:30-34 | With cleared cursors, the searches push a positive total from s to t |
| MaxFlow.Dinics.Search | src/com/kv/main/Dinics.java:32 | One search from s with INF pushes f ≥ 0 more units, and returns 0 only when no admissible walk reaches t |
| MaxFlow.Dinics.MarkCut | src/com/kv/main/Dinics.java:37 | Each cut mark becomes its old value or'ed with "the node has a level" |
| MaxFlow.Dinics.Recompute | src/com/kv/main/NetworkFlowSolverBase.java:226-228 | Only the solved flag is cleared; maxFlow and minCut keep their values |
| MaxFlow.Dinics.Execute | src/com/kv/main/NetworkFlowSolverBase.java:240-244 | If the solver was solved nothing changes. Otherwise the flag is set and the algorithm runs once, with the outcome stated for Solve |
| MaxFlow.Dinics.GetGraph | src/com/kv/main/NetworkFlowSolverBase.java:162-165 | Runs Execute, then returns the network |
| MaxFlow.Dinics.GetMaxFlow | src/com/kv/main/NetworkFlowSolverBase.java:175-178 | Runs Execute, then returns the accumulated maximum flow |
| MaxFlow.Dinics.GetMinCut | src/com/kv/main/NetworkFlowSolverBase.java:190-193 | Runs Execute, then returns the cut marks |
| MaxFlow.Dinics.MaxFlowTwice | src/com/kv/main/NetworkFlowSolverBase.java:239-244 | Two queries in a row run the algorithm at most once and return the same maximum flow |
| DebtBalance.BalanceAppend | src/com/kv/main/SimplifyDebts.java:73-77 | The balance over two lists of debts added one after the other is the sum of their balances |
| DebtBalance.BalanceSameShape | src/com/kv/main/SimplifyDebts.java:52 | The balance depends only on endpoints and amounts, not on flows |
| DebtBalance.BuiltFrom | src/com/kv/main/SimplifyDebts.java:73-77 | A network built from a list of debts has the list's balances and carries no flow |
| DebtBalance.BuiltBetween | src/com/kv/main/SimplifyDebts.java:73-77 | Building from debts between distinct people keeps every arena edge between distinct people |
| DebtBalance.BetweenSameShape | src/com/kv/main/SimplifyDebts.java:52 | Solving does not move any edge's endpoints |
| Leftovers.Leftover | src/com/kv/main/SimplifyDebts.java:57 | For an edge with non-negative flow the leftover is its remaining capacity; a residual edge with no positive flow has none left; a forward edge within its capacity leaves between 0 and its capacity |
| Leftovers.Copies | src/com/kv/main/SimplifyDebts.java:56-62 | Scanning a list of edges yields at most one copy per edge, each with a positive amount and no flow |
| Leftovers.LeftoverEdges | src/com/kv/main/SimplifyDebts.java:55-62 | The leftovers of a solved network all have positive amounts and no flow |
| Leftovers.Copy | src/com/kv/main/SimplifyDebts.java:57-62 | An edge yields at most one copy. The copy has the same endpoints, a positive amount and no flow, and a residual edge yields none |
| Leftovers.CollectLeftovers | src/com/kv/main/SimplifyDebts.java:53-64 | The scan returns the copies of every edge, node by node in adjacency order |
| Leftovers.CollectFrom | src/com/kv/main/SimplifyDebts.java:56-63 | The inner scan returns the copies of one adjacency list, in order |
| Leftovers.CopiesAppend | src/com/kv/main/SimplifyDebts.java:55-56 | Scanning two index lists one after the other yields their copies one after the other |
| Leftovers.CopiesPermutation | src/com/kv/main/SimplifyDebts.java:55-64 | Two scans of the same edges in any order yield copies with equal balances |
| Leftovers.CopiesOfPairs | src/com/kv/main/SimplifyDebts.java:57-62 | Over the first k pairs, the copies' balance is the arena's balance minus the net flow sent |
| Leftovers.PairStep | src/com/kv/main/SimplifyDebts.java:57-62 | One pair adds to the copies' balance what it adds to the arena's balance, less the flow it sends |
| Leftovers.PairCopies | src/com/kv/main/SimplifyDebts.java:57-62 | Of a pair only the forward edge is copied, with its capacity minus its flow |
| Leftovers.LeftoverBalance | src/com/kv/main/SimplifyDebts.java:55-64 | In a valid network each node's balance over the leftovers is its balance over the edges minus the net flow it sends |
| Leftovers.CopiesBetween | src/com/kv/main/SimplifyDebts.java:57-62 | Copies of edges between distinct people are between distinct people, with positive amounts and no flow |
| Leftovers.BalanceKept | src/com/kv/main/SimplifyDebts.java:57-77 | After a flow f from s to t, the leftovers plus one debt s -> t of f owe what the network owed, node by node |
| Leftovers.Rebuild | src/com/kv/main/SimplifyDebts.java:52-77 | One round's new list is between distinct people, has non-negative amounts and gives every person the old balance |
| SimplifyDebts.Key | src/com/kv/main/SimplifyDebts.java:125-127 | When the second node is below OFFSET the key decodes back to the pair: the quotient by OFFSET is the first node and the remainder the second |
| SimplifyDebts.Unsettled | src/com/kv/main/SimplifyDebts.java:111 | An edge is unsettled exactly when the key of its pair is not in the visited set, so all edges between the same two people in the same direction share that status |
| SimplifyDebts.KeyInjective | src/com/kv/main/SimplifyDebts.java:125-127 | Two pairs with a non-negative first node and a second node below OFFSET have the same key exactly when they are the same pair |
| SimplifyDebts.KeyDirected | src/com/kv/main/SimplifyDebts.java:125-127 | A pair and its reverse have different keys |
| SimplifyDebts.GridSize | src/com/kv/main/SimplifyDebts.java:125-127 | There are at most k·m keys with the first node below k and the second below m |
| SimplifyDebts.AllKeysBound | src/com/kv/main/SimplifyDebts.java:125-127 | There are at most n·n pair keys among n people |
| SimplifyDebts.InAllKeys | src/com/kv/main/SimplifyDebts.java:125-127 | Every pair of people has a key among the n·n pair keys |
| SimplifyDebts.NonVisitedEdge | src/com/kv/main/SimplifyDebts.java:107-117 | Returns none exactly when every edge's pair is settled. Otherwise it returns an in-range index whose pair is unsettled, and every later edge's pair is settled, so this is the last unsettled edge |
| SimplifyDebts.Simplify | src/com/kv/main/SimplifyDebts.java:41-78 | Fails exactly when a debt is negative. Otherwise the final debts are between distinct people, have non-negative amounts and leave every balance unchanged, and every final edge's pair is settled. When every original amount is positive, so is every final one. There are as many rounds as settled keys, all among the n·n pairs |
| SimplifyDebts.Start | src/com/kv/main/SimplifyDebts.java:31-33 | The first solver holds the debts exactly when none is negative |
| SimplifyDebts.Finished | src/com/kv/main/SimplifyDebts.java:44 | When no edge is unsettled, the solver's edges are between distinct people, have non-negative amounts (positive ones when the original amounts were) and owe what the original debts owed, and there were at most n·n rounds |
| SimplifyDebts.SimplifyRound | src/com/kv/main/SimplifyDebts.java:44-78 | One round settles the key of the chosen edge's pair, which was not settled before. The next solver's edges are the leftovers of a flow from that debtor to that creditor, followed by one debt between them carrying the flow, and every balance is kept |
| SimplifyDebts.Settled | src/com/kv/main/SimplifyDebts.java:71 | Settling a new pair adds exactly one key and strictly shrinks the set of pairs left |
| SimplifyDebts.SolvePair | src/com/kv/main/SimplifyDebts.java:46-67 | The flow from the chosen debtor to the chosen creditor, with its leftovers and one consolidated debt, keeps every balance; when the chosen debt is positive, every amount of the new list is positive |
| SimplifyDebts.Query | src/com/kv/main/SimplifyDebts.java:46-70 | After recompute, setSource, setSink and the queries, the returned graph carries the returned maximum flow from the edge's debtor to its creditor, and that flow is positive when the chosen debt is |
| SimplifyDebts.DirectDebt | src/com/kv/main/SimplifyDebts.java:48-50 | A debt with a positive amount is an edge with capacity straight from its debtor to its creditor in the network built from the debts |
| SimplifyDebts.Reseed | src/com/kv/main/SimplifyDebts.java:73-77 | The new solver holds exactly the leftovers followed by the consolidated debt, with no flow and an open gate |
| SimplifyDebts.Seeded | src/com/kv/main/SimplifyDebts.java:73-75 | A fresh solver holding the leftovers |
| SimplifyDebts.ReseedFacts | src/com/kv/main/SimplifyDebts.java:73-77 | Adding the leftovers and then the consolidated debt succeeds, and the solver's edges are the whole list with no flow |
| SimplifyDebts.Settle | src/com/kv/main/SimplifyDebts.java:73-75 | The edges of a network built from a list are that list with no flow |

## Left out

- Printing (`printEdges`, `Edge.toString`, `main`, the console output of `createGraphForDebts`) is left out. It is output only.
- The fixed transactions of `addAllTransactions` are left out. The driver takes any list of debts instead.
- The cost fields, `getMinCost` and the cost-bearing `addEdge` overload are left out. No solver here reads or computes costs.
- `getSource` and `getSink` are plain field reads. The model reads `s` and `t` directly.
- Label strings are kept only for their count.
- Arithmetic is unbounded. The 64-bit `long` of flows and capacities is not modelled, and `INF` is the constant `Long.MAX_VALUE / 2`. The pair key cannot overflow for `int` node ids.
- MaxFlow.Dinics.MarkAllNodesAsUnvisited: the token is a 32-bit `int` in the source (NetworkFlowSolverBase.java:65) and is unbounded here. After 2^32 increments the source's token wraps to a value below the existing stamps, which breaks "no stamp is ahead of the token" and can make a stale stamp count as visited; the model does not capture that wrap-around.
- Optimality is left out: the maximum-flow/minimum-cut theorem and the number of phases. The model proves the safety properties: the level graph, capacity bounds, flow conservation, the cut marks, and termination by the capacity leaving s.
- The static `visitedEdges` set is a local of `Simplify`, returned with the result.
- Helper members that break up the source's long methods are not source methods: `ScanEdges`, `ScanEdge`, `Phases`, `Phase`, `BlockingFlow`, `Search`, `MarkCut`, `CollectFrom`, `Start`, `SimplifyRound`, `SolvePair`, `Query`, `Reseed`, `Seeded`.
- SimplifyDebts.Simplify: requires every debt to be between two distinct people among n. A debt from a person to themselves with a positive amount is eventually chosen, which makes the source equal the sink; then `dfs` returns `INF` forever and the loop in `solve` never ends. The same happens to a zero-amount self-debt that is the last debt, since it is chosen first. A zero-amount self-debt that is not the last debt is never chosen: its leftover is 0, so the first rebuild drops it and the source ends normally. The requires also excludes that terminating input. An id outside [0, n) makes the source fail with an index error.
- Simplify: returns None on a negative amount, where the source throws from `addEdge`.
- MaxFlow.Dinics.Solve: requires s != t and both in range. With s == t the source's `solve` never terminates, and an out-of-range node is an index error.
- MaxFlow.Dinics.AddEdge: requires both endpoints in [0, n). The source throws an index error for an out-of-range endpoint when the capacity is not negative, and `IllegalArgumentException` when it is; the model covers neither out-of-range case.
- MaxFlow.Dinics.AddEdges: requires every listed endpoint in [0, n). That includes the entries after the first negative capacity, which the source never reads because `addEdge` throws at that entry first; an out-of-range endpoint before it is an index error in the source.
- MaxFlow.Dinics.Bfs: requires s in [0, n). The source's `bfs` fails with an index error at `level[s] = 0` otherwise.
- MaxFlow.Dinics.Edges: states only the length of the edge list. Its contents come from `FlowNetwork.WithEdgesForward`.
- MaxFlow.Dinics.Visit: requires that no stamp is ahead of the token. This invariant of the source's token scheme holds from construction, which the constructor ensures. It also requires i in [0, n); the source's `visit` fails with an index error otherwise.
