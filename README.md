# Probabilistic Packet Marking traceback, modelled in Dafny

This project models the core of a simulator for IP traceback by Probabilistic
Packet Marking (PPM). Attack packets travel from a leaf of a router tree to a
victim at its root (node 0). On the way, routers mark them at random. From the
marks it receives, the victim tries to tell which leaf the attack comes from.
Two marking schemes are modelled:

- **Node sampling.** Each packet carries one router id. Every router overwrites
  it with probability `p`, so the last write wins. The victim ranks routers by
  how often it saw them. It then walks the subtree of the rarest router and
  picks a leaf, preferring an observed one. A two-attacker variant does this
  once per branch of the tree.
- **Edge sampling.** Each packet carries `(start, end, distance)`. A marking
  router starts a new edge. The next router fills in `end` if `distance` is
  still 0. Every non-marking router increments `distance`. The victim:
  - buckets the edges by distance;
  - chains them outward from the victim, taking the smallest id on ties;
  - can build the graph of all observed edges, whose in-degree-zero nodes are
    the suspected attackers.

Around the two schemes sit the other parts of the core:

- **The trial driver.** It sends normal and attack traffic tick by tick.
  After every attack packet it re-runs both reconstructions. It latches the
  attack-packet count at which each one first names the attacker, and stops
  when both have converged or the packet budget is spent.
- **Host selection.** It places at most one attacker per branch, and picks
  normal users among the other leaves.
- **The topology.** This covers the edge-list reader and the structural
  checks a topology must pass.

Randomness is an input. `rng.random() < p` becomes a coin stream (`iset<nat>`):
the `k`-th draw marks exactly when `k` is in the set. `rng.shuffle` and
`rng.choice` become a stream of `_randbelow` results (`nat -> nat`), used the
way CPython's Fisher–Yates shuffle and `choice` use them. Each sampler object
keeps its stream and a draw position `pos` as fields. `forward` advances `pos`
by one per router on the path.

Modules:

- `Wrappers`: `Option`, `Result`, `Outcome`.
- `Seqs`: sequence helpers, including a stable sort and first-occurrence
  `Distinct`.
- `Graphs`: the part of a networkx `DiGraph` that is used.
- `Topology`: the tree, with parent and depth maps, and its queries.
- `NodeSampling`, `EdgeSampling`: the two schemes.
- `Random`: the shuffle and choice, driven by draws.
- `Ppm`: host selection.
- `Experiment`: the trial driver.
- `TopologyFile`: the reader.
- `TopologyCheck`: `validate_tree_topology`.

Where the design description of the system and its code differ, the model
follows the code:

- **The node scheme's leaf pick.** `node_guess_attacker_leaf` falls back to
  the first leaf in depth-first stack order, not to the smallest id.
- **Edge sampling's `end` field.** A new mark leaves a previous `end` in
  place. `EdgeSampling.MarkKeepsEnd` and `EdgeSampling.StaleEndExample` pin
  this choice.
- **Convergence.** It is counted in attack packets, not in ticks.
- **The trial's edge guess.** It is the head of the rebuilt chain, not a node
  of the observed-edge graph.
- **Pruning.** The observed-edge graph is never pruned.
- **Too few normal users.** `choose_hosts` does not fail when there are too
  few leaves for the normal users asked for. The list is then shorter.

## Model

| member | source | states |
|---|---|---|
| Graphs.AddNode | ppm_traceback/src/edge_sampling.py:107 | `add_node` keeps the graph well formed, adds exactly the node to the node set, leaves the edge set alone and keeps existing nodes in order |
| Graphs.AddEdge | ppm_traceback/src/topology.py:32 | `add_edge(u, v)` keeps the graph well formed, adds exactly `u` and `v` to the node set and exactly `(u, v)` to the edge set, and keeps existing nodes in order |
| Graphs.AddEdgeIdempotent | ppm_traceback/src/topology.py:31-32 | adding the same edge twice gives the same graph as adding it once |
| Graphs.PredsIn | ppm_traceback/src/topology.py:51 | `u` is in the result exactly when `u` is one of the given nodes with an edge to `n` |
| Graphs.InDegree | ppm_traceback/src/edge_sampling.py:118 | `in_degree(n)` is 0 exactly when no node has `n` among its successors |
| Topology.PathToVictim | ppm_traceback/src/node_sampling.py:38 | `path_leaf_to_victim`: as many routers as the node's depth, starting at the node, each the parent's child of the one before, the last one a child of the victim (victim excluded) |
| Topology.Leaves | ppm_traceback/src/ppm.py:24 | `leaves(G)`: each leaf listed once, and `n` is listed exactly when it is a non-victim node without successors |
| Topology.LeavesIn | ppm_traceback/src/ppm.py:24 | the leaves among given nodes, exactly, without repeats when the nodes have none |
| Topology.BranchRootOf | ppm_traceback/src/ppm.py:27 | `branch_root_of`: the result is a router whose parent is the victim |
| Topology.BranchRootOfInSubtree | ppm_traceback/src/node_sampling.py:90 | a router lies in the subtree of its branch root, and the branch root is a child of the victim |
| Topology.SameBranch | ppm_traceback/src/node_sampling.py:90 | every node in the subtree of a router has that router's branch root |
| Topology.BranchRoots | ppm_traceback/src/node_sampling.py:89-90 | the branch root of every element, position by position |
| Topology.InBranch | ppm_traceback/src/node_sampling.py:88-90 | exactly the elements under branch `b`, no more of them than there are elements |
| Topology.GroupsOfSpec | ppm_traceback/src/node_sampling.py:88-90 | `by_branch` has a key exactly for each branch some element lies under, each mapped to its elements in order, never empty |
| Topology.InBranchNone | ppm_traceback/src/node_sampling.py:88-90 | a branch that no element lies under collects nothing |
| Topology.GroupByBranch | ppm_traceback/src/node_sampling.py:88-90 | the `setdefault(...).append` loop: keys in first-seen order and the groups `GroupsOf` defines |
| Topology.BranchesStep | ppm_traceback/src/node_sampling.py:89-90 | one more element adds its branch to the keys exactly when that branch is new |
| Topology.GroupsStep | ppm_traceback/src/node_sampling.py:89-90 | one more element is appended to its own branch's group, which is created if missing |
| Topology.Sinks | ppm_traceback/src/node_sampling.py:66-67 | exactly the walked nodes without successors |
| Topology.SinksAppend | ppm_traceback/src/node_sampling.py:66-67 | collecting leaves distributes over concatenated walks |
| Topology.WalkBelow | ppm_traceback/src/node_sampling.py:63-69 | a node the walk from `u` pops after `u` is popped from the stack of `u`'s successors |
| Topology.StackWalkAppend | ppm_traceback/src/node_sampling.py:63-69 | a stack `a + b` pops all of `b`'s walk before `a`'s (top of stack at the end) |
| Topology.SubtreeWalkSound | ppm_traceback/src/node_sampling.py:61-69 | every node the stack walk from `u` pops lies in the subtree of `u` |
| Topology.SubtreeWalkComplete | ppm_traceback/src/node_sampling.py:61-69 | every node of the subtree of `u` is popped by the stack walk from `u` |
| Topology.SubtreeWalkHasSink | ppm_traceback/src/node_sampling.py:71-72 | the walk always collects at least one leaf, so the `return farthest` branch is never taken on a tree |
| NodeSampling.NodeMarkNone | ppm_traceback/src/node_sampling.py:37-41 | the packet stays unmarked exactly when no draw along the path marks |
| NodeSampling.NodeMarkLast | ppm_traceback/src/node_sampling.py:37-41 | when router `i` marks and none after it does, the packet carries router `i` (last write wins) |
| NodeSampling.NodeMarkOnPath | ppm_traceback/src/node_sampling.py:38-40 | a mark is always a router of the path |
| NodeSampling.NodeMarkStep | ppm_traceback/src/node_sampling.py:38-40 | one router consumes one draw, overwriting the mark exactly when that draw marks |
| NodeSampling.NodeSampler.constructor | ppm_traceback/src/node_sampling.py:30-32 | a sampler starts at draw 0 of its coin stream |
| NodeSampling.NodeSampler.Forward | ppm_traceback/src/node_sampling.py:34-41 | consumes exactly one draw per router of the path, in order, and returns the mark `NodeMark` gives for those draws |
| NodeSampling.ReconstructOrderElements | ppm_traceback/src/node_sampling.py:48 | `node_reconstruct_order` lists each observed router exactly once and nothing else |
| NodeSampling.ReconstructOrderByCount | ppm_traceback/src/node_sampling.py:48 | routers appear by non-increasing count |
| NodeSampling.ReconstructOrderTies | ppm_traceback/src/node_sampling.py:48 | routers with equal counts keep the order of their first observation, as `most_common` does |
| NodeSampling.KeepIn | ppm_traceback/src/node_sampling.py:76-77 | `seen`: exactly the leaves that were observed, the first of them preceded by no observed leaf |
| NodeSampling.WalkKids | ppm_traceback/src/node_sampling.py:63-69 | popping a node with successors pushes them all |
| NodeSampling.WalkPop | ppm_traceback/src/node_sampling.py:63-64 | the stack pops its last element first |
| NodeSampling.WalkStep | ppm_traceback/src/node_sampling.py:63-69 | one iteration of the `while stack` loop: pop the top, push its successors |
| NodeSampling.GuessAttackerLeaf | ppm_traceback/src/node_sampling.py:50-81 | the stack loop and the final choice compute `GuessLeaf` |
| NodeSampling.GuessLeafSound | ppm_traceback/src/node_sampling.py:58-81 | with observations, the guess is a node without successors in the subtree of the rarest router |
| NodeSampling.GuessLeafPrefersObserved | ppm_traceback/src/node_sampling.py:75-79 | the guess is an observed node exactly when some leaf of that subtree was observed |
| NodeSampling.GuessLeafFirstObserved | ppm_traceback/src/node_sampling.py:75-79 | an observed guess is the first observed leaf in the walk's order |
| NodeSampling.LeafPerBranchAdd | ppm_traceback/src/node_sampling.py:95-96 | appending a leaf of a branch not yet visited keeps one distinct leaf per branch |
| NodeSampling.GuessTwoAttackers | ppm_traceback/src/node_sampling.py:83-100 | `node_guess_two_attackers`: distinct leaves, each under an observed branch, no two under one branch; the `i`-th guess is `node_guess_attacker_leaf` on the marks of the `i`-th branch in order of most marks first; there are exactly `min(max(max_attackers, 1), number of observed branches)` of them, since on a tree every visited branch yields a nonzero new leaf |
| NodeSampling.GuessInBranch | ppm_traceback/src/node_sampling.py:93-94 | the branch visited `k`-th was not visited before; its guess is `node_guess_attacker_leaf` on the marks under that branch, is never 0, and is a leaf under that branch |
| NodeSampling.LeafPerBranchWithin | ppm_traceback/src/node_sampling.py:93-98 | guesses valid for the visited prefix of the sorted branches are valid for all of them |
| NodeSampling.VisitedBranch | ppm_traceback/src/node_sampling.py:93 | sorting the branches by group size visits each observed branch once |
| NodeSampling.GroupLast | ppm_traceback/src/node_sampling.py:94 | the rarest router of a branch's group lies under that branch |
| NodeSampling.GroupOf | ppm_traceback/src/node_sampling.py:88-90 | each visited branch has a non-empty group: its observations in order |
| EdgeSampling.EdgeRunStep | ppm_traceback/src/edge_sampling.py:50-57 | one router consumes one draw and applies the start / end / distance update |
| EdgeSampling.EdgeRunNoMark | ppm_traceback/src/edge_sampling.py:49-58 | with no mark, `start` stays `None`, `distance` is the path length, and `end` is the first router |
| EdgeSampling.EdgeRunLastMark | ppm_traceback/src/edge_sampling.py:51-57 | `start` is the last marking router, `distance` counts the routers after it, and `end` is the router right after it when there is one |
| EdgeSampling.EdgeRunStartSet | ppm_traceback/src/edge_sampling.py:49-58 | `start` is `None` exactly when no router marked |
| EdgeSampling.MarkKeepsEnd | ppm_traceback/src/edge_sampling.py:51-53 | starting a mark resets `start` and `distance` but keeps `end` |
| EdgeSampling.StaleEndExample | ppm_traceback/src/edge_sampling.py:51-56 | a concrete packet with `distance == 0` that carries a stale `end` |
| EdgeSampling.EdgeSampler.constructor | ppm_traceback/src/edge_sampling.py:40-42 | a sampler starts at draw 0 of its coin stream |
| EdgeSampling.EdgeSampler.Forward | ppm_traceback/src/edge_sampling.py:44-58 | consumes one draw per router of the path and returns the packet `EdgeRun` gives |
| EdgeSampling.BucketsSpec | ppm_traceback/src/edge_sampling.py:64-75 | edge `e` is in bucket `d` exactly when some sample yields `(d, e)`; every bucket is non-empty |
| EdgeSampling.EdgesByDistance | ppm_traceback/src/edge_sampling.py:60-75 | the `defaultdict(set)` loop computes `Buckets`, which drops unmarked and end-less samples and maps distance 0 to `(start, victim)` |
| EdgeSampling.MinOf | ppm_traceback/src/edge_sampling.py:95 | the smallest element of a non-empty set |
| EdgeSampling.Smallest | ppm_traceback/src/edge_sampling.py:95 | `sorted(candidates)[0]` is the smallest candidate |
| EdgeSampling.MinUnique | ppm_traceback/src/edge_sampling.py:95 | an element no larger than any other is the minimum |
| EdgeSampling.KeysFromShrink | ppm_traceback/src/edge_sampling.py:90-97 | each iteration leaves fewer bucket keys ahead, so `while d in by_d` terminates |
| EdgeSampling.ChainSpec | ppm_traceback/src/edge_sampling.py:88-97 | each chained router is the smallest start of an edge at the next distance into the previous one; the walk stops where no such edge exists; the chain is no longer than the run of consecutive keys |
| EdgeSampling.ChainUnique | ppm_traceback/src/edge_sampling.py:88-97 | any chain with those properties is the one computed |
| EdgeSampling.FullChainSpec | ppm_traceback/src/edge_sampling.py:82-97 | empty exactly when bucket 0 is absent or empty; otherwise it starts at the smallest start in bucket 0, links each step by the smallest candidate, stops where no candidate exists, and has at most 1 + the keys run from 1 |
| EdgeSampling.EdgeReconstructPath | ppm_traceback/src/edge_sampling.py:77-100 | the `while` loop returns the chain reversed, farthest router first |
| EdgeSampling.AllEdgesSampled | ppm_traceback/src/edge_sampling.py:109-111 | the edges in all buckets are exactly the edges some sample yields |
| EdgeSampling.EndpointsUnion | ppm_traceback/src/edge_sampling.py:111 | the endpoints of a union of edge sets are the union of their endpoints |
| EdgeSampling.AddEdgeStep | ppm_traceback/src/edge_sampling.py:111 | adding one more edge of a set extends nodes and edges by exactly that edge |
| EdgeSampling.AddEdgesFrom | ppm_traceback/src/edge_sampling.py:111 | `add_edges_from` adds exactly the given edges and their endpoints |
| EdgeSampling.BucketEdgesAdd | ppm_traceback/src/edge_sampling.py:110-111 | one more bucket contributes exactly its edges |
| EdgeSampling.NodesStep | ppm_traceback/src/edge_sampling.py:106-111 | the victim plus the endpoints of the edges so far, after one more bucket |
| EdgeSampling.EdgeBuildGraph | ppm_traceback/src/edge_sampling.py:102-112 | the graph holds the victim and the endpoints of every bucketed edge, and exactly the bucketed edges, unfiltered |
| EdgeSampling.SourcesIn | ppm_traceback/src/edge_sampling.py:118 | exactly the given nodes other than the victim with in-degree 0, without repeats |
| EdgeSampling.InDegreeZero | ppm_traceback/src/edge_sampling.py:118 | in-degree 0 means no edge ends at the node |
| EdgeSampling.EdgeGuessAttackers | ppm_traceback/src/edge_sampling.py:114-118 | exactly the non-victim nodes with no incoming edge, in strictly increasing order |
| EdgeSampling.BuiltGraphSources | ppm_traceback/src/edge_sampling.py:102-118 | on the built graph, the guesses are exactly the edge starts that are never an edge end, the victim excepted |
| Random.SwapPermutes | ppm_traceback/src/ppm.py:31 | a swap keeps the elements: it is a permutation |
| Random.Pick | ppm_traceback/src/ppm.py:34 | a draw below `n` is an index below `n` |
| Random.PassesPermute | ppm_traceback/src/ppm.py:31 | the shuffle's swap passes keep the elements |
| Random.Shuffled | ppm_traceback/src/ppm.py:31 | the shuffle keeps the length |
| Random.ShuffledPermutes | ppm_traceback/src/ppm.py:31 | `rng.shuffle` permutes its list |
| Random.Choice | ppm_traceback/src/ppm.py:34 | `rng.choice` returns an element of its list |
| Random.Shuffle | ppm_traceback/src/ppm.py:40 | the in-place shuffle computes `Shuffled` and consumes `ShuffleDraws` draws |
| Seqs.Distinct | ppm_traceback/src/ppm.py:30 | dictionary keys in insertion order: each element once, exactly the elements of the input |
| Seqs.DistinctKeepsFirstOccurrenceOrder | ppm_traceback/src/ppm.py:30 | keys appear in the order of their first occurrence |
| Seqs.SortBy | ppm_traceback/src/node_sampling.py:93 | `sorted(..., key=...)` keeps length and elements |
| Seqs.SortByIsSorted | ppm_traceback/src/node_sampling.py:93 | its result is ordered by the key |
| Seqs.SortByIsStable | ppm_traceback/src/node_sampling.py:93 | elements with equal keys keep their input order |
| Seqs.Without | ppm_traceback/src/ppm.py:39 | `[lf for lf in leafs if lf not in attackers]`: exactly the other elements, without repeats when the input has none |
| Seqs.WithoutLength | ppm_traceback/src/ppm.py:39 | removing distinct present elements shortens the list by their number |
| Seqs.Prefix | ppm_traceback/src/ppm.py:41 | Python's `s[:n]`: the first `len(s[:n])` elements, that is `n` of them when `0 <= n <= len(s)`, all of them when `n > len(s)`, and `max(len(s) + n, 0)` of them when `n < 0` |
| Seqs.Reverse | ppm_traceback/src/edge_sampling.py:100 | `reversed`: same length, element `i` is element `len - 1 - i` of the input |
| Ppm.LeavesAreRouters | ppm_traceback/src/ppm.py:24 | every leaf is a router |
| Ppm.LeafBranches | ppm_traceback/src/ppm.py:24-30 | the keys of `by_branch`: each branch once, exactly the branches that hold a leaf |
| Ppm.ChooseHosts | ppm_traceback/src/ppm.py:16-41 | fails with the program's message exactly when fewer branches hold a leaf than attackers are requested; otherwise the attackers are leaves, one per distinct branch, taken from the shuffled branches in order; the normal users are distinct non-attacker leaves, `len(remaining[:num_normal])` of them, where `remaining` is the non-attacker leaves: `num_normal` when it is between 0 and their number, all of them when larger, and `max(len(remaining) + num_normal, 0)` when negative |
| Ppm.ChooseAttackers | ppm_traceback/src/ppm.py:24-36 | one leaf from each of the first `num_attackers` shuffled branches, all distinct, no two in a branch |
| Ppm.ShuffledBranches | ppm_traceback/src/ppm.py:24-31 | the shuffled keys of `by_branch`, each once, each with a non-empty group of its own leaves |
| Ppm.ChooseNormal | ppm_traceback/src/ppm.py:39-41 | the normal users satisfy `NormalOk` (distinct leaves, no attackers, the sliced count) |
| Ppm.PickAttackers | ppm_traceback/src/ppm.py:34 | attacker `i` is `rng.choice` of branch `i`'s leaves, drawn at position `pos + i` |
| Ppm.BranchOrder | ppm_traceback/src/ppm.py:25-31 | the grouping loop yields the leaf branches, and their shuffle has each once with a non-empty group |
| Ppm.GroupsOfOk | ppm_traceback/src/ppm.py:25-27 | every leaf filed under a branch key lies under that branch |
| Ppm.AttackersChosen | ppm_traceback/src/ppm.py:27-34 | one choice from each of distinct branches gives distinct leaves, no two sharing a branch root |
| Ppm.NormalUsers | ppm_traceback/src/ppm.py:39-41 | the shuffled remaining leaves, sliced, are valid normal users |
| Experiment.TrafficOf | ppm_traceback/src/experiment.py:41-49 | every router the attack packets pass is a router of the tree |
| Experiment.NodeObs | ppm_traceback/src/experiment.py:49-51 | `node_obs` gets at most one entry per attack packet, each a router of the attack path |
| Experiment.EdgeObs | ppm_traceback/src/experiment.py:54-55 | `edge_obs` gets exactly one entry per attack packet |
| NodeSampling.GuessReady | ppm_traceback/src/experiment.py:61-62 | the node ranking's last router is a node, so `node_guess_attacker_leaf` can walk from it |
| Experiment.HitsOf | ppm_traceback/src/experiment.py:60-72 | the sets of successful checks are the outcomes of the two checks |
| Experiment.BudgetBounds | ppm_traceback/src/experiment.py:39-57 | whole ticks are sent while fewer than `max_attack_packets` were sent: the total lies in `max .. max + x - 1`, or is 0 when the budget is not positive |
| Experiment.BudgetStep | ppm_traceback/src/experiment.py:39-57 | each tick uses `x` packets of the budget |
| Experiment.ConvFirst | ppm_traceback/src/experiment.py:60-72 | a latch is unset exactly when no check succeeded, and holds `j` exactly when the check after packet `j` was the first to succeed |
| Experiment.ConvKept | ppm_traceback/src/experiment.py:60-72 | once set, a latch keeps its value |
| Experiment.BothKept | ppm_traceback/src/experiment.py:74-78 | once both latches are set they stay set |
| Experiment.NeverBoth | ppm_traceback/src/experiment.py:74-78 | if both are not set at `m` they were not set at any earlier count |
| Experiment.StopSound | ppm_traceback/src/experiment.py:39-78 | the stop count lies within the budget, is either the budget or a count at which both latches are set, and no count before it has both set |
| Experiment.StopNext | ppm_traceback/src/experiment.py:57-75 | a packet after which not both are set does not stop the trial |
| Experiment.StopTick | ppm_traceback/src/experiment.py:47-78 | after a full tick the trial starts another while under the budget |
| Experiment.StopFromStart | ppm_traceback/src/experiment.py:39-78 | a whole trial stops at the first count with both latches set, or at the end of the budget |
| Experiment.ObsGrow | ppm_traceback/src/experiment.py:49-55 | observation lists only grow: earlier lists are prefixes of later ones |
| Experiment.EdgeObsPackets | ppm_traceback/src/experiment.py:54-55 | entry `i` of `edge_obs` is attack packet `i`'s edge packet |
| Experiment.StartInTick | ppm_traceback/src/experiment.py:41-57 | within a tick, attack packet `j` starts `j` path lengths after the tick's first one |
| Experiment.StartNextTick | ppm_traceback/src/experiment.py:41-57 | the next tick's first attack packet follows the tick's attack packets and one round of normal traffic |
| Experiment.AtStep | ppm_traceback/src/experiment.py:47-72 | one attack packet appends its node mark if any and its edge packet, and updates both latches |
| Experiment.CheckNode | ppm_traceback/src/experiment.py:61-63 | the node check succeeds exactly when the node-sampling guess names the attacker |
| Experiment.CheckEdge | ppm_traceback/src/experiment.py:68-71 | the edge check succeeds exactly when the head of the rebuilt path is the attacker |
| Experiment.NormalTraffic | ppm_traceback/src/experiment.py:41-44 | normal traffic only advances both samplers, by one draw per router of each normal packet |
| Experiment.NodeHitIs | ppm_traceback/src/experiment.py:60-64 | the node check after packet `n` on the current observations is the recorded one |
| Experiment.EdgeHitIs | ppm_traceback/src/experiment.py:67-72 | the edge check after packet `n` on the current observations is the recorded one |
| Experiment.NodeLatch | ppm_traceback/src/experiment.py:60-64 | `node_conv` is latched at the current count when unset and the check succeeds |
| Experiment.EdgeLatch | ppm_traceback/src/experiment.py:67-72 | `edge_conv` is latched likewise |
| Experiment.Observe | ppm_traceback/src/experiment.py:49-72 | recording one attack packet and running both checks gives the victim state after that packet |
| Experiment.MarkAttack | ppm_traceback/src/experiment.py:48-55 | one attack packet through both samplers gives the marks for its draw position and advances it by the path length |
| Experiment.TraceOf | ppm_traceback/src/experiment.py:39-78 | the victim states after 0, 1, 2, … attack packets exist as a trace |
| Experiment.AttackPacket | ppm_traceback/src/experiment.py:47-75 | one attack packet moves the victim state to the next state of the trace |
| Experiment.AttackTick | ppm_traceback/src/experiment.py:47-78 | one tick's attack packets stop where `Stop` says once both latches are set, or else run the whole tick |
| Experiment.RunTicks | ppm_traceback/src/experiment.py:39-78 | the tick loop ends where `StopAll` says and returns the latches as they were then, with success flags 1 exactly when set |
| Experiment.RunScenario | ppm_traceback/src/experiment.py:28-82 | a trial on fixed hosts and coin streams reports what `Ran` describes |
| Experiment.RunTrialOneAttacker | ppm_traceback/src/experiment.py:13-82 | fails exactly when no branch holds a leaf; otherwise the attacker is chosen as `choose_hosts` with one attacker does, and the result is the latched first success counts at the stop count, with the success flags |
| TopologyFile.TrimStart | ppm_traceback/src/topology.py:25 | removes exactly the leading whitespace |
| TopologyFile.TrimEnd | ppm_traceback/src/topology.py:25 | removes exactly the trailing whitespace |
| TopologyFile.WordLen | ppm_traceback/src/topology.py:31 | the length of the leading run of non-space characters |
| TopologyFile.Words | ppm_traceback/src/topology.py:31 | `split()` yields non-empty words without whitespace |
| TopologyFile.WordsAfterWord | ppm_traceback/src/topology.py:31 | a word followed by whitespace splits off as the first word |
| TopologyFile.WordsUnwords | ppm_traceback/src/topology.py:31 | splitting words joined by spaces gives them back |
| TopologyFile.ShowNat | ppm_traceback/src/topology.py:31 | a decimal numeral is a non-empty string of digits |
| TopologyFile.ParseShow | ppm_traceback/src/topology.py:31 | `int()` of a numeral gives its number back |
| TopologyFile.ParseLine | ppm_traceback/src/topology.py:25-32 | a line is skipped exactly when it is blank or a comment after stripping |
| TopologyFile.StripLineBreak | ppm_traceback/src/topology.py:25 | `strip()` removes a trailing line break |
| TopologyFile.ReadsAsEdge | ppm_traceback/src/topology.py:30-32 | a non-skipped line of two numerals reads as that edge |
| TopologyFile.EdgeLineReads | ppm_traceback/src/topology.py:30-32 | the line `"u v\n"` reads as the edge `u -> v` |
| TopologyFile.Step | ppm_traceback/src/topology.py:27-32 | one line keeps the graph well formed |
| TopologyFile.Build | ppm_traceback/src/topology.py:24-32 | the lines give a well-formed graph whenever reading succeeds |
| TopologyFile.BuildSnoc | ppm_traceback/src/topology.py:24-32 | reading one more line applies one step |
| TopologyFile.ItemsAppend | ppm_traceback/src/topology.py:32 | an edge line contributes exactly its edge and endpoints |
| TopologyFile.BuildContents | ppm_traceback/src/topology.py:24-35 | reading succeeds exactly when no line is malformed; otherwise it reports the first malformed line; on success the graph's edges and nodes are exactly those of the edge lines |
| TopologyFile.ParseLines | ppm_traceback/src/topology.py:24-25 | one item per line |
| TopologyFile.ParseLinesSnoc | ppm_traceback/src/topology.py:24-25 | one more line gives one more item |
| TopologyFile.ParseLinesAppend | ppm_traceback/src/topology.py:24-25 | lines are read independently |
| TopologyFile.BuildStops | ppm_traceback/src/topology.py:31 | after a malformed line, later lines change nothing (the exception ends the read) |
| TopologyFile.ParseAt | ppm_traceback/src/topology.py:24-25 | the items for a prefix of the lines are a prefix of the items |
| TopologyFile.BadItemStops | ppm_traceback/src/topology.py:31 | the first malformed line is the reported one |
| TopologyFile.LoadTopology | ppm_traceback/src/topology.py:17-35 | the loop over the lines computes `Build(ParseLines(lines))` |
| TopologyFile.SkippedLineIgnored | ppm_traceback/src/topology.py:27-28 | a skipped item anywhere changes neither success nor the graph |
| TopologyFile.RepeatTwice | ppm_traceback/src/topology.py:32 | an item read twice in a row gives the same result as once |
| TopologyFile.RepeatedLineIgnored | ppm_traceback/src/topology.py:31-32 | a repeated item anywhere changes neither success nor the graph |
| TopologyFile.SkippedLineChangesNothing | ppm_traceback/src/topology.py:25-28 | a blank or comment line anywhere in the file changes neither success nor the graph |
| TopologyFile.RepeatedLineChangesNothing | ppm_traceback/src/topology.py:31-32 | a repeated line anywhere in the file changes neither success nor the graph |
| TopologyCheck.Preds | ppm_traceback/src/topology.py:47 | exactly the nodes with an edge to `n` |
| TopologyCheck.RootsIn | ppm_traceback/src/topology.py:47 | exactly the given nodes without predecessors |
| TopologyCheck.RootsInNoDup | ppm_traceback/src/topology.py:47 | without repeats when the nodes have none |
| TopologyCheck.Roots | ppm_traceback/src/topology.py:47 | exactly the nodes without predecessors |
| TopologyCheck.MaxClimb | ppm_traceback/src/topology.py:70-71 | `max(depths.values())` bounds every node's depth |
| TopologyCheck.MaxClimbWithin | ppm_traceback/src/topology.py:70-76 | a bound on every depth bounds the maximum |
| TopologyCheck.ClimbMore | ppm_traceback/src/topology.py:70 | a climb that reaches a root gives the same depth with more fuel |
| TopologyCheck.RouterCountIs | ppm_traceback/src/topology.py:55-56 | the router count is the number of nodes other than the victim |
| TopologyCheck.OneParent | ppm_traceback/src/topology.py:47-52 | in an arborescence rooted at the victim, every other node has exactly one predecessor |
| TopologyCheck.RouterParents | ppm_traceback/src/topology.py:47-52 | the parent map covers exactly the non-victim nodes, each parent being the node's one predecessor |
| TopologyCheck.TreeOfParented | ppm_traceback/src/topology.py:47-52 | the parent and depth maps read off an arborescence rooted at the victim place each parent one hop nearer |
| TopologyCheck.ParentEdges | ppm_traceback/src/topology.py:47 | each parent has an edge to its child |
| TopologyCheck.EdgesFromParents | ppm_traceback/src/topology.py:47 | each edge goes from a node's parent to it |
| TopologyCheck.TreeOfLinked | ppm_traceback/src/topology.py:47 | the graph's edges are exactly the parent links |
| TopologyCheck.TreeOfIsTree | ppm_traceback/src/topology.py:43-52 | an arborescence rooted at the victim describes a tree |
| TopologyCheck.ValidateSound | ppm_traceback/src/topology.py:38-76 | a graph that passes every check is an arborescence whose tree is valid: rooted at the victim, 10-20 routers, 3-5 branches, depth at most 15 |
| TopologyCheck.PathDepthAt | ppm_traceback/src/topology.py:70 | the `i`-th router on a node's path is `i` hops nearer the victim |
| TopologyCheck.DepthBelowSize | ppm_traceback/src/topology.py:70 | no depth exceeds the number of nodes |
| TopologyCheck.TreePreds | ppm_traceback/src/topology.py:47-52 | in a tree the victim has no predecessor and every router has exactly its parent |
| TopologyCheck.ClimbStep | ppm_traceback/src/topology.py:70 | a climb stops at a root and otherwise goes one hop up |
| TopologyCheck.TreeClimb | ppm_traceback/src/topology.py:70-71 | in a tree the climb from a node gives its depth |
| TopologyCheck.TreeHasParentPreds | ppm_traceback/src/topology.py:47 | in a tree every node's predecessors are its parent, if any |
| TopologyCheck.TreeClimbs | ppm_traceback/src/topology.py:70-71 | in a tree every climb gives that node's depth |
| TopologyCheck.TreeIsArborescence | ppm_traceback/src/topology.py:43-52 | a tree is an arborescence whose one root is the victim |
| TopologyCheck.ParentOfTree | ppm_traceback/src/topology.py:47 | the parents read off a tree's graph are its parents |
| TopologyCheck.DepthOfTree | ppm_traceback/src/topology.py:70 | the depths read off a tree's graph are its depths |
| TopologyCheck.TreeOfTree | ppm_traceback/src/topology.py:43-52 | reading a tree off its own graph gives it back |
| TopologyCheck.ValidateComplete | ppm_traceback/src/topology.py:38-76 | every valid tree's graph passes every check, and the tree read off it is the tree itself |

## Left out

- Random number generation is not modelled. `random.Random`, its seeding, floating-point `p` and `rng.randint` are out of scope. The coin streams and draw streams are parameters instead, so the model proves nothing about probabilities, accuracy or convergence rates.
- `Random.Shuffle` and `Random.Choice` follow the algorithm of CPython's `shuffle` and `choice` over a stream of `_randbelow` results. How `_randbelow` turns generator output into those numbers is not modelled.
- `Experiment.RunTrialOneAttacker` takes the host-selection draws and both samplers' coin streams as parameters. The program derives them from `seed`, `seed + 1` and two `rng.randint` calls.
- `Experiment.RunTrialOneAttacker`: requires `x >= 1` or a non-positive budget. For `x <= 0` with a positive budget the program's loop never ends, and a model of it could not terminate.
- `Experiment.RunTrialOneAttacker` returns the chosen hosts and the packet count at which the trial stopped as ghost outputs. The program does not return them.
- File I/O is left out. `TopologyFile.LoadTopology` receives the file's lines, each with its line break, rather than a path.
- `TopologyFile.LoadTopology`: a line that `int()` or the two-name unpacking rejects raises `ValueError` in the program. The model returns `Err(i)` with the index of the first such line.
- `TopologyFile.ParseNat` accepts only non-empty runs of ASCII digits. Python's `int()` also accepts a sign, `_` separators and non-ASCII digits. Those lines read as malformed here.
- `TopologyCheck.ValidateTree` returns a `TopologyError` value for each check. The program raises `ValueError` with a message. The message text is not modelled, but the counts it reports are.
- networkx's internals are not modelled:
  - `is_arborescence` is replaced by `TopologyCheck.IsArborescence`. That predicate requires one root, at most one predecessor per node, and that from every node the climb reaches a root within as many hops as there are nodes.
  - `single_source_shortest_path_length` is replaced by that climb. In an arborescence both give the depth.
  - `DiGraph` is a value, rebuilt by each `add_edge`, not an object mutated in place.
- The helpers `path_leaf_to_victim`, `leaves` and `branch_root_of` are not part of this model's source files. `Topology.PathToVictim`, `Topology.Leaves` and `Topology.BranchRootOf` define them from the tree's parent map, with the contracts those functions are used under.
- `NodeSampling.NodeSampler.Forward` and `EdgeSampling.EdgeSampler.Forward` take a `Topology` with a parent map, not a networkx graph.
- In a trial, both samplers see the same packets, so they advance by the same number of draws. The trial therefore keeps one shared draw position for both.
- The packets normal users send through the samplers are built and then dropped by the program. `Experiment.NormalTraffic` models only how they advance the draw position.
- The experiment's `victim` arguments are fixed to node 0, as every call in the program passes. `edge_reconstruct_path` never uses its `victim` parameter.
- The grid runners, plotting, `main.py` and `check_topology.py` are presentation and orchestration only, and are not modelled.
- A pruned, distance-consistent edge graph is not built anywhere in the code, so none is modelled.
