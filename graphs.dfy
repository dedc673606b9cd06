/** The part of a networkx `DiGraph` the program uses: nodes kept in insertion
    order, each with its successors in insertion order, `add_node`, `add_edge`
    and the in-degree of a node. */
module Graphs {
  import opened Seqs

  datatype Graph = Graph(nodes: seq<nat>, succ: map<nat, seq<nat>>)

  /** The empty `nx.DiGraph()`. */
  const Empty: Graph := Graph([], map[])

  /** Every node is listed once and has an adjacency list; adjacency lists hold
      nodes, each at most once. */
  ghost predicate WellFormed(g: Graph) {
    && NoDup(g.nodes)
    && (forall n :: n in g.succ <==> n in g.nodes)
    && (forall u :: u in g.succ ==> NoDup(g.succ[u]))
    && (forall u, v {:trigger v in g.succ[u]} :: u in g.succ && v in g.succ[u] ==> v in g.succ)
  }

  /** Every listed node has an adjacency list. */
  ghost predicate Listed(g: Graph) {
    forall n :: n in g.nodes ==> n in g.succ
  }

  ghost function NodeSet(g: Graph): set<nat> {
    set n | n in g.nodes
  }

  ghost function EdgeSet(g: Graph): set<(nat, nat)> {
    set u, v | u in g.succ && v in g.succ[u] :: (u, v)
  }

  /** `G.add_node(n)`: appends `n` unless it is already a node. */
  function AddNode(g: Graph, n: nat): (r: Graph)
    requires WellFormed(g)
    ensures WellFormed(r)
    ensures NodeSet(r) == NodeSet(g) + {n}
    ensures EdgeSet(r) == EdgeSet(g)
    ensures g.nodes <= r.nodes
  {
    if n in g.succ then g
    else
      var r := Graph(g.nodes + [n], g.succ[n := []]);
      assert EdgeSet(r) == EdgeSet(g) by {
        forall e | e in EdgeSet(r) ensures e in EdgeSet(g) {
          assert e.0 != n;
        }
      }
      r
  }

  /** `G.add_edge(u, v)`: adds the missing endpoints (first `u`, then `v`) and
      appends `v` to the successors of `u` unless the edge is already there. */
  function AddEdge(g: Graph, u: nat, v: nat): (r: Graph)
    requires WellFormed(g)
    ensures WellFormed(r)
    ensures NodeSet(r) == NodeSet(g) + {u, v}
    ensures EdgeSet(r) == EdgeSet(g) + {(u, v)}
    ensures g.nodes <= r.nodes
  {
    var g1 := AddNode(AddNode(g, u), v);
    if v in g1.succ[u] then
      assert (u, v) in EdgeSet(g1);
      g1
    else
      AppendSuccessor(g1, u, v);
      g1.(succ := g1.succ[u := g1.succ[u] + [v]])
  }

  /** Appending a new successor `v` to the list of `u` adds just the edge `(u, v)`. */
  lemma AppendSuccessor(g: Graph, u: nat, v: nat)
    requires WellFormed(g) && u in g.succ && v in g.succ && v !in g.succ[u]
    ensures
      var r := g.(succ := g.succ[u := g.succ[u] + [v]]);
      WellFormed(r) && EdgeSet(r) == EdgeSet(g) + {(u, v)}
  {
    var r := g.(succ := g.succ[u := g.succ[u] + [v]]);
    forall e | e in EdgeSet(r) ensures e in EdgeSet(g) + {(u, v)} {
      if e.0 == u && e.1 !in g.succ[u] {
        assert e.1 == v;
      }
    }
    assert (u, v) in EdgeSet(r) by { assert v in r.succ[u]; }
    forall e | e in EdgeSet(g) ensures e in EdgeSet(r) {
      if e.0 == u { assert e.1 in r.succ[u]; }
    }
  }

  /** Adding an edge that is already present changes nothing, so a repeated
      `add_edge` leaves the graph as it was. */
  lemma AddEdgeIdempotent(g: Graph, u: nat, v: nat)
    requires WellFormed(g)
    ensures AddEdge(AddEdge(g, u, v), u, v) == AddEdge(g, u, v)
  {
    var r := AddEdge(g, u, v);
    assert (u, v) in EdgeSet(r);
    assert u in r.succ && v in r.succ[u];
  }

  /** The predecessors of `n` among the nodes `ns`, in the order of `ns`. */
  function PredsIn(g: Graph, ns: seq<nat>, n: nat): (r: seq<nat>)
    requires forall u :: u in ns ==> u in g.succ
    ensures forall u {:trigger u in r} :: u in r <==> u in ns && n in g.succ[u]
  {
    if ns == [] then []
    else
      var rest := PredsIn(g, ns[1..], n);
      assert forall u :: u in ns[1..] ==> u in ns;
      assert forall u :: u in ns[1..] && n in g.succ[u] ==> u in rest;
      if n in g.succ[ns[0]] then [ns[0]] + rest else rest
  }

  /** Among distinct nodes the predecessors are distinct. */
  lemma {:induction false} PredsInNoDup(g: Graph, ns: seq<nat>, n: nat)
    requires forall u :: u in ns ==> u in g.succ
    requires NoDup(ns)
    ensures NoDup(PredsIn(g, ns, n))
  {
    if ns != [] {
      assert forall u :: u in ns[1..] ==> u in ns;
      assert forall i :: 1 <= i < |ns| ==> ns[1..][i - 1] == ns[i];
      PredsInNoDup(g, ns[1..], n);
      assert ns[0] !in PredsIn(g, ns[1..], n);
    }
  }

  /** `G.in_degree(n)`: the number of edges that end at `n`. */
  function InDegree(g: Graph, n: nat): (d: nat)
    requires WellFormed(g)
    ensures d == 0 <==> forall u :: u in g.succ ==> n !in g.succ[u]
  {
    var ps := PredsIn(g, g.nodes, n);
    assert forall u :: u in g.succ && n in g.succ[u] ==> u in ps;
    assert ps != [] ==> ps[0] in ps && ps[0] in g.succ;
    |ps|
  }
}
