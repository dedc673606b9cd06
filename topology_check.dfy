/** `validate_tree_topology`: the checks a loaded graph must pass before the
    simulator runs on it. The victim must be a node; the graph must be an
    arborescence (a tree with every edge pointing away from one root); the
    victim must be that root; there must be 10 to 20 routers, 3 to 5 branches
    (children of the victim), and no node more than 15 hops from the victim.
    A graph that passes describes a `Topology`, built here by `TreeOf`. */
module TopologyCheck {
  import opened Wrappers
  import opened Seqs
  import opened Graphs
  import opened Topology

  /** `ROUTER_MIN` and `ROUTER_MAX`: the number of routers (victim excluded). */
  const RouterMin: nat := 10
  const RouterMax: nat := 20

  /** `MAX_HOPS`: the most hops from any node to the victim. */
  const MaxHops: nat := 15

  /** `BRANCH_CHOICES`: the allowed numbers of children of the victim. */
  const BranchChoices: seq<nat> := [3, 4, 5]

  /** Why a graph is refused, in the order the checks run; the raised
      `ValueError` messages of the program become these values. */
  datatype TopologyError =
    | NoVictim
    | NotArborescence
    | VictimNotRoot
    | RouterCount(found: nat)
    | BranchCount(found: nat)
    | TooDeep(found: nat)

  /** The predecessors of `n`, in node order. */
  function Preds(g: Graph, n: nat): (ps: seq<nat>)
    requires Listed(g)
    ensures forall u {:trigger u in ps} :: u in ps <==> u in g.nodes && n in g.succ[u]
  {
    PredsIn(g, g.nodes, n)
  }

  /** The nodes among `ns` without a predecessor, in the order of `ns`. */
  function RootsIn(g: Graph, ns: seq<nat>): (r: seq<nat>)
    requires WellFormed(g) && forall n :: n in ns ==> n in g.succ
    ensures forall n {:trigger n in r} :: n in r <==> n in ns && Preds(g, n) == []
  {
    if ns == [] then []
    else
      var rest := RootsIn(g, ns[1..]);
      assert forall n :: n in ns[1..] ==> n in ns;
      assert forall n :: n in ns[1..] && Preds(g, n) == [] ==> n in rest;
      if Preds(g, ns[0]) == [] then [ns[0]] + rest else rest
  }

  /** Among distinct nodes the roots are distinct. */
  lemma {:induction false} RootsInNoDup(g: Graph, ns: seq<nat>)
    requires WellFormed(g) && forall n :: n in ns ==> n in g.succ
    requires NoDup(ns)
    ensures NoDup(RootsIn(g, ns))
  {
    if ns != [] {
      assert forall n :: n in ns[1..] ==> n in ns;
      assert forall i :: 1 <= i < |ns| ==> ns[1..][i - 1] == ns[i];
      RootsInNoDup(g, ns[1..]);
      assert ns[0] !in RootsIn(g, ns[1..]);
    }
  }

  /** The nodes without a predecessor. */
  function Roots(g: Graph): (r: seq<nat>)
    requires WellFormed(g)
    ensures forall n {:trigger n in r} :: n in r <==> n in g.succ && Preds(g, n) == []
  {
    RootsIn(g, g.nodes)
  }

  /** The hops from `n` up to a node without predecessors, each hop to the
      first predecessor, when that takes at most `fuel` hops. */
  function Climb(g: Graph, n: nat, fuel: nat): Option<nat>
    requires Listed(g) && n in g.succ
    decreases fuel
  {
    var ps := Preds(g, n);
    if ps == [] then Some(0)
    else if fuel == 0 then None
    else
      assert ps[0] in ps;
      match Climb(g, ps[0], fuel - 1)
      case None => None
      case Some(d) => Some(d + 1)
  }

  /** `nx.is_arborescence(G)`: exactly one node has no predecessor, every
      other node has exactly one, and from every node the climb reaches a
      node without predecessors within as many hops as there are nodes
      (so there is no cycle). */
  predicate IsArborescence(g: Graph)
    requires WellFormed(g)
  {
    && |Roots(g)| == 1
    && (forall n {:trigger Preds(g, n)} :: n in g.nodes ==> |Preds(g, n)| <= 1)
    && (forall n {:trigger Climb(g, n, |g.nodes|)} :: n in g.nodes ==> Climb(g, n, |g.nodes|).Some?)
  }

  /** The longest climb from a node of `ns`: `max(depths.values())`. */
  function MaxClimb(g: Graph, ns: seq<nat>): (m: nat)
    requires WellFormed(g)
    requires forall n :: n in ns ==> n in g.succ && Climb(g, n, |g.nodes|).Some?
    ensures forall n :: n in ns ==> Climb(g, n, |g.nodes|).value <= m
  {
    if ns == [] then 0
    else
      assert forall n :: n in ns[1..] ==> n in ns;
      var d := Climb(g, ns[0], |g.nodes|).value;
      var rest := MaxClimb(g, ns[1..]);
      if d >= rest then d else rest
  }

  /** The longest climb is one of the climbs: a bound on every climb bounds
      it. */
  lemma {:induction false} MaxClimbWithin(g: Graph, ns: seq<nat>, b: nat)
    requires WellFormed(g)
    requires forall n :: n in ns ==> n in g.succ && Climb(g, n, |g.nodes|).Some?
    requires forall n :: n in ns ==> Climb(g, n, |g.nodes|).value <= b
    ensures MaxClimb(g, ns) <= b
  {
    if ns != [] {
      assert forall n :: n in ns[1..] ==> n in ns;
      MaxClimbWithin(g, ns[1..], b);
      assert ns[0] in ns;
    }
  }

  /** `validate_tree_topology(G)`: the checks in the program's order, each
      refusing with its own error; `Pass` when all hold. */
  function ValidateTree(g: Graph): (r: Outcome<TopologyError>)
    requires WellFormed(g)
  {
    if Victim !in g.succ then Fail(NoVictim)
    else if !IsArborescence(g) then Fail(NotArborescence)
    else if InDegree(g, Victim) != 0 then Fail(VictimNotRoot)
    else
      var routers := Without(g.nodes, [Victim]);
      if !(RouterMin <= |routers| <= RouterMax) then Fail(RouterCount(|routers|))
      else if |g.succ[Victim]| !in BranchChoices then Fail(BranchCount(|g.succ[Victim]|))
      else
        var maxDepth := MaxClimb(g, g.nodes);
        if maxDepth > MaxHops then Fail(TooDeep(maxDepth)) else Pass
  }

  /** The one predecessor of every node that has one. */
  function ParentOf(g: Graph): (parent: map<nat, nat>)
    requires WellFormed(g)
  {
    map n | n in g.succ && Preds(g, n) != [] :: Preds(g, n)[0]
  }

  /** The climb from every node: its number of hops from the root. */
  function DepthOf(g: Graph): (depth: map<nat, nat>)
    requires WellFormed(g) && IsArborescence(g)
  {
    map n | n in g.succ :: Climb(g, n, |g.nodes|).value
  }

  /** The tree an arborescence describes: the one predecessor of a node is
      its parent, and the climb from a node is its depth. */
  function TreeOf(g: Graph): (t: Topology)
    requires WellFormed(g) && IsArborescence(g)
  {
    Topology(g, ParentOf(g), DepthOf(g))
  }

  /** A topology the simulator accepts: a tree rooted at the victim, with 10
      to 20 routers, 3 to 5 branches, and no node more than 15 hops from the
      victim. */
  ghost predicate ValidTree(t: Topology) {
    && WellFormed(t.g)
    && IsTree(t)
    && RouterMin <= |t.parent| <= RouterMax
    && |t.g.succ[Victim]| in BranchChoices
    && forall n :: n in t.depth ==> t.depth[n] <= MaxHops
  }

  /** A sequence without duplicates whose elements all equal `p`, and which
      holds `p`, is just `[p]`. */
  lemma OnlyElement(s: seq<nat>, p: nat)
    requires NoDup(s) && p in s && forall x :: x in s ==> x == p
    ensures s == [p]
  {
    NoDupSubLength(s, [p]);
  }

  /** A climb that arrives within `f` hops arrives the same way with more
      fuel. */
  lemma {:induction false} ClimbMore(g: Graph, n: nat, f: nat, f2: nat)
    requires Listed(g) && n in g.succ
    requires Climb(g, n, f).Some? && f <= f2
    ensures Climb(g, n, f2) == Climb(g, n, f)
    decreases f
  {
    var ps := Preds(g, n);
    if ps != [] {
      assert ps[0] in ps;
      ClimbMore(g, ps[0], f - 1, f2 - 1);
    }
  }

  /** The routers of a graph holding the victim number one less than its
      nodes, and as many as the keys of any map whose keys are those
      routers. */
  lemma RouterCountIs(g: Graph, parent: map<nat, nat>)
    requires WellFormed(g) && Victim in g.succ
    requires forall n :: n in parent <==> n in g.succ && n != Victim
    ensures |Without(g.nodes, [Victim])| == |parent| == |g.nodes| - 1
  {
    var routers := Without(g.nodes, [Victim]);
    WithoutLength(g.nodes, [Victim]);
    MapKeysLength(parent, routers);
  }

  /** In an arborescence whose root is the victim, every other node has
      exactly one predecessor. */
  lemma OneParent(g: Graph, n: nat)
    requires WellFormed(g) && IsArborescence(g)
    requires Victim in g.succ && Preds(g, Victim) == []
    requires n in g.succ && n != Victim
    ensures |Preds(g, n)| == 1
  {
    var roots := Roots(g);
    assert Victim in roots;
    assert roots == [roots[0]];
    assert n !in roots;
  }

  /** In an arborescence rooted at the victim, the routers are the nodes with
      a parent, and a router's parent is its only predecessor. */
  lemma RouterParents(g: Graph)
    requires WellFormed(g) && IsArborescence(g)
    requires Victim in g.succ && Preds(g, Victim) == []
    ensures forall n :: n in ParentOf(g) <==> n in g.succ && n != Victim
    ensures forall n :: n in ParentOf(g) ==> Preds(g, n) == [ParentOf(g)[n]]
  {
    forall n | n in g.succ && n != Victim ensures |Preds(g, n)| == 1 {
      OneParent(g, n);
    }
  }

  /** In an arborescence rooted at the victim every router's climb is one
      hop more than its parent's. */
  lemma TreeOfParented(g: Graph)
    requires WellFormed(g) && IsArborescence(g)
    requires Victim in g.succ && Preds(g, Victim) == []
    ensures Parented(TreeOf(g))
  {
    var t := TreeOf(g);
    var size := |g.nodes|;
    RouterParents(g);
    forall n | n in t.parent
      ensures t.parent[n] in t.depth && t.depth[n] == t.depth[t.parent[n]] + 1
    {
      var p := t.parent[n];
      assert p in Preds(g, n);
      assert n in g.nodes && Climb(g, n, size).Some?;
      ClimbMore(g, p, size - 1, size);
    }
  }

  /** In an arborescence rooted at the victim every router hangs off its
      parent by an edge. */
  lemma ParentEdges(g: Graph)
    requires WellFormed(g) && IsArborescence(g)
    requires Victim in g.succ && Preds(g, Victim) == []
    ensures forall n {:trigger ParentOf(g)[n]} :: n in ParentOf(g) ==>
      ParentOf(g)[n] in g.succ && n in g.succ[ParentOf(g)[n]]
  {
    var parent := ParentOf(g);
    forall n | n in parent
      ensures parent[n] in g.succ && n in g.succ[parent[n]]
    {
      HeadIn(Preds(g, n));
    }
  }

  /** In an arborescence rooted at the victim every edge runs from a parent
      to its child. */
  lemma EdgesFromParents(g: Graph)
    requires WellFormed(g) && IsArborescence(g)
    requires Victim in g.succ && Preds(g, Victim) == []
    ensures forall u, c {:trigger c in g.succ[u]} :: u in g.succ && c in g.succ[u] ==>
      c in ParentOf(g) && ParentOf(g)[c] == u
  {
    var parent := ParentOf(g);
    RouterParents(g);
    forall u, c | u in g.succ && c in g.succ[u]
      ensures c in parent && parent[c] == u
    {
      assert u in Preds(g, c);
    }
  }

  /** In an arborescence rooted at the victim the edges are exactly the
      links from parents to children. */
  lemma TreeOfLinked(g: Graph)
    requires WellFormed(g) && IsArborescence(g)
    requires Victim in g.succ && Preds(g, Victim) == []
    ensures Linked(TreeOf(g))
  {
    ParentEdges(g);
    EdgesFromParents(g);
  }

  /** An arborescence rooted at the victim describes a tree: `TreeOf` gives
      every router its predecessor as parent and a depth one more than its
      parent's. */
  lemma TreeOfIsTree(g: Graph)
    requires WellFormed(g) && IsArborescence(g)
    requires Victim in g.succ && Preds(g, Victim) == []
    ensures IsTree(TreeOf(g))
  {
    TreeOfParented(g);
    TreeOfLinked(g);
  }

  /** Soundness of the checks: a graph that passes them describes a valid
      tree, with the victim as root and every constraint met. */
  lemma ValidateSound(g: Graph)
    requires WellFormed(g) && ValidateTree(g) == Pass
    ensures IsArborescence(g) && ValidTree(TreeOf(g))
  {
    var t := TreeOf(g);
    assert Preds(g, Victim) == [] by {
      HeadIn(Preds(g, Victim));
    }
    TreeOfIsTree(g);
    assert |t.parent| == |Without(g.nodes, [Victim])| by {
      RouterParents(g);
      RouterCountIs(g, t.parent);
    }
    assert forall n :: n in t.depth ==> t.depth[n] <= MaxHops by {
      forall n | n in t.depth ensures t.depth[n] <= MaxHops {
        assert n in g.nodes;
      }
    }
  }

  /** The `i`-th router on the way from `n` to the victim is `i` levels
      nearer the victim than `n`. */
  lemma {:induction false} PathDepthAt(t: Topology, n: nat, i: nat)
    requires Parented(t) && n in t.depth && i < t.depth[n]
    ensures t.depth[PathToVictim(t, n)[i]] == t.depth[n] - i
    decreases i
  {
    if i > 0 {
      var p := t.parent[n];
      PathDepthAt(t, p, i - 1);
      assert PathToVictim(t, n)[i] == PathToVictim(t, p)[i - 1];
    }
  }

  /** No node is deeper than the graph has nodes: the routers on its way to
      the victim are distinct nodes. */
  lemma DepthBelowSize(t: Topology, n: nat)
    requires WellFormed(t.g) && Parented(t) && n in t.depth
    requires forall x :: x in t.parent ==> x in t.g.succ
    ensures t.depth[n] <= |t.g.nodes|
  {
    var path := PathToVictim(t, n);
    forall i, j | 0 <= i < j < |path| ensures path[i] != path[j] {
      PathDepthAt(t, n, i);
      PathDepthAt(t, n, j);
    }
    NoDupSubLength(path, t.g.nodes);
  }

  /** In a tree the victim has no predecessor and every router has its parent
      as its only predecessor. */
  lemma TreePreds(t: Topology, n: nat)
    requires WellFormed(t.g) && IsTree(t) && n in t.g.succ
    ensures Preds(t.g, n) == if n == Victim then [] else [t.parent[n]]
  {
    var ps := Preds(t.g, n);
    if n == Victim {
      HeadIn(ps);
    } else {
      PredsInNoDup(t.g, t.g.nodes, n);
      OnlyElement(ps, t.parent[n]);
    }
  }

  /** One step of a climb: none from a node without predecessors, one more
      than the climb from the first predecessor otherwise. */
  lemma ClimbStep(g: Graph, n: nat, f: nat)
    requires Listed(g) && n in g.succ
    ensures Preds(g, n) == [] ==> Climb(g, n, f) == Some(0)
    ensures Preds(g, n) != [] && f > 0 ==>
      Preds(g, n)[0] in g.succ &&
      Climb(g, n, f) == match Climb(g, Preds(g, n)[0], f - 1)
        case None => None
        case Some(d) => Some(d + 1)
  {
    HeadIn(Preds(g, n));
  }

  /** The predecessors of every node are as a tree's: none for the victim,
      the parent for a router. */
  ghost predicate PredsAreParents(t: Topology)
    requires Listed(t.g) && Parented(t)
  {
    && (forall n :: n in t.depth ==> n in t.g.succ)
    && (forall n {:trigger Preds(t.g, n)} :: n in t.depth ==> Preds(t.g, n) == if n == Victim then [] else [t.parent[n]])
  }

  /** In a tree the climb from `n` follows the parents and takes its depth in
      hops. */
  lemma {:induction false} TreeClimb(t: Topology, n: nat, f: nat)
    requires Listed(t.g) && Parented(t) && PredsAreParents(t)
    requires n in t.depth && t.depth[n] <= f
    ensures n in t.g.succ && Climb(t.g, n, f) == Some(t.depth[n])
    decreases f
  {
    if n == Victim {
      ClimbStep(t.g, n, f);
    } else {
      var p := t.parent[n];
      TreeClimb(t, p, f - 1);
      ClimbStep(t.g, n, f);
    }
  }

  /** In a tree every node's predecessors are as `PredsAreParents` says. */
  lemma TreeHasParentPreds(t: Topology)
    requires WellFormed(t.g) && IsTree(t)
    ensures PredsAreParents(t)
  {
    forall n | n in t.depth ensures Preds(t.g, n) == if n == Victim then [] else [t.parent[n]] {
      TreePreds(t, n);
    }
  }

  /** In a tree the climb from every node, with as much fuel as there are
      nodes, arrives in as many hops as the node's depth. */
  lemma TreeClimbs(t: Topology)
    requires WellFormed(t.g) && IsTree(t)
    ensures forall n :: n in t.g.succ ==> Climb(t.g, n, |t.g.nodes|) == Some(t.depth[n])
  {
    TreeHasParentPreds(t);
    forall n | n in t.g.succ ensures Climb(t.g, n, |t.g.nodes|) == Some(t.depth[n]) {
      DepthBelowSize(t, n);
      TreeClimb(t, n, |t.g.nodes|);
    }
  }

  /** A tree is an arborescence: the victim is its one root. */
  lemma TreeIsArborescence(t: Topology)
    requires WellFormed(t.g) && IsTree(t)
    ensures IsArborescence(t.g) && Roots(t.g) == [Victim]
  {
    var g := t.g;
    TreeHasParentPreds(t);
    TreeClimbs(t);
    var roots := Roots(g);
    assert Victim in roots;
    RootsInNoDup(g, g.nodes);
    OnlyElement(roots, Victim);
    forall n | n in g.nodes ensures |Preds(g, n)| <= 1 {
      assert n in t.depth;
    }
  }

  /** In a tree the predecessor map is the parent map. */
  lemma ParentOfTree(t: Topology)
    requires WellFormed(t.g) && IsTree(t)
    ensures ParentOf(t.g) == t.parent
  {
    TreeHasParentPreds(t);
    var m := ParentOf(t.g);
    forall n ensures n in m <==> n in t.parent {
      if n in t.g.succ {
        assert n in t.depth;
      }
    }
  }

  /** In a tree the climbs are the depths. */
  lemma DepthOfTree(t: Topology)
    requires WellFormed(t.g) && IsTree(t) && IsArborescence(t.g)
    ensures DepthOf(t.g) == t.depth
  {
    TreeClimbs(t);
  }

  /** `TreeOf` gives back the tree whose graph it is given. */
  lemma TreeOfTree(t: Topology)
    requires WellFormed(t.g) && IsTree(t)
    ensures IsArborescence(t.g) && TreeOf(t.g) == t
  {
    TreeIsArborescence(t);
    ParentOfTree(t);
    DepthOfTree(t);
  }

  /** Completeness of the checks: the graph of any valid tree passes them,
      and `TreeOf` gives back that very tree. */
  lemma ValidateComplete(t: Topology)
    requires ValidTree(t)
    ensures ValidateTree(t.g) == Pass
    ensures IsArborescence(t.g) && TreeOf(t.g) == t
  {
    var g := t.g;
    TreeOfTree(t);
    assert InDegree(g, Victim) == 0 by {
      forall u | u in g.succ ensures Victim !in g.succ[u] {
        assert Victim !in t.parent;
      }
    }
    assert |Without(g.nodes, [Victim])| == |t.parent| by {
      RouterCountIs(g, t.parent);
    }
    assert MaxClimb(g, g.nodes) <= MaxHops by {
      TreeClimbs(t);
      MaxClimbWithin(g, g.nodes, MaxHops);
    }
  }
}
