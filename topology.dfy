/** The rooted tree the simulator runs on, and the queries every other part asks
    of it: the path from a node up to the victim, the leaves, the branch (child
    of the victim) a node hangs under, and the subtree below a node. The victim
    is node 0; edges point away from it. */
module Topology {
  import opened Seqs
  import opened Graphs

  /** `VICTIM`: node 0, the root of the tree. */
  const Victim: nat := 0

  /** A topology: the loaded graph together with the parent of every router and
      the depth (hops from the victim) of every node. */
  datatype Topology = Topology(g: Graph, parent: map<nat, nat>, depth: map<nat, nat>)

  /** Every node other than the victim has a parent one hop nearer the victim. */
  ghost predicate Parented(t: Topology) {
    && Victim in t.depth && t.depth[Victim] == 0
    && (forall n :: n in t.parent <==> n in t.depth && n != Victim)
    && (forall n {:trigger t.parent[n]} :: n in t.parent ==>
          t.parent[n] in t.depth && t.depth[n] == t.depth[t.parent[n]] + 1)
  }

  /** The graph's nodes are the nodes with a depth, and `c` is a successor of
      `u` exactly when `u` is the parent of `c`. */
  ghost predicate Linked(t: Topology) {
    && (forall n :: n in t.g.succ <==> n in t.depth)
    && (forall u, c {:trigger c in t.g.succ[u]} :: u in t.g.succ && c in t.g.succ[u] ==> c in t.parent && t.parent[c] == u)
    && (forall n {:trigger t.parent[n]} :: n in t.parent ==> t.parent[n] in t.g.succ && n in t.g.succ[t.parent[n]])
  }

  /** The graph is the tree that `parent` describes. */
  ghost predicate IsTree(t: Topology) {
    Parented(t) && Linked(t)
  }

  /** Every router is a node of the graph. */
  lemma RouterIsNode(t: Topology, n: nat)
    requires IsTree(t) && n in t.parent
    ensures n in t.depth && n in t.g.succ
  {
  }

  /** `path_leaf_to_victim(G, n)`: the routers a packet sent from `n` passes,
      `n` first, each followed by its parent, the victim excluded. */
  function PathToVictim(t: Topology, n: nat): (path: seq<nat>)
    requires Parented(t) && n in t.depth
    ensures |path| == t.depth[n]
    ensures n != Victim ==> |path| > 0 && path[0] == n
    ensures forall i :: 0 <= i < |path| ==> path[i] in t.parent
    ensures forall i {:trigger t.parent[path[i]]} :: 0 <= i < |path| - 1 ==> path[i + 1] == t.parent[path[i]]
    ensures path != [] ==> t.parent[path[|path| - 1]] == Victim
    decreases t.depth[n]
  {
    if n == Victim then [] else [n] + PathToVictim(t, t.parent[n])
  }

  /** `n`, its ancestors, and the victim last. */
  function Lineage(t: Topology, n: nat): seq<nat>
    requires Parented(t) && n in t.depth
  {
    PathToVictim(t, n) + [Victim]
  }

  /** `x` lies in the subtree rooted at `u` (`u` itself included). */
  ghost predicate InSubtree(t: Topology, u: nat, x: nat)
    requires Parented(t)
  {
    x in t.depth && u in Lineage(t, x)
  }

  /** The parent of a router on a lineage is on the lineage too. */
  lemma LineageHasParents(t: Topology, x: nat, c: nat)
    requires Parented(t) && x in t.depth
    requires c in Lineage(t, x) && c != Victim
    ensures c in t.parent && t.parent[c] in Lineage(t, x)
  {
    var path := PathToVictim(t, x);
    var i :| 0 <= i < |path| && path[i] == c;
    if i < |path| - 1 {
      assert Lineage(t, x)[i + 1] == t.parent[c];
    } else {
      assert Lineage(t, x)[|path|] == t.parent[c];
    }
  }

  /** A leaf: a router without successors. */
  ghost predicate IsLeaf(t: Topology, n: nat) {
    n in t.g.succ && n != Victim && t.g.succ[n] == []
  }

  /** The leaves among `ns`, in the order of `ns`. */
  function LeavesIn(t: Topology, ns: seq<nat>): (r: seq<nat>)
    ensures forall n :: n in r <==> n in ns && IsLeaf(t, n)
    ensures NoDup(ns) ==> NoDup(r)
  {
    if ns == [] then []
    else
      var rest := LeavesIn(t, ns[1..]);
      assert forall n :: n in ns[1..] ==> n in ns;
      assert NoDup(ns) ==> NoDup(ns[1..]) && ns[0] !in rest by {
        if NoDup(ns) {
          assert forall i :: 1 <= i < |ns| ==> ns[1..][i - 1] == ns[i];
        }
      }
      if ns[0] in t.g.succ && ns[0] != Victim && t.g.succ[ns[0]] == [] then [ns[0]] + rest else rest
  }

  /** `leaves(G)`: every leaf once, in node order. */
  function Leaves(t: Topology): (r: seq<nat>)
    requires WellFormed(t.g)
    ensures forall n :: n in r <==> IsLeaf(t, n)
    ensures NoDup(r)
  {
    LeavesIn(t, t.g.nodes)
  }

  /** `branch_root_of(G, n)`: the child of the victim whose subtree holds `n`. */
  function BranchRootOf(t: Topology, n: nat): (b: nat)
    requires Parented(t) && n in t.parent
    ensures b in t.parent && t.parent[b] == Victim
    decreases t.depth[n]
  {
    if t.parent[n] == Victim then n else BranchRootOf(t, t.parent[n])
  }

  /** The branch root of `n` is on the lineage of `n`, and a successor of the
      victim. */
  lemma {:induction false} BranchRootOfInSubtree(t: Topology, n: nat)
    requires IsTree(t) && n in t.parent
    ensures InSubtree(t, BranchRootOf(t, n), n)
    ensures BranchRootOf(t, n) in t.g.succ[Victim]
    decreases t.depth[n]
  {
    var p := t.parent[n];
    var b := BranchRootOf(t, n);
    assert Lineage(t, n) == [n] + Lineage(t, p);
    if p != Victim {
      BranchRootOfInSubtree(t, p);
    }
  }

  /** Every node in the subtree of a router `u` hangs under the branch of `u`. */
  lemma {:induction false} SameBranch(t: Topology, u: nat, x: nat)
    requires Parented(t) && u in t.parent && InSubtree(t, u, x)
    ensures x in t.parent && BranchRootOf(t, x) == BranchRootOf(t, u)
    decreases t.depth[x]
  {
    if x != u {
      assert x != Victim by { assert Lineage(t, Victim) == [Victim]; }
      var p := t.parent[x];
      assert Lineage(t, x) == [x] + Lineage(t, p);
      if p != Victim {
        SameBranch(t, u, p);
      }
    }
  }

  /** The branch roots of `xs`, element by element. */
  function BranchRoots(t: Topology, xs: seq<nat>): (r: seq<nat>)
    requires Parented(t) && forall i :: 0 <= i < |xs| ==> xs[i] in t.parent
    ensures |r| == |xs|
    ensures forall i :: 0 <= i < |xs| ==> r[i] == BranchRootOf(t, xs[i])
  {
    seq(|xs|, i requires 0 <= i < |xs| => BranchRootOf(t, xs[i]))
  }

  /** The elements of `xs` under branch `b`, in order. */
  function InBranch(t: Topology, xs: seq<nat>, b: nat): (r: seq<nat>)
    requires Parented(t) && forall i :: 0 <= i < |xs| ==> xs[i] in t.parent
    ensures forall x :: x in r <==> x in xs && BranchRootOf(t, x) == b
    ensures |r| <= |xs|
  {
    if xs == [] then []
    else
      var n := |xs| - 1;
      var rest := InBranch(t, xs[..n], b);
      assert forall x :: x in xs <==> x in xs[..n] || x == xs[n];
      if BranchRootOf(t, xs[n]) == b then rest + [xs[n]] else rest
  }

  /** The dictionary `by_branch` after grouping `xs` element by element. */
  function GroupsOf(t: Topology, xs: seq<nat>): map<nat, seq<nat>>
    requires Parented(t) && forall i :: 0 <= i < |xs| ==> xs[i] in t.parent
  {
    if xs == [] then map[]
    else
      var n := |xs| - 1;
      var m := GroupsOf(t, xs[..n]);
      var b := BranchRootOf(t, xs[n]);
      m[b := (if b in m then m[b] else []) + [xs[n]]]
  }

  /** `by_branch` maps each branch some element of `xs` lies under, and only
      those, to the elements under it in their order in `xs`. */
  lemma {:induction false} GroupsOfSpec(t: Topology, xs: seq<nat>)
    requires Parented(t) && forall i :: 0 <= i < |xs| ==> xs[i] in t.parent
    ensures forall b :: b in GroupsOf(t, xs) <==> b in BranchRoots(t, xs)
    ensures forall b :: b in GroupsOf(t, xs) ==> GroupsOf(t, xs)[b] == InBranch(t, xs, b) != []
  {
    if xs != [] {
      var n := |xs| - 1;
      GroupsOfSpec(t, xs[..n]);
      var m := GroupsOf(t, xs[..n]);
      var b := BranchRootOf(t, xs[n]);
      assert BranchRoots(t, xs) == BranchRoots(t, xs[..n]) + [b];
      if b !in m {
        InBranchNone(t, xs[..n], b);
      }
    }
  }

  /** A branch no element of `xs` lies under has an empty group. */
  lemma {:induction false} InBranchNone(t: Topology, xs: seq<nat>, b: nat)
    requires Parented(t) && forall i :: 0 <= i < |xs| ==> xs[i] in t.parent
    requires b !in BranchRoots(t, xs)
    ensures InBranch(t, xs, b) == []
  {
    if xs != [] {
      var n := |xs| - 1;
      assert BranchRoots(t, xs)[n] == BranchRootOf(t, xs[n]);
      assert BranchRoots(t, xs[..n]) == BranchRoots(t, xs)[..n];
      InBranchNone(t, xs[..n], b);
    }
  }

  /** The `by_branch.setdefault(branch_root_of(G, n), []).append(n)` loop, which
      groups `xs` by branch. `keys` is the dictionary's key order: the branches
      in order of first appearance, so `b in keys` is `b in by_branch`. */
  method GroupByBranch(t: Topology, xs: seq<nat>) returns (keys: seq<nat>, groups: map<nat, seq<nat>>)
    requires Parented(t) && forall i :: 0 <= i < |xs| ==> xs[i] in t.parent
    ensures keys == Distinct(BranchRoots(t, xs))
    ensures groups == GroupsOf(t, xs)
  {
    keys, groups := [], map[];
    for i := 0 to |xs|
      invariant keys == Distinct(BranchRoots(t, xs[..i]))
      invariant groups == GroupsOf(t, xs[..i])
    {
      var b := BranchRootOf(t, xs[i]);
      BranchesStep(t, xs, i);
      GroupsStep(t, xs, i);
      if b !in keys {
        keys := keys + [b];
      }
      groups := groups[b := (if b in groups then groups[b] else []) + [xs[i]]];
    }
    assert xs[..|xs|] == xs;
  }

  /** One more element extends the list of branches by its branch, if new. */
  lemma BranchesStep(t: Topology, xs: seq<nat>, i: nat)
    requires Parented(t) && forall i :: 0 <= i < |xs| ==> xs[i] in t.parent
    requires i < |xs|
    ensures
      var b := BranchRootOf(t, xs[i]);
      var d := Distinct(BranchRoots(t, xs[..i]));
      Distinct(BranchRoots(t, xs[..i + 1])) == (if b in d then d else d + [b])
  {
    assert xs[..i + 1][..i] == xs[..i];
    var r := BranchRoots(t, xs[..i + 1]);
    assert r[..i] == BranchRoots(t, xs[..i]);
  }

  /** One more element joins the group of its branch, opening it if new. */
  lemma GroupsStep(t: Topology, xs: seq<nat>, i: nat)
    requires Parented(t) && forall i :: 0 <= i < |xs| ==> xs[i] in t.parent
    requires i < |xs|
    ensures
      var b := BranchRootOf(t, xs[i]);
      var m := GroupsOf(t, xs[..i]);
      GroupsOf(t, xs[..i + 1]) == m[b := (if b in m then m[b] else []) + [xs[i]]]
  {
    assert xs[..i + 1][..i] == xs[..i];
    assert xs[..i + 1][i] == xs[i];
  }

  /** The largest value of `m` (0 for the empty map). */
  ghost function MaxValue(m: map<nat, nat>): (h: nat)
    ensures forall k :: k in m ==> m[k] <= h
    decreases |m|
  {
    if m == map[] then 0
    else
      var k :| k in m;
      var h := MaxValue(m - {k});
      assert forall j :: j in m ==> j == k || j in m - {k};
      if m[k] >= h then m[k] else h
  }

  /** The depth of the deepest node. */
  ghost function Height(t: Topology): (h: nat)
    ensures forall n :: n in t.depth ==> t.depth[n] <= h
  {
    MaxValue(t.depth)
  }

  /** Every node has a depth, and a successor of `u` is one level deeper than
      `u`: what makes the depth-first walk below terminate. */
  ghost predicate Layered(t: Topology) {
    && (forall n :: n in t.g.succ ==> n in t.depth)
    && (forall u, c {:trigger c in t.g.succ[u]} :: u in t.g.succ && c in t.g.succ[u] ==> c in t.g.succ && t.depth[c] == t.depth[u] + 1)
  }

  lemma TreeIsLayered(t: Topology)
    requires IsTree(t)
    ensures Layered(t)
  {
    forall u, c | u in t.g.succ && c in t.g.succ[u] ensures c in t.g.succ && t.depth[c] == t.depth[u] + 1 {
      assert t.parent[c] == u;
    }
  }

  /** The successors of `u` are nodes one level below `u`. */
  lemma KidsDeeper(t: Topology, u: nat)
    requires Layered(t) && u in t.g.succ && t.g.succ[u] != []
    ensures t.depth[u] + 1 <= Height(t)
    ensures forall y :: y in t.g.succ[u] ==> y in t.g.succ && t.depth[y] >= t.depth[u] + 1
  {
    assert t.g.succ[u][0] in t.g.succ[u];
  }

  /** The nodes a depth-first walk with an explicit stack pops, starting from
      `u` alone: `u`, then the subtrees of its successors, last successor first. */
  ghost function SubtreeWalk(t: Topology, u: nat): seq<nat>
    requires Layered(t) && u in t.g.succ
    decreases Height(t) - t.depth[u], 0
  {
    var kids := t.g.succ[u];
    if kids == [] then [u]
    else
      assert kids[0] in kids;
      [u] + StackWalk(t, kids, t.depth[u] + 1)
  }

  /** The nodes the same walk pops when it starts from stack `s` (top at the
      end); `d` bounds the depths of the stacked nodes from below. */
  ghost function StackWalk(t: Topology, s: seq<nat>, d: nat): seq<nat>
    requires Layered(t) && d <= Height(t)
    requires forall x :: x in s ==> x in t.g.succ && t.depth[x] >= d
    decreases Height(t) - d, 1, |s|
  {
    if s == [] then []
    else
      assert forall x :: x in s[..|s| - 1] ==> x in s;
      SubtreeWalk(t, s[|s| - 1]) + StackWalk(t, s[..|s| - 1], d)
  }

  /** The nodes of `w` without successors, in order: what the walk appends to
      its list of leaves. */
  function Sinks(t: Topology, w: seq<nat>): (r: seq<nat>)
    ensures forall x :: x in r <==> x in w && x in t.g.succ && t.g.succ[x] == []
  {
    if w == [] then []
    else
      var rest := Sinks(t, w[1..]);
      assert forall x :: x in w <==> x == w[0] || x in w[1..];
      if w[0] in t.g.succ && t.g.succ[w[0]] == [] then [w[0]] + rest else rest
  }

  lemma {:induction false} SinksAppend(t: Topology, a: seq<nat>, b: seq<nat>)
    ensures Sinks(t, a + b) == Sinks(t, a) + Sinks(t, b)
  {
    if a == [] {
      assert a + b == b;
    } else {
      assert (a + b)[0] == a[0];
      assert (a + b)[1..] == a[1..] + b;
      SinksAppend(t, a[1..], b);
    }
  }

  /** The bound `d` does not change the walk. */
  lemma {:induction false} StackWalkAnyBound(t: Topology, s: seq<nat>, d1: nat, d2: nat)
    requires Layered(t) && d1 <= Height(t) && d2 <= Height(t)
    requires forall x :: x in s ==> x in t.g.succ && t.depth[x] >= d1 && t.depth[x] >= d2
    ensures StackWalk(t, s, d1) == StackWalk(t, s, d2)
    decreases |s|
  {
    if s != [] {
      assert forall x :: x in s[..|s| - 1] ==> x in s;
      StackWalkAnyBound(t, s[..|s| - 1], d1, d2);
    }
  }

  /** Pushing `b` on top of `a` walks `b` first, then `a`. */
  lemma {:induction false} StackWalkAppend(t: Topology, a: seq<nat>, b: seq<nat>, d: nat)
    requires Layered(t) && d <= Height(t)
    requires forall x :: x in a + b ==> x in t.g.succ && t.depth[x] >= d
    ensures StackWalk(t, a + b, d) == StackWalk(t, b, d) + StackWalk(t, a, d)
    decreases |b|
  {
    if b == [] {
      assert a + b == a;
    } else {
      var n := |b| - 1;
      assert (a + b)[..|a + b| - 1] == a + b[..n];
      assert (a + b)[|a + b| - 1] == b[n];
      assert forall x :: x in a + b[..n] ==> x in a + b;
      assert forall x :: x in b[..n] ==> x in a + b;
      StackWalkAppend(t, a, b[..n], d);
    }
  }

  /** Everything the walk from `u` pops lies in the subtree of `u`. */
  lemma {:induction false} SubtreeWalkSound(t: Topology, u: nat, x: nat)
    requires IsTree(t) && Layered(t) && u in t.g.succ && x in SubtreeWalk(t, u)
    ensures InSubtree(t, u, x)
    decreases Height(t) - t.depth[u], 0
  {
    var kids := t.g.succ[u];
    if x == u {
      SelfInSubtree(t, u);
    } else {
      WalkBelow(t, u, x);
      var c := StackWalkSound(t, kids, t.depth[u] + 1, x);
      ParentInSubtree(t, u, c, x);
    }
  }

  /** Below its root, the walk from `u` is the walk from the successors of `u`. */
  lemma WalkBelow(t: Topology, u: nat, x: nat)
    requires Layered(t) && u in t.g.succ && x in SubtreeWalk(t, u) && x != u
    ensures t.g.succ[u] != [] && t.depth[u] + 1 <= Height(t)
    ensures forall y :: y in t.g.succ[u] ==> y in t.g.succ && t.depth[y] >= t.depth[u] + 1
    ensures x in StackWalk(t, t.g.succ[u], t.depth[u] + 1)
  {
    KidsDeeper(t, u);
  }

  lemma SelfInSubtree(t: Topology, u: nat)
    requires Parented(t) && u in t.depth
    ensures InSubtree(t, u, u)
  {
    assert Lineage(t, u)[0] == u;
  }

  /** The subtree of a successor `c` of `u` lies in the subtree of `u`. */
  lemma ParentInSubtree(t: Topology, u: nat, c: nat, x: nat)
    requires IsTree(t) && u in t.g.succ && c in t.g.succ[u] && InSubtree(t, c, x)
    ensures InSubtree(t, u, x)
  {
    LineageHasParents(t, x, c);
  }

  /** Everything the walk from stack `s` pops lies in the subtree of some
      element of `s`, which is returned. */
  lemma {:induction false} StackWalkSound(t: Topology, s: seq<nat>, d: nat, x: nat) returns (c: nat)
    requires IsTree(t) && Layered(t) && d <= Height(t)
    requires forall y :: y in s ==> y in t.g.succ && t.depth[y] >= d
    requires x in StackWalk(t, s, d)
    ensures c in s && InSubtree(t, c, x)
    decreases Height(t) - d, 1, |s|
  {
    var n := |s| - 1;
    assert forall y :: y in s[..n] ==> y in s;
    if x in SubtreeWalk(t, s[n]) {
      SubtreeWalkSound(t, s[n], x);
      c := s[n];
    } else {
      c := StackWalkSound(t, s[..n], d, x);
    }
  }

  /** The walk from stack `s` pops everything the walk from any element of
      `s` pops. */
  lemma {:induction false} StackWalkIncludes(t: Topology, s: seq<nat>, d: nat, i: nat, x: nat)
    requires Layered(t) && d <= Height(t)
    requires forall y :: y in s ==> y in t.g.succ && t.depth[y] >= d
    requires i < |s| && x in SubtreeWalk(t, s[i])
    ensures x in StackWalk(t, s, d)
    decreases |s|
  {
    var n := |s| - 1;
    if i < n {
      assert forall y :: y in s[..n] ==> y in s;
      assert s[..n][i] == s[i];
      StackWalkIncludes(t, s[..n], d, i, x);
    }
  }

  /** A router on the lineage of `x` other than `x` itself has, just before it
      on that lineage, a successor whose subtree holds `x`. */
  lemma ChildOnLineage(t: Topology, u: nat, x: nat) returns (c: nat)
    requires IsTree(t) && InSubtree(t, u, x) && x != u
    ensures c in t.g.succ[u] && InSubtree(t, c, x)
  {
    var path := PathToVictim(t, x);
    var lin := Lineage(t, x);
    assert lin[0] == x;
    var i :| 0 <= i < |lin| && lin[i] == u;
    c := path[i - 1];
    assert lin[i - 1] == c;
    if i < |path| {
      assert path[i] == t.parent[path[i - 1]];
    }
  }

  /** The walk from `u` pops every node of the subtree of `u`. */
  lemma {:induction false} SubtreeWalkComplete(t: Topology, u: nat, x: nat)
    requires IsTree(t) && Layered(t) && u in t.g.succ && InSubtree(t, u, x)
    ensures x in SubtreeWalk(t, u)
    decreases Height(t) - t.depth[u]
  {
    if x != u {
      var c := ChildOnLineage(t, u, x);
      SubtreeWalkComplete(t, c, x);
      ChildWalkIncluded(t, u, c, x);
    }
  }

  /** The walk from `u` pops everything the walk from a successor of `u` pops. */
  lemma ChildWalkIncluded(t: Topology, u: nat, c: nat, x: nat)
    requires Layered(t) && u in t.g.succ && c in t.g.succ[u] && x in SubtreeWalk(t, c)
    ensures x in SubtreeWalk(t, u)
  {
    var kids := t.g.succ[u];
    var j :| 0 <= j < |kids| && kids[j] == c;
    StackWalkIncludes(t, kids, t.depth[u] + 1, j, x);
  }

  /** The walk from any node meets at least one node without successors. */
  lemma {:induction false} SubtreeWalkHasSink(t: Topology, u: nat)
    requires Layered(t) && u in t.g.succ
    ensures Sinks(t, SubtreeWalk(t, u)) != []
    decreases Height(t) - t.depth[u]
  {
    var kids := t.g.succ[u];
    if kids != [] {
      var n := |kids| - 1;
      var d := t.depth[u] + 1;
      assert kids[n] in kids;
      assert forall y :: y in kids[..n] ==> y in kids;
      SubtreeWalkHasSink(t, kids[n]);
      SinksAppend(t, SubtreeWalk(t, kids[n]), StackWalk(t, kids[..n], d));
      SinksAppend(t, [u], StackWalk(t, kids, d));
    }
  }
}
