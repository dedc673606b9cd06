/** Node sampling: every packet carries one router id, which each router on the
    way to the victim overwrites with probability `p`; the victim ranks the
    routers by how often it saw them and guesses the attacker below the rarest. */
module NodeSampling {
  import opened Wrappers
  import opened Seqs
  import opened Graphs
  import opened Topology

  /** `NodePacket`: the one marking field, `None` until some router marks it. */
  datatype NodePacket = NodePacket(node: Option<nat>)

  /** The mark a packet carries after passing `path`, when the router at index
      `i` of the path marks it exactly if `start + i in coins`: each marking router
      overwrites the field, so the last one wins. */
  function NodeMark(path: seq<nat>, coins: iset<nat>, start: nat): Option<nat>
  {
    if path == [] then None
    else if start + |path| - 1 in coins then Some(path[|path| - 1])
    else NodeMark(path[..|path| - 1], coins, start)
  }

  /** Passing one more router: it overwrites the mark if its coin comes up. */
  lemma NodeMarkStep(path: seq<nat>, coins: iset<nat>, start: nat, i: nat)
    requires i < |path|
    ensures NodeMark(path[..i + 1], coins, start) ==
      if start + i in coins then Some(path[i]) else NodeMark(path[..i], coins, start)
  {
    assert path[..i + 1][..i] == path[..i];
  }

  /** No router marks the packet exactly when the field stays `None`. */
  lemma {:induction false} NodeMarkNone(path: seq<nat>, coins: iset<nat>, start: nat)
    ensures NodeMark(path, coins, start) == None <==> forall k :: start <= k < start + |path| ==> k !in coins
  {
    if path != [] {
      var n := |path| - 1;
      NodeMarkNone(path[..n], coins, start);
    }
  }

  /** A marked packet carries the router at the last index whose coin came up. */
  lemma {:induction false} NodeMarkLast(path: seq<nat>, coins: iset<nat>, start: nat, i: nat)
    requires i < |path| && start + i in coins
    requires forall k :: start + i < k < start + |path| ==> k !in coins
    ensures NodeMark(path, coins, start) == Some(path[i])
  {
    var n := |path| - 1;
    if i < n {
      assert path[..n][i] == path[i];
      assert start + n !in coins;
      NodeMarkLast(path[..n], coins, start, i);
    }
  }

  /** The mark, when there is one, is a router of the path. */
  lemma {:induction false} NodeMarkOnPath(path: seq<nat>, coins: iset<nat>, start: nat)
    ensures NodeMark(path, coins, start).Some? ==> NodeMark(path, coins, start).value in path
  {
    if path != [] {
      var n := |path| - 1;
      NodeMarkOnPath(path[..n], coins, start);
      assert forall x :: x in path[..n] ==> x in path;
    }
  }

  /** `NodeSampler`: its random generator is the stream `coins`, where
      `k in coins` says whether the `k`-th draw `rng.random()` fell below `p`,
      and `pos` counts the draws used so far. */
  class NodeSampler {
    const coins: iset<nat>
    var pos: nat

    constructor(coins: iset<nat>)
      ensures this.coins == coins && pos == 0
    {
      this.coins := coins;
      pos := 0;
    }

    /** `forward`: sends one packet from `sourceLeaf` to the victim, drawing
        one coin per router on the way. */
    method Forward(t: Topology, sourceLeaf: nat) returns (pkt: NodePacket)
      requires Parented(t) && sourceLeaf in t.depth
      modifies this
      ensures pos == old(pos) + |PathToVictim(t, sourceLeaf)|
      ensures pkt.node == NodeMark(PathToVictim(t, sourceLeaf), coins, old(pos))
    {
      var path := PathToVictim(t, sourceLeaf);
      var start := pos;
      pkt := NodePacket(None);
      for i := 0 to |path|
        invariant pos == start + i
        invariant pkt.node == NodeMark(path[..i], coins, start)
      {
        NodeMarkStep(path, coins, start, i);
        if pos in coins {
          pkt := pkt.(node := Some(path[i]));
        }
        pos := pos + 1;
      }
      assert path[..|path|] == path;
    }
  }

  /** How often `x` occurs in `obs`: its `Counter` count. */
  function Count(obs: seq<nat>, x: nat): nat
  {
    multiset(obs)[x]
  }

  /** The sort key of `most_common`: counts, largest first. */
  function ByCount(obs: seq<nat>): nat -> int
  {
    (x: nat) => -(Count(obs, x) as int)
  }

  /** `node_reconstruct_order`: the routers of `obs`, each once, most often
      seen first; routers seen equally often in the order they were first seen
      (`Counter.most_common`, which is a stable sort on the counts). */
  function ReconstructOrder(obs: seq<nat>): seq<nat>
  {
    SortBy(Distinct(obs), ByCount(obs))
  }

  /** The order lists every observed router, and each once. */
  lemma ReconstructOrderElements(obs: seq<nat>)
    ensures NoDup(ReconstructOrder(obs))
    ensures forall x :: x in ReconstructOrder(obs) <==> x in obs
  {
    var d := Distinct(obs);
    var r := ReconstructOrder(obs);
    NoDupPermutation(d, r);
    assert forall x :: x in r <==> x in multiset(r);
    assert forall x :: x in d <==> x in multiset(d);
    forall x | x in obs ensures x in d {
      var i :| 0 <= i < |obs| && obs[i] == x;
    }
  }

  /** More often observed routers come first. */
  lemma ReconstructOrderByCount(obs: seq<nat>)
    ensures var r := ReconstructOrder(obs);
      forall i, j :: 0 <= i < j < |r| ==> Count(obs, r[i]) >= Count(obs, r[j])
  {
    SortByIsSorted(Distinct(obs), ByCount(obs));
  }

  /** Routers observed equally often come in the order of their first
      observation. */
  lemma ReconstructOrderTies(obs: seq<nat>)
    ensures var r := ReconstructOrder(obs);
      forall i, j :: 0 <= i < j < |r| && Count(obs, r[i]) == Count(obs, r[j]) ==>
        r[i] in obs && r[j] in obs && IndexOf(obs, r[i]) < IndexOf(obs, r[j])
  {
    var key := ByCount(obs);
    var d := Distinct(obs);
    var r := SortBy(d, key);
    SortByIsStable(d, key);
    forall i, j | 0 <= i < j < |r| && Count(obs, r[i]) == Count(obs, r[j])
      ensures r[i] in obs && r[j] in obs && IndexOf(obs, r[i]) < IndexOf(obs, r[j])
    {
      assert key(r[i]) == key(r[j]);
      TieStep(obs, IndexOf(d, r[i]), IndexOf(d, r[j]));
    }
  }

  lemma TieStep(obs: seq<nat>, a: nat, b: nat)
    requires a < b < |Distinct(obs)|
    ensures var d := Distinct(obs);
      d[a] in obs && d[b] in obs && IndexOf(obs, d[a]) < IndexOf(obs, d[b])
  {
    DistinctKeepsFirstOccurrenceOrder(obs, a, b);
  }

  /** The elements of `xs` that occur in `obs`, in the order of `xs`. */
  function KeepIn(xs: seq<nat>, obs: seq<nat>): (r: seq<nat>)
    ensures forall x :: x in r <==> x in xs && x in obs
    ensures r != [] ==> r[0] in xs && forall j :: 0 <= j < IndexOf(xs, r[0]) ==> xs[j] !in obs
  {
    if xs == [] then []
    else
      var rest := KeepIn(xs[1..], obs);
      assert forall x :: x in xs <==> x == xs[0] || x in xs[1..];
      if xs[0] in obs then [xs[0]] + rest
      else
        assert rest != [] ==> IndexOf(xs, rest[0]) == 1 + IndexOf(xs[1..], rest[0]);
        rest
  }

  /** The leaves the depth-first walk from `f` collects, in the order it
      collects them. */
  ghost function WalkLeaves(t: Topology, f: nat): seq<nat>
    requires Layered(t) && f in t.g.succ
  {
    Sinks(t, SubtreeWalk(t, f))
  }

  /** What `node_guess_attacker_leaf` returns: nothing without observations;
      otherwise, below the rarest router `f`, the first collected leaf that was
      observed, or else the first collected leaf (`f` itself if none). */
  ghost function GuessLeaf(t: Topology, ordered: seq<nat>, obs: seq<nat>): Option<nat>
    requires Layered(t)
    requires ordered != [] ==> ordered[|ordered| - 1] in t.g.succ
  {
    if ordered == [] then None
    else
      var leafs := WalkLeaves(t, ordered[|ordered| - 1]);
      if leafs == [] then Some(ordered[|ordered| - 1])
      else if obs != [] && KeepIn(leafs, obs) != [] then Some(KeepIn(leafs, obs)[0])
      else Some(leafs[0])
  }

  /** The walk from a node with successors pops it, then walks from its
      successors (the depth bound does not matter). */
  lemma WalkKids(t: Topology, u: nat)
    requires Layered(t) && u in t.g.succ && t.g.succ[u] != []
    ensures SubtreeWalk(t, u) == [u] + StackWalk(t, t.g.succ[u], 0)
  {
    KidsDeeper(t, u);
    StackWalkAnyBound(t, t.g.succ[u], 0, t.depth[u] + 1);
  }

  /** The walk from a stack first walks from its top. */
  lemma WalkPop(t: Topology, s: seq<nat>)
    requires Layered(t) && s != []
    requires forall x :: x in s ==> x in t.g.succ
    ensures s[|s| - 1] in t.g.succ && forall x :: x in s[..|s| - 1] ==> x in t.g.succ
    ensures StackWalk(t, s, 0) == SubtreeWalk(t, s[|s| - 1]) + StackWalk(t, s[..|s| - 1], 0)
  {
    assert s[|s| - 1] in s;
    assert forall x :: x in s[..|s| - 1] ==> x in s;
  }

  /** One step of the walk: popping `u` off the stack leaves the rest of the
      stack with the successors of `u` pushed. */
  lemma WalkStep(t: Topology, s: seq<nat>)
    requires Layered(t) && s != []
    requires forall x :: x in s ==> x in t.g.succ
    ensures var u := s[|s| - 1];
      && (forall x :: x in s[..|s| - 1] + t.g.succ[u] ==> x in t.g.succ)
      && StackWalk(t, s, 0) == [u] + StackWalk(t, s[..|s| - 1] + t.g.succ[u], 0)
  {
    var n := |s| - 1;
    var u := s[n];
    var rest := s[..n];
    var kids := t.g.succ[u];
    WalkPop(t, s);
    assert forall x :: x in kids ==> x in t.g.succ;
    assert forall x :: x in rest + kids ==> x in rest || x in kids;
    var a := StackWalk(t, kids, 0);
    var b := StackWalk(t, rest, 0);
    StackWalkAppend(t, rest, kids, 0);
    if kids != [] {
      WalkKids(t, u);
    } else {
      assert rest + kids == rest;
      assert a == [];
    }
    AppendAssoc([u], a, b);
  }

  /** `node_guess_attacker_leaf`: collects the leaves below the rarest
      observed router with an explicit stack, then prefers one that was
      itself observed. */
  method GuessAttackerLeaf(t: Topology, ordered: seq<nat>, obs: seq<nat>) returns (r: Option<nat>)
    requires Layered(t)
    requires ordered != [] ==> ordered[|ordered| - 1] in t.g.succ
    ensures r == GuessLeaf(t, ordered, obs)
  {
    if ordered == [] {
      return None;
    }
    var farthest := ordered[|ordered| - 1];
    var stack := [farthest];
    var leafs: seq<nat> := [];
    assert StackWalk(t, stack, 0) == SubtreeWalk(t, farthest) by {
      assert stack[..0] == [];
      assert StackWalk(t, [], 0) == [];
    }
    while stack != []
      invariant forall x :: x in stack ==> x in t.g.succ
      invariant leafs + Sinks(t, StackWalk(t, stack, 0)) == WalkLeaves(t, farthest)
      decreases |StackWalk(t, stack, 0)|
    {
      WalkStep(t, stack);
      var u := stack[|stack| - 1];
      var rest := stack[..|stack| - 1];
      var kids := t.g.succ[u];
      var w := StackWalk(t, rest + kids, 0);
      SinksAppend(t, [u], w);
      AppendAssoc(leafs, Sinks(t, [u]), Sinks(t, w));
      if kids == [] {
        assert Sinks(t, [u]) == [u];
        assert rest + kids == rest;
        leafs := leafs + [u];
        stack := rest;
      } else {
        assert Sinks(t, [u]) == [];
        stack := rest + kids;
      }
    }
    assert leafs == WalkLeaves(t, farthest);
    if leafs == [] {
      return Some(farthest);
    }
    if obs != [] {
      var seen := KeepIn(leafs, obs);
      if seen != [] {
        return Some(seen[0]);
      }
    }
    return Some(leafs[0]);
  }

  /** With observations, the guess is a node without successors in the subtree
      of the rarest router. */
  lemma GuessLeafSound(t: Topology, ordered: seq<nat>, obs: seq<nat>)
    requires IsTree(t) && Layered(t)
    requires ordered != [] && ordered[|ordered| - 1] in t.g.succ
    ensures var r := GuessLeaf(t, ordered, obs);
      && r.Some?
      && InSubtree(t, ordered[|ordered| - 1], r.value)
      && r.value in t.g.succ && t.g.succ[r.value] == []
  {
    var f := ordered[|ordered| - 1];
    var leafs := WalkLeaves(t, f);
    SubtreeWalkHasSink(t, f);
    var v := GuessLeaf(t, ordered, obs).value;
    assert v in leafs;
    SubtreeWalkSound(t, f, v);
  }

  /** The guess was itself observed exactly when some leaf below the rarest
      router was observed. */
  lemma GuessLeafPrefersObserved(t: Topology, ordered: seq<nat>, obs: seq<nat>)
    requires IsTree(t) && Layered(t)
    requires ordered != [] && ordered[|ordered| - 1] in t.g.succ
    ensures var f := ordered[|ordered| - 1];
      GuessLeaf(t, ordered, obs).value in obs <==>
        exists x :: InSubtree(t, f, x) && x in t.g.succ && t.g.succ[x] == [] && x in obs
  {
    var f := ordered[|ordered| - 1];
    GuessLeafSound(t, ordered, obs);
    var v := GuessLeaf(t, ordered, obs).value;
    if x :| InSubtree(t, f, x) && x in t.g.succ && t.g.succ[x] == [] && x in obs {
      SubtreeWalkComplete(t, f, x);
      assert x in KeepIn(WalkLeaves(t, f), obs);
    }
  }

  /** A guess that was observed is the first observed leaf the walk collects. */
  lemma GuessLeafFirstObserved(t: Topology, ordered: seq<nat>, obs: seq<nat>)
    requires Layered(t)
    requires ordered != [] && ordered[|ordered| - 1] in t.g.succ
    requires GuessLeaf(t, ordered, obs).value in obs
    ensures var leafs := WalkLeaves(t, ordered[|ordered| - 1]);
      var v := GuessLeaf(t, ordered, obs).value;
      v in leafs && forall j :: 0 <= j < IndexOf(leafs, v) ==> leafs[j] !in obs
  {
    SubtreeWalkHasSink(t, ordered[|ordered| - 1]);
  }

  /** The sort key of `sorted(by_branch.items(), key=len(obs), reverse=True)`:
      larger groups first. */
  function BySize(groups: map<nat, seq<nat>>): nat -> int
  {
    (b: nat) => if b in groups then -|groups[b]| else 0
  }

  /** What `node_guess_two_attackers` promises of its list: distinct leaves,
      each under one of `branches`, no two under the same branch. */
  ghost predicate LeafPerBranch(t: Topology, guesses: seq<nat>, branches: seq<nat>)
    requires Parented(t)
  {
    && NoDup(guesses)
    && (forall v :: v in guesses ==> IsLeaf(t, v) && v in t.parent && BranchRootOf(t, v) in branches)
    && (forall i, j :: 0 <= i < j < |guesses| ==> BranchRootOf(t, guesses[i]) != BranchRootOf(t, guesses[j]))
  }

  /** A leaf of a branch not yet visited extends the list. */
  lemma LeafPerBranchAdd(t: Topology, guesses: seq<nat>, branches: seq<nat>, v: nat)
    requires Parented(t) && LeafPerBranch(t, guesses, branches)
    requires IsLeaf(t, v) && v in t.parent && BranchRootOf(t, v) !in branches
    ensures LeafPerBranch(t, guesses + [v], branches + [BranchRootOf(t, v)])
  {
    var r := guesses + [v];
    assert forall i :: 0 <= i < |guesses| ==> r[i] == guesses[i] && r[i] in guesses;
  }

  /** A leaf of a branch not yet visited is not in the list yet. */
  lemma LeafPerBranchFresh(t: Topology, guesses: seq<nat>, branches: seq<nat>, v: nat)
    requires Parented(t) && LeafPerBranch(t, guesses, branches)
    requires v in t.parent && BranchRootOf(t, v) !in branches
    ensures v !in guesses
  {
  }

  /** Appending the guess of the next branch keeps each guess that of the
      branch at its index. */
  lemma GuessesStep(t: Topology, obs: seq<nat>, order: seq<nat>, guesses: seq<nat>, g: nat)
    requires IsTree(t) && forall i :: 0 <= i < |obs| ==> obs[i] in t.parent
    requires |guesses| < |order| && BranchGuess(t, obs, order[|guesses|]) == Some(g)
    requires forall i :: 0 <= i < |guesses| ==> BranchGuess(t, obs, order[i]) == Some(guesses[i])
    ensures var r := guesses + [g];
      forall i :: 0 <= i < |r| ==> BranchGuess(t, obs, order[i]) == Some(r[i])
  {
    var r := guesses + [g];
    forall i | 0 <= i < |r| ensures BranchGuess(t, obs, order[i]) == Some(r[i]) {
      if i < |guesses| {
        assert r[i] == guesses[i];
      }
    }
  }

  /** The order of observed routers is one `node_guess_attacker_leaf` accepts. */
  lemma GuessReady(t: Topology, obs: seq<nat>)
    requires IsTree(t) && forall x :: x in obs ==> x in t.parent
    ensures Layered(t)
    ensures var ordered := ReconstructOrder(obs);
      ordered != [] ==> ordered[|ordered| - 1] in t.g.succ
  {
    TreeIsLayered(t);
    ReconstructOrderElements(obs);
    var ordered := ReconstructOrder(obs);
    if ordered != [] {
      RouterIsNode(t, ordered[|ordered| - 1]);
    }
  }

  /** The order `node_guess_two_attackers` visits the observed branches in:
      the branches sorted by their number of marks, most first. */
  function VisitOrder(t: Topology, obs: seq<nat>): seq<nat>
    requires Parented(t) && forall i :: 0 <= i < |obs| ==> obs[i] in t.parent
  {
    SortBy(Distinct(BranchRoots(t, obs)), BySize(GroupsOf(t, obs)))
  }

  /** The guess `node_guess_two_attackers` takes from branch `b`:
      `node_guess_attacker_leaf` on the ranking of the marks under `b`, with
      those marks as the observed leaves. */
  ghost function BranchGuess(t: Topology, obs: seq<nat>, b: nat): Option<nat>
    requires IsTree(t) && forall i :: 0 <= i < |obs| ==> obs[i] in t.parent
  {
    var grp := InBranch(t, obs, b);
    GuessReady(t, grp);
    GuessLeaf(t, ReconstructOrder(grp), grp)
  }

  /** `node_guess_two_attackers`: groups the marks by branch, visits the
      branches with more marks first, guesses one attacker leaf per branch,
      and stops once it has `maxAttackers` guesses (checked after each
      branch, so at least one branch is always tried). Python's test
      `if g and g not in guesses` drops a guess of `None`, of node 0 or of a
      repeated node; on a tree none of these occurs, so every visited branch
      contributes its guess. */
  method GuessTwoAttackers(t: Topology, obs: seq<nat>, maxAttackers: int) returns (guesses: seq<nat>)
    requires IsTree(t)
    requires forall i :: 0 <= i < |obs| ==> obs[i] in t.parent
    ensures LeafPerBranch(t, guesses, Distinct(BranchRoots(t, obs)))
    ensures var most := if maxAttackers >= 1 then maxAttackers else 1;
      |guesses| == if most <= |VisitOrder(t, obs)| then most else |VisitOrder(t, obs)|
    ensures forall i :: 0 <= i < |guesses| ==> BranchGuess(t, obs, VisitOrder(t, obs)[i]) == Some(guesses[i])
  {
    var keys, groups := GroupByBranch(t, obs);
    var order := SortBy(keys, BySize(groups));
    guesses := [];
    var k := 0;
    while k < |order|
      invariant k <= |order|
      invariant LeafPerBranch(t, guesses, order[..k])
      invariant |guesses| == k
      invariant k > 0 ==> k < maxAttackers
      invariant forall i :: 0 <= i < k ==> BranchGuess(t, obs, order[i]) == Some(guesses[i])
    {
      var g := GuessInBranch(t, obs, keys, groups, order, k);
      PrefixStep(order, k);
      LeafPerBranchFresh(t, guesses, order[..k], g);
      if g != 0 && g !in guesses {
        LeafPerBranchAdd(t, guesses, order[..k], g);
        GuessesStep(t, obs, order, guesses, g);
        guesses := guesses + [g];
      }
      k := k + 1;
      if |guesses| >= maxAttackers {
        break;
      }
    }
    LeafPerBranchWithin(t, guesses, order, k, keys);
  }

  /** The single-attacker guess for the `k`-th visited branch, which was not
      visited before: `node_guess_attacker_leaf` on that branch's marks,
      never node 0, and a leaf under that branch. */
  method GuessInBranch(t: Topology, obs: seq<nat>, keys: seq<nat>, groups: map<nat, seq<nat>>, order: seq<nat>, k: nat)
    returns (g: nat)
    requires IsTree(t)
    requires forall i :: 0 <= i < |obs| ==> obs[i] in t.parent
    requires keys == Distinct(BranchRoots(t, obs)) && groups == GroupsOf(t, obs)
    requires order == SortBy(keys, BySize(groups)) && k < |order|
    ensures order[k] in groups && order[k] !in order[..k]
    ensures Some(g) == BranchGuess(t, obs, order[k]) && g != 0
    ensures IsLeaf(t, g) && g in t.parent && BranchRootOf(t, g) == order[k]
  {
    TreeIsLayered(t);
    VisitedBranch(t, obs, keys, order, k);
    GroupOf(t, obs, order[k]);
    ghost var last := GroupLast(t, obs, order[k]);
    var grp := groups[order[k]];
    var ordered := ReconstructOrder(grp);
    assert last == ordered[|ordered| - 1];
    RouterIsNode(t, last);
    var r := GuessAttackerLeaf(t, ordered, grp);
    GuessLeafSound(t, ordered, grp);
    g := r.value;
    SameBranch(t, last, g);
  }

  /** The list stays valid for a permutation of the visited branches' list. */
  lemma LeafPerBranchWithin(t: Topology, guesses: seq<nat>, order: seq<nat>, k: nat, keys: seq<nat>)
    requires Parented(t) && k <= |order| && LeafPerBranch(t, guesses, order[..k])
    requires multiset(order) == multiset(keys)
    ensures LeafPerBranch(t, guesses, keys)
  {
    forall v | v in guesses ensures BranchRootOf(t, v) in keys {
      var b := BranchRootOf(t, v);
      assert b in order;
      assert b in multiset(order);
    }
  }

  /** The `k`-th visited branch is a branch of some mark, not visited before. */
  lemma VisitedBranch(t: Topology, obs: seq<nat>, keys: seq<nat>, order: seq<nat>, k: nat)
    requires Parented(t) && forall i :: 0 <= i < |obs| ==> obs[i] in t.parent
    requires keys == Distinct(BranchRoots(t, obs))
    requires multiset(order) == multiset(keys) && k < |order|
    ensures order[k] in BranchRoots(t, obs) && order[k] !in order[..k]
  {
    NoDupPermutation(keys, order);
    assert order[k] in multiset(order);
    assert order[k] in keys;
  }

  /** The group of a branch is not empty, and its rarest mark is a router
      under that branch. */
  lemma GroupLast(t: Topology, obs: seq<nat>, b: nat) returns (last: nat)
    requires Parented(t) && forall i :: 0 <= i < |obs| ==> obs[i] in t.parent
    requires b in BranchRoots(t, obs)
    ensures b in GroupsOf(t, obs)
    ensures var ordered := ReconstructOrder(GroupsOf(t, obs)[b]);
      ordered != [] && last == ordered[|ordered| - 1]
    ensures last in t.parent && BranchRootOf(t, last) == b
  {
    GroupOf(t, obs, b);
    var grp := InBranch(t, obs, b);
    var ordered := ReconstructOrder(grp);
    ReconstructOrderElements(grp);
    assert grp[0] in ordered;
    last := ordered[|ordered| - 1];
    InBranchMember(t, obs, b, last);
  }

  /** A mark in the group of branch `b` is a router under `b`. */
  lemma InBranchMember(t: Topology, obs: seq<nat>, b: nat, x: nat)
    requires Parented(t) && forall i :: 0 <= i < |obs| ==> obs[i] in t.parent
    requires x in InBranch(t, obs, b)
    ensures x in t.parent && BranchRootOf(t, x) == b
  {
    var i :| 0 <= i < |obs| && obs[i] == x;
  }

  /** The group of a branch of some mark holds the marks under it. */
  lemma GroupOf(t: Topology, obs: seq<nat>, b: nat)
    requires Parented(t) && forall i :: 0 <= i < |obs| ==> obs[i] in t.parent
    requires b in BranchRoots(t, obs)
    ensures b in GroupsOf(t, obs) && GroupsOf(t, obs)[b] == InBranch(t, obs, b) != []
  {
    GroupsOfSpec(t, obs);
  }
}
