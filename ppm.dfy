/** Host selection: which leaves of the tree send attack traffic and which send
    normal traffic, at most one attacker per branch, drawn with a seeded
    generator that is modelled here by the stream of its `_randbelow` results. */
module Ppm {
  import opened Wrappers
  import opened Seqs
  import opened Graphs
  import opened Topology
  import opened Random

  /** `Hosts`: the chosen attacker leaves and normal-user leaves. */
  datatype Hosts = Hosts(attackers: seq<nat>, normalUsers: seq<nat>)

  /** Every leaf is a router. */
  lemma LeavesAreRouters(t: Topology)
    requires IsTree(t) && WellFormed(t.g)
    ensures forall i :: 0 <= i < |Leaves(t)| ==> Leaves(t)[i] in t.parent
  {
    forall i | 0 <= i < |Leaves(t)| ensures Leaves(t)[i] in t.parent {
      assert IsLeaf(t, Leaves(t)[i]);
    }
  }

  /** The branches that hold a leaf, in order of their first leaf. */
  function LeafBranches(t: Topology): (bs: seq<nat>)
    requires IsTree(t) && WellFormed(t.g)
    ensures NoDup(bs)
    ensures forall b :: b in bs <==> exists n :: IsLeaf(t, n) && n in t.parent && BranchRootOf(t, n) == b
  {
    LeavesAreRouters(t);
    var leafs := Leaves(t);
    var bs := Distinct(BranchRoots(t, leafs));
    forall b | b in bs ensures exists n :: IsLeaf(t, n) && n in t.parent && BranchRootOf(t, n) == b {
      var i :| 0 <= i < |BranchRoots(t, leafs)| && BranchRoots(t, leafs)[i] == b;
      assert IsLeaf(t, leafs[i]);
    }
    forall n | IsLeaf(t, n) && n in t.parent ensures BranchRootOf(t, n) in bs {
      var i :| 0 <= i < |leafs| && leafs[i] == n;
      assert BranchRoots(t, leafs)[i] == BranchRootOf(t, n);
    }
    bs
  }

  /** The attackers come, in order, from the leading branches of `order`. */
  ghost predicate FromBranches(t: Topology, attackers: seq<nat>, order: seq<nat>)
    requires Parented(t)
  {
    && |attackers| <= |order|
    && forall i :: 0 <= i < |attackers| ==> attackers[i] in t.parent && BranchRootOf(t, attackers[i]) == order[i]
  }

  /** `numAttackers` attackers, each a leaf, no two under the same branch. */
  ghost predicate AttackersOk(t: Topology, attackers: seq<nat>, numAttackers: int)
    requires Parented(t)
  {
    && |attackers| == numAttackers
    && (forall a :: a in attackers ==> IsLeaf(t, a) && a in t.parent)
    && (forall i, j :: 0 <= i < j < |attackers| ==>
          BranchRootOf(t, attackers[i]) != BranchRootOf(t, attackers[j]))
  }

  /** Normal users that are distinct leaves and not attackers, as many as
      `remaining[:num_normal]` holds, `remaining` being the other leaves. */
  ghost predicate NormalOk(t: Topology, attackers: seq<nat>, normal: seq<nat>, numNormal: int)
    requires WellFormed(t.g)
  {
    && (forall u :: u in normal ==> IsLeaf(t, u) && u !in attackers)
    && NoDup(normal)
    && |attackers| <= |Leaves(t)|
    && |normal| == SliceLen(|Leaves(t)| - |attackers|, numNormal)
  }

  /** What a successful `choose_hosts` promises. */
  ghost predicate HostsOk(t: Topology, h: Hosts, numAttackers: int, numNormal: int)
    requires Parented(t) && WellFormed(t.g)
  {
    AttackersOk(t, h.attackers, numAttackers) && NormalOk(t, h.attackers, h.normalUsers, numNormal)
  }

  /** `choose_hosts(G, num_attackers, num_normal, seed)`: the generator made
      from the seed is the stream `draws`, starting at draw 0. It fails
      exactly when fewer branches hold a leaf than attackers are asked for
      (a negative count included); otherwise the attackers are taken from the
      first `numAttackers` branches in shuffled order. */
  method ChooseHosts(t: Topology, numAttackers: int, numNormal: int, draws: nat -> nat) returns (r: Result<Hosts, string>)
    requires IsTree(t) && WellFormed(t.g)
    ensures r.Err? <==> numAttackers < 0 || |LeafBranches(t)| < numAttackers
    ensures r.Err? ==> r.error == "Not enough branches for requested attackers"
    ensures r.Ok? ==> HostsOk(t, r.value, numAttackers, numNormal)
    ensures r.Ok? ==> FromBranches(t, r.value.attackers, Shuffled(LeafBranches(t), draws, 0))
  {
    var attackers, pos := ChooseAttackers(t, numAttackers, draws);
    if |attackers| != numAttackers {
      return Err("Not enough branches for requested attackers");
    }
    var normal := ChooseNormal(t, attackers, numNormal, draws, pos);
    r := Ok(Hosts(attackers, normal));
  }

  /** Lines 24-34 of `choose_hosts`: one leaf chosen from each of the first
      `numAttackers` shuffled branches; `pos` is the draw position
      afterwards. */
  method ChooseAttackers(t: Topology, numAttackers: int, draws: nat -> nat) returns (attackers: seq<nat>, pos: nat)
    requires IsTree(t) && WellFormed(t.g)
    ensures |attackers| == SliceLen(|LeafBranches(t)|, numAttackers)
    ensures AttackersOk(t, attackers, |attackers|) && NoDup(attackers)
    ensures FromBranches(t, attackers, Shuffled(LeafBranches(t), draws, 0))
    ensures pos == ShuffleDraws(|LeafBranches(t)|) + |attackers|
  {
    var order, groups;
    order, groups, pos := ShuffledBranches(t, draws);
    var chosen := Prefix(order, numAttackers);
    attackers := PickAttackers(chosen, groups, draws, pos);
    pos := pos + |chosen|;
    AttackersChosen(t, groups, order, chosen, attackers);
  }

  /** Every leaf filed under a key of `groups` is a leaf of that branch. */
  ghost predicate GroupsOk(t: Topology, groups: map<nat, seq<nat>>)
    requires Parented(t)
  {
    forall b, x :: b in groups && x in groups[b] ==> x in t.parent && IsLeaf(t, x) && BranchRootOf(t, x) == b
  }

  /** Lines 24-31 of `choose_hosts`: `by_branch` built from the leaves, and its
      keys in shuffled order, each key once, each with a non-empty group. */
  method ShuffledBranches(t: Topology, draws: nat -> nat) returns (order: seq<nat>, groups: map<nat, seq<nat>>, pos: nat)
    requires IsTree(t) && WellFormed(t.g)
    ensures order == Shuffled(LeafBranches(t), draws, 0) && NoDup(order)
    ensures pos == ShuffleDraws(|order|)
    ensures GroupsOk(t, groups)
    ensures forall i :: 0 <= i < |order| ==> order[i] in groups && groups[order[i]] != []
  {
    var leafs := Leaves(t);
    LeavesAreRouters(t);
    var keys;
    keys, groups := GroupByBranch(t, leafs);
    order, pos := Shuffle(keys, draws, 0);
    BranchOrder(t, leafs, keys, groups, order, draws);
  }

  /** `remaining = [lf for lf in leafs if lf not in attackers]`, shuffled with
      the generator at draw `pos`, and cut to `remaining[:num_normal]`. */
  method ChooseNormal(t: Topology, attackers: seq<nat>, numNormal: int, draws: nat -> nat, pos: nat) returns (normal: seq<nat>)
    requires WellFormed(t.g) && NoDup(attackers)
    requires forall a :: a in attackers ==> IsLeaf(t, a)
    ensures NormalOk(t, attackers, normal, numNormal)
  {
    var leafs := Leaves(t);
    var remaining := Without(leafs, attackers);
    var shuffled, _ := Shuffle(remaining, draws, pos);
    normal := Prefix(shuffled, numNormal);
    NormalUsers(t, leafs, attackers, remaining, shuffled, numNormal, draws, pos);
  }

  /** `[rng.choice(by_branch[br]) for br in chosen]` with the generator at
      draw `pos`: one leaf of each chosen group, drawn in turn. */
  method PickAttackers(chosen: seq<nat>, groups: map<nat, seq<nat>>, draws: nat -> nat, pos: nat) returns (attackers: seq<nat>)
    requires forall i :: 0 <= i < |chosen| ==> chosen[i] in groups && groups[chosen[i]] != []
    ensures |attackers| == |chosen|
    ensures forall i :: 0 <= i < |chosen| ==> attackers[i] == Choice(groups[chosen[i]], draws, pos + i)
    ensures forall i :: 0 <= i < |chosen| ==> attackers[i] in groups[chosen[i]]
  {
    attackers := [];
    for k := 0 to |chosen|
      invariant |attackers| == k
      invariant forall i :: 0 <= i < k ==> attackers[i] == Choice(groups[chosen[i]], draws, pos + i)
    {
      attackers := attackers + [Choice(groups[chosen[k]], draws, pos + k)];
    }
  }

  /** The shuffled branch keys are the branches that hold a leaf, each once,
      each with a non-empty group of its own leaves. */
  lemma BranchOrder(t: Topology, leafs: seq<nat>, keys: seq<nat>, groups: map<nat, seq<nat>>, order: seq<nat>, draws: nat -> nat)
    requires IsTree(t) && WellFormed(t.g) && leafs == Leaves(t)
    requires forall i :: 0 <= i < |leafs| ==> leafs[i] in t.parent
    requires keys == Distinct(BranchRoots(t, leafs)) && groups == GroupsOf(t, leafs)
    requires order == Shuffled(keys, draws, 0)
    ensures keys == LeafBranches(t) && NoDup(order) && GroupsOk(t, groups)
    ensures forall i :: 0 <= i < |order| ==> order[i] in groups && groups[order[i]] != []
  {
    ShuffledPermutes(keys, draws, 0);
    NoDupPermutation(keys, order);
    GroupsOfSpec(t, leafs);
    forall i | 0 <= i < |order| ensures order[i] in groups && groups[order[i]] != [] {
      assert order[i] in multiset(keys);
    }
    GroupsOfOk(t, leafs);
  }

  /** `by_branch` files each leaf under its own branch. */
  lemma GroupsOfOk(t: Topology, leafs: seq<nat>)
    requires Parented(t) && WellFormed(t.g) && leafs == Leaves(t)
    requires forall i :: 0 <= i < |leafs| ==> leafs[i] in t.parent
    ensures GroupsOk(t, GroupsOf(t, leafs))
  {
    var groups := GroupsOf(t, leafs);
    GroupsOfSpec(t, leafs);
    forall b, x | b in groups && x in groups[b] ensures x in t.parent && IsLeaf(t, x) && BranchRootOf(t, x) == b {
      assert x in InBranch(t, leafs, b);
    }
  }

  /** One leaf from each of the distinct leading branches of `order`: the
      attackers are distinct leaves under pairwise different branches. */
  lemma AttackersChosen(t: Topology, groups: map<nat, seq<nat>>, order: seq<nat>, chosen: seq<nat>, attackers: seq<nat>)
    requires Parented(t) && GroupsOk(t, groups) && NoDup(order)
    requires |attackers| == |chosen| <= |order| && chosen == order[..|chosen|]
    requires forall i :: 0 <= i < |chosen| ==> chosen[i] in groups && attackers[i] in groups[chosen[i]]
    ensures AttackersOk(t, attackers, |attackers|) && FromBranches(t, attackers, order)
    ensures NoDup(attackers)
  {
    forall i | 0 <= i < |attackers|
      ensures attackers[i] in t.parent && IsLeaf(t, attackers[i]) && BranchRootOf(t, attackers[i]) == order[i]
    {
      assert chosen[i] == order[i];
    }
  }

  /** The normal users are distinct leaves that are not attackers, as many as
      `remaining[:num_normal]` holds. */
  lemma NormalUsers(t: Topology, leafs: seq<nat>, attackers: seq<nat>, remaining: seq<nat>, shuffled: seq<nat>,
                    numNormal: int, draws: nat -> nat, pos: nat)
    requires WellFormed(t.g) && leafs == Leaves(t) && NoDup(attackers)
    requires forall a :: a in attackers ==> IsLeaf(t, a)
    requires remaining == Without(leafs, attackers) && shuffled == Shuffled(remaining, draws, pos)
    ensures NormalOk(t, attackers, Prefix(shuffled, numNormal), numNormal)
  {
    WithoutLength(leafs, attackers);
    ShuffledPermutes(remaining, draws, pos);
    NoDupPermutation(remaining, shuffled);
    var normal := Prefix(shuffled, numNormal);
    forall u | u in normal ensures IsLeaf(t, u) && u !in attackers {
      assert u in multiset(remaining);
    }
  }

}
