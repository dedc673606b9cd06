/** One trial of the experiment with a single attacker: normal users send one
    packet per tick, the attacker `x` packets per tick, and after every attack
    packet the victim tries both reconstructions and records the first packet
    count at which each one names the attacker. */
module Experiment {
  import opened Wrappers
  import opened Seqs
  import opened Random
  import opened Topology
  import opened NodeSampling
  import opened EdgeSampling
  import opened Ppm
  import opened Graphs

  /** `NORMAL_RATE`: packets each normal user sends per tick. */
  const NormalRate: nat := 1

  /** What `run_trial_one_attacker` returns: the two success flags and the
      attack packet counts at which each scheme converged. */
  datatype Trial = Trial(nodeSuccess: nat, edgeSuccess: nat, nodeConv: Option<nat>, edgeConv: Option<nat>)

  /** The fixed part of a trial: the tree, the attacker, the normal users,
      and the coin streams the two samplers were seeded with. */
  datatype Scenario = Scenario(t: Topology, attacker: nat, normal: seq<nat>,
                               nodeCoins: iset<nat>, edgeCoins: iset<nat>)

  /** The hosts are nodes of a tree. */
  ghost predicate Ready(sc: Scenario) {
    IsTree(sc.t) && sc.attacker in sc.t.depth && forall b :: b in sc.normal ==> b in sc.t.depth
  }

  /** What the samplers see of a trial: the routers an attack packet passes,
      the coins one tick of normal traffic draws from each sampler, and the
      two coin streams. */
  datatype Traffic = Traffic(path: seq<nat>, perTick: nat, nodeCoins: iset<nat>, edgeCoins: iset<nat>)

  /** The coins `r` packets from `b` draw from a sampler: one per router on
      the way, for each packet. */
  function UserDraws(t: Topology, b: nat, r: nat): nat
    requires Parented(t) && b in t.depth
  {
    if r == 0 then 0 else UserDraws(t, b, r - 1) + |PathToVictim(t, b)|
  }

  /** The coins one tick of normal traffic from `normal` draws from each
      sampler: `NormalRate` packets per user. */
  function NormalDraws(t: Topology, normal: seq<nat>): nat
    requires Parented(t) && forall b :: b in normal ==> b in t.depth
  {
    if normal == [] then 0
    else
      var n := |normal| - 1;
      NormalDraws(t, normal[..n]) + UserDraws(t, normal[n], NormalRate)
  }

  /** The traffic of a scenario. */
  function TrafficOf(sc: Scenario): (tr: Traffic)
    requires Ready(sc)
    ensures forall x :: x in tr.path ==> x in sc.t.parent
  {
    Traffic(PathToVictim(sc.t, sc.attacker), NormalDraws(sc.t, sc.normal), sc.nodeCoins, sc.edgeCoins)
  }

  /** The victim's state after some attack packets: both observation lists,
      both convergence latches and the attack packet count. */
  datatype Progress = Progress(nodeObs: seq<nat>, edgeObs: seq<EdgePacket>,
                               nodeConv: Option<nat>, edgeConv: Option<nat>, seen: nat)

  /** `i` attack packets make whole ticks of `k`. */
  predicate TickBoundary(k: int, i: nat)
    decreases i
  {
    i == 0 || (k > 0 && i >= k && TickBoundary(k, i - k))
  }

  /** The coins `j` attack packets draw from a sampler, `len` routers
      marking or not on each. */
  function Steps(len: nat, j: nat): nat
  {
    if j == 0 then 0 else Steps(len, j - 1) + len
  }

  /** The coin position at which attack packet `i` (from 0) enters either
      sampler, `k` attack packets being sent per tick: every tick begins with
      the normal traffic, then its attack packets follow one another. */
  function Start(tr: Traffic, k: int, i: nat): nat
    requires k > 0
    decreases i
  {
    if i < k then tr.perTick + Steps(|tr.path|, i)
    else Start(tr, k, i - k) + tr.perTick + Steps(|tr.path|, k)
  }

  /** The node observations after `n` attack packets: the marks of those that
      arrived marked, in order. */
  function NodeObs(tr: Traffic, k: int, n: nat): (obs: seq<nat>)
    requires k > 0 || n == 0
    ensures |obs| <= n
    ensures forall x :: x in obs ==> x in tr.path
  {
    if n == 0 then []
    else
      var mark := NodeMark(tr.path, tr.nodeCoins, Start(tr, k, n - 1));
      NodeMarkOnPath(tr.path, tr.nodeCoins, Start(tr, k, n - 1));
      NodeObs(tr, k, n - 1) + (if mark.Some? then [mark.value] else [])
  }

  /** The edge observations after `n` attack packets: one per packet. */
  function EdgeObs(tr: Traffic, k: int, n: nat): (obs: seq<EdgePacket>)
    requires k > 0 || n == 0
    ensures |obs| == n
  {
    if n == 0 then []
    else EdgeObs(tr, k, n - 1) + [EdgeRun(tr.path, tr.edgeCoins, Start(tr, k, n - 1))]
  }

  /** The node-sampling guess from `obs`, made without the list of observed
      leaves: `node_guess_attacker_leaf(G, node_reconstruct_order(obs))`. */
  ghost function NodeGuess(t: Topology, obs: seq<nat>): Option<nat>
    requires IsTree(t) && forall x :: x in obs ==> x in t.parent
  {
    GuessReady(t, obs);
    var ordered := ReconstructOrder(obs);
    GuessLeaf(t, ordered, [])
  }

  /** The edge-sampling guess from `obs`: the first router of the path
      rebuilt from the samples, if there is one. */
  ghost function EdgeGuess(obs: seq<EdgePacket>): Option<nat>
  {
    var path := Reverse(FullChain(Buckets(obs, Victim)));
    if path == [] then None else Some(path[0])
  }

  /** The check after attack packet `n`: the node-sampling guess from the
      marks that `attacker`'s traffic `tr` delivered names the attacker. */
  ghost predicate NodeHit(t: Topology, attacker: nat, tr: Traffic, k: int, n: nat) {
    && IsTree(t) && (forall x :: x in tr.path ==> x in t.parent) && (k > 0 || n == 0)
    && NodeGuess(t, NodeObs(tr, k, n)) == Some(attacker)
  }

  /** The check after attack packet `n`: the edge-sampling guess from the
      samples that `attacker`'s traffic `tr` delivered names the attacker. */
  ghost predicate EdgeHit(attacker: nat, tr: Traffic, k: int, n: nat) {
    (k > 0 || n == 0) && EdgeGuess(EdgeObs(tr, k, n)) == Some(attacker)
  }

  /** All node-sampling checks of a trial, by packet count. */
  ghost function NodeHits(t: Topology, attacker: nat, tr: Traffic, k: int): iset<nat> {
    iset n: nat | NodeHit(t, attacker, tr, k, n)
  }

  /** All edge-sampling checks of a trial, by packet count. */
  ghost function EdgeHits(attacker: nat, tr: Traffic, k: int): iset<nat> {
    iset n: nat | EdgeHit(attacker, tr, k, n)
  }

  /** `nh` and `eh` give the outcomes of the node- and edge-sampling checks
      of the trial, by packet count. */
  ghost predicate HitsAre(t: Topology, attacker: nat, tr: Traffic, k: int, nh: iset<nat>, eh: iset<nat>) {
    && (forall n {:trigger NodeHit(t, attacker, tr, k, n)} :: n in nh <==> NodeHit(t, attacker, tr, k, n))
    && (forall n {:trigger EdgeHit(attacker, tr, k, n)} :: n in eh <==> EdgeHit(attacker, tr, k, n))
  }

  /** The check sets of a trial are its checks' outcomes. */
  lemma HitsOf(t: Topology, attacker: nat, tr: Traffic, k: int)
    ensures HitsAre(t, attacker, tr, k, NodeHits(t, attacker, tr, k), EdgeHits(attacker, tr, k))
  {
  }

  /** A convergence latch after a check at packet count `n`: once set it
      keeps its value, otherwise it is set to `n` when the check succeeds. */
  function Latch(conv: Option<nat>, hit: bool, n: nat): Option<nat>
  {
    if conv.Some? then conv else if hit then Some(n) else None
  }

  /** A latch after the checks following packets `1 .. n`, the check after
      packet `i` succeeding when `i` is in `hit`. */
  function Conv(hit: iset<nat>, n: nat): Option<nat>
  {
    if n == 0 then None else Latch(Conv(hit, n - 1), n in hit, n)
  }

  /** Both latches are set after `n` packets, the checks being `nh` and `eh`. */
  ghost predicate Both(nh: iset<nat>, eh: iset<nat>, n: nat) {
    Conv(nh, n).Some? && Conv(eh, n).Some?
  }

  /** Both latches of a victim state are set. */
  predicate Done(p: Progress) {
    p.nodeConv.Some? && p.edgeConv.Some?
  }

  /** The packet counts after which both latches are set. */
  ghost function BothSet(nh: iset<nat>, eh: iset<nat>): iset<nat> {
    iset n | Both(nh, eh, n)
  }

  /** The attack packet count at which a trial stops, `b` attack packets
      having been sent before the current tick and `j` within it, both
      latches being set after the counts in `done`: the victim checks after
      every attack packet and the trial ends as soon as both are set;
      otherwise the tick runs to `k` packets, and a new tick begins while
      fewer than `maxPackets` have been sent. */
  function Stop(k: int, maxPackets: int, done: iset<nat>, b: nat, j: nat): nat
    requires k > 0 && j <= k
    decreases maxPackets - b, k - j
  {
    if j > 0 && b + j in done then b + j
    else if j < k then Stop(k, maxPackets, done, b, j + 1)
    else if b + k < maxPackets then Stop(k, maxPackets, done, b + k, 0)
    else b + k
  }

  /** The attack packet count at which a whole trial stops. */
  function StopAll(k: int, maxPackets: int, done: iset<nat>): nat
    requires k > 0 || maxPackets <= 0
  {
    if maxPackets <= 0 then 0 else Stop(k, maxPackets, done, 0, 0)
  }

  /** The victim's whole state after `n` attack packets, the checks being
      `nh` and `eh`. */
  ghost function At(tr: Traffic, k: int, nh: iset<nat>, eh: iset<nat>, n: nat): Progress
    requires k > 0 || n == 0
  {
    Progress(NodeObs(tr, k, n), EdgeObs(tr, k, n), Conv(nh, n), Conv(eh, n), n)
  }

  /** The attack packets the budget allows: whole ticks of `k` packets are
      sent while fewer than `maxPackets` have been. */
  function Budget(maxPackets: int, k: int): nat
    requires k > 0 || maxPackets <= 0
    decreases maxPackets
  {
    if maxPackets <= 0 then 0 else k + Budget(maxPackets - k, k)
  }

  /** The budget overshoots `max_attack_packets` by less than one tick. */
  lemma {:induction false} BudgetBounds(maxPackets: int, k: int)
    requires k > 0 || maxPackets <= 0
    ensures maxPackets <= 0 ==> Budget(maxPackets, k) == 0
    ensures maxPackets > 0 ==> maxPackets <= Budget(maxPackets, k) < maxPackets + k
    decreases maxPackets
  {
    if maxPackets > 0 {
      BudgetBounds(maxPackets - k, k);
    }
  }

  /** A tick begun with `seen` packets sent uses `k` packets of the budget. */
  lemma BudgetStep(maxPackets: int, k: int, seen: nat)
    requires k > 0 && seen < maxPackets
    ensures Budget(maxPackets - seen, k) == k + Budget(maxPackets - (seen + k), k)
  {
    assert maxPackets - seen - k == maxPackets - (seen + k);
  }

  /** What a finished trial reports, the checks being `nh` and `eh`: it
      stopped after `seen` attack packets, where `Stop` says, and returns the
      latches as they were then. */
  ghost predicate Ran(k: int, maxPackets: int, nh: iset<nat>, eh: iset<nat>, r: Trial, seen: nat)
    requires k > 0 || maxPackets <= 0
  {
    && seen == StopAll(k, maxPackets, BothSet(nh, eh))
    && r.nodeConv == Conv(nh, seen) && r.edgeConv == Conv(eh, seen)
    && r.nodeSuccess == (if r.nodeConv.Some? then 1 else 0)
    && r.edgeSuccess == (if r.edgeConv.Some? then 1 else 0)
  }

  /** A latch is unset exactly when no check has succeeded yet, and it holds
      `j` exactly when the check after packet `j` is the first that
      succeeded. */
  lemma {:induction false} ConvFirst(hit: iset<nat>, n: nat, j: nat)
    ensures Conv(hit, n).None? <==> forall i :: 1 <= i <= n ==> i !in hit
    ensures Conv(hit, n) == Some(j) <==> 1 <= j <= n && j in hit && forall i :: 1 <= i < j ==> i !in hit
  {
    if n > 0 {
      ConvFirst(hit, n - 1, j);
      if Conv(hit, n - 1).Some? {
        var v := Conv(hit, n - 1).value;
        ConvFirst(hit, n - 1, v);
        assert v in hit;
      }
    }
  }

  /** Once set, a latch keeps its value. */
  lemma {:induction false} ConvKept(hit: iset<nat>, n: nat, m: nat)
    requires n <= m && Conv(hit, n).Some?
    ensures Conv(hit, m) == Conv(hit, n)
    decreases m - n
  {
    if n < m {
      ConvKept(hit, n, m - 1);
    }
  }

  /** Once both latches are set they stay set. */
  lemma BothKept(nh: iset<nat>, eh: iset<nat>, n: nat, m: nat)
    requires n <= m && Both(nh, eh, n)
    ensures Both(nh, eh, m)
  {
    ConvKept(nh, n, m);
    ConvKept(eh, n, m);
  }

  /** If the latches are not both set after `m` packets, they were not both
      set after any earlier count. */
  lemma NeverBoth(nh: iset<nat>, eh: iset<nat>, m: nat)
    requires !Both(nh, eh, m)
    ensures forall i :: 0 <= i <= m ==> !Both(nh, eh, i)
  {
    forall i | 0 <= i <= m
      ensures !Both(nh, eh, i)
    {
      if Both(nh, eh, i) {
        BothKept(nh, eh, i, m);
      }
    }
  }

  /** A trial stops within its budget, at the end of the budget or at the
      first attack packet after which both schemes had converged, and never
      earlier than that packet. */
  lemma {:induction false} StopSound(k: int, maxPackets: int, done: iset<nat>, b: nat, j: nat)
    requires k > 0 && j <= k && b < maxPackets
    requires Budget(maxPackets, k) == b + Budget(maxPackets - b, k)
    ensures var stop := Stop(k, maxPackets, done, b, j);
      && b + j <= stop <= Budget(maxPackets, k)
      && (stop == Budget(maxPackets, k) || (stop > b + j && stop in done) || (j > 0 && stop == b + j && stop in done))
      && forall i :: b + j < i < stop ==> i !in done
    decreases maxPackets - b, k - j
  {
    BudgetStep(maxPackets, k, b);
    if j > 0 && b + j in done {
    } else if j < k {
      StopSound(k, maxPackets, done, b, j + 1);
    } else if b + k < maxPackets {
      StopSound(k, maxPackets, done, b + k, 0);
    }
  }

  /** After the `j`-th attack packet of a tick whose check did not stop the
      trial, the trial stops where it would after the next one, and the next
      one stops it if both latches are set after it. */
  lemma StopNext(k: int, maxPackets: int, done: iset<nat>, b: nat, j: nat)
    requires k > 0 && j < k && (j > 0 ==> b + j !in done)
    ensures Stop(k, maxPackets, done, b, j) == Stop(k, maxPackets, done, b, j + 1)
    ensures b + j + 1 in done ==> Stop(k, maxPackets, done, b, j + 1) == b + j + 1
  {
  }

  /** At the end of a tick whose last check did not stop the trial, the
      trial stops where the next tick takes it, or there if the budget is
      spent. */
  lemma StopTick(k: int, maxPackets: int, done: iset<nat>, b: nat)
    requires k > 0 && b + k !in done
    ensures Stop(k, maxPackets, done, b, k) ==
      if b + k < maxPackets then Stop(k, maxPackets, done, b + k, 0) else b + k
  {
  }

  /** A whole trial stops within its budget, at the end of the budget or at
      the first attack packet after which both schemes had converged, and
      never earlier than that packet. */
  lemma StopFromStart(k: int, maxPackets: int, nh: iset<nat>, eh: iset<nat>)
    requires k > 0 || maxPackets <= 0
    ensures var stop := StopAll(k, maxPackets, BothSet(nh, eh));
      && stop <= Budget(maxPackets, k)
      && (stop == Budget(maxPackets, k) || Both(nh, eh, stop))
      && forall i :: 0 <= i < stop ==> !Both(nh, eh, i)
  {
    if maxPackets > 0 {
      StopSound(k, maxPackets, BothSet(nh, eh), 0, 0);
      var stop := StopAll(k, maxPackets, BothSet(nh, eh));
      forall i | 0 <= i < stop
        ensures !Both(nh, eh, i)
      {
        assert i != 0 ==> i !in BothSet(nh, eh);
      }
    }
  }

  /** The observation lists only grow: those after `n` packets begin those
      after any later count. */
  lemma {:induction false} ObsGrow(tr: Traffic, k: int, n: nat, m: nat)
    requires (k > 0 || m == 0) && n <= m
    ensures NodeObs(tr, k, n) <= NodeObs(tr, k, m)
    ensures EdgeObs(tr, k, n) <= EdgeObs(tr, k, m)
    decreases m - n
  {
    if n < m {
      ObsGrow(tr, k, n, m - 1);
      var before, after := NodeObs(tr, k, m - 1), NodeObs(tr, k, m);
      assert after[..|before|] == before;
      var edgesBefore, edgesAfter := EdgeObs(tr, k, m - 1), EdgeObs(tr, k, m);
      assert edgesAfter[..|edgesBefore|] == edgesBefore;
    }
  }

  /** Edge observation `i` is the packet attack packet `i` delivered: normal
      traffic moves the samplers on but never enters the lists. */
  lemma {:induction false} EdgeObsPackets(tr: Traffic, k: int, n: nat, i: nat)
    requires k > 0 && i < n
    ensures EdgeObs(tr, k, n)[i] == EdgeRun(tr.path, tr.edgeCoins, Start(tr, k, i))
  {
    if i < n - 1 {
      EdgeObsPackets(tr, k, n - 1, i);
    }
  }

  /** Inside the tick that begins at packet `i0`, attack packet `i0 + j`
      starts `j` path lengths after the tick's first attack packet. */
  lemma {:induction false} StartInTick(tr: Traffic, k: int, i0: nat, j: nat)
    requires TickBoundary(k, i0) && 0 <= j < k
    ensures Start(tr, k, i0 + j) == Start(tr, k, i0) + Steps(|tr.path|, j)
    decreases i0
  {
    if i0 > 0 {
      StartInTick(tr, k, i0 - k, j);
      assert i0 + j - k == i0 - k + j;
    }
  }

  /** The tick that begins at packet `i0` ends at a tick boundary, and the
      next tick's first attack packet starts one tick of coins later. */
  lemma StartNextTick(tr: Traffic, k: int, i0: nat)
    requires TickBoundary(k, i0) && k > 0
    ensures TickBoundary(k, i0 + k)
    ensures Start(tr, k, i0 + k) == Start(tr, k, i0) + Steps(|tr.path|, k) + tr.perTick
  {
    assert i0 + k - k == i0;
  }

  /** The victim's state after one more attack packet, in terms of the
      packet's two copies as the samplers deliver them. */
  lemma AtStep(tr: Traffic, k: int, nh: iset<nat>, eh: iset<nat>, n: nat)
    requires k > 0
    ensures var mark := NodeMark(tr.path, tr.nodeCoins, Start(tr, k, n));
      At(tr, k, nh, eh, n + 1) == Progress(
        NodeObs(tr, k, n) + (if mark.Some? then [mark.value] else []),
        EdgeObs(tr, k, n) + [EdgeRun(tr.path, tr.edgeCoins, Start(tr, k, n))],
        Latch(Conv(nh, n), n + 1 in nh, n + 1),
        Latch(Conv(eh, n), n + 1 in eh, n + 1),
        n + 1)
  {
  }

  /** The node-sampling check of lines 60-64: reorders the observations and
      asks for the leaf below the rarest router, without the list of observed
      leaves. */
  method CheckNode(t: Topology, attacker: nat, obs: seq<nat>) returns (hit: bool)
    requires IsTree(t) && forall x :: x in obs ==> x in t.parent
    ensures hit <==> NodeGuess(t, obs) == Some(attacker)
  {
    var ordered := ReconstructOrder(obs);
    GuessReady(t, obs);
    var guess := GuessAttackerLeaf(t, ordered, []);
    hit := guess == Some(attacker);
  }

  /** The edge-sampling check of lines 67-72: rebuilds the path from the
      samples and compares its first router with the attacker. */
  method CheckEdge(attacker: nat, obs: seq<EdgePacket>) returns (hit: bool)
    ensures hit <==> EdgeGuess(obs) == Some(attacker)
  {
    var byD := EdgesByDistance(obs, Victim);
    var path := EdgeReconstructPath(byD);
    var guess := if path != [] then Some(path[0]) else None;
    hit := guess == Some(attacker);
  }

  /** One tick of normal traffic: each normal user sends `NormalRate`
      packets, each marked by both samplers from the current coin position,
      and the victim drops them; only the coins they use matter. */
  method NormalTraffic(t: Topology, normal: seq<nat>, nodeCoins: iset<nat>, edgeCoins: iset<nat>, pos: nat)
    returns (pos': nat)
    requires Parented(t) && forall b :: b in normal ==> b in t.depth
    ensures pos' == pos + NormalDraws(t, normal)
  {
    pos' := pos;
    for i := 0 to |normal|
      invariant pos' == pos + NormalDraws(t, normal[..i])
    {
      var b := normal[i];
      var userStart := pos';
      for r := 0 to NormalRate
        invariant pos' == userStart + UserDraws(t, b, r)
      {
        var path := PathToVictim(t, b);
        var dropped := NodePacket(NodeMark(path, nodeCoins, pos'));
        var droppedEdge := EdgeRun(path, edgeCoins, pos');
        pos' := pos' + |path|;
      }
      assert normal[..i + 1][..i] == normal[..i];
    }
    assert normal[..|normal|] == normal;
  }

  /** The node-sampling check on the observations after packet `n` is
      `n in nh`. */
  lemma NodeHitIs(t: Topology, attacker: nat, tr: Traffic, k: int, nh: iset<nat>, eh: iset<nat>, n: nat, obs: seq<nat>)
    requires IsTree(t) && (forall x :: x in tr.path ==> x in t.parent) && k > 0
    requires HitsAre(t, attacker, tr, k, nh, eh) && obs == NodeObs(tr, k, n)
    ensures forall x :: x in obs ==> x in t.parent
    ensures n in nh <==> NodeGuess(t, obs) == Some(attacker)
  {
    assert n in nh <==> NodeHit(t, attacker, tr, k, n);
  }

  /** The edge-sampling check on the observations after packet `n` is
      `n in eh`. */
  lemma EdgeHitIs(t: Topology, attacker: nat, tr: Traffic, k: int, nh: iset<nat>, eh: iset<nat>, n: nat, obs: seq<EdgePacket>)
    requires k > 0 && HitsAre(t, attacker, tr, k, nh, eh) && obs == EdgeObs(tr, k, n)
    ensures n in eh <==> EdgeGuess(obs) == Some(attacker)
  {
    assert n in eh <==> EdgeHit(attacker, tr, k, n);
  }

  /** The node-sampling check of lines 60-64 after attack packet `n`:
      while the latch is unset, the victim reorders its observations and
      sets the latch to `n` if the guess names the attacker. */
  method NodeLatch(t: Topology, attacker: nat, tr: Traffic, k: int, ghost nh: iset<nat>, ghost eh: iset<nat>,
                   obs: seq<nat>, conv: Option<nat>, n: nat) returns (conv': Option<nat>)
    requires IsTree(t) && (forall x :: x in tr.path ==> x in t.parent) && k > 0
    requires HitsAre(t, attacker, tr, k, nh, eh) && obs == NodeObs(tr, k, n)
    ensures conv' == Latch(conv, n in nh, n)
  {
    conv' := conv;
    if conv.None? {
      NodeHitIs(t, attacker, tr, k, nh, eh, n, obs);
      var hit := CheckNode(t, attacker, obs);
      if hit {
        conv' := Some(n);
      }
    }
  }

  /** The edge-sampling check of lines 67-72 after attack packet `n`. */
  method EdgeLatch(t: Topology, attacker: nat, tr: Traffic, k: int, ghost nh: iset<nat>, ghost eh: iset<nat>,
                   obs: seq<EdgePacket>, conv: Option<nat>, n: nat) returns (conv': Option<nat>)
    requires k > 0 && HitsAre(t, attacker, tr, k, nh, eh) && obs == EdgeObs(tr, k, n)
    ensures conv' == Latch(conv, n in eh, n)
  {
    conv' := conv;
    if conv.None? {
      EdgeHitIs(t, attacker, tr, k, nh, eh, n, obs);
      var hit := CheckEdge(attacker, obs);
      if hit {
        conv' := Some(n);
      }
    }
  }

  /** What the victim does with attack packet `st.seen + 1`, lines 50-72:
      it records the node mark if there is one and the edge sample, counts
      the packet, and runs the checks whose latch is not set. */
  method Observe(t: Topology, attacker: nat, tr: Traffic, k: int, ghost nh: iset<nat>, ghost eh: iset<nat>,
                 st: Progress, pktN: NodePacket, pktE: EdgePacket) returns (next: Progress)
    requires IsTree(t) && (forall x :: x in tr.path ==> x in t.parent) && k > 0
    requires HitsAre(t, attacker, tr, k, nh, eh)
    requires st == At(tr, k, nh, eh, st.seen)
    requires pktN.node == NodeMark(tr.path, tr.nodeCoins, Start(tr, k, st.seen))
    requires pktE == EdgeRun(tr.path, tr.edgeCoins, Start(tr, k, st.seen))
    ensures next == At(tr, k, nh, eh, st.seen + 1)
  {
    AtStep(tr, k, nh, eh, st.seen);
    var nodeObs := st.nodeObs;
    if pktN.node.Some? {
      nodeObs := nodeObs + [pktN.node.value];
    }
    var edgeObs := st.edgeObs + [pktE];
    var seen := st.seen + 1;
    var nodeConv := NodeLatch(t, attacker, tr, k, nh, eh, nodeObs, st.nodeConv, seen);
    var edgeConv := EdgeLatch(t, attacker, tr, k, nh, eh, edgeObs, st.edgeConv, seen);
    next := Progress(nodeObs, edgeObs, nodeConv, edgeConv, seen);
  }

  /** The packets attack packet `i0 + j` carries, `i0` whole ticks of `k`
      having been sent before its own tick, drawn from position `pos`. */
  method MarkAttack(tr: Traffic, k: int, ghost i0: nat, ghost j: nat, pos: nat)
    returns (pktN: NodePacket, pktE: EdgePacket, pos': nat)
    requires k > 0 && TickBoundary(k, i0) && j < k
    requires pos == Start(tr, k, i0) + Steps(|tr.path|, j)
    ensures pktN.node == NodeMark(tr.path, tr.nodeCoins, Start(tr, k, i0 + j))
    ensures pktE == EdgeRun(tr.path, tr.edgeCoins, Start(tr, k, i0 + j))
    ensures pos' == pos + |tr.path|
  {
    StartInTick(tr, k, i0, j);
    pktN := NodePacket(NodeMark(tr.path, tr.nodeCoins, pos));
    pktE := EdgeRun(tr.path, tr.edgeCoins, pos);
    pos' := pos + |tr.path|;
  }

  /** `trace` lists the victim's states after 0, 1, ... attack packets,
      both latches being set after the counts in `done`. */
  ghost predicate Traced(tr: Traffic, k: int, nh: iset<nat>, eh: iset<nat>, done: iset<nat>, trace: seq<Progress>)
    requires k > 0 || |trace| <= 1
  {
    && (forall i {:trigger At(tr, k, nh, eh, i)} :: 0 <= i < |trace| ==> trace[i] == At(tr, k, nh, eh, i))
    && (forall i :: 0 <= i < |trace| ==> trace[i].seen == i && (Done(trace[i]) <==> i in done))
  }

  /** The states after `0 .. len - 1` attack packets form a trace. */
  lemma TraceOf(tr: Traffic, k: int, nh: iset<nat>, eh: iset<nat>, len: nat) returns (trace: seq<Progress>)
    requires k > 0 || len <= 1
    ensures |trace| == len && Traced(tr, k, nh, eh, BothSet(nh, eh), trace)
  {
    trace := seq(len, i requires 0 <= i < len => At(tr, k, nh, eh, i));
    forall i | 0 <= i < len
      ensures trace[i] == At(tr, k, nh, eh, i)
      ensures Done(trace[i]) <==> i in BothSet(nh, eh)
    {
    }
  }

  /** One attack packet: marked from the samplers' current position, then
      observed by the victim. */
  method AttackPacket(t: Topology, attacker: nat, tr: Traffic, k: int, ghost nh: iset<nat>, ghost eh: iset<nat>,
                      ghost done: iset<nat>, ghost trace: seq<Progress>, ghost i0: nat, ghost j: nat,
                      pos: nat, st: Progress) returns (next: Progress, pos': nat)
    requires IsTree(t) && forall x :: x in tr.path ==> x in t.parent
    requires k > 0 && HitsAre(t, attacker, tr, k, nh, eh) && Traced(tr, k, nh, eh, done, trace)
    requires st.seen + 1 < |trace| && st == trace[st.seen]
    requires TickBoundary(k, i0) && j < k && st.seen == i0 + j
    requires pos == Start(tr, k, i0) + Steps(|tr.path|, j)
    ensures next == trace[st.seen + 1]
    ensures pos' == pos + |tr.path|
  {
    assert st == At(tr, k, nh, eh, st.seen);
    var pktN, pktE;
    pktN, pktE, pos' := MarkAttack(tr, k, i0, j, pos);
    next := Observe(t, attacker, tr, k, nh, eh, st, pktN, pktE);
  }

  /** One tick of attack traffic: up to `k` attack packets, stopping as soon
      as both latches are set. */
  method AttackTick(t: Topology, attacker: nat, tr: Traffic, k: int, ghost maxPackets: int,
                    ghost nh: iset<nat>, ghost eh: iset<nat>, ghost done: iset<nat>, ghost trace: seq<Progress>,
                    pos: nat, st: Progress) returns (next: Progress, pos': nat)
    requires IsTree(t) && forall x :: x in tr.path ==> x in t.parent
    requires k > 0 && HitsAre(t, attacker, tr, k, nh, eh) && Traced(tr, k, nh, eh, done, trace)
    requires st.seen + k < |trace| && st == trace[st.seen] && TickBoundary(k, st.seen)
    requires pos == Start(tr, k, st.seen)
    ensures next.seen < |trace| && next == trace[next.seen]
    ensures Done(next) ==> next.seen == Stop(k, maxPackets, done, st.seen, 0)
    ensures !Done(next) ==>
      && next.seen == st.seen + k && Stop(k, maxPackets, done, st.seen, k) == Stop(k, maxPackets, done, st.seen, 0)
      && TickBoundary(k, next.seen) && pos' + tr.perTick == Start(tr, k, next.seen)
  {
    next := st;
    pos' := pos;
    var j := 0;
    while j < k
      invariant 0 <= j <= k && next.seen == st.seen + j
      invariant next == trace[next.seen]
      invariant pos' == pos + Steps(|tr.path|, j)
      invariant j > 0 ==> !Done(next) && next.seen !in done
      invariant Stop(k, maxPackets, done, st.seen, j) == Stop(k, maxPackets, done, st.seen, 0)
      decreases k - j
    {
      StopNext(k, maxPackets, done, st.seen, j);
      next, pos' := AttackPacket(t, attacker, tr, k, nh, eh, done, trace, st.seen, j, pos', next);
      j := j + 1;
      if Done(next) {
        break;
      }
    }
    StartNextTick(tr, k, st.seen);
  }

  method RunTicks(sc: Scenario, tr: Traffic, k: int, maxAttackPackets: int, ghost nh: iset<nat>, ghost eh: iset<nat>)
    returns (r: Trial, ghost seen: nat)
    requires Ready(sc) && tr == TrafficOf(sc) && (k > 0 || maxAttackPackets <= 0)
    requires HitsAre(sc.t, sc.attacker, tr, k, nh, eh)
    ensures Ran(k, maxAttackPackets, nh, eh, r, seen)
  {
    ghost var done := BothSet(nh, eh);
    ghost var trace := TraceOf(tr, k, nh, eh, if maxAttackPackets > 0 then maxAttackPackets + k + 1 else 1);
    var st := Progress([], [], None, None, 0);
    assert st == At(tr, k, nh, eh, 0);
    var pos := 0;
    while st.seen < maxAttackPackets
      invariant k > 0 || st.seen == 0
      invariant st.seen < |trace| && st == trace[st.seen] && TickBoundary(k, st.seen)
      invariant k > 0 ==> pos + tr.perTick == Start(tr, k, st.seen)
      invariant st.seen < maxAttackPackets ==> StopAll(k, maxAttackPackets, done) == Stop(k, maxAttackPackets, done, st.seen, 0)
      invariant st.seen >= maxAttackPackets ==> StopAll(k, maxAttackPackets, done) == st.seen
      decreases maxAttackPackets - st.seen
    {
      pos := NormalTraffic(sc.t, sc.normal, sc.nodeCoins, sc.edgeCoins, pos);
      ghost var b := st.seen;
      st, pos := AttackTick(sc.t, sc.attacker, tr, k, maxAttackPackets, nh, eh, done, trace, pos, st);
      if Done(st) {
        break;
      }
      StopTick(k, maxAttackPackets, done, b);
    }
    seen := st.seen;
    assert st == At(tr, k, nh, eh, seen);
    r := Trial(if st.nodeConv.Some? then 1 else 0, if st.edgeConv.Some? then 1 else 0, st.nodeConv, st.edgeConv);
  }

  /** The trial once the hosts are chosen: `x` attack packets per tick,
      the checks' outcomes being those of the scenario's traffic. */
  method RunScenario(sc: Scenario, x: int, maxAttackPackets: int) returns (r: Trial, ghost seen: nat)
    requires Ready(sc) && (x >= 1 || maxAttackPackets <= 0)
    ensures var k := x * NormalRate; var tr := TrafficOf(sc);
      Ran(k, maxAttackPackets, NodeHits(sc.t, sc.attacker, tr, k), EdgeHits(sc.attacker, tr, k), r, seen)
  {
    var k := x * NormalRate;
    var tr := TrafficOf(sc);
    HitsOf(sc.t, sc.attacker, tr, k);
    r, seen := RunTicks(sc, tr, k, maxAttackPackets, NodeHits(sc.t, sc.attacker, tr, k), EdgeHits(sc.attacker, tr, k));
  }

  /** `run_trial_one_attacker(G, p, x, seed, max_attack_packets)`: one
      attacker leaf chosen by `choose_hosts` (its generator being the stream
      `hostDraws`), the other chosen leaf as normal user, samplers drawing
      from `nodeCoins` and `edgeCoins`, and `x` attack packets per normal
      packet. It fails exactly when no branch holds a leaf; otherwise it
      reports the trial that stops after `seen` attack packets. */
  method RunTrialOneAttacker(t: Topology, x: int, maxAttackPackets: int, hostDraws: nat -> nat,
                             nodeCoins: iset<nat>, edgeCoins: iset<nat>)
    returns (r: Result<Trial, string>, ghost sc: Scenario, ghost seen: nat)
    requires IsTree(t) && WellFormed(t.g) && (x >= 1 || maxAttackPackets <= 0)
    ensures r.Err? <==> |LeafBranches(t)| < 1
    ensures r.Ok? ==>
      && sc.t == t && sc.nodeCoins == nodeCoins && sc.edgeCoins == edgeCoins && Ready(sc)
      && HostsOk(t, Hosts([sc.attacker], sc.normal), 1, 1)
      && FromBranches(t, [sc.attacker], Shuffled(LeafBranches(t), hostDraws, 0))
      && var k := x * NormalRate; var tr := TrafficOf(sc);
         Ran(k, maxAttackPackets, NodeHits(t, sc.attacker, tr, k), EdgeHits(sc.attacker, tr, k), r.value, seen)
  {
    var hosts := ChooseHosts(t, 1, 1, hostDraws);
    if hosts.Err? {
      return Err(hosts.error), Scenario(t, 0, [], nodeCoins, edgeCoins), 0;
    }
    var attacker := hosts.value.attackers[0];
    var normal := hosts.value.normalUsers;
    assert hosts.value.attackers == [attacker];
    assert attacker in t.depth && forall b :: b in normal ==> b in t.depth by {
      assert IsLeaf(t, attacker);
      forall b | b in normal ensures b in t.depth {
        assert IsLeaf(t, b);
      }
    }
    var scenario := Scenario(t, attacker, normal, nodeCoins, edgeCoins);
    sc := scenario;
    var trial;
    trial, seen := RunScenario(scenario, x, maxAttackPackets);
    r := Ok(trial);
  }

}
