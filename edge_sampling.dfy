/** Edge sampling: every packet carries one edge `(start, end)` and the number
    of hops since the edge was started; the victim buckets the edges by that
    distance, chains them outward from itself, and builds the graph of all of
    them, whose sources are the suspected attackers. */
module EdgeSampling {
  import opened Wrappers
  import opened Seqs
  import opened Graphs
  import opened Topology

  /** `EdgePacket`: the router that last started a mark, the router after it,
      and the hops since the mark was started. */
  datatype EdgePacket = EdgePacket(start: Option<nat>, end: Option<nat>, distance: nat)

  /** What one router does to a packet: start a new mark when its coin comes
      up; otherwise complete the edge if the mark was just started, and count
      the hop. */
  function EdgeStep(pkt: EdgePacket, router: nat, coin: bool): EdgePacket
  {
    if coin then pkt.(start := Some(router), distance := 0)
    else if pkt.distance == 0 then pkt.(end := Some(router), distance := pkt.distance + 1)
    else pkt.(distance := pkt.distance + 1)
  }

  /** The packet after passing `path` from a fresh `EdgePacket()`, the router at
      index `i` drawing `start + i in coins`. */
  function EdgeRun(path: seq<nat>, coins: iset<nat>, start: nat): EdgePacket
  {
    if path == [] then EdgePacket(None, None, 0)
    else
      var n := |path| - 1;
      EdgeStep(EdgeRun(path[..n], coins, start), path[n], start + n in coins)
  }

  lemma EdgeRunStep(path: seq<nat>, coins: iset<nat>, start: nat, i: nat)
    requires i < |path|
    ensures EdgeRun(path[..i + 1], coins, start) == EdgeStep(EdgeRun(path[..i], coins, start), path[i], start + i in coins)
  {
    assert path[..i + 1][..i] == path[..i];
  }

  /** Without any mark, `start` stays unset, `distance` counts every router,
      and `end` is the first router (which found the distance still 0). */
  lemma {:induction false} EdgeRunNoMark(path: seq<nat>, coins: iset<nat>, start: nat)
    requires forall k :: start <= k < start + |path| ==> k !in coins
    ensures var pkt := EdgeRun(path, coins, start);
      && pkt.start == None
      && pkt.distance == |path|
      && pkt.end == (if path == [] then None else Some(path[0]))
  {
    if path != [] {
      var n := |path| - 1;
      EdgeRunNoMark(path[..n], coins, start);
      assert start + n !in coins;
    }
  }

  /** After the last mark, at index `i`, `start` is the router there and
      `distance` counts the routers after it; when there is one, `end` is the
      router right after `start`. */
  lemma {:induction false} EdgeRunLastMark(path: seq<nat>, coins: iset<nat>, start: nat, i: nat)
    requires i < |path| && start + i in coins
    requires forall k :: start + i < k < start + |path| ==> k !in coins
    ensures var pkt := EdgeRun(path, coins, start);
      && pkt.start == Some(path[i])
      && pkt.distance == |path| - 1 - i
      && (i + 1 < |path| ==> pkt.end == Some(path[i + 1]))
  {
    var n := |path| - 1;
    if i < n {
      assert path[..n][i] == path[i];
      assert start + n !in coins;
      EdgeRunLastMark(path[..n], coins, start, i);
      if i + 1 < n {
        assert path[..n][i + 1] == path[i + 1];
      }
    }
  }

  /** `start` is set exactly when some router marked. */
  lemma {:induction false} EdgeRunStartSet(path: seq<nat>, coins: iset<nat>, start: nat)
    ensures EdgeRun(path, coins, start).start == None <==> forall k :: start <= k < start + |path| ==> k !in coins
  {
    if path != [] {
      EdgeRunStartSet(path[..|path| - 1], coins, start);
    }
  }

  /** Starting a mark leaves `end` as it was: a packet whose last router
      marked it has distance 0 and keeps the `end` of the mark before. */
  lemma MarkKeepsEnd(pkt: EdgePacket, router: nat)
    ensures EdgeStep(pkt, router, true) == EdgePacket(Some(router), pkt.end, 0)
  {
  }

  /** An example: over routers 7, 8, 9 with only 7 and 9 marking, the packet
      carries start 9 and distance 0, but end 8, left from the mark at 7. */
  lemma StaleEndExample()
    ensures EdgeRun([7, 8, 9], iset{0, 2}, 0) == EdgePacket(Some(9), Some(8), 0)
  {
    var coins: iset<nat> := iset{0, 2};
    var path := [7, 8, 9];
    assert path[..2][..1] == [7];
    assert path[..1][..0] == [];
    assert path[..2] == [7, 8];
  }

  /** `EdgeSampler`: its generator is the coin stream `coins` (whether the
      `k`-th `rng.random()` fell below `p`); `pos` counts draws used. */
  class EdgeSampler {
    const coins: iset<nat>
    var pos: nat

    constructor(coins: iset<nat>)
      ensures this.coins == coins && pos == 0
    {
      this.coins := coins;
      pos := 0;
    }

    /** `forward`: sends one packet from `sourceLeaf` to the victim. */
    method Forward(t: Topology, sourceLeaf: nat) returns (pkt: EdgePacket)
      requires Parented(t) && sourceLeaf in t.depth
      modifies this
      ensures pos == old(pos) + |PathToVictim(t, sourceLeaf)|
      ensures pkt == EdgeRun(PathToVictim(t, sourceLeaf), coins, old(pos))
    {
      var path := PathToVictim(t, sourceLeaf);
      var start := pos;
      pkt := EdgePacket(None, None, 0);
      for i := 0 to |path|
        invariant pos == start + i
        invariant pkt == EdgeRun(path[..i], coins, start)
      {
        EdgeRunStep(path, coins, start, i);
        if pos in coins {
          pkt := pkt.(start := Some(path[i]), distance := 0);
        } else {
          if pkt.distance == 0 {
            pkt := pkt.(end := Some(path[i]));
          }
          pkt := pkt.(distance := pkt.distance + 1);
        }
        pos := pos + 1;
      }
      assert path[..|path|] == path;
    }
  }

  /** The bucket and edge one sample contributes to `edges_by_distance`: none
      without a `start`; the edge to the victim at distance 0; none at a
      positive distance without an `end`; `(start, end)` otherwise. */
  function EdgeOf(s: EdgePacket, victim: nat): Option<(nat, (nat, nat))>
  {
    if s.start == None then None
    else if s.distance == 0 then Some((0, (s.start.value, victim)))
    else if s.end == None then None
    else Some((s.distance, (s.start.value, s.end.value)))
  }

  /** The buckets after adding the samples one by one. */
  function Buckets(samples: seq<EdgePacket>, victim: nat): map<nat, set<(nat, nat)>>
  {
    if samples == [] then map[]
    else
      var m := Buckets(samples[..|samples| - 1], victim);
      match EdgeOf(samples[|samples| - 1], victim)
      case None => m
      case Some((d, e)) => m[d := (if d in m then m[d] else {}) + {e}]
  }

  /** Bucket `d` holds exactly the edges that some sample contributes at
      distance `d`, and no bucket is empty. */
  lemma {:induction false} BucketsSpec(samples: seq<EdgePacket>, victim: nat)
    ensures var b := Buckets(samples, victim);
      forall d, e :: d in b && e in b[d] <==>
        exists i :: 0 <= i < |samples| && EdgeOf(samples[i], victim) == Some((d, e))
    ensures var b := Buckets(samples, victim);
      forall d :: d in b ==> b[d] != {}
  {
    if samples != [] {
      var n := |samples| - 1;
      var pre := samples[..n];
      BucketsSpec(pre, victim);
      assert forall i :: 0 <= i < n ==> pre[i] == samples[i];
    }
  }

  /** `edges_by_distance`: fills the buckets sample by sample. */
  method EdgesByDistance(samples: seq<EdgePacket>, victim: nat) returns (byD: map<nat, set<(nat, nat)>>)
    ensures byD == Buckets(samples, victim)
  {
    byD := map[];
    for i := 0 to |samples|
      invariant byD == Buckets(samples[..i], victim)
    {
      assert samples[..i + 1][..i] == samples[..i];
      var s := samples[i];
      if s.start == None {
        continue;
      }
      if s.distance == 0 {
        byD := byD[0 := (if 0 in byD then byD[0] else {}) + {(s.start.value, victim)}];
      } else {
        if s.end == None {
          continue;
        }
        var d := s.distance;
        byD := byD[d := (if d in byD then byD[d] else {}) + {(s.start.value, s.end.value)}];
      }
    }
    assert samples[..|samples|] == samples;
  }

  /** The smallest element of a non-empty set. */
  ghost function MinOf(s: set<nat>): (m: nat)
    requires s != {}
    ensures m in s && forall x :: x in s ==> m <= x
    decreases |s|
  {
    var x :| x in s;
    assert forall y :: y in s ==> y == x || y in s - {x};
    if s - {x} == {} then x
    else
      var m := MinOf(s - {x});
      if x < m then x else m
  }

  /** `sorted(s)[0]`: the smallest element, found by a scan. */
  method Smallest(s: set<nat>) returns (m: nat)
    requires s != {}
    ensures m == MinOf(s)
  {
    m :| m in s;
    var rest := s - {m};
    while rest != {}
      invariant m in s && rest <= s
      invariant forall x :: x in s && x !in rest ==> m <= x
      decreases |rest|
    {
      var x :| x in rest;
      if x < m {
        m := x;
      }
      rest := rest - {x};
    }
    MinUnique(s, m);
  }

  /** Only one element of a set is below all the others. */
  lemma MinUnique(s: set<nat>, m: nat)
    requires m in s && forall x :: x in s ==> m <= x
    ensures m == MinOf(s)
  {
  }

  /** The starting routers of a set of edges. */
  function Starts(edges: set<(nat, nat)>): set<nat>
  {
    set e | e in edges :: e.0
  }

  /** The routers that an edge of bucket `d` leads from into `cur`. */
  function Candidates(byD: map<nat, set<(nat, nat)>>, d: nat, cur: nat): set<nat>
    requires d in byD
  {
    set e | e in byD[d] && e.1 == cur :: e.0
  }

  /** The bucket keys from `d` on; what the outward walk still has ahead. */
  function KeysFrom(byD: map<nat, set<(nat, nat)>>, d: nat): set<nat>
  {
    set k | k in byD && k >= d
  }

  lemma KeysFromShrink(byD: map<nat, set<(nat, nat)>>, d: nat)
    requires d in byD
    ensures |KeysFrom(byD, d + 1)| < |KeysFrom(byD, d)|
  {
    assert KeysFrom(byD, d + 1) == KeysFrom(byD, d) - {d};
  }

  /** The routers the outward walk appends after `cur`, starting at bucket
      `d`: at each bucket the smallest router with an edge into the current
      one, until the bucket is missing or has no such edge. */
  ghost function Chain(byD: map<nat, set<(nat, nat)>>, cur: nat, d: nat): seq<nat>
    decreases |KeysFrom(byD, d)|
  {
    if d !in byD then []
    else
      var c := Candidates(byD, d, cur);
      if c == {} then []
      else
        KeysFromShrink(byD, d);
        var m := MinOf(c);
        [m] + Chain(byD, m, d + 1)
  }

  /** `next` is the smallest router with an edge of bucket `d` into `prev`. */
  ghost predicate SmallestLink(byD: map<nat, set<(nat, nat)>>, d: nat, prev: nat, next: nat) {
    d in byD && (next, prev) in byD[d] && forall s :: (s, prev) in byD[d] ==> next <= s
  }

  /** The walk cannot go on from `prev` at bucket `d`: the bucket is missing or
      has no edge into `prev`. */
  ghost predicate Stuck(byD: map<nat, set<(nat, nat)>>, d: nat, prev: nat) {
    d !in byD || forall s :: (s, prev) !in byD[d]
  }

  /** The number of consecutive bucket keys `d`, `d + 1`, ... */
  ghost function KeyRun(byD: map<nat, set<(nat, nat)>>, d: nat): nat
    decreases |KeysFrom(byD, d)|
  {
    if d !in byD then 0
    else
      KeysFromShrink(byD, d);
      1 + KeyRun(byD, d + 1)
  }

  /** The router before the `k`-th of `ch`, `cur` before the first. */
  function Prev(cur: nat, ch: seq<nat>, k: nat): nat
    requires k <= |ch|
  {
    if k == 0 then cur else ch[k - 1]
  }

  /** Every router of `ch` is the smallest with an edge of its bucket into the
      router before it, the buckets counting up from `d`. */
  ghost predicate Links(byD: map<nat, set<(nat, nat)>>, d: nat, cur: nat, ch: seq<nat>) {
    forall k :: 0 <= k < |ch| ==> SmallestLink(byD, d + k, Prev(cur, ch, k), ch[k])
  }

  /** Each router of the chain is the smallest with an edge, in the next
      bucket, into the router before it; the chain stops only where the walk
      cannot go on; and it is no longer than the run of bucket keys. */
  lemma {:induction false} ChainSpec(byD: map<nat, set<(nat, nat)>>, cur: nat, d: nat)
    ensures Links(byD, d, cur, Chain(byD, cur, d))
    ensures var ch := Chain(byD, cur, d); Stuck(byD, d + |ch|, Prev(cur, ch, |ch|))
    ensures |Chain(byD, cur, d)| <= KeyRun(byD, d)
    decreases |KeysFrom(byD, d)|
  {
    if d in byD {
      var c := Candidates(byD, d, cur);
      assert forall s :: (s, cur) in byD[d] ==> s in c;
      if c != {} {
        KeysFromShrink(byD, d);
        var m := MinOf(c);
        var e :| e in byD[d] && e.1 == cur && e.0 == m;
        ChainSpec(byD, m, d + 1);
        var rest := Chain(byD, m, d + 1);
        var ch := [m] + rest;
        forall k | 0 <= k < |ch|
          ensures SmallestLink(byD, d + k, Prev(cur, ch, k), ch[k])
        {
          if k > 0 {
            assert ch[k] == rest[k - 1];
            assert Prev(m, rest, k - 1) == Prev(cur, ch, k);
            assert SmallestLink(byD, d + 1 + (k - 1), Prev(m, rest, k - 1), rest[k - 1]);
          } else {
            assert SmallestLink(byD, d, cur, m);
          }
        }
        assert Prev(m, rest, |rest|) == Prev(cur, ch, |ch|);
      }
    }
  }

  /** The chain is the only sequence with those properties: the walk is
      deterministic. */
  lemma {:induction false} ChainUnique(byD: map<nat, set<(nat, nat)>>, cur: nat, d: nat, ch: seq<nat>)
    requires Links(byD, d, cur, ch)
    requires Stuck(byD, d + |ch|, Prev(cur, ch, |ch|))
    ensures ch == Chain(byD, cur, d)
    decreases |ch|
  {
    if ch == [] {
      if d in byD {
        assert Candidates(byD, d, cur) == {};
      }
    } else {
      assert SmallestLink(byD, d + 0, Prev(cur, ch, 0), ch[0]);
      var c := Candidates(byD, d, cur);
      assert ch[0] in c;
      assert forall s :: s in c ==> (s, cur) in byD[d];
      MinUnique(c, ch[0]);
      var rest := ch[1..];
      forall k | 0 <= k < |rest|
        ensures SmallestLink(byD, d + 1 + k, Prev(ch[0], rest, k), rest[k])
      {
        assert rest[k] == ch[k + 1];
        assert Prev(ch[0], rest, k) == Prev(cur, ch, k + 1);
        assert SmallestLink(byD, d + (k + 1), Prev(cur, ch, k + 1), ch[k + 1]);
      }
      assert Prev(ch[0], rest, |rest|) == Prev(cur, ch, |ch|);
      ChainUnique(byD, ch[0], d + 1, rest);
      assert ch == [ch[0]] + rest;
    }
  }

  /** The whole chain before reversal: the smallest start of bucket 0, then
      the walk outward from it (empty when bucket 0 is missing or empty). */
  ghost function FullChain(byD: map<nat, set<(nat, nat)>>): seq<nat>
  {
    if 0 !in byD || byD[0] == {} then []
    else
      var e :| e in byD[0];
      assert e.0 in Starts(byD[0]);
      var c0 := MinOf(Starts(byD[0]));
      [c0] + Chain(byD, c0, 1)
  }

  /** The chain before reversal is empty exactly when bucket 0 is missing or
      empty; otherwise it starts at the smallest start of bucket 0, each next
      router is the smallest with an edge of bucket `j` into the one before,
      it stops only where no such edge exists, and it is at most one longer
      than the run of bucket keys from 1. */
  lemma FullChainSpec(byD: map<nat, set<(nat, nat)>>)
    ensures FullChain(byD) == [] <==> 0 !in byD || byD[0] == {}
    ensures var c := FullChain(byD);
      c != [] ==> (exists e :: e in byD[0] && e.0 == c[0]) && forall e :: e in byD[0] ==> c[0] <= e.0
    ensures var c := FullChain(byD);
      forall j :: 1 <= j < |c| ==> SmallestLink(byD, j, c[j - 1], c[j])
    ensures var c := FullChain(byD);
      c != [] ==> Stuck(byD, |c|, c[|c| - 1])
    ensures |FullChain(byD)| <= 1 + KeyRun(byD, 1)
  {
    var c := FullChain(byD);
    if c != [] {
      var c0 := c[0];
      var rest := Chain(byD, c0, 1);
      assert c == [c0] + rest;
      ChainSpec(byD, c0, 1);
      assert c0 in Starts(byD[0]);
      forall e | e in byD[0] ensures c0 <= e.0 {
        assert e.0 in Starts(byD[0]);
      }
      forall j | 1 <= j < |c| ensures SmallestLink(byD, j, c[j - 1], c[j]) {
        assert c[j] == rest[j - 1];
        assert Prev(c0, rest, j - 1) == c[j - 1];
        assert SmallestLink(byD, 1 + (j - 1), Prev(c0, rest, j - 1), rest[j - 1]);
      }
      assert Prev(c0, rest, |rest|) == c[|c| - 1];
    }
  }

  /** `edge_reconstruct_path`: walks outward from the victim one bucket at a
      time and returns the routers found, farthest first. */
  method EdgeReconstructPath(byD: map<nat, set<(nat, nat)>>) returns (r: seq<nat>)
    ensures r == Reverse(FullChain(byD))
  {
    if 0 !in byD || byD[0] == {} {
      return [];
    }
    var e :| e in byD[0];
    assert e.0 in Starts(byD[0]);
    var cur := Smallest(Starts(byD[0]));
    var path := [cur];
    var d := 1;
    while d in byD
      invariant path + Chain(byD, cur, d) == FullChain(byD)
      decreases |KeysFrom(byD, d)|
    {
      var candidates := Candidates(byD, d, cur);
      if candidates == {} {
        break;
      }
      KeysFromShrink(byD, d);
      var next := Smallest(candidates);
      AppendAssoc(path, [next], Chain(byD, next, d + 1));
      cur := next;
      path := path + [cur];
      d := d + 1;
    }
    assert path == path + [];
    r := Reverse(path);
  }

  /** Every edge in some bucket. */
  ghost function AllEdges(byD: map<nat, set<(nat, nat)>>): set<(nat, nat)> {
    set d, e | d in byD && e in byD[d] :: e
  }

  /** The routers that a set of edges leads into. */
  function Heads(edges: set<(nat, nat)>): set<nat>
  {
    set e | e in edges :: e.1
  }

  /** An edge is in some bucket exactly when some sample contributes it. */
  lemma AllEdgesSampled(samples: seq<EdgePacket>, victim: nat)
    ensures forall e :: e in AllEdges(Buckets(samples, victim)) <==>
      exists i, d :: 0 <= i < |samples| && EdgeOf(samples[i], victim) == Some((d, e))
  {
    BucketsSpec(samples, victim);
    var b := Buckets(samples, victim);
    forall e | e in AllEdges(b)
      ensures exists i, d :: 0 <= i < |samples| && EdgeOf(samples[i], victim) == Some((d, e))
    {
      var d :| d in b && e in b[d];
    }
    forall e, i, d | 0 <= i < |samples| && EdgeOf(samples[i], victim) == Some((d, e))
      ensures e in AllEdges(b)
    {
      assert d in b && e in b[d];
    }
  }

  /** The endpoints of a union of edge sets are the union of the endpoints. */
  lemma EndpointsUnion(a: set<(nat, nat)>, b: set<(nat, nat)>)
    ensures Starts(a + b) == Starts(a) + Starts(b)
    ensures Heads(a + b) == Heads(a) + Heads(b)
  {
  }

  /** The nodes after one more edge `e`, in terms of the edges added so far. */
  lemma EndpointsStep(base: set<nat>, nodes: set<nat>, done: set<(nat, nat)>, e: (nat, nat))
    requires nodes == base + Starts(done) + Heads(done)
    ensures nodes + {e.0, e.1} == base + Starts(done + {e}) + Heads(done + {e})
  {
    EndpointsUnion(done, {e});
    assert Starts({e}) == {e.0} && Heads({e}) == {e.1};
  }

  /** Moving `e` from what is left to what is done keeps them complementary. */
  lemma MoveOne<T>(all: set<T>, left: set<T>, done: set<T>, e: T)
    requires done == all - left && e in left && left <= all
    ensures done + {e} == all - (left - {e})
    ensures left - {e} <= all && |left - {e}| < |left|
  {
  }

  /** One `add_edge` on top of the edges `done` added to `g` so far. */
  lemma AddEdgeStep(g: Graph, h: Graph, done: set<(nat, nat)>, e: (nat, nat))
    requires WellFormed(h)
    requires NodeSet(h) == NodeSet(g) + Starts(done) + Heads(done)
    requires EdgeSet(h) == EdgeSet(g) + done
    ensures var h' := AddEdge(h, e.0, e.1);
      && NodeSet(h') == NodeSet(g) + Starts(done + {e}) + Heads(done + {e})
      && EdgeSet(h') == EdgeSet(g) + (done + {e})
  {
    EndpointsStep(NodeSet(g), NodeSet(h), done, e);
  }

  /** `H.add_edges_from(edges)`: adds the edges one at a time, in the set's
      iteration order, which is left open. */
  method AddEdgesFrom(g: Graph, edges: set<(nat, nat)>) returns (h: Graph)
    requires WellFormed(g)
    ensures WellFormed(h)
    ensures NodeSet(h) == NodeSet(g) + Starts(edges) + Heads(edges)
    ensures EdgeSet(h) == EdgeSet(g) + edges
  {
    h := g;
    var left := edges;
    ghost var done: set<(nat, nat)> := {};
    while left != {}
      invariant left <= edges && done == edges - left && WellFormed(h)
      invariant NodeSet(h) == NodeSet(g) + Starts(done) + Heads(done)
      invariant EdgeSet(h) == EdgeSet(g) + done
      decreases |left|
    {
      var e :| e in left;
      AddEdgeStep(g, h, done, e);
      MoveOne(edges, left, done, e);
      h := AddEdge(h, e.0, e.1);
      done := done + {e};
      left := left - {e};
    }
  }

  /** The edges of the buckets with keys in `ks`. */
  ghost function BucketEdges(byD: map<nat, set<(nat, nat)>>, ks: set<nat>): set<(nat, nat)> {
    set d, e | d in byD && d in ks && e in byD[d] :: e
  }

  /** Adding bucket `d` to the buckets done adds its edges. */
  lemma BucketEdgesAdd(byD: map<nat, set<(nat, nat)>>, ks: set<nat>, d: nat)
    requires d in byD
    ensures BucketEdges(byD, ks + {d}) == BucketEdges(byD, ks) + byD[d]
  {
  }

  /** The nodes after adding the edges `b` on top of the edges `es`. */
  lemma NodesStep(victim: nat, nodes: set<nat>, es: set<(nat, nat)>, b: set<(nat, nat)>)
    requires nodes == {victim} + Starts(es) + Heads(es)
    ensures nodes + Starts(b) + Heads(b) == {victim} + Starts(es + b) + Heads(es + b)
  {
    EndpointsUnion(es, b);
  }

  /** `edge_build_graph`: the victim plus every bucketed edge, bucket by
      bucket in an order left open, with no consistency filtering. */
  method EdgeBuildGraph(samples: seq<EdgePacket>, victim: nat) returns (h: Graph)
    ensures WellFormed(h)
    ensures var all := AllEdges(Buckets(samples, victim));
      NodeSet(h) == {victim} + Starts(all) + Heads(all) && EdgeSet(h) == all
  {
    h := AddNode(Empty, victim);
    var byD := EdgesByDistance(samples, victim);
    var left := byD.Keys;
    ghost var done: set<nat> := {};
    assert Starts({}) == {} && Heads({}) == {} && BucketEdges(byD, {}) == {};
    while left != {}
      invariant left <= byD.Keys && done == byD.Keys - left && WellFormed(h)
      invariant var es := BucketEdges(byD, done);
        NodeSet(h) == {victim} + Starts(es) + Heads(es) && EdgeSet(h) == es
      decreases |left|
    {
      var d :| d in left;
      ghost var es := BucketEdges(byD, done);
      BucketEdgesAdd(byD, done, d);
      NodesStep(victim, NodeSet(h), es, byD[d]);
      MoveOne(byD.Keys, left, done, d);
      h := AddEdgesFrom(h, byD[d]);
      done := done + {d};
      left := left - {d};
    }
    assert BucketEdges(byD, done) == AllEdges(byD);
  }

  /** The non-victim nodes of `ns` with no incoming edge, in the order of `ns`. */
  function SourcesIn(g: Graph, ns: seq<nat>, victim: nat): (r: seq<nat>)
    requires WellFormed(g)
    requires forall u :: u in ns ==> u in g.succ
    ensures forall n :: n in r <==> n in ns && n != victim && InDegree(g, n) == 0
    ensures NoDup(ns) ==> NoDup(r)
  {
    if ns == [] then []
    else
      var rest := SourcesIn(g, ns[1..], victim);
      assert forall u :: u in ns[1..] ==> u in ns;
      if ns[0] != victim && InDegree(g, ns[0]) == 0 then [ns[0]] + rest else rest
  }

  /** A node id as its own sort key. */
  function ById(n: nat): int { n }

  /** A node has in-degree 0 exactly when no edge ends at it. */
  lemma InDegreeZero(g: Graph, n: nat)
    requires WellFormed(g)
    ensures InDegree(g, n) == 0 <==> forall u :: (u, n) !in EdgeSet(g)
  {
    if InDegree(g, n) != 0 {
      var u :| u in g.succ && n in g.succ[u];
      assert (u, n) in EdgeSet(g);
    }
  }

  /** `edge_guess_attackers_from_graph`: the non-victim nodes without an
      incoming edge, in increasing order. */
  function EdgeGuessAttackers(g: Graph, victim: nat): (r: seq<nat>)
    requires WellFormed(g)
    ensures forall n :: n in r <==> n in NodeSet(g) && n != victim && forall u :: (u, n) !in EdgeSet(g)
    ensures forall i, j :: 0 <= i < j < |r| ==> r[i] < r[j]
  {
    var s := SourcesIn(g, g.nodes, victim);
    var r := SortBy(s, ById);
    SortByIsSorted(s, ById);
    NoDupPermutation(s, r);
    forall n: nat
      ensures n in r <==> n in NodeSet(g) && n != victim && forall u :: (u, n) !in EdgeSet(g)
    {
      assert n in r <==> n in multiset(s);
      InDegreeZero(g, n);
    }
    forall i, j | 0 <= i < j < |r| ensures r[i] < r[j] {
      assert ById(r[i]) <= ById(r[j]);
      assert r[i] != r[j];
    }
    r
  }

  /** Over the graph of the bucketed edges, the guesses are exactly the
      routers that start a bucketed edge, are not the victim and end none:
      the sources of the observed edges. */
  lemma BuiltGraphSources(samples: seq<EdgePacket>, victim: nat, h: Graph)
    requires WellFormed(h)
    requires var all := AllEdges(Buckets(samples, victim));
      NodeSet(h) == {victim} + Starts(all) + Heads(all) && EdgeSet(h) == all
    ensures var all := AllEdges(Buckets(samples, victim));
      forall n :: n in EdgeGuessAttackers(h, victim) <==> n != victim && n in Starts(all) && n !in Heads(all)
  {
    var all := AllEdges(Buckets(samples, victim));
    forall n | n in Heads(all) ensures exists u :: (u, n) in all {
      var e :| e in all && e.1 == n;
      assert (e.0, n) == e;
    }
    forall u, n | (u, n) in all ensures n in Heads(all) {
      assert (u, n).1 == n;
    }
  }
}
