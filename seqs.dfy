/** Sequence helpers standing for the Python built-ins the program leans on:
    first-occurrence de-duplication (dict/Counter insertion order), the stable
    `sorted`, `reversed`, and list slicing `s[:n]`. */
module Seqs {

  /** No element occurs twice. */
  ghost predicate NoDup<T>(s: seq<T>) {
    forall i, j :: 0 <= i < j < |s| ==> s[i] != s[j]
  }

  /** The index of the first occurrence of `x` in `s`. */
  function IndexOf<T(==)>(s: seq<T>, x: T): (i: nat)
    requires x in s
    ensures i < |s| && s[i] == x
    ensures forall j :: 0 <= j < i ==> s[j] != x
  {
    if x in s[..|s| - 1] then IndexOf(s[..|s| - 1], x) else |s| - 1
  }

  /** The elements of `s` in order of first occurrence, each once: the key order
      of a Python dict or Counter filled from `s`. */
  function Distinct<T(==)>(s: seq<T>): (r: seq<T>)
    ensures NoDup(r)
    ensures forall i :: 0 <= i < |r| ==> r[i] in s
    ensures forall i :: 0 <= i < |s| ==> s[i] in r
  {
    if s == [] then []
    else
      var p := Distinct(s[..|s| - 1]);
      if s[|s| - 1] in p then p else p + [s[|s| - 1]]
  }

  /** `Distinct` keeps the order in which elements first occur. */
  lemma {:induction false} DistinctKeepsFirstOccurrenceOrder<T>(s: seq<T>, i: nat, j: nat)
    requires i < j < |Distinct(s)|
    ensures IndexOf(s, Distinct(s)[i]) < IndexOf(s, Distinct(s)[j])
  {
    var n := |s| - 1;
    var p := Distinct(s[..n]);
    var r := Distinct(s);
    if s[n] in p {
      DistinctKeepsFirstOccurrenceOrder(s[..n], i, j);
      assert r[i] in s[..n] && r[j] in s[..n];
    } else if j < |p| {
      DistinctKeepsFirstOccurrenceOrder(s[..n], i, j);
      assert r[i] in s[..n] && r[j] in s[..n];
    } else {
      assert r[j] == s[n] && r[j] !in s[..n];
      assert r[i] in s[..n];
    }
  }

  /** Non-decreasing by `key`. */
  ghost predicate SortedBy<T>(s: seq<T>, key: T -> int) {
    forall i, j :: 0 <= i < j < |s| ==> key(s[i]) <= key(s[j])
  }

  /** Where a stable sort puts `x` when it comes after every element of `r`:
      behind every element whose key is not larger. */
  function InsertPos<T>(x: T, r: seq<T>, key: T -> int): (p: nat)
    ensures p <= |r|
    ensures forall q :: 0 <= q < p ==> key(r[q]) <= key(x)
    ensures p < |r| ==> key(x) < key(r[p])
  {
    if r == [] || key(x) < key(r[0]) then 0 else 1 + InsertPos(x, r[1..], key)
  }

  /** Python's `sorted(s, key=key)`: a stable sort, written as an insertion sort
      (every stable sort gives the same result). */
  function SortBy<T>(s: seq<T>, key: T -> int): (r: seq<T>)
    ensures |r| == |s|
    ensures multiset(r) == multiset(s)
  {
    if s == [] then []
    else
      var r := SortBy(s[..|s| - 1], key);
      var p := InsertPos(s[|s| - 1], r, key);
      assert r == r[..p] + r[p..];
      assert s == s[..|s| - 1] + [s[|s| - 1]];
      r[..p] + [s[|s| - 1]] + r[p..]
  }

  /** The element at index `k` of `r` with `x` spliced in at `p`. */
  lemma SpliceAt<T>(r: seq<T>, p: nat, x: T, k: nat)
    requires p <= |r| && k <= |r|
    ensures (r[..p] + [x] + r[p..])[k] == if k < p then r[k] else if k == p then x else r[k - 1]
  {
  }

  /** The result of `SortBy` is ordered by `key`. */
  lemma {:induction false} SortByIsSorted<T>(s: seq<T>, key: T -> int)
    ensures SortedBy(SortBy(s, key), key)
  {
    if s != [] {
      var r := SortBy(s[..|s| - 1], key);
      var x := s[|s| - 1];
      var p := InsertPos(x, r, key);
      SortByIsSorted(s[..|s| - 1], key);
      var out := r[..p] + [x] + r[p..];
      assert out == SortBy(s, key);
      forall i, j | 0 <= i < j < |out| ensures key(out[i]) <= key(out[j]) {
        SpliceAt(r, p, x, i);
        SpliceAt(r, p, x, j);
        if i == p && j > p {
          assert key(x) < key(r[p]);
          assert p == j - 1 || key(r[p]) <= key(r[j - 1]);
        }
      }
    }
  }

  /** Equal keys appear in `r` in the order they have in `s`. */
  ghost predicate StableWrt<T>(s: seq<T>, r: seq<T>, key: T -> int) {
    forall i, j :: 0 <= i < j < |r| && key(r[i]) == key(r[j]) ==>
      r[i] in s && r[j] in s && IndexOf(s, r[i]) < IndexOf(s, r[j])
  }

  /** In a sorted `r`, everything from `InsertPos` on has a larger key than `x`. */
  lemma InsertPosBelow<T>(x: T, r: seq<T>, key: T -> int)
    requires SortedBy(r, key)
    ensures forall k :: InsertPos(x, r, key) <= k < |r| ==> key(x) < key(r[k])
  {
    var p := InsertPos(x, r, key);
    forall k | p <= k < |r| ensures key(x) < key(r[k]) {
      assert key(x) < key(r[p]);
      assert p == k || key(r[p]) <= key(r[k]);
    }
  }

  /** `SortBy` is stable: elements with equal keys keep their order in `s`. */
  lemma {:induction false} SortByIsStable<T>(s: seq<T>, key: T -> int)
    requires NoDup(s)
    ensures StableWrt(s, SortBy(s, key), key)
  {
    if s != [] {
      var n := |s| - 1;
      var r := SortBy(s[..n], key);
      assert forall k :: 0 <= k < n ==> s[..n][k] == s[k];
      assert NoDup(s[..n]);
      SortByIsStable(s[..n], key);
      SortByIsSorted(s[..n], key);
      InsertKeepsStable(s, r, key);
    }
  }

  /** One insertion step of `SortBy` keeps the order of equal keys. */
  lemma InsertKeepsStable<T>(s: seq<T>, r: seq<T>, key: T -> int)
    requires NoDup(s) && s != []
    requires multiset(r) == multiset(s[..|s| - 1])
    requires SortedBy(r, key) && StableWrt(s[..|s| - 1], r, key)
    ensures
      var p := InsertPos(s[|s| - 1], r, key);
      StableWrt(s, r[..p] + [s[|s| - 1]] + r[p..], key)
  {
    var x := s[|s| - 1];
    var p := InsertPos(x, r, key);
    var out := r[..p] + [x] + r[p..];
    forall i, j | 0 <= i < j < |out| && key(out[i]) == key(out[j])
      ensures out[i] in s && out[j] in s && IndexOf(s, out[i]) < IndexOf(s, out[j])
    {
      InsertPairStable(s, r, key, out, i, j);
    }
  }

  /** Two elements with equal keys after one insertion step of `SortBy` are
      in the order they have in `s`. */
  lemma InsertPairStable<T>(s: seq<T>, r: seq<T>, key: T -> int, out: seq<T>, i: nat, j: nat)
    requires NoDup(s) && s != []
    requires multiset(r) == multiset(s[..|s| - 1])
    requires SortedBy(r, key) && StableWrt(s[..|s| - 1], r, key)
    requires out == r[..InsertPos(s[|s| - 1], r, key)] + [s[|s| - 1]] + r[InsertPos(s[|s| - 1], r, key)..]
    requires i < j < |out| && key(out[i]) == key(out[j])
    ensures out[i] in s && out[j] in s && IndexOf(s, out[i]) < IndexOf(s, out[j])
  {
    var n := |s| - 1;
    var x := s[n];
    var p := InsertPos(x, r, key);
    assert x !in s[..n];
    assert IndexOf(s, x) == n;
    SpliceAt(r, p, x, i);
    SpliceAt(r, p, x, j);
    if i != p && j != p {
      var i' := if i < p then i else i - 1;
      var j' := if j < p then j else j - 1;
      assert out[i] == r[i'] && out[j] == r[j'] && i' < j';
      InElementOfPrefix(s, r, i');
      InElementOfPrefix(s, r, j');
    } else {
      InsertPosBelow(x, r, key);
      var k := if i == p then j else i;
      var k' := if k < p then k else k - 1;
      InElementOfPrefix(s, r, k');
    }
  }

  /** An element of a permutation `r` of all but the last of `s` comes before
      that last element in `s`, at the index it has in the prefix. */
  lemma InElementOfPrefix<T>(s: seq<T>, r: seq<T>, k: nat)
    requires s != [] && multiset(r) == multiset(s[..|s| - 1]) && k < |r|
    ensures r[k] in s[..|s| - 1]
    ensures IndexOf(s, r[k]) == IndexOf(s[..|s| - 1], r[k]) < |s| - 1
  {
    assert r[k] in multiset(r);
  }

  /** Concatenation is associative. */
  lemma AppendAssoc<T>(a: seq<T>, b: seq<T>, c: seq<T>)
    ensures (a + b) + c == a + (b + c)
  {
  }

  /** A prefix one longer ends in the next element. */
  lemma PrefixStep<T>(s: seq<T>, k: nat)
    requires k < |s|
    ensures s[..k + 1] == s[..k] + [s[k]]
  {
  }

  /** `reversed(s)`. */
  function Reverse<T>(s: seq<T>): (r: seq<T>)
    ensures |r| == |s|
    ensures forall i :: 0 <= i < |s| ==> r[i] == s[|s| - 1 - i]
  {
    if s == [] then [] else [s[|s| - 1]] + Reverse(s[..|s| - 1])
  }

  /** `len(s[:n])` for a list of length `len` and any integer `n`: a negative
      `n` counts from the end. */
  function SliceLen(len: nat, n: int): nat
  {
    if 0 <= n then (if n <= len then n else len) else (if 0 <= len + n then len + n else 0)
  }

  /** Python's slice `s[:n]`: the first `len(s[:n])` elements, and exactly
      `n` of them when `0 <= n <= len(s)`. */
  function Prefix<T>(s: seq<T>, n: int): (r: seq<T>)
    ensures |r| == SliceLen(|s|, n) && |r| <= |s|
    ensures 0 <= n <= |s| <==> |r| == n
    ensures r == s[..|r|] && forall i :: 0 <= i < |r| ==> r[i] == s[i]
  {
    if 0 <= n then s[..if n <= |s| then n else |s|]
    else s[..if 0 <= |s| + n then |s| + n else 0]
  }

  /** The set of the elements of a duplicate-free sequence has its length. */
  lemma {:induction false} NoDupCardinality<T>(s: seq<T>)
    requires NoDup(s)
    ensures |set x | x in s| == |s|
  {
    if s != [] {
      var n := |s| - 1;
      assert forall k :: 0 <= k < n ==> s[..n][k] == s[k];
      NoDupCardinality(s[..n]);
      assert (set x | x in s) == (set x | x in s[..n]) + {s[n]};
      assert s[n] !in s[..n];
    }
  }

  /** A permutation of a duplicate-free sequence is duplicate-free. */
  lemma NoDupPermutation<T>(s: seq<T>, t: seq<T>)
    requires NoDup(s) && multiset(s) == multiset(t)
    ensures NoDup(t)
  {
    forall i, j | 0 <= i < j < |t| ensures t[i] != t[j] {
      if t[i] == t[j] {
        var x := t[i];
        assert multiset(t)[x] >= 2 by {
          assert t == t[..i] + [x] + t[i + 1..j] + [x] + t[j + 1..];
        }
        NoDupCount(s, x);
        assert false;
      }
    }
  }

  /** Each element of a duplicate-free sequence occurs once. */
  lemma {:induction false} NoDupCount<T>(s: seq<T>, x: T)
    requires NoDup(s)
    ensures multiset(s)[x] <= 1
  {
    if s != [] {
      var n := |s| - 1;
      assert s == s[..n] + [s[n]];
      assert forall k :: 0 <= k < n ==> s[..n][k] == s[k];
      NoDupCount(s[..n], x);
      if x == s[n] {
        assert x !in s[..n];
        assert multiset(s[..n])[x] == 0;
      }
    }
  }

  /** The elements of `s` that are not in `xs`, in the order of `s`. */
  function Without<T(==,!new)>(s: seq<T>, xs: seq<T>): (r: seq<T>)
    ensures forall x :: x in r <==> x in s && x !in xs
    ensures NoDup(s) ==> NoDup(r)
  {
    if s == [] then []
    else
      var rest := Without(s[1..], xs);
      assert forall x :: x in s[1..] ==> x in s;
      assert NoDup(s) ==> NoDup(s[1..]) && s[0] !in s[1..] by {
        if NoDup(s) {
          assert forall i :: 1 <= i < |s| ==> s[1..][i - 1] == s[i];
        }
      }
      if s[0] !in xs then [s[0]] + rest else rest
  }

  /** Removing distinct elements that all occur in a duplicate-free `s` shortens
      it by their number. */
  lemma WithoutLength<T(!new)>(s: seq<T>, xs: seq<T>)
    requires NoDup(s) && NoDup(xs)
    requires forall x :: x in xs ==> x in s
    ensures |Without(s, xs)| == |s| - |xs|
  {
    var r := Without(s, xs);
    var S: set<T> := set x | x in s;
    var X: set<T> := set x | x in xs;
    var R: set<T> := set x | x in r;
    NoDupCardinality(s);
    assert |S| == |s|;
    NoDupCardinality(xs);
    assert |X| == |xs|;
    NoDupCardinality(r);
    assert |R| == |r|;
    WithoutElements(s, xs);
    assert R == S - X;
    DiffCardinality(S, X);
    assert |R| == |S| - |X|;
  }

  /** The elements left by `Without` are those of `s` less those of `xs`. */
  lemma WithoutElements<T(!new)>(s: seq<T>, xs: seq<T>)
    ensures (set x | x in Without(s, xs)) == (set x | x in s) - (set x | x in xs)
  {
  }

  /** Taking away a subset takes away its size. */
  lemma DiffCardinality<T>(s: set<T>, x: set<T>)
    requires x <= s
    ensures |s - x| == |s| - |x|
  {
    assert s == (s - x) + x;
    assert (s - x) * x == {};
  }

  /** A duplicate-free sequence whose elements all lie in another
      duplicate-free sequence is no longer than it. */
  lemma NoDupSubLength<T>(s: seq<T>, t: seq<T>)
    requires NoDup(s) && NoDup(t)
    requires forall x :: x in s ==> x in t
    ensures |s| <= |t|
  {
    NoDupCardinality(s);
    NoDupCardinality(t);
    var S := set x | x in s;
    var U := set x | x in t;
    DiffCardinality(U, S);
  }

  /** A map whose keys are the elements of a duplicate-free sequence has as
      many entries as the sequence has elements. */
  lemma MapKeysLength<T, U>(m: map<T, U>, s: seq<T>)
    requires NoDup(s)
    requires forall x :: x in m <==> x in s
    ensures |m| == |s|
  {
    NoDupCardinality(s);
    assert m.Keys == set x | x in s;
  }

  /** A non-empty sequence holds its first element. */
  lemma HeadIn<T>(s: seq<T>)
    ensures s != [] ==> s[0] in s
  {
  }
}
