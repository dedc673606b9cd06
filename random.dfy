/** The seeded generator `random.Random(seed)` as the program uses it: its
    `_randbelow` results are a supplied stream `draws`, its state is the
    number `pos` of draws made so far, and `shuffle` and `choice` are written
    out over them as CPython defines them. */
module Random {
  /** `s` with the elements at `i` and `j` exchanged. */
  function Swap(s: seq<nat>, i: nat, j: nat): (r: seq<nat>)
    requires i < |s| && j < |s|
    ensures |r| == |s|
  {
    s[i := s[j]][j := s[i]]
  }

  /** An exchange is a permutation. */
  lemma SwapPermutes(s: seq<nat>, i: nat, j: nat)
    requires i < |s| && j < |s|
    ensures multiset(Swap(s, i, j)) == multiset(s)
  {
  }

  /** `_randbelow(n)` as the `pos`-th value of the stream: below `n`. */
  function Pick(draws: nat -> nat, pos: nat, n: nat): (j: nat)
    requires n > 0
    ensures j < n
  {
    draws(pos) % n
  }

  /** The passes `i`, `i - 1`, ..., `1` of the Fisher-Yates loop that
      `random.shuffle` runs, starting from `r` with the generator at draw
      `pos`: pass `i` exchanges the element at index `i` with the one at
      `_randbelow(i + 1)`. */
  function Passes(r: seq<nat>, i: nat, draws: nat -> nat, pos: nat): (t: seq<nat>)
    requires i < |r|
    ensures |t| == |r|
    decreases i
  {
    if i == 0 then r
    else Passes(Swap(r, i, Pick(draws, pos, i + 1)), i - 1, draws, pos + 1)
  }

  /** The passes only exchange elements, so they permute. */
  lemma {:induction false} PassesPermute(r: seq<nat>, i: nat, draws: nat -> nat, pos: nat)
    requires i < |r|
    ensures multiset(Passes(r, i, draws, pos)) == multiset(r)
    decreases i
  {
    if i > 0 {
      var j := Pick(draws, pos, i + 1);
      PassesPermute(Swap(r, i, j), i - 1, draws, pos + 1);
      SwapPermutes(r, i, j);
    }
  }

  /** `random.shuffle(s)` with the generator at draw `pos`: the passes from
      the last index down to 1. */
  function Shuffled(s: seq<nat>, draws: nat -> nat, pos: nat): (r: seq<nat>)
    ensures |r| == |s|
  {
    if s == [] then s else Passes(s, |s| - 1, draws, pos)
  }

  /** A shuffle is a permutation. */
  lemma ShuffledPermutes(s: seq<nat>, draws: nat -> nat, pos: nat)
    ensures multiset(Shuffled(s, draws, pos)) == multiset(s)
  {
    if s != [] {
      PassesPermute(s, |s| - 1, draws, pos);
    }
  }

  /** The number of draws a shuffle of `n` elements takes. */
  function ShuffleDraws(n: nat): nat
  {
    if n == 0 then 0 else n - 1
  }

  /** `rng.choice(s)` with the generator at draw `pos`: the element at index
      `_randbelow(len(s))`. */
  function Choice(s: seq<nat>, draws: nat -> nat, pos: nat): (x: nat)
    requires s != []
    ensures x in s
  {
    s[Pick(draws, pos, |s|)]
  }

  /** `rng.shuffle(s)` with the generator at draw `pos`: the Fisher-Yates loop
      over the list, and the draw position after it. */
  method Shuffle(s: seq<nat>, draws: nat -> nat, pos: nat) returns (r: seq<nat>, next: nat)
    ensures r == Shuffled(s, draws, pos)
    ensures next == pos + ShuffleDraws(|s|)
  {
    r, next := s, pos;
    if |s| == 0 {
      return;
    }
    var i := |s| - 1;
    while i > 0
      invariant 0 <= i < |s| && |r| == |s|
      invariant next + i == pos + |s| - 1
      invariant Passes(r, i, draws, next) == Shuffled(s, draws, pos)
      decreases i
    {
      var j := Pick(draws, next, i + 1);
      r := Swap(r, i, j);
      next := next + 1;
      i := i - 1;
    }
  }
}
