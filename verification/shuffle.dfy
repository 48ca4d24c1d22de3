/** `shuffleArray` of script.js: the Fisher-Yates loop that swaps
    `array[i]` with `array[j]`, `j` drawn from 0..i, for i from the last
    index down to 1. */
module Shuffle {
  import opened Grid

  predicate Distinct<T(==)>(s: seq<T>) {
    forall i, j :: 0 <= i < j < |s| ==> s[i] != s[j]
  }

  /** Appending an element the list does not hold keeps it duplicate-free. */
  lemma AppendFresh<T>(s: seq<T>, x: T)
    requires Distinct(s) && x !in s
    ensures Distinct(s + [x])
  {
    var t := s + [x];
    forall i, j | 0 <= i < j < |t|
      ensures t[i] != t[j]
    {
      if j == |s| {
        assert t[i] == s[i];
      }
    }
  }

  /** `Math.floor(Math.random() * bound)` at the draw `rng(k)`. */
  function Draw(rng: Rng, k: nat, bound: nat): (j: nat)
    requires bound > 0
    ensures j < bound
  {
    rng(k) % bound
  }

  /** `s` with positions `i` and `j` exchanged. */
  function Swap<T>(s: seq<T>, i: nat, j: nat): (t: seq<T>)
    requires i < |s| && j < |s|
    ensures |t| == |s| && t[i] == s[j] && t[j] == s[i]
    ensures forall k :: 0 <= k < |s| && k != i && k != j ==> t[k] == s[k]
  {
    s[i := s[j]][j := s[i]]
  }

  /** Exchanging two positions keeps the multiset of elements. */
  lemma SwapPermutes<T>(s: seq<T>, i: nat, j: nat)
    requires i < |s| && j < |s|
    ensures multiset(Swap(s, i, j)) == multiset(s)
  {
    var u := s[i := s[j]];
    assert multiset(u) == multiset(s) - multiset{s[i]} + multiset{s[j]};
    assert multiset(u[j := s[i]]) == multiset(u) - multiset{u[j]} + multiset{s[i]};
  }

  /** What the loop does from index `top` down to 1 when its first draw is
      `rng(k)`. */
  function ShuffledFrom<T>(s: seq<T>, rng: Rng, k: nat, top: nat): seq<T>
    requires top < |s|
    decreases top
  {
    if top == 0 then s
    else ShuffledFrom(Swap(s, top, Draw(rng, k, top + 1)), rng, k + 1, top - 1)
  }

  /** The value of `array` after `shuffleArray(array)` with draws from `rng(k)` on. */
  function Shuffled<T>(s: seq<T>, rng: Rng, k: nat): seq<T> {
    if |s| == 0 then s else ShuffledFrom(s, rng, k, |s| - 1)
  }

  /** The number of draws `shuffleArray` makes on an array of `len` elements. */
  function ShuffleDraws(len: nat): nat {
    if len == 0 then 0 else len - 1
  }

  lemma {:induction false} ShuffledFromPermutes<T>(s: seq<T>, rng: Rng, k: nat, top: nat)
    requires top < |s|
    ensures |ShuffledFrom(s, rng, k, top)| == |s|
    ensures multiset(ShuffledFrom(s, rng, k, top)) == multiset(s)
    decreases top
  {
    if top > 0 {
      var t := Swap(s, top, Draw(rng, k, top + 1));
      SwapPermutes(s, top, Draw(rng, k, top + 1));
      ShuffledFromPermutes(t, rng, k + 1, top - 1);
    }
  }

  /** Shuffling is a permutation: same length, same multiset of elements. */
  lemma ShuffledPermutes<T>(s: seq<T>, rng: Rng, k: nat)
    ensures |Shuffled(s, rng, k)| == |s|
    ensures multiset(Shuffled(s, rng, k)) == multiset(s)
  {
    if |s| > 0 {
      ShuffledFromPermutes(s, rng, k, |s| - 1);
    }
  }

  lemma {:induction false} ShuffledFromDistinct<T>(s: seq<T>, rng: Rng, k: nat, top: nat)
    requires top < |s| && Distinct(s)
    ensures Distinct(ShuffledFrom(s, rng, k, top))
    decreases top
  {
    if top > 0 {
      var j := Draw(rng, k, top + 1);
      var t := Swap(s, top, j);
      forall a, b | 0 <= a < b < |t|
        ensures t[a] != t[b]
      {
        var a' := if a == top then j else if a == j then top else a;
        var b' := if b == top then j else if b == j then top else b;
        assert t[a] == s[a'] && t[b] == s[b'] && a' != b';
      }
      ShuffledFromDistinct(t, rng, k + 1, top - 1);
    }
  }

  /** Shuffling a sequence without repeated elements yields one without
      repeated elements. */
  lemma ShuffledDistinct<T>(s: seq<T>, rng: Rng, k: nat)
    requires Distinct(s)
    ensures Distinct(Shuffled(s, rng, k))
  {
    if |s| > 0 {
      ShuffledFromDistinct(s, rng, k, |s| - 1);
    }
  }

  /** `shuffleArray(array)`: permutes `a` in place and returns the next
      unused draw. */
  method ShuffleArray<T>(a: array<T>, rng: Rng, k0: nat) returns (k: nat)
    modifies a
    ensures a[..] == Shuffled(old(a[..]), rng, k0)
    ensures k == k0 + ShuffleDraws(a.Length)
  {
    k := k0;
    ghost var s0 := a[..];
    if a.Length == 0 {
      return;
    }
    var i := a.Length - 1;
    while i > 0
      invariant 0 <= i < a.Length
      invariant ShuffledFrom(s0, rng, k0, a.Length - 1) == ShuffledFrom(a[..], rng, k, i)
      invariant k == k0 + (a.Length - 1 - i)
    {
      var j := Draw(rng, k, i + 1);
      ghost var before := a[..];
      var tmp := a[i];
      a[i] := a[j];
      a[j] := tmp;
      assert a[..] == Swap(before, i, j);
      k := k + 1;
      i := i - 1;
    }
  }
}
