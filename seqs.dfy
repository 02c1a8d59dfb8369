/** Small facts about sequences that the solver finds only slowly inside
    larger proofs. */
module Seqs {

  lemma SliceSnoc<T>(s: seq<T>, i: nat)
    requires i < |s|
    ensures s[..i + 1] == s[..i] + [s[i]]
  {
  }

  lemma SnocParts<T>(s: seq<T>, x: T)
    ensures (s + [x])[..|s|] == s && (s + [x])[|s|] == x && |s + [x]| == |s| + 1
  {
  }

  lemma DropLast<T>(s: seq<T>)
    requires s != []
    ensures s[..|s| - 1] + [s[|s| - 1]] == s
  {
  }

  lemma WholeSlice<T>(s: seq<T>)
    ensures s[..|s|] == s
  {
  }

  lemma PrefixOfPrefix<T>(s: seq<T>, m: nat, n: nat)
    requires m <= n <= |s|
    ensures s[..n][..m] == s[..m]
  {
  }

  lemma Associative<T>(a: seq<T>, b: seq<T>, c: seq<T>)
    ensures (a + b) + c == a + (b + c)
  {
  }

  /** The concatenation of `f(0)`, ..., `f(c - 1)`, left to right. */
  function Fold<T>(f: nat -> seq<T>, c: nat): seq<T> {
    if c == 0 then [] else Fold(f, c - 1) + f(c - 1)
  }

  /** Every element of s satisfies ok. */
  predicate All<T(==)>(s: seq<T>, ok: T -> bool) {
    forall x :: x in s ==> ok(x)
  }

  /** What holds of every piece holds of their concatenation. */
  lemma {:induction false} FoldAll<T>(f: nat -> seq<T>, c: nat, ok: T -> bool)
    requires forall i :: 0 <= i < c ==> All(f(i), ok)
    ensures All(Fold(f, c), ok)
    decreases c
  {
    if c > 0 {
      FoldAll(f, c - 1, ok);
      assert Fold(f, c) == Fold(f, c - 1) + f(c - 1);
    }
  }

  /** An element of a piece is an element of the concatenation. */
  lemma {:induction false} FoldMember<T>(f: nat -> seq<T>, i: nat, c: nat, x: T)
    requires i < c && x in f(i)
    ensures x in Fold(f, c)
    decreases c
  {
    if i < c - 1 {
      FoldMember(f, i, c - 1, x);
    }
    assert Fold(f, c) == Fold(f, c - 1) + f(c - 1);
  }

  /** The concatenation of `f(xs[j], k + j)` over the items, left to right. */
  function Joined<T>(xs: seq<T>, k: nat, f: (T, nat) -> seq<char>): seq<char> {
    if xs == [] then []
    else Joined(xs[..|xs| - 1], k, f) + f(xs[|xs| - 1], k + |xs| - 1)
  }

  lemma JoinedSnoc<T>(xs: seq<T>, x: T, k: nat, f: (T, nat) -> seq<char>)
    ensures Joined(xs + [x], k, f) == Joined(xs, k, f) + f(x, k + |xs|)
  {
    SnocParts(xs, x);
  }

  /** One more item rendered after a text holding the first i. */
  lemma JoinedStep<T>(text: seq<char>, xs: seq<T>, i: nat, k: nat, f: (T, nat) -> seq<char>, x: T, block: seq<char>)
    requires i < |xs| && xs[i] == x && block == f(x, k + i)
    ensures text + Joined(xs[..i + 1], k, f) == (text + Joined(xs[..i], k, f)) + block
  {
    SliceSnoc(xs, i);
    JoinedSnoc(xs[..i], xs[i], k, f);
    Associative(text, Joined(xs[..i], k, f), block);
  }
}
