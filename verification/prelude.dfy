/** Small pieces of Python list semantics shared by the whole model. */
module Prelude {

  datatype Option<+T> = None | Some(value: T)

  function Min(a: int, b: int): int { if a <= b then a else b }

  function Max(a: int, b: int): int { if a >= b then a else b }

  /** Python's slice `s[:n]`; a negative `n` drops that many elements from the end. */
  function Take<T>(s: seq<T>, n: int): (r: seq<T>)
    ensures |r| <= |s| && r == s[..|r|]
    ensures n >= 0 ==> |r| == Min(n, |s|)
    ensures n < 0 ==> |r| == Max(|s| + n, 0)
  {
    if n >= 0 then s[..Min(n, |s|)] else s[..Max(|s| + n, 0)]
  }

  /** `a` is `b` with some elements left out and the others in their order. */
  predicate IsSubseq<T(==)>(a: seq<T>, b: seq<T>)
    decreases |b|
  {
    if a == [] then true
    else if b == [] then false
    else if a[0] == b[0] then IsSubseq(a[1..], b[1..])
    else IsSubseq(a, b[1..])
  }

  /** A prefix of a subsequence of `b` is itself a subsequence of `b`. */
  lemma {:induction false} SubseqPrefix<T>(a: seq<T>, b: seq<T>, n: nat)
    requires IsSubseq(a, b) && n <= |a|
    ensures IsSubseq(a[..n], b)
    decreases |b|
  {
    if n == 0 || a == [] {
    } else if a[0] == b[0] {
      SubseqPrefix(a[1..], b[1..], n - 1);
      assert a[..n][1..] == a[1..][..n - 1];
    } else {
      SubseqPrefix(a, b[1..], n);
    }
  }

  /** No two elements of `s` share the identity `id`. */
  predicate DistinctBy<T, U(==)>(s: seq<T>, id: T -> U)
  {
    forall i, j :: 0 <= i < j < |s| ==> id(s[i]) != id(s[j])
  }
}
