// Byte-range replacement: the one reference operation every transfer in this
// project is measured against.
module Buffers {

  /** s with the |data| bytes from off on replaced by data. */
  function Splice<T>(s: seq<T>, off: nat, data: seq<T>): (r: seq<T>)
    requires off + |data| <= |s|
    ensures |r| == |s|
  {
    s[..off] + data + s[off + |data|..]
  }

  lemma SpliceAt<T>(s: seq<T>, off: nat, data: seq<T>)
    requires off + |data| <= |s|
    ensures Splice(s, off, data)[off..off + |data|] == data
    ensures forall i :: 0 <= i < |s| && !(off <= i < off + |data|) ==> Splice(s, off, data)[i] == s[i]
  {
  }

  /** Two neighbouring replacements are one. */
  lemma SpliceAdjacent<T>(s: seq<T>, off: nat, a: seq<T>, b: seq<T>)
    requires off + |a| + |b| <= |s|
    ensures off + |a + b| <= |s|
    ensures Splice(Splice(s, off, a), off + |a|, b) == Splice(s, off, a + b)
  {
  }

  lemma SpliceNothing<T>(s: seq<T>, off: nat)
    requires off <= |s|
    ensures Splice(s, off, []) == s
  {
  }

  /** Neighbouring slices join. */
  lemma SliceAdjacent<T>(s: seq<T>, off: nat, m: nat, n: nat)
    requires off + m + n <= |s|
    ensures s[off..off + m] + s[off + m..off + m + n] == s[off..off + m + n]
  {
  }

  /** A range that a replacement does not touch keeps its bytes. */
  lemma SpliceElsewhere<T>(s: seq<T>, off: nat, data: seq<T>, lo: nat, hi: nat)
    requires off + |data| <= |s| && lo <= hi <= |s|
    requires hi <= off || off + |data| <= lo
    ensures Splice(s, off, data)[lo..hi] == s[lo..hi]
  {
  }

  /** s with every element in [lo, hi) replaced by v. */
  function Filled<T>(s: seq<T>, lo: int, hi: int, v: T): (r: seq<T>)
    ensures |r| == |s|
  {
    seq(|s|, i requires 0 <= i < |s| => if lo <= i < hi then v else s[i])
  }

  lemma FilledAdjacent<T>(s: seq<T>, lo: int, mid: int, hi: int, v: T)
    requires lo <= mid <= hi
    ensures Filled(Filled(s, lo, mid, v), mid, hi, v) == Filled(s, lo, hi, v)
  {
  }

  /** b differs from a at most inside [lo, hi). */
  predicate Untouched<T(==)>(a: seq<T>, b: seq<T>, lo: int, hi: int) {
    |a| == |b| && forall i :: 0 <= i < |a| && !(lo <= i < hi) ==> b[i] == a[i]
  }

  /** Whatever a device answers: any n bytes. */
  method AnyBytes(n: nat) returns (data: seq<bv8>)
    ensures |data| == n
  {
    data := [];
    while |data| < n
      invariant |data| <= n
    {
      var b: bv8 := *;
      data := data + [b];
    }
  }
}
