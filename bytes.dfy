/** Bytes of the caller-owned buffers and the two whole-buffer rewrites every
    component is specified with: splicing a run of bytes in at an index, and
    zero-filling. */
module Bytes {

  /** One storage byte (`char` or `uint8_t` in the library). */
  newtype byte = x: int | 0 <= x < 256

  /** `b` with the bytes of `s` written over it from index `at` on; every
      other byte is left as it was. */
  function Splice(b: seq<byte>, at: nat, s: seq<byte>): (r: seq<byte>)
    requires at + |s| <= |b|
    ensures |r| == |b|
  {
    seq(|b|, k requires 0 <= k < |b| => if at <= k < at + |s| then s[k - at] else b[k])
  }

  /** Splicing `s` and then `t` right after it is splicing `s + t`. */
  lemma {:induction false} SpliceSplice(b: seq<byte>, at: nat, s: seq<byte>, t: seq<byte>)
    requires at + |s| + |t| <= |b|
    ensures Splice(Splice(b, at, s), at + |s|, t) == Splice(b, at, s + t)
  {
    var l, r := Splice(Splice(b, at, s), at + |s|, t), Splice(b, at, s + t);
    forall k | 0 <= k < |b|
      ensures l[k] == r[k]
    {
      if at <= k < at + |s| {
        assert (s + t)[k - at] == s[k - at];
      } else if at + |s| <= k < at + |s| + |t| {
        assert (s + t)[k - at] == t[k - at - |s|];
      }
    }
  }

  /** Splicing in the first `i` bytes of `t` and then byte `i` is splicing
      in its first `i + 1` bytes. */
  lemma {:induction false} AppendOne(b: seq<byte>, at: nat, t: seq<byte>, i: nat)
    requires i < |t| && at + i + 1 <= |b|
    ensures Splice(Splice(b, at, t[..i]), at + i, [t[i]]) == Splice(b, at, t[..i + 1])
  {
    assert t[..i + 1] == t[..i] + [t[i]];
    SpliceSplice(b, at, t[..i], [t[i]]);
  }

  /** Every byte from index `at` up to (not including) `end` is 0. */
  predicate ZeroBetween(b: seq<byte>, at: nat, end: nat)
  {
    forall k :: at <= k < end && k < |b| ==> b[k] == 0
  }

  /** Splicing `s` in right at the start of a zero run that reaches past
      it leaves a zero run after it. */
  lemma {:induction false} SpliceZeroBetween(b: seq<byte>, at: nat, s: seq<byte>, end: nat)
    requires at + |s| <= |b| && at + |s| <= end && ZeroBetween(b, at, end)
    ensures ZeroBetween(Splice(b, at, s), at + |s|, end)
  {
  }

  /** Concatenation is associative. */
  lemma AppendAssoc<T>(a: seq<T>, b: seq<T>, c: seq<T>)
    ensures a + (b + c) == (a + b) + c
  {
    assert |a + (b + c)| == |(a + b) + c|;
  }

  /** `n` zero bytes (what `memset(p, 0, n)` writes). */
  function Zeros(n: nat): (r: seq<byte>)
    ensures |r| == n
    ensures forall k :: 0 <= k < n ==> r[k] == 0
  {
    seq(n, _ => 0)
  }
}
