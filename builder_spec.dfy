/** What the bounded string builder appends, stated on values: the decimal
    renderings of write_int and write_uint, the capacity rule shared by every
    write, and the sequence of writes string_builder_printf performs for a
    template and its arguments. */
module BuilderSpec {
  import opened Bytes

  const PERCENT: byte := 37  // '%'
  const MINUS: byte := 45    // '-'
  const ZERO: byte := 48     // '0'

  const INT64_MIN: int := -0x8000_0000_0000_0000
  const INT64_MAX: int := 0x7FFF_FFFF_FFFF_FFFF
  const UINT64_MAX: int := 0xFFFF_FFFF_FFFF_FFFF

  predicate IsInt64(v: int) { INT64_MIN <= v <= INT64_MAX }

  predicate IsUint64(v: int) { 0 <= v <= UINT64_MAX }

  /** A byte write_byte accepts: its `assert(byte > 0)` on a signed `char`
      admits exactly 1..127. */
  predicate IsPositiveChar(b: byte) { 0 < b < 128 }

  /** A C string is modelled by the bytes before its terminator. */
  predicate NoNul(s: seq<byte>) { forall k :: 0 <= k < |s| ==> s[k] != 0 }

  predicate IsDigit(b: byte) { ZERO <= b < ZERO + 10 }

  predicate AllDigits(s: seq<byte>) { forall k :: 0 <= k < |s| ==> IsDigit(s[k]) }

  /** The byte `'0' + d`. */
  function DigitByte(d: nat): (b: byte)
    requires d < 10
    ensures IsDigit(b) && IsPositiveChar(b)
  {
    (ZERO as int + d) as byte
  }

  // ---------------------------------------------------------------------------
  // Decimal rendering
  // ---------------------------------------------------------------------------

  /** The canonical decimal digits of `n`, most significant first: never
      empty, only digit bytes, and a leading '0' only for zero itself. */
  function Digits(n: nat): (s: seq<byte>)
    ensures 1 <= |s|
    ensures AllDigits(s)
    ensures s[0] == ZERO <==> n == 0
  {
    if n < 10 then [DigitByte(n)] else Digits(n / 10) + [DigitByte(n % 10)]
  }

  /** Reference reading of a digit string, most significant digit first. */
  function ValueOf(s: seq<byte>): nat
    requires AllDigits(s)
  {
    if s == [] then 0 else 10 * ValueOf(s[..|s| - 1]) + (s[|s| - 1] - ZERO) as int
  }

  /** Reading the rendering back gives the number: Digits is the decimal of `n`. */
  lemma {:induction false} DigitsValue(n: nat)
    ensures ValueOf(Digits(n)) == n
  {
    if n >= 10 {
      var s := Digits(n);
      assert s[..|s| - 1] == Digits(n / 10);
      DigitsValue(n / 10);
    }
  }

  /** The decimal of a digit string without a leading zero is that string:
      Digits is the only canonical rendering. */
  lemma {:induction false} DigitsOfValue(s: seq<byte>)
    requires 1 <= |s| && AllDigits(s) && (s[0] == ZERO ==> |s| == 1)
    ensures Digits(ValueOf(s)) == s
  {
    if |s| > 1 {
      var p := s[..|s| - 1];
      DigitsOfValue(p);
      assert ValueOf(p) > 0;
      var n := ValueOf(s);
      assert n / 10 == ValueOf(p) && n % 10 == (s[|s| - 1] - ZERO) as int;
      assert s == p + [s[|s| - 1]];
    }
  }

  function Pow10(k: nat): nat
  {
    if k == 0 then 1 else 10 * Pow10(k - 1)
  }

  /** A number below 10^k has at most k digits. */
  lemma {:induction false} DigitsLength(n: nat, k: nat)
    requires 1 <= k && n < Pow10(k)
    ensures |Digits(n)| <= k
  {
    if n >= 10 {
      assert n / 10 < Pow10(k - 1);
      DigitsLength(n / 10, k - 1);
    }
  }

  /** UINT64_MAX has 20 digits, so every unsigned value fits write_uint's
      21-byte scratch; a signed magnitude is at most 2^63 and has at most 19
      digits, so it fits write_int's 20-byte scratch. */
  lemma {:induction false} ScratchSuffices(n: nat)
    ensures n <= UINT64_MAX ==> |Digits(n)| <= 20
    ensures n <= -INT64_MIN ==> |Digits(n)| <= 19
  {
    assert Pow10(5) == 100_000;
    assert Pow10(10) == 10_000_000_000;
    assert Pow10(15) == 1_000_000_000_000_000;
    assert Pow10(19) == 10_000_000_000_000_000_000;
    assert Pow10(20) == 100_000_000_000_000_000_000;
    if n <= UINT64_MAX { DigitsLength(n, 20); }
    if n <= -INT64_MIN { DigitsLength(n, 19); }
  }

  /** The digits of `t` before the ones already extracted into the scratch
      buffer; empty once `t` has reached 0. */
  function LeadingDigits(t: nat): seq<byte>
  {
    if t == 0 then [] else Digits(t)
  }

  /** `s` back to front (the scratch buffer holds the digits reversed). */
  function Reversed(s: seq<byte>): (r: seq<byte>)
    ensures |r| == |s|
  {
    seq(|s|, k requires 0 <= k < |s| => s[|s| - 1 - k])
  }

  /** One turn of the digit-extraction loop: moving the last digit of `t`
      onto the reversed scratch leaves the text they spell unchanged. */
  lemma {:induction false} ExtractStep(t: nat, s: seq<byte>)
    requires t > 0
    ensures LeadingDigits(t) + Reversed(s) == LeadingDigits(t / 10) + Reversed(s + [DigitByte(t % 10)])
  {
    var x := DigitByte(t % 10);
    LeadingStep(t);
    ReversedSnoc(s, x);
    AppendAssoc(LeadingDigits(t / 10), [x], Reversed(s));
  }

  /** Taking the last digit off `t`. */
  lemma {:induction false} LeadingStep(t: nat)
    requires t > 0
    ensures LeadingDigits(t) == LeadingDigits(t / 10) + [DigitByte(t % 10)]
  {
    if t < 10 {
      assert t / 10 == 0 && t % 10 == t;
      assert LeadingDigits(t) == [DigitByte(t)];
    } else {
      assert t / 10 > 0;
      assert LeadingDigits(t) == Digits(t);
    }
  }

  /** Reversing `s` with `x` appended puts `x` first. */
  lemma {:induction false} ReversedSnoc(s: seq<byte>, x: byte)
    ensures Reversed(s + [x]) == [x] + Reversed(s)
  {
    forall k | 0 <= k < |s| + 1
      ensures Reversed(s + [x])[k] == ([x] + Reversed(s))[k]
    {
      if k > 0 {
        assert Reversed(s + [x])[k] == s[|s| - k];
      }
    }
  }

  /** Reversing twice gives the original back. */
  lemma {:induction false} ReversedTwice(s: seq<byte>)
    ensures Reversed(Reversed(s)) == s
  {
    forall k | 0 <= k < |s|
      ensures Reversed(Reversed(s))[k] == s[k]
    {
      assert Reversed(Reversed(s))[k] == Reversed(s)[|s| - 1 - k];
    }
  }

  /** The bytes string_builder_write_int emits for `v`, branch for branch.
      The fast path for -9..-1 emits '-' and then the byte '0' + v, which is
      not a digit. */
  function IntText(v: int): (s: seq<byte>)
    requires IsInt64(v)
    ensures 1 <= |s| <= 20
    ensures forall k :: 0 <= k < |s| ==> IsPositiveChar(s[k])
  {
    ScratchSuffices(if v < 0 then -v else v);
    if -1 < v < 10 then [DigitByte(v)]
    else if -10 < v < 0 then [MINUS, (ZERO as int + v) as byte]
    else if v < 0 then [MINUS] + Digits(-v)
    else Digits(v)
  }

  /** Reading a rendering back: an optional '-' and then digits. */
  predicate IsSignedDecimal(s: seq<byte>)
  {
    if 1 <= |s| && s[0] == MINUS then AllDigits(s[1..]) else AllDigits(s)
  }

  function SignedValueOf(s: seq<byte>): int
    requires IsSignedDecimal(s)
  {
    if 1 <= |s| && s[0] == MINUS then -(ValueOf(s[1..]) as int) else ValueOf(s)
  }

  /** Outside -9..-1 write_int renders the canonical signed decimal: '-'
      only for negatives, then the digits of |v|, which read back as v. This
      covers INT64_MIN, whose magnitude is taken as the mathematical |v|. */
  lemma {:induction false} IntTextCanonical(v: int)
    requires IsInt64(v) && !(-9 <= v <= -1)
    ensures IntText(v) == if v < 0 then [MINUS] + Digits(-v) else Digits(v)
    ensures IsSignedDecimal(IntText(v)) && SignedValueOf(IntText(v)) == v
  {
    var s := IntText(v);
    if v < 0 {
      assert s[1..] == Digits(-v);
      DigitsValue(-v);
    } else {
      DigitsValue(v);
    }
  }

  /** The -9..-1 fast path's output is not a decimal at all: its second byte
      lies between '\'' and '/'. */
  lemma {:induction false} SmallNegativeMisrendered(v: int)
    requires -9 <= v <= -1
    ensures IntText(v) == [MINUS, (ZERO as int + v) as byte]
    ensures !IsSignedDecimal(IntText(v))
  {
    assert !IsDigit(IntText(v)[1..][0]);
  }

  /** Appending a digit to a nonzero number appends its byte to the rendering. */
  lemma {:induction false} DigitsStep(n: nat, d: nat)
    requires 1 <= n && d < 10
    ensures Digits(10 * n + d) == Digits(n) + [DigitByte(d)]
  {
  }

  /** A number with k digits: the rendering of any n with
      10^(k-1) <= n < 10^k is exactly k bytes long. */
  lemma {:induction false} DigitsCount(n: nat, k: nat)
    requires 1 <= k && Pow10(k - 1) <= n < Pow10(k)
    ensures |Digits(n)| == k
  {
    if k > 1 {
      assert n >= 10 by { assert Pow10(k - 1) >= 10 by { Pow10AtLeast(k - 1); } }
      assert Pow10(k - 2) <= n / 10 < Pow10(k - 1);
      DigitsCount(n / 10, k - 1);
    }
  }

  lemma {:induction false} Pow10AtLeast(k: nat)
    requires k >= 1
    ensures Pow10(k) >= 10
  {
    if k > 1 { Pow10AtLeast(k - 1); }
  }

  /** The extremes: UINT64_MAX has 20 digits and the magnitude of INT64_MIN
      19, leaving one byte of each scratch buffer (21 and 20 bytes) unused;
      INT64_MIN renders as '-' and 19 digits, INT64_MAX as 19 digits; each
      reads back as its value. */
  lemma {:induction false} BoundaryRenderings()
    ensures |Digits(UINT64_MAX)| == 20 && ValueOf(Digits(UINT64_MAX)) == UINT64_MAX
    ensures |IntText(INT64_MIN)| == 20 && IntText(INT64_MIN)[0] == MINUS
    ensures SignedValueOf(IntText(INT64_MIN)) == INT64_MIN
    ensures |IntText(INT64_MAX)| == 19 && SignedValueOf(IntText(INT64_MAX)) == INT64_MAX
  {
    assert Pow10(5) == 100_000;
    assert Pow10(10) == 10_000_000_000;
    assert Pow10(15) == 1_000_000_000_000_000;
    assert Pow10(18) == 1_000_000_000_000_000_000;
    assert Pow10(19) == 10_000_000_000_000_000_000;
    DigitsCount(UINT64_MAX, 20);
    DigitsValue(UINT64_MAX);
    DigitsCount(-INT64_MIN, 19);
    DigitsCount(INT64_MAX, 19);
    IntTextCanonical(INT64_MIN);
    IntTextCanonical(INT64_MAX);
  }

  /** The small values around the fast paths: -5 as the code writes it
      ("-+"), and -10, 0 and 9 as canonical decimals. */
  lemma {:induction false} SmallRenderings()
    ensures IntText(-5) == [45, 43]  // "-+"
    ensures IntText(-10) == [45, 49, 48] && IntText(0) == [48] && IntText(9) == [57]
  {
    DigitsStep(1, 0);
  }

  /** The rendering the fast paths evidently mean to shortcut: the general
      path of write_int renders every v <= -10 as '-' and the digits of
      |v|, and the single-digit fast path v in 0..9 agrees with it, so the
      -9..-1 fast path is meant to agree too: every value is a sign for
      negatives and then the digits of |v|. */
  function IntendedIntText(v: int): (s: seq<byte>)
    requires IsInt64(v)
  {
    if v < 0 then [MINUS] + Digits(-v) else Digits(v)
  }

  /** The intended rendering reads back as `v` for every signed 64-bit
      value, and differs from the code's exactly on -9..-1. */
  lemma {:induction false} IntendedIntTextCorrect(v: int)
    requires IsInt64(v)
    ensures IsSignedDecimal(IntendedIntText(v)) && SignedValueOf(IntendedIntText(v)) == v
    ensures IntendedIntText(v) == IntText(v) <==> !(-9 <= v <= -1)
  {
    var s := IntendedIntText(v);
    if v < 0 {
      assert s[1..] == Digits(-v);
      DigitsValue(-v);
      if -9 <= v { assert s[1] != IntText(v)[1]; }
    } else {
      DigitsValue(v);
    }
  }

  // ---------------------------------------------------------------------------
  // The capacity rule
  // ---------------------------------------------------------------------------

  /** What a writer that appends `t` one write_byte at a time leaves behind in
      a builder of length `len` and capacity `cap`: the longest prefix of `t`
      that still leaves the last slot free. */
  function Fit(len: nat, cap: nat, t: seq<byte>): (r: seq<byte>)
    requires len < cap
    ensures len + |r| < cap
  {
    if len + |t| < cap then t else t[..cap - 1 - len]
  }

  /** A byte-at-a-time writer leaves a prefix of its text: all of it iff
      it fits, and otherwise exactly as much as fills the builder up to its
      last free slot. */
  lemma {:induction false} FitPrefix(len: nat, cap: nat, t: seq<byte>)
    requires len < cap
    ensures Fit(len, cap, t) <= t
    ensures Fit(len, cap, t) == t <==> len + |t| < cap
    ensures len + |t| >= cap ==> len + |Fit(len, cap, t)| == cap - 1
  {
  }

  /** Writing `x` and then `t` byte by byte: `x` goes in iff it leaves the
      last slot free, and the rest continues from one further on. */
  lemma {:induction false} FitCons(len: nat, cap: nat, x: byte, t: seq<byte>)
    requires len < cap
    ensures Fit(len, cap, [x] + t) == if len + 1 < cap then [x] + Fit(len + 1, cap, t) else []
  {
    if len + 1 < cap && len + 1 + |t| >= cap {
      assert ([x] + t)[..cap - 1 - len] == [x] + t[..cap - 1 - (len + 1)];
    }
  }

  /** The bytes of a list of writes, concatenated. */
  function Flatten(cs: seq<seq<byte>>): seq<byte>
  {
    if cs == [] then [] else cs[0] + Flatten(cs[1..])
  }

  /** What a run of atomic writes appends, each `cs[k]` one write_bytes-style
      call that fails as a whole when `length + count >= capacity`; the run
      stops at the first failure. */
  function Fill(len: nat, cap: nat, cs: seq<seq<byte>>): seq<byte>
    decreases |cs|
  {
    if cs == [] || len + |cs[0]| >= cap then [] else cs[0] + Fill(len + |cs[0]|, cap, cs[1..])
  }

  /** Whether every write in the run succeeds. */
  predicate Fits(len: nat, cap: nat, cs: seq<seq<byte>>)
    decreases |cs|
  {
    cs == [] || (len + |cs[0]| < cap && Fits(len + |cs[0]|, cap, cs[1..]))
  }

  /** A run succeeds iff all of its bytes fit with one slot to spare; it never
      fills the last slot; what it appends is a prefix of all its bytes, all of
      them on success and a proper prefix on failure. */
  lemma {:induction false} FillBounds(len: nat, cap: nat, cs: seq<seq<byte>>)
    requires len < cap
    ensures Fits(len, cap, cs) <==> len + |Flatten(cs)| < cap
    ensures len + |Fill(len, cap, cs)| < cap
    ensures Fill(len, cap, cs) <= Flatten(cs)
    ensures Fits(len, cap, cs) ==> Fill(len, cap, cs) == Flatten(cs)
    ensures !Fits(len, cap, cs) ==> |Fill(len, cap, cs)| < |Flatten(cs)|
    decreases |cs|
  {
    if cs != [] && len + |cs[0]| < cap {
      FillBounds(len + |cs[0]|, cap, cs[1..]);
    }
  }

  /** Running two lists of writes in turn: the second runs only if the whole
      first one succeeded, starting from where it left the length. */
  lemma {:induction false} FillAppend(len: nat, cap: nat, a: seq<seq<byte>>, b: seq<seq<byte>>)
    ensures Fits(len, cap, a + b) == (Fits(len, cap, a) && Fits(len + |Flatten(a)|, cap, b))
    ensures Fill(len, cap, a + b) ==
      if Fits(len, cap, a) then Flatten(a) + Fill(len + |Flatten(a)|, cap, b) else Fill(len, cap, a)
    decreases |a|
  {
    if a != [] {
      assert (a + b)[1..] == a[1..] + b;
      if len + |a[0]| < cap {
        FillAppend(len + |a[0]|, cap, a[1..], b);
      }
    } else {
      assert a + b == b;
    }
  }

  /** A run of one atomic write: all of `t` or nothing. */
  lemma {:induction false} FillOne(len: nat, cap: nat, t: seq<byte>)
    ensures Fits(len, cap, [t]) == (len + |t| < cap)
    ensures Fill(len, cap, [t]) == if len + |t| < cap then t else []
  {
    assert [t][1..] == [];
  }

  /** Splitting a run after its first writes `c`: whatever `c` appends comes
      first, and the rest runs, from where `c` left the length, only if all
      of `c` succeeded. */
  lemma {:induction false} RunStep(len: nat, cap: nat, c: seq<seq<byte>>, rest: seq<seq<byte>>)
    requires len < cap
    ensures Fits(len, cap, c + rest) == (Fits(len, cap, c) && Fits(len + |Fill(len, cap, c)|, cap, rest))
    ensures Fill(len, cap, c + rest) ==
      Fill(len, cap, c) + if Fits(len, cap, c) then Fill(len + |Fill(len, cap, c)|, cap, rest) else []
  {
    FillAppend(len, cap, c, rest);
    FillBounds(len, cap, c);
  }

  /** A run of writes `all` begun at length `l0` has appended `w` so far
      and stands at length `len` with the writes `rest` still ahead: it
      succeeds iff `rest` does from here, and appends `w` and then what
      `rest` appends. */
  predicate RunsAs(l0: nat, cap: nat, all: seq<seq<byte>>, w: seq<byte>, len: nat, rest: seq<seq<byte>>)
  {
    Fits(l0, cap, all) == Fits(len, cap, rest) && Fill(l0, cap, all) == w + Fill(len, cap, rest)
  }

  /** Taking the writes `c` off the front of what is ahead when all of them
      succeed: the run goes on after them, having appended `w2`. */
  lemma {:induction false} RunProgress(l0: nat, cap: nat, all: seq<seq<byte>>, w: seq<byte>, len: nat,
                    c: seq<seq<byte>>, rest: seq<seq<byte>>, w2: seq<byte>, len2: nat)
    requires len < cap && RunsAs(l0, cap, all, w, len, c + rest) && Fits(len, cap, c)
    requires w2 == w + Fill(len, cap, c) && len2 == len + |Fill(len, cap, c)|
    ensures RunsAs(l0, cap, all, w2, len2, rest)
  {
    FitsProgress(l0, cap, all, len, c, rest, len2);
    FillProgress(l0, cap, all, w, len, c, rest, w2, len2);
  }

  lemma {:induction false} FitsProgress(l0: nat, cap: nat, all: seq<seq<byte>>, len: nat,
                     c: seq<seq<byte>>, rest: seq<seq<byte>>, len2: nat)
    requires len < cap && Fits(l0, cap, all) == Fits(len, cap, c + rest) && Fits(len, cap, c)
    requires len2 == len + |Fill(len, cap, c)|
    ensures Fits(l0, cap, all) == Fits(len2, cap, rest)
  {
    RunStep(len, cap, c, rest);
  }

  lemma {:induction false} FillProgress(l0: nat, cap: nat, all: seq<seq<byte>>, w: seq<byte>, len: nat,
                     c: seq<seq<byte>>, rest: seq<seq<byte>>, w2: seq<byte>, len2: nat)
    requires len < cap && Fill(l0, cap, all) == w + Fill(len, cap, c + rest) && Fits(len, cap, c)
    requires w2 == w + Fill(len, cap, c) && len2 == len + |Fill(len, cap, c)|
    ensures Fill(l0, cap, all) == w2 + Fill(len2, cap, rest)
  {
    FillSplit(len, cap, c, rest);
    AppendAssoc(w, Fill(len, cap, c), Fill(len2, cap, rest));
  }

  /** When all of `c` succeeds, the run of `c + rest` appends what `c`
      appends and then what `rest` appends from there. */
  lemma {:induction false} FillSplit(len: nat, cap: nat, c: seq<seq<byte>>, rest: seq<seq<byte>>)
    requires len < cap && Fits(len, cap, c)
    ensures Fill(len, cap, c + rest) == Fill(len, cap, c) + Fill(len + |Fill(len, cap, c)|, cap, rest)
  {
    FillAppend(len, cap, c, rest);
    FillBounds(len, cap, c);
  }

  /** When one of the writes `c` ahead fails, the whole run fails, and what
      it appended ends with what `c` appended. */
  lemma {:induction false} RunStops(l0: nat, cap: nat, all: seq<seq<byte>>, w: seq<byte>, len: nat,
                 c: seq<seq<byte>>, rest: seq<seq<byte>>)
    requires len < cap && RunsAs(l0, cap, all, w, len, c + rest) && !Fits(len, cap, c)
    ensures !Fits(l0, cap, all) && Fill(l0, cap, all) == w + Fill(len, cap, c)
  {
    RunStep(len, cap, c, rest);
  }

  /** One write_byte per byte of `t`. */
  function Singles(t: seq<byte>): (cs: seq<seq<byte>>)
    ensures |cs| == |t|
  {
    seq(|t|, k requires 0 <= k < |t| => [t[k]])
  }

  /** Writing `t` one byte at a time is the run of its one-byte writes: it
      succeeds iff all of `t` fits, and otherwise fills the builder up to its
      last free slot. */
  lemma {:induction false} FillSingles(len: nat, cap: nat, t: seq<byte>)
    requires len < cap
    ensures Flatten(Singles(t)) == t
    ensures Fits(len, cap, Singles(t)) == (len + |t| < cap)
    ensures Fill(len, cap, Singles(t)) == Fit(len, cap, t)
    decreases |t|
  {
    if t != [] {
      assert Singles(t)[1..] == Singles(t[1..]);
      if len + 1 < cap {
        FillSingles(len + 1, cap, t[1..]);
        assert Fit(len, cap, t) == [t[0]] + Fit(len + 1, cap, t[1..]);
      } else {
        FillSingles(len, cap, t[1..]);
      }
    }
  }

  /** Three write_byte calls into a fresh 3-byte builder: 'A' and 'B' go
      in, 'C' is refused, and the content is "AB" (bytes 65, 66, 67). */
  lemma {:induction false} ThreeByteWrites(cs: seq<seq<byte>>)
    requires cs == [[65], [66], [67]]
    ensures Fits(0, 3, cs[..2]) && !Fits(2, 3, cs[2..])
    ensures !Fits(0, 3, cs) && Fill(0, 3, cs) == [65, 66]
  {
    assert cs[..2][1..] == [[66]];
    assert cs[1..] == [[66], [67]];
    assert cs[1..][1..] == [[67]];
    assert Fill(1, 3, cs[1..]) == [66] + Fill(2, 3, [[67]]);
    assert !Fits(1, 3, cs[1..]);
  }

  /** write_bytes of "AB", "C" and "DEF" into a fresh 4-byte builder: the
      first two succeed, "DEF" is refused as a whole, and the content stays
      "ABC". */
  lemma {:induction false} ThreeRunWrites(cs: seq<seq<byte>>)
    requires cs == [[65, 66], [67], [68, 69, 70]]
    ensures Fits(0, 4, cs[..2]) && !Fits(3, 4, cs[2..])
    ensures !Fits(0, 4, cs) && Fill(0, 4, cs) == [65, 66, 67]
  {
    assert cs[..2][1..] == [[67]];
    assert cs[1..] == [[67], [68, 69, 70]];
    assert cs[1..][1..] == [[68, 69, 70]];
    assert Fill(2, 4, cs[1..]) == [67] + Fill(3, 4, [[68, 69, 70]]);
    assert !Fits(2, 4, cs[1..]);
  }

  // ---------------------------------------------------------------------------
  // string_builder_printf
  // ---------------------------------------------------------------------------

  /** The typed argument list standing in for the variadic arguments. */
  datatype Arg = Int(i: int) | Uint(u: nat) | Char(c: byte) | Str(s: seq<byte>)

  const SPEC_D: byte := 100  // 'd'
  const SPEC_I: byte := 105  // 'i'
  const SPEC_U: byte := 117  // 'u'
  const SPEC_C: byte := 99   // 'c'
  const SPEC_S: byte := 115  // 's'

  /** The specifiers that consume an argument; every other byte after '%'
      takes the default branch. */
  predicate Consumes(x: byte)
  {
    x == SPEC_D || x == SPEC_I || x == SPEC_U || x == SPEC_C || x == SPEC_S
  }

  /** The argument has the type the specifier reads with va_arg and meets the
      precondition of the write it is passed to. */
  predicate Matches(x: byte, a: Arg)
  {
    if x == SPEC_D || x == SPEC_I then a.Int? && IsInt64(a.i)
    else if x == SPEC_U then a.Uint? && IsUint64(a.u)
    else if x == SPEC_C then a.Char? && IsPositiveChar(a.c)
    else if x == SPEC_S then a.Str? && NoNul(a.s)
    else true
  }

  /** The template and arguments agree: literal bytes are positive chars
      (they go through write_byte), and each consuming specifier finds a
      matching argument, left to right. Extra arguments are ignored. */
  predicate WellTyped(fmt: seq<byte>, args: seq<Arg>)
    decreases |fmt|
  {
    if fmt == [] then true
    else if fmt[0] != PERCENT then IsPositiveChar(fmt[0]) && WellTyped(fmt[1..], args)
    else if |fmt| == 1 then true
    else if Consumes(fmt[1]) then |args| > 0 && Matches(fmt[1], args[0]) && WellTyped(fmt[2..], args[1..])
    else WellTyped(fmt[2..], args)
  }

  /** The writes one consuming specifier performs. */
  function Conversion(x: byte, a: Arg): (cs: seq<seq<byte>>)
    requires Consumes(x) && Matches(x, a)
    ensures cs != []
    ensures x == SPEC_C || x == SPEC_S ==> |cs| == 1
  {
    if x == SPEC_D || x == SPEC_I then Singles(IntText(a.i))
    else if x == SPEC_U then Singles(Digits(a.u))
    else if x == SPEC_C then [[a.c]]
    else [a.s]
  }

  /** The writes string_builder_printf performs, in order, when none fails:
      one write_byte per literal byte, the conversion's writes for
      d/i/u/c/s, one two-byte write_bytes of '%' and the byte for any other
      specifier (including '%'), and a lone '%' for a trailing '%'. */
  function Chunks(fmt: seq<byte>, args: seq<Arg>): (cs: seq<seq<byte>>)
    requires WellTyped(fmt, args)
    ensures cs == [] <==> fmt == []
    decreases |fmt|
  {
    if fmt == [] then []
    else if fmt[0] != PERCENT then [[fmt[0]]] + Chunks(fmt[1..], args)
    else if |fmt| == 1 then [[PERCENT]]
    else if Consumes(fmt[1]) then Conversion(fmt[1], args[0]) + Chunks(fmt[2..], args[1..])
    else [[PERCENT, fmt[1]]] + Chunks(fmt[2..], args)
  }

  /** One step of the template scan at index `i`, the arguments consumed so
      far being `args[..j]`. */
  lemma {:induction false} ChunksAt(fmt: seq<byte>, args: seq<Arg>, i: nat, j: nat)
    requires i < |fmt| && j <= |args| && WellTyped(fmt[i..], args[j..])
    ensures fmt[i] != PERCENT ==>
      IsPositiveChar(fmt[i]) && WellTyped(fmt[i + 1..], args[j..]) &&
      Chunks(fmt[i..], args[j..]) == [[fmt[i]]] + Chunks(fmt[i + 1..], args[j..])
    ensures fmt[i] == PERCENT && i + 1 == |fmt| ==> Chunks(fmt[i..], args[j..]) == [[PERCENT]]
    ensures fmt[i] == PERCENT && i + 1 < |fmt| && Consumes(fmt[i + 1]) ==>
      j < |args| && Matches(fmt[i + 1], args[j]) && WellTyped(fmt[i + 2..], args[j + 1..]) &&
      Chunks(fmt[i..], args[j..]) == Conversion(fmt[i + 1], args[j]) + Chunks(fmt[i + 2..], args[j + 1..])
    ensures fmt[i] == PERCENT && i + 1 < |fmt| && !Consumes(fmt[i + 1]) ==>
      WellTyped(fmt[i + 2..], args[j..]) &&
      Chunks(fmt[i..], args[j..]) == [[PERCENT, fmt[i + 1]]] + Chunks(fmt[i + 2..], args[j..])
  {
    assert fmt[i..][1..] == fmt[i + 1..];
    if i + 1 < |fmt| {
      assert fmt[i..][2..] == fmt[i + 2..];
      if j < |args| { assert args[j..][1..] == args[j + 1..]; }
    }
  }

  lemma {:induction false} FlattenAppend(a: seq<seq<byte>>, b: seq<seq<byte>>)
    ensures Flatten(a + b) == Flatten(a) + Flatten(b)
    decreases |a|
  {
    if a != [] {
      assert (a + b)[1..] == a[1..] + b;
      FlattenAppend(a[1..], b);
    } else {
      assert a + b == b;
    }
  }

  lemma {:induction false} FlattenSingles(t: seq<byte>)
    ensures Flatten(Singles(t)) == t
    decreases |t|
  {
    if t != [] {
      assert Singles(t)[1..] == Singles(t[1..]);
      FlattenSingles(t[1..]);
    }
  }

  /** A run of bytes without '%' at the front of a template is copied byte
      for byte, one write_byte each, and consumes no argument. */
  lemma {:induction false} LiteralRun(lit: seq<byte>, rest: seq<byte>, args: seq<Arg>)
    requires forall k :: 0 <= k < |lit| ==> lit[k] != PERCENT && IsPositiveChar(lit[k])
    requires WellTyped(rest, args)
    ensures WellTyped(lit + rest, args)
    ensures Chunks(lit + rest, args) == Singles(lit) + Chunks(rest, args)
    decreases |lit|
  {
    if lit != [] {
      assert (lit + rest)[1..] == lit[1..] + rest;
      LiteralRun(lit[1..], rest, args);
      assert Singles(lit) == [[lit[0]]] + Singles(lit[1..]);
    } else {
      assert lit + rest == rest;
    }
  }

  /** A consuming specifier takes the next argument and performs its
      conversion's writes before the rest of the template. */
  lemma {:induction false} ConsumingSpecifier(x: byte, a: Arg, rest: seq<byte>, args: seq<Arg>)
    requires Consumes(x) && Matches(x, a) && WellTyped(rest, args)
    ensures WellTyped([PERCENT, x] + rest, [a] + args)
    ensures Chunks([PERCENT, x] + rest, [a] + args) == Conversion(x, a) + Chunks(rest, args)
  {
    assert ([PERCENT, x] + rest)[2..] == rest;
    assert ([a] + args)[1..] == args;
  }

  /** Every specifier outside d/i/u/c/s, '%' included, is copied as two
      bytes in one write_bytes and consumes no argument. */
  lemma {:induction false} UnknownSpecifier(x: byte, rest: seq<byte>, args: seq<Arg>)
    requires !Consumes(x) && WellTyped(rest, args)
    ensures WellTyped([PERCENT, x] + rest, args)
    ensures Chunks([PERCENT, x] + rest, args) == [[PERCENT, x]] + Chunks(rest, args)
  {
    assert ([PERCENT, x] + rest)[2..] == rest;
  }

  /** "100%% done" as the code renders it: both '%' are kept, since the
      default branch of the switch passes any other specifier byte through
      after its '%'. */
  lemma {:induction false} PercentExample(f: seq<byte>)
    requires f == [49, 48, 48, 37, 37, 32, 100, 111, 110, 101]  // "100%% done"
    ensures WellTyped(f, []) && Flatten(Chunks(f, [])) == f
  {
    var head, tail := f[..3], f[5..];
    var c := Singles(head) + ([[PERCENT, PERCENT]] + Singles(tail));
    assert WellTyped(f, []) && Chunks(f, []) == c by {
      LiteralRun(tail, [], []);
      assert tail + [] == tail;
      UnknownSpecifier(PERCENT, tail, []);
      LiteralRun(head, [PERCENT, PERCENT] + tail, []);
      assert f == head + ([PERCENT, PERCENT] + tail);
    }
    assert Flatten(c) == f by {
      FlattenAppend(Singles(head), [[PERCENT, PERCENT]] + Singles(tail));
      FlattenAppend([[PERCENT, PERCENT]], Singles(tail));
      FlattenSingles(head);
      FlattenSingles(tail);
      assert Flatten([[PERCENT, PERCENT]]) == [PERCENT, PERCENT];
      assert f == head + ([PERCENT, PERCENT] + tail);
    }
  }

  /** The writes for "%s=%d,%u" with "x", -5, 7: the string in one write,
      then one write_byte per byte of "=", "-+", "," and "7". */
  lemma {:induction false} CompositionChunks(f: seq<byte>, x: seq<byte>)
    requires f == [37, 115, 61, 37, 100, 44, 37, 117]  // "%s=%d,%u"
    requires x == [120]                                  // "x"
    ensures WellTyped(f, [Str(x), Int(-5), Uint(7)])
    ensures Chunks(f, [Str(x), Int(-5), Uint(7)]) ==
      [x] + (Singles(f[2..3]) + (Singles(IntText(-5)) + (Singles(f[5..6]) + Singles(Digits(7)))))
  {
    var eq, comma, u := f[2..3], f[5..6], [PERCENT, SPEC_U];
    ConsumingSpecifier(SPEC_U, Uint(7), [], []);
    assert u + [] == u;
    LiteralRun(comma, u, [Uint(7)]);
    ConsumingSpecifier(SPEC_D, Int(-5), comma + u, [Uint(7)]);
    LiteralRun(eq, [PERCENT, SPEC_D] + (comma + u), [Int(-5), Uint(7)]);
    ConsumingSpecifier(SPEC_S, Str(x), eq + ([PERCENT, SPEC_D] + (comma + u)), [Int(-5), Uint(7)]);
    assert f == [PERCENT, SPEC_S] + (eq + ([PERCENT, SPEC_D] + (comma + u)));
    assert [Str(x), Int(-5), Uint(7)] == [Str(x)] + ([Int(-5)] + [Uint(7)]);
  }

  lemma {:induction false} CompositionExample(f: seq<byte>, x: seq<byte>)
    requires f == [37, 115, 61, 37, 100, 44, 37, 117]  // "%s=%d,%u"
    requires x == [120]                                  // "x"
    ensures WellTyped(f, [Str(x), Int(-5), Uint(7)])
    ensures Flatten(Chunks(f, [Str(x), Int(-5), Uint(7)])) == [120, 61, 45, 43, 44, 55]  // "x=-+,7"
  {
    CompositionChunks(f, x);
    var eq, neg, comma, seven := f[2..3], IntText(-5), f[5..6], Digits(7);
    assert neg == [MINUS, 43];
    FlattenAppend([x], Singles(eq) + (Singles(neg) + (Singles(comma) + Singles(seven))));
    FlattenAppend(Singles(eq), Singles(neg) + (Singles(comma) + Singles(seven)));
    FlattenAppend(Singles(neg), Singles(comma) + Singles(seven));
    FlattenAppend(Singles(comma), Singles(seven));
    FlattenSingles(eq);
    FlattenSingles(neg);
    FlattenSingles(comma);
    FlattenSingles(seven);
    assert Flatten([x]) == x;
  }
}
