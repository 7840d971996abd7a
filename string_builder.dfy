/** The bounded string builder of include/String_Builder.h: a caller-owned
    buffer, its fixed capacity and the current length. Every write keeps one
    byte spare, so the length never reaches the capacity. */
module StringBuilder {
  import opened Bytes
  import opened BuilderSpec

  class Builder {
    const buffer: array<byte>
    const capacity: nat
    var length: nat

    /** The invariant every operation asserts on entry and keeps. */
    ghost predicate Valid()
      reads this
    {
      capacity <= buffer.Length && length < capacity
    }

    /** Every byte from `length` up to the capacity is 0, so the content is
        NUL-terminated. create establishes it, and since every write only
        appends (each ensures Appended), KeepsZeroTail carries it across
        every write. */
    ghost predicate ZeroTail()
      reads this, buffer
    {
      ZeroBetween(buffer[..], length, capacity)
    }

    /** The state after the bytes `w` were appended to a builder whose
        length was `len0` and whose buffer held `b0`; nothing else changed. */
    ghost predicate Appended(b0: seq<byte>, len0: nat, w: seq<byte>)
      reads this, buffer
    {
      len0 + |w| <= |b0| && length == len0 + |w| && buffer[..] == Splice(b0, len0, w)
    }

    /** Appending to a NUL-terminated content leaves it NUL-terminated. */
    lemma {:induction false} KeepsZeroTail(b0: seq<byte>, l0: nat, w: seq<byte>)
      requires Valid() && Appended(b0, l0, w) && ZeroBetween(b0, l0, capacity)
      ensures ZeroTail()
    {
      SpliceZeroBetween(b0, l0, w, capacity);
    }

    /** Appending `w` and then `v` is appending `w + v`. */
    lemma {:induction false} AppendedTwice(b0: seq<byte>, l0: nat, w: seq<byte>, cur: seq<byte>, v: seq<byte>)
      requires l0 + |w| <= |b0| && cur == Splice(b0, l0, w) && Appended(cur, l0 + |w|, v)
      ensures Appended(b0, l0, w + v)
    {
      SpliceSplice(b0, l0, w, v);
    }

    /** string_builder_create: zeroes the first `capacity` bytes of the
        buffer, length 0; bytes beyond the capacity are left as they were. */
    constructor (buffer: array<byte>, capacity: nat)
      requires 0 < capacity <= buffer.Length
      modifies buffer
      ensures this.buffer == buffer && this.capacity == capacity && length == 0
      ensures Valid() && ZeroTail()
      ensures buffer[..] == Splice(old(buffer[..]), 0, Zeros(capacity))
    {
      this.buffer := buffer;
      this.capacity := capacity;
      length := 0;
      new;
      forall k | 0 <= k < capacity {
        buffer[k] := 0;
      }
    }

    /** string_builder_write_byte: succeeds iff one more byte still leaves the
        last slot free; then stores `b` at the old length. */
    method WriteByte(b: byte) returns (ok: bool)
      requires Valid() && IsPositiveChar(b)
      modifies this, buffer
      ensures Valid()
      ensures ok == (old(length) + 1 < capacity)
      ensures Appended(old(buffer[..]), old(length), if ok then [b] else [])
    {
      if length + 1 >= capacity {
        return false;
      }
      buffer[length] := b;
      length := length + 1;
      return true;
    }

    /** string_builder_write_bytes: all of `bytes` or nothing; fails iff
        `length + count >= capacity`. */
    method WriteBytes(bytes: seq<byte>) returns (ok: bool)
      requires Valid()
      modifies this, buffer
      ensures Valid()
      ensures ok == (old(length) + |bytes| < capacity)
      ensures Appended(old(buffer[..]), old(length), if ok then bytes else [])
    {
      var bufferLength := length;
      if bufferLength + |bytes| >= capacity {
        return false;
      }
      var i := 0;
      while i < |bytes|
        invariant 0 <= i <= |bytes| && length == bufferLength
        invariant buffer[..] == Splice(old(buffer[..]), bufferLength, bytes[..i])
      {
        buffer[bufferLength + i] := bytes[i];
        i := i + 1;
      }
      length := length + |bytes|;
      return true;
    }

    /** string_builder_write_string: write_bytes of the string's bytes up to
        its terminator. */
    method WriteString(s: seq<byte>) returns (ok: bool)
      requires Valid() && NoNul(s)
      modifies this, buffer
      ensures Valid()
      ensures ok == (old(length) + |s| < capacity)
      ensures Appended(old(buffer[..]), old(length), if ok then s else [])
    {
      ok := WriteBytes(s);
    }

    /** The emit loop of write_int and write_uint: writes the `n` digits
        held reversed in `scratch`, most significant first, one write_byte
        each, and stops at the first failure. */
    method WriteReversed(scratch: array<byte>, n: nat, ghost text: seq<byte>) returns (ok: bool)
      requires Valid() && scratch != buffer && n <= scratch.Length && |text| == n
      requires scratch[..n] == Reversed(text)
      requires forall k :: 0 <= k < n ==> IsPositiveChar(text[k])
      modifies this, buffer
      ensures Valid()
      ensures ok == (old(length) + n < capacity)
      ensures Appended(old(buffer[..]), old(length), Fit(old(length), capacity, text))
    {
      ghost var b0, l0 := buffer[..], length;
      var i := 0;
      while i < n
        invariant i <= n && Valid()
        invariant Appended(b0, l0, text[..i])
      {
        assert scratch[n - i - 1] == text[i] by {
          assert scratch[n - i - 1] == scratch[..n][n - 1 - i] == Reversed(text)[n - 1 - i];
        }
        ok := WriteByte(scratch[n - i - 1]);
        if !ok {
          return;
        }
        AppendOne(b0, l0, text, i);
        i := i + 1;
      }
      assert text[..i] == text;
      ok := true;
    }

    /** string_builder_write_uint: the canonical decimal of `value`, one
        write_byte per digit; on failure the digits that fitted stay. */
    method WriteUint(value: nat) returns (ok: bool)
      requires Valid() && IsUint64(value)
      modifies this, buffer
      ensures Valid()
      ensures ok == (old(length) + |Digits(value)| < capacity)
      ensures Appended(old(buffer[..]), old(length), Fit(old(length), capacity, Digits(value)))
    {
      if value < 10 {
        ok := WriteByte(DigitByte(value));
        return;
      }
      ScratchSuffices(value);
      var scratch, n := ExtractDigits(value, 21);
      ok := WriteReversed(scratch, n, Digits(value));
    }

    /** string_builder_write_int, branch for branch: the single-digit fast
        path, the -9..-1 fast path ('-' then the byte '0' + value), and
        otherwise '-' for negatives followed by the digits of |value|. */
    method WriteInt(value: int) returns (ok: bool)
      requires Valid() && IsInt64(value)
      modifies this, buffer
      ensures Valid()
      ensures ok == (old(length) + |IntText(value)| < capacity)
      ensures Appended(old(buffer[..]), old(length), Fit(old(length), capacity, IntText(value)))
    {
      ghost var b0, l0 := buffer[..], length;
      if -1 < value < 10 {
        ok := WriteByte(DigitByte(value));
        FitCons(l0, capacity, DigitByte(value), []);
        return;
      }
      if -10 < value < 0 {
        assert IntText(value) == [MINUS, (ZERO as int + value) as byte];
        ok := WritePair(MINUS, (ZERO as int + value) as byte);
        return;
      }
      var sign := if value < 0 then -1 else 1;
      var tmp: nat := if sign == -1 then -value else value;
      ScratchSuffices(tmp);
      ok := WriteSignedDigits(sign == -1, tmp);
      assert IntText(value) == (if sign == -1 then [MINUS] else []) + Digits(tmp);
    }

    /** The -9..-1 fast path of string_builder_write_int: two write_byte
        calls, the second only if the first succeeded. */
    method WritePair(x: byte, y: byte) returns (ok: bool)
      requires Valid() && IsPositiveChar(x) && IsPositiveChar(y)
      modifies this, buffer
      ensures Valid()
      ensures ok == (old(length) + 2 < capacity)
      ensures Appended(old(buffer[..]), old(length), Fit(old(length), capacity, [x, y]))
    {
      ghost var b0, l0 := buffer[..], length;
      assert [x, y] == [x] + [y];
      FitCons(l0, capacity, x, [y]);
      ok := WriteByte(x);
      if !ok {
        return;
      }
      ghost var cur := buffer[..];
      assert length == l0 + 1 && cur == Splice(b0, l0, [x]);
      ok := WriteByte(y);
      FitCons(l0 + 1, capacity, y, []);
      AppendedTwice(b0, l0, [x], cur, if ok then [y] else []);
    }

    /** The general path of string_builder_write_int (from the line taking
        the magnitude on): the digits of `tmp` are extracted into the 20-byte
        scratch, then '-' is written if the value was negative, then the
        digits most significant first; the first failing write ends it. */
    method WriteSignedDigits(negative: bool, tmp: nat) returns (ok: bool)
      requires Valid() && tmp > 0 && |Digits(tmp)| <= 20
      modifies this, buffer
      ensures Valid()
      ensures var text := (if negative then [MINUS] else []) + Digits(tmp);
        ok == (old(length) + |text| < capacity) &&
        Appended(old(buffer[..]), old(length), Fit(old(length), capacity, text))
    {
      var scratch, n := ExtractDigits(tmp, 20);
      if negative {
        ok := WriteMinusReversed(scratch, n, Digits(tmp));
      } else {
        assert [] + Digits(tmp) == Digits(tmp);
        ok := WriteReversed(scratch, n, Digits(tmp));
      }
    }

    /** The negative case of the general path: '-' and then the digits held
        reversed in `scratch`, unless the '-' does not fit. */
    method WriteMinusReversed(scratch: array<byte>, n: nat, ghost text: seq<byte>) returns (ok: bool)
      requires Valid() && scratch != buffer && n <= scratch.Length && |text| == n
      requires scratch[..n] == Reversed(text)
      requires forall k :: 0 <= k < n ==> IsPositiveChar(text[k])
      modifies this, buffer
      ensures Valid()
      ensures ok == (old(length) + 1 + n < capacity)
      ensures Appended(old(buffer[..]), old(length), Fit(old(length), capacity, [MINUS] + text))
    {
      ghost var b0, l0, digits := buffer[..], length, scratch[..n];
      ok := WriteByte(MINUS);
      if !ok {
        FitCons(l0, capacity, MINUS, text);
        return;
      }
      ghost var cur := buffer[..];
      assert length == l0 + 1 && cur == Splice(b0, l0, [MINUS]);
      assert scratch[..n] == digits;
      ok := WriteReversed(scratch, n, text);
      AppendedAfter(b0, l0, MINUS, cur, text);
    }

    /** Writing `x` and then `t` byte by byte from a builder that had room
        for `x`. */
    lemma {:induction false} AppendedAfter(b0: seq<byte>, l0: nat, x: byte, cur: seq<byte>, t: seq<byte>)
      requires l0 + 1 < capacity && l0 + 1 <= |b0| && cur == Splice(b0, l0, [x])
      requires Appended(cur, l0 + 1, Fit(l0 + 1, capacity, t))
      ensures Appended(b0, l0, Fit(l0, capacity, [x] + t))
    {
      FitCons(l0, capacity, x, t);
      AppendedTwice(b0, l0, [x], cur, Fit(l0 + 1, capacity, t));
    }

    /** The consuming cases of string_builder_printf's switch: the argument
        of '%d'/'%i' through write_int, of '%u' through write_uint, of '%c'
        through write_byte and of '%s' through write_string. */
    method WriteConversion(x: byte, a: Arg) returns (ok: bool)
      requires Valid() && Consumes(x) && Matches(x, a)
      modifies this, buffer
      ensures Valid()
      ensures ok == Fits(old(length), capacity, Conversion(x, a))
      ensures Appended(old(buffer[..]), old(length), Fill(old(length), capacity, Conversion(x, a)))
    {
      if x == SPEC_D || x == SPEC_I {
        FillSingles(length, capacity, IntText(a.i));
        ok := WriteInt(a.i);
      } else if x == SPEC_U {
        FillSingles(length, capacity, Digits(a.u));
        ok := WriteUint(a.u);
      } else if x == SPEC_C {
        FillOne(length, capacity, [a.c]);
        ok := WriteByte(a.c);
      } else {
        FillOne(length, capacity, a.s);
        ok := WriteString(a.s);
      }
    }

    /** One turn of string_builder_printf's scan at template index `i`,
        with `args[..j]` consumed: a literal byte through write_byte; '%'
        followed by d/i, u, c or s through the conversion's write; '%'
        followed by any other byte as both bytes in one write_bytes; a
        trailing '%' alone. `c` are the writes performed, `i2` and `j2` where
        the scan goes on. */
    method ScanWrite(fmt: seq<byte>, args: seq<Arg>, i: nat, j: nat)
      returns (ok: bool, i2: nat, j2: nat, ghost c: seq<seq<byte>>)
      requires Valid() && i < |fmt| && j <= |args| && WellTyped(fmt[i..], args[j..])
      modifies this, buffer
      ensures Valid()
      ensures i < i2 <= |fmt| && j <= j2 <= |args| && WellTyped(fmt[i2..], args[j2..])
      ensures Chunks(fmt[i..], args[j..]) == c + Chunks(fmt[i2..], args[j2..])
      ensures ok == Fits(old(length), capacity, c)
      ensures Appended(old(buffer[..]), old(length), Fill(old(length), capacity, c))
    {
      ChunksAt(fmt, args, i, j);
      i2, j2 := i, j;
      if fmt[i2] != PERCENT {
        c := [[fmt[i2]]];
        FillOne(length, capacity, [fmt[i2]]);
        ok := WriteByte(fmt[i2]);
        i2 := i2 + 1;
        return;
      }
      i2 := i2 + 1;
      if i2 == |fmt| {
        // string_builder_printf breaks out of its loop here; the template is at its end
        c := [[PERCENT]];
        FillOne(length, capacity, [PERCENT]);
        ok := WriteByte(PERCENT);
        return;
      }
      var x := fmt[i2];
      if Consumes(x) {
        c := Conversion(x, args[j2]);
        ok := WriteConversion(x, args[j2]);
        j2 := j2 + 1;
      } else {
        c := [[PERCENT, x]];
        FillOne(length, capacity, [PERCENT, x]);
        ok := WriteBytes([PERCENT, x]);
      }
      i2 := i2 + 1;
    }

    /** One turn of the scan with its bookkeeping: the builder started at
        length `l0` over the bytes `b0`, the whole run of writes is `all`,
        and `w` is what the scan appended before this turn. On success the
        scan goes on having appended `w2`; on failure the run is over. */
    method ScanStep(fmt: seq<byte>, args: seq<Arg>, i: nat, j: nat,
                    ghost b0: seq<byte>, ghost l0: nat, ghost all: seq<seq<byte>>, ghost w: seq<byte>)
      returns (ok: bool, i2: nat, j2: nat, ghost w2: seq<byte>)
      requires Valid() && i < |fmt| && j <= |args| && WellTyped(fmt[i..], args[j..])
      requires Appended(b0, l0, w) && RunsAs(l0, capacity, all, w, length, Chunks(fmt[i..], args[j..]))
      modifies this, buffer
      ensures Valid()
      ensures i < i2 <= |fmt| && j <= j2 <= |args| && WellTyped(fmt[i2..], args[j2..])
      ensures Appended(b0, l0, w2)
      ensures ok ==> RunsAs(l0, capacity, all, w2, length, Chunks(fmt[i2..], args[j2..]))
      ensures !ok ==> !Fits(l0, capacity, all) && Fill(l0, capacity, all) == w2
    {
      ghost var len, cur := length, buffer[..];
      ghost var c;
      ok, i2, j2, c := ScanWrite(fmt, args, i, j);
      ghost var v := Fill(len, capacity, c);
      AppendedTwice(b0, l0, w, cur, v);
      w2 := w + v;
      if ok {
        RunProgress(l0, capacity, all, w, len, c, Chunks(fmt[i2..], args[j2..]), w2, length);
      } else {
        RunStops(l0, capacity, all, w, len, c, Chunks(fmt[i2..], args[j2..]));
      }
    }

    /** string_builder_printf: the scan of the template, write by write; the
        first write that fails ends the call with what the earlier writes
        appended. Succeeds iff every write fits. */
    method Printf(fmt: seq<byte>, args: seq<Arg>) returns (ok: bool)
      requires Valid() && NoNul(fmt) && WellTyped(fmt, args)
      modifies this, buffer
      ensures Valid()
      ensures ok == Fits(old(length), capacity, Chunks(fmt, args))
      ensures Appended(old(buffer[..]), old(length), Fill(old(length), capacity, Chunks(fmt, args)))
    {
      ghost var b0, l0, all := buffer[..], length, Chunks(fmt, args);
      ghost var w: seq<byte> := [];
      var i, j := 0, 0;
      while i < |fmt|
        invariant i <= |fmt| && j <= |args| && WellTyped(fmt[i..], args[j..])
        invariant Valid()
        invariant Appended(b0, l0, w) && RunsAs(l0, capacity, all, w, length, Chunks(fmt[i..], args[j..]))
        decreases |fmt| - i
      {
        ok, i, j, w := ScanStep(fmt, args, i, j, b0, l0, all, w);
        if !ok {
          return;
        }
      }
      ok := true;
    }
  }

  /** The digit-extraction loop of write_int and write_uint: the decimal
      digits of `value`, least significant first, into a fresh scratch array
      of `size` bytes (20 in write_int, 21 in write_uint). */
  method ExtractDigits(value: nat, size: nat) returns (scratch: array<byte>, n: nat)
    requires value > 0 && |Digits(value)| <= size
    ensures fresh(scratch) && scratch.Length == size && n == |Digits(value)|
    ensures scratch[..n] == Reversed(Digits(value))
  {
    var tmp := value;
    scratch := new byte[size];
    n := 0;
    ghost var s: seq<byte> := [];
    while tmp > 0
      invariant n == |s| && n <= size && scratch[..n] == s
      invariant Digits(value) == LeadingDigits(tmp) + Reversed(s)
    {
      var modulo := tmp % 10;
      ExtractStep(tmp, s);
      assert n < |Digits(value)| by {
        assert LeadingDigits(tmp) == Digits(tmp);
      }
      tmp := tmp / 10;
      scratch[n] := DigitByte(modulo);
      s := s + [DigitByte(modulo)];
      n := n + 1;
    }
    assert Digits(value) == Reversed(s);
    ReversedTwice(s);
  }

  /** test_write_byte of tests/string_builder_test.c on the class: a fresh
      builder over a 3-byte buffer takes 'A' and 'B', refuses 'C', and then
      holds "AB" followed by the terminator. */
  method WriteByteScenario() returns (okA: bool, okB: bool, okC: bool, content: seq<byte>)
    ensures okA && okB && !okC && content == [65, 66, 0]
  {
    var buffer := new byte[3];
    var builder := new Builder(buffer, 3);
    assert buffer[..] == [0, 0, 0];
    okA := builder.WriteByte(65);
    assert buffer[..] == [65, 0, 0];
    okB := builder.WriteByte(66);
    assert buffer[..] == [65, 66, 0];
    okC := builder.WriteByte(67);
    content := buffer[..];
  }

  /** test_write_bytes and test_write_string of tests/string_builder_test.c
      on the class: a fresh builder over a 4-byte buffer takes "AB" and "C",
      refuses "DEF" as a whole, and then holds "ABC" followed by the
      terminator; write_bytes and write_string agree. */
  method WriteRunsScenario(viaString: bool) returns (okAB: bool, okC: bool, okDEF: bool, content: seq<byte>)
    ensures okAB && okC && !okDEF && content == [65, 66, 67, 0]
  {
    var buffer := new byte[4];
    var builder := new Builder(buffer, 4);
    assert buffer[..] == [0, 0, 0, 0];
    if viaString {
      okAB := builder.WriteString([65, 66]);
    } else {
      okAB := builder.WriteBytes([65, 66]);
    }
    assert buffer[..] == [65, 66, 0, 0];
    if viaString {
      okC := builder.WriteString([67]);
    } else {
      okC := builder.WriteBytes([67]);
    }
    assert buffer[..] == [65, 66, 67, 0];
    if viaString {
      okDEF := builder.WriteString([68, 69, 70]);
    } else {
      okDEF := builder.WriteBytes([68, 69, 70]);
    }
    content := buffer[..];
  }
}
