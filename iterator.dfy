/** The in-memory cursors of chimp/strings/String_Iterator.h and
    chimp/strings/Byte_Iterator.h, which are the same code under two names:
    a read-only run of bytes, the offset of the next byte, and the 1-based
    line and column of that byte. */
module Iterators {
  import opened Bytes

  /** String_Iterator_Position / Byte_Iterator_Position. */
  datatype Position = Position(offset: nat, line: nat, column: nat)

  /** String_Iterator_Result / Byte_Iterator_Result: the position the byte
      was read at, and the byte as an `int` (0 once the input is exhausted). */
  datatype Result = Result(position: Position, byte: int)

  const NEWLINE: byte := 10

  /** The position of the first byte. */
  const START := Position(0, 1, 1)

  /** A `char` read as an `int`: `char` is signed, so bytes from 128 on come
      out negative. */
  function Signed(b: byte): (v: int)
    ensures -128 <= v < 128 && (v - b as int) % 256 == 0
    ensures v == NEWLINE as int <==> b == NEWLINE
    ensures v != 0 <==> b != 0
  {
    if b < 128 then b as int else b as int - 256
  }

  /** The bookkeeping of one successful `next` whose byte read as `v`: one
      byte further on; after a newline the next line starts at column 1,
      after any other byte the column moves on by one. */
  function Step(p: Position, v: int): (q: Position)
    ensures q.offset == p.offset + 1
    ensures v == NEWLINE as int ==> q.line == p.line + 1 && q.column == 1
    ensures v != NEWLINE as int ==> q.line == p.line && q.column == p.column + 1
  {
    if v == NEWLINE as int then Position(p.offset + 1, p.line + 1, 1)
    else Position(p.offset + 1, p.line, p.column + 1)
  }

  /** The position after consuming `s` from the start, one `next` per byte. */
  function PositionAfter(s: seq<byte>): Position
    decreases |s|
  {
    if s == [] then START else Step(PositionAfter(s[..|s| - 1]), Signed(s[|s| - 1]))
  }

  /** The position after a prefix, in terms of the prefix alone: its offset
      is its length, its line is one more than the number of newlines in
      it, and its column is one more than the number of bytes since the
      last newline (all of them when there is none). */
  lemma {:induction false} PositionCounts(s: seq<byte>)
    ensures var p := PositionAfter(s);
      p.offset == |s| && p.line == 1 + multiset(s)[NEWLINE] &&
      1 <= p.column <= |s| + 1 &&
      (forall k :: |s| - (p.column - 1) <= k < |s| ==> s[k] != NEWLINE) &&
      (p.column - 1 < |s| ==> s[|s| - p.column] == NEWLINE)
    decreases |s|
  {
    if s != [] {
      var init, last := s[..|s| - 1], s[|s| - 1];
      assert s == init + [last];
      PositionCounts(init);
      assert multiset(s) == multiset(init) + multiset{last};
    }
  }

  /** Reading "a\nb" (bytes 97, 10, 98) ends on line 2, column 2. */
  lemma {:induction false} TwoLines(s: seq<byte>)
    requires s == [97, 10, 98]
    ensures PositionAfter(s[..1]) == Position(1, 1, 2)
    ensures PositionAfter(s[..2]) == Position(2, 2, 1)
    ensures PositionAfter(s) == Position(3, 2, 2)
  {
    assert s[..2][..1] == s[..1];
    assert s[..1][..0] == [];
    assert s[..2] == s[..|s| - 1];
  }

  /** A String_Iterator or Byte_Iterator over the caller's `text`. */
  class Iterator {
    const text: seq<byte>
    var offset: nat
    var position: Position

    /** What create, next and peek assert on entry. */
    ghost predicate Valid()
      reads this
    {
      |text| > 0 && offset <= |text|
    }

    /** The bookkeeping next keeps: the position is the one reached after
        reading the first `offset` bytes. */
    ghost predicate Consistent()
      reads this
    {
      offset <= |text| && position == PositionAfter(text[..offset])
    }

    /** string_iterator_create / byte_iterator_create. */
    constructor (text: seq<byte>)
      requires |text| > 0
      ensures this.text == text && offset == 0 && position == START
      ensures Valid() && Consistent()
    {
      this.text := text;
      offset := 0;
      position := START;
    }

    /** string_iterator_peek / byte_iterator_peek: the current position with
        the next byte, or 0 at the end; no state changes. */
    function Peek(): (r: Result)
      reads this
      requires Valid()
      ensures r.position == position
      ensures offset < |text| ==> r.byte == Signed(text[offset])
      ensures offset == |text| ==> r.byte == 0
    {
      Result(position, if offset < |text| then Signed(text[offset]) else 0)
    }

    /** string_iterator_next / byte_iterator_next: returns what peek would
        have returned; before the end it moves one byte on and updates line
        and column, at the end it changes nothing. */
    method Next() returns (r: Result)
      requires Valid()
      modifies this
      ensures Valid() && r == old(Peek())
      ensures old(offset) < |text| ==>
        offset == old(offset) + 1 && position == Step(old(position), Signed(text[old(offset)]))
      ensures old(offset) == |text| ==> offset == old(offset) && position == old(position)
      ensures old(Consistent()) ==> Consistent()
    {
      r := Result(position, 0);
      if offset < |text| {
        r := r.(byte := Signed(text[offset]));
        offset := offset + 1;
        position := position.(offset := position.offset + 1);
        if r.byte == NEWLINE as int {
          position := position.(line := position.line + 1, column := 1);
        } else {
          position := position.(column := position.column + 1);
        }
        assert text[..offset][..offset - 1] == text[..offset - 1];
      }
    }
  }
}
