/**
 * The source span of a node, packed into one Java `int`: the start offset in
 * the top 16 bits and the end offset in the bottom 16 bits.
 */
module Position {
  import opened Words

  const Span: int := 0x1_0000

  /**
   * `pos >> 16`. The arithmetic shift floors, and so does Dafny's `/` by a
   * positive divisor; the result lies in the signed 16-bit range.
   */
  function StartOf(pos: int32): (start: int32)
    ensures -0x8000 <= start < 0x8000
    ensures start as int * Span <= pos as int < (start as int + 1) * Span
  {
    (pos as int / Span) as int32
  }

  /** `pos & 0xffff`: the low half-word, never negative. */
  function EndOf(pos: int32): (end: int32)
    ensures 0 <= end < 0x1_0000
    ensures (pos as int - end as int) % Span == 0
  {
    (pos as int % Span) as int32
  }

  /** The arithmetic definition of the start agrees with the bit-level `pos >> 16`. */
  lemma StartIsShift(pos: int32)
    ensures StartOf(pos) as int == Signed(ShiftRight(Word(pos), 16))
  {
    ShiftRight16(pos);
  }

  /** The arithmetic definition of the end agrees with the bit-level `pos & 0xffff`. */
  lemma EndIsMask(pos: int32)
    ensures EndOf(pos) as int == Signed(And(Word(pos), Word(0xffff)))
  {
    MaskLow16(pos);
  }

  /** Nothing is lost: the two halves put back together give the packed value. */
  lemma Recompose(pos: int32)
    ensures pos as int == StartOf(pos) as int * Span + EndOf(pos) as int
  {
  }

  /** Two positions with the same start and end are the same position. */
  lemma Injective(p: int32, q: int32)
    requires StartOf(p) == StartOf(q) && EndOf(p) == EndOf(q)
    ensures p == q
  {
    Recompose(p);
    Recompose(q);
  }

  /** The packed form of a start in 0..32767 and an end in 0..65535. */
  function Pack(start: int, end: int): (pos: int32)
    requires 0 <= start < 0x8000 && 0 <= end < 0x1_0000
    ensures pos >= 0
  {
    (start * Span + end) as int32
  }

  /** Unpacking gives back what was packed. */
  lemma UnpackPack(start: int, end: int)
    requires 0 <= start < 0x8000 && 0 <= end < 0x1_0000
    ensures StartOf(Pack(start, end)) as int == start
    ensures EndOf(Pack(start, end)) as int == end
  {
  }

  /** Every non-negative position is the packed form of its own start and end. */
  lemma PackUnpack(pos: int32)
    requires pos >= 0
    ensures Pack(StartOf(pos) as int, EndOf(pos) as int) == pos
  {
    Recompose(pos);
  }

  /**
   * A token of non-zero length has a non-zero packed position, so the
   * constructor's demand `pos != 0` holds for every real token.
   */
  lemma TokenSpanNonZero(start: int, end: int)
    requires 0 <= start < end < 0x1_0000 && start < 0x8000
    ensures Pack(start, end) != 0
  {
  }

  /** Nothing orders the two halves: a non-zero position may start after it ends. */
  lemma StartMayFollowEnd()
    ensures Pack(5, 3) != 0 && StartOf(Pack(5, 3)) > EndOf(Pack(5, 3))
  {
  }

  /**
   * Java's `start << 16 | end` with a start of 32768 or more sets the sign bit,
   * and `>> 16` then reads the start back as a negative number.
   */
  function PackWrapped(start: int, end: int): (pos: int32)
    requires 0 <= start < 0x1_0000 && 0 <= end < 0x1_0000
  {
    var n := start * Span + end;
    (if n < 0x8000_0000 then n else n - 0x1_0000_0000) as int32
  }

  lemma UnpackPackWrapped(start: int, end: int)
    requires 0 <= start < 0x1_0000 && 0 <= end < 0x1_0000
    ensures EndOf(PackWrapped(start, end)) as int == end
    ensures StartOf(PackWrapped(start, end)) as int == if start < 0x8000 then start else start - Span
  {
  }
}
