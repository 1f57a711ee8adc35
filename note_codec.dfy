/** The pad numbering used by the Game of Life front end in `src/main.rs`:
    the pad at column `x`, row `y` of a grid `xDimen` wide is note
    `11 + x + y + y * xDimen`, every row starting one note further on than a
    plain `xDimen`-wide numbering would. */
module NoteCodec {
  import opened Bytes

  /** Note of the pad at column 0, row 0 (`0x0b`). */
  const FirstNote: Byte := 0x0b

  /** `coord_to_note(x_dimen, y_dimen, x, y)`. Every step is a `u8` addition or
      multiplication, which panics past 255; the largest intermediate value is
      the result, so the precondition is that it fits. `y_dimen` is unused. */
  function CoordToNote(xDimen: Byte, yDimen: Byte, x: Byte, y: Byte): (note: Byte)
    requires FirstNote + x + y + y * xDimen <= 255
    ensures note >= FirstNote
  {
    FirstNote + x + y + y * xDimen
  }

  /** Column and row of a note: the remainder and quotient of `note - 11` by
      the row stride `x_dimen + 1`, where `x_dimen` is first cast to `u8`
      (truncated modulo 256) as `note_to_coord` does. */
  function CoordOfNote(note: Byte, xDimen: nat): (c: (Byte, Byte))
    requires note >= FirstNote
    ensures c.0 <= xDimen % 256
  {
    var stride := xDimen % 256 + 1;
    var offset := note - FirstNote;
    DivBelow(offset, stride);
    (offset % stride, offset / stride)
  }

  /** A quotient is no larger than what is divided. */
  lemma DivBelow(n: nat, d: nat)
    requires d >= 1
    ensures n / d <= n
  {
    var q := n / d;
    assert n == q * d + n % d;
    MulAtLeast(q, d);
  }

  /** Multiplying by a positive number does not make a natural number smaller. */
  lemma MulAtLeast(a: nat, d: nat)
    requires d >= 1
    ensures a * d >= a
  {
    assert a * d == a * (d - 1) + a;
  }

  /** A nonzero multiple of `d` is at least `d` away from zero. */
  lemma MulAway(a: int, d: int)
    requires d >= 1
    ensures a >= 1 ==> a * d >= d
    ensures a <= -1 ==> a * d <= -d
  {
    if a >= 1 {
      MulAtLeast(a - 1, d);
      assert a * d == (a - 1) * d + d;
    } else if a <= -1 {
      MulAtLeast(-a - 1, d);
      assert a * d == -((-a - 1) * d) - d;
    }
  }

  /** Quotient and remainder are the only pair that rebuilds `n` with a
      remainder below the divisor. */
  lemma DivModUnique(n: int, d: int, q: int, r: int)
    requires d >= 1 && 0 <= r < d && n == q * d + r
    ensures q == n / d && r == n % d
  {
    var q', r' := n / d, n % d;
    assert n == q' * d + r';
    assert (q - q') * d == r' - r;
    MulAway(q - q', d);
  }

  /** `note_to_coord(note, x_dimen, y_dimen)`: subtract the first note, then
      step back one row stride while more than `x_dimen` remains, counting the
      rows. `note - 0x0b` is a `u8` subtraction, so notes below 11 panic. */
  method NoteToCoord(note: Byte, xDimen: nat, yDimen: nat) returns (x: Byte, y: Byte)
    requires note >= FirstNote
    ensures (x, y) == CoordOfNote(note, xDimen)
  {
    var dimen: Byte := xDimen % 256;
    var baseNote: Byte := note - FirstNote;
    var cols: Byte := 0;
    while baseNote > dimen
      invariant note - FirstNote == baseNote + cols * (dimen + 1)
      decreases baseNote
    {
      assert cols + 1 <= (cols + 1) * (dimen + 1) <= note - FirstNote;
      baseNote := baseNote - dimen;
      baseNote := baseNote - 1;
      cols := cols + 1;
    }
    DivModUnique(note - FirstNote, dimen + 1, cols, baseNote);
    x, y := baseNote, cols;
  }

  /** Decoding the note of a pad gives the pad back, for every column up to
      `x_dimen` (the stride is `x_dimen + 1`). */
  lemma NoteRoundTrip(xDimen: Byte, yDimen: Byte, x: Byte, y: Byte)
    requires x <= xDimen && FirstNote + x + y + y * xDimen <= 255
    ensures CoordOfNote(CoordToNote(xDimen, yDimen, x, y), xDimen) == (x, y)
  {
    var note := CoordToNote(xDimen, yDimen, x, y);
    assert note - FirstNote == y * (xDimen + 1) + x;
    DivModUnique(note - FirstNote, xDimen + 1, y, x);
  }

  /** Every note from 11 on is the note of the pad it decodes to. */
  lemma CoordRoundTrip(note: Byte, xDimen: Byte, yDimen: Byte)
    requires note >= FirstNote
    ensures var (x, y) := CoordOfNote(note, xDimen);
      && x <= xDimen
      && FirstNote + x + y + y * xDimen <= 255
      && CoordToNote(xDimen, yDimen, x, y) == note
  {
    var (x, y) := CoordOfNote(note, xDimen);
    var offset := note - FirstNote;
    assert offset == offset / (xDimen + 1) * (xDimen + 1) + offset % (xDimen + 1);
    assert x + y + y * xDimen == offset;
  }
}
