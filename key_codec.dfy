/** The side-column numbering of `src/utils/mod.rs`: rows are a decade
    apart and columns start at 1, so the pad at `(x, y)` is key `10y + 1 + x`. */
module KeyCodec {
  import opened Bytes
  import NoteCodec

  /** `coord_to_key(x, y)`: `(y * 10) + 1 + x` in `u8` arithmetic, which
      panics past 255. */
  function CoordToKey(x: Byte, y: Byte): (key: Byte)
    requires y * 10 + 1 + x <= 255
    ensures key >= 1
  {
    y * 10 + 1 + x
  }

  /** `key_to_coord(key)`: `(key % 10 - 1, key / 10)`; the `u8` subtraction
      panics when the key ends in the digit 0. */
  function KeyToCoord(key: Byte): (c: (Byte, Byte))
    requires key % 10 != 0
    ensures c.0 <= 8 && c.1 <= 25
  {
    (key % 10 - 1, key / 10)
  }

  /** A pad in one of the first nine columns gets its coordinates back. */
  lemma KeyRoundTrip(x: Byte, y: Byte)
    requires x <= 8 && y * 10 + 1 + x <= 255
    ensures CoordToKey(x, y) % 10 != 0
    ensures KeyToCoord(CoordToKey(x, y)) == (x, y)
  {
    var key := CoordToKey(x, y);
    assert key == 10 * y + (x + 1) && x + 1 < 10;
  }

  /** Every key not ending in 0 is the key of the coordinates it decodes to. */
  lemma CoordRoundTrip(key: Byte)
    requires key % 10 != 0
    ensures var (x, y) := KeyToCoord(key); y * 10 + 1 + x <= 255 && CoordToKey(x, y) == key
  {
  }

  /** On the nine-wide grid the two numberings differ by exactly one row:
      pad row `y` of `coord_to_note` is key row `y + 1` of `coord_to_key`. */
  lemma NumberingsDifferByOneRow(yDimen: Byte, x: Byte, y: Byte)
    requires x <= 8 && y <= 23
    ensures NoteCodec.CoordToNote(9, yDimen, x, y) == CoordToKey(x, y + 1)
  {
  }
}
