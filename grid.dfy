/** The world grid: the materials a cell can hold and the row-major
    addressing of a `width * height` world stored as one flat array. */
module Grid {

  /** The materials of this revision. Water, and the bit-field packing of the
      cell record, are not modelled: a cell is just its material. */
  datatype CellType = None | Sand

  /** Whether (x, y) lies inside a `w` by `h` world. */
  predicate InBounds(w: int, h: int, x: int, y: int)
  {
    0 <= x < w && 0 <= y < h
  }

  /** The flat position of cell (x, y): rows are stored one after another. */
  function Index(w: nat, h: nat, x: int, y: int): (i: nat)
    requires InBounds(w, h, x, y)
    ensures i < w * h
    ensures y * w <= i < (y + 1) * w
  {
    RowEndBound(w, h, y);
    y * w + x
  }

  /** Row `y` ends no later than the end of the world. */
  lemma RowEndBound(w: nat, h: nat, y: int)
    requires 0 <= y < h
    ensures (y + 1) * w <= h * w
  {
    MulMonotone(y + 1, h, w);
  }

  /** Multiplying by a width keeps the order of row numbers. */
  lemma {:induction false} MulMonotone(a: nat, b: nat, w: nat)
    requires a <= b
    ensures a * w <= b * w
    decreases b - a
  {
    if a < b {
      MulMonotone(a, b - 1, w);
      assert b * w == (b - 1) * w + w;
    }
  }

  /** Distinct in-bounds coordinates have distinct flat positions, and the
      same coordinates the same position. */
  lemma {:induction false} IndexInjective(w: nat, h: nat, x1: int, y1: int, x2: int, y2: int)
    requires InBounds(w, h, x1, y1) && InBounds(w, h, x2, y2)
    ensures Index(w, h, x1, y1) == Index(w, h, x2, y2) <==> x1 == x2 && y1 == y2
  {
    if y1 < y2 {
      MulMonotone(y1 + 1, y2, w);
    } else if y2 < y1 {
      MulMonotone(y2 + 1, y1, w);
    }
  }
}
