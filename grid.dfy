/** Row-major offset bookkeeping shared by the classifier and the reshaper:
    cell (x, y) of a grid whose rows are `width` long lives at y * width + x. */
module Grid {

  /** Offset of cell (x, y) in a row-major buffer with rows of `width` cells. */
  function Offset(x: int, y: int, width: int): int
  {
    y * width + x
  }

  /** Every cell of a width-by-height grid has an offset inside a buffer of
      width * height cells. */
  lemma OffsetInBounds(x: int, y: int, width: int, height: int)
    requires 0 <= x < width && 0 <= y < height
    ensures 0 <= Offset(x, y, width) < width * height
  {
    assert y * width <= (height - 1) * width by {
      MulMonotone(y, height - 1, width);
    }
    assert (height - 1) * width + width == width * height;
  }

  /** The offset of the last cell of a row plus one is the offset of the first
      cell of the next row, so a row-major walk visits offsets 0, 1, 2, ... */
  lemma NextRow(y: int, width: int)
    ensures Offset(width, y, width) == Offset(0, y + 1, width)
  {
  }

  /** An offset can be decoded back into the column and the row it came from. */
  lemma {:induction false} OffsetCoordinates(x: int, y: int, width: int)
    requires 0 <= x < width && 0 <= y
    ensures Offset(x, y, width) / width == y
    ensures Offset(x, y, width) % width == x
  {
    var off := Offset(x, y, width);
    var q, r := off / width, off % width;
    assert q * width + r == y * width + x;
    assert 0 <= r < width;
    if q > y {
      MulMonotone(y + 1, q, width);
      assert false;
    } else if q < y {
      MulMonotone(q + 1, y, width);
      assert false;
    }
  }

  /** Within a width-by-height grid, (x, y) and its offset determine each other:
      distinct cells have distinct offsets and every offset below width * height
      belongs to exactly one cell. */
  lemma OffsetBijection(width: int, height: int)
    requires 0 < width && 0 <= height
    ensures forall x1, y1, x2, y2 ::
      (0 <= x1 < width && 0 <= y1 && 0 <= x2 < width && 0 <= y2 &&
       Offset(x1, y1, width) == Offset(x2, y2, width)) ==> x1 == x2 && y1 == y2
    ensures forall off :: 0 <= off < width * height ==>
      0 <= off % width < width && 0 <= off / width < height &&
      Offset(off % width, off / width, width) == off
  {
    forall x1, y1, x2, y2 |
      0 <= x1 < width && 0 <= y1 && 0 <= x2 < width && 0 <= y2 &&
      Offset(x1, y1, width) == Offset(x2, y2, width)
      ensures x1 == x2 && y1 == y2
    {
      OffsetCoordinates(x1, y1, width);
      OffsetCoordinates(x2, y2, width);
    }
    forall off | 0 <= off < width * height
      ensures 0 <= off % width < width && 0 <= off / width < height
      ensures Offset(off % width, off / width, width) == off
    {
      var y := off / width;
      assert y * width + off % width == off;
      if y >= height {
        MulMonotone(height, y, width);
        assert false;
      }
    }
  }

  /** Multiplying by a non-negative factor keeps the order. */
  lemma MulMonotone(a: int, b: int, c: int)
    requires a <= b && 0 <= c
    ensures a * c <= b * c
  {
    assert (b - a) * c >= 0;
  }
}
