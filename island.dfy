/** The island reshaper: blends an elevation grid with a square-bump distance
    mask, so that the centre of the grid rises and its border sinks, and
    records running bounds of the blended values. */
module Reshape {
  import opened Noise
  import opened Grid

  /** The square-bump distance of the centred coordinates (nx, ny): 0 at the
      centre, 1 on the border of the unit square. */
  function SquareBump(nx: real, ny: real): real
  {
    1.0 - (1.0 - nx * nx) * (1.0 - ny * ny)
  }

  /** Column or row i of n, centred and scaled: 2i/n - 1. */
  function Centred(i: int, n: int): real
    requires n != 0
  {
    2.0 * (i as real) / (n as real) - 1.0
  }

  lemma CentredInRange(i: int, n: int)
    requires 0 <= i < n
    ensures -1.0 <= Centred(i, n) < 1.0
  {
    var q := (i as real) / (n as real);
    assert q * (n as real) == i as real;
    assert 0.0 <= q;
    if q >= 1.0 {
      assert false;
    }
    assert 2.0 * (i as real) / (n as real) == 2.0 * q;
  }

  lemma SquareBumpAtCentre()
    ensures SquareBump(0.0, 0.0) == 0.0
  {
  }

  lemma SquareBumpOnBorder(nx: real, ny: real)
    requires nx == 1.0 || nx == -1.0 || ny == 1.0 || ny == -1.0
    ensures SquareBump(nx, ny) == 1.0
  {
  }

  lemma SquareBumpSymmetric(nx: real, ny: real)
    ensures SquareBump(-nx, ny) == SquareBump(nx, ny)
    ensures SquareBump(nx, -ny) == SquareBump(nx, ny)
    ensures SquareBump(ny, nx) == SquareBump(nx, ny)
  {
  }

  /** Inside the square [-1, 1] x [-1, 1] the bump, and so the island mask
      1 - d, lies in [0, 1]. */
  lemma SquareBumpInUnitRange(nx: real, ny: real)
    requires -1.0 <= nx <= 1.0 && -1.0 <= ny <= 1.0
    ensures 0.0 <= SquareBump(nx, ny) <= 1.0
    ensures 0.0 <= 1.0 - SquareBump(nx, ny) <= 1.0
  {
    var a, b := 1.0 - nx * nx, 1.0 - ny * ny;
    assert 0.0 <= nx * nx <= 1.0 by {
      if nx < 0.0 {
        assert nx * nx == (-nx) * (-nx);
        ProductInUnitRange(-nx, -nx);
      } else {
        ProductInUnitRange(nx, nx);
      }
    }
    assert 0.0 <= ny * ny <= 1.0 by {
      if ny < 0.0 {
        assert ny * ny == (-ny) * (-ny);
        ProductInUnitRange(-ny, -ny);
      } else {
        ProductInUnitRange(ny, ny);
      }
    }
    ProductInUnitRange(a, b);
  }

  /** The product of two numbers of [0, 1] is in [0, 1]. */
  lemma ProductInUnitRange(a: real, b: real)
    requires 0.0 <= a <= 1.0 && 0.0 <= b <= 1.0
    ensures 0.0 <= a * b <= 1.0
  {
    MulNonNegative(a, b);
    MulNonNegative(a, 1.0 - b);
    assert a * (1.0 - b) == a - a * b;
  }

  lemma MulNonNegative(a: real, b: real)
    requires 0.0 <= a && 0.0 <= b
    ensures 0.0 <= a * b
  {
  }

  /** The value ReshapeIsland stores for cell (x, y): the cell's own
      elevation blended towards the island mask 1 - d at the cell's own
      centred coordinates. */
  function IslandCell(elevationData: NoiseData, mix: real, lerp: (real, real, real) -> real, x: int, y: int): real
    requires 0 <= x < elevationData.width && 0 <= y < elevationData.height
    requires elevationData.width * elevationData.height <= |elevationData.data|
  {
    OffsetInBounds(x, y, elevationData.width, elevationData.height);
    var d := SquareBump(Centred(x, elevationData.width), Centred(y, elevationData.height));
    lerp(elevationData.data[Offset(x, y, elevationData.width)], 1.0 - d, mix)
  }

  /** A cell's island value depends on the grid only through the cell's own
      input sample and the grid's shape. */
  lemma IslandCellIsLocal(
    e1: NoiseData, e2: NoiseData, mix: real, lerp: (real, real, real) -> real, x: int, y: int)
    requires 0 <= x < e1.width && 0 <= y < e1.height
    requires e1.width * e1.height <= |e1.data|
    requires e2.width == e1.width && e2.height == e1.height
    requires e2.width * e2.height <= |e2.data|
    ensures 0 <= Offset(x, y, e1.width) < |e1.data| && Offset(x, y, e1.width) < |e2.data|
    ensures e1.data[Offset(x, y, e1.width)] == e2.data[Offset(x, y, e1.width)] ==>
      IslandCell(e1, mix, lerp, x, y) == IslandCell(e2, mix, lerp, x, y)
  {
    OffsetInBounds(x, y, e1.width, e1.height);
  }

  /** With a blend that returns its first argument at weight 0, mix 0 leaves
      every cell as it was. */
  lemma IslandIdentityAtZeroMix(elevationData: NoiseData, lerp: (real, real, real) -> real, x: int, y: int)
    requires 0 <= x < elevationData.width && 0 <= y < elevationData.height
    requires elevationData.width * elevationData.height <= |elevationData.data|
    requires forall a, b :: lerp(a, b, 0.0) == a
    ensures 0 <= Offset(x, y, elevationData.width) < |elevationData.data|
    ensures IslandCell(elevationData, 0.0, lerp, x, y) == elevationData.data[Offset(x, y, elevationData.width)]
  {
    OffsetInBounds(x, y, elevationData.width, elevationData.height);
  }

  /** With a blend that returns its second argument at weight 1, mix 1 replaces
      every cell by the island mask, which lies in [0, 1]. */
  lemma IslandMaskAtFullMix(elevationData: NoiseData, lerp: (real, real, real) -> real, x: int, y: int)
    requires 0 <= x < elevationData.width && 0 <= y < elevationData.height
    requires elevationData.width * elevationData.height <= |elevationData.data|
    requires forall a, b :: lerp(a, b, 1.0) == b
    ensures IslandCell(elevationData, 1.0, lerp, x, y) ==
      1.0 - SquareBump(Centred(x, elevationData.width), Centred(y, elevationData.height))
    ensures 0.0 <= IslandCell(elevationData, 1.0, lerp, x, y) <= 1.0
  {
    var nx, ny := Centred(x, elevationData.width), Centred(y, elevationData.height);
    OffsetInBounds(x, y, elevationData.width, elevationData.height);
    var e := elevationData.data[Offset(x, y, elevationData.width)];
    assert IslandCell(elevationData, 1.0, lerp, x, y) == lerp(e, 1.0 - SquareBump(nx, ny), 1.0);
    CentredInRange(x, elevationData.width);
    CentredInRange(y, elevationData.height);
    SquareBumpInUnitRange(nx, ny);
  }

  /** Every cell whose offset is below `done` holds its island value in `buf`. */
  ghost predicate IslandPrefix(buf: seq<real>, elevationData: NoiseData, mix: real, lerp: (real, real, real) -> real, done: int)
  {
    && 0 <= done <= |buf|
    && elevationData.width * elevationData.height <= |elevationData.data|
    && forall x, y ::
      0 <= x < elevationData.width && 0 <= y < elevationData.height && Offset(x, y, elevationData.width) < done ==>
        0 <= Offset(x, y, elevationData.width) &&
        buf[Offset(x, y, elevationData.width)] == IslandCell(elevationData, mix, lerp, x, y)
  }

  /** One cell of ReshapeIsland's walk: writing the island value of cell (x, y)
      at its offset, which is the first offset not yet written, extends the
      written prefix by one cell and keeps the running bounds recorded. */
  lemma BlendStep(
    buf: seq<real>, elevationData: NoiseData, mix: real, lerp: (real, real, real) -> real,
    x: int, y: int, lo: real, hi: real)
    requires 0 <= x < elevationData.width && 0 <= y < elevationData.height
    requires |buf| == elevationData.width * elevationData.height <= |elevationData.data|
    requires IslandPrefix(buf, elevationData, mix, lerp, Offset(x, y, elevationData.width))
    requires RecordsBounds(buf[..Offset(x, y, elevationData.width)], lo, hi)
    ensures 0 <= Offset(x, y, elevationData.width) < |buf|
    ensures
      var offset := Offset(x, y, elevationData.width);
      var v := IslandCell(elevationData, mix, lerp, x, y);
      && IslandPrefix(buf[offset := v], elevationData, mix, lerp, offset + 1)
      && RecordsBounds(buf[offset := v][..offset + 1], if v < lo then v else lo, if v > hi then v else hi)
  {
    var width := elevationData.width;
    var offset := Offset(x, y, width);
    OffsetInBounds(x, y, width, elevationData.height);
    var v := IslandCell(elevationData, mix, lerp, x, y);
    var buf' := buf[offset := v];
    forall x', y' |
      0 <= x' < width && 0 <= y' < elevationData.height && Offset(x', y', width) < offset + 1
      ensures 0 <= Offset(x', y', width) && buf'[Offset(x', y', width)] == IslandCell(elevationData, mix, lerp, x', y')
    {
      OffsetInBounds(x', y', width, elevationData.height);
      if Offset(x', y', width) == offset {
        OffsetCoordinates(x, y, width);
        OffsetCoordinates(x', y', width);
      }
    }
    RecordsBoundsStep(buf[..offset], v, lo, hi);
    assert buf'[..offset + 1] == buf[..offset] + [v];
  }

  /** The bounds ReshapeIsland records for `data`: the running maximum starts at
      0 and the running minimum at 1, so `hi` is the larger of 0 and the largest
      value and `lo` the smaller of 1 and the smallest value. */
  predicate RecordsBounds(data: seq<real>, lo: real, hi: real)
  {
    && lo <= 1.0 && 0.0 <= hi
    && (forall k :: 0 <= k < |data| ==> lo <= data[k] <= hi)
    && (lo == 1.0 || lo in data)
    && (hi == 0.0 || hi in data)
  }

  /** One step of the running bounds: appending a value and updating each bound
      when the value passes it keeps the bounds recorded. */
  lemma RecordsBoundsStep(data: seq<real>, v: real, lo: real, hi: real)
    requires RecordsBounds(data, lo, hi)
    ensures RecordsBounds(data + [v], if v < lo then v else lo, if v > hi then v else hi)
  {
    var lo', hi' := if v < lo then v else lo, if v > hi then v else hi;
    assert (data + [v])[|data|] == v;
    forall k | 0 <= k < |data|
      ensures (data + [v])[k] == data[k]
    {
    }
    if lo' != 1.0 {
      if v < lo {
        assert lo' == (data + [v])[|data|];
      } else {
        var k :| 0 <= k < |data| && data[k] == lo;
        assert lo' == (data + [v])[k];
      }
    }
    if hi' != 0.0 {
      if v > hi {
        assert hi' == (data + [v])[|data|];
      } else {
        var k :| 0 <= k < |data| && data[k] == hi;
        assert hi' == (data + [v])[k];
      }
    }
  }

  /** The recorded bounds are determined by the data. */
  lemma RecordedBoundsUnique(data: seq<real>, lo1: real, hi1: real, lo2: real, hi2: real)
    requires RecordsBounds(data, lo1, hi1) && RecordsBounds(data, lo2, hi2)
    ensures lo1 == lo2 && hi1 == hi2
  {
  }

  /** For an empty grid the recorded bounds are the initial ones, minimum 1 and
      maximum 0. */
  lemma RecordedBoundsOfEmpty(lo: real, hi: real)
    requires RecordsBounds([], lo, hi)
    ensures lo == 1.0 && hi == 0.0
  {
  }

  /** When every value lies in [0, 1], the recorded bounds are exactly the
      smallest and the largest value. */
  lemma RecordedBoundsAreExtremesInUnitRange(data: seq<real>, lo: real, hi: real)
    requires RecordsBounds(data, lo, hi) && 0 < |data|
    requires forall k :: 0 <= k < |data| ==> 0.0 <= data[k] <= 1.0
    ensures lo in data && hi in data
    ensures forall k :: 0 <= k < |data| ==> lo <= data[k] <= hi
  {
    if lo == 1.0 {
      assert data[0] == 1.0;
    }
    if hi == 0.0 {
      assert data[0] == 0.0;
    }
  }

  /** The largest value of a non-empty sequence. */
  function SeqMax(data: seq<real>): (m: real)
    requires 0 < |data|
    ensures m in data
    ensures forall k :: 0 <= k < |data| ==> data[k] <= m
  {
    if |data| == 1 then
      data[0]
    else
      var rest := SeqMax(data[1..]);
      if data[0] > rest then data[0] else rest
  }

  /** The smallest value of a non-empty sequence. */
  function SeqMin(data: seq<real>): (m: real)
    requires 0 < |data|
    ensures m in data
    ensures forall k :: 0 <= k < |data| ==> m <= data[k]
  {
    if |data| == 1 then
      data[0]
    else
      var rest := SeqMin(data[1..]);
      if data[0] < rest then data[0] else rest
  }

  /** On a non-empty grid the recorded maximum is the larger of 0 and the
      largest value, and the recorded minimum the smaller of 1 and the
      smallest value. */
  lemma RecordedBoundsAreClampedExtremes(data: seq<real>, lo: real, hi: real)
    requires 0 < |data|
    ensures RecordsBounds(data, lo, hi) <==>
      hi == (if SeqMax(data) > 0.0 then SeqMax(data) else 0.0) &&
      lo == (if SeqMin(data) < 1.0 then SeqMin(data) else 1.0)
  {
    var top, bottom := SeqMax(data), SeqMin(data);
    if RecordsBounds(data, lo, hi) {
      if hi != 0.0 {
        var k :| 0 <= k < |data| && data[k] == hi;
        var t :| 0 <= t < |data| && data[t] == top;
      }
      if lo != 1.0 {
        var k :| 0 <= k < |data| && data[k] == lo;
        var t :| 0 <= t < |data| && data[t] == bottom;
      }
    }
  }

  /** A grid whose values are all above 1 records a minimum of 1, which is no
      value of the grid. */
  lemma RecordedMinimumNotAValue(data: seq<real>, lo: real, hi: real)
    requires RecordsBounds(data, lo, hi)
    requires forall k :: 0 <= k < |data| ==> 1.0 < data[k]
    ensures lo == 1.0 && lo !in data
  {
  }

  /** ReshapeIsland: a fresh grid of the same shape whose cell at every offset
      is the island blend of the input cell at that offset, with the running
      bounds recorded; the input is only read. */
  method ReshapeIsland(elevationData: NoiseData, mix: real, lerp: (real, real, real) -> real)
    returns (result: NoiseData)
    requires 0 <= elevationData.width && 0 <= elevationData.height
    requires elevationData.width * elevationData.height <= |elevationData.data|
    ensures result.width == elevationData.width && result.height == elevationData.height
    ensures |result.data| == result.width * result.height
    ensures forall x, y :: 0 <= x < result.width && 0 <= y < result.height ==>
      0 <= Offset(x, y, result.width) < |result.data| &&
      result.data[Offset(x, y, result.width)] == IslandCell(elevationData, mix, lerp, x, y)
    ensures RecordsBounds(result.data, result.minValue, result.maxValue)
  {
    var width, height := elevationData.width, elevationData.height;
    var data := new real[width * height];

    var max := 0.0;
    var min := 1.0;

    var y := 0;
    while y < height
      invariant 0 <= y <= height
      invariant Offset(0, y, width) <= width * height
      invariant IslandPrefix(data[..], elevationData, mix, lerp, Offset(0, y, width))
      invariant RecordsBounds(data[..Offset(0, y, width)], min, max)
    {
      min, max := ReshapeRow(elevationData, mix, lerp, data, y, min, max);
      y := y + 1;
    }
    assert Offset(0, height, width) == width * height;
    assert data[..width * height] == data[..];
    forall x, y | 0 <= x < width && 0 <= y < height
      ensures 0 <= Offset(x, y, width) < data.Length
      ensures data[Offset(x, y, width)] == IslandCell(elevationData, mix, lerp, x, y)
    {
      OffsetInBounds(x, y, width, height);
    }
    result := NoiseData(data[..], width, height, min, max);
  }

  /** The inner loop of ReshapeIsland: writes the island blend of every cell of
      row y, left to right, and carries the running bounds along. Only the
      cells of row y change. */
  method ReshapeRow(
    elevationData: NoiseData, mix: real, lerp: (real, real, real) -> real,
    data: array<real>, y: int, min0: real, max0: real)
    returns (min: real, max: real)
    requires 0 <= elevationData.width && 0 <= y < elevationData.height
    requires data.Length == elevationData.width * elevationData.height <= |elevationData.data|
    requires IslandPrefix(data[..], elevationData, mix, lerp, Offset(0, y, elevationData.width))
    requires RecordsBounds(data[..Offset(0, y, elevationData.width)], min0, max0)
    modifies data
    ensures Offset(0, y + 1, elevationData.width) <= data.Length
    ensures IslandPrefix(data[..], elevationData, mix, lerp, Offset(0, y + 1, elevationData.width))
    ensures RecordsBounds(data[..Offset(0, y + 1, elevationData.width)], min, max)
  {
    var width, height := elevationData.width, elevationData.height;
    min, max := min0, max0;
    var x := 0;
    while x < width
      invariant 0 <= x <= width
      invariant Offset(x, y, width) <= width * height
      invariant IslandPrefix(data[..], elevationData, mix, lerp, Offset(x, y, width))
      invariant RecordsBounds(data[..Offset(x, y, width)], min, max)
    {
      var offset := y * width + x;
      OffsetInBounds(x, y, width, height);
      var elevation := elevationData.data[offset];
      var nx := Centred(x, width);
      var ny := Centred(y, height);
      var d := SquareBump(nx, ny);
      BlendStep(data[..], elevationData, mix, lerp, x, y, min, max);
      ghost var before := data[..];
      data[offset] := lerp(elevation, 1.0 - d, mix);
      assert data[offset] == IslandCell(elevationData, mix, lerp, x, y);
      assert data[..] == before[offset := data[offset]];

      if data[offset] > max {
        max := data[offset];
      }

      if data[offset] < min {
        min := data[offset];
      }
      x := x + 1;
    }
    NextRow(y, width);
    MulMonotone(y + 1, height, width);
  }
}
