/** The NV21 layout: a full-resolution luma plane, then rows of interleaved V and U samples, one pair
    for each two-by-two block of pixels. Bytes that no sample maps to (odd dimensions) are zero. */
module Nv21 {
  import opened Bytes

  /** Samples by row and column. */
  type Samples = (nat, nat) -> byte

  function FrameSize(w: nat, h: nat): nat {
    w * h + w * h / 2
  }

  function RowOf(k: nat, w: nat): nat
    requires w > 0
  {
    k / w
  }

  function ColumnOf(k: nat, w: nat): (c: nat)
    requires w > 0
    ensures c < w
  {
    k % w
  }

  function ChromaAt(w: nat, h: nat, v: Samples, u: Samples, row: nat, column: nat): byte {
    if row >= h / 2 || column / 2 >= w / 2 then 0
    else if column % 2 == 0 then v(row, column / 2) else u(row, column / 2)
  }

  function ByteAt(w: nat, h: nat, y: Samples, v: Samples, u: Samples, k: nat): byte
    requires w > 0
  {
    var area := w * h;
    if k < area then y(RowOf(k, w), ColumnOf(k, w))
    else ChromaAt(w, h, v, u, RowOf(k - area, w), ColumnOf(k - area, w))
  }

  /** The frame that holds the given samples. */
  function Frame(w: nat, h: nat, y: Samples, v: Samples, u: Samples): (f: seq<byte>)
    ensures |f| == FrameSize(w, h)
  {
    if w == 0 then [] else
      seq(FrameSize(w, h), k requires 0 <= k < FrameSize(w, h) => ByteAt(w, h, y, v, u, k))
  }

  // ---------------------------------------------------------------- positions

  lemma AtLeastOneRow(n: int, w: nat)
    requires n >= 1
    ensures n * w >= w
  {
  }

  lemma Division(k: nat, w: nat)
    requires w > 0
    ensures k == RowOf(k, w) * w + ColumnOf(k, w)
  {
  }

  lemma RowAndColumn(w: nat, row: nat, column: nat)
    requires column < w
    ensures RowOf(row * w + column, w) == row && ColumnOf(row * w + column, w) == column
  {
    var k := row * w + column;
    var q, r := RowOf(k, w), ColumnOf(k, w);
    Division(k, w);
    hide RowOf, ColumnOf;
    assert (q - row) * w == column - r;
    if q > row {
      AtLeastOneRow(q - row, w);
    } else if q < row {
      assert (row - q) * w == r - column;
      AtLeastOneRow(row - q, w);
    }
  }

  lemma RowsGrow(a: nat, b: nat, w: nat)
    requires a <= b
    ensures a * w <= b * w
  {
  }

  lemma RowIsInside(k: nat, w: nat, rows: nat)
    requires w > 0 && k < rows * w
    ensures RowOf(k, w) < rows
  {
    Division(k, w);
    hide RowOf, ColumnOf;
    var q := RowOf(k, w);
    if q >= rows {
      RowsGrow(rows, q, w);
    }
  }

  lemma RowFits(w: nat, row: nat, rows: nat)
    requires row < rows
    ensures row * w + w <= rows * w
  {
    NextRowIs(w, row);
    RowsGrow(row + 1, rows, w);
  }

  lemma RowsBelow(j: nat, w: nat, rows: nat)
    requires w > 0 && rows * w <= j
    ensures rows <= RowOf(j, w)
  {
    Division(j, w);
    hide RowOf, ColumnOf;
    if RowOf(j, w) < rows {
      RowFits(w, RowOf(j, w), rows);
    }
  }

  lemma NextRowIs(w: nat, row: nat)
    ensures (row + 1) * w == row * w + w
  {
  }

  lemma ChromaFits(w: nat, h: nat)
    ensures h / 2 * w <= w * h / 2
  {
    assert 2 * (h / 2 * w) == h / 2 * 2 * w;
    assert (h - h / 2 * 2) * w >= 0;
  }

  predicate HasPixel(w: nat, h: nat, row: nat, column: nat) {
    row < h && column < w
  }

  predicate HasChroma(w: nat, h: nat, row: nat, column: nat) {
    HasPixel(w / 2, h / 2, row, column)
  }

  function LumaPosition(w: nat, row: nat, column: nat): nat {
    row * w + column
  }

  /** Of the V sample; the U sample is next to it. */
  function ChromaPosition(w: nat, h: nat, row: nat, column: nat): nat {
    w * h + (row * w + 2 * column)
  }

  lemma LumaIsInside(w: nat, h: nat, row: nat, column: nat)
    requires HasPixel(w, h, row, column)
    ensures LumaPosition(w, row, column) < w * h <= FrameSize(w, h)
  {
    RowFits(w, row, h);
  }

  lemma ChromaIsInside(w: nat, h: nat, row: nat, column: nat)
    requires HasChroma(w, h, row, column)
    ensures w * h <= ChromaPosition(w, h, row, column) < FrameSize(w, h) - 1
  {
    RowFits(w, row, h / 2);
    ChromaFits(w, h);
  }

  // ---------------------------------------------------------------- reading a frame

  function Luma(f: seq<byte>, w: nat, h: nat): Samples {
    (row, column) => if HasPixel(w, h, row, column) && LumaPosition(w, row, column) < |f|
                     then f[LumaPosition(w, row, column)] else 0
  }

  function ChromaV(f: seq<byte>, w: nat, h: nat): Samples {
    (row, column) => if HasChroma(w, h, row, column) && ChromaPosition(w, h, row, column) < |f|
                     then f[ChromaPosition(w, h, row, column)] else 0
  }

  function ChromaU(f: seq<byte>, w: nat, h: nat): Samples {
    (row, column) => if HasChroma(w, h, row, column) && ChromaPosition(w, h, row, column) + 1 < |f|
                     then f[ChromaPosition(w, h, row, column) + 1] else 0
  }

  /** Each sample is found where the layout puts it. */
  lemma FrameKeepsLuma(w: nat, h: nat, y: Samples, v: Samples, u: Samples, row: nat, column: nat)
    requires HasPixel(w, h, row, column)
    ensures Luma(Frame(w, h, y, v, u), w, h)(row, column) == y(row, column)
  {
    LumaIsInside(w, h, row, column);
    RowAndColumn(w, row, column);
  }

  lemma FrameKeepsChroma(w: nat, h: nat, y: Samples, v: Samples, u: Samples, row: nat, column: nat)
    requires HasChroma(w, h, row, column)
    ensures ChromaV(Frame(w, h, y, v, u), w, h)(row, column) == v(row, column)
    ensures ChromaU(Frame(w, h, y, v, u), w, h)(row, column) == u(row, column)
  {
    ChromaIsInside(w, h, row, column);
    RowAndColumn(w, row, 2 * column);
    RowAndColumn(w, row, 2 * column + 1);
  }

  /** Two sets of samples of one picture size. */
  ghost predicate Agree(w: nat, h: nat, a: Samples, b: Samples) {
    forall row: nat, column: nat :: HasPixel(w, h, row, column) ==> a(row, column) == b(row, column)
  }

  lemma ByteDependsOnSamples(w: nat, h: nat, y: Samples, v: Samples, u: Samples, y': Samples, v': Samples, u': Samples, k: nat)
    requires w > 0
    requires Agree(w, h, y, y') && Agree(w / 2, h / 2, v, v') && Agree(w / 2, h / 2, u, u')
    ensures ByteAt(w, h, y, v, u, k) == ByteAt(w, h, y', v', u', k)
  {
    hide RowOf, ColumnOf;
    if k < w * h {
      RowIsInside(k, w, h);
      assert HasPixel(w, h, RowOf(k, w), ColumnOf(k, w));
    } else {
      var row, column := RowOf(k - w * h, w), ColumnOf(k - w * h, w);
      assert row < h / 2 && column / 2 < w / 2 ==> HasPixel(w / 2, h / 2, row, column / 2);
    }
  }

  /** Two frames of one size are equal exactly when all their samples are. */
  lemma FramesAreEqualIffSamplesAre(w: nat, h: nat, y: Samples, v: Samples, u: Samples, y': Samples, v': Samples, u': Samples)
    ensures Frame(w, h, y, v, u) == Frame(w, h, y', v', u')
       <==> Agree(w, h, y, y') && Agree(w / 2, h / 2, v, v') && Agree(w / 2, h / 2, u, u')
  {
    var f, f' := Frame(w, h, y, v, u), Frame(w, h, y', v', u');
    if Agree(w, h, y, y') && Agree(w / 2, h / 2, v, v') && Agree(w / 2, h / 2, u, u') {
      forall k | 0 <= k < |f| ensures f[k] == f'[k] {
        if w > 0 {
          ByteDependsOnSamples(w, h, y, v, u, y', v', u', k);
        }
      }
    }
    if f == f' {
      forall row: nat, column: nat | HasPixel(w, h, row, column) ensures y(row, column) == y'(row, column) {
        FrameKeepsLuma(w, h, y, v, u, row, column);
        FrameKeepsLuma(w, h, y', v', u', row, column);
      }
      forall row: nat, column: nat | HasPixel(w / 2, h / 2, row, column)
        ensures v(row, column) == v'(row, column) && u(row, column) == u'(row, column)
      {
        FrameKeepsChroma(w, h, y, v, u, row, column);
        FrameKeepsChroma(w, h, y', v', u', row, column);
      }
    }
  }

  /** With even dimensions a frame is nothing but its samples. */
  lemma FrameOfItsSamples(f: seq<byte>, w: nat, h: nat)
    requires |f| == FrameSize(w, h) && w % 2 == 0 && h % 2 == 0
    ensures Frame(w, h, Luma(f, w, h), ChromaV(f, w, h), ChromaU(f, w, h)) == f
  {
    var g := Frame(w, h, Luma(f, w, h), ChromaV(f, w, h), ChromaU(f, w, h));
    forall k | 0 <= k < |f| ensures g[k] == f[k] {
      if w > 0 {
        ByteIsItsSample(f, w, h, k);
      }
    }
  }

  lemma LumaByteIsItsSample(f: seq<byte>, w: nat, h: nat, k: nat)
    requires |f| == FrameSize(w, h) && w > 0 && k < w * h
    ensures Luma(f, w, h)(RowOf(k, w), ColumnOf(k, w)) == f[k]
  {
    Division(k, w);
    RowIsInside(k, w, h);
    hide RowOf, ColumnOf;
    assert LumaPosition(w, RowOf(k, w), ColumnOf(k, w)) == k;
  }

  lemma ChromaByteIsItsSample(f: seq<byte>, w: nat, h: nat, j: nat)
    requires |f| == FrameSize(w, h) && w % 2 == 0 && w > 0 && j < h / 2 * w && w * h + j < |f|
    ensures ChromaAt(w, h, ChromaV(f, w, h), ChromaU(f, w, h), RowOf(j, w), ColumnOf(j, w)) == f[w * h + j]
  {
    var row, column := RowOf(j, w), ColumnOf(j, w);
    Division(j, w);
    RowIsInside(j, w, h / 2);
    hide RowOf, ColumnOf;
    assert column / 2 < w / 2 && column == column / 2 * 2 + column % 2;
    assert ChromaPosition(w, h, row, column / 2) + column % 2 == w * h + j;
  }

  lemma ByteIsItsSample(f: seq<byte>, w: nat, h: nat, k: nat)
    requires |f| == FrameSize(w, h) && w % 2 == 0 && h % 2 == 0 && w > 0 && k < |f|
    ensures ByteAt(w, h, Luma(f, w, h), ChromaV(f, w, h), ChromaU(f, w, h), k) == f[k]
  {
    if k < w * h {
      LumaByteIsItsSample(f, w, h, k);
    } else {
      EvenChromaIsFull(w, h);
      ChromaByteIsItsSample(f, w, h, k - w * h);
    }
  }

  lemma EvenChromaIsFull(w: nat, h: nat)
    requires h % 2 == 0
    ensures w * h / 2 == h / 2 * w
  {
    assert w * h == 2 * (h / 2 * w) by {
      assert h == 2 * (h / 2);
    }
  }
}
