/** Packing a camera image with arbitrary plane strides into an NV21 frame. */
module ImagePacking {
  import opened Bytes
  import opened Nv21
  import opened Wrappers

  /** One plane of a YUV_420_888 image: its memory, `None` for a plane the driver does not give, and
      the distances between rows and between samples of a row. */
  datatype Plane = Plane(data: Option<seq<byte>>, rowStride: int, pixelStride: int)

  datatype Image = Image(width: int, height: int, planeCount: int, y: Plane, u: Plane, v: Plane)

  function Offset(p: Plane, row: nat, column: nat): int {
    row * p.rowStride + column * p.pixelStride
  }

  /** What the image interface promises: every sample of a plane lies in its memory. */
  ghost predicate Readable(p: Plane, rows: nat, columns: nat) {
    p.data.Some? ==>
      forall row: nat, column: nat :: HasPixel(columns, rows, row, column) ==> 0 <= Offset(p, row, column) < |p.data.value|
  }

  /** The samples of a plane. */
  function Sampled(p: Plane): Samples {
    (row, column) => if p.data.Some? && 0 <= Offset(p, row, column) < |p.data.value|
                     then p.data.value[Offset(p, row, column)] else 0
  }

  /** A plane read as if its samples were adjacent in each row. */
  function Tight(p: Plane): Plane {
    p.(pixelStride := 1)
  }

  /** Byte `k` of the luma plane, with the pixel stride ignored. */
  function LumaAt(y: Plane, w: nat, k: nat): byte
    requires w > 0
  {
    Sampled(Tight(y))(RowOf(k, w), ColumnOf(k, w))
  }

  predicate HasDimensions(img: Image) {
    img.width > 0 && img.height > 0 && img.planeCount >= 2
  }

  ghost predicate WellFormed(img: Image) {
    HasDimensions(img) ==>
      && Readable(Tight(img.y), img.height, img.width)
      && Readable(img.u, img.height / 2, img.width / 2)
      && Readable(img.v, img.height / 2, img.width / 2)
  }

  predicate Packs(img: Image) {
    HasDimensions(img) && img.y.data.Some? && img.u.data.Some? && img.v.data.Some?
  }

  /** The frame made of an image's own samples. */
  function PictureOf(img: Image): seq<byte>
    requires HasDimensions(img)
  {
    Frame(img.width, img.height, Sampled(img.y), Sampled(img.v), Sampled(img.u))
  }

  /** `memcpy` between distinct buffers. */
  method MemCpy(out: array<byte>, at: nat, src: seq<byte>, from: nat, n: nat)
    requires at + n <= out.Length && from + n <= |src|
    modifies out
    ensures forall k :: at <= k < at + n ==> out[k] == src[from + (k - at)]
    ensures forall k :: 0 <= k < out.Length && !(at <= k < at + n) ==> out[k] == old(out[k])
  {
    forall k | at <= k < at + n {
      out[k] := src[from + (k - at)];
    }
  }

  /** The row loop, or one copy of the whole plane when rows follow each other without a gap. */
  method PackLuma(y: Plane, w: nat, h: nat, out: array<byte>)
    requires w > 0 && h > 0 && y.data.Some? && Readable(Tight(y), h, w)
    requires w * h <= out.Length
    modifies out
    ensures forall k :: 0 <= k < w * h ==> out[k] == LumaAt(y, w, k)
    ensures forall k :: w * h <= k < out.Length ==> out[k] == old(out[k])
  {
    hide LumaAt, Readable;
    var data, area := y.data.value, w * h;
    if y.pixelStride == 1 && y.rowStride == w {
      WholePlaneIsReadable(y, w, h);
      MemCpy(out, 0, data, 0, area);
    } else {
      for row := 0 to h
        invariant forall k :: 0 <= k < row * w ==> out[k] == LumaAt(y, w, k)
        invariant forall k :: row * w <= k < out.Length ==> out[k] == old(out[k])
      {
        RowFits(w, row, h);
        RowIsReadable(y, w, h, row);
        NextRowIs(w, row);
        var to, from := row * w, row * y.rowStride;
        MemCpy(out, to, data, from, w);
      }
    }
  }

  lemma WholePlaneIsReadable(y: Plane, w: nat, h: nat)
    requires w > 0 && h > 0 && y.data.Some? && Readable(Tight(y), h, w)
    requires y.pixelStride == 1 && y.rowStride == w
    ensures w * h <= |y.data.value|
    ensures forall k :: 0 <= k < w * h ==> LumaAt(y, w, k) == y.data.value[k]
  {
    assert HasPixel(w, h, h - 1, w - 1);
    assert Offset(Tight(y), h - 1, w - 1) == w * h - 1 by {
      NextRowIs(w, h - 1);
    }
    forall k | 0 <= k < w * h ensures LumaAt(y, w, k) == y.data.value[k] {
      Division(k, w);
      assert Offset(Tight(y), RowOf(k, w), ColumnOf(k, w)) == k;
    }
  }

  lemma RowIsReadable(y: Plane, w: nat, h: nat, row: nat)
    requires w > 0 && row < h && y.data.Some? && Readable(Tight(y), h, w)
    ensures 0 <= row * y.rowStride && row * y.rowStride + w <= |y.data.value|
    ensures forall k :: row * w <= k < row * w + w ==>
      LumaAt(y, w, k) == y.data.value[row * y.rowStride + (k - row * w)]
  {
    assert HasPixel(w, h, row, 0) && Offset(Tight(y), row, 0) == row * y.rowStride;
    assert HasPixel(w, h, row, w - 1) && Offset(Tight(y), row, w - 1) == row * y.rowStride + w - 1;
    forall k | row * w <= k < row * w + w
      ensures LumaAt(y, w, k) == y.data.value[row * y.rowStride + (k - row * w)]
    {
      RowAndColumn(w, row, k - row * w);
      assert Offset(Tight(y), row, k - row * w) == row * y.rowStride + (k - row * w);
    }
  }

  /** Byte `j` of the interleaved chroma plane. */
  function PairsAt(u: Plane, v: Plane, w: nat, h: nat, j: nat): byte
    requires w > 0
  {
    ChromaAt(w, h, Sampled(v), Sampled(u), RowOf(j, w), ColumnOf(j, w))
  }

  lemma PairFits(w: nat, h: nat, row: nat, x: nat)
    requires HasPixel(w / 2, h / 2, row, x)
    ensures row * w + 2 * x + 1 < row * w + w <= w * h / 2
  {
    RowFits(w, row, h / 2);
    ChromaFits(w, h);
  }

  lemma PairsAreSamples(u: Plane, v: Plane, w: nat, h: nat, row: nat, x: nat)
    requires HasPixel(w / 2, h / 2, row, x)
    ensures PairsAt(u, v, w, h, row * w + 2 * x) == Sampled(v)(row, x)
    ensures PairsAt(u, v, w, h, row * w + 2 * x + 1) == Sampled(u)(row, x)
  {
    RowAndColumn(w, row, 2 * x);
    RowAndColumn(w, row, 2 * x + 1);
    hide RowOf, ColumnOf, Sampled;
  }

  lemma SampleIsRead(p: Plane, rows: nat, columns: nat, row: nat, column: nat)
    requires p.data.Some? && Readable(p, rows, columns) && HasPixel(columns, rows, row, column)
    ensures 0 <= Offset(p, row, column) < |p.data.value|
    ensures Sampled(p)(row, column) == p.data.value[Offset(p, row, column)]
  {
    hide Offset;
  }

  lemma PairIsReadable(u: Plane, v: Plane, w: nat, h: nat, row: nat, x: nat)
    requires w > 0 && u.data.Some? && v.data.Some? && HasPixel(w / 2, h / 2, row, x)
    requires Readable(u, h / 2, w / 2) && Readable(v, h / 2, w / 2)
    ensures row * w + 2 * x + 1 < row * w + w <= w * h / 2
    ensures 0 <= Offset(v, row, x) < |v.data.value|
    ensures PairsAt(u, v, w, h, row * w + 2 * x) == v.data.value[Offset(v, row, x)]
    ensures 0 <= Offset(u, row, x) < |u.data.value|
    ensures PairsAt(u, v, w, h, row * w + 2 * x + 1) == u.data.value[Offset(u, row, x)]
  {
    hide PairsAt, Offset, Sampled, Readable;
    PairFits(w, h, row, x);
    PairsAreSamples(u, v, w, h, row, x);
    SampleIsRead(u, h / 2, w / 2, row, x);
    SampleIsRead(v, h / 2, w / 2, row, x);
  }

  lemma OddColumnIsZero(u: Plane, v: Plane, w: nat, h: nat, row: nat)
    requires w % 2 == 1
    ensures PairsAt(u, v, w, h, row * w + w - 1) == 0
  {
    RowAndColumn(w, row, w - 1);
    assert row * w + w - 1 == row * w + (w - 1);
  }

  lemma RestIsZero(u: Plane, v: Plane, w: nat, h: nat, j: nat)
    requires w > 0 && h / 2 * w <= j
    ensures PairsAt(u, v, w, h, j) == 0
  {
    RowsBelow(j, w, h / 2);
  }

  /** The chroma plane up to `pos`, and zeros after it. */
  ghost predicate ChromaUpTo(out: array<byte>, area: nat, u: Plane, v: Plane, w: nat, h: nat, pos: nat)
    requires w > 0
    reads out
  {
    forall k :: area <= k < out.Length ==>
      out[k] == if k - area < pos then PairsAt(u, v, w, h, k - area) else 0
  }

  /** The chroma loops, over a buffer that is zero where they do not write. */
  method PackChroma(u: Plane, v: Plane, w: nat, h: nat, out: array<byte>)
    requires w > 0 && u.data.Some? && v.data.Some? && out.Length == FrameSize(w, h)
    requires Readable(u, h / 2, w / 2) && Readable(v, h / 2, w / 2)
    requires forall k :: w * h <= k < out.Length ==> out[k] == 0
    modifies out
    ensures forall k :: 0 <= k < w * h ==> out[k] == old(out[k])
    ensures forall k :: w * h <= k < out.Length ==> out[k] == PairsAt(u, v, w, h, k - w * h)
  {
    hide PairsAt, Readable;
    var area := w * h;
    for row := 0 to h / 2
      invariant forall k :: 0 <= k < area ==> out[k] == old(out[k])
      invariant ChromaUpTo(out, area, u, v, w, h, row * w)
    {
      PackChromaRow(u, v, w, h, out, area, row);
      NextRowIs(w, row);
    }
    forall k | area <= k < out.Length ensures out[k] == PairsAt(u, v, w, h, k - area) {
      if k - area >= h / 2 * w {
        RestIsZero(u, v, w, h, k - area);
      }
    }
  }

  /** The inner loop. */
  method PackChromaRow(u: Plane, v: Plane, w: nat, h: nat, out: array<byte>, area: nat, row: nat)
    requires w > 0 && row < h / 2 && u.data.Some? && v.data.Some? && out.Length == area + w * h / 2
    requires Readable(u, h / 2, w / 2) && Readable(v, h / 2, w / 2)
    requires ChromaUpTo(out, area, u, v, w, h, row * w)
    modifies out
    ensures forall k :: 0 <= k < area ==> out[k] == old(out[k])
    ensures ChromaUpTo(out, area, u, v, w, h, row * w + w)
  {
    hide PairsAt, Readable;
    var dst := area + row * w;
    for x := 0 to w / 2
      invariant forall k :: 0 <= k < area ==> out[k] == old(out[k])
      invariant ChromaUpTo(out, area, u, v, w, h, row * w + 2 * x)
    {
      PairIsReadable(u, v, w, h, row, x);
      out[dst + 2 * x] := v.data.value[row * v.rowStride + x * v.pixelStride];
      out[dst + 2 * x + 1] := u.data.value[row * u.rowStride + x * u.pixelStride];
    }
    if w % 2 == 1 {
      OddColumnIsZero(u, v, w, h, row);
    }
  }

  /** The luma byte at row `r` and column `x` is the one that many bytes into the row in the image's memory. */
  predicate HoldsLuma(out: seq<byte>, img: Image, r: nat, x: nat)
    requires Packs(img)
  {
    var w, y := img.width, img.y;
    && r * w + x < |out| && 0 <= r * y.rowStride + x < |y.data.value|
    && out[r * w + x] == y.data.value[r * y.rowStride + x]
  }

  /** The chroma pair at row `r` and column `x` is the V sample and the U sample there. */
  predicate HoldsChroma(out: seq<byte>, img: Image, r: nat, x: nat)
    requires Packs(img)
  {
    var w, h, u, v := img.width, img.height, img.u, img.v;
    && w * h + (r * w + 2 * x) + 1 < |out|
    && 0 <= r * v.rowStride + x * v.pixelStride < |v.data.value|
    && 0 <= r * u.rowStride + x * u.pixelStride < |u.data.value|
    && out[w * h + (r * w + 2 * x)] == v.data.value[r * v.rowStride + x * v.pixelStride]
    && out[w * h + (r * w + 2 * x) + 1] == u.data.value[r * u.rowStride + x * u.pixelStride]
  }

  /** The frame holds the luma bytes row by row and then the chroma pairs. */
  ghost predicate HoldsSamples(out: seq<byte>, img: Image)
    requires Packs(img)
  {
    && (forall r: nat, x: nat :: HasPixel(img.width, img.height, r, x) ==> HoldsLuma(out, img, r, x))
    && (forall r: nat, x: nat :: HasPixel(img.width / 2, img.height / 2, r, x) ==> HoldsChroma(out, img, r, x))
  }

  lemma LumaIsHeld(img: Image, r: nat, x: nat)
    requires WellFormed(img) && Packs(img) && HasPixel(img.width, img.height, r, x)
    ensures HoldsLuma(PictureOf(img.(y := Tight(img.y))), img, r, x)
  {
    var w, h, y := img.width, img.height, img.y;
    SampleIsRead(Tight(y), h, w, r, x);
    LumaIsInside(w, h, r, x);
    FrameKeepsLuma(w, h, Sampled(Tight(y)), Sampled(img.v), Sampled(img.u), r, x);
    hide Frame, FrameSize, Sampled;
  }

  lemma ChromaIsHeld(img: Image, r: nat, x: nat)
    requires WellFormed(img) && Packs(img) && HasPixel(img.width / 2, img.height / 2, r, x)
    ensures HoldsChroma(PictureOf(img.(y := Tight(img.y))), img, r, x)
  {
    var w, h, u, v := img.width, img.height, img.u, img.v;
    SampleIsRead(u, h / 2, w / 2, r, x);
    SampleIsRead(v, h / 2, w / 2, r, x);
    ChromaIsInside(w, h, r, x);
    FrameKeepsChroma(w, h, Sampled(Tight(img.y)), Sampled(v), Sampled(u), r, x);
    assert Offset(v, r, x) == r * v.rowStride + x * v.pixelStride;
    assert Offset(u, r, x) == r * u.rowStride + x * u.pixelStride;
    hide Frame, FrameSize, Sampled, Offset, WellFormed;
  }

  lemma PictureHoldsSamples(img: Image)
    requires WellFormed(img) && Packs(img)
    ensures HoldsSamples(PictureOf(img.(y := Tight(img.y))), img)
  {
    hide PictureOf, WellFormed, HoldsLuma, HoldsChroma;
    forall r: nat, x: nat | HasPixel(img.width, img.height, r, x)
      ensures HoldsLuma(PictureOf(img.(y := Tight(img.y))), img, r, x)
    {
      LumaIsHeld(img, r, x);
    }
    forall r: nat, x: nat | HasPixel(img.width / 2, img.height / 2, r, x)
      ensures HoldsChroma(PictureOf(img.(y := Tight(img.y))), img, r, x)
    {
      ChromaIsHeld(img, r, x);
    }
  }

  /** Succeeds exactly when the image has dimensions and all three planes, and then gives the frame of
      the image's samples with the luma plane read as tight. */
  method PackAImageToNv21(img: Image) returns (ok: bool, out: array<byte>, outW: int, outH: int)
    requires WellFormed(img)
    ensures ok <==> Packs(img)
    ensures ok ==> outW == img.width && outH == img.height
    ensures ok ==> out[..] == PictureOf(img.(y := Tight(img.y))) && HoldsSamples(out[..], img)
  {
    ok, out, outW, outH := false, new byte[0], 0, 0;
    if !HasDimensions(img) {
      return;
    }
    var w, h := img.width, img.height;
    out := new byte[FrameSize(w, h)](_ => 0);
    if img.y.data == None {
      return;
    }
    PackLuma(img.y, w, h, out);
    if img.u.data == None || img.v.data == None {
      return;
    }
    PackChroma(img.u, img.v, w, h, out);
    ok, outW, outH := true, w, h;
    ghost var picture := PictureOf(img.(y := Tight(img.y)));
    assert forall k :: 0 <= k < out.Length ==> out[k] == picture[k];
    assert out[..] == picture;
    hide HoldsSamples;
    PictureHoldsSamples(img);
  }

  /** Two images of the same size that show the same picture, whatever their strides. */
  ghost predicate SamePicture(a: Image, b: Image)
    requires HasDimensions(a) && HasDimensions(b)
  {
    && a.width == b.width && a.height == b.height
    && Agree(a.width, a.height, Sampled(a.y), Sampled(b.y))
    && Agree(a.width / 2, a.height / 2, Sampled(a.v), Sampled(b.v))
    && Agree(a.width / 2, a.height / 2, Sampled(a.u), Sampled(b.u))
  }

  /** The frame depends on the picture and on nothing else of the image, and keeps all of it. */
  lemma PackingIgnoresStrides(a: Image, b: Image)
    requires HasDimensions(a) && HasDimensions(b) && a.width == b.width && a.height == b.height
    ensures PictureOf(a) == PictureOf(b) <==> SamePicture(a, b)
  {
    FramesAreEqualIffSamplesAre(a.width, a.height, Sampled(a.y), Sampled(a.v), Sampled(a.u),
                                Sampled(b.y), Sampled(b.v), Sampled(b.u));
  }

  /** Reading the luma rows as tight gives the picture, for every content of the plane, exactly when
      luma samples are adjacent or there is only one column. */
  lemma TightLumaIsRightIff(w: nat, h: nat, rowStride: nat, pixelStride: nat)
    requires w > 0 && h > 0
    ensures (w == 1 || pixelStride == 1) <==>
      forall data: seq<byte> :: var p := Plane(Some(data), rowStride, pixelStride);
        Readable(p, h, w) && Readable(Tight(p), h, w) ==> Agree(w, h, Sampled(Tight(p)), Sampled(p))
  {
    if w == 1 || pixelStride == 1 {
      forall data: seq<byte>
        ensures var p := Plane(Some(data), rowStride, pixelStride); Agree(w, h, Sampled(Tight(p)), Sampled(p))
      {
        var p := Plane(Some(data), rowStride, pixelStride);
        forall row: nat, column: nat | HasPixel(w, h, row, column)
          ensures Sampled(Tight(p))(row, column) == Sampled(p)(row, column)
        {
          assert Offset(Tight(p), row, column) == Offset(p, row, column);
        }
      }
    } else {
      LoneByteIsMisread(w, h, rowStride, pixelStride);
    }
  }

  lemma LoneByteIsMisread(w: nat, h: nat, rowStride: nat, pixelStride: nat)
    requires w > 1 && h > 0 && pixelStride != 1
    ensures exists data: seq<byte> :: var p := Plane(Some(data), rowStride, pixelStride);
      Readable(p, h, w) && Readable(Tight(p), h, w) && !Agree(w, h, Sampled(Tight(p)), Sampled(p))
  {
    var n := h * rowStride + w * (pixelStride + 1);
    assert n >= pixelStride + 1 && n >= 2 by {
      AtLeastOneRow(w, pixelStride + 1);
      assert w * (pixelStride + 1) == w * pixelStride + w;
    }
    var data: seq<byte> := seq(n, k => if k == 1 then 1 else 0);
    var p := Plane(Some(data), rowStride, pixelStride);
    forall row: nat, column: nat | HasPixel(w, h, row, column)
      ensures 0 <= Offset(p, row, column) < n && 0 <= Offset(Tight(p), row, column) < n
    {
      RowsGrow(row, h, rowStride);
      RowsGrow(column, w, pixelStride);
      assert w * (pixelStride + 1) == w * pixelStride + w;
    }
    assert HasPixel(w, h, 0, 1);
    assert Sampled(Tight(p))(0, 1) == 1 && Sampled(p)(0, 1) == 0;
    assert Readable(p, h, w) && Readable(Tight(p), h, w) && !Agree(w, h, Sampled(Tight(p)), Sampled(p));
  }
}
