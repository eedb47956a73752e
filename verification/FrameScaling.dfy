/** Fitting a camera frame into the resolution the engine works at. Scale factors are exact
    rationals: `(int)(y * scaleY)` is the floor of `y * srcH / dstH`. */
module FrameScaling {
  import opened Bytes
  import opened Nv21
  import opened Wrappers

  const DEFAULT_WIDTH := 1280
  const DEFAULT_HEIGHT := 720

  datatype Size = Size(w: nat, h: nat)

  function Max(a: nat, b: nat): nat {
    if a >= b then a else b
  }

  function Min(a: nat, b: nat): nat {
    if a <= b then a else b
  }

  /** `n & ~1`. */
  function Even(n: nat): nat {
    n - n % 2
  }

  // ---------------------------------------------------------------- the aspect fit

  function Optimal(camera: Option<Size>): Size {
    if camera == None then Size(DEFAULT_WIDTH, DEFAULT_HEIGHT) else camera.value
  }

  predicate NeedsFit(frame: Size, optimal: Size) {
    frame.w > Max(optimal.w, optimal.h) || frame.h > Max(optimal.w, optimal.h)
  }

  /** `(int)` of a quotient that is not negative. */
  function Quotient(a: nat, d: nat): nat
    requires d > 0
  {
    a / d
  }

  /** The target along the longer and the shorter side: the longer side is brought to `maxDim`, and if
      the shorter one is then above `minDim`, that one to `minDim`. */
  function FitSides(long: nat, short: nat, maxDim: nat, minDim: nat): (nat, nat)
    requires long > 0 && short > 0
  {
    if Quotient(maxDim * short, long) > minDim then (Quotient(minDim * long, short), minDim)
    else (maxDim, Quotient(maxDim * short, long))
  }

  /** The target before it is made even. */
  function Target(frame: Size, optimal: Size): Size
    requires frame.w > 0 && frame.h > 0
  {
    var maxDim, minDim := Max(optimal.w, optimal.h), Min(optimal.w, optimal.h);
    if frame.w > frame.h then
      var (w, h) := FitSides(frame.w, frame.h, maxDim, minDim); Size(w, h)
    else
      var (h, w) := FitSides(frame.h, frame.w, maxDim, minDim); Size(w, h)
  }

  function Fitted(frame: Size, optimal: Size): Size
    requires frame.w > 0 && frame.h > 0
  {
    var target := Target(frame, optimal);
    if NeedsFit(frame, optimal) then Size(Even(target.w), Even(target.h)) else frame
  }

  /** The optimal resolution turned to the orientation of the frame. */
  function Box(frame: Size, optimal: Size): Size {
    var maxDim, minDim := Max(optimal.w, optimal.h), Min(optimal.w, optimal.h);
    if frame.w > frame.h then Size(maxDim, minDim) else Size(minDim, maxDim)
  }

  predicate Within(a: Size, b: Size) {
    a.w <= b.w && a.h <= b.h
  }

  /** `a` has exactly the proportions of `b`. */
  predicate SameAspect(a: Size, b: Size) {
    a.w * b.h == a.h * b.w
  }

  lemma QuotientBelow(a: nat, d: nat, q: nat)
    requires d > 0
    ensures q <= Quotient(a, d) <==> q * d <= a
  {
    var f := Quotient(a, d);
    assert a == f * d + a % d;
    hide Quotient;
    if q <= f {
      RowsGrow(q, f, d);
    } else {
      RowsGrow(f + 1, q, d);
    }
  }

  lemma ShortSideShrinks(long: nat, short: nat, maxDim: nat)
    requires long > maxDim && long > 0
    ensures Quotient(maxDim * short, long) <= short
  {
    QuotientBelow(maxDim * short, long, short + 1);
    RowsGrow(maxDim, long, short);
    hide Quotient;
    assert (short + 1) * long == long * short + long;
  }

  lemma LongSideShrinks(long: nat, short: nat, maxDim: nat, minDim: nat)
    requires long > 0 && short > 0 && Quotient(maxDim * short, long) > minDim
    ensures Quotient(minDim * long, short) < maxDim
  {
    var l := Quotient(minDim * long, short);
    QuotientBelow(maxDim * short, long, minDim + 1);
    QuotientBelow(minDim * long, short, l);
    hide Quotient;
    assert (minDim + 1) * long == minDim * long + long;
    if l >= maxDim {
      RowsGrow(maxDim, l, short);
    }
  }

  lemma SidesFit(long: nat, short: nat, maxDim: nat, minDim: nat)
    requires long > maxDim >= minDim && long >= short > 0
    ensures var (l, s) := FitSides(long, short, maxDim, minDim); l <= maxDim && s <= minDim && s <= short
  {
    hide Quotient;
    ShortSideShrinks(long, short, maxDim);
    if Quotient(maxDim * short, long) > minDim {
      LongSideShrinks(long, short, maxDim, minDim);
    }
  }

  lemma SidesAreLargest(long: nat, short: nat, maxDim: nat, minDim: nat, a: nat, b: nat)
    requires long > 0 && short > 0 && a <= maxDim && b <= minDim && a * short == b * long
    ensures var (l, s) := FitSides(long, short, maxDim, minDim); a <= l && b <= s
  {
    QuotientBelow(maxDim * short, long, b);
    RowsGrow(a, maxDim, short);
    QuotientBelow(minDim * long, short, a);
    RowsGrow(b, minDim, long);
  }

  /** A frame that is too large becomes even-sized, no larger than it was, and fits in the optimal
      resolution. */
  lemma FitIsInsideTheBox(frame: Size, optimal: Size)
    requires frame.w > 0 && frame.h > 0 && NeedsFit(frame, optimal)
    ensures var fit := Fitted(frame, optimal);
      fit.w % 2 == 0 && fit.h % 2 == 0 && Within(fit, Box(frame, optimal)) && Within(fit, frame)
  {
    var maxDim, minDim := Max(optimal.w, optimal.h), Min(optimal.w, optimal.h);
    hide FitSides;
    SidesFit(Max(frame.w, frame.h), Min(frame.w, frame.h), maxDim, minDim);
  }

  /** `b` is the rounding down of what stands to `a` as `short` to `long`. */
  predicate IsRounded(a: nat, b: nat, long: nat, short: nat) {
    b * long <= a * short < (b + 1) * long
  }

  /** One side of `target` is that of the optimal resolution turned to the frame's orientation, and the other one
      is in proportion. */
  predicate KeepsAspect(target: Size, frame: Size, optimal: Size) {
    var maxDim, minDim := Max(optimal.w, optimal.h), Min(optimal.w, optimal.h);
    if frame.w > frame.h then
      || (target.w == maxDim && IsRounded(target.w, target.h, frame.w, frame.h))
      || (target.h == minDim && IsRounded(target.h, target.w, frame.h, frame.w))
    else
      || (target.h == maxDim && IsRounded(target.h, target.w, frame.h, frame.w))
      || (target.w == minDim && IsRounded(target.w, target.h, frame.w, frame.h))
  }

  lemma QuotientIsRounded(a: nat, long: nat, short: nat)
    requires long > 0
    ensures IsRounded(a, Quotient(a * short, long), long, short)
  {
    var q := Quotient(a * short, long);
    QuotientBelow(a * short, long, q);
    QuotientBelow(a * short, long, q + 1);
    hide Quotient;
  }

  /** The fit does not stretch the picture. */
  lemma TargetKeepsAspect(frame: Size, optimal: Size)
    requires frame.w > 0 && frame.h > 0
    ensures KeepsAspect(Target(frame, optimal), frame, optimal)
  {
    var maxDim, minDim := Max(optimal.w, optimal.h), Min(optimal.w, optimal.h);
    var long, short := Max(frame.w, frame.h), Min(frame.w, frame.h);
    QuotientIsRounded(maxDim, long, short);
    QuotientIsRounded(minDim, short, long);
    hide Quotient, IsRounded;
  }

  /** Nothing of the frame's exact proportions that fits in the box is larger than the target. */
  lemma TargetIsLargest(frame: Size, optimal: Size, other: Size)
    requires frame.w > 0 && frame.h > 0
    requires SameAspect(other, frame) && Within(other, Box(frame, optimal))
    ensures Within(other, Target(frame, optimal))
  {
    var maxDim, minDim := Max(optimal.w, optimal.h), Min(optimal.w, optimal.h);
    if frame.w > frame.h {
      SidesAreLargest(frame.w, frame.h, maxDim, minDim, other.w, other.h);
    } else {
      SidesAreLargest(frame.h, frame.w, maxDim, minDim, other.h, other.w);
    }
  }

  /** The fit leaves nothing of the frame exactly when the camera's shorter optimal side is below two
      pixels or the frame is so narrow that its shorter side shrinks below two pixels. */
  lemma FitVanishesIff(frame: Size, optimal: Size)
    requires frame.w > 0 && frame.h > 0 && NeedsFit(frame, optimal)
    ensures var fit := Fitted(frame, optimal);
      (fit.w == 0 || fit.h == 0)
      <==> Min(optimal.w, optimal.h) < 2
           || Max(optimal.w, optimal.h) * Min(frame.w, frame.h) < 2 * Max(frame.w, frame.h)
  {
    var maxDim, minDim := Max(optimal.w, optimal.h), Min(optimal.w, optimal.h);
    var long, short := Max(frame.w, frame.h), Min(frame.w, frame.h);
    SidesVanishIff(long, short, maxDim, minDim);
  }

  /** A frame of 3000 by 2 pixels, with the default resolution, is fitted to no rows at all. */
  lemma NarrowFrameVanishes()
    ensures Fitted(Size(3000, 2), Optimal(None)) == Size(1280, 0)
  {
    assert Quotient(1280 * 2, 3000) == 0;
  }

  lemma SidesVanishIff(long: nat, short: nat, maxDim: nat, minDim: nat)
    requires long > maxDim >= minDim && long >= short > 0
    ensures var (l, s) := FitSides(long, short, maxDim, minDim);
      (l < 2 || s < 2) <==> minDim < 2 || maxDim * short < 2 * long
  {
    QuotientBelow(maxDim * short, long, 2);
    QuotientBelow(maxDim * short, long, minDim + 1);
    QuotientBelow(minDim * long, short, 2);
    hide Quotient;
    if minDim >= 2 {
      RowsGrow(2, minDim, long);
      assert 2 * short <= minDim * long;
    }
  }

  // ---------------------------------------------------------------- downscaling

  /** The source row or column of destination `k`. */
  function Source(k: nat, src: nat, dst: nat): nat
    requires dst > 0
  {
    Quotient(k * src, dst)
  }

  function ScaledAt(s: Samples, src: Size, dst: Size, row: nat, column: nat): byte {
    if dst.w > 0 && dst.h > 0 then s(Source(row, src.h, dst.h), Source(column, src.w, dst.w)) else 0
  }

  /** Samples of a source picture seen through a scale. */
  function Scaled(s: Samples, src: Size, dst: Size): Samples {
    (row, column) => ScaledAt(s, src, dst, row, column)
  }

  /** The source frame's picture at the destination's size. */
  function Downscaled(f: seq<byte>, src: Size, dst: Size): (d: seq<byte>)
    ensures |d| == FrameSize(dst.w, dst.h)
  {
    Frame(dst.w, dst.h, Scaled(Luma(f, src.w, src.h), src, dst),
          Scaled(ChromaV(f, src.w, src.h), src, dst), Scaled(ChromaU(f, src.w, src.h), src, dst))
  }

  /** Scaled by `src / dst`, position `k` falls on `r`. */
  predicate FallsOn(k: nat, src: nat, dst: nat, r: nat) {
    r * dst <= k * src < (r + 1) * dst
  }

  lemma SourceIsWhereItFalls(k: nat, src: nat, dst: nat, r: nat)
    requires dst > 0
    ensures FallsOn(k, src, dst, r) <==> r == Source(k, src, dst)
  {
    QuotientBelow(k * src, dst, r);
    QuotientBelow(k * src, dst, r + 1);
    hide Quotient;
  }

  /** Every luma byte of `d` is the byte of `f` on which its row and its column fall. */
  ghost predicate LumaIsScaled(f: seq<byte>, src: Size, d: seq<byte>, dst: Size) {
    forall y: nat, x: nat, r: nat, c: nat ::
      HasPixel(dst.w, dst.h, y, x) && FallsOn(y, src.h, dst.h, r) && FallsOn(x, src.w, dst.w, c) ==>
        && y * dst.w + x < |d| && r * src.w + c < |f|
        && d[y * dst.w + x] == f[r * src.w + c]
  }

  /** So is every chroma pair, in the chroma planes. */
  ghost predicate ChromaIsScaled(f: seq<byte>, src: Size, d: seq<byte>, dst: Size) {
    forall y: nat, x: nat, r: nat, c: nat ::
      HasPixel(dst.w / 2, dst.h / 2, y, x) && FallsOn(y, src.h, dst.h, r) && FallsOn(x, src.w, dst.w, c) ==>
        var to, from := dst.w * dst.h + (y * dst.w + 2 * x), src.w * src.h + (r * src.w + 2 * c);
        && to + 1 < |d| && from + 1 < |f|
        && d[to] == f[from] && d[to + 1] == f[from + 1]
  }

  lemma SourceIsInside(k: nat, src: nat, dst: nat)
    requires k < dst && src > 0
    ensures Source(k, src, dst) < src
  {
    QuotientBelow(k * src, dst, src);
    hide Quotient;
    AtLeastOneRow(dst - k, src);
    assert src * dst == k * src + (dst - k) * src;
  }

  lemma TwiceAndTwo(n: nat, w: nat)
    ensures (2 * n + 2) * w == 2 * (n * w) + 2 * w
  {
  }

  lemma TwiceAndOne(n: nat, w: nat)
    ensures (2 * n + 1) * w == 2 * (n * w) + w
  {
  }

  lemma Twice(n: nat, w: nat)
    ensures 2 * n * w == 2 * (n * w)
  {
  }

  /** With the products named `a`, `b` and `c`. */
  lemma HalvesCompare(a: int, b: int, c: int, src: nat, dst: nat)
    requires 2 * a + 2 * src <= c <= 2 * b + dst && dst <= src && src > 0
    ensures a < b
  {
  }

  /** Although chroma is scaled by the factor of the full picture, it stays inside the source's
      chroma plane. */
  lemma ChromaSourceIsInside(k: nat, src: nat, dst: nat)
    requires k < dst / 2 && dst <= src
    ensures Source(k, src, dst) < src / 2
  {
    var half := src / 2;
    assert k * src < half * dst by {
      RowsGrow(2 * k + 2, dst, src);
      TwiceAndTwo(k, src);
      RowsGrow(src, 2 * half + 1, dst);
      TwiceAndOne(half, dst);
      HalvesCompare(k * src, half * dst, dst * src, src, dst);
    }
    QuotientBelow(k * src, dst, half);
    hide Quotient;
  }

  /** The chroma pair of a two-by-two block of the destination comes from the two-by-two block of the
      source that contains the source of the block's first luma pixel. */
  lemma ChromaFollowsLuma(k: nat, src: nat, dst: nat)
    requires dst > 0
    ensures Source(2 * k, src, dst) / 2 == Source(k, src, dst)
  {
    Twice(k, src);
    HalfOfDouble(k * src, dst);
  }

  lemma HalfOfDouble(a: nat, d: nat)
    requires d > 0
    ensures Quotient(2 * a, d) / 2 == Quotient(a, d)
  {
    var q, r := Quotient(a, d), Quotient(2 * a, d);
    assert 2 * q <= r by {
      QuotientBelow(a, d, q);
      QuotientBelow(2 * a, d, 2 * q);
      Twice(q, d);
      hide Quotient;
    }
    assert r < 2 * q + 2 by {
      QuotientBelow(a, d, q + 1);
      QuotientBelow(2 * a, d, 2 * (q + 1));
      Twice(q + 1, d);
      hide Quotient;
    }
    hide Quotient;
  }

  lemma LumaIsRead(f: seq<byte>, w: nat, h: nat, row: nat, column: nat)
    requires |f| == FrameSize(w, h) && HasPixel(w, h, row, column)
    ensures LumaPosition(w, row, column) < |f|
    ensures Luma(f, w, h)(row, column) == f[LumaPosition(w, row, column)]
  {
    LumaIsInside(w, h, row, column);
    hide LumaPosition, FrameSize;
  }

  lemma LumaIsWritten(w: nat, h: nat, y: Samples, v: Samples, u: Samples, row: nat, column: nat)
    requires HasPixel(w, h, row, column)
    ensures LumaPosition(w, row, column) < FrameSize(w, h)
    ensures Frame(w, h, y, v, u)[LumaPosition(w, row, column)] == y(row, column)
  {
    LumaIsInside(w, h, row, column);
    FrameKeepsLuma(w, h, y, v, u, row, column);
    hide Frame, LumaPosition, FrameSize;
  }

  /** The position in the source frame of the luma byte of a destination pixel. */
  function SourcePosition(src: Size, dst: Size, row: nat, column: nat): nat
    requires HasPixel(dst.w, dst.h, row, column)
  {
    LumaPosition(src.w, Source(row, src.h, dst.h), Source(column, src.w, dst.w))
  }

  lemma LumaByteComesFrom(f: seq<byte>, src: Size, dst: Size, row: nat, column: nat)
    requires |f| == FrameSize(src.w, src.h) && Within(dst, src) && HasPixel(dst.w, dst.h, row, column)
    ensures LumaPosition(dst.w, row, column) < |Downscaled(f, src, dst)| && SourcePosition(src, dst, row, column) < |f|
    ensures Downscaled(f, src, dst)[LumaPosition(dst.w, row, column)] == f[SourcePosition(src, dst, row, column)]
  {
    SourceIsInside(row, src.h, dst.h);
    SourceIsInside(column, src.w, dst.w);
    hide Source, Frame, FrameSize, LumaPosition, Luma, ChromaV, ChromaU;
    LumaIsRead(f, src.w, src.h, Source(row, src.h, dst.h), Source(column, src.w, dst.w));
    LumaIsWritten(dst.w, dst.h, Scaled(Luma(f, src.w, src.h), src, dst),
                  Scaled(ChromaV(f, src.w, src.h), src, dst), Scaled(ChromaU(f, src.w, src.h), src, dst), row, column);
  }

  lemma ChromaIsRead(f: seq<byte>, src: Size, row: nat, column: nat)
    requires |f| == FrameSize(src.w, src.h) && HasChroma(src.w, src.h, row, column)
    ensures var from := src.w * src.h + (row * src.w + 2 * column);
      && from + 1 < |f|
      && ChromaV(f, src.w, src.h)(row, column) == f[from]
      && ChromaU(f, src.w, src.h)(row, column) == f[from + 1]
  {
    ChromaIsInside(src.w, src.h, row, column);
  }

  lemma ChromaIsWritten(w: nat, h: nat, y: Samples, v: Samples, u: Samples, row: nat, column: nat)
    requires HasChroma(w, h, row, column)
    ensures var to := w * h + (row * w + 2 * column);
      to + 1 < FrameSize(w, h) && Frame(w, h, y, v, u)[to] == v(row, column) && Frame(w, h, y, v, u)[to + 1] == u(row, column)
  {
    ChromaIsInside(w, h, row, column);
    FrameKeepsChroma(w, h, y, v, u, row, column);
    hide Frame;
  }

  lemma ChromaBytesComeFrom(f: seq<byte>, src: Size, dst: Size, row: nat, column: nat)
    requires |f| == FrameSize(src.w, src.h) && Within(dst, src) && HasChroma(dst.w, dst.h, row, column)
    ensures dst.w * dst.h + (row * dst.w + 2 * column) + 1 < |Downscaled(f, src, dst)|
    ensures var from := src.w * src.h + (Source(row, src.h, dst.h) * src.w + 2 * Source(column, src.w, dst.w));
      && from + 1 < |f|
      && Downscaled(f, src, dst)[dst.w * dst.h + (row * dst.w + 2 * column)] == f[from]
      && Downscaled(f, src, dst)[dst.w * dst.h + (row * dst.w + 2 * column) + 1] == f[from + 1]
  {
    hide Frame, Source, FrameSize, Luma, ChromaV, ChromaU;
    ChromaSourceIsInside(row, src.h, dst.h);
    ChromaSourceIsInside(column, src.w, dst.w);
    ChromaIsRead(f, src, Source(row, src.h, dst.h), Source(column, src.w, dst.w));
    ChromaIsWritten(dst.w, dst.h, Scaled(Luma(f, src.w, src.h), src, dst),
                    Scaled(ChromaV(f, src.w, src.h), src, dst), Scaled(ChromaU(f, src.w, src.h), src, dst), row, column);
  }

  lemma DownscaledIsScaled(f: seq<byte>, src: Size, dst: Size)
    requires |f| == FrameSize(src.w, src.h) && Within(dst, src)
    ensures LumaIsScaled(f, src, Downscaled(f, src, dst), dst)
    ensures ChromaIsScaled(f, src, Downscaled(f, src, dst), dst)
  {
    hide Downscaled, Source, FallsOn, FrameSize, Within;
    forall y: nat, x: nat, r: nat, c: nat
      | HasPixel(dst.w, dst.h, y, x) && FallsOn(y, src.h, dst.h, r) && FallsOn(x, src.w, dst.w, c)
      ensures y * dst.w + x < |Downscaled(f, src, dst)| && r * src.w + c < |f|
      ensures Downscaled(f, src, dst)[y * dst.w + x] == f[r * src.w + c]
    {
      SourceIsWhereItFalls(y, src.h, dst.h, r);
      SourceIsWhereItFalls(x, src.w, dst.w, c);
      LumaByteComesFrom(f, src, dst, y, x);
    }
    forall y: nat, x: nat, r: nat, c: nat
      | HasPixel(dst.w / 2, dst.h / 2, y, x) && FallsOn(y, src.h, dst.h, r) && FallsOn(x, src.w, dst.w, c)
      ensures var to, from := dst.w * dst.h + (y * dst.w + 2 * x), src.w * src.h + (r * src.w + 2 * c);
              && to + 1 < |Downscaled(f, src, dst)| && from + 1 < |f|
              && Downscaled(f, src, dst)[to] == f[from] && Downscaled(f, src, dst)[to + 1] == f[from + 1]
    {
      SourceIsWhereItFalls(y, src.h, dst.h, r);
      SourceIsWhereItFalls(x, src.w, dst.w, c);
      ChromaBytesComeFrom(f, src, dst, y, x);
    }
  }

  /** Written up to `pos`, zero from there on. */
  ghost predicate UpTo(dst: array<byte>, goal: seq<byte>, pos: nat)
    reads dst
  {
    dst.Length == |goal| && forall k :: 0 <= k < dst.Length ==> dst[k] == if k < pos then goal[k] else 0
  }

  method DownscaleLumaRow(f: seq<byte>, src: Size, size: Size, dst: array<byte>, y: nat)
    requires |f| == FrameSize(src.w, src.h) && Within(size, src) && y < size.h
    requires UpTo(dst, Downscaled(f, src, size), y * size.w)
    modifies dst
    ensures UpTo(dst, Downscaled(f, src, size), y * size.w + size.w)
  {
    hide Downscaled, Source, FrameSize;
    var fromRow, toRow := Source(y, src.h, size.h) * src.w, y * size.w;
    ghost var goal := Downscaled(f, src, size);
    for x := 0 to size.w
      invariant UpTo(dst, goal, toRow + x)
    {
      LumaByteComesFrom(f, src, size, y, x);
      var from := fromRow + Source(x, src.w, size.w);
      assert toRow + x < |goal| && from < |f| && goal[toRow + x] == f[from];
      dst[toRow + x] := f[from];
    }
  }

  method DownscaleChromaRow(f: seq<byte>, src: Size, size: Size, dst: array<byte>, y: nat)
    requires |f| == FrameSize(src.w, src.h) && Within(size, src) && y < size.h / 2
    requires UpTo(dst, Downscaled(f, src, size), size.w * size.h + y * size.w)
    modifies dst
    ensures UpTo(dst, Downscaled(f, src, size), size.w * size.h + (y * size.w + size.w))
  {
    hide Downscaled, Source, FrameSize, Within;
    var fromRow, toRow := src.w * src.h + Source(y, src.h, size.h) * src.w, size.w * size.h + y * size.w;
    ghost var goal := Downscaled(f, src, size);
    for x := 0 to size.w / 2
      invariant UpTo(dst, goal, toRow + 2 * x)
    {
      ChromaBytesComeFrom(f, src, size, y, x);
      var from := fromRow + 2 * Source(x, src.w, size.w);
      assert goal[toRow + 2 * x] == f[from] && goal[toRow + 2 * x + 1] == f[from + 1];
      dst[toRow + 2 * x] := f[from];
      dst[toRow + 2 * x + 1] := f[from + 1];
    }
    if size.w % 2 == 1 {
      OddColumnIsZero(f, src, size, y);
    }
  }

  lemma OddColumnIsZero(f: seq<byte>, src: Size, dst: Size, row: nat)
    requires dst.w % 2 == 1 && row < dst.h / 2
    ensures var k := dst.w * dst.h + (row * dst.w + dst.w - 1);
      k < |Downscaled(f, src, dst)| && Downscaled(f, src, dst)[k] == 0
  {
    RowFits(dst.w, row, dst.h / 2);
    ChromaFits(dst.w, dst.h);
    RowAndColumn(dst.w, row, dst.w - 1);
    hide RowOf, ColumnOf;
    assert row * dst.w + dst.w - 1 == row * dst.w + (dst.w - 1);
  }

  lemma RestIsZero(f: seq<byte>, src: Size, dst: Size, k: nat)
    requires dst.w * dst.h + dst.h / 2 * dst.w <= k < FrameSize(dst.w, dst.h)
    ensures Downscaled(f, src, dst)[k] == 0
  {
    RowsBelow(k - dst.w * dst.h, dst.w, dst.h / 2);
    hide RowOf, ColumnOf;
  }

  method DownscaleLuma(f: seq<byte>, src: Size, size: Size, dst: array<byte>)
    requires |f| == FrameSize(src.w, src.h) && Within(size, src)
    requires UpTo(dst, Downscaled(f, src, size), 0)
    modifies dst
    ensures UpTo(dst, Downscaled(f, src, size), size.h * size.w)
  {
    hide Downscaled, FrameSize, UpTo;
    for y := 0 to size.h
      invariant UpTo(dst, Downscaled(f, src, size), y * size.w)
    {
      DownscaleLumaRow(f, src, size, dst, y);
      NextRowIs(size.w, y);
    }
  }

  method DownscaleChroma(f: seq<byte>, src: Size, size: Size, dst: array<byte>)
    requires |f| == FrameSize(src.w, src.h) && Within(size, src)
    requires UpTo(dst, Downscaled(f, src, size), size.w * size.h)
    modifies dst
    ensures UpTo(dst, Downscaled(f, src, size), size.w * size.h + size.h / 2 * size.w)
  {
    hide Downscaled, FrameSize, UpTo;
    for y := 0 to size.h / 2
      invariant UpTo(dst, Downscaled(f, src, size), size.w * size.h + y * size.w)
    {
      DownscaleChromaRow(f, src, size, dst, y);
      NextRowIs(size.w, y);
    }
  }

  /** Reads only inside the source, takes every luma byte and every chroma pair from where it falls, and makes
      every byte of the result what the scaled picture has there. */
  method DownscaleNv21(f: seq<byte>, src: Size, size: Size) returns (dst: array<byte>)
    requires |f| == FrameSize(src.w, src.h) && Within(size, src)
    ensures LumaIsScaled(f, src, dst[..], size) && ChromaIsScaled(f, src, dst[..], size)
    ensures dst[..] == Downscaled(f, src, size)
  {
    hide Downscaled, FrameSize, LumaIsScaled, ChromaIsScaled;
    dst := new byte[FrameSize(size.w, size.h)](_ => 0);
    DownscaleLuma(f, src, size, dst);
    assert size.h * size.w == size.w * size.h;
    DownscaleChroma(f, src, size, dst);
    ghost var goal, written := Downscaled(f, src, size), size.w * size.h + size.h / 2 * size.w;
    forall k | written <= k < dst.Length ensures goal[k] == 0 {
      RestIsZero(f, src, size, k);
    }
    assert forall k :: 0 <= k < dst.Length ==> dst[k] == goal[k];
    assert dst[..] == goal;
    DownscaledIsScaled(f, src, size);
  }

  /** What a session does to a camera frame before it hands a copy to a worker: a frame with no side above the
      longer optimal side is handed on as it is; another is brought, without stretching, to even sides
      inside the optimal resolution, and sampled at them. */
  method PrepareFrame(f: seq<byte>, size: Size, camera: Option<Size>) returns (copy: seq<byte>, processing: Size)
    requires size.w > 0 && size.h > 0 && |f| == FrameSize(size.w, size.h)
    ensures processing == Fitted(size, Optimal(camera)) && Within(processing, size)
    ensures |copy| == FrameSize(processing.w, processing.h)
    ensures copy == if NeedsFit(size, Optimal(camera)) then Downscaled(f, size, processing) else f
    ensures var optimal := if camera.Some? then camera.value else Size(1280, 720);
            var longest := if optimal.w >= optimal.h then optimal.w else optimal.h;
            && processing.w <= longest && processing.h <= longest
            && (size.w <= longest && size.h <= longest ==> processing == size && copy == f)
            && (size.w > longest || size.h > longest ==>
                  && processing.w % 2 == 0 && processing.h % 2 == 0 && Within(processing, Box(size, optimal))
                  && (exists target :: KeepsAspect(target, size, optimal)
                        && processing.w in {target.w, target.w - 1} && processing.h in {target.h, target.h - 1})
                  && LumaIsScaled(f, size, copy, processing) && ChromaIsScaled(f, size, copy, processing))
  {
    hide Downscaled, FrameSize, Target, LumaIsScaled, ChromaIsScaled, KeepsAspect;
    var optimal := Optimal(camera);
    if NeedsFit(size, optimal) {
      var target := Target(size, optimal);
      processing := Size(Even(target.w), Even(target.h));
      FitIsInsideTheBox(size, optimal);
      TargetKeepsAspect(size, optimal);
      var downscaled := DownscaleNv21(f, size, processing);
      copy := downscaled[..];
    } else {
      copy, processing := f, size;
    }
  }

  lemma ScalingReadsOnlyThePicture(s: Samples, s': Samples, src: Size, dst: Size)
    requires Within(dst, src) && Agree(src.w, src.h, s, s')
    ensures Agree(dst.w, dst.h, Scaled(s, src, dst), Scaled(s', src, dst))
  {
    forall row: nat, column: nat | HasPixel(dst.w, dst.h, row, column)
      ensures Scaled(s, src, dst)(row, column) == Scaled(s', src, dst)(row, column)
    {
      SourceIsInside(row, src.h, dst.h);
      SourceIsInside(column, src.w, dst.w);
      hide Source;
      assert HasPixel(src.w, src.h, Source(row, src.h, dst.h), Source(column, src.w, dst.w));
    }
  }

  lemma ChromaScalingReadsOnlyThePicture(s: Samples, s': Samples, src: Size, dst: Size)
    requires Within(dst, src) && Agree(src.w / 2, src.h / 2, s, s')
    ensures Agree(dst.w / 2, dst.h / 2, Scaled(s, src, dst), Scaled(s', src, dst))
  {
    forall row: nat, column: nat | HasPixel(dst.w / 2, dst.h / 2, row, column)
      ensures Scaled(s, src, dst)(row, column) == Scaled(s', src, dst)(row, column)
    {
      ChromaSourceIsInside(row, src.h, dst.h);
      ChromaSourceIsInside(column, src.w, dst.w);
      hide Source;
      assert HasPixel(src.w / 2, src.h / 2, Source(row, src.h, dst.h), Source(column, src.w, dst.w));
    }
  }

  /** Packing a picture and downscaling the frame gives the frame of the scaled picture: the NV21
      layout in between leaves no trace. */
  lemma DownscalingAFrame(src: Size, dst: Size, y: Samples, v: Samples, u: Samples)
    requires Within(dst, src)
    ensures Downscaled(Frame(src.w, src.h, y, v, u), src, dst)
         == Frame(dst.w, dst.h, Scaled(y, src, dst), Scaled(v, src, dst), Scaled(u, src, dst))
  {
    var f := Frame(src.w, src.h, y, v, u);
    var y', v', u' := Luma(f, src.w, src.h), ChromaV(f, src.w, src.h), ChromaU(f, src.w, src.h);
    forall row: nat, column: nat | HasPixel(src.w, src.h, row, column) ensures y'(row, column) == y(row, column) {
      FrameKeepsLuma(src.w, src.h, y, v, u, row, column);
    }
    forall row: nat, column: nat | HasPixel(src.w / 2, src.h / 2, row, column)
      ensures v'(row, column) == v(row, column) && u'(row, column) == u(row, column)
    {
      FrameKeepsChroma(src.w, src.h, y, v, u, row, column);
    }
    ScalingReadsOnlyThePicture(y', y, src, dst);
    ChromaScalingReadsOnlyThePicture(v', v, src, dst);
    ChromaScalingReadsOnlyThePicture(u', u, src, dst);
    hide Frame, Luma, ChromaV, ChromaU, Scaled, Agree;
    FramesAreEqualIffSamplesAre(dst.w, dst.h, Scaled(y', src, dst), Scaled(v', src, dst), Scaled(u', src, dst),
                                Scaled(y, src, dst), Scaled(v, src, dst), Scaled(u, src, dst));
  }
}
