/** From a camera image to what the engine sees. */
module CameraFrames {
  import opened Nv21
  import opened ImagePacking
  import opened FrameScaling
  import opened Wrappers
  import opened Bytes

  lemma UnscaledSourceIsItself(k: nat, n: nat)
    requires n > 0
    ensures Source(k, n, n) == k
  {
    QuotientBelow(k * n, n, k);
    QuotientBelow(k * n, n, k + 1);
    hide Quotient;
    assert (k + 1) * n == k * n + n;
  }

  lemma UnscaledIsTheSame(s: Samples, size: Size, w: nat, h: nat)
    requires size.w > 0 && size.h > 0
    ensures Agree(w, h, s, Scaled(s, size, size))
  {
    forall row: nat, column: nat | HasPixel(w, h, row, column)
      ensures s(row, column) == Scaled(s, size, size)(row, column)
    {
      UnscaledSourceIsItself(row, size.h);
      UnscaledSourceIsItself(column, size.w);
    }
  }

  /** The frame of an image's samples, read through the scale from the image to `size`. */
  function ScaledPicture(img: Image, size: Size): seq<byte>
    requires HasDimensions(img)
  {
    var whole := Size(img.width, img.height);
    Frame(size.w, size.h, Scaled(Sampled(img.y), whole, size),
          Scaled(Sampled(img.v), whole, size), Scaled(Sampled(img.u), whole, size))
  }

  lemma WholePictureIsScaledByOne(img: Image)
    requires HasDimensions(img)
    ensures PictureOf(img) == ScaledPicture(img, Size(img.width, img.height))
  {
    var size := Size(img.width, img.height);
    var y, v, u := Sampled(img.y), Sampled(img.v), Sampled(img.u);
    UnscaledIsTheSame(y, size, size.w, size.h);
    UnscaledIsTheSame(v, size, size.w / 2, size.h / 2);
    UnscaledIsTheSame(u, size, size.w / 2, size.h / 2);
    hide Frame, Sampled, Scaled, Agree;
    FramesAreEqualIffSamplesAre(size.w, size.h, y, v, u, Scaled(y, size, size), Scaled(v, size, size), Scaled(u, size, size));
  }

  /** Packing, fitting and downscaling in one: each byte handed to the engine is the sample of the
      image at the scaled position. */
  method FrameForEngine(img: Image, camera: Option<Size>) returns (ok: bool, copy: seq<byte>, processing: Size)
    requires WellFormed(img)
    ensures ok <==> Packs(img)
    ensures ok ==> processing == Fitted(Size(img.width, img.height), Optimal(camera))
    ensures ok ==> copy == ScaledPicture(img.(y := Tight(img.y)), processing)
  {
    hide Frame, Downscaled, FrameSize;
    var frame, w, h;
    ok, frame, w, h := PackAImageToNv21(img);
    if !ok {
      copy, processing := [], Size(0, 0);
      return;
    }
    ghost var tight := img.(y := Tight(img.y));
    copy, processing := PrepareFrame(frame[..], Size(w, h), camera);
    DownscalingAFrame(Size(w, h), processing, Sampled(tight.y), Sampled(tight.v), Sampled(tight.u));
    WholePictureIsScaledByOne(tight);
  }
}
