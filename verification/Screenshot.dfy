/** The capture pipeline of `capture_screen` and `capture_region`: pick the
    first screen, classify the raw buffer by its length, normalise it to
    RGBA, bound its size, drop alpha, JPEG-encode it and base64 the result.
    Everything the operating system or the `image` crate does is a
    function-typed field of `Platform`. */
module Screenshot {
  import opened Wrappers
  import opened BoundedInts
  import Pixels
  import Base64

  /** Images wider or taller than this are handed to the resampler. */
  const MAX_EDGE: nat := 2000

  /** An enumerated display; its details are opaque to the pipeline. */
  datatype Screen = Screen(displayId: nat)

  /** What one capture returns: the reported dimensions and a buffer whose
      layout is not self-describing. */
  datatype Frame = Frame(width: uint32, height: uint32, bytes: seq<byte>)

  /** `ImageBuffer`: dimensions and the byte container it owns. */
  datatype ImageBuffer = ImageBuffer(width: uint32, height: uint32, data: seq<byte>)

  /** The two `DynamicImage` variants the pipeline handles. */
  datatype DynamicImage = ImageRgba8(buf: ImageBuffer) | ImageRgb8(buf: ImageBuffer)

  /** The bytes of one pixel of the variant. */
  function Channels(img: DynamicImage): nat {
    if img.ImageRgba8? then 4 else 3
  }

  /** The container holds all `width * height` pixels. Every `ImageBuffer`
      does: `from_raw` refuses a shorter container and the image operations
      allocate exactly that many. */
  predicate HoldsPixels(img: DynamicImage) {
    img.buf.width * img.buf.height * Channels(img) <= |img.buf.data|
  }

  /** A `DynamicImage` as the `image` crate can build it. */
  type Image = img: DynamicImage | HoldsPixels(img) witness ImageRgba8(ImageBuffer(0, 0, []))

  /** The pixel-layout hypotheses the classifier tries, in priority order. */
  datatype Layout =
    | Rgba8
    | Rgb8
    | Compressed(image: Image)
    | Bgra8
    | Unrecognized

  /** Every way a capture or a region crop can stop. */
  datatype CaptureError =
    | ScreenListFailed(reason: string)  // enumerating displays failed
    | NoScreens                         // "No screens found"
    | CaptureFailed(reason: string)     // the display capture call failed
    | FromRawFailed(layout: Layout)     // "Failed to create RGBA image from {RGB |BGRA |}buffer"
    | UnsupportedFormat(length: nat, width: uint32, height: uint32)
                                        // "Unsupported image format: {length} bytes for {width}x{height} image"
    | JpegEncodeFailed                  // writing the JPEG container failed
    | Base64Invalid(cause: Base64.DecodeError)
    | ImageDecodeFailed                 // the transport bytes are not a decodable image

  /** The collaborators the pipeline calls but does not define: display
      enumeration and capture, the `image` crate's auto-detecting decoder,
      its Lanczos3 resize to fit 2000x2000, its crop and its JPEG encoder. */
  datatype Platform = Platform(
    screens: Result<seq<Screen>, string>,
    capture: Screen -> Result<Frame, string>,
    decode: seq<byte> -> Option<Image>,
    resize: Image -> Image,
    crop: (Image, uint32, uint32, uint32, uint32) -> Image,
    jpeg: ImageBuffer -> Option<seq<byte>>)

  /** The first enumerated display, or the error for an empty list. */
  function FirstScreen(screens: seq<Screen>): (r: Result<Screen, CaptureError>)
    ensures r.Failure? <==> |screens| == 0
    ensures r.Failure? ==> r.error == NoScreens
    ensures r.Success? ==> r.value == screens[0] && r.value in screens
  {
    if |screens| == 0 then Failure(NoScreens) else Success(screens[0])
  }

  /** `w * h * 4` computed in `u32`. */
  function RgbaSize(f: Frame): uint32 {
    WrapU32(f.width * f.height * 4)
  }

  /** `w * h * 3` computed in `u32`. */
  function RgbSize(f: Frame): uint32 {
    WrapU32(f.width * f.height * 3)
  }

  /** `ImageBuffer::from_raw`: adopts the container, which must hold at
      least `width * height * channels` bytes (computed without overflow). */
  function FromRaw(width: uint32, height: uint32, channels: nat, data: seq<byte>): (r: Option<ImageBuffer>)
    ensures r.Some? <==> width * height * channels <= |data|
    ensures r.Some? ==> r.value == ImageBuffer(width, height, data)
  {
    if width * height * channels <= |data| then Some(ImageBuffer(width, height, data)) else None
  }

  /** The first-match-wins classification of a raw buffer. The BGRA test
      repeats the RGBA test inside that test's `else`, so it never
      succeeds. */
  function Classify(f: Frame, decode: seq<byte> -> Option<Image>): (layout: Layout)
    ensures layout != Bgra8
    ensures layout == Rgba8 <==> |f.bytes| == RgbaSize(f)
    ensures layout == Rgb8 <==> |f.bytes| != RgbaSize(f) && |f.bytes| == RgbSize(f)
    ensures layout.Compressed? ==> Some(layout.image) == decode(f.bytes)
    ensures |f.bytes| != RgbaSize(f) && |f.bytes| != RgbSize(f) ==>
      && (layout.Compressed? <==> decode(f.bytes).Some?)
      && (decode(f.bytes).None? ==> layout == Unrecognized)
  {
    if |f.bytes| == RgbaSize(f) then Rgba8
    else if |f.bytes| == RgbSize(f) then Rgb8
    else match decode(f.bytes)
      case Some(img) => Compressed(img)
      case None => if |f.bytes| == RgbaSize(f) then Bgra8 else Unrecognized
  }

  /** `.ok_or(...)?` after `from_raw`, for the named source layout. */
  function AdoptRgba(width: uint32, height: uint32, data: seq<byte>, layout: Layout): Result<Image, CaptureError> {
    match FromRaw(width, height, 4, data)
    case Some(b) => Success(ImageRgba8(b))
    case None => Failure(FromRawFailed(layout))
  }

  /** Builds the RGBA image a layout hypothesis describes. */
  function Convert(f: Frame, layout: Layout): Result<Image, CaptureError> {
    match layout
    case Rgba8 =>
      AdoptRgba(f.width, f.height, f.bytes, Rgba8)
    case Rgb8 =>
      AdoptRgba(f.width, f.height, Pixels.ExpandRgb(f.bytes), Rgb8)
    case Compressed(img) => Success(img)
    case Bgra8 =>
      AdoptRgba(f.width, f.height, Pixels.SwapRedBlue(f.bytes), Bgra8)
    case Unrecognized => Failure(UnsupportedFormat(|f.bytes|, f.width, f.height))
  }

  /** Capture normalisation: the classified buffer turned into an image.
      - A buffer of `w * h * 4` bytes is adopted unchanged, unless the size
        overflowed `u32`, in which case `from_raw` refuses it. This test runs
        first, so it wins even when `w * h == 0` makes both sizes zero.
      - A buffer of `w * h * 3` bytes becomes a `w * h * 4` byte RGBA image
        that keeps every RGB triple and adds an opaque alpha.
      - Otherwise a successfully decoded image is adopted as it is, with its
        own dimensions.
      - Otherwise the result is the unsupported-format error with the
        observed length and the reported dimensions: never a BGRA image. */
  function Normalize(f: Frame, decode: seq<byte> -> Option<Image>): (r: Result<Image, CaptureError>)
    ensures |f.bytes| == RgbaSize(f) ==>
      && (r.Success? <==> f.width * f.height * 4 < TWO_TO_THE_32)
      && (r.Success? ==> r.value == ImageRgba8(ImageBuffer(f.width, f.height, f.bytes)))
      && (r.Failure? ==> r.error == FromRawFailed(Rgba8))
    ensures |f.bytes| != RgbaSize(f) && |f.bytes| == RgbSize(f) ==>
      && (r.Success? <==> f.width * f.height * 3 < TWO_TO_THE_32)
      && (r.Success? ==> IsRgbExpansion(f, r.value))
      && (r.Failure? ==> r.error == FromRawFailed(Rgb8))
    ensures |f.bytes| != RgbaSize(f) && |f.bytes| != RgbSize(f) && decode(f.bytes).Some? ==>
      r == Success(decode(f.bytes).value)
    ensures |f.bytes| != RgbaSize(f) && |f.bytes| != RgbSize(f) && decode(f.bytes).None? ==>
      r == Failure(UnsupportedFormat(|f.bytes|, f.width, f.height))
  {
    RgbaCase(f, decode);
    RgbCase(f, decode);
    Convert(f, Classify(f, decode))
  }

  /** The RGBA branch of `Normalize`: `from_raw` accepts the buffer exactly
      when the `u32` size did not wrap. */
  lemma RgbaCase(f: Frame, decode: seq<byte> -> Option<Image>)
    ensures |f.bytes| == RgbaSize(f) ==>
      var r := Convert(f, Classify(f, decode));
      && (r.Success? <==> f.width * f.height * 4 < TWO_TO_THE_32)
      && (r.Success? ==> r.value == ImageRgba8(ImageBuffer(f.width, f.height, f.bytes)))
      && (r.Failure? ==> r.error == FromRawFailed(Rgba8))
  {
    if |f.bytes| == RgbaSize(f) {
      var n := f.width * f.height;
      WrapFits(n * 4);
    }
  }

  /** The RGB branch of `Normalize`: the widened buffer is accepted exactly
      when the `u32` size did not wrap, and it is then the expansion. */
  lemma RgbCase(f: Frame, decode: seq<byte> -> Option<Image>)
    ensures |f.bytes| != RgbaSize(f) && |f.bytes| == RgbSize(f) ==>
      var r := Convert(f, Classify(f, decode));
      && (r.Success? <==> f.width * f.height * 3 < TWO_TO_THE_32)
      && (r.Success? ==> IsRgbExpansion(f, r.value))
      && (r.Failure? ==> r.error == FromRawFailed(Rgb8))
  {
    if |f.bytes| != RgbaSize(f) && |f.bytes| == RgbSize(f) {
      var n := f.width * f.height;
      RgbWrapFits(n);
      assert |Pixels.ExpandRgb(f.bytes)| == 4 * (|f.bytes| / 3);
      RgbBranchExpands(f);
    }
  }

  /** A size that did not wrap is the only one a buffer of the wrapped
      length can hold. */
  lemma WrapFits(x: nat)
    ensures x <= WrapU32(x) <==> x < TWO_TO_THE_32
  {
  }

  /** The widened RGB buffer holds `n` pixels exactly when `3 * n` did not
      wrap. */
  lemma RgbWrapFits(n: nat)
    ensures n <= WrapU32(3 * n) / 3 <==> 3 * n < TWO_TO_THE_32
  {
    var w := WrapU32(3 * n);
    if 3 * n >= TWO_TO_THE_32 {
      assert w < 3 * n;
      assert (w / 3) * 3 <= w;
    }
  }

  /** `img` is the frame's RGB pixels widened to RGBA: the reported
      dimensions, `w * h * 4` bytes, each pixel's first three bytes the
      source triple and its fourth byte opaque. */
  ghost predicate IsRgbExpansion(f: Frame, img: DynamicImage) {
    && img.ImageRgba8?
    && img.buf.width == f.width
    && img.buf.height == f.height
    && |f.bytes| == f.width * f.height * 3
    && |img.buf.data| == f.width * f.height * 4
    && (forall k :: 0 <= k < f.width * f.height ==>
          Pixels.Pixel4(img.buf.data, k) == Pixels.Pixel3(f.bytes, k) + [Pixels.OPAQUE])
  }

  /** The RGB branch of `Convert`, when it succeeds, builds the expansion. */
  lemma RgbBranchExpands(f: Frame)
    ensures |f.bytes| == f.width * f.height * 3 ==>
      IsRgbExpansion(f, ImageRgba8(ImageBuffer(f.width, f.height, Pixels.ExpandRgb(f.bytes))))
  {
    if |f.bytes| == f.width * f.height * 3 {
      var n := f.width * f.height;
      assert |f.bytes| / 3 == n;
      Pixels.ExpandRgbPixels(f.bytes);
    }
  }

  /** Whether the resize guard lets an image through untouched. */
  predicate FitsMaxEdge(img: Image) {
    img.buf.width <= MAX_EDGE && img.buf.height <= MAX_EDGE
  }

  /** The resize guard: only an image wider or taller than `MAX_EDGE` is
      handed to the resampler. */
  function Constrain(img: Image, resize: Image -> Image): (r: Image)
    ensures FitsMaxEdge(img) ==> r == img
    ensures !FitsMaxEdge(img) ==> r == resize(img)
  {
    if img.buf.width > MAX_EDGE || img.buf.height > MAX_EDGE then resize(img) else img
  }

  /** When the resampler, if it is called at all, delivers an image that
      fits, as a resize to fit 2000x2000 does, constraining a second time
      changes nothing. */
  lemma ConstrainIdempotent(img: Image, resize: Image -> Image)
    requires !FitsMaxEdge(img) ==> FitsMaxEdge(resize(img))
    ensures FitsMaxEdge(Constrain(img, resize))
    ensures Constrain(Constrain(img, resize), resize) == Constrain(img, resize)
  {
  }

  /** `to_rgb8`: the image's `width * height` pixels as a tightly packed RGB
      buffer. An RGBA pixel loses its alpha byte; an RGB pixel is copied. */
  function ToRgb8(img: Image): (rgb: ImageBuffer)
    ensures rgb.width == img.buf.width && rgb.height == img.buf.height
    ensures |rgb.data| == rgb.width * rgb.height * 3
    ensures img.ImageRgb8? ==> rgb.data == img.buf.data[..|rgb.data|]
    ensures img.ImageRgb8? && |img.buf.data| == |rgb.data| ==> rgb == img.buf
    ensures img.ImageRgba8? ==>
      forall k :: 0 <= k < img.buf.width * img.buf.height ==>
        Pixels.Pixel3(rgb.data, k) == Pixels.Pixel4(img.buf.data, k)[..3]
  {
    var n := img.buf.width * img.buf.height;
    match img
    case ImageRgba8(b) =>
      Pixels.DropAlphaPrefix(b.data, n);
      ImageBuffer(b.width, b.height, Pixels.DropAlpha(b.data[..4 * n]))
    case ImageRgb8(b) => ImageBuffer(b.width, b.height, b.data[..3 * n])
  }

  /** For an RGB capture that needs no resize, the pixels handed to the
      JPEG encoder are exactly the captured bytes: widening to RGBA and
      dropping the alpha again loses nothing. */
  lemma RgbCaptureReachesEncoderIntact(f: Frame, resize: Image -> Image, decode: seq<byte> -> Option<Image>)
    requires 0 < f.width <= MAX_EDGE && 0 < f.height <= MAX_EDGE
    requires |f.bytes| == f.width * f.height * 3
    ensures Normalize(f, decode).Success?
    ensures ToRgb8(Constrain(Normalize(f, decode).value, resize)) == ImageBuffer(f.width, f.height, f.bytes)
  {
    var img := NormalizeSmallRgb(f, decode);
    assert Constrain(img, resize) == img;
    ExpansionFlattensBack(f.width, f.height, f.bytes, f.width * f.height);
  }

  lemma ExpansionFlattensBack(width: uint32, height: uint32, bytes: seq<byte>, n: nat)
    requires width * height == n && |bytes| == n * 3
    ensures HoldsPixels(ImageRgba8(ImageBuffer(width, height, Pixels.ExpandRgb(bytes))))
    ensures ToRgb8(ImageRgba8(ImageBuffer(width, height, Pixels.ExpandRgb(bytes)))) == ImageBuffer(width, height, bytes)
  {
    var e := Pixels.ExpandRgb(bytes);
    assert |bytes| / 3 == n;
    assert e[..4 * n] == e;
    Pixels.DropAlphaExpandRgb(bytes);
    assert bytes[..3 * (|bytes| / 3)] == bytes;
  }

  lemma NormalizeSmallRgb(f: Frame, decode: seq<byte> -> Option<Image>) returns (img: Image)
    requires 0 < f.width <= MAX_EDGE && 0 < f.height <= MAX_EDGE
    requires |f.bytes| == f.width * f.height * 3
    ensures img == ImageRgba8(ImageBuffer(f.width, f.height, Pixels.ExpandRgb(f.bytes)))
    ensures Normalize(f, decode) == Success(img)
  {
    SmallRgbSizes(f);
    assert Classify(f, decode) == Rgb8;
    img := ImageRgba8(ImageBuffer(f.width, f.height, Pixels.ExpandRgb(f.bytes)));
    assert Convert(f, Rgb8) == Success(img);
  }

  lemma SmallRgbSizes(f: Frame)
    requires 0 < f.width <= MAX_EDGE && 0 < f.height <= MAX_EDGE
    requires |f.bytes| == f.width * f.height * 3
    ensures |f.bytes| != RgbaSize(f) && |f.bytes| == RgbSize(f)
    ensures f.width * f.height * 4 <= |Pixels.ExpandRgb(f.bytes)|
  {
    var n := f.width * f.height;
    ProductBound(f.width, f.height);
    assert f.width * f.height * 4 == 4 * n < TWO_TO_THE_32;
    assert RgbaSize(f) == 4 * n;
    assert RgbSize(f) == 3 * n;
    assert |f.bytes| / 3 == n;
  }

  lemma ProductBound(a: nat, b: nat)
    requires 0 < a <= MAX_EDGE && 0 < b <= MAX_EDGE
    ensures 0 < a * b <= MAX_EDGE * MAX_EDGE
  {
    assert a * b <= MAX_EDGE * b;
  }

  /** The JPEG bytes of a capture: normalise, bound the size, drop alpha,
      encode. */
  function CaptureJpeg(p: Platform, f: Frame): (r: Result<seq<byte>, CaptureError>)
    ensures Normalize(f, p.decode).Failure? ==> r == Failure(Normalize(f, p.decode).error)
    ensures Normalize(f, p.decode).Success? ==>
      var rgb := ToRgb8(Constrain(Normalize(f, p.decode).value, p.resize));
      && (p.jpeg(rgb).None? ==> r == Failure(JpegEncodeFailed))
      && (p.jpeg(rgb).Some? ==> r == Success(p.jpeg(rgb).value))
    ensures r.Failure? ==> r.error == JpegEncodeFailed || r.error.FromRawFailed? || r.error.UnsupportedFormat?
  {
    var img :- Normalize(f, p.decode);
    var rgb := ToRgb8(Constrain(img, p.resize));
    match p.jpeg(rgb)
    case None => Failure(JpegEncodeFailed)
    case Some(bytes) => Success(bytes)
  }

  /** The frame of the first enumerated display. */
  function CaptureFirstScreen(p: Platform): (r: Result<Frame, CaptureError>)
    ensures p.screens.Failure? ==> r == Failure(ScreenListFailed(p.screens.error))
    ensures p.screens == Success([]) ==> r == Failure(NoScreens)
    ensures p.screens.Success? && |p.screens.value| > 0 ==>
      match p.capture(p.screens.value[0])
      case Success(frame) => r == Success(frame)
      case Failure(reason) => r == Failure(CaptureFailed(reason))
  {
    match p.screens
    case Failure(reason) => Failure(ScreenListFailed(reason))
    case Success(all) =>
      var screen :- FirstScreen(all);
      match p.capture(screen)
      case Failure(reason) => Failure(CaptureFailed(reason))
      case Success(frame) => Success(frame)
  }

  /** `capture_screen`: the base64 text of the JPEG of the first display.
      The text always decodes back to exactly the JPEG bytes, and its length
      is four characters per started group of three bytes. */
  function CaptureScreen(p: Platform): (r: Result<string, CaptureError>)
    ensures CaptureFirstScreen(p).Failure? ==> r == Failure(CaptureFirstScreen(p).error)
    ensures CaptureFirstScreen(p).Success? && CaptureJpeg(p, CaptureFirstScreen(p).value).Failure? ==>
      r == Failure(CaptureJpeg(p, CaptureFirstScreen(p).value).error)
    ensures r.Success? <==> CaptureFirstScreen(p).Success? && CaptureJpeg(p, CaptureFirstScreen(p).value).Success?
    ensures r.Success? ==>
      var bytes := CaptureJpeg(p, CaptureFirstScreen(p).value).value;
      && Base64.Decode(r.value) == Success(bytes)
      && |r.value| == 4 * ((|bytes| + 2) / 3)
  {
    var frame :- CaptureFirstScreen(p);
    var bytes :- CaptureJpeg(p, frame);
    Base64.DecodeEncode(bytes);
    Success(Base64.Encode(bytes))
  }

  /** `capture_region`: capture, decode the transport text and the JPEG,
      crop (a negative offset reaches the crop as its `u32` bit pattern),
      drop alpha and encode again. The transport text it decodes is always
      accepted, so the only failures are those of the capture, of the image
      decoder and of the JPEG encoder. */
  function CaptureRegion(p: Platform, x: int32, y: int32, width: uint32, height: uint32): (r: Result<string, CaptureError>)
    ensures CaptureScreen(p).Failure? ==> r == Failure(CaptureScreen(p).error)
    ensures r.Failure? ==> !r.error.Base64Invalid?
    ensures CaptureScreen(p).Success? ==>
      var bytes := CaptureJpeg(p, CaptureFirstScreen(p).value).value;
      (p.decode(bytes).None? ==> r == Failure(ImageDecodeFailed))
    ensures CaptureScreen(p).Success? ==>
      var bytes := CaptureJpeg(p, CaptureFirstScreen(p).value).value;
      p.decode(bytes).Some? ==>
        var rgb := ToRgb8(p.crop(p.decode(bytes).value, I32AsU32(x), I32AsU32(y), width, height));
        && (p.jpeg(rgb).None? ==> r == Failure(JpegEncodeFailed))
        && (p.jpeg(rgb).Some? ==> r.Success?)
    ensures r.Success? ==>
      var bytes := CaptureJpeg(p, CaptureFirstScreen(p).value).value;
      && p.decode(bytes).Some?
      && var rgb := ToRgb8(p.crop(p.decode(bytes).value, I32AsU32(x), I32AsU32(y), width, height));
      && p.jpeg(rgb).Some?
      && Base64.Decode(r.value) == Success(p.jpeg(rgb).value)
  {
    var full :- CaptureScreen(p);
    match Base64.Decode(full)
    case Failure(e) => Failure(Base64Invalid(e))
    case Success(bytes) =>
      var image :- match p.decode(bytes)
        case None => Failure(ImageDecodeFailed)
        case Some(img) => Success(img);
      var cropped := p.crop(image, I32AsU32(x), I32AsU32(y), width, height);
      var out :- match p.jpeg(ToRgb8(cropped))
        case None => Failure(JpegEncodeFailed)
        case Some(b) => Success(b);
      Base64.DecodeEncode(out);
      Success(Base64.Encode(out))
  }
}
