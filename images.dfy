/**
 * The image preparation pipeline of services/images.py: the size gate, decoding,
 * the MIME allow-list, EXIF orientation, metadata stripping, RGB conversion and
 * the longer-edge resize that yields a main image and a thumbnail, each handed to
 * the JPEG encoder.
 *
 * The imaging library's own work (decoding a container, colour conversion maths,
 * LANCZOS resampling, JPEG encoding) is not opened up: it is a value of type
 * `Imaging` whose fields are arbitrary functions, so every property below holds
 * whatever those functions compute.
 */
module Images {
  import opened Wrappers
  import opened Raster

  const AllowedMime: set<string> := {"image/jpeg", "image/png", "image/webp"}
  const MaxFileMb: nat := 10
  const MaxFileBytes: nat := MaxFileMb * 1024 * 1024
  /** The numeric EXIF tag PIL names 'Orientation'. */
  const OrientationTag: int := 0x0112
  const Rgb: string := "RGB"
  const MainQuality: nat := 88
  const ThumbQuality: nat := 80
  const DefaultMaxPx: nat := 1920
  const DefaultThumbPx: nat := 480

  /** The parts of the imaging library the pipeline calls and the model leaves closed. */
  datatype Imaging = Imaging(
    /** `Image.open` on the bytes with the MIME lookup of the detected format; None when PIL raises. */
    open: Bytes -> Option<Image>,
    /** `convert("RGB")` of one pixel of an image in the given mode. */
    toRgb: (string, Pixel) -> Pixel,
    /** LANCZOS resampling: pixel k of the given image resized to the given width and height. */
    lanczos: (Image, nat, nat, nat) -> Pixel,
    /** `save(format="JPEG", quality=q, optimize=True)`: the encoded stream. */
    jpeg: (Image, nat) -> Bytes)

  datatype PrepError =
    | FileTooLarge
    | UnsupportedOrCorrupt
    | DisallowedFormat
      /** `_resize` divides by max(w, h), which is 0 for an empty raster. */
    | ZeroSizeImage
      /** A truncated edge is 0; PIL's resize refuses such a target size. */
    | EmptyResizeTarget

  predicate IsValidationError(e: PrepError) {
    e.FileTooLarge? || e.UnsupportedOrCorrupt? || e.DisallowedFormat?
  }

  /** The text of the ValueError raised for each validation failure. */
  function Message(e: PrepError): (m: string)
    requires IsValidationError(e)
    ensures m != ""
  {
    match e
    case FileTooLarge => "File too large (max 10MB)."
    case UnsupportedOrCorrupt => "Unsupported or corrupted image file."
    case DisallowedFormat => "Only JPEG, PNG, or WEBP allowed."
  }

  /** Each validation failure has its own text, so the caller can tell the user which check failed. */
  lemma MessageTexts()
    ensures Message(FileTooLarge) == "File too large (max 10MB)."
    ensures Message(UnsupportedOrCorrupt) == "Unsupported or corrupted image file."
    ensures Message(DisallowedFormat) == "Only JPEG, PNG, or WEBP allowed."
    ensures Message(FileTooLarge) != Message(UnsupportedOrCorrupt)
    ensures Message(FileTooLarge) != Message(DisallowedFormat)
    ensures Message(UnsupportedOrCorrupt) != Message(DisallowedFormat)
  {
  }

  predicate MimeAllowed(mime: Option<string>) {
    mime.Some? && mime.value in AllowedMime
  }

  // ---------------------------------------------------------------------------
  // _auto_orient

  /** The orientation value `_auto_orient` reads, if any. */
  function OrientationOf(exif: Exif): (o: Option<int>)
    ensures o.Some? <==> exif.Tags? && OrientationTag in exif.entries
    ensures o.Some? ==> o.value == exif.entries[OrientationTag]
  {
    match exif
    case Tags(entries) => if OrientationTag in entries then Some(entries[OrientationTag]) else None
    case _ => None
  }

  /** Degrees counter-clockwise that `_auto_orient` turns an image by, for its orientation value. */
  function RotationFor(orientation: Option<int>): (t: nat)
    ensures t == 0 || t == 90 || t == 180 || t == 270
    ensures t == 0 <==> orientation !in {Some(3), Some(6), Some(8)}
  {
    if orientation == Some(3) then 180
    else if orientation == Some(6) then 270
    else if orientation == Some(8) then 90
    else 0
  }

  function AutoOrient(im: Image): (r: Image)
    ensures RotationFor(OrientationOf(im.exif)) == 0 ==> r == im
    ensures RotationFor(OrientationOf(im.exif)) == 180 ==> r == Rotate180(im)
    ensures RotationFor(OrientationOf(im.exif)) == 90 ==> r == Rotate90(im)
    ensures RotationFor(OrientationOf(im.exif)) == 270 ==> r == Rotate270(im)
  {
    var turn := RotationFor(OrientationOf(im.exif));
    if turn == 180 then Rotate180(im)
    else if turn == 270 then Rotate270(im)
    else if turn == 90 then Rotate90(im)
    else im
  }

  // ---------------------------------------------------------------------------
  // _strip_exif and convert("RGB")

  /** A fresh image of the same mode and size filled with the same pixel list. */
  function StripExif(im: Image): (r: Image)
    ensures r.mode == im.mode && r.width == im.width && r.height == im.height
    ensures r.pixels == im.pixels
    ensures MetadataFree(r) && r.mime == None
  {
    ImageValue(None, im.mode, im.width, im.height, im.pixels, NoExif, map[])
  }

  function ConvertRgb(im: Image, toRgb: (string, Pixel) -> Pixel): (r: Image)
    ensures r.mode == Rgb && r.width == im.width && r.height == im.height
    ensures r.mime == None && r.exif == im.exif && r.info == im.info
    ensures im.mode == Rgb ==> r.pixels == im.pixels
  {
    var n := |im.pixels|;
    var px := if im.mode == Rgb then im.pixels
              else seq(n, k requires 0 <= k < n => toRgb(im.mode, im.pixels[k]));
    ImageValue(None, Rgb, im.width, im.height, px, im.exif, im.info)
  }

  // ---------------------------------------------------------------------------
  // _resize

  lemma DivMono(a: nat, b: nat, c: nat)
    requires a <= b && c > 0
    ensures a / c <= b / c
  {
    if a / c > b / c {
      MulMono(b / c + 1, a / c, c);
    }
  }

  lemma DivAtMost(a: nat, b: nat, c: nat)
    requires c > 0 && a <= b * c
    ensures a / c <= b
  {
    DivMono(a, b * c, c);
    DivModOfIndex(0, b, c);
  }

  lemma FloorDiv(a: nat, c: nat)
    requires c > 0
    ensures (a / c) * c <= a < (a / c + 1) * c
  {
  }

  /** An edge e of at most l pixels, scaled by m/l with m < l, stays within e and within m. */
  lemma ScaledEdge(e: nat, m: nat, l: nat)
    requires e <= l && m < l
    ensures (e * m) / l <= e && (e * m) / l <= m
  {
    MulMono(m, l, e);
    DivAtMost(e * m, e, l);
    MulMono(e, l, m);
    DivAtMost(e * m, m, l);
  }

  /** The longer edge scaled by m/l is exactly m. */
  lemma ScaledLonger(l: nat, m: nat)
    requires l > 0
    ensures (l * m) / l == m
  {
    DivModOfIndex(0, m, l);
    assert m * l + 0 == l * m;
  }

  lemma ShrinkEdges(long: nat, short: nat, maxPx: nat)
    requires short <= long && maxPx < long
    ensures (long * maxPx) / long == maxPx
    ensures (short * maxPx) / long <= maxPx && (short * maxPx) / long <= short
  {
    ScaledLonger(long, maxPx);
    ScaledEdge(short, maxPx, long);
  }

  /** The scaled size of a w×h image whose longer edge l exceeds maxPx. */
  lemma ShrinkBounds(w: nat, h: nat, l: nat, maxPx: nat, nw: nat, nh: nat)
    requires l == Longer(w, h) && maxPx < l
    requires nw == (w * maxPx) / l && nh == (h * maxPx) / l
    ensures nw <= w && nh <= h && Longer(nw, nh) == maxPx
  {
    if w >= h {
      ShrinkEdges(w, h, maxPx);
    } else {
      ShrinkEdges(h, w, maxPx);
    }
  }

  /** An edge of e pixels scaled by m / l and truncated, as `int(e * scale)` computes it. */
  function Scaled(e: nat, m: nat, l: nat): nat
    requires l > 0
  {
    (e * m) / l
  }

  /** What `_resize` decides for a w×h image: keep it, or shrink it to a given size. */
  datatype Plan = Keep | Shrink(width: nat, height: nat)

  /**
   * The target size of `_resize`, in exact arithmetic: the scale min(maxPx / L, 1)
   * is below 1 exactly when maxPx < L, and each edge is truncated.
   */
  function ResizePlan(w: nat, h: nat, maxPx: nat): (p: Plan)
    requires Longer(w, h) > 0
    ensures p.Keep? <==> Longer(w, h) <= maxPx
  {
    var l := Longer(w, h);
    if maxPx < l then Shrink(Scaled(w, maxPx, l), Scaled(h, maxPx, l)) else Keep
  }

  /**
   * A shrink never enlarges an edge, brings the longer edge to exactly maxPx, and
   * truncates each edge: it is the largest whole number not above edge * maxPx / L.
   */
  lemma {:induction false} ResizePlanBounds(w: nat, h: nat, maxPx: nat)
    requires Longer(w, h) > 0
    ensures var p := ResizePlan(w, h, maxPx);
      p.Shrink? ==> p.width <= w && p.height <= h && Longer(p.width, p.height) == maxPx
    ensures var p, l := ResizePlan(w, h, maxPx), Longer(w, h);
      p.Shrink? ==> p.width * l <= w * maxPx < (p.width + 1) * l && p.height * l <= h * maxPx < (p.height + 1) * l
  {
    var l := Longer(w, h);
    if maxPx < l {
      ShrinkBounds(w, h, l, maxPx, Scaled(w, maxPx, l), Scaled(h, maxPx, l));
      FloorDiv(w * maxPx, l);
      FloorDiv(h * maxPx, l);
    }
  }

  /** The image resized to w×h, each pixel computed by the resampler. */
  function Resampled(im: Image, w: nat, h: nat, lanczos: (Image, nat, nat, nat) -> Pixel): (r: Image)
    ensures r.width == w && r.height == h && r.mode == im.mode
    ensures r.mime == None && r.exif == im.exif && r.info == im.info
  {
    ImageValue(None, im.mode, w, h, seq(w * h, k requires 0 <= k < w * h => lanczos(im, w, h, k)),
               im.exif, im.info)
  }

  function Resize(im: Image, maxPx: nat, lanczos: (Image, nat, nat, nat) -> Pixel): (r: Result<Image, PrepError>)
    ensures r == Err(ZeroSizeImage) <==> Longer(im.width, im.height) == 0
    ensures 0 < Longer(im.width, im.height) <= maxPx ==> r == Ok(im)
    ensures r.Ok? ==> Longer(r.value.width, r.value.height) <= maxPx
    ensures r.Ok? ==> r.value.width <= im.width && r.value.height <= im.height
    ensures r.Ok? ==> r.value.mode == im.mode && r.value.exif == im.exif && r.value.info == im.info
    ensures r.Err? ==> r.error == ZeroSizeImage || r.error == EmptyResizeTarget
  {
    if Longer(im.width, im.height) == 0 then Err(ZeroSizeImage)
    else
      ResizePlanBounds(im.width, im.height, maxPx);
      match ResizePlan(im.width, im.height, maxPx)
      case Keep => Ok(im)
      case Shrink(w, h) =>
        if w == 0 || h == 0 then Err(EmptyResizeTarget) else Ok(Resampled(im, w, h, lanczos))
  }

  // ---------------------------------------------------------------------------
  // validate_and_prepare_image

  /** The raster both outputs are resized from: oriented, stripped, converted to RGB. */
  function Normalise(im: Image, lib: Imaging): (n: Image)
    ensures n.mode == Rgb && MetadataFree(n) && n.mime == None
    ensures n.width == AutoOrient(im).width && n.height == AutoOrient(im).height
  {
    ConvertRgb(StripExif(AutoOrient(im)), lib.toRgb)
  }

  /** The two rasters the pipeline encodes: the main image and the thumbnail. */
  function PrepareRasters(raw: Bytes, maxPx: nat, thumbPx: nat, lib: Imaging): (r: Result<(Image, Image), PrepError>)
    ensures r.Err? && IsValidationError(r.error) <==>
      |raw| > MaxFileBytes || lib.open(raw).None? || !MimeAllowed(lib.open(raw).value.mime)
    ensures r.Ok? ==>
      && r.value.0.mode == Rgb && r.value.1.mode == Rgb
      && MetadataFree(r.value.0) && MetadataFree(r.value.1)
      && Longer(r.value.0.width, r.value.0.height) <= maxPx
      && Longer(r.value.1.width, r.value.1.height) <= thumbPx
  {
    if |raw| > MaxFileBytes then Err(FileTooLarge)
    else match lib.open(raw)
      case None => Err(UnsupportedOrCorrupt)
      case Some(im) =>
        if !MimeAllowed(im.mime) then Err(DisallowedFormat)
        else
          var n := Normalise(im, lib);
          var main :- Resize(n, maxPx, lib.lanczos);
          var thumb :- Resize(n, thumbPx, lib.lanczos);
          Ok((main, thumb))
  }

  /** The pipeline's result: both JPEG streams, or no output at all. */
  datatype Prepared = Prepared(imageBytes: Bytes, thumbBytes: Bytes)

  function ValidateAndPrepareImage(raw: Bytes, maxPx: nat, thumbPx: nat, lib: Imaging): (r: Result<Prepared, PrepError>)
    ensures r.Ok? <==> PrepareRasters(raw, maxPx, thumbPx, lib).Ok?
    ensures r.Ok? ==>
      var (main, thumb) := PrepareRasters(raw, maxPx, thumbPx, lib).value;
      r.value == Prepared(lib.jpeg(main, MainQuality), lib.jpeg(thumb, ThumbQuality))
    ensures r.Err? ==> r.error == PrepareRasters(raw, maxPx, thumbPx, lib).error
  {
    var (main, thumb) :- PrepareRasters(raw, maxPx, thumbPx, lib);
    Ok(Prepared(lib.jpeg(main, MainQuality), lib.jpeg(thumb, ThumbQuality)))
  }

  // ---------------------------------------------------------------------------
  // Orientation

  lemma OrientationDecision(orientation: Option<int>)
    ensures RotationFor(orientation) != 0 <==> orientation == Some(3) || orientation == Some(6) || orientation == Some(8)
    ensures orientation == Some(3) ==> RotationFor(orientation) == 180
    ensures orientation == Some(6) ==> RotationFor(orientation) == 270
    ensures orientation == Some(8) ==> RotationFor(orientation) == 90
  {
  }

  /** Missing EXIF, unreadable EXIF (an exception while reading) and a missing tag all read as no orientation. */
  lemma NoOrientationRead(entries: map<int, int>)
    ensures OrientationOf(NoExif) == None && OrientationOf(Unreadable) == None
    ensures OrientationTag !in entries ==> OrientationOf(Tags(entries)) == None
    ensures OrientationTag in entries ==> OrientationOf(Tags(entries)) == Some(entries[OrientationTag])
  {
  }

  /** Any orientation but 3, 6 and 8, or none, leaves the image as it is. */
  lemma OrientationNoOp(im: Image)
    requires OrientationOf(im.exif) != Some(3) && OrientationOf(im.exif) != Some(6) && OrientationOf(im.exif) != Some(8)
    ensures AutoOrient(im) == im
  {
  }

  /** The mirrored orientations 2, 4, 5 and 7 are not corrected. */
  lemma MirroredNotCorrected(im: Image)
    requires OrientationOf(im.exif) in {Some(2), Some(4), Some(5), Some(7)}
    ensures AutoOrient(im) == im
  {
  }

  /** A half turn keeps the size; a quarter turn either way swaps width and height. */
  lemma OrientedSize(im: Image)
    ensures var t, r := RotationFor(OrientationOf(im.exif)), AutoOrient(im);
      if t == 90 || t == 270 then r.width == im.height && r.height == im.width
      else r.width == im.width && r.height == im.height
  {
  }

  /**
   * Where the pixel in the top-left corner of the stored image ends up: for
   * orientation 3 in the bottom-right corner, for 6 in the top-right corner, for 8
   * in the bottom-left corner.
   */
  lemma OrientedCorner(im: Image)
    requires im.width > 0 && im.height > 0
    ensures var r := AutoOrient(im);
      && (OrientationOf(im.exif) == Some(3) ==> PixelAt(r, im.width - 1, im.height - 1) == PixelAt(im, 0, 0))
      && (OrientationOf(im.exif) == Some(6) ==> PixelAt(r, im.height - 1, 0) == PixelAt(im, 0, 0))
      && (OrientationOf(im.exif) == Some(8) ==> PixelAt(r, 0, im.width - 1) == PixelAt(im, 0, 0))
  {
    var t := OrientationOf(im.exif);
    if t == Some(3) {
      Rotate180At(im, im.width - 1, im.height - 1);
    } else if t == Some(6) {
      Rotate270At(im, im.height - 1, 0);
    } else if t == Some(8) {
      Rotate90At(im, 0, im.width - 1);
    }
  }

  // ---------------------------------------------------------------------------
  // Stripping and normalisation

  lemma StripIdempotent(im: Image)
    ensures StripExif(StripExif(im)) == StripExif(im)
  {
  }

  /** Running the normalisation again on its own output changes nothing: no metadata comes back, no second rotation. */
  lemma NormaliseIdempotent(im: Image, lib: Imaging)
    ensures Normalise(Normalise(im, lib), lib) == Normalise(im, lib)
  {
    var n := Normalise(im, lib);
    assert AutoOrient(n) == n;
    assert StripExif(n) == n;
  }

  // ---------------------------------------------------------------------------
  // Resize

  lemma DivAtLeastOne(a: nat, c: nat)
    requires c > 0 && a >= c
    ensures a / c >= 1
  {
    DivMono(c, a, c);
    ScaledLonger(c, 1);
  }

  /**
   * When the shorter edge times maxPx reaches the longer edge, no truncated edge
   * is 0, so the resize succeeds.
   */
  lemma {:induction false} ResizeSucceeds(im: Image, maxPx: nat, lanczos: (Image, nat, nat, nat) -> Pixel)
    requires im.width > 0 && im.height > 0
    requires im.width * maxPx >= Longer(im.width, im.height) && im.height * maxPx >= Longer(im.width, im.height)
    ensures Resize(im, maxPx, lanczos).Ok?
  {
    var l := Longer(im.width, im.height);
    if maxPx < l {
      DivAtLeastOne(im.width * maxPx, l);
      DivAtLeastOne(im.height * maxPx, l);
    }
  }

  // ---------------------------------------------------------------------------
  // validate_and_prepare_image: the gates and their order

  lemma SizeGate(raw: Bytes, maxPx: nat, thumbPx: nat, lib: Imaging)
    ensures MaxFileBytes == 10485760
    ensures ValidateAndPrepareImage(raw, maxPx, thumbPx, lib) == Err(FileTooLarge) <==> |raw| > MaxFileBytes
  {
  }

  /** The size gate is decided before the decoder is consulted: which decoder it is makes no difference. */
  lemma SizeGateBeforeDecode(raw: Bytes, maxPx: nat, thumbPx: nat, lib: Imaging, other: Imaging)
    requires |raw| > MaxFileBytes
    ensures ValidateAndPrepareImage(raw, maxPx, thumbPx, lib) == ValidateAndPrepareImage(raw, maxPx, thumbPx, other)
  {
  }

  lemma DecodeGate(raw: Bytes, maxPx: nat, thumbPx: nat, lib: Imaging)
    ensures ValidateAndPrepareImage(raw, maxPx, thumbPx, lib) == Err(UnsupportedOrCorrupt)
        <==> |raw| <= MaxFileBytes && lib.open(raw).None?
  {
  }

  /** Formats outside the allow-list are refused, including those with no MIME type at all. */
  lemma MimeGate(raw: Bytes, maxPx: nat, thumbPx: nat, lib: Imaging)
    ensures ValidateAndPrepareImage(raw, maxPx, thumbPx, lib) == Err(DisallowedFormat)
        <==> |raw| <= MaxFileBytes && lib.open(raw).Some? && !MimeAllowed(lib.open(raw).value.mime)
    ensures |raw| <= MaxFileBytes && lib.open(raw).Some? && lib.open(raw).value.mime.None? ==>
      ValidateAndPrepareImage(raw, maxPx, thumbPx, lib) == Err(DisallowedFormat)
  {
  }

  /** Past the three gates, the only failures left are those of the resize. */
  lemma LaterFailures(raw: Bytes, maxPx: nat, thumbPx: nat, lib: Imaging)
    requires |raw| <= MaxFileBytes && lib.open(raw).Some? && MimeAllowed(lib.open(raw).value.mime)
    ensures var r := ValidateAndPrepareImage(raw, maxPx, thumbPx, lib);
      r.Err? ==> !IsValidationError(r.error)
  {
  }

  // ---------------------------------------------------------------------------
  // validate_and_prepare_image: the outputs

  /**
   * Both rasters are resized from one normalised raster, the thumbnail not from
   * the main image, and the two JPEG streams are encoded from them.
   */
  lemma OutputsFromNormalised(raw: Bytes, maxPx: nat, thumbPx: nat, lib: Imaging)
    requires ValidateAndPrepareImage(raw, maxPx, thumbPx, lib).Ok?
    ensures lib.open(raw).Some?
    ensures var n := Normalise(lib.open(raw).value, lib);
      && Resize(n, maxPx, lib.lanczos).Ok? && Resize(n, thumbPx, lib.lanczos).Ok?
      && ValidateAndPrepareImage(raw, maxPx, thumbPx, lib).value ==
         Prepared(lib.jpeg(Resize(n, maxPx, lib.lanczos).value, MainQuality),
                  lib.jpeg(Resize(n, thumbPx, lib.lanczos).value, ThumbQuality))
  {
  }

  /**
   * Each output is an RGB raster without metadata whose longer edge is within its
   * bound, and neither is larger than the oriented input in either dimension.
   */
  lemma OutputsBounded(raw: Bytes, maxPx: nat, thumbPx: nat, lib: Imaging)
    requires PrepareRasters(raw, maxPx, thumbPx, lib).Ok?
    ensures lib.open(raw).Some?
    ensures var (main, thumb) := PrepareRasters(raw, maxPx, thumbPx, lib).value;
      var oriented := AutoOrient(lib.open(raw).value);
      && main.mode == Rgb && thumb.mode == Rgb
      && MetadataFree(main) && MetadataFree(thumb)
      && Longer(main.width, main.height) <= maxPx && Longer(thumb.width, thumb.height) <= thumbPx
      && main.width <= oriented.width && main.height <= oriented.height
      && thumb.width <= oriented.width && thumb.height <= oriented.height
  {
  }

  /** The thumbnail depends on the upload and thumbPx only, not on the main image's bound. */
  lemma ThumbIndependentOfMain(raw: Bytes, maxPx: nat, otherMaxPx: nat, thumbPx: nat, lib: Imaging)
    requires PrepareRasters(raw, maxPx, thumbPx, lib).Ok? && PrepareRasters(raw, otherMaxPx, thumbPx, lib).Ok?
    ensures PrepareRasters(raw, maxPx, thumbPx, lib).value.1 == PrepareRasters(raw, otherMaxPx, thumbPx, lib).value.1
  {
  }

  /** An image no longer than the bound is not enlarged: the main raster is the normalised raster itself. */
  lemma NoUpscale(raw: Bytes, maxPx: nat, thumbPx: nat, lib: Imaging)
    requires PrepareRasters(raw, maxPx, thumbPx, lib).Ok?
    requires Longer(AutoOrient(lib.open(raw).value).width, AutoOrient(lib.open(raw).value).height) <= maxPx
    ensures PrepareRasters(raw, maxPx, thumbPx, lib).value.0 == Normalise(lib.open(raw).value, lib)
  {
  }

  /**
   * An allow-listed upload within the size limit whose oriented raster is not
   * empty and not too thin for either bound yields both streams.
   */
  lemma {:induction false} PrepareSucceeds(raw: Bytes, maxPx: nat, thumbPx: nat, lib: Imaging)
    requires |raw| <= MaxFileBytes && lib.open(raw).Some? && MimeAllowed(lib.open(raw).value.mime)
    requires var o := AutoOrient(lib.open(raw).value);
      && o.width > 0 && o.height > 0
      && o.width * maxPx >= Longer(o.width, o.height) && o.height * maxPx >= Longer(o.width, o.height)
      && o.width * thumbPx >= Longer(o.width, o.height) && o.height * thumbPx >= Longer(o.width, o.height)
    ensures ValidateAndPrepareImage(raw, maxPx, thumbPx, lib).Ok?
  {
    var n := Normalise(lib.open(raw).value, lib);
    ResizeSucceeds(n, maxPx, lib.lanczos);
    ResizeSucceeds(n, thumbPx, lib.lanczos);
  }

  /** A 4000×1000 JPEG with the default bounds gives a 1920×480 main image and a 480×120 thumbnail. */
  lemma WideJpegScenario(raw: Bytes, lib: Imaging)
    requires |raw| <= MaxFileBytes && lib.open(raw).Some?
    requires var im := lib.open(raw).value;
      im.mime == Some("image/jpeg") && im.width == 4000 && im.height == 1000 && im.exif == NoExif
    ensures PrepareRasters(raw, DefaultMaxPx, DefaultThumbPx, lib).Ok?
    ensures var (main, thumb) := PrepareRasters(raw, DefaultMaxPx, DefaultThumbPx, lib).value;
      main.width == 1920 && main.height == 480 && thumb.width == 480 && thumb.height == 120
    ensures ValidateAndPrepareImage(raw, DefaultMaxPx, DefaultThumbPx, lib).Ok?
  {
    assert Scaled(4000, 1920, 4000) == 1920 && Scaled(1000, 1920, 4000) == 480;
    assert Scaled(4000, 480, 4000) == 480 && Scaled(1000, 480, 4000) == 120;
  }

  /** A 300×200 PNG with alpha is not enlarged and comes out as RGB. */
  lemma SmallPngScenario(raw: Bytes, lib: Imaging)
    requires |raw| <= MaxFileBytes && lib.open(raw).Some?
    requires var im := lib.open(raw).value;
      im.mime == Some("image/png") && im.mode == "RGBA" && im.width == 300 && im.height == 200 && im.exif == NoExif
    ensures PrepareRasters(raw, DefaultMaxPx, DefaultThumbPx, lib).Ok?
    ensures var main := PrepareRasters(raw, DefaultMaxPx, DefaultThumbPx, lib).value.0;
      main.width == 300 && main.height == 200 && main.mode == Rgb
  {
    assert Scaled(300, 480, 300) == 480 && Scaled(200, 480, 300) == 320;
  }
}
