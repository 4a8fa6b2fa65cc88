/**
 * The in-memory image value the pipeline works on (a PIL `Image.Image`), and the
 * lossless geometric operations PIL performs on it: `rotate(angle, expand=True)`
 * for the three right angles, which PIL carries out as exact transposes.
 *
 * Pixels are stored row-major, as `getdata()` lists them: the pixel in column x
 * and row y of a w-pixel-wide image is at index y * w + x.
 */
module Raster {
  import opened Wrappers

  type Byte = b: int | 0 <= b < 256
  type Bytes = seq<Byte>

  /** One pixel as `getdata()` yields it: its channel values (uninterpreted). */
  type Pixel = seq<int>

  /** What `_getexif()` gives: nothing, a failure to read, or a tag table. */
  datatype Exif =
    | NoExif
    | Unreadable
    | Tags(entries: map<int, int>)

  /**
   * An image: the MIME type of the container it was decoded from (`Image.MIME` of
   * `img.format`; None for derived images), the mode ("RGB", "RGBA", "P", ...),
   * the size, the pixel data, the EXIF table and the remaining ancillary metadata
   * (PIL's `info`: ICC profile, raw EXIF bytes, transparency and so on).
   */
  datatype ImageValue = ImageValue(
    mime: Option<string>,
    mode: string,
    width: nat,
    height: nat,
    pixels: seq<Pixel>,
    exif: Exif,
    info: map<string, Bytes>)

  type Image = im: ImageValue | |im.pixels| == im.width * im.height
    witness ImageValue(None, "RGB", 0, 0, [], NoExif, map[])

  predicate MetadataFree(im: ImageValue) {
    im.exif == NoExif && im.info == map[]
  }

  function Longer(w: nat, h: nat): (m: nat)
    ensures m >= w && m >= h && (m == w || m == h)
  {
    if w >= h then w else h
  }

  // ---------------------------------------------------------------------------
  // Row-major index arithmetic

  lemma MulMono(a: nat, b: nat, c: nat)
    requires a <= b
    ensures a * c <= b * c
  {
  }

  lemma {:induction false} IndexBound(x: nat, y: nat, w: nat, h: nat)
    requires x < w && y < h
    ensures y * w + x < w * h
  {
    MulMono(y + 1, h, w);
    assert (y + 1) * w == y * w + w;
  }

  lemma {:induction false} DivModOfIndex(x: nat, y: nat, w: nat)
    requires x < w
    ensures (y * w + x) / w == y && (y * w + x) % w == x
  {
    var k := y * w + x;
    var q, r := k / w, k % w;
    assert k == q * w + r;
    if q < y {
      MulMono(q + 1, y, w);
    } else if q > y {
      MulMono(y + 1, q, w);
    }
  }

  /** Every index of a w×h raster is the index of one column and one row. */
  lemma {:induction false} SplitIndex(k: nat, w: nat, h: nat)
    requires k < w * h
    ensures w > 0 && k % w < w && k / w < h && k == (k / w) * w + k % w
  {
    var q := k / w;
    if q >= h {
      MulMono(h, q, w);
    }
  }

  function PixelAt(im: Image, x: nat, y: nat): Pixel
    requires x < im.width && y < im.height
  {
    IndexBound(x, y, im.width, im.height);
    im.pixels[y * im.width + x]
  }

  /** Two images of one size whose pixels agree at every position carry the same pixel sequence. */
  lemma SamePixels(a: Image, b: Image)
    requires a.width == b.width && a.height == b.height
    requires forall x: nat, y: nat :: x < a.width && y < a.height ==> PixelAt(a, x, y) == PixelAt(b, x, y)
    ensures a.pixels == b.pixels
  {
    forall k | 0 <= k < |a.pixels|
      ensures a.pixels[k] == b.pixels[k]
    {
      SplitIndex(k, a.width, a.height);
      var x, y := k % a.width, k / a.width;
      assert PixelAt(a, x, y) == PixelAt(b, x, y);
    }
  }

  // ---------------------------------------------------------------------------
  // Rotations (counter-clockwise, with expand=True). A derived image carries the
  // metadata of its source (PIL copies `info`) but no container format.

  function Rotate180(im: Image): (r: Image)
    ensures r.width == im.width && r.height == im.height && r.mode == im.mode
    ensures r.mime == None && r.exif == im.exif && r.info == im.info
  {
    var n := |im.pixels|;
    ImageValue(None, im.mode, im.width, im.height,
               seq(n, k requires 0 <= k < n => im.pixels[n - 1 - k]), im.exif, im.info)
  }

  /** The source index of pixel k of a quarter turn counter-clockwise of a w×h raster. */
  function Source90(w: nat, h: nat, k: nat): (i: nat)
    requires k < h * w
    ensures i < w * h
  {
    SplitIndex(k, h, w);
    var x, y := k % h, k / h;
    IndexBound(w - 1 - y, x, w, h);
    x * w + (w - 1 - y)
  }

  /** The source index of pixel k of three quarter turns counter-clockwise of a w×h raster. */
  function Source270(w: nat, h: nat, k: nat): (i: nat)
    requires k < h * w
    ensures i < w * h
  {
    SplitIndex(k, h, w);
    var x, y := k % h, k / h;
    IndexBound(y, h - 1 - x, w, h);
    (h - 1 - x) * w + y
  }

  function Rotate90(im: Image): (r: Image)
    ensures r.width == im.height && r.height == im.width && r.mode == im.mode
    ensures r.mime == None && r.exif == im.exif && r.info == im.info
  {
    var w, h := im.width, im.height;
    ImageValue(None, im.mode, h, w,
               seq(h * w, k requires 0 <= k < h * w => im.pixels[Source90(w, h, k)]), im.exif, im.info)
  }

  function Rotate270(im: Image): (r: Image)
    ensures r.width == im.height && r.height == im.width && r.mode == im.mode
    ensures r.mime == None && r.exif == im.exif && r.info == im.info
  {
    var w, h := im.width, im.height;
    ImageValue(None, im.mode, h, w,
               seq(h * w, k requires 0 <= k < h * w => im.pixels[Source270(w, h, k)]), im.exif, im.info)
  }

  // ---------------------------------------------------------------------------
  // Where each pixel goes

  lemma Rotate180At(im: Image, x: nat, y: nat)
    requires x < im.width && y < im.height
    ensures PixelAt(Rotate180(im), x, y) == PixelAt(im, im.width - 1 - x, im.height - 1 - y)
  {
    var w, h := im.width, im.height;
    IndexBound(x, y, w, h);
    assert (h - 1 - y) * w == h * w - w - y * w;
  }

  lemma Rotate90At(im: Image, x: nat, y: nat)
    requires x < im.height && y < im.width
    ensures PixelAt(Rotate90(im), x, y) == PixelAt(im, im.width - 1 - y, x)
  {
    var w, h := im.width, im.height;
    IndexBound(x, y, h, w);
    DivModOfIndex(x, y, h);
  }

  lemma Rotate270At(im: Image, x: nat, y: nat)
    requires x < im.height && y < im.width
    ensures PixelAt(Rotate270(im), x, y) == PixelAt(im, y, im.height - 1 - x)
  {
    var w, h := im.width, im.height;
    IndexBound(x, y, h, w);
    DivModOfIndex(x, y, h);
  }

  // ---------------------------------------------------------------------------
  // Inverses

  lemma Rotate180Twice(im: Image)
    ensures Rotate180(Rotate180(im)).pixels == im.pixels
  {
    var r := Rotate180(Rotate180(im));
    forall x: nat, y: nat | x < im.width && y < im.height
      ensures PixelAt(r, x, y) == PixelAt(im, x, y)
    {
      Rotate180At(Rotate180(im), x, y);
      Rotate180At(im, im.width - 1 - x, im.height - 1 - y);
    }
    SamePixels(r, im);
  }

  lemma Rotate90Then270(im: Image)
    ensures Rotate270(Rotate90(im)).pixels == im.pixels
    ensures Rotate270(Rotate90(im)).width == im.width && Rotate270(Rotate90(im)).height == im.height
  {
    var s := Rotate90(im);
    var r := Rotate270(s);
    forall x: nat, y: nat | x < im.width && y < im.height
      ensures PixelAt(r, x, y) == PixelAt(im, x, y)
    {
      Rotate270At(s, x, y);
      Rotate90At(im, y, im.width - 1 - x);
    }
    SamePixels(r, im);
  }

  lemma Rotate270Then90(im: Image)
    ensures Rotate90(Rotate270(im)).pixels == im.pixels
    ensures Rotate90(Rotate270(im)).width == im.width && Rotate90(Rotate270(im)).height == im.height
  {
    var s := Rotate270(im);
    var r := Rotate90(s);
    forall x: nat, y: nat | x < im.width && y < im.height
      ensures PixelAt(r, x, y) == PixelAt(im, x, y)
    {
      Rotate90At(s, x, y);
      Rotate270At(im, im.height - 1 - y, x);
    }
    SamePixels(r, im);
  }
}
