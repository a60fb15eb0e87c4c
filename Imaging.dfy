/** The GDI+ side of a capture: the palette rewrite done in place, the file name a
    saved JPEG gets, and the sequence of bitmap operations a capture asks GDI+ for.
    GDI+ itself (bitmap wrapping, cropping, JPEG encoding, saving) is foreign: the
    model records each request as an ImageOp and takes the encoded bytes as input. */
module Imaging {
  import opened Prelude
  import opened Geometry

  /** System.Drawing.Color as alpha, red, green, blue. */
  datatype Color = Color(a: byte, r: byte, g: byte, b: byte)

  /** Color.White. */
  const White: Color := Color(255, 255, 255, 255)

  /** Color.FromArgb(0, 255, 0): opaque pure green. */
  const Green: Color := Color(255, 0, 255, 0)

  /** Entries in the palette of an 8 bpp indexed bitmap. */
  const PaletteSize: nat := 256

  /** The palette Convert8bppBMPToGrayscale writes: entry 0 white, every other entry green. */
  function GrayscalePalette(): seq<Color>
  {
    seq(PaletteSize, i => if i < 1 then White else Green)
  }

  /** Despite its name the rewrite is two-level and not gray: index 0 shows white, every
      other intensity shows the same green, which has no gray level (r, g, b differ). */
  lemma GrayscalePaletteIsTwoLevel()
    ensures |GrayscalePalette()| == PaletteSize
    ensures GrayscalePalette()[0] == White
    ensures forall i, j :: 1 <= i < j < PaletteSize ==> GrayscalePalette()[i] == GrayscalePalette()[j] != White
    ensures forall i :: 1 <= i < PaletteSize ==> GrayscalePalette()[i].r != GrayscalePalette()[i].g
  {
  }

  /** Convert8bppBMPToGrayscale: the loop over all 256 palette entries. */
  method Convert8bppToGrayscale(pal: array<Color>)
    requires pal.Length == PaletteSize
    modifies pal
    ensures pal[..] == GrayscalePalette()
  {
    for i := 0 to PaletteSize
      invariant forall k :: 0 <= k < i ==> pal[k] == GrayscalePalette()[k]
    {
      if i < 1 {
        pal[i] := White;
      } else {
        pal[i] := Green;
      }
    }
  }

  /** ImageMetrics of the normalized sensor image. */
  datatype Metrics = Metrics(width: int, height: int, stride: int)
  {
    function Size(): Geometry.Size
    {
      Geometry.Size(width, height)
    }
  }

  predicate IsDigit(c: char)
  {
    '0' <= c <= '9'
  }

  /** long.ToString() for a non-negative value: decimal digits, no sign, no separators. */
  function DecimalString(n: nat): (s: string)
    ensures |s| >= 1 && forall i :: 0 <= i < |s| ==> IsDigit(s[i])
  {
    if n < 10 then [('0' as int + n) as char]
    else DecimalString(n / 10) + [('0' as int + n % 10) as char]
  }

  /** Reads back a string of decimal digits. */
  function ParseDecimal(s: string): nat
    requires forall i :: 0 <= i < |s| ==> IsDigit(s[i])
  {
    if s == [] then 0
    else
      assert IsDigit(s[|s| - 1]);
      10 * ParseDecimal(s[..|s| - 1]) + (s[|s| - 1] as int - '0' as int)
  }

  /** The digits of a tick count read back to the same count. */
  lemma {:induction false} ParseDecimalString(n: nat)
    ensures ParseDecimal(DecimalString(n)) == n
    decreases n
  {
    var s := DecimalString(n);
    if n >= 10 {
      ParseDecimalString(n / 10);
      assert s[..|s| - 1] == DecimalString(n / 10);
    }
  }

  /** `directory + "\\" + DateTime.Now.Ticks + ".jpg"`. */
  function SavePath(directory: string, ticks: nat): string
  {
    directory + "\\" + DecimalString(ticks) + ".jpg"
  }

  /** A saved file lies in the given directory, ends in .jpg, and its name determines the
      capture time: two captures at different ticks never share a file name. */
  lemma SavePathNamesTheTime(directory: string, t1: nat, t2: nat)
    ensures SavePath(directory, t1)[..|directory| + 1] == directory + "\\"
    ensures var p := SavePath(directory, t1); |p| >= |directory| + 6 && p[|p| - 4..] == ".jpg"
    ensures SavePath(directory, t1) == SavePath(directory, t2) ==> t1 == t2
  {
    var p1, p2 := SavePath(directory, t1), SavePath(directory, t2);
    var d1, d2 := DecimalString(t1), DecimalString(t2);
    assert p1 == (directory + "\\") + d1 + ".jpg";
    assert p1[..|directory| + 1] == directory + "\\";
    assert p1[|p1| - 4..] == ".jpg";
    if p1 == p2 {
      assert |d1| == |d2|;
      assert p1[|directory| + 1..|p1| - 4] == d1;
      assert p2[|directory| + 1..|p2| - 4] == d2;
      ParseDecimalString(t1);
      ParseDecimalString(t2);
    }
  }

  /** A request made to GDI+ while a capture is processed. */
  datatype ImageOp =
    | WrapBuffer(image: seq<byte>, metrics: Metrics)   // new Bitmap(w, h, stride, Format8bppIndexed, ptr)
    | SetPalette(entries: seq<Color>)                  // bmp.Palette = pal
    | Crop(to: Rect)                                   // CropImage(bitmap, cropTo)
    | EncodeJpeg                                       // bitmap.Save(stream, Jpeg)
    | SaveJpeg(path: string)                           // bitmap.Save(path, Jpeg)

  /** The requests of one capture: wrap the frame, rewrite the palette, crop unless the
      scaled rectangle is empty, encode, and save when a path is given. */
  function ProcessingOps(image: seq<byte>, metrics: Metrics, crop: Rect, savePath: Option<string>): seq<ImageOp>
  {
    [WrapBuffer(image, metrics), SetPalette(GrayscalePalette())]
    + (if IsEmpty(crop) then [] else [Crop(crop)])
    + [EncodeJpeg]
    + (if savePath.Some? then [SaveJpeg(savePath.value)] else [])
  }

  /** The bitmap work both capture paths do on a frame: wrap it, rewrite the bitmap's
      `palette` in place, crop to `crop` unless it is all zero, encode, and save to
      `savePath` when there is one. Returns the requests made, in order. */
  method RenderCapture(image: seq<byte>, metrics: Metrics, crop: Rect, savePath: Option<string>, palette: array<Color>)
    returns (ops: seq<ImageOp>)
    requires palette.Length == PaletteSize
    modifies palette
    ensures palette[..] == GrayscalePalette()
    ensures ops == ProcessingOps(image, metrics, crop, savePath)
  {
    ops := [WrapBuffer(image, metrics)];
    Convert8bppToGrayscale(palette);
    ops := ops + [SetPalette(palette[..])];
    if !IsEmpty(crop) {
      ops := ops + [Crop(crop)];
    }
    ops := ops + [EncodeJpeg];
    if savePath.Some? {
      ops := ops + [SaveJpeg(savePath.value)];
    }
  }

  /** A capture crops iff the scaled rectangle is not all-zero, saves iff it has a path,
      always encodes, and rewrites the palette before anything else reads the bitmap. */
  lemma ProcessingOpsSpec(image: seq<byte>, metrics: Metrics, crop: Rect, savePath: Option<string>)
    ensures var ops := ProcessingOps(image, metrics, crop, savePath);
      && (forall r :: Crop(r) in ops <==> !IsEmpty(crop) && r == crop)
      && (forall p :: SaveJpeg(p) in ops <==> savePath == Some(p))
      && EncodeJpeg in ops
      && ops[0] == WrapBuffer(image, metrics)
      && ops[1] == SetPalette(GrayscalePalette())
      && |ops| == 3 + (if IsEmpty(crop) then 0 else 1) + (if savePath.Some? then 1 else 0)
  {
  }
}
