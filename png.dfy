/**
 * The part of png2ASImage that is not libpng: the colour-type decisions that pick the
 * transformations (palette and tRNS expansion, the filler) and the layout raw2scanline is told
 * to read, and the row loop that stores each decoded row with the alpha line only where it is
 * not opaque. libpng's decoding is taken as input: the header fields it reports and the rows
 * png_read_image fills.
 */
module Png {
  import opened Common
  import opened Images
  import opened Scanlines

  /** PNG colour types (PNG_COLOR_TYPE_*) and the alpha bit of the type (PNG_COLOR_MASK_ALPHA). */
  const Gray := 0
  const Rgb := 2
  const Palette := 3
  const GrayAlpha := 4
  const RgbAlpha := 6
  const AlphaMask := 4

  /** The colour types the PNG format defines; libpng rejects any other. */
  predicate KnownColourType(ct: int)
  {
    ct == Gray || ct == Rgb || ct == Palette || ct == GrayAlpha || ct == RgbAlpha
  }

  /** `ct | PNG_COLOR_MASK_ALPHA` on a colour type. */
  function WithAlpha(ct: nat): nat
  {
    if ct / AlphaMask % 2 == 1 then ct else ct + AlphaMask
  }

  /**
   * The colour type after the loader's transformation choices: a palette image is expanded to
   * RGB; RGB and grey gain an alpha channel from a tRNS chunk when there is one; any other type
   * (already with alpha) gets the 0xFF filler and keeps its alpha bit.
   */
  function Transformed(colourType: nat, hasTrns: bool): (ct: nat)
    requires KnownColourType(colourType)
    ensures ct == Gray || ct == Rgb || ct == GrayAlpha || ct == RgbAlpha
  {
    var ct := if colourType == Palette then Rgb else colourType;
    if ct == Rgb || ct == Gray then (if hasTrns then WithAlpha(ct) else ct) else WithAlpha(ct)
  }

  /** Bytes per pixel of the rows libpng delivers for a transformed colour type (8 bits per sample). */
  function Channels(ct: nat): nat
  {
    if ct == Gray then 1 else if ct == GrayAlpha then 2 else if ct == Rgb then 3 else 4
  }

  /** do_alpha: the transformed colour type has its alpha bit. */
  function DoAlpha(ct: nat): bool
  {
    ct / AlphaMask % 2 == 1
  }

  /** The grayscale flag as written: true only for grey with alpha. */
  function GrayscaleAsWritten(ct: nat): bool
  {
    ct == GrayAlpha
  }

  /** The grayscale flag as intended: the colour type has no colour bit (grey, with or without alpha). */
  function Grayscale(ct: nat): bool
  {
    ct == Gray || ct == GrayAlpha
  }

  /**
   * As written, a grey image without tRNS is handed to raw2scanline as RGB: it reads three bytes
   * per pixel from rows libpng fills with one, so it reads past the row for any nonempty row.
   */
  lemma GrayWithoutTrnsOverreads(width: nat)
    requires width > 0
    ensures var ct := Transformed(Gray, false);
            width * PixelSize(GrayscaleAsWritten(ct), DoAlpha(ct)) == 3 * width &&
            width * Channels(ct) == width &&
            width * PixelSize(GrayscaleAsWritten(ct), DoAlpha(ct)) > width * Channels(ct)
  {
  }

  /**
   * With the intended grayscale flag, the layout raw2scanline reads is the layout libpng
   * delivers, for every colour type with or without tRNS.
   */
  lemma LayoutMatchesRows(colourType: nat, hasTrns: bool)
    requires KnownColourType(colourType)
    ensures var ct := Transformed(colourType, hasTrns);
            PixelSize(Grayscale(ct), DoAlpha(ct)) == Channels(ct)
  {
  }

  /** The as-written flag agrees with the intended one for every type except grey without tRNS. */
  lemma GrayscaleFlagsAgree(colourType: nat, hasTrns: bool)
    requires KnownColourType(colourType)
    ensures var ct := Transformed(colourType, hasTrns);
            GrayscaleAsWritten(ct) == Grayscale(ct) <==> !(colourType == Gray && !hasTrns)
  {
  }

  /**
   * A PNG file as libpng reads it: size, original colour type, whether a tRNS chunk is present,
   * and the rows png_read_image fills after the transformations.
   */
  datatype PngFile = PngFile(width: U32, height: U32, colourType: nat, hasTrns: bool, rows: seq<seq<Byte>>)
  {
    /** What libpng guarantees: a known colour type and one row of width * channels bytes per image row. */
    ghost predicate Valid()
    {
      KnownColourType(colourType) && |rows| == height &&
      forall y :: 0 <= y < |rows| ==> |rows[y]| == width * Channels(Transformed(colourType, hasTrns))
    }
  }

  /** Line `ch` of row `y`: the alpha line only for a type with alpha and a row not all opaque. */
  function PngLine(row: seq<Byte>, width: nat, ct: nat, ch: Channel): Option<seq<U32>>
    requires width * PixelSize(Grayscale(ct), DoAlpha(ct)) <= |row|
  {
    var line := RowLine(row, None, Grayscale(ct), DoAlpha(ct), ch, width);
    if ch == Alpha && !(DoAlpha(ct) && Translucent(line)) then None else Some(line)
  }

  /** The image holds the lines of every decoded row. */
  ghost predicate PngDecoded(im: Image, png: PngFile)
    requires png.Valid()
  {
    var ct := Transformed(png.colourType, png.hasTrns);
    LayoutMatchesRows(png.colourType, png.hasTrns);
    im.Valid() && im.width == png.width && im.height == png.height &&
    forall ch, y :: 0 <= y < im.height ==> im.Line(ch, y) == PngLine(png.rows[y], im.width, ct, ch)
  }

  /** One pass of the row loop: raw2scanline, the colour lines, then alpha if the type has it and it is not opaque. */
  method AddRow(im: Image, buf: Scanline, row: seq<Byte>, ct: nat, y: nat) returns (r: Image)
    requires im.Valid() && y < im.height && buf.Valid() && !buf.bgr && buf.width == im.width
    requires im.width * PixelSize(Grayscale(ct), DoAlpha(ct)) <= |row|
    modifies buf.xc1, buf.xc2, buf.xc3, buf.alpha
    ensures r.Valid() && r.width == im.width && r.height == im.height
    ensures forall ch :: r.Line(ch, y) == if ch == Alpha && PngLine(row, im.width, ct, ch).None? then im.Line(ch, y)
                                          else PngLine(row, im.width, ct, ch)
    ensures forall ch, j :: 0 <= j < im.height && j != y ==> r.Line(ch, j) == im.Line(ch, j)
  {
    var w, grayscale, doAlpha := im.width, Grayscale(ct), DoAlpha(ct);
    Raw2Scanline(row, buf, None, w, grayscale, doAlpha);
    r := AddColourLines(im, buf, y);
    if doAlpha {
      r := AddAlphaIfTranslucent(r, buf, y);
    }
    assert buf.Red()[..w] == RowLine(row, None, grayscale, doAlpha, Red, w);
    assert buf.Green()[..w] == RowLine(row, None, grayscale, doAlpha, Green, w);
    assert buf.Blue()[..w] == RowLine(row, None, grayscale, doAlpha, Blue, w);
    assert doAlpha ==> buf.alpha[..w] == RowLine(row, None, grayscale, doAlpha, Alpha, w);
  }

  /**
   * png2ASImage with the intended grayscale flag: no image when the file cannot be opened;
   * otherwise every row is decoded into the image of the file's size.
   */
  method Png2ASImage(file: Option<PngFile>) returns (im: Option<Image>)
    requires file.Some? ==> file.value.Valid()
    ensures file.None? <==> im.None?
    ensures im.Some? ==> PngDecoded(im.value, file.value)
  {
    if file.None? {
      return None;
    }
    var png := file.value;
    var ct := Transformed(png.colourType, png.hasTrns);
    LayoutMatchesRows(png.colourType, png.hasTrns);
    var w, h := png.width as nat, png.height as nat;
    var image := Start(w, h);
    var buf := new Scanline(w, false);
    var y := 0;
    while y < h
      invariant y <= h && image.Valid() && image.width == w && image.height == h
      invariant forall ch, j :: 0 <= j < h ==> image.Line(ch, j) == if j < y then PngLine(png.rows[j], w, ct, ch) else None
    {
      image := AddRow(image, buf, png.rows[y], ct, y);
      y := y + 1;
    }
    im := Some(image);
  }

  /** Images whose transformed type has no alpha (grey or RGB without tRNS) get no alpha line. */
  lemma OpaqueTypesHaveNoAlpha(im: Image, png: PngFile)
    requires png.Valid() && PngDecoded(im, png) && !DoAlpha(Transformed(png.colourType, png.hasTrns))
    ensures !im.HasAlpha()
  {
    var ct := Transformed(png.colourType, png.hasTrns);
    LayoutMatchesRows(png.colourType, png.hasTrns);
    forall y | 0 <= y < im.height
      ensures im.alpha[y].None?
    {
      assert im.Line(Alpha, y) == PngLine(png.rows[y], im.width, ct, Alpha);
    }
  }

  /** The alpha samples of row `y` as raw2scanline reads them. */
  function AlphaSamples(png: PngFile, y: nat): seq<U32>
    requires png.Valid() && y < png.height
  {
    var ct := Transformed(png.colourType, png.hasTrns);
    LayoutMatchesRows(png.colourType, png.hasTrns);
    RowLine(png.rows[y], None, Grayscale(ct), DoAlpha(ct), Alpha, png.width)
  }

  /**
   * In an image with alpha, a row gets its alpha line exactly when one of its alpha samples is
   * not 0xFF, and the line is those samples.
   */
  lemma TranslucentRowsHaveAlpha(im: Image, png: PngFile, y: nat)
    requires png.Valid() && PngDecoded(im, png) && y < im.height
    requires DoAlpha(Transformed(png.colourType, png.hasTrns))
    ensures im.Line(Alpha, y) == if Translucent(AlphaSamples(png, y)) then Some(AlphaSamples(png, y)) else None
  {
    LayoutMatchesRows(png.colourType, png.hasTrns);
    var ct := Transformed(png.colourType, png.hasTrns);
    assert im.Line(Alpha, y) == PngLine(png.rows[y], im.width, ct, Alpha);
  }
}
