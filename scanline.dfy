/**
 * The scanline buffer the decoders fill (ASScanline) and raw2scanline, which spreads a row of
 * packed 8-bit samples (grey or RGB, with or without alpha) over its channels, through an
 * optional gamma table.
 */
module Scanlines {
  import opened Common
  import opened Images

  /**
   * A scanline of `width` pixels: channels xc1, xc2, xc3 and alpha. With `bgr` the red channel
   * is xc3 and blue xc1; without it red is xc1.
   */
  class Scanline {
    const width: nat
    const bgr: bool
    const xc1: array<U32>
    const xc2: array<U32>
    const xc3: array<U32>
    const alpha: array<U32>

    ghost predicate Valid()
    {
      xc1.Length == width && xc2.Length == width && xc3.Length == width && alpha.Length == width &&
      xc1 != xc2 && xc1 != xc3 && xc1 != alpha && xc2 != xc3 && xc2 != alpha && xc3 != alpha
    }

    /** prepare_scanline: four fresh channels of `width` samples, all zero. */
    constructor (width: nat, bgr: bool)
      ensures Valid() && this.width == width && this.bgr == bgr
      ensures fresh(xc1) && fresh(xc2) && fresh(xc3) && fresh(alpha)
      ensures forall i :: 0 <= i < width ==> xc1[i] == 0 && xc2[i] == 0 && xc3[i] == 0 && alpha[i] == 0
    {
      this.width := width;
      this.bgr := bgr;
      xc1 := new U32[width](_ => 0);
      xc2 := new U32[width](_ => 0);
      xc3 := new U32[width](_ => 0);
      alpha := new U32[width](_ => 0);
    }

    function Red(): array<U32>
    {
      if bgr then xc3 else xc1
    }

    function Green(): array<U32>
    {
      xc2
    }

    function Blue(): array<U32>
    {
      if bgr then xc1 else xc3
    }
  }

  /** Bytes per pixel of a packed row: grey or RGB, plus one for alpha. */
  function PixelSize(grayscale: bool, doAlpha: bool): (k: nat)
    ensures 1 <= k <= 4
  {
    if grayscale then (if doAlpha then 2 else 1) else (if doAlpha then 4 else 3)
  }

  /** A gamma table has one entry per 8-bit value. */
  predicate GammaTable(table: Option<seq<Byte>>)
  {
    table.Some? ==> |table.value| == 256
  }

  /** A colour sample through the gamma table, when there is one. */
  function Gamma(table: Option<seq<Byte>>, v: Byte): Byte
    requires GammaTable(table)
  {
    if table.Some? then table.value[v] else v
  }

  lemma PixelInRow(x: nat, width: nat, k: nat)
    requires x < width
    ensures x * k + k <= width * k
  {
    assert x * k + k == (x + 1) * k;
  }

  /** Colour channel `c` (0: xc1, 1: xc2, 2: xc3) of pixel `x` of a packed row. */
  function ColourSample(row: seq<Byte>, table: Option<seq<Byte>>, grayscale: bool, doAlpha: bool,
                        x: nat, c: nat): Byte
    requires GammaTable(table) && c < 3
    requires (x + 1) * PixelSize(grayscale, doAlpha) <= |row|
  {
    var k := PixelSize(grayscale, doAlpha);
    Gamma(table, row[x * k + (if grayscale then 0 else c)])
  }

  /** The alpha sample of pixel `x`: the last byte of the pixel, never through the gamma table. */
  function AlphaSample(row: seq<Byte>, grayscale: bool, doAlpha: bool, x: nat): Byte
    requires (x + 1) * PixelSize(grayscale, doAlpha) <= |row|
  {
    var k := PixelSize(grayscale, doAlpha);
    row[x * k + k - 1]
  }

  /**
   * raw2scanline: the first `width` pixels of the scanline are set from `row`, last pixel first;
   * alpha only when the row has it; the rest of the scanline is left as it was.
   */
  method Raw2Scanline(row: seq<Byte>, buf: Scanline, table: Option<seq<Byte>>, width: nat,
                      grayscale: bool, doAlpha: bool)
    requires buf.Valid() && width <= buf.width
    requires width * PixelSize(grayscale, doAlpha) <= |row|
    requires GammaTable(table)
    modifies buf.xc1, buf.xc2, buf.xc3, buf.alpha
    ensures forall x :: 0 <= x < width ==>
              buf.xc1[x] == ColourSample(row, table, grayscale, doAlpha, x, 0) &&
              buf.xc2[x] == ColourSample(row, table, grayscale, doAlpha, x, 1) &&
              buf.xc3[x] == ColourSample(row, table, grayscale, doAlpha, x, 2)
    ensures forall x :: 0 <= x < width && doAlpha ==> buf.alpha[x] == AlphaSample(row, grayscale, doAlpha, x)
    ensures forall x :: width <= x < buf.width ==>
              buf.xc1[x] == old(buf.xc1[x]) && buf.xc2[x] == old(buf.xc2[x]) &&
              buf.xc3[x] == old(buf.xc3[x]) && buf.alpha[x] == old(buf.alpha[x])
    ensures !doAlpha ==> buf.alpha[..] == old(buf.alpha[..])
  {
    var k := PixelSize(grayscale, doAlpha);
    var x := width;
    while x > 0
      invariant 0 <= x <= width
      invariant forall j :: x <= j < width ==>
                  (j + 1) * k <= |row| &&
                  buf.xc1[j] == ColourSample(row, table, grayscale, doAlpha, j, 0) &&
                  buf.xc2[j] == ColourSample(row, table, grayscale, doAlpha, j, 1) &&
                  buf.xc3[j] == ColourSample(row, table, grayscale, doAlpha, j, 2)
      invariant forall j :: x <= j < width && doAlpha ==> buf.alpha[j] == AlphaSample(row, grayscale, doAlpha, j)
      invariant forall j :: 0 <= j < x || width <= j < buf.width ==>
                  buf.xc1[j] == old(buf.xc1[j]) && buf.xc2[j] == old(buf.xc2[j]) &&
                  buf.xc3[j] == old(buf.xc3[j])
      invariant forall j :: 0 <= j < buf.width && (j < x || width <= j || !doAlpha) ==> buf.alpha[j] == old(buf.alpha[j])
    {
      x := x - 1;
      PixelInRow(x, width, k);
      var p := x * k;
      if doAlpha {
        buf.alpha[x] := row[p + k - 1];
      }
      if grayscale {
        var v := Gamma(table, row[p]);
        buf.xc1[x], buf.xc2[x], buf.xc3[x] := v, v, v;
      } else {
        buf.xc1[x] := Gamma(table, row[p]);
        buf.xc2[x] := Gamma(table, row[p + 1]);
        buf.xc3[x] := Gamma(table, row[p + 2]);
      }
    }
  }

  /** A pixel as the decoders see it: three colour samples and alpha. */
  datatype Rgba = Rgba(r: Byte, g: Byte, b: Byte, a: Byte)

  /** The packed colour row of a run of pixels: r g b, and a when `doAlpha`. */
  function PackRgb(pixels: seq<Rgba>, doAlpha: bool): (row: seq<Byte>)
    ensures |row| == |pixels| * PixelSize(false, doAlpha)
  {
    if pixels == [] then []
    else
      var p := pixels[0];
      (if doAlpha then [p.r, p.g, p.b, p.a] else [p.r, p.g, p.b]) + PackRgb(pixels[1..], doAlpha)
  }

  /** The packed grey row of a run of pixels (the grey level in `r`): r, and a when `doAlpha`. */
  function PackGray(pixels: seq<Rgba>, doAlpha: bool): (row: seq<Byte>)
    ensures |row| == |pixels| * PixelSize(true, doAlpha)
  {
    if pixels == [] then []
    else
      var p := pixels[0];
      (if doAlpha then [p.r, p.a] else [p.r]) + PackGray(pixels[1..], doAlpha)
  }

  /** Byte `c` of pixel `x` of a packed colour row is that pixel's component. */
  lemma {:induction false} PackRgbAt(pixels: seq<Rgba>, doAlpha: bool, x: nat, c: nat)
    requires x < |pixels| && c < PixelSize(false, doAlpha)
    ensures x * PixelSize(false, doAlpha) + c < |PackRgb(pixels, doAlpha)|
    ensures PackRgb(pixels, doAlpha)[x * PixelSize(false, doAlpha) + c] ==
              [pixels[x].r, pixels[x].g, pixels[x].b, pixels[x].a][c]
  {
    var k := PixelSize(false, doAlpha);
    PixelInRow(x, |pixels|, k);
    if x > 0 {
      PackRgbAt(pixels[1..], doAlpha, x - 1, c);
      assert x * k + c == k + ((x - 1) * k + c);
    }
  }

  /** Byte `c` of pixel `x` of a packed grey row is its grey level (c = 0) or its alpha (c = 1). */
  lemma {:induction false} PackGrayAt(pixels: seq<Rgba>, doAlpha: bool, x: nat, c: nat)
    requires x < |pixels| && c < PixelSize(true, doAlpha)
    ensures x * PixelSize(true, doAlpha) + c < |PackGray(pixels, doAlpha)|
    ensures PackGray(pixels, doAlpha)[x * PixelSize(true, doAlpha) + c] == [pixels[x].r, pixels[x].a][c]
  {
    var k := PixelSize(true, doAlpha);
    PixelInRow(x, |pixels|, k);
    if x > 0 {
      PackGrayAt(pixels[1..], doAlpha, x - 1, c);
      assert x * k + c == k + ((x - 1) * k + c);
    }
  }

  /**
   * Unpacking a packed colour row without a gamma table gives back every pixel: xc1, xc2, xc3
   * are r, g, b, and alpha is a when the row carries it.
   */
  lemma UnpackRgb(pixels: seq<Rgba>, doAlpha: bool, x: nat)
    requires x < |pixels|
    ensures var row := PackRgb(pixels, doAlpha);
            (x + 1) * PixelSize(false, doAlpha) <= |row| &&
            ColourSample(row, None, false, doAlpha, x, 0) == pixels[x].r &&
            ColourSample(row, None, false, doAlpha, x, 1) == pixels[x].g &&
            ColourSample(row, None, false, doAlpha, x, 2) == pixels[x].b &&
            (doAlpha ==> AlphaSample(row, false, doAlpha, x) == pixels[x].a)
  {
    var k := PixelSize(false, doAlpha);
    PixelInRow(x, |pixels|, k);
    PackRgbAt(pixels, doAlpha, x, 0);
    PackRgbAt(pixels, doAlpha, x, 1);
    PackRgbAt(pixels, doAlpha, x, 2);
    if doAlpha {
      PackRgbAt(pixels, doAlpha, x, 3);
    }
  }

  /** Unpacking a packed grey row puts the grey level in all three channels, and alpha in alpha. */
  lemma UnpackGray(pixels: seq<Rgba>, doAlpha: bool, x: nat)
    requires x < |pixels|
    ensures var row := PackGray(pixels, doAlpha);
            (x + 1) * PixelSize(true, doAlpha) <= |row| &&
            ColourSample(row, None, true, doAlpha, x, 0) == pixels[x].r &&
            ColourSample(row, None, true, doAlpha, x, 1) == pixels[x].r &&
            ColourSample(row, None, true, doAlpha, x, 2) == pixels[x].r &&
            (doAlpha ==> AlphaSample(row, true, doAlpha, x) == pixels[x].a)
  {
    var k := PixelSize(true, doAlpha);
    PixelInRow(x, |pixels|, k);
    PackGrayAt(pixels, doAlpha, x, 0);
    if doAlpha {
      PackGrayAt(pixels, doAlpha, x, 1);
    }
  }

  /** The identity gamma table changes nothing. */
  lemma IdentityGamma(row: seq<Byte>, grayscale: bool, doAlpha: bool, x: nat, c: nat)
    requires c < 3 && (x + 1) * PixelSize(grayscale, doAlpha) <= |row|
    ensures ColourSample(row, Some(seq(256, (v: int) requires 0 <= v < 256 => v as Byte)), grayscale, doAlpha, x, c) ==
            ColourSample(row, None, grayscale, doAlpha, x, c)
  {
  }

  /** Channel `ch` of pixel `x` as raw2scanline leaves it (red is xc1: these rows are RGB). */
  function RowSample(row: seq<Byte>, table: Option<seq<Byte>>, grayscale: bool, doAlpha: bool,
                     ch: Channel, x: nat): U32
    requires GammaTable(table) && (x + 1) * PixelSize(grayscale, doAlpha) <= |row|
  {
    match ch
    case Red => ColourSample(row, table, grayscale, doAlpha, x, 0)
    case Green => ColourSample(row, table, grayscale, doAlpha, x, 1)
    case Blue => ColourSample(row, table, grayscale, doAlpha, x, 2)
    case Alpha => AlphaSample(row, grayscale, doAlpha, x)
  }

  /** The `width` samples of channel `ch` that one packed row yields. */
  function RowLine(row: seq<Byte>, table: Option<seq<Byte>>, grayscale: bool, doAlpha: bool,
                   ch: Channel, width: nat): (line: seq<U32>)
    requires GammaTable(table) && width * PixelSize(grayscale, doAlpha) <= |row|
    ensures |line| == width
  {
    seq(width, x requires 0 <= x < width =>
      PixelInRow(x, width, PixelSize(grayscale, doAlpha));
      RowSample(row, table, grayscale, doAlpha, ch, x))
  }

  /** Lines red, green and blue of row `y` are the scanline's first `width` samples of those channels. */
  method AddColourLines(im: Image, buf: Scanline, y: nat) returns (r: Image)
    requires im.Valid() && y < im.height && buf.Valid() && im.width <= buf.width
    ensures r.Valid() && r.width == im.width && r.height == im.height
    ensures r.Line(Red, y) == Some(buf.Red()[..im.width])
    ensures r.Line(Green, y) == Some(buf.Green()[..im.width])
    ensures r.Line(Blue, y) == Some(buf.Blue()[..im.width])
    ensures forall ch, j :: 0 <= j < im.height && (j != y || ch == Alpha) ==> r.Line(ch, j) == im.Line(ch, j)
  {
    r := AddLine(im, Red, buf.Red()[..], y);
    r := AddLine(r, Green, buf.Green()[..], y);
    r := AddLine(r, Blue, buf.Blue()[..], y);
  }

  /** Some sample of the line is not fully opaque. */
  predicate Translucent(line: seq<U32>)
  {
    exists x :: 0 <= x < |line| && line[x] != 0xFF
  }

  /**
   * The alpha rule of the PNG and TIFF loaders: the alpha line of row `y` is stored only when
   * some alpha sample of the row differs from 0xFF; otherwise the image is left as it was.
   */
  method AddAlphaIfTranslucent(im: Image, buf: Scanline, y: nat) returns (r: Image)
    requires im.Valid() && y < im.height && buf.Valid() && im.width <= buf.width
    ensures r.Valid() && r.width == im.width && r.height == im.height
    ensures r.Line(Alpha, y) == if Translucent(buf.alpha[..im.width]) then Some(buf.alpha[..im.width]) else im.Line(Alpha, y)
    ensures forall ch, j :: 0 <= j < im.height && (j != y || ch != Alpha) ==> r.Line(ch, j) == im.Line(ch, j)
  {
    r := im;
    var x := 0;
    while x < im.width
      invariant x <= im.width
      invariant forall j :: 0 <= j < x ==> buf.alpha[j] == 0xFF
    {
      if buf.alpha[x] != 0xFF {
        assert buf.alpha[..im.width][x] != 0xFF;
        r := AddLine(im, Alpha, buf.alpha[..], y);
        return;
      }
      x := x + 1;
    }
  }
}
