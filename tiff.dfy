/**
 * The part of tiff2ASImage that is not libtiff: the size guard, and the unpacking of the raster
 * TIFFReadRGBAImage fills (one packed 32-bit pixel per sample, bottom row first) into lines.
 * libtiff's decoding is taken as input: the image size it reports and the raster it returns.
 */
module Tiff {
  import opened Common
  import opened Images
  import opened Scanlines

  /**
   * A TIFF file as libtiff opens it: its size and the raster TIFFReadRGBAImage fills, None when
   * that read fails. A raster holds width * height pixels, the bottom row first.
   */
  datatype TiffFile = TiffFile(width: U32, height: U32, raster: Option<seq<U32>>)
  {
    predicate Valid()
    {
      raster.Some? ==> |raster.value| == width * height
    }
  }

  /** A raster pixel: red in bits 0-7, green in 8-15, blue in 16-23, alpha in 24-31. */
  function Unpack(c: U32): Rgba
  {
    Rgba(c % 0x100, c / 0x100 % 0x100, c / 0x1_0000 % 0x100, c / 0x100_0000 % 0x100)
  }

  /** The raster pixel of four components (the TIFFGetR/G/B/A layout). */
  function Pack(p: Rgba): U32
  {
    p.r + 0x100 * p.g + 0x1_0000 * p.b + 0x100_0000 * p.a
  }

  /** Unpacking a packed pixel gives back its components. */
  lemma UnpackPack(p: Rgba)
    ensures Unpack(Pack(p)) == p
  {
    var c := Pack(p);
    assert c / 0x100 == p.g + 0x100 * p.b + 0x1_0000 * p.a;
    assert c / 0x1_0000 == p.b + 0x100 * p.a;
    assert c / 0x100_0000 == p.a;
  }

  /** Every 32-bit pixel is the packing of its components: unpacking loses nothing. */
  lemma PackUnpack(c: U32)
    ensures Pack(Unpack(c)) == c
  {
    var q1 := c / 0x100;
    var q2 := q1 / 0x100;
    var a := q2 / 0x100;
    assert c == c % 0x100 + 0x100 * q1;
    assert q1 == q1 % 0x100 + 0x100 * q2;
    assert q2 == q2 % 0x100 + 0x100 * a;
    assert c / 0x1_0000 == q2;
    assert c / 0x100_0000 == a < 0x100;
  }

  /** Channel `ch` of a pixel. */
  function Component(p: Rgba, ch: Channel): U32
  {
    match ch
    case Red => p.r
    case Green => p.g
    case Blue => p.b
    case Alpha => p.a
  }

  /** Image row `y` is raster row height-1-y: its pixels start at (height-1-y) * width. */
  lemma RowInRaster(width: nat, height: nat, y: nat, x: nat)
    requires y < height && x < width
    ensures (height - 1 - y) * width + x < width * height
  {
    MulMono(height - 1 - y + 1, height, width);
    MulSucc(height - 1 - y, width);
  }

  /** Pixel `x` of image row `y`: pixel x of raster row height-1-y. */
  function RasterPixel(raster: seq<U32>, width: nat, height: nat, y: nat, x: nat): Rgba
    requires |raster| == width * height && y < height && x < width
  {
    RowInRaster(width, height, y, x);
    Unpack(raster[(height - 1 - y) * width + x])
  }

  /** Channel `ch` of the `width` pixels of image row `y`. */
  function RasterLine(raster: seq<U32>, width: nat, height: nat, ch: Channel, y: nat): (line: seq<U32>)
    requires |raster| == width * height && y < height
    ensures |line| == width
  {
    seq(width, x requires 0 <= x < width => Component(RasterPixel(raster, width, height, y, x), ch))
  }

  /** Line `ch` of image row `y`: the alpha line only when some pixel of the row is not opaque. */
  function TiffLine(raster: seq<U32>, width: nat, height: nat, ch: Channel, y: nat): Option<seq<U32>>
    requires |raster| == width * height && y < height
  {
    var line := RasterLine(raster, width, height, ch, y);
    if ch == Alpha && !Translucent(line) then None else Some(line)
  }

  /** The image holds every line of the raster, rows flipped. */
  ghost predicate TiffDecoded(im: Image, raster: seq<U32>, width: nat, height: nat)
  {
    im.Valid() && im.width == width && im.height == height && |raster| == width * height &&
    forall ch, y :: 0 <= y < height ==> im.Line(ch, y) == TiffLine(raster, width, height, ch, y)
  }

  /** The inner loop: the pixels of raster row `row`, which is image row `y`, spread over the scanline. */
  method UnpackRow(raster: seq<U32>, height: nat, y: nat, row: nat, buf: Scanline)
    requires buf.Valid() && !buf.bgr && |raster| == buf.width * height && y < height
    requires row == (height - 1 - y) * buf.width
    modifies buf.xc1, buf.xc2, buf.xc3, buf.alpha
    ensures forall x :: 0 <= x < buf.width ==>
              buf.Red()[x] == RasterPixel(raster, buf.width, height, y, x).r &&
              buf.Green()[x] == RasterPixel(raster, buf.width, height, y, x).g &&
              buf.Blue()[x] == RasterPixel(raster, buf.width, height, y, x).b &&
              buf.alpha[x] == RasterPixel(raster, buf.width, height, y, x).a
  {
    var x := 0;
    while x < buf.width
      invariant x <= buf.width
      invariant forall j :: 0 <= j < x ==>
                  buf.xc1[j] == RasterPixel(raster, buf.width, height, y, j).r &&
                  buf.xc2[j] == RasterPixel(raster, buf.width, height, y, j).g &&
                  buf.xc3[j] == RasterPixel(raster, buf.width, height, y, j).b &&
                  buf.alpha[j] == RasterPixel(raster, buf.width, height, y, j).a
    {
      RowInRaster(buf.width, height, y, x);
      var c := raster[row + x];
      buf.alpha[x] := c / 0x100_0000 % 0x100;
      buf.xc1[x] := c % 0x100;
      buf.xc2[x] := c / 0x100 % 0x100;
      buf.xc3[x] := c / 0x1_0000 % 0x100;
      x := x + 1;
    }
  }

  /** One pass of the row loop: unpack raster row `row` and store it as image row `y`. */
  method AddRow(im: Image, buf: Scanline, raster: seq<U32>, y: nat, row: nat) returns (r: Image)
    requires im.Valid() && y < im.height && |raster| == im.width * im.height
    requires buf.Valid() && !buf.bgr && buf.width == im.width && row == (im.height - 1 - y) * im.width
    modifies buf.xc1, buf.xc2, buf.xc3, buf.alpha
    ensures r.Valid() && r.width == im.width && r.height == im.height
    ensures forall ch :: r.Line(ch, y) == if ch == Alpha && TiffLine(raster, im.width, im.height, ch, y).None?
                                          then im.Line(ch, y) else TiffLine(raster, im.width, im.height, ch, y)
    ensures forall ch, j :: 0 <= j < im.height && j != y ==> r.Line(ch, j) == im.Line(ch, j)
  {
    var w, h := im.width, im.height;
    UnpackRow(raster, h, y, row, buf);
    r := AddColourLines(im, buf, y);
    r := AddAlphaIfTranslucent(r, buf, y);
    assert buf.Red()[..w] == RasterLine(raster, w, h, Red, y);
    assert buf.Green()[..w] == RasterLine(raster, w, h, Green, y);
    assert buf.Blue()[..w] == RasterLine(raster, w, h, Blue, y);
    assert buf.alpha[..w] == RasterLine(raster, w, h, Alpha, y);
  }

  /** The size guard and the raster allocation let the loader build an image. */
  predicate Accepts(f: TiffFile, maxSize: nat, allocates: bool)
  {
    f.width < maxSize && f.height < maxSize && allocates
  }

  /**
   * What a built image holds: the file's size, no lines when the raster cannot be read, and the
   * raster's rows, bottom row last, when it can.
   */
  ghost predicate Loaded(im: Image, f: TiffFile)
  {
    im.Valid() && im.width == f.width && im.height == f.height &&
    (f.raster.None? ==> forall ch, y :: 0 <= y < im.height ==> im.Line(ch, y).None?) &&
    (f.raster.Some? ==> TiffDecoded(im, f.raster.value, f.width, f.height))
  }

  /** The body of the size guard: a fresh image of the file's size, filled row by row from the raster. */
  method Decode(f: TiffFile) returns (image: Image)
    requires f.Valid()
    ensures Loaded(image, f)
  {
    var w, h := f.width as nat, f.height as nat;
    image := Start(w, h);
    var buf := new Scanline(w, false);
    if f.raster.Some? {
      var raster := f.raster.value;
      var y, row := h, 0;
      while y > 0
        invariant y <= h && row == (h - y) * w
        invariant image.Valid() && image.width == w && image.height == h
        invariant forall ch, j :: 0 <= j < h ==> image.Line(ch, j) == if j >= y then TiffLine(raster, w, h, ch, j) else None
      {
        y := y - 1;
        image := AddRow(image, buf, raster, y, row);
        MulSucc(h - 1 - y, w);
        row := row + w;
      }
    }
  }

  /**
   * tiff2ASImage keeps its image pointer in a function-level static that is never reset: `last`
   * is that static. A call that builds an image stores it there; every call returns the static.
   */
  class TiffImporter {
    var last: Option<Image>

    /** The static before the first call: NULL. */
    constructor ()
      ensures last.None?
    {
      last := None;
    }

    /**
     * tiff2ASImage: no image when the file cannot be opened. Otherwise, when both dimensions are
     * below MAX and the raster can be allocated (`allocates`), a new image as Loaded says, which
     * becomes the static; when not, the static as an earlier call left it.
     */
    method Tiff2ASImage(file: Option<TiffFile>, maxSize: nat, allocates: bool) returns (im: Option<Image>)
      requires file.Some? ==> file.value.Valid()
      modifies this
      ensures file.None? ==> im.None? && last == old(last)
      ensures file.Some? && !Accepts(file.value, maxSize, allocates) ==> im == old(last) && last == old(last)
      ensures file.Some? && Accepts(file.value, maxSize, allocates) ==> im.Some? && Loaded(im.value, file.value) && last == im
    {
      if file.None? {
        return None;
      }
      var f := file.value;
      if f.width < maxSize && f.height < maxSize && allocates {
        var image := Decode(f);
        last := Some(image);
      }
      im := last;
    }
  }

  /**
   * The static at work: after a 1x1 file has loaded, a file too wide for the guard returns the
   * 1x1 image again, where the loader without the static returns none.
   */
  method StaleImageAfterRejection() returns (first: Option<Image>, second: Option<Image>, intended: Option<Image>)
    ensures first.Some? && first.value.width == 1 && second == first
    ensures intended.None?
  {
    var small := TiffFile(1, 1, Some([0xFF00_0000]));
    var wide := TiffFile(200, 1, None);
    var importer := new TiffImporter();
    first := importer.Tiff2ASImage(Some(small), 100, true);
    second := importer.Tiff2ASImage(Some(wide), 100, true);
    intended := FreshTiff2ASImage(Some(wide), 100, true);
  }

  /**
   * tiff2ASImage as evidently intended, with `im` a local: no image when the file cannot be
   * opened, a dimension is MAX or more or the raster cannot be allocated; otherwise the image
   * Loaded describes.
   */
  method FreshTiff2ASImage(file: Option<TiffFile>, maxSize: nat, allocates: bool) returns (im: Option<Image>)
    requires file.Some? ==> file.value.Valid()
    ensures im.Some? <==> file.Some? && Accepts(file.value, maxSize, allocates)
    ensures im.Some? ==> Loaded(im.value, file.value)
  {
    if file.None? || !Accepts(file.value, maxSize, allocates) {
      return None;
    }
    var image := Decode(file.value);
    im := Some(image);
  }

  /** A row whose pixels are all opaque (alpha 0xFF) gets no alpha line; any other row does. */
  lemma OpaqueRowsHaveNoAlpha(im: Image, raster: seq<U32>, width: nat, height: nat, y: nat)
    requires TiffDecoded(im, raster, width, height) && y < height
    ensures im.Line(Alpha, y).None? <==> forall x :: 0 <= x < width ==> RasterPixel(raster, width, height, y, x).a == 0xFF
  {
    var line := RasterLine(raster, width, height, Alpha, y);
    assert im.Line(Alpha, y) == TiffLine(raster, width, height, Alpha, y);
    if !Translucent(line) {
      forall x | 0 <= x < width
        ensures RasterPixel(raster, width, height, y, x).a == 0xFF
      {
        assert line[x] == 0xFF;
      }
    }
  }
}
