/**
 * The Windows BMP reader: read_bmp_image decodes a DIB (a 40-byte BITMAPINFOHEADER or a 12-byte
 * core header, an optional palette, rows padded to 32 bits, bottom-up unless the height is
 * negative) into the red, green and blue channels of an image; bmp2ASImage reads the file header
 * ("BM", size, reserved, offset of the rows) first. Samples are stored blue, green, red in the file,
 * so the scanline is prepared with red in xc3.
 */
module Bmp {
  import opened Common
  import opened Images
  import opened Scanlines

  /** BMP_SIGNATURE: "BM" read as a little-endian 16-bit word. */
  const BmpSignature: U16 := 0x4D42

  /** The info-header fields read_bmp_image uses. */
  datatype Info = Info(size: U32, width: U32, height: U32, planes: U16, bitCount: U16, compression: U32)

  /** Word `i` of a word read, 0 when the read did not get that far. */
  function Word32(ws: seq<U32>, i: nat): U32
  {
    if i < |ws| then ws[i] else 0
  }

  function Word16(ws: seq<U16>, i: nat): U16
  {
    if i < |ws| then ws[i] else 0
  }

  /**
   * The info-header reads: biSize, then for a 40-byte header width and height (32-bit), planes and
   * bit count (16-bit) and six 32-bit words from biCompression on, of which all six must arrive;
   * for any other size width and height (16-bit) and planes and bit count, which must both arrive,
   * with compression taken as 0. The result says whether the reads succeeded.
   */
  function ReadInfo(s: Stream): (r: (bool, Info, Stream))
    ensures r.2.data == s.data
  {
    var (size, s1) := ReadWords32(s, 1);
    if |size| == 0 then (false, Info(0, 0, 0, 0, 0, 0), s1)
    else if size[0] == 40 then
      var (wh, s2) := ReadWords32(s1, 2);
      var (pb, s3) := ReadWords16(s2, 2);
      var (rest, s4) := ReadWords32(s3, 6);
      (|rest| == 6,
       Info(40, Word32(wh, 0), Word32(wh, 1), Word16(pb, 0), Word16(pb, 1), if |rest| > 0 then rest[0] else 1),
       s4)
    else
      var (dims, s2) := ReadWords16(s1, 2);
      var (pb, s3) := ReadWords16(s2, 2);
      (|pb| == 2, Info(size[0], Word16(dims, 0), Word16(dims, 1), Word16(pb, 0), Word16(pb, 1), 0), s3)
  }

  /** The info header reads successfully exactly when the whole header is in the file. */
  lemma ReadInfoSucceeds(s: Stream)
    ensures var (ok, info, _) := ReadInfo(s);
            ok <==> (s.pos + 4 <= |s.data| &&
                     if Le32(s.data, s.pos) == 40 then s.pos + 40 <= |s.data| else s.pos + 12 <= |s.data|)
  {
    var (size, s1) := ReadWords32(s, 1);
    if s.pos + 4 <= |s.data| {
      assert s.data[s.pos..s.pos + 4][..4] == s.data[s.pos..s.pos + 4];
      assert size[0] == Le32(s.data[s.pos..s.pos + 4], 0) == Le32(s.data, s.pos);
      if size[0] == 40 {
        var (wh, s2) := ReadWords32(s1, 2);
        var (pb, s3) := ReadWords16(s2, 2);
        var (rest, s4) := ReadWords32(s3, 6);
        if s.pos + 40 > |s.data| {
          assert |rest| < 6;
        }
      }
    }
  }

  /** A complete 40-byte header gives the little-endian words at their offsets. */
  lemma LongInfoFields(s: Stream)
    requires s.pos + 40 <= |s.data| && Le32(s.data, s.pos) == 40
    ensures var (ok, info, s') := ReadInfo(s);
            var d, p := s.data, s.pos;
            ok && s'.pos == p + 40 &&
            info == Info(40, Le32(d, p + 4), Le32(d, p + 8), Le16(d, p + 12), Le16(d, p + 14), Le32(d, p + 16))
  {
    var d, p := s.data, s.pos;
    assert d[p..p + 4][..4] == d[p..p + 4];
    WordsAt32(d, p + 4, 2);
    WordsAt16(d, p + 12, 2);
    WordsAt32(d, p + 16, 6);
  }

  /** A complete 12-byte core header gives 16-bit width, height, planes and bit count, and compression 0. */
  lemma CoreInfoFields(s: Stream)
    requires s.pos + 12 <= |s.data| && Le32(s.data, s.pos) != 40
    ensures var (ok, info, s') := ReadInfo(s);
            var d, p := s.data, s.pos;
            ok && s'.pos == p + 12 &&
            info == Info(Le32(d, p), Le16(d, p + 4), Le16(d, p + 6), Le16(d, p + 8), Le16(d, p + 10), 0)
  {
    var d, p := s.data, s.pos;
    assert d[p..p + 4][..4] == d[p..p + 4];
    WordsAt16(d, p + 4, 2);
    WordsAt16(d, p + 8, 2);
  }

  /** Reading whole 32-bit words from `p` gives the little-endian words there. */
  lemma WordsAt32(d: seq<Byte>, p: nat, n: nat)
    requires p + 4 * n <= |d|
    ensures var (ws, s') := ReadWords32(Stream(d, p), n);
            s'.pos == p + 4 * n && |ws| == n && forall k :: 0 <= k < n ==> ws[k] == Le32(d, p + 4 * k)
  {
    var bytes := d[p..p + 4 * n];
    forall k | 0 <= k < n
      ensures Le32(bytes, 4 * k) == Le32(d, p + 4 * k)
    {
      assert bytes[4 * k] == d[p + 4 * k] && bytes[4 * k + 1] == d[p + 4 * k + 1];
      assert bytes[4 * k + 2] == d[p + 4 * k + 2] && bytes[4 * k + 3] == d[p + 4 * k + 3];
    }
  }

  /** Reading whole 16-bit words from `p` gives the little-endian words there. */
  lemma WordsAt16(d: seq<Byte>, p: nat, n: nat)
    requires p + 2 * n <= |d|
    ensures var (ws, s') := ReadWords16(Stream(d, p), n);
            s'.pos == p + 2 * n && |ws| == n && forall k :: 0 <= k < n ==> ws[k] == Le16(d, p + 2 * k)
  {
    var bytes := d[p..p + 2 * n];
    forall k | 0 <= k < n
      ensures Le16(bytes, 2 * k) == Le16(d, p + 2 * k)
    {
      assert bytes[2 * k] == d[p + 2 * k] && bytes[2 * k + 1] == d[p + 2 * k + 1];
    }
  }

  /** A negative height (as a signed 32-bit value) means the rows are stored top-down. */
  predicate TopDown(info: Info)
  {
    Signed32(info.height) < 0
  }

  /** The image width: the caller's, or biWidth when the caller passes 0. */
  function ImageWidth(info: Info, width: U32): U32
  {
    if width == 0 then info.width else width
  }

  /** The image height: the caller's, or the magnitude of biHeight when the caller passes 0. */
  function ImageHeight(info: Info, height: U32): (h: nat)
    ensures h < 0x1_0000_0000
  {
    if height != 0 then height else if TopDown(info) then -Signed32(info.height) else info.height
  }

  /** read_bmp_image goes on only after successful reads, no compression, and sizes at most the maximum. */
  predicate Accepted(ok: bool, info: Info, width: nat, height: nat, maxSize: nat)
  {
    ok && info.compression == 0 && width <= maxSize && height <= maxSize
  }

  /** Palette entries: 2^bpp below 16 bits per pixel, none from 16 on. */
  function CmapEntries(bpp: U16): nat
  {
    if bpp < 16 then Pow2(bpp) else 0
  }

  /** Bytes per palette entry: 4 (blue, green, red, reserved) after a 40-byte header, else 3. */
  function EntrySize(info: Info): nat
  {
    if info.size != 40 then 3 else 4
  }

  /** The whole bytes of width * bpp bits, the product taken in 32-bit unsigned arithmetic. */
  function RowBytes(width: U32, bpp: U16): nat
  {
    ((width * bpp) % 0x1_0000_0000) / 8
  }

  /** The row size read_bmp_image uses: RowBytes rounded up to a multiple of 4, at least 4. */
  function RowSize(width: U32, bpp: U16): nat
  {
    var r := RowBytes(width, bpp);
    if r == 0 then 4 else 4 * ((r + 3) / 4)
  }

  /** The row size is the least multiple of 4 that holds RowBytes and is at least 4. */
  lemma RowSizeIsAligned(width: U32, bpp: U16)
    ensures var r, rs := RowBytes(width, bpp), RowSize(width, bpp);
            rs % 4 == 0 && rs >= 4 && rs >= r && (r > 0 ==> rs < r + 4)
  {
  }

  /**
   * The row size drops a trailing partial byte before aligning: 33 one-bit pixels take 5 bytes,
   * which a 32-bit aligned row stores in 8, but the rows are read 4 bytes apart.
   */
  lemma RowSizeDropsPartialByte()
    ensures RowBytes(33, 1) == 4 && RowSize(33, 1) == 4
  {
  }

  /** Where a sample of channel `ch` sits in a blue, green, red triple (palette entry or pixel). */
  function Offset(ch: Channel): nat
    requires ch != Alpha
  {
    match ch
    case Red => 2
    case Green => 1
    case Blue => 0
  }

  /**
   * The palette index of pixel `x` of a 1-, 4- or 8-bit row: bit x mod 8 (least significant
   * first) of byte x/8; the low nibble of byte x/2 for even x and the high nibble for odd x; byte x.
   * Bytes past the row read as 0.
   */
  function PaletteIndex(row: seq<Byte>, bpp: U16, x: nat): nat
    requires bpp in {1, 4, 8}
  {
    if bpp == 1 then (if BitSet(ByteAt(row, x / 8), x % 8) then 1 else 0)
    else if bpp == 4 then
      var b := ByteAt(row, x / 2);
      if x % 2 == 1 then (b / 16) % 16 else b % 16
    else ByteAt(row, x)
  }

  /** A palette index is always one of the 2^bpp entries. */
  lemma PaletteIndexInRange(row: seq<Byte>, bpp: U16, x: nat)
    requires bpp in {1, 4, 8}
    ensures PaletteIndex(row, bpp, x) < CmapEntries(bpp)
  {
    assert Pow2(1) == 2 && Pow2(4) == 16 && Pow2(8) == 256;
  }

  /** The 16-bit pixel ending at byte `x` (x odd): c1 = byte x-1, c2 = byte x, five bits per sample. */
  function Sample16(row: seq<Byte>, x: nat, ch: Channel): Byte
    requires x >= 1 && ch != Alpha
  {
    var c1, c2 := ByteAt(row, x - 1), ByteAt(row, x);
    match ch
    case Blue => c1 % 32
    case Green => (c1 / 32) % 8 + 8 * (c2 % 4)
    case Red => (c2 / 4) % 32
  }

  /**
   * Whether decoding a row writes pixel `x`: the palette loops run over x < biWidth; the 16-bit
   * loop steps x twice a pass and writes only the odd x up to biWidth; raw rows write every pixel.
   */
  predicate Written(bpp: U16, biWidth: U32, x: nat)
  {
    if bpp in {1, 4, 8} then x < biWidth
    else if bpp == 16 then x % 2 == 1 && x <= biWidth
    else true
  }

  /** The row handed to raw2scanline, with bytes past the end of the row read as 0. */
  function Padded(row: seq<Byte>, n: nat): (p: seq<Byte>)
    ensures |p| >= n && |p| >= |row| && p[..|row|] == row
  {
    if |row| >= n then row else row + seq(n - |row|, _ => 0)
  }

  /** The parameters of the row decoding fixed by the headers. */
  datatype Decoding = Decoding(width: nat, bpp: U16, biWidth: U32, cmap: seq<Byte>, entrySize: nat,
                               table: Option<seq<Byte>>)
  {
    ghost predicate Valid()
    {
      GammaTable(table)
    }

    /** Bytes raw2scanline takes from a row. */
    function RawBytes(): nat
    {
      width * PixelSize(false, bpp == 32)
    }
  }

  /**
   * Channel `ch` of pixel `x` after a row is decoded into a scanline whose pixels all started at 0:
   * the palette colour, the 16-bit fields, or the raw sample through the gamma table; 0 for a
   * pixel the row does not write.
   */
  function Sample(row: seq<Byte>, d: Decoding, ch: Channel, x: nat): Byte
    requires d.Valid() && ch != Alpha && x < d.width
  {
    if !Written(d.bpp, d.biWidth, x) then 0
    else if d.bpp in {1, 4, 8} then ByteAt(d.cmap, PaletteIndex(row, d.bpp, x) * d.entrySize + Offset(ch))
    else if d.bpp == 16 then Sample16(row, x, ch)
    else
      PixelInRow(x, d.width, PixelSize(false, d.bpp == 32));
      ColourSample(Padded(row, d.RawBytes()), d.table, false, d.bpp == 32, x, Offset(ch))
  }

  /** The line of channel `ch` one row gives. */
  function DecodedLine(row: seq<Byte>, d: Decoding, ch: Channel): (line: seq<U32>)
    requires d.Valid() && ch != Alpha
    ensures |line| == d.width
  {
    seq(d.width, x requires 0 <= x < d.width => Sample(row, d, ch, x) as U32)
  }

  /** The alpha samples raw2scanline leaves from a 32-bit row. */
  function AlphaLine(row: seq<Byte>, d: Decoding): (line: seq<U32>)
    requires d.bpp == 32
    ensures |line| == d.width
  {
    seq(d.width, x requires 0 <= x < d.width =>
      PixelInRow(x, d.width, 4);
      AlphaSample(Padded(row, d.RawBytes()), false, true, x) as U32)
  }

  /** The scanline pixels a row with this decoding never writes are still 0. */
  ghost predicate Clean(buf: Scanline, d: Decoding)
    reads buf, buf.xc1, buf.xc2, buf.xc3
  {
    buf.Valid() && forall x :: 0 <= x < buf.width && !Written(d.bpp, d.biWidth, x) ==>
      buf.xc1[x] == 0 && buf.xc2[x] == 0 && buf.xc3[x] == 0
  }

  /** The sample of channel `ch` a blue-first scanline holds at `x`. */
  function ChannelAt(buf: Scanline, ch: Channel, x: nat): U32
    requires buf.Valid() && buf.bgr && ch != Alpha && x < buf.width
    reads buf, buf.xc1, buf.xc2, buf.xc3
  {
    match ch
    case Red => buf.xc3[x]
    case Green => buf.xc2[x]
    case Blue => buf.xc1[x]
  }

  /** One row decoded into the scanline: the switch on the bit count in read_bmp_image's row loop. */
  method DecodeRow(row: seq<Byte>, d: Decoding, buf: Scanline)
    requires d.Valid() && buf.bgr && buf.width == d.width && Clean(buf, d)
    modifies buf.xc1, buf.xc2, buf.xc3, buf.alpha
    ensures Clean(buf, d)
    ensures forall ch, x :: ch != Alpha && 0 <= x < d.width ==> ChannelAt(buf, ch, x) == Sample(row, d, ch, x)
    ensures d.bpp == 32 ==> buf.alpha[..] == AlphaLine(row, d)
    ensures d.bpp != 32 ==> buf.alpha[..] == old(buf.alpha[..])
  {
    if d.bpp in {1, 4, 8} {
      DecodePalette(row, d, buf);
    } else if d.bpp == 16 {
      Decode16(row, d, buf);
    } else {
      var padded := Padded(row, d.RawBytes());
      Raw2Scanline(padded, buf, d.table, d.width, false, d.bpp == 32);
      forall ch, x | ch != Alpha && 0 <= x < d.width
        ensures ChannelAt(buf, ch, x) == Sample(row, d, ch, x)
      {
      }
      if d.bpp == 32 {
        assert buf.alpha[..] == AlphaLine(row, d);
      }
    }
  }

  /** The 1-, 4- and 8-bit loops: each pixel below biWidth (and inside the scanline) gets its palette colour. */
  method DecodePalette(row: seq<Byte>, d: Decoding, buf: Scanline)
    requires d.Valid() && d.bpp in {1, 4, 8} && buf.bgr && buf.width == d.width && Clean(buf, d)
    modifies buf.xc1, buf.xc2, buf.xc3
    ensures Clean(buf, d)
    ensures forall ch, x :: ch != Alpha && 0 <= x < d.width ==> ChannelAt(buf, ch, x) == Sample(row, d, ch, x)
  {
    var x: nat := 0;
    while x < d.biWidth
      invariant x <= d.biWidth && Clean(buf, d)
      invariant forall ch, j :: ch != Alpha && 0 <= j < d.width && j < x ==> ChannelAt(buf, ch, j) == Sample(row, d, ch, j)
      decreases d.biWidth - x
    {
      var entry := PaletteIndex(row, d.bpp, x) * d.entrySize;
      if x < buf.width {
        buf.xc3[x] := ByteAt(d.cmap, entry + 2);
        buf.xc2[x] := ByteAt(d.cmap, entry + 1);
        buf.xc1[x] := ByteAt(d.cmap, entry);
      }
      x := x + 1;
    }
  }

  /** The 16-bit loop: x advances twice a pass, so only odd pixels are written, from bytes x-1 and x. */
  method Decode16(row: seq<Byte>, d: Decoding, buf: Scanline)
    requires d.Valid() && d.bpp == 16 && buf.bgr && buf.width == d.width && Clean(buf, d)
    modifies buf.xc1, buf.xc2, buf.xc3
    ensures Clean(buf, d)
    ensures forall ch, x :: ch != Alpha && 0 <= x < d.width ==> ChannelAt(buf, ch, x) == Sample(row, d, ch, x)
  {
    var x: nat := 0;
    while x < d.biWidth
      invariant x % 2 == 0 && x <= d.biWidth + 1 && Clean(buf, d)
      invariant forall ch, j :: ch != Alpha && 0 <= j < d.width && j < x ==> ChannelAt(buf, ch, j) == Sample(row, d, ch, j)
      decreases d.biWidth - x
    {
      var c1 := ByteAt(row, x);
      x := x + 1;
      var c2 := ByteAt(row, x);
      if x < buf.width {
        buf.xc1[x] := c1 % 32;
        buf.xc2[x] := (c1 / 32) % 8 + 8 * (c2 % 4);
        buf.xc3[x] := (c2 / 4) % 32;
      }
      x := x + 1;
    }
  }

  /** Where the rows are: the first at `off`, `rowSize` bytes apart, `height` of them. */
  datatype Rows = Rows(off: nat, rowSize: nat, topDown: bool, height: nat)
  {
    /** The row of the file that image line `y` comes from: top-down files start at line 0. */
    function RowIndex(y: nat): (r: nat)
      requires y < height
      ensures r < height
    {
      if topDown then y else height - 1 - y
    }

    /** Row `r` lies wholly inside a file of `len` bytes. */
    predicate Complete(len: nat, r: nat)
    {
      off + r * rowSize + rowSize <= len
    }

    function Row(data: seq<Byte>, r: nat): (row: seq<Byte>)
      requires Complete(|data|, r)
      ensures |row| == rowSize
    {
      data[off + r * rowSize..off + r * rowSize + rowSize]
    }
  }

  /** A row before a complete row is complete too. */
  lemma CompleteBefore(len: nat, rows: Rows, r: nat, k: nat)
    requires r <= k && rows.Complete(len, k)
    ensures rows.Complete(len, r)
  {
    MulMono(r, k, rows.rowSize);
  }

  /** The number of rows the loop reads from row `r` on: it stops at the first short row. */
  function RowsRead(len: nat, rows: Rows, r: nat): (n: nat)
    requires r <= rows.height
    ensures r <= n <= rows.height
    ensures forall k :: r <= k < n ==> rows.Complete(len, k)
    ensures n < rows.height ==> !rows.Complete(len, n)
    decreases rows.height - r
  {
    if r < rows.height && rows.Complete(len, r) then RowsRead(len, rows, r + 1) else r
  }

  /** The stream position after the row loop: past the last row, or where the short read left it. */
  function RowsEnd(len: nat, rows: Rows): nat
  {
    var n := RowsRead(len, rows, 0);
    var p := rows.off + n * rows.rowSize;
    if n == rows.height || p >= len then p else len
  }

  /** Line `y` of channel `ch`: the decoded row RowIndex(y), when the file holds it whole; never alpha. */
  function Line(data: seq<Byte>, rows: Rows, d: Decoding, ch: Channel, y: nat): Option<seq<U32>>
    requires d.Valid() && y < rows.height
  {
    var r := rows.RowIndex(y);
    if ch != Alpha && rows.Complete(|data|, r) then Some(DecodedLine(rows.Row(data, r), d, ch)) else None
  }

  /** The alpha samples left in the scanline after the loop. */
  function LeftoverAlpha(data: seq<Byte>, rows: Rows, d: Decoding): (alpha: seq<U32>)
    ensures |alpha| == d.width
  {
    AlphaAfter(data, rows, d, RowsRead(|data|, rows, 0))
  }

  /** The alpha samples in the scanline after `r` rows: the last row's when rows carry alpha, else 0. */
  function AlphaAfter(data: seq<Byte>, rows: Rows, d: Decoding, r: nat): (alpha: seq<U32>)
    ensures |alpha| == d.width
  {
    if d.bpp == 32 && r > 0 && rows.Complete(|data|, r - 1) then AlphaLine(rows.Row(data, r - 1), d)
    else seq(d.width, _ => 0)
  }

  /** The image after the rows before `r` are stored: their lines as decoded, every other line absent. */
  ghost predicate LinesBefore(im: Image, data: seq<Byte>, rows: Rows, d: Decoding, r: nat)
    requires d.Valid()
  {
    im.Valid() && im.height == rows.height &&
    forall ch, j :: 0 <= j < rows.height ==>
      im.Line(ch, j) == if rows.RowIndex(j) < r then Line(data, rows, d, ch, j) else None
  }

  /**
   * The row loop of read_bmp_image: from line 0 down (top-down) or from the last line up, one row
   * of rowSize bytes per line, stopping at the first short read.
   */
  method ReadBmpRows(s: Stream, rows: Rows, d: Decoding, buf: Scanline) returns (im: Image, rest: Stream)
    requires d.Valid() && s.pos == rows.off && rows.rowSize > 0
    requires buf.bgr && buf.width == d.width && Clean(buf, d)
    requires forall x :: 0 <= x < buf.width ==> buf.alpha[x] == 0
    modifies buf.xc1, buf.xc2, buf.xc3, buf.alpha
    ensures im.Valid() && im.width == d.width && im.height == rows.height
    ensures forall ch, y :: 0 <= y < rows.height ==> im.Line(ch, y) == Line(s.data, rows, d, ch, y)
    ensures rest == Stream(s.data, RowsEnd(|s.data|, rows))
    ensures buf.alpha[..] == LeftoverAlpha(s.data, rows, d)
  {
    var data, rs := s.data, rows.rowSize;
    im := Start(d.width, rows.height);
    rest := s;
    var direction := if rows.topDown then 1 else -1;
    var y: int := if rows.topDown then 0 else rows.height - 1;
    ghost var r: nat := 0;
    assert buf.alpha[..] == seq(d.width, _ => 0);
    while 0 <= y < rows.height
      invariant r <= rows.height && y == (if rows.topDown then r else rows.height - 1 - r)
      invariant rest == Stream(data, rows.off + r * rs)
      invariant RowsRead(|data|, rows, r) == RowsRead(|data|, rows, 0)
      invariant r > 0 ==> rows.Complete(|data|, r - 1)
      invariant Clean(buf, d) && buf.width == d.width
      invariant buf.alpha[..] == AlphaAfter(data, rows, d, r)
      invariant im.Valid() && im.width == d.width && im.height == rows.height
      invariant LinesBefore(im, data, rows, d, r)
      decreases rows.height - r
    {
      var (row, s') := rest.Read(rs);
      if |row| < rs {
        rest := s';
        NoRowsPastShortRow(data, rows, d, r);
        break;
      }
      assert row == rows.Row(data, r);
      MulSucc(r, rs);
      im := StoreRow(data, rows, d, buf, im, row, r, y);
      y := y + direction;
      r := r + 1;
      rest := s';
    }
  }

  /** One pass of the row loop: row `r` decoded into the scanline and stored as line `y`. */
  method StoreRow(data: seq<Byte>, rows: Rows, d: Decoding, buf: Scanline, im: Image, row: seq<Byte>,
                  ghost r: nat, y: nat) returns (im': Image)
    requires d.Valid() && r < rows.height && y < rows.height && rows.RowIndex(y) == r
    requires rows.Complete(|data|, r) && row == rows.Row(data, r)
    requires buf.bgr && buf.width == d.width && Clean(buf, d)
    requires im.Valid() && im.width == d.width && im.height == rows.height
    requires LinesBefore(im, data, rows, d, r)
    modifies buf.xc1, buf.xc2, buf.xc3, buf.alpha
    ensures Clean(buf, d)
    ensures buf.alpha[..] == if d.bpp == 32 then AlphaLine(row, d) else old(buf.alpha[..])
    ensures im'.Valid() && im'.width == d.width && im'.height == rows.height
    ensures LinesBefore(im', data, rows, d, r + 1)
  {
    DecodeRow(row, d, buf);
    im' := AddRgbLines(im, buf, row, d, y);
    LinesAfterRow(data, rows, d, im, im', r, y);
  }

  /** Storing row `r` as line `y` extends the lines of rows before `r` by one row. */
  lemma LinesAfterRow(data: seq<Byte>, rows: Rows, d: Decoding, im: Image, im': Image, r: nat, y: nat)
    requires d.Valid() && r < rows.height && y < rows.height && rows.RowIndex(y) == r && rows.Complete(|data|, r)
    requires im.Valid() && im'.Valid() && im.height == rows.height && im'.height == rows.height
    requires LinesBefore(im, data, rows, d, r)
    requires forall ch :: im'.Line(ch, y) == if ch != Alpha then Some(DecodedLine(rows.Row(data, r), d, ch)) else im.Line(ch, y)
    requires forall ch, j :: 0 <= j < im.height && j != y ==> im'.Line(ch, j) == im.Line(ch, j)
    ensures LinesBefore(im', data, rows, d, r + 1)
  {
    forall ch, j | 0 <= j < rows.height
      ensures im'.Line(ch, j) == if rows.RowIndex(j) < r + 1 then Line(data, rows, d, ch, j) else None
    {
      if j == y {
        assert rows.RowIndex(j) == r;
      } else {
        assert rows.RowIndex(j) != r;
      }
    }
  }

  /** The lines of every row from a short row on stay absent. */
  lemma NoRowsPastShortRow(data: seq<Byte>, rows: Rows, d: Decoding, r: nat)
    requires d.Valid() && !rows.Complete(|data|, r)
    ensures forall ch, j :: 0 <= j < rows.height && rows.RowIndex(j) >= r ==> Line(data, rows, d, ch, j).None?
  {
    forall ch, j | 0 <= j < rows.height && rows.RowIndex(j) >= r
      ensures Line(data, rows, d, ch, j).None?
    {
      if rows.Complete(|data|, rows.RowIndex(j)) {
        CompleteBefore(|data|, rows, r, rows.RowIndex(j));
      }
    }
  }

  /** The three asimage_add_line calls: red (xc3), green and blue (xc1) of the decoded row as line `y`. */
  method AddRgbLines(im: Image, buf: Scanline, row: seq<Byte>, d: Decoding, y: nat) returns (r: Image)
    requires im.Valid() && y < im.height && im.width == d.width && d.Valid()
    requires buf.Valid() && buf.bgr && buf.width == d.width
    requires forall ch, x :: ch != Alpha && 0 <= x < d.width ==> ChannelAt(buf, ch, x) == Sample(row, d, ch, x)
    ensures r.Valid() && r.width == im.width && r.height == im.height
    ensures forall ch :: r.Line(ch, y) == if ch != Alpha then Some(DecodedLine(row, d, ch)) else im.Line(ch, y)
    ensures forall ch, j :: 0 <= j < im.height && j != y ==> r.Line(ch, j) == im.Line(ch, j)
  {
    assert buf.xc3[..] == DecodedLine(row, d, Red) && buf.xc3[..][..d.width] == buf.xc3[..];
    assert buf.xc2[..] == DecodedLine(row, d, Green) && buf.xc2[..][..d.width] == buf.xc2[..];
    assert buf.xc1[..] == DecodedLine(row, d, Blue) && buf.xc1[..][..d.width] == buf.xc1[..];
    r := AddLine(im, Red, buf.xc3[..], y);
    r := AddLine(r, Green, buf.xc2[..], y);
    r := AddLine(r, Blue, buf.xc1[..], y);
  }

  /** The image holds the lines the layout's rows decode to. */
  ghost predicate Decoded(im: Image, data: seq<Byte>, l: Layout)
  {
    l.d.Valid() && im.Valid() && im.width == l.d.width && im.height == l.rows.height &&
    forall ch, y :: 0 <= y < l.rows.height ==> im.Line(ch, y) == Line(data, l.rows, l.d, ch, y)
  }

  /** What the headers fix: whether the reads succeeded, the info header, the decoding and the rows. */
  datatype Layout = Layout(ok: bool, info: Info, d: Decoding, rows: Rows)

  /**
   * read_bmp_image up to its row loop: the info header, the image size, the palette read after the
   * header, and the rows at `dataOffset` (past the palette when `addColormap`).
   */
  function ReadLayout(s: Stream, dataOffset: nat, table: Option<seq<Byte>>, width: U32, height: U32,
                      addColormap: bool): (l: Layout)
    requires GammaTable(table)
    ensures l.d.Valid() && l.rows.rowSize > 0
  {
    var (ok, info, s1) := ReadInfo(s);
    var w := ImageWidth(info, width);
    var entries, es := CmapEntries(info.bitCount), EntrySize(info);
    var (cmap, _) := s1.Read(entries * es);
    var off := dataOffset + (if addColormap then entries * es else 0);
    Layout(ok, info, Decoding(w, info.bitCount, info.width, cmap, es, table),
           Rows(off, RowSize(w, info.bitCount), TopDown(info), ImageHeight(info, height)))
  }

  /**
   * read_bmp_image: None unless the headers are accepted; otherwise the image of the decoded rows,
   * the scanline it used (its alpha as the loop left it) and the stream after the rows.
   */
  method ReadBmpImage(s: Stream, dataOffset: nat, table: Option<seq<Byte>>, width: U32, height: U32,
                      addColormap: bool, maxSize: nat) returns (im: Option<Image>, buf: Scanline, rest: Stream)
    requires GammaTable(table)
    ensures fresh(buf) && fresh(buf.alpha) && buf.Valid()
    ensures var l := ReadLayout(s, dataOffset, table, width, height, addColormap);
            (im.Some? <==> Accepted(l.ok, l.info, l.d.width, l.rows.height, maxSize)) &&
            (im.Some? ==>
               Decoded(im.value, s.data, l) && rest == Stream(s.data, RowsEnd(|s.data|, l.rows)) &&
               buf.width == l.d.width && buf.alpha[..] == LeftoverAlpha(s.data, l.rows, l.d))
  {
    var (ok, info, s1) := ReadInfo(s);
    var w, h := ImageWidth(info, width), ImageHeight(info, height);
    ghost var l := ReadLayout(s, dataOffset, table, width, height, addColormap);
    assert l.ok == ok && l.info == info && l.d.width == w && l.rows.height == h;
    if !Accepted(ok, info, w, h, maxSize) {
      buf := new Scanline(0, true);
      return None, buf, s1;
    }
    var entries, es := CmapEntries(info.bitCount), EntrySize(info);
    var (cmap, s2) := s1.Read(entries * es);
    var off := dataOffset + (if addColormap then entries * es else 0);
    var d := Decoding(w, info.bitCount, info.width, cmap, es, table);
    var rows := Rows(off, RowSize(w, info.bitCount), TopDown(info), h);
    assert l.d == d && l.rows == rows;
    buf := new Scanline(w, true);
    var image;
    image, rest := ReadBmpRows(s2.Seek(off), rows, d, buf);
    im := Some(image);
  }

  /** The file header reads: the signature, then bfSize, bfReserved and bfOffBits; the row offset when all arrived. */
  function ReadFileHeader(data: seq<Byte>): (r: (Option<U32>, Stream))
    ensures r.1.data == data
  {
    var (t, s1) := ReadWords16(Stream(data, 0), 1);
    if |t| == 1 && t[0] == BmpSignature then
      var (ws, s2) := ReadWords32(s1, 3);
      if |ws| == 3 then (Some(ws[2]), s2) else (None, s2)
    else (None, s1)
  }

  /** The file header is accepted exactly when the file starts "BM" and holds 14 bytes; bfOffBits is at 10. */
  lemma FileHeaderFields(data: seq<Byte>)
    ensures var (off, s) := ReadFileHeader(data);
            (off.Some? <==> |data| >= 14 && Le16(data, 0) == BmpSignature) &&
            (off.Some? ==> off.value == Le32(data, 10) && s.pos == 14)
  {
    if |data| >= 2 {
      WordsAt16(data, 0, 1);
      if |data| >= 14 {
        WordsAt32(data, 2, 3);
      }
    }
  }

  /** bmp2ASImage: the file header, then read_bmp_image at bfOffBits with the size taken from the header. */
  method Bmp2ASImage(file: Option<seq<Byte>>, table: Option<seq<Byte>>, maxSize: nat) returns (im: Option<Image>)
    requires GammaTable(table)
    ensures file.None? ==> im.None?
    ensures file.Some? ==>
              var (off, s) := ReadFileHeader(file.value);
              (off.None? ==> im.None?) &&
              (off.Some? ==>
                 var l := ReadLayout(s, off.value, table, 0, 0, false);
                 (im.Some? <==> Accepted(l.ok, l.info, l.d.width, l.rows.height, maxSize)) &&
                 (im.Some? ==> Decoded(im.value, file.value, l)))
  {
    if file.None? {
      return None;
    }
    var (off, s) := ReadFileHeader(file.value);
    if off.None? {
      return None;
    }
    var buf, rest;
    im, buf, rest := ReadBmpImage(s, off.value, table, 0, 0, false, maxSize);
  }

  /** The colour sample of channel `ch` of a pixel. */
  function Colour(p: Rgba, ch: Channel): Byte
    requires ch != Alpha
  {
    match ch
    case Red => p.r
    case Green => p.g
    case Blue => p.b
  }

  /** A palette as a BMP file stores it: blue, green, red per entry, then a reserved byte with 4-byte entries. */
  function PackPalette(pal: seq<Rgba>, es: nat): (cmap: seq<Byte>)
    requires es in {3, 4}
    ensures |cmap| == |pal| * es
  {
    if pal == [] then []
    else
      var p := pal[0];
      (if es == 4 then [p.b, p.g, p.r, p.a] else [p.b, p.g, p.r]) + PackPalette(pal[1..], es)
  }

  /** Byte `c` of entry `e` of a stored palette is that entry's blue, green, red or reserved byte. */
  lemma {:induction false} PackPaletteAt(pal: seq<Rgba>, es: nat, e: nat, c: nat)
    requires es in {3, 4} && e < |pal| && c < es
    ensures e * es + c < |PackPalette(pal, es)|
    ensures PackPalette(pal, es)[e * es + c] == [pal[e].b, pal[e].g, pal[e].r, pal[e].a][c]
  {
    MulSucc(e, es);
    MulMono(e + 1, |pal|, es);
    if e > 0 {
      PackPaletteAt(pal[1..], es, e - 1, c);
      MulSucc(e - 1, es);
    }
  }

  /**
   * Palette rows decode to the palette's colours: with the palette stored as the file stores it,
   * each pixel below biWidth gets the red, green and blue of the entry its index names (pixels
   * from biWidth on stay 0, as Sample says of every pixel a row does not write).
   */
  lemma PaletteRoundTrip(row: seq<Byte>, d: Decoding, pal: seq<Rgba>, ch: Channel, x: nat)
    requires d.Valid() && d.bpp in {1, 4, 8} && d.entrySize in {3, 4}
    requires d.cmap == PackPalette(pal, d.entrySize) && |pal| >= CmapEntries(d.bpp)
    requires ch != Alpha && x < d.width && x < d.biWidth
    ensures PaletteIndex(row, d.bpp, x) < |pal|
    ensures Sample(row, d, ch, x) == Colour(pal[PaletteIndex(row, d.bpp, x)], ch)
  {
    PaletteColour(row, d.bpp, d.cmap, d.entrySize, pal, ch, x);
    PaletteSample(row, d, ch, x);
  }

  /** The palette bytes a pixel's index selects are that entry's colour. */
  lemma PaletteColour(row: seq<Byte>, bpp: U16, cmap: seq<Byte>, es: nat, pal: seq<Rgba>, ch: Channel, x: nat)
    requires bpp in {1, 4, 8} && es in {3, 4}
    requires cmap == PackPalette(pal, es) && |pal| >= CmapEntries(bpp)
    requires ch != Alpha
    ensures PaletteIndex(row, bpp, x) < |pal|
    ensures ByteAt(cmap, PaletteIndex(row, bpp, x) * es + Offset(ch)) == Colour(pal[PaletteIndex(row, bpp, x)], ch)
  {
    var e, c := PaletteIndex(row, bpp, x), Offset(ch);
    PaletteIndexInRange(row, bpp, x);
    PaletteLookup(cmap, pal, es, e, c);
    assert [pal[e].b, pal[e].g, pal[e].r, pal[e].a][c] == Colour(pal[e], ch);
  }

  /** Looking up byte `c` of entry `e` of a stored palette. */
  lemma PaletteLookup(cmap: seq<Byte>, pal: seq<Rgba>, es: nat, e: nat, c: nat)
    requires es in {3, 4} && cmap == PackPalette(pal, es) && e < |pal| && c < es
    ensures ByteAt(cmap, e * es + c) == [pal[e].b, pal[e].g, pal[e].r, pal[e].a][c]
  {
    PackPaletteAt(pal, es, e, c);
  }

  /** A palette pixel below biWidth takes its sample from the palette entry its index names. */
  lemma PaletteSample(row: seq<Byte>, d: Decoding, ch: Channel, x: nat)
    requires d.Valid() && d.bpp in {1, 4, 8} && ch != Alpha && x < d.width && x < d.biWidth
    ensures Sample(row, d, ch, x) == ByteAt(d.cmap, PaletteIndex(row, d.bpp, x) * d.entrySize + Offset(ch))
  {
  }

  /** Pixels stored blue first, as 24- and 32-bit rows hold them. */
  function PackBgr(pixels: seq<Rgba>, doAlpha: bool): (row: seq<Byte>)
    ensures |row| == |pixels| * PixelSize(false, doAlpha)
  {
    PackRgb(seq(|pixels|, i requires 0 <= i < |pixels| => Rgba(pixels[i].b, pixels[i].g, pixels[i].r, pixels[i].a)), doAlpha)
  }

  /**
   * 24- and 32-bit rows decode to their pixels: without a gamma table, a row of blue, green, red
   * (and alpha) gives back every pixel's colour, and 32-bit rows leave its alpha in the scanline.
   */
  lemma RawRoundTrip(pixels: seq<Rgba>, d: Decoding)
    requires d.bpp in {24, 32} && d.table.None? && d.width == |pixels|
    ensures var row := PackBgr(pixels, d.bpp == 32);
            (forall ch :: ch != Alpha ==>
               DecodedLine(row, d, ch) == seq(|pixels|, x requires 0 <= x < |pixels| => Colour(pixels[x], ch) as U32)) &&
            (d.bpp == 32 ==> AlphaLine(row, d) == seq(|pixels|, x requires 0 <= x < |pixels| => pixels[x].a as U32))
  {
    var doAlpha := d.bpp == 32;
    var swapped := seq(|pixels|, i requires 0 <= i < |pixels| => Rgba(pixels[i].b, pixels[i].g, pixels[i].r, pixels[i].a));
    var row := PackBgr(pixels, doAlpha);
    assert Padded(row, d.RawBytes()) == row;
    forall x | 0 <= x < |pixels|
      ensures Sample(row, d, Red, x) == pixels[x].r && Sample(row, d, Green, x) == pixels[x].g
      ensures Sample(row, d, Blue, x) == pixels[x].b
      ensures doAlpha ==> AlphaSample(row, false, true, x) == pixels[x].a
    {
      UnpackRgb(swapped, doAlpha, x);
    }
  }

  /**
   * The 16-bit fields are five bits each: the little-endian word b + 32 g + 1024 r (each below 32)
   * stored at bytes x-1 and x decodes to r, g and b.
   */
  lemma Rgb555RoundTrip(r: nat, g: nat, b: nat, row: seq<Byte>, x: nat)
    requires r < 32 && g < 32 && b < 32 && 1 <= x < |row|
    requires row[x - 1] as int + 256 * row[x] as int == b + 32 * g + 1024 * r
    ensures Sample16(row, x, Red) == r && Sample16(row, x, Green) == g && Sample16(row, x, Blue) == b
  {
    var c1, c2 := row[x - 1] as int, row[x] as int;
    assert c1 == b + 32 * (g % 8) && c2 == g / 8 + 4 * r;
  }

  /** Pixel 0 of a 1-bit row is the least significant bit of the first byte, pixel 7 the most significant. */
  lemma OneBitLeastSignificantFirst()
    ensures PaletteIndex([0x01], 1, 0) == 1 && PaletteIndex([0x01], 1, 7) == 0
    ensures PaletteIndex([0x80], 1, 0) == 0 && PaletteIndex([0x80], 1, 7) == 1
  {
    assert Pow2(7) == 128;
  }

  /** Pixel 0 of a 4-bit row is the low nibble of the first byte, pixel 1 the high nibble. */
  lemma FourBitLowNibbleFirst()
    ensures PaletteIndex([0x12], 4, 0) == 2 && PaletteIndex([0x12], 4, 1) == 1
  {
  }

  /** A 16-bit row leaves every even pixel at 0 and writes the pixel in bytes 2p, 2p+1 at column 2p+1. */
  lemma SixteenBitOddColumns(row: seq<Byte>, d: Decoding, ch: Channel, x: nat)
    requires d.Valid() && d.bpp == 16 && ch != Alpha && x < d.width
    ensures x % 2 == 0 ==> Sample(row, d, ch, x) == 0
    ensures x % 2 == 1 && x <= d.biWidth ==> Sample(row, d, ch, x) == Sample16(row, x, ch)
  {
  }
}
