/**
 * The Windows ICO/CUR reader (ico2ASImage): the icon directory names the first image's size,
 * palette size and offset; the image itself is a DIB read by read_bmp_image with that size, and
 * the AND mask that follows its rows gives the alpha channel, bottom row first, most significant
 * bit first: a set bit is a transparent pixel.
 */
module Ico {
  import opened Common
  import opened Images
  import opened Scanlines
  import Bmp

  /** The fields of the first directory entry that ico2ASImage uses. */
  datatype Entry = Entry(width: Byte, height: Byte, colorCount: Byte, imageOffset: U32)

  /**
   * The directory reads: idReserved, idType and idCount (16-bit), where idType must be 1 (icon) or
   * 2 (cursor); then bWidth, bHeight, bColorCount and bReserved (bytes), wPlanes and wBitCount
   * (16-bit), and dwBytesInRes and dwImageOffset (32-bit), both of which must arrive.
   */
  function ReadDirectory(data: seq<Byte>): Option<Entry>
  {
    var (dir, s1) := ReadWords16(Stream(data, 0), 3);
    if |dir| == 3 && (dir[1] == 1 || dir[1] == 2) then
      var (bytes, s2) := s1.Read(4);
      var (planes, s3) := ReadWords16(s2, 2);
      var (res, _) := ReadWords32(s3, 2);
      if |res| == 2 then Some(Entry(ByteAt(bytes, 0), ByteAt(bytes, 1), ByteAt(bytes, 2), res[1])) else None
    else None
  }

  /**
   * The directory is accepted exactly when the file holds its first 22 bytes and idType is 1 or 2;
   * the entry's size and palette size are bytes 6, 7 and 8, and the image offset the word at 18.
   */
  lemma DirectoryFields(data: seq<Byte>)
    ensures ReadDirectory(data).Some? <==> |data| >= 22 && Le16(data, 2) in {1, 2}
    ensures ReadDirectory(data).Some? ==>
              ReadDirectory(data).value == Entry(data[6], data[7], data[8], Le32(data, 18))
  {
    if |data| >= 6 {
      Bmp.WordsAt16(data, 0, 3);
      if |data| >= 22 {
        Bmp.WordsAt16(data, 10, 2);
        Bmp.WordsAt32(data, 14, 2);
      }
    }
  }

  /** mask_bytes: one byte per 8 pixels of the icon width, at most the 8 bytes of and_mask. */
  function MaskBytes(width: Byte): nat
  {
    if width / 8 > 8 then 8 else width / 8
  }

  /**
   * The alpha line of a mask row: 0 where bit 7 - x mod 8 of byte x/8 is set, 0xFF elsewhere;
   * bytes past those read (never filled, or past and_mask) count as 0.
   */
  function MaskLine(mask: seq<Byte>, width: nat): (line: seq<U32>)
    ensures |line| == width
  {
    seq(width, x requires 0 <= x < width => if BitSet(ByteAt(mask, x / 8), 7 - x % 8) then 0 else 0xFF)
  }

  /** The first pixel of a mask row is the most significant bit of its first byte. */
  lemma MaskMostSignificantFirst()
    ensures MaskLine([0x80], 8) == [0, 0xFF, 0xFF, 0xFF, 0xFF, 0xFF, 0xFF, 0xFF]
    ensures MaskLine([0x01], 8) == [0xFF, 0xFF, 0xFF, 0xFF, 0xFF, 0xFF, 0xFF, 0]
  {
    assert Pow2(7) == 128;
  }

  /**
   * Pixels past the bytes read are opaque: the last width mod 8 pixels of a row, and every pixel
   * from 64 on, whatever the file says about them.
   */
  lemma MaskTailOpaque(mask: seq<Byte>, width: Byte, x: nat)
    requires |mask| == MaskBytes(width) && x < width && x >= 8 * MaskBytes(width)
    ensures MaskLine(mask, width)[x] == 0xFF
  {
    assert ByteAt(mask, x / 8) == 0;
  }

  /** Where the AND mask is: from `start`, `rowBytes` bytes a row, `height` rows from the bottom line up. */
  datatype Mask = Mask(start: nat, rowBytes: nat, height: nat)
  {
    /** Mask row `j` is read whole (a zero-byte read never falls short). */
    predicate Complete(len: nat, j: nat)
    {
      rowBytes == 0 || start + j * rowBytes + rowBytes <= len
    }

    function Row(data: seq<Byte>, j: nat): (row: seq<Byte>)
      requires Complete(|data|, j)
      ensures |row| == rowBytes
    {
      if rowBytes == 0 then [] else data[start + j * rowBytes..start + j * rowBytes + rowBytes]
    }
  }

  /**
   * The alpha line `y` of the icon: mask row height-1-y when it is read whole, as the mask gives it
   * when the icon states its width, or the alpha the image rows left when the width byte is 0.
   */
  function AlphaLine(data: seq<Byte>, m: Mask, width: Byte, leftover: seq<U32>, y: nat): Option<seq<U32>>
  {
    if y < m.height && m.Complete(|data|, m.height - 1 - y) then
      Some(if width > 0 then MaskLine(m.Row(data, m.height - 1 - y), width) else leftover)
    else None
  }

  /** A mask row before a complete mask row is complete too. */
  lemma MaskCompleteBefore(len: nat, m: Mask, j: nat, k: nat)
    requires j <= k && m.Complete(len, k)
    ensures m.Complete(len, j)
  {
    MulMono(j, k, m.rowBytes);
  }

  /** The mask loop has stored the alpha lines of the rows from `y` up, the others as before. */
  ghost predicate AlphaFrom(im: Image, im0: Image, data: seq<Byte>, m: Mask, width: Byte, leftover: seq<U32>, y: int)
  {
    im.Valid() && im0.Valid() && im.width == im0.width && im.height == im0.height && m.height <= im.height &&
    (forall ch, j :: 0 <= j < im.height && ch != Alpha ==> im.Line(ch, j) == im0.Line(ch, j)) &&
    (forall j :: 0 <= j < im.height ==>
       im.Line(Alpha, j) == if y < j < m.height then AlphaLine(data, m, width, leftover, j) else im0.Line(Alpha, j))
  }

  /**
   * The mask loop of ico2ASImage: from the bottom line up, mask_bytes bytes into and_mask (stopping
   * at a short read), then the alpha of each of the `width` pixels, stored as that line's alpha.
   */
  method ReadMask(s: Stream, m: Mask, width: Byte, buf: Scanline, im: Image) returns (im': Image)
    requires s.pos == m.start && m.rowBytes == MaskBytes(width) && m.rowBytes <= 8
    requires buf.Valid() && im.Valid() && buf.width == im.width && m.height <= im.height
    requires width > 0 ==> buf.width == width
    requires forall y :: 0 <= y < im.height ==> im.Line(Alpha, y).None?
    modifies buf.alpha
    ensures AlphaFrom(im', im, s.data, m, width, old(buf.alpha[..]), -1)
  {
    var data, mb := s.data, m.rowBytes;
    ghost var leftover := buf.alpha[..];
    var andMask := new Byte[8](_ => 0);
    var rest := s;
    var y: int := m.height - 1;
    im' := im;
    while y >= 0
      invariant -1 <= y < m.height && rest == Stream(data, m.start + (m.height - 1 - y) * mb)
      invariant forall i :: mb <= i < 8 ==> andMask[i] == 0
      invariant width == 0 ==> buf.alpha[..] == leftover
      invariant AlphaFrom(im', im, data, m, width, leftover, y)
      decreases y
    {
      var (bytes, s') := rest.Read(mb);
      if |bytes| < mb {
        ShortMaskRow(im', im, data, m, width, leftover, y);
        break;
      }
      assert bytes == m.Row(data, m.height - 1 - y);
      im' := StoreMaskRow(andMask, bytes, data, m, width, buf, leftover, im, im', y);
      MulSucc(m.height - 1 - y, mb);
      rest := s';
      y := y - 1;
    }
  }

  /** After a short mask read at line `y`, no line from `y` down has a mask row. */
  lemma ShortMaskRow(im': Image, im: Image, data: seq<Byte>, m: Mask, width: Byte, leftover: seq<U32>, y: nat)
    requires y < m.height && !m.Complete(|data|, m.height - 1 - y)
    requires AlphaFrom(im', im, data, m, width, leftover, y)
    requires forall j :: 0 <= j < im.height ==> im.Line(Alpha, j).None?
    ensures AlphaFrom(im', im, data, m, width, leftover, -1)
  {
    forall k | 0 <= k <= y
      ensures AlphaLine(data, m, width, leftover, k).None?
    {
      if m.Complete(|data|, m.height - 1 - k) {
        MaskCompleteBefore(|data|, m, m.height - 1 - y, m.height - 1 - k);
      }
    }
  }

  /** One pass of the mask loop: the row's bytes into and_mask, its alpha into the scanline, stored as line `y`. */
  method StoreMaskRow(andMask: array<Byte>, bytes: seq<Byte>, ghost data: seq<Byte>, ghost m: Mask, width: Byte,
                      buf: Scanline, ghost leftover: seq<U32>, ghost im0: Image, im: Image, y: nat) returns (im': Image)
    requires y < m.height && m.Complete(|data|, m.height - 1 - y) && bytes == m.Row(data, m.height - 1 - y)
    requires andMask.Length == 8 && |bytes| <= 8 && forall i :: |bytes| <= i < 8 ==> andMask[i] == 0
    requires buf.Valid() && buf.width == im.width && (width > 0 ==> buf.width == width)
    requires width == 0 ==> buf.alpha[..] == leftover
    requires AlphaFrom(im, im0, data, m, width, leftover, y)
    modifies andMask, buf.alpha
    ensures forall i :: |bytes| <= i < 8 ==> andMask[i] == 0
    ensures width == 0 ==> buf.alpha[..] == leftover
    ensures AlphaFrom(im', im0, data, m, width, leftover, y - 1)
  {
    forall i | 0 <= i < |bytes| {
      andMask[i] := bytes[i];
    }
    assert forall i :: 0 <= i < 8 ==> andMask[i] == ByteAt(bytes, i);
    MaskRow(andMask, bytes, width, buf);
    assert buf.alpha[..][..im.width] == buf.alpha[..];
    if width > 0 {
      assert buf.alpha[..] == MaskLine(m.Row(data, m.height - 1 - y), width);
    } else {
      assert buf.alpha[..] == leftover;
    }
    assert Some(buf.alpha[..]) == AlphaLine(data, m, width, leftover, y);
    im' := AddLine(im, Alpha, buf.alpha[..], y);
  }

  /** The pixel loop of one mask row: alpha 0 for a set AND bit, 0xFF otherwise, for each of `width` pixels. */
  method MaskRow(andMask: array<Byte>, bytes: seq<Byte>, width: Byte, buf: Scanline)
    requires andMask.Length == 8 && forall i :: 0 <= i < 8 ==> andMask[i] == ByteAt(bytes, i)
    requires buf.Valid() && (width > 0 ==> buf.width == width) && |bytes| <= 8
    modifies buf.alpha
    ensures width > 0 ==> buf.alpha[..] == MaskLine(bytes, width)
    ensures width == 0 ==> buf.alpha[..] == old(buf.alpha[..])
  {
    var x := 0;
    while x < width
      invariant x <= width
      invariant forall k :: 0 <= k < x ==> buf.alpha[k] == MaskLine(bytes, width)[k]
      invariant forall k :: x <= k < buf.width ==> buf.alpha[k] == old(buf.alpha[k])
    {
      var b := if x / 8 < 8 then andMask[x / 8] else 0;
      buf.alpha[x] := if BitSet(b, 7 - x % 8) then 0 else 0xFF;
      x := x + 1;
    }
  }

  /** The image layout ico2ASImage asks read_bmp_image for: the entry's size, rows past the header and palette. */
  function Layout(data: seq<Byte>, e: Entry, table: Option<seq<Byte>>): (l: Bmp.Layout)
    requires GammaTable(table)
    ensures l.d.Valid() && l.rows.rowSize > 0
  {
    Bmp.ReadLayout(Stream(data, e.imageOffset), e.imageOffset + 40 + e.colorCount * 4, table,
                   e.width, e.height, e.colorCount == 0)
  }

  /** Where the AND mask is read: right after the image rows, MaskBytes(width) bytes for each of `height` lines. */
  function MaskOf(data: seq<Byte>, e: Entry, l: Bmp.Layout): Mask
  {
    Mask(Bmp.RowsEnd(|data|, l.rows), MaskBytes(e.width), e.height)
  }

  /** Line `y` of channel `ch` of the icon: the DIB's colour lines, the mask's alpha lines. */
  function IcoLine(data: seq<Byte>, e: Entry, l: Bmp.Layout, ch: Channel, y: nat): Option<seq<U32>>
    requires l.d.Valid() && y < l.rows.height
  {
    if ch == Alpha then AlphaLine(data, MaskOf(data, e, l), e.width, Bmp.LeftoverAlpha(data, l.rows, l.d), y)
    else Bmp.Line(data, l.rows, l.d, ch, y)
  }

  /** The image holds the icon's lines. */
  ghost predicate IcoDecoded(im: Image, data: seq<Byte>, e: Entry, l: Bmp.Layout)
  {
    l.d.Valid() && im.Valid() && im.width == l.d.width && im.height == l.rows.height &&
    forall ch, y :: 0 <= y < l.rows.height ==> im.Line(ch, y) == IcoLine(data, e, l, ch, y)
  }

  /** The mask loop over the decoded DIB gives the icon's lines. */
  lemma MaskedImage(data: seq<Byte>, e: Entry, l: Bmp.Layout, bmp: Image, im: Image, leftover: seq<U32>)
    requires Bmp.Decoded(bmp, data, l) && leftover == Bmp.LeftoverAlpha(data, l.rows, l.d)
    requires AlphaFrom(im, bmp, data, MaskOf(data, e, l), e.width, leftover, -1)
    ensures IcoDecoded(im, data, e, l)
  {
    forall ch, y | 0 <= y < l.rows.height
      ensures im.Line(ch, y) == IcoLine(data, e, l, ch, y)
    {
      if ch == Alpha && y >= MaskOf(data, e, l).height {
        assert bmp.Line(Alpha, y) == Bmp.Line(data, l.rows, l.d, Alpha, y);
      }
    }
  }

  /**
   * ico2ASImage: the directory, then read_bmp_image at dwImageOffset (an image without a palette
   * count takes its palette from after the header); the colour lines are the DIB's, the alpha
   * lines come from the AND mask.
   */
  method Ico2ASImage(file: Option<seq<Byte>>, table: Option<seq<Byte>>, maxSize: nat) returns (im: Option<Image>)
    requires GammaTable(table)
    ensures file.None? ==> im.None?
    ensures file.Some? ==>
              var data := file.value;
              (ReadDirectory(data).None? ==> im.None?) &&
              (ReadDirectory(data).Some? ==>
                 var e := ReadDirectory(data).value;
                 var l := Layout(data, e, table);
                 (im.Some? <==> Bmp.Accepted(l.ok, l.info, l.d.width, l.rows.height, maxSize)) &&
                 (im.Some? ==> IcoDecoded(im.value, data, e, l)))
  {
    if file.None? {
      return None;
    }
    var data := file.value;
    var entry := ReadDirectory(data);
    if entry.None? {
      return None;
    }
    var e := entry.value;
    var s, offset := Stream(data, e.imageOffset), e.imageOffset + 40 + e.colorCount * 4;
    ghost var l := Bmp.ReadLayout(s, offset, table, e.width, e.height, e.colorCount == 0);
    assert l == Layout(data, e, table);
    var bmp, buf, rest := Bmp.ReadBmpImage(s, offset, table, e.width, e.height, e.colorCount == 0, maxSize);
    if bmp.None? {
      return None;
    }
    ghost var leftover := buf.alpha[..];
    var m := Mask(rest.pos, MaskBytes(e.width), e.height);
    assert m == MaskOf(data, e, l);
    var image := ReadMask(rest, m, e.width, buf, bmp.value);
    MaskedImage(data, e, l, bmp.value, image, leftover);
    im := Some(image);
  }
}
