/**
 * ppm2ASImage: the binary PNM reader. The header is read line by line with fgets (at most 70
 * bytes a line): the magic "P5", "P6" or "P8", then, skipping lines that start with '#', a line
 * with the width and height and a line with the maximum sample value. The rows that follow are
 * packed grey (P5), RGB (P6) or RGBA (P8) bytes.
 */
module Ppm {
  import opened Common
  import opened CString
  import opened Scanlines
  import opened Images

  /** PPM_BUFFER_SIZE: fgets keeps at most 70 bytes of a line. */
  const PpmBufferSize: nat := 71
  const Newline: Byte := 10

  /** How many bytes fgets takes from `pos`: through the first newline, at most `max`, or to the end. */
  function LineLength(data: seq<Byte>, pos: nat, max: nat): (n: nat)
    requires pos <= |data|
    ensures pos + n <= |data| && n <= max
    ensures pos < |data| && max > 0 ==> n >= 1
    decreases max
  {
    if max == 0 || pos == |data| then 0
    else if data[pos] == Newline then 1
    else 1 + LineLength(data, pos + 1, max - 1)
  }

  /** fgets(buffer, size, fp): None at the end of the file, else the line read and the stream after it. */
  function FGets(s: Stream, size: nat): (r: Option<(seq<Byte>, Stream)>)
    requires size >= 2
    ensures r.None? <==> s.pos >= |s.data|
    ensures r.Some? ==> 1 <= |r.value.0| <= size - 1 && r.value.1.data == s.data &&
                        r.value.1.pos == s.pos + |r.value.0| <= |s.data| &&
                        r.value.0 == s.data[s.pos..r.value.1.pos]
  {
    if s.pos >= |s.data| then None
    else
      var n := LineLength(s.data, s.pos, size - 1);
      Some((s.data[s.pos..s.pos + n], Stream(s.data, s.pos + n)))
  }

  /** The first NUL or white-space byte of `line` at or after `i`. */
  function TokenEnd(line: seq<Byte>, i: nat): (j: nat)
    requires i <= |line|
    ensures i <= j <= |line|
    decreases |line| - i
  {
    if ByteAt(line, i) != 0 && !IsSpace(ByteAt(line, i)) then TokenEnd(line, i + 1) else i
  }

  /** The first byte of `line` at or after `i` that is not white space. */
  function SpaceEnd(line: seq<Byte>, i: nat): (j: nat)
    requires i <= |line|
    ensures i <= j <= |line|
    decreases |line| - i
  {
    if IsSpace(ByteAt(line, i)) then SpaceEnd(line, i + 1) else i
  }

  /** A size line: the width from its start, the height from its second token when there is one. */
  function SizeLine(line: seq<Byte>, height: U32): (U32, U32)
  {
    var i := SpaceEnd(line, TokenEnd(line, 0));
    (ToUnsigned(Atoi(line)), if ByteAt(line, i) != 0 then ToUnsigned(Atoi(line[i..])) else height)
  }

  function Remaining(s: Stream): nat
  {
    if s.pos <= |s.data| then |s.data| - s.pos else 0
  }

  /**
   * The lines after the magic: comment lines are skipped; a line read while the width is still 0
   * sets width (and height); the first line read once the width is set gives the colour count.
   * The result is width, height, colour count and the stream after the last line read.
   */
  function ScanSizes(s: Stream, width: U32, height: U32): (r: (U32, U32, U32, Stream))
    ensures r.3.data == s.data
    decreases Remaining(s)
  {
    match FGets(s, PpmBufferSize)
    case None => (width, height, 0, s)
    case Some((line, s')) =>
      if ByteAt(line, 0) == '#' as int then ScanSizes(s', width, height)
      else if width > 0 then (width, height, ToUnsigned(Atoi(line)), s')
      else
        var (w, h) := SizeLine(line, height);
        ScanSizes(s', w, h)
  }

  /** The magic line: 5, 6 or 8 for "P5", "P6", "P8", 0 for anything else. */
  function Kind(line: seq<Byte>): (k: nat)
    ensures k in {0, 5, 6, 8}
  {
    if ByteAt(line, 0) != 'P' as int then 0
    else if ByteAt(line, 1) == '5' as int then 5
    else if ByteAt(line, 1) == '6' as int then 6
    else if ByteAt(line, 1) == '8' as int then 8
    else 0
  }

  datatype Header = Header(kind: nat, width: U32, height: U32, colors: U32)

  /** The header fields and the stream after the header (all zero when the magic is not accepted). */
  function ReadHeader(s: Stream): (r: (Header, Stream))
    ensures r.1.data == s.data
    ensures r.0.kind in {0, 5, 6, 8}
  {
    match FGets(s, PpmBufferSize)
    case None => (Header(0, 0, 0, 0), s)
    case Some((line, s1)) =>
      if Kind(line) == 0 then (Header(0, 0, 0, 0), s1)
      else
        var (w, h, c, s2) := ScanSizes(s1, 0, 0);
        (Header(Kind(line), w, h, c), s2)
  }

  /** The header reading of ppm2ASImage, with its fgets loop and the scans of the size line. */
  method ReadPpmHeader(s: Stream) returns (h: Header, rest: Stream)
    ensures (h, rest) == ReadHeader(s)
  {
    var kind: nat := 0;
    var width: U32 := 0;
    var height: U32 := 0;
    var colors: U32 := 0;
    rest := s;
    var first := FGets(rest, PpmBufferSize);
    if first.Some? {
      rest := first.value.1;
      kind := Kind(first.value.0);
      if kind > 0 {
        var done := false;
        while !done
          invariant rest.data == s.data
          invariant !done ==> colors == 0 && ScanSizes(rest, width, height) == ScanSizes(first.value.1, 0, 0)
          invariant done ==> (width, height, colors, rest) == ScanSizes(first.value.1, 0, 0)
          decreases Remaining(rest), !done
        {
          var next := FGets(rest, PpmBufferSize);
          if next.None? {
            done := true;
          } else {
            var line := next.value.0;
            rest := next.value.1;
            if ByteAt(line, 0) != '#' as int {
              if width > 0 {
                colors := ToUnsigned(Atoi(line));
                done := true;
              } else {
                width := ToUnsigned(Atoi(line));
                var i := 0;
                while ByteAt(line, i) != 0 && !IsSpace(ByteAt(line, i))
                  invariant i <= |line| && TokenEnd(line, i) == TokenEnd(line, 0)
                  decreases |line| - i
                {
                  i := i + 1;
                }
                while IsSpace(ByteAt(line, i))
                  invariant i <= |line| && SpaceEnd(line, i) == SpaceEnd(line, TokenEnd(line, 0))
                  decreases |line| - i
                {
                  i := i + 1;
                }
                if ByteAt(line, i) != 0 {
                  height := ToUnsigned(Atoi(line[i..]));
                }
              }
            }
          }
        }
      }
    }
    h := Header(kind, width, height, colors);
  }

  /** The header leads to an image: a supported magic, at most 255 levels, both sizes in (0, max). */
  predicate Accepted(h: Header, maxSize: nat)
  {
    h.kind > 0 && h.colors <= 255 && 0 < h.width < maxSize && 0 < h.height < maxSize
  }

  /** Bytes in one row: width times 1 (P5), 3 (P6) or 4 (P8). */
  function RowSize(h: Header): nat
  {
    h.width * PixelSize(h.kind == 5, h.kind == 8)
  }

  /**
   * Line `y` of channel `ch` of the decoded image when the rows start at `start`: present when
   * rows 0..y are all complete in the file (alpha only for P8), and then read from row y.
   */
  function PpmLine(data: seq<Byte>, h: Header, start: nat, table: Option<seq<Byte>>, ch: Channel, y: nat)
    : Option<seq<U32>>
    requires GammaTable(table)
  {
    var rs := RowSize(h);
    if y < h.height && start + (y + 1) * rs <= |data| && (ch != Alpha || h.kind == 8) then
      Some(RowLine(data[start + y * rs..start + (y + 1) * rs], table, h.kind == 5, h.kind == 8, ch, h.width))
    else None
  }

  /**
   * ppm2ASImage on the bytes of the file (None when it cannot be opened): an image exactly when the
   * header is accepted, whose lines are the complete rows found after the header, up to the height.
   */
  method Ppm2ASImage(file: Option<seq<Byte>>, table: Option<seq<Byte>>, maxSize: nat)
    returns (im: Option<Image>)
    requires GammaTable(table)
    ensures file.None? ==> im.None?
    ensures file.Some? ==>
              var (h, rest) := ReadHeader(Stream(file.value, 0));
              (im.Some? <==> Accepted(h, maxSize)) &&
              (im.Some? ==> im.value.Valid() && im.value.width == h.width && im.value.height == h.height &&
                            forall ch, y :: 0 <= y < h.height ==>
                              im.value.Line(ch, y) == PpmLine(file.value, h, rest.pos, table, ch, y))
  {
    if file.None? {
      return None;
    }
    var data := file.value;
    var h, rest := ReadPpmHeader(Stream(data, 0));
    if !Accepted(h, maxSize) {
      return None;
    }
    var image := ReadRows(data, h, rest.pos, table);
    im := Some(image);
  }

  /** The row loop of ppm2ASImage: rows are read until the height is reached or a row is incomplete. */
  method ReadRows(data: seq<Byte>, h: Header, start: nat, table: Option<seq<Byte>>) returns (image: Image)
    requires GammaTable(table) && h.kind in {5, 6, 8} && h.width > 0
    ensures image.Valid() && image.width == h.width && image.height == h.height
    ensures forall ch, y :: 0 <= y < h.height ==> image.Line(ch, y) == PpmLine(data, h, start, table, ch, y)
  {
    var grayscale, doAlpha := h.kind == 5, h.kind == 8;
    var rs := RowSize(h);
    var buf := new Scanline(h.width, false);
    image := Start(h.width, h.height);
    var s := Stream(data, start);
    var y: nat := 0;
    while y < h.height
      invariant y <= h.height && s.data == data && s.pos == start + y * rs
      invariant buf.Valid() && buf.width == h.width && !buf.bgr
      invariant image.Valid() && image.width == h.width && image.height == h.height
      invariant forall ch, j :: 0 <= j < h.height ==>
                  image.Line(ch, j) == if j < y then PpmLine(data, h, start, table, ch, j) else None
      decreases h.height - y
    {
      var (row, s') := s.Read(rs);
      if |row| < rs {
        NoLinesPastShortRow(data, h, start, table, y);
        break;
      }
      assert row == data[start + y * rs..start + (y + 1) * rs];
      s := s';
      image := AddRow(image, buf, row, table, grayscale, doAlpha, y);
      y := y + 1;
    }
  }

  /** One pass of the row loop: raw2scanline, then the row stored in red, green, blue (and alpha for P8). */
  method AddRow(image: Image, buf: Scanline, row: seq<Byte>, table: Option<seq<Byte>>,
                grayscale: bool, doAlpha: bool, y: nat) returns (r: Image)
    requires image.Valid() && y < image.height
    requires buf.Valid() && !buf.bgr && buf.width == image.width
    requires GammaTable(table) && image.width * PixelSize(grayscale, doAlpha) <= |row|
    modifies buf.xc1, buf.xc2, buf.xc3, buf.alpha
    ensures r.Valid() && r.width == image.width && r.height == image.height
    ensures forall ch :: r.Line(ch, y) ==
              if ch != Alpha || doAlpha then Some(RowLine(row, table, grayscale, doAlpha, ch, image.width))
              else image.Line(ch, y)
    ensures forall ch, j :: 0 <= j < image.height && j != y ==> r.Line(ch, j) == image.Line(ch, j)
  {
    var w := image.width;
    Raw2Scanline(row, buf, table, w, grayscale, doAlpha);
    ScanlineHoldsRow(row, buf, table, grayscale, doAlpha, w);
    assert buf.Red()[..][..w] == buf.Red()[..] && buf.Green()[..][..w] == buf.Green()[..];
    assert buf.Blue()[..][..w] == buf.Blue()[..] && buf.alpha[..][..w] == buf.alpha[..];
    r := AddLine(image, Red, buf.Red()[..], y);
    r := AddLine(r, Green, buf.Green()[..], y);
    r := AddLine(r, Blue, buf.Blue()[..], y);
    if doAlpha {
      r := AddLine(r, Alpha, buf.alpha[..], y);
    }
    forall ch
      ensures r.Line(ch, y) ==
                if ch != Alpha || doAlpha then Some(RowLine(row, table, grayscale, doAlpha, ch, w))
                else image.Line(ch, y)
    {
    }
  }

  /** Once a row is incomplete, it and every later row are absent. */
  lemma NoLinesPastShortRow(data: seq<Byte>, h: Header, start: nat, table: Option<seq<Byte>>, y: nat)
    requires GammaTable(table)
    requires start + (y + 1) * RowSize(h) > |data|
    ensures forall ch, j :: y <= j ==> PpmLine(data, h, start, table, ch, j).None?
  {
    forall ch, j | y <= j
      ensures PpmLine(data, h, start, table, ch, j).None?
    {
      MulMono(y + 1, j + 1, RowSize(h));
    }
  }

  /** After raw2scanline the scanline's channels hold the lines of that row. */
  lemma ScanlineHoldsRow(row: seq<Byte>, buf: Scanline, table: Option<seq<Byte>>, grayscale: bool,
                         doAlpha: bool, width: nat)
    requires buf.Valid() && !buf.bgr && width == buf.width
    requires GammaTable(table) && width * PixelSize(grayscale, doAlpha) <= |row|
    requires forall x :: 0 <= x < width ==>
               buf.xc1[x] == ColourSample(row, table, grayscale, doAlpha, x, 0) &&
               buf.xc2[x] == ColourSample(row, table, grayscale, doAlpha, x, 1) &&
               buf.xc3[x] == ColourSample(row, table, grayscale, doAlpha, x, 2)
    requires forall x :: 0 <= x < width && doAlpha ==> buf.alpha[x] == AlphaSample(row, grayscale, doAlpha, x)
    ensures buf.Red()[..] == RowLine(row, table, grayscale, doAlpha, Red, width)
    ensures buf.Green()[..] == RowLine(row, table, grayscale, doAlpha, Green, width)
    ensures buf.Blue()[..] == RowLine(row, table, grayscale, doAlpha, Blue, width)
    ensures doAlpha ==> buf.alpha[..] == RowLine(row, table, grayscale, doAlpha, Alpha, width)
  {
  }

  /** fgets stops right after the first newline when it comes within the size limit. */
  lemma {:induction false} LineLengthAt(data: seq<Byte>, pos: nat, n: nat, max: nat)
    requires pos + n <= |data| && 1 <= n <= max
    requires data[pos + n - 1] == Newline
    requires forall j :: pos <= j < pos + n - 1 ==> data[j] != Newline
    ensures LineLength(data, pos, max) == n
    decreases n
  {
    if n > 1 {
      LineLengthAt(data, pos + 1, n - 1, max - 1);
    }
  }

  /** Without a newline among the next `max` bytes, fgets takes exactly `max` of them. */
  lemma {:induction false} LineLengthFull(data: seq<Byte>, pos: nat, max: nat)
    requires pos + max <= |data|
    requires forall j :: pos <= j < pos + max ==> data[j] != Newline
    ensures LineLength(data, pos, max) == max
    decreases max
  {
    if max > 0 {
      LineLengthFull(data, pos + 1, max - 1);
    }
  }

  /** A comment line of at most 70 bytes among the size lines is passed over as if it were absent. */
  lemma CommentSkipped(data: seq<Byte>, pos: nat, n: nat, width: U32, height: U32)
    requires pos + n <= |data| && 1 <= n <= PpmBufferSize - 1
    requires data[pos] == '#' as int && data[pos + n - 1] == Newline
    requires forall j :: pos <= j < pos + n - 1 ==> data[j] != Newline
    ensures ScanSizes(Stream(data, pos), width, height) == ScanSizes(Stream(data, pos + n), width, height)
  {
    LineLengthAt(data, pos, n, PpmBufferSize - 1);
    ScanSizesComment(Stream(data, pos), data[pos..pos + n], Stream(data, pos + n), width, height);
  }

  /** One step of the scan over a comment line. */
  lemma ScanSizesComment(s: Stream, line: seq<Byte>, s': Stream, width: U32, height: U32)
    requires FGets(s, PpmBufferSize) == Some((line, s')) && ByteAt(line, 0) == '#' as int
    ensures ScanSizes(s, width, height) == ScanSizes(s', width, height)
  {
  }

  /**
   * A comment line longer than 70 bytes is skipped only up to its 70th byte: fgets returns the rest
   * as the next line, which no longer starts with '#' and is read as a size line.
   */
  lemma LongCommentSplit(data: seq<Byte>, pos: nat, width: U32, height: U32)
    requires pos + PpmBufferSize - 1 <= |data| && data[pos] == '#' as int
    requires forall j :: pos <= j < pos + PpmBufferSize - 1 ==> data[j] != Newline
    ensures ScanSizes(Stream(data, pos), width, height) ==
            ScanSizes(Stream(data, pos + PpmBufferSize - 1), width, height)
  {
    LineLengthFull(data, pos, PpmBufferSize - 1);
    ScanSizesComment(Stream(data, pos), data[pos..pos + PpmBufferSize - 1],
                     Stream(data, pos + PpmBufferSize - 1), width, height);
  }

  /** The header a writer of binary PNM files emits: magic, "width height", the maximum value. */
  function EncodeHeader(kind: nat, width: nat, height: nat, colors: nat): seq<Byte>
    requires kind in {5, 6, 8}
  {
    MagicLine(kind) + SizesText(width, height) + CountText(colors)
  }

  function MagicLine(kind: nat): seq<Byte>
    requires kind in {5, 6, 8}
  {
    [80, 48 + kind, Newline]
  }

  function SizesText(width: nat, height: nat): seq<Byte>
  {
    Decimal(width) + [32] + Decimal(height) + [Newline]
  }

  function CountText(colors: nat): seq<Byte>
  {
    Decimal(colors) + [Newline]
  }

  /** A sequence that starts with a + b + c holds a, b and c at their offsets. */
  lemma Pieces(x: seq<Byte>, a: seq<Byte>, b: seq<Byte>, c: seq<Byte>)
    requires |a| + |b| + |c| <= |x| && x[..|a| + |b| + |c|] == a + b + c
    ensures x[..|a|] == a && x[|a|..|a| + |b|] == b && x[|a| + |b|..|a| + |b| + |c|] == c
  {
    var n := |a| + |b| + |c|;
    assert forall j :: 0 <= j < |a| ==> x[j] == x[..n][j];
    assert forall j :: |a| <= j < |a| + |b| ==> x[j] == x[..n][j];
    assert forall j :: |a| + |b| <= j < n ==> x[j] == x[..n][j];
  }

  lemma {:induction false} TokenEndAt(line: seq<Byte>, i: nat, j: nat)
    requires i <= j <= |line|
    requires forall k :: i <= k < j ==> line[k] != 0 && !IsSpace(line[k])
    requires j == |line| || line[j] == 0 || IsSpace(line[j])
    ensures TokenEnd(line, i) == j
    decreases j - i
  {
    if i < j {
      TokenEndAt(line, i + 1, j);
    }
  }

  lemma U32Decimal(n: U32)
    ensures |Decimal(n)| <= 10
  {
    assert Pow10(10) == 10_000_000_000;
    DecimalLength(n, Pow10(10), 10);
  }

  /** fgets returns a whole line that ends in a newline and fits in the buffer. */
  lemma FGetsLine(data: seq<Byte>, pos: nat, line: seq<Byte>)
    requires pos + |line| <= |data| && data[pos..pos + |line|] == line
    requires WholeLine(line)
    ensures FGets(Stream(data, pos), PpmBufferSize) == Some((line, Stream(data, pos + |line|)))
  {
    forall j | pos <= j < pos + |line| - 1
      ensures data[j] != Newline
    {
      assert data[j] == line[j - pos];
    }
    assert data[pos + |line| - 1] == line[|line| - 1];
    LineLengthAt(data, pos, |line|, PpmBufferSize - 1);
  }

  /** The line "width height" gives both numbers back. */
  lemma SizeLineRoundTrip(width: U32, height: U32)
    ensures SizeLine(SizesText(width, height), 0) == (width, height)
  {
    var dw, dh := Decimal(width), Decimal(height);
    AtoiDecimal(width, [32] + dh + [Newline]);
    AtoiDecimal(height, [Newline]);
    SizeLineOf(dw, dh, width, height);
  }

  /** A size line made of two digit strings scans back to the numbers they spell. */
  lemma SizeLineOf(dw: seq<Byte>, dh: seq<Byte>, width: U32, height: U32)
    requires 1 <= |dw| && 1 <= |dh| && IsDigit(dh[0])
    requires forall i :: 0 <= i < |dw| ==> IsDigit(dw[i])
    requires Atoi(dw + ([32] + dh + [Newline])) == width && Atoi(dh + [Newline]) == height
    ensures SizeLine(dw + [32] + dh + [Newline], 0) == (width, height)
  {
    var sizes := dw + [32] + dh + [Newline];
    assert sizes == dw + ([32] + dh + [Newline]);
    TokenEndAt(sizes, 0, |dw|);
    SpacesAfterNumber(sizes, |dw|);
    assert sizes[|dw| + 1..] == dh + [Newline];
    assert ByteAt(sizes, |dw| + 1) == dh[0];
  }

  lemma SpacesAfterNumber(line: seq<Byte>, i: nat)
    requires i + 2 <= |line| && line[i] == 32 && IsDigit(line[i + 1])
    ensures SpaceEnd(line, i) == i + 1
  {
    assert SpaceEnd(line, i + 1) == i + 1;
  }

  /** A line fgets returns whole: it ends in its only newline and fits in the buffer. */
  predicate WholeLine(line: seq<Byte>)
  {
    1 <= |line| <= PpmBufferSize - 1 && line[|line| - 1] == Newline &&
    forall j :: 0 <= j < |line| - 1 ==> line[j] != Newline
  }

  /** Reading back a file that starts with a header written by EncodeHeader gives its fields, and the rows start right after it. */
  lemma HeaderRoundTrip(kind: nat, width: U32, height: U32, colors: U32, data: seq<Byte>)
    requires kind in {5, 6, 8} && width > 0
    requires |EncodeHeader(kind, width, height, colors)| <= |data|
    requires data[..|EncodeHeader(kind, width, height, colors)|] == EncodeHeader(kind, width, height, colors)
    ensures ReadHeader(Stream(data, 0)) ==
              (Header(kind, width, height, colors), Stream(data, |EncodeHeader(kind, width, height, colors)|))
  {
    var magic, sizes, count := MagicLine(kind), SizesText(width, height), CountText(colors);
    assert EncodeHeader(kind, width, height, colors) == magic + sizes + count;
    assert Kind(magic) == kind;
    SizesLineFields(width, height);
    CountLineField(colors);
    HeaderLinesAt(data, magic, sizes, count, Header(kind, width, height, colors));
    assert Stream(data, |EncodeHeader(kind, width, height, colors)|) == Stream(data, |magic| + |sizes| + |count|);
  }

  /** The header read from data that starts with a magic line, a size line and a count line. */
  lemma HeaderLinesAt(data: seq<Byte>, magic: seq<Byte>, sizes: seq<Byte>, count: seq<Byte>, h: Header)
    requires |magic| + |sizes| + |count| <= |data| && data[..|magic| + |sizes| + |count|] == magic + sizes + count
    requires WholeLine(magic) && h.kind == Kind(magic) != 0
    requires WholeLine(sizes) && ByteAt(sizes, 0) != '#' as int && SizeLine(sizes, 0) == (h.width, h.height)
    requires WholeLine(count) && ByteAt(count, 0) != '#' as int && ToUnsigned(Atoi(count)) == h.colors
    requires h.width > 0
    ensures ReadHeader(Stream(data, 0)) == (h, Stream(data, |magic| + |sizes| + |count|))
  {
    ThreeLines(data, magic, sizes, count);
    HeaderLines(Stream(data, 0), magic, Stream(data, |magic|), sizes, Stream(data, |magic| + |sizes|),
                count, Stream(data, |magic| + |sizes| + |count|), h);
  }

  /** fgets returns the three lines at the start of the data one after the other. */
  lemma ThreeLines(data: seq<Byte>, a: seq<Byte>, b: seq<Byte>, c: seq<Byte>)
    requires |a| + |b| + |c| <= |data| && data[..|a| + |b| + |c|] == a + b + c
    requires WholeLine(a) && WholeLine(b) && WholeLine(c)
    ensures FGets(Stream(data, 0), PpmBufferSize) == Some((a, Stream(data, |a|)))
    ensures FGets(Stream(data, |a|), PpmBufferSize) == Some((b, Stream(data, |a| + |b|)))
    ensures FGets(Stream(data, |a| + |b|), PpmBufferSize) == Some((c, Stream(data, |a| + |b| + |c|)))
  {
    Pieces(data, a, b, c);
    FGetsLine(data, 0, a);
    FGetsLine(data, |a|, b);
    FGetsLine(data, |a| + |b|, c);
  }

  /** The text "width height" is one whole line, not a comment, and scans back to both numbers. */
  lemma SizesLineFields(width: U32, height: U32)
    ensures WholeLine(SizesText(width, height))
    ensures ByteAt(SizesText(width, height), 0) != '#' as int
    ensures SizeLine(SizesText(width, height), 0) == (width, height)
  {
    U32Decimal(width);
    U32Decimal(height);
    SizeLineRoundTrip(width, height);
  }

  /** The colour-count text is one whole line, not a comment, and converts back to the count. */
  lemma CountLineField(colors: U32)
    ensures WholeLine(CountText(colors))
    ensures ByteAt(CountText(colors), 0) != '#' as int
    ensures ToUnsigned(Atoi(CountText(colors))) == colors
  {
    U32Decimal(colors);
    AtoiDecimal(colors, [Newline]);
  }

  /**
   * The header read from three lines: an accepted magic, a size line while the width is 0, then,
   * with the width set, the colour count.
   */
  lemma HeaderLines(s0: Stream, magic: seq<Byte>, s1: Stream, sizes: seq<Byte>, s2: Stream,
                    count: seq<Byte>, s3: Stream, h: Header)
    requires FGets(s0, PpmBufferSize) == Some((magic, s1)) && h.kind == Kind(magic) != 0
    requires FGets(s1, PpmBufferSize) == Some((sizes, s2)) && ByteAt(sizes, 0) != '#' as int
    requires SizeLine(sizes, 0) == (h.width, h.height) && h.width > 0
    requires FGets(s2, PpmBufferSize) == Some((count, s3)) && ByteAt(count, 0) != '#' as int
    requires ToUnsigned(Atoi(count)) == h.colors
    ensures ReadHeader(s0) == (h, s3)
  {
    assert ScanSizes(s2, h.width, h.height) == (h.width, h.height, h.colors, s3);
  }

  /** The packed row a P5 (grey level in `r`), P6 or P8 writer emits for a run of pixels. */
  function PackPixels(pixels: seq<Rgba>, kind: nat): (row: seq<Byte>)
    requires kind in {5, 6, 8}
    ensures |row| == |pixels| * PixelSize(kind == 5, kind == 8)
  {
    if kind == 5 then PackGray(pixels, false) else PackRgb(pixels, kind == 8)
  }

  /** The rows of an image packed one after the other. */
  function PackRows(rows: seq<seq<Rgba>>, kind: nat): seq<Byte>
    requires kind in {5, 6, 8}
  {
    Concat(seq(|rows|, y requires 0 <= y < |rows| => PackPixels(rows[y], kind)))
  }

  function Concat(chunks: seq<seq<Byte>>): seq<Byte>
  {
    if chunks == [] then [] else chunks[0] + Concat(chunks[1..])
  }

  /** Every row has `width` pixels. */
  predicate Rectangular(rows: seq<seq<Rgba>>, width: nat)
  {
    forall y :: 0 <= y < |rows| ==> |rows[y]| == width
  }

  /** Chunk `y` of a concatenation of chunks of size `size` sits at y times the size. */
  lemma {:induction false} ConcatAt(chunks: seq<seq<Byte>>, size: nat, y: nat)
    requires forall j :: 0 <= j < |chunks| ==> |chunks[j]| == size
    requires y < |chunks|
    ensures (y + 1) * size <= |Concat(chunks)| && Concat(chunks)[y * size..(y + 1) * size] == chunks[y]
  {
    var head, tail := chunks[0], Concat(chunks[1..]);
    MulSucc(y, size);
    if y == 0 {
      assert (head + tail)[..size] == head;
    } else {
      ConcatAt(chunks[1..], size, y - 1);
      MulSucc(y - 1, size);
      SliceAfter(head, tail, (y - 1) * size, y * size);
    }
  }

  /** Slicing past the first part of a concatenation slices the second part. */
  lemma SliceAfter<T>(a: seq<T>, b: seq<T>, i: nat, j: nat)
    requires i <= j <= |b|
    ensures (a + b)[|a| + i..|a| + j] == b[i..j]
  {
  }

  /** What channel `ch` of the decoded image holds for a pixel: grey files put the level in red, green and blue. */
  function PixelChannel(p: Rgba, ch: Channel, kind: nat): Byte
  {
    match ch
    case Red => p.r
    case Green => if kind == 5 then p.r else p.g
    case Blue => if kind == 5 then p.r else p.b
    case Alpha => p.a
  }

  /** Without a gamma table, a packed row unpacks to the channel of each of its pixels. */
  lemma RowLineOfPacked(pixels: seq<Rgba>, kind: nat, ch: Channel)
    requires kind in {5, 6, 8} && (ch != Alpha || kind == 8)
    ensures RowLine(PackPixels(pixels, kind), None, kind == 5, kind == 8, ch, |pixels|) ==
            seq(|pixels|, x requires 0 <= x < |pixels| => PixelChannel(pixels[x], ch, kind) as U32)
  {
    var row := PackPixels(pixels, kind);
    forall x | 0 <= x < |pixels|
      ensures RowSample(row, None, kind == 5, kind == 8, ch, x) == PixelChannel(pixels[x], ch, kind)
    {
      if kind == 5 {
        UnpackGray(pixels, false, x);
      } else {
        UnpackRgb(pixels, kind == 8, x);
      }
    }
  }

  /**
   * A P5, P6 or P8 file written with 255 levels and nothing else after the header decodes (without
   * a gamma table) to the pixels it was written from: every row is present, alpha only for P8.
   */
  lemma PpmRoundTrip(kind: nat, width: U32, rows: seq<seq<Rgba>>, maxSize: nat)
    requires kind in {5, 6, 8} && 0 < width < maxSize && 0 < |rows| < maxSize && |rows| < 0x1_0000_0000
    requires Rectangular(rows, width)
    ensures var data := EncodeHeader(kind, width, |rows|, 255) + PackRows(rows, kind);
            var (h, rest) := ReadHeader(Stream(data, 0));
            Accepted(h, maxSize) && h == Header(kind, width, |rows|, 255) &&
            forall ch, y :: 0 <= y < |rows| ==>
              PpmLine(data, h, rest.pos, None, ch, y) ==
                if ch == Alpha && kind != 8 then None
                else Some(seq(width, x requires 0 <= x < width => PixelChannel(rows[y][x], ch, kind) as U32))
  {
    var header, body := EncodeHeader(kind, width, |rows|, 255), PackRows(rows, kind);
    var data := header + body;
    assert data[..|header|] == header;
    HeaderRoundTrip(kind, width, |rows|, 255, data);
    var h := Header(kind, width, |rows|, 255);
    forall ch, y | 0 <= y < |rows|
      ensures PpmLine(data, h, |header|, None, ch, y) ==
                if ch == Alpha && kind != 8 then None
                else Some(seq(width, x requires 0 <= x < width => PixelChannel(rows[y][x], ch, kind) as U32))
    {
      RowOfFile(header, rows, kind, width, ch, y);
    }
  }

  /** Row `y` of a file made of a header and packed rows is the packed row `y`. */
  lemma RowOfFile(header: seq<Byte>, rows: seq<seq<Rgba>>, kind: nat, width: U32, ch: Channel, y: nat)
    requires kind in {5, 6, 8} && width > 0 && Rectangular(rows, width) && y < |rows| < 0x1_0000_0000
    ensures PpmLine(header + PackRows(rows, kind), Header(kind, width, |rows|, 255), |header|, None, ch, y) ==
              if ch == Alpha && kind != 8 then None
              else Some(seq(width, x requires 0 <= x < width => PixelChannel(rows[y][x], ch, kind) as U32))
  {
    var h := Header(kind, width, |rows|, 255);
    var rs := RowSize(h);
    var chunks := seq(|rows|, j requires 0 <= j < |rows| => PackPixels(rows[j], kind));
    ChunkSizes(rows, kind, width);
    ChunkAfterHeader(header, chunks, rs, y);
    if ch != Alpha || kind == 8 {
      PpmLineOfRow(header + Concat(chunks), h, |header|, ch, y, chunks[y]);
      RowLineOfPacked(rows[y], kind, ch);
    }
  }

  /** Chunk `y` of a header followed by chunks of size `size`. */
  lemma ChunkAfterHeader(header: seq<Byte>, chunks: seq<seq<Byte>>, size: nat, y: nat)
    requires forall j :: 0 <= j < |chunks| ==> |chunks[j]| == size
    requires y < |chunks|
    ensures |header| + (y + 1) * size <= |header + Concat(chunks)|
    ensures (header + Concat(chunks))[|header| + y * size..|header| + (y + 1) * size] == chunks[y]
  {
    ConcatAt(chunks, size, y);
    MulSucc(y, size);
    SliceAfter(header, Concat(chunks), y * size, (y + 1) * size);
  }

  /** Each packed row of a rectangular image is one row size long. */
  lemma ChunkSizes(rows: seq<seq<Rgba>>, kind: nat, width: nat)
    requires kind in {5, 6, 8} && Rectangular(rows, width)
    ensures forall j :: 0 <= j < |rows| ==> |PackPixels(rows[j], kind)| == width * PixelSize(kind == 5, kind == 8)
  {
    forall j | 0 <= j < |rows|
      ensures |PackPixels(rows[j], kind)| == width * PixelSize(kind == 5, kind == 8)
    {
      assert |rows[j]| == width;
    }
  }

  /** A line of a complete row is that row through RowLine. */
  lemma PpmLineOfRow(data: seq<Byte>, h: Header, start: nat, ch: Channel, y: nat, row: seq<Byte>)
    requires h.kind in {5, 6, 8} && y < h.height && (ch != Alpha || h.kind == 8)
    requires start + (y + 1) * RowSize(h) <= |data|
    requires data[start + y * RowSize(h)..start + (y + 1) * RowSize(h)] == row
    ensures PpmLine(data, h, start, None, ch, y) == Some(RowLine(row, None, h.kind == 5, h.kind == 8, ch, h.width))
  {
  }
}
