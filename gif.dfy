/**
 * The part of gif2ASImage that is not giflib: the walk over the file's records (the first image
 * descriptor, the graphic-control extension that names the transparent index), the rows read in
 * the four-pass interlaced order of GIF89a Appendix E, and the mapping of palette indices to
 * red, green, blue and alpha lines. giflib's decoding is taken as input: the records it reports
 * and, for the image, the successive lines of indices DGifGetLine delivers.
 */
module Gif {
  import opened Common
  import opened Images
  import opened Scanlines

  // ---------------------------------------------------------------------------------------------
  // Interlaced row order
  // ---------------------------------------------------------------------------------------------

  /** The first row of each of the four interlace passes (intoffset). */
  function Offset(pass: nat): nat
    requires pass < 4
  {
    if pass == 0 then 0 else if pass == 1 then 4 else if pass == 2 then 2 else 1
  }

  /** The row step of each pass (intjump). */
  function Jump(pass: nat): (j: nat)
    requires pass < 4
    ensures j > 0
  {
    if pass <= 1 then 8 else if pass == 2 then 4 else 2
  }

  /** How many rows of an image `height` rows high a pass visits. */
  function PassLength(pass: nat, height: nat): nat
    requires pass < 4
  {
    if height <= Offset(pass) then 0 else (height - Offset(pass) + Jump(pass) - 1) / Jump(pass)
  }

  /** The number of rows the passes before `pass` read. */
  function Before(pass: nat, height: nat): nat
    requires pass <= 4
  {
    if pass == 0 then 0 else Before(pass - 1, height) + PassLength(pass - 1, height)
  }

  /** The pass that reads row `y`. */
  function PassOf(y: nat): (pass: nat)
    ensures pass < 4 && Offset(pass) <= y
  {
    var r := y % 8;
    if r == 0 then 0 else if r == 4 then 1 else if r == 2 || r == 6 then 2 else 3
  }

  /** The index of row `y` in the interlaced reading order. */
  function Position(height: nat, y: nat): nat
  {
    var pass := PassOf(y);
    Before(pass, height) + (y - Offset(pass)) / Jump(pass)
  }

  /** Step `j` of a pass lies inside the image exactly when `j` is below the pass length. */
  lemma InPass(pass: nat, height: nat, j: nat)
    requires pass < 4
    ensures j < PassLength(pass, height) <==> Offset(pass) + j * Jump(pass) < height
  {
  }

  /** Step `j` of a pass is a row of that pass, and it is that pass's step `j`. */
  lemma PassOfVisit(pass: nat, j: nat)
    requires pass < 4
    ensures PassOf(Offset(pass) + j * Jump(pass)) == pass
    ensures (Offset(pass) + j * Jump(pass) - Offset(pass)) / Jump(pass) == j
  {
    var y := Offset(pass) + j * Jump(pass);
    if pass == 0 {
      assert y == 8 * j;
    } else if pass == 1 {
      assert y == 8 * j + 4;
    } else if pass == 2 {
      var m, b := j / 2, j % 2;
      assert y == 8 * m + 4 * b + 2;
    } else {
      var m, b := j / 4, j % 4;
      assert y == 8 * m + 2 * b + 1;
    }
  }

  /** Every row is a step of its pass: offset plus a whole number of jumps. */
  lemma StepOf(y: nat)
    ensures y == Offset(PassOf(y)) + (y - Offset(PassOf(y))) / Jump(PassOf(y)) * Jump(PassOf(y))
  {
    var q, r := y / 8, y % 8;
    assert y == 8 * q + r;
    if r == 0 {
      assert (y - 0) / 8 == q;
    } else if r == 4 {
      assert (y - 4) / 8 == q;
    } else if r == 2 || r == 6 {
      assert (y - 2) / 4 == 2 * q + (r - 2) / 4;
    } else {
      assert (y - 1) / 2 == 4 * q + (r - 1) / 2;
    }
  }

  /** Together the four passes read as many rows as the image has. */
  lemma PassesCover(height: nat)
    ensures Before(4, height) == height
  {
    var q, r := height / 8, height % 8;
    assert PassLength(0, height) == q + (if r > 0 then 1 else 0);
    assert PassLength(1, height) == q + (if r > 4 then 1 else 0);
    assert PassLength(2, height) == 2 * q + (if r > 6 then 2 else if r > 2 then 1 else 0);
    assert PassLength(3, height) == 4 * q + r / 2;
    BeforeAll(height);
  }

  /** Before written out for every pass. */
  lemma BeforeAll(height: nat)
    ensures Before(1, height) == PassLength(0, height)
    ensures Before(2, height) == Before(1, height) + PassLength(1, height)
    ensures Before(3, height) == Before(2, height) + PassLength(2, height)
    ensures Before(4, height) == Before(3, height) + PassLength(3, height)
  {
    assert Before(1, height) == Before(0, height) + PassLength(0, height);
  }

  /** The passes before a later pass read at least the rows of the earlier pass too. */
  lemma BeforeGrows(p1: nat, p2: nat, height: nat)
    requires p1 < p2 <= 4
    ensures Before(p1 + 1, height) <= Before(p2, height)
  {
    BeforeAll(height);
  }

  /** Step `j` of a pass is read at position Before(pass) + j. */
  lemma PositionOfStep(height: nat, pass: nat, j: nat)
    requires pass < 4
    ensures Position(height, Offset(pass) + j * Jump(pass)) == Before(pass, height) + j
  {
    PassOfVisit(pass, j);
  }

  /** Every step of a pass is read at a position below the height. */
  lemma StepBelowHeight(height: nat, pass: nat, j: nat)
    requires pass < 4 && j < PassLength(pass, height)
    ensures Before(pass, height) + j < height
  {
    BeforeAll(height);
    PassesCover(height);
    if pass < 3 {
      BeforeGrows(pass, 4, height);
    }
  }

  /** A row is read within its own pass's share of the positions. */
  lemma PositionInPass(height: nat, y: nat)
    requires y < height
    ensures Before(PassOf(y), height) <= Position(height, y) < Before(PassOf(y) + 1, height)
  {
    var pass := PassOf(y);
    var j := (y - Offset(pass)) / Jump(pass);
    StepOf(y);
    InPass(pass, height, j);
  }

  /**
   * The interlaced passes read every row of the image exactly once: together they read as many
   * lines as there are rows, every row is read at a position below the height, and no two rows
   * share a position.
   */
  lemma InterlaceVisitsEachRowOnce(height: nat)
    ensures Before(4, height) == height
    ensures forall y :: 0 <= y < height ==> Position(height, y) < height
    ensures forall y1, y2 :: 0 <= y1 < height && 0 <= y2 < height && Position(height, y1) == Position(height, y2) ==> y1 == y2
  {
    PassesCover(height);
    forall y | 0 <= y < height
      ensures Position(height, y) < height
    {
      PositionInPass(height, y);
      if PassOf(y) < 3 {
        BeforeGrows(PassOf(y), 4, height);
      }
    }
    forall y1, y2 | 0 <= y1 < height && 0 <= y2 < height && Position(height, y1) == Position(height, y2)
      ensures y1 == y2
    {
      PositionInjective(height, y1, y2);
    }
  }

  /** Two rows of the image read at the same position are the same row. */
  lemma PositionInjective(height: nat, y1: nat, y2: nat)
    requires y1 < height && y2 < height && Position(height, y1) == Position(height, y2)
    ensures y1 == y2
  {
    var p1, p2 := PassOf(y1), PassOf(y2);
    PositionInPass(height, y1);
    PositionInPass(height, y2);
    if p1 < p2 {
      BeforeGrows(p1, p2, height);
    } else if p2 < p1 {
      BeforeGrows(p2, p1, height);
    } else {
      StepOf(y1);
      StepOf(y2);
    }
  }

  /** The rows as the loader holds them: row `y` is the line read at its place in the reading order. */
  function Arranged(lines: seq<seq<Byte>>, height: nat, interlace: bool): (rows: seq<seq<Byte>>)
    requires height <= |lines|
    ensures |rows| == height
  {
    seq(height, y requires 0 <= y < height =>
      if interlace then InterlaceVisitsEachRowOnce(height); lines[Position(height, y)] else lines[y])
  }

  /**
   * The row loop of gif2ASImage: DGifGetLine delivers `lines` one after the other and fails once
   * they run out; rows are filled top to bottom, or pass by pass when the image is interlaced.
   * The loop succeeds exactly when every row gets its line.
   */
  method ReadLines(lines: seq<seq<Byte>>, height: nat, interlace: bool) returns (ok: bool, rows: seq<seq<Byte>>)
    ensures ok <==> height <= |lines|
    ensures ok ==> rows == Arranged(lines, height, interlace)
  {
    var a := new seq<Byte>[height](_ => []);
    ok := true;
    if interlace {
      BeforeAll(height);
      PassesCover(height);
      var pass, next := 0, 0;
      while pass < 4
        invariant pass <= 4 && next == Before(pass, height) && next <= |lines|
        invariant Filled(a, lines, next)
      {
        ok, next := ReadPass(a, lines, pass, next);
        if !ok {
          return false, [];
        }
        pass := pass + 1;
      }
      FilledArranged(a, lines);
    } else {
      var y := 0;
      while y < height
        invariant y <= height && y <= |lines|
        invariant forall k :: 0 <= k < y ==> a[k] == lines[k]
      {
        if y >= |lines| {
          return false, [];
        }
        a[y] := lines[y];
        y := y + 1;
      }
    }
    rows := a[..];
  }

  /** Every row whose position comes before `next` holds the line read at that position. */
  ghost predicate Filled(a: array<seq<Byte>>, lines: seq<seq<Byte>>, next: nat)
    reads a
  {
    next <= |lines| &&
    forall y :: 0 <= y < a.Length && Position(a.Length, y) < next ==> a[y] == lines[Position(a.Length, y)]
  }

  /** Once all positions below the height are read, row `y` holds the line read at its position. */
  lemma FilledArranged(a: array<seq<Byte>>, lines: seq<seq<Byte>>)
    requires a.Length <= |lines| && Filled(a, lines, a.Length)
    ensures a[..] == Arranged(lines, a.Length, true)
  {
    InterlaceVisitsEachRowOnce(a.Length);
  }

  /** One interlace pass: rows offset, offset + jump, ... each take the next line. */
  method ReadPass(a: array<seq<Byte>>, lines: seq<seq<Byte>>, pass: nat, next: nat) returns (ok: bool, next': nat)
    requires pass < 4 && next == Before(pass, a.Length) && Filled(a, lines, next)
    modifies a
    ensures ok ==> next' == Before(pass + 1, a.Length) && Filled(a, lines, next')
    ensures !ok ==> |lines| < a.Length
  {
    var height := a.Length;
    var y, j := Offset(pass), 0;
    next' := next;
    while y < height
      invariant y == Offset(pass) + j * Jump(pass) && j <= PassLength(pass, height)
      invariant next' == Before(pass, height) + j && Filled(a, lines, next')
    {
      InPass(pass, height, j);
      if next' >= |lines| {
        StepBelowHeight(height, pass, j);
        return false, next';
      }
      PositionOfStep(height, pass, j);
      FillNext(a, lines, next', y);
      MulSucc(j, Jump(pass));
      next', j := next' + 1, j + 1;
      y := y + Jump(pass);
    }
    InPass(pass, height, j);
    ok := true;
  }

  /** DGifGetLine into row `y`, the row read at position `next`. */
  method FillNext(a: array<seq<Byte>>, lines: seq<seq<Byte>>, next: nat, y: nat)
    requires Filled(a, lines, next) && next < |lines| && y < a.Length && Position(a.Length, y) == next
    modifies a
    ensures Filled(a, lines, next + 1)
  {
    a[y] := lines[next];
    forall y' | 0 <= y' < a.Length && Position(a.Length, y') < next + 1
      ensures a[y'] == lines[Position(a.Length, y')]
    {
      if y' != y && Position(a.Length, y') == next {
        PositionInjective(a.Length, y, y');
      }
    }
  }

  // ---------------------------------------------------------------------------------------------
  // Graphic-control transparency
  // ---------------------------------------------------------------------------------------------

  /** The extension code of a graphic-control extension (GIF89a section 23). */
  const GraphicControl := 0xF9

  /** A block of a graphic-control extension whose packed byte (ext[1]) has the transparency bit set. */
  predicate MarksTransparency(code: int, ext: seq<Byte>)
  {
    code == GraphicControl && ByteAt(ext, 1) % 2 == 1
  }

  /**
   * The transparent index after an extension's blocks: while it is still unset (negative) the
   * first block that marks transparency sets it to that block's ext[4]; once set it stays.
   */
  function Transparency(code: int, blocks: seq<seq<Byte>>, t: int): (r: int)
    ensures t >= 0 ==> r == t
    ensures r == t || 0 <= r < 0x100
    decreases |blocks|
  {
    if blocks == [] then t
    else Transparency(code, blocks[1..], if t < 0 && MarksTransparency(code, blocks[0]) then ByteAt(blocks[0], 4) else t)
  }

  /**
   * An unset transparent index becomes the ext[4] of the first block that marks transparency, and
   * stays unset when no block does.
   */
  lemma {:induction false} FirstMarkingBlock(code: int, blocks: seq<seq<Byte>>, t: int)
    requires t < 0
    ensures Transparency(code, blocks, t) >= 0 <==> exists k :: 0 <= k < |blocks| && MarksTransparency(code, blocks[k])
    ensures Transparency(code, blocks, t) < 0 ==> Transparency(code, blocks, t) == t
    ensures forall k :: 0 <= k < |blocks| && MarksTransparency(code, blocks[k]) &&
                        (forall j :: 0 <= j < k ==> !MarksTransparency(code, blocks[j])) ==>
                          Transparency(code, blocks, t) == ByteAt(blocks[k], 4)
    decreases |blocks|
  {
    if blocks != [] {
      if MarksTransparency(code, blocks[0]) {
        assert forall k :: 0 < k < |blocks| && MarksTransparency(code, blocks[k]) ==>
                             (exists j :: 0 <= j < k && MarksTransparency(code, blocks[j]));
      } else {
        FirstMarkingBlock(code, blocks[1..], t);
        forall k | 0 <= k < |blocks| && MarksTransparency(code, blocks[k])
          ensures k > 0 && MarksTransparency(code, blocks[1..][k - 1])
        {
        }
        forall k | 0 <= k < |blocks| - 1 && MarksTransparency(code, blocks[1..][k])
          ensures MarksTransparency(code, blocks[k + 1])
        {
        }
      }
    }
  }

  /** The extension branch of the record loop: the blocks DGifGetExtension/DGifGetExtensionNext return. */
  method ReadExtension(code: int, blocks: seq<seq<Byte>>, t: int) returns (r: int)
    ensures r == Transparency(code, blocks, t)
  {
    r := t;
    var k := 0;
    while k < |blocks|
      invariant k <= |blocks| && Transparency(code, blocks[k..], r) == Transparency(code, blocks, t)
    {
      assert blocks[k..][1..] == blocks[k + 1..];
      if r < 0 && MarksTransparency(code, blocks[k]) {
        r := ByteAt(blocks[k], 4);
      }
      k := k + 1;
    }
  }

  // ---------------------------------------------------------------------------------------------
  // Records
  // ---------------------------------------------------------------------------------------------

  /** A colour-map entry. */
  datatype Colour = Colour(red: Byte, green: Byte, blue: Byte)

  /** An image descriptor as DGifGetImageDesc fills gif->Image. */
  datatype Descriptor = Descriptor(width: U16, height: U16, interlace: bool, colorMap: Option<seq<Colour>>)

  /**
   * One record as DGifGetRecordType reports it. An image carries its descriptor (None when
   * DGifGetImageDesc fails) and the lines of indices DGifGetLine delivers; an extension carries
   * its code and data blocks; Unreadable is a record type that cannot be read.
   */
  datatype Record =
    | ImageDesc(desc: Option<Descriptor>, lines: seq<seq<Byte>>)
    | Extension(code: Byte, blocks: seq<seq<Byte>>)
    | Terminate
    | Unreadable

  /** A GIF file as giflib opens it: screen background index, global colour map and the records. */
  datatype GifFile = GifFile(background: Byte, colorMap: Option<seq<Colour>>, records: seq<Record>)

  /** The image whose rows were read, with its rows in image order. */
  datatype Frame = Frame(desc: Descriptor, rows: seq<seq<Byte>>)

  /** Where the record loop ends: whether the status is GIF_OK, the image read, the transparent index. */
  datatype Scan = Scan(ok: bool, frame: Option<Frame>, transparent: int)

  /**
   * The record loop from record `i` on, with the image read so far and the transparent index so far.
   * A missing or unreadable record ends it with an error; the terminator ends it cleanly. The
   * first image descriptor is read: a failed descriptor is an error, one of width or height MAX or
   * more ends the loop without an image, and a line that cannot be read is an error. A later image
   * descriptor is neither read nor skipped, so the next DGifGetRecordType reads the descriptor's
   * first byte as a record type and fails: an error. Extensions may set the transparent index.
   */
  function ScanFrom(records: seq<Record>, maxSize: nat, i: nat, frame: Option<Frame>, t: int): Scan
    decreases |records| - i
  {
    if i >= |records| then Scan(false, frame, t)
    else match records[i]
      case Unreadable => Scan(false, frame, t)
      case Terminate => Scan(true, frame, t)
      case ImageDesc(desc, lines) =>
        if frame.Some? then Scan(false, frame, t)
        else if desc.None? then Scan(false, frame, t)
        else if desc.value.width >= maxSize || desc.value.height >= maxSize then Scan(true, frame, t)
        else if |lines| < desc.value.height then Scan(false, frame, t)
        else ScanFrom(records, maxSize, i + 1, Some(Frame(desc.value, Arranged(lines, desc.value.height, desc.value.interlace))), t)
      case Extension(code, blocks) => ScanFrom(records, maxSize, i + 1, frame, Transparency(code, blocks, t))
  }

  /** The whole record loop, from the first record with no image and no transparent index. */
  function ScanAll(records: seq<Record>, maxSize: nat): Scan
  {
    ScanFrom(records, maxSize, 0, None, -1)
  }

  /** The image an image record yields when it is the first one: None when the loop rejects it. */
  function FrameOf(rec: Record, maxSize: nat): Option<Frame>
    requires rec.ImageDesc?
  {
    match rec.desc
    case None => None
    case Some(d) =>
      if d.width >= maxSize || d.height >= maxSize || |rec.lines| < d.height then None
      else Some(Frame(d, Arranged(rec.lines, d.height, d.interlace)))
  }

  /** Record `k` is the first image descriptor. */
  predicate FirstImage(records: seq<Record>, k: nat)
  {
    k < |records| && records[k].ImageDesc? && forall j :: 0 <= j < k ==> !records[j].ImageDesc?
  }

  /** The record loop of gif2ASImage. */
  method ReadRecords(records: seq<Record>, maxSize: nat) returns (sc: Scan)
    ensures sc == ScanAll(records, maxSize)
  {
    var i, frame, t := 0, None, -1;
    while true
      invariant ScanFrom(records, maxSize, i, frame, t) == ScanAll(records, maxSize)
      decreases |records| - i
    {
      if i >= |records| {
        return Scan(false, frame, t);
      }
      match records[i] {
      case Unreadable =>
        return Scan(false, frame, t);
      case Terminate =>
        return Scan(true, frame, t);
      case ImageDesc(desc, lines) =>
        if frame.Some? {
          return Scan(false, frame, t);
        }
        if desc.None? {
          return Scan(false, frame, t);
        }
        var d := desc.value;
        if d.width >= maxSize || d.height >= maxSize {
          return Scan(true, frame, t);
        }
        var ok, rows := ReadLines(lines, d.height, d.interlace);
        if !ok {
          return Scan(false, frame, t);
        }
        frame := Some(Frame(d, rows));
      case Extension(code, blocks) =>
        t := ReadExtension(code, blocks, t);
      }
      i := i + 1;
    }
  }

  /**
   * The image the record loop ends with is what the first image record yields: the loop never
   * reads a later image, and it rejects the first one when its width or height is MAX or more.
   * (Whether the loop ends with GIF_OK is SingleImageOnly's subject.)
   */
  lemma ScanTakesFirstImage(records: seq<Record>, maxSize: nat)
    ensures ScanAll(records, maxSize).frame.Some? ==>
              exists k: nat :: FirstImage(records, k) && FrameOf(records[k], maxSize) == ScanAll(records, maxSize).frame
  {
    ScanFromImage(records, maxSize, 0, -1);
  }

  lemma {:induction false} ScanFromImage(records: seq<Record>, maxSize: nat, i: nat, t: int)
    ensures ScanFrom(records, maxSize, i, None, t).frame.Some? ==>
              exists k: nat :: i <= k < |records| && records[k].ImageDesc? &&
                          (forall j :: i <= j < k ==> !records[j].ImageDesc?) &&
                          FrameOf(records[k], maxSize) == ScanFrom(records, maxSize, i, None, t).frame
    decreases |records| - i
  {
    if i < |records| {
      match records[i]
      case Unreadable =>
      case Terminate =>
      case ImageDesc(desc, lines) =>
        var f := FrameOf(records[i], maxSize);
        if f.Some? {
          ScanKeepsFrame(records, maxSize, i + 1, f.value, t);
        }
      case Extension(code, blocks) =>
        ScanFromImage(records, maxSize, i + 1, Transparency(code, blocks, t));
    }
  }

  /** Once an image is read it is the one the loop ends with. */
  lemma {:induction false} ScanKeepsFrame(records: seq<Record>, maxSize: nat, i: nat, f: Frame, t: int)
    ensures ScanFrom(records, maxSize, i, Some(f), t).frame == Some(f)
    decreases |records| - i
  {
    if i < |records| {
      match records[i]
      case Unreadable =>
      case Terminate =>
      case ImageDesc(desc, lines) =>
      case Extension(code, blocks) =>
        ScanKeepsFrame(records, maxSize, i + 1, f, Transparency(code, blocks, t));
    }
  }

  /**
   * The loop ends with GIF_OK and an image only for a file whose first image record is followed
   * by extensions and then the terminator: a second image makes the loader return none.
   */
  lemma SingleImageOnly(records: seq<Record>, maxSize: nat)
    ensures ScanAll(records, maxSize).ok && ScanAll(records, maxSize).frame.Some? ==>
              exists k: nat, e: nat :: FirstImage(records, k) && k < e < |records| && records[e].Terminate? &&
                                       forall j :: k < j < e ==> records[j].Extension?
  {
    ScanFromSingle(records, maxSize, 0, -1);
    if ScanAll(records, maxSize).ok && ScanAll(records, maxSize).frame.Some? {
      var k: nat, e: nat :| 0 <= k < e < |records| && records[k].ImageDesc? && records[e].Terminate? &&
                            (forall j :: 0 <= j < k ==> !records[j].ImageDesc?) &&
                            forall j :: k < j < e ==> records[j].Extension?;
      assert FirstImage(records, k);
    }
  }

  lemma {:induction false} ScanFromSingle(records: seq<Record>, maxSize: nat, i: nat, t: int)
    ensures ScanFrom(records, maxSize, i, None, t).ok && ScanFrom(records, maxSize, i, None, t).frame.Some? ==>
              exists k: nat, e: nat :: i <= k < e < |records| && records[k].ImageDesc? && records[e].Terminate? &&
                                       (forall j :: i <= j < k ==> !records[j].ImageDesc?) &&
                                       forall j :: k < j < e ==> records[j].Extension?
    decreases |records| - i
  {
    if i < |records| {
      match records[i]
      case Unreadable =>
      case Terminate =>
      case ImageDesc(desc, lines) =>
        var f := FrameOf(records[i], maxSize);
        if f.Some? {
          ScanAfterFrame(records, maxSize, i + 1, f.value, t);
        }
      case Extension(code, blocks) =>
        ScanFromSingle(records, maxSize, i + 1, Transparency(code, blocks, t));
    }
  }

  /** With an image read, the loop ends with GIF_OK only at a terminator reached over extensions alone. */
  lemma {:induction false} ScanAfterFrame(records: seq<Record>, maxSize: nat, i: nat, f: Frame, t: int)
    ensures ScanFrom(records, maxSize, i, Some(f), t).ok ==>
              exists e: nat :: i <= e < |records| && records[e].Terminate? && forall j :: i <= j < e ==> records[j].Extension?
    decreases |records| - i
  {
    if i < |records| {
      match records[i]
      case Unreadable =>
      case Terminate =>
      case ImageDesc(desc, lines) =>
      case Extension(code, blocks) =>
        ScanAfterFrame(records, maxSize, i + 1, f, Transparency(code, blocks, t));
    }
  }

  /** A later image record that giflib can read and skip: its descriptor and all its lines. */
  predicate Skippable(rec: Record)
  {
    rec.ImageDesc? && rec.desc.Some? && |rec.lines| >= rec.desc.value.height
  }

  /**
   * The record loop as evidently intended: the first image is read as before, and a later image
   * record is read past (DGifGetImageDesc, then its lines) instead of being left in the stream;
   * failing to read it is an error.
   */
  function IntendedScanFrom(records: seq<Record>, maxSize: nat, i: nat, frame: Option<Frame>, t: int): Scan
    decreases |records| - i
  {
    if i >= |records| then Scan(false, frame, t)
    else match records[i]
      case Unreadable => Scan(false, frame, t)
      case Terminate => Scan(true, frame, t)
      case ImageDesc(desc, lines) =>
        if frame.Some? then
          if Skippable(records[i]) then IntendedScanFrom(records, maxSize, i + 1, frame, t) else Scan(false, frame, t)
        else if desc.None? then Scan(false, frame, t)
        else if desc.value.width >= maxSize || desc.value.height >= maxSize then Scan(true, frame, t)
        else if |lines| < desc.value.height then Scan(false, frame, t)
        else IntendedScanFrom(records, maxSize, i + 1, Some(Frame(desc.value, Arranged(lines, desc.value.height, desc.value.interlace))), t)
      case Extension(code, blocks) => IntendedScanFrom(records, maxSize, i + 1, frame, Transparency(code, blocks, t))
  }

  /**
   * The intended loop loads an animation: a file of extensions, a readable first image, then
   * extensions and readable later images up to the terminator ends with GIF_OK and the first image.
   */
  lemma IntendedLoadsAnimation(records: seq<Record>, maxSize: nat, k: nat, e: nat)
    requires FirstImage(records, k) && FrameOf(records[k], maxSize).Some?
    requires k < e < |records| && records[e].Terminate?
    requires forall j :: 0 <= j < k ==> records[j].Extension?
    requires forall j :: k < j < e ==> records[j].Extension? || Skippable(records[j])
    ensures IntendedScanFrom(records, maxSize, 0, None, -1).ok
    ensures IntendedScanFrom(records, maxSize, 0, None, -1).frame == FrameOf(records[k], maxSize)
  {
    IntendedBeforeImage(records, maxSize, k, e, 0, -1);
  }

  lemma {:induction false} IntendedBeforeImage(records: seq<Record>, maxSize: nat, k: nat, e: nat, i: nat, t: int)
    requires FirstImage(records, k) && FrameOf(records[k], maxSize).Some?
    requires i <= k < e < |records| && records[e].Terminate?
    requires forall j :: i <= j < k ==> records[j].Extension?
    requires forall j :: k < j < e ==> records[j].Extension? || Skippable(records[j])
    ensures IntendedScanFrom(records, maxSize, i, None, t).ok
    ensures IntendedScanFrom(records, maxSize, i, None, t).frame == FrameOf(records[k], maxSize)
    decreases k - i
  {
    if i < k {
      IntendedBeforeImage(records, maxSize, k, e, i + 1, Transparency(records[i].code, records[i].blocks, t));
    } else {
      IntendedAfterImage(records, maxSize, e, i + 1, FrameOf(records[k], maxSize).value, t);
    }
  }

  lemma {:induction false} IntendedAfterImage(records: seq<Record>, maxSize: nat, e: nat, i: nat, f: Frame, t: int)
    requires i <= e < |records| && records[e].Terminate?
    requires forall j :: i <= j < e ==> records[j].Extension? || Skippable(records[j])
    ensures IntendedScanFrom(records, maxSize, i, Some(f), t) == Scan(true, Some(f), IntendedScanFrom(records, maxSize, i, Some(f), t).transparent)
    decreases e - i
  {
    if i < e {
      var t' := if records[i].Extension? then Transparency(records[i].code, records[i].blocks, t) else t;
      IntendedAfterImage(records, maxSize, e, i + 1, f, t');
    }
  }

  /**
   * A two-frame animation: both 1x1 frames readable. As written the loop fails on the second
   * descriptor and the loader returns no image; the intended loop returns the first frame.
   */
  lemma TwoFramesLoadNothing()
    ensures var frame := ImageDesc(Some(Descriptor(1, 1, false, None)), [[0]]);
            var records := [frame, frame, Terminate];
            !ScanAll(records, 2).ok && IntendedScanFrom(records, 2, 0, None, -1).ok &&
            IntendedScanFrom(records, 2, 0, None, -1).frame.Some?
  {
    var frame := ImageDesc(Some(Descriptor(1, 1, false, None)), [[0]]);
    var records := [frame, frame, Terminate];
    IntendedLoadsAnimation(records, 2, 0, 2);
  }

  /** The dimension guard: a first image MAX or more wide or high leaves the loader without an image. */
  lemma LargeImageRejected(records: seq<Record>, maxSize: nat, k: nat)
    requires FirstImage(records, k) && records[k].desc.Some?
    requires records[k].desc.value.width >= maxSize || records[k].desc.value.height >= maxSize
    ensures ScanAll(records, maxSize).frame.None?
  {
    ScanTakesFirstImage(records, maxSize);
  }

  // ---------------------------------------------------------------------------------------------
  // Palette mapping
  // ---------------------------------------------------------------------------------------------

  /** The colour map in use: the image's own when it has one, else the global one. */
  function Palette(file: GifFile, d: Descriptor): seq<Colour>
  {
    if d.colorMap.Some? then d.colorMap.value else if file.colorMap.Some? then file.colorMap.value else []
  }

  /** Entry `c` of the colour map; an index past the map's end reads as black. */
  function Lookup(cmap: seq<Colour>, c: int): Colour
  {
    if 0 <= c < |cmap| then cmap[c] else Colour(0, 0, 0)
  }

  /** The colour of pixel `x`: a transparent pixel takes the background index's colour. */
  function PixelColour(row: seq<Byte>, x: nat, t: int, bg: Byte, cmap: seq<Colour>): Colour
  {
    if ByteAt(row, x) == t then Lookup(cmap, bg) else Lookup(cmap, ByteAt(row, x))
  }

  /** Channel `ch` of pixel `x`: its colour, and alpha 0 when transparent, 0xFF otherwise. */
  function Sample(row: seq<Byte>, x: nat, t: int, bg: Byte, cmap: seq<Colour>, ch: Channel): U32
  {
    match ch
    case Red => PixelColour(row, x, t, bg, cmap).red
    case Green => PixelColour(row, x, t, bg, cmap).green
    case Blue => PixelColour(row, x, t, bg, cmap).blue
    case Alpha => if ByteAt(row, x) == t then 0 else 0xFF
  }

  /** Some pixel of the row has the transparent index. */
  predicate HasTransparent(row: seq<Byte>, width: nat, t: int)
  {
    exists x :: 0 <= x < width && ByteAt(row, x) == t
  }

  /** Line `ch` of a row of indices: the alpha line exists only when a pixel is transparent. */
  function GifLine(row: seq<Byte>, width: nat, t: int, bg: Byte, cmap: seq<Colour>, ch: Channel): Option<seq<U32>>
  {
    if ch == Alpha && !HasTransparent(row, width, t) then None else Some(Samples(row, width, t, bg, cmap, ch))
  }

  /** Channel `ch` of the first `width` pixels of a row. */
  function Samples(row: seq<Byte>, width: nat, t: int, bg: Byte, cmap: seq<Colour>, ch: Channel): (line: seq<U32>)
    ensures |line| == width && forall x :: 0 <= x < width ==> line[x] == Sample(row, x, t, bg, cmap, ch)
  {
    seq(width, x requires 0 <= x < width => Sample(row, x, t, bg, cmap, ch))
  }

  /** The image holds, row by row, the lines of the frame's rows of indices. */
  ghost predicate GifDecoded(im: Image, f: Frame, t: int, bg: Byte, cmap: seq<Colour>)
  {
    im.Valid() && im.width == f.desc.width && im.height == f.desc.height && |f.rows| == f.desc.height &&
    forall ch, y :: 0 <= y < im.height ==> im.Line(ch, y) == GifLine(f.rows[y], im.width, t, bg, cmap, ch)
  }

  /**
   * The mapping of one row of indices into the scanline: each pixel's colour from the colour map,
   * alpha 0 for the transparent index and 0xFF for any other; the result says whether a pixel
   * was transparent.
   */
  method MapRow(row: seq<Byte>, buf: Scanline, t: int, bg: Byte, cmap: seq<Colour>) returns (doAlpha: bool)
    requires buf.Valid() && !buf.bgr
    modifies buf.xc1, buf.xc2, buf.xc3, buf.alpha
    ensures doAlpha == HasTransparent(row, buf.width, t)
    ensures forall x :: 0 <= x < buf.width ==>
              buf.Red()[x] == Sample(row, x, t, bg, cmap, Red) && buf.Green()[x] == Sample(row, x, t, bg, cmap, Green) &&
              buf.Blue()[x] == Sample(row, x, t, bg, cmap, Blue) && buf.alpha[x] == Sample(row, x, t, bg, cmap, Alpha)
  {
    doAlpha := false;
    var x := 0;
    while x < buf.width
      invariant x <= buf.width
      invariant doAlpha == HasTransparent(row, x, t)
      invariant forall j :: 0 <= j < x ==>
                  buf.xc1[j] == Sample(row, j, t, bg, cmap, Red) && buf.xc2[j] == Sample(row, j, t, bg, cmap, Green) &&
                  buf.xc3[j] == Sample(row, j, t, bg, cmap, Blue) && buf.alpha[j] == Sample(row, j, t, bg, cmap, Alpha)
    {
      var c := ByteAt(row, x);
      if c == t {
        c := bg;
        doAlpha := true;
        buf.alpha[x] := 0;
      } else {
        buf.alpha[x] := 0xFF;
        assert !HasTransparent(row, x + 1, t) <==> !HasTransparent(row, x, t);
      }
      var colour := Lookup(cmap, c);
      buf.xc1[x] := colour.red;
      buf.xc2[x] := colour.green;
      buf.xc3[x] := colour.blue;
      x := x + 1;
    }
  }

  /** One pass of the mapping loop: map row `y`, store its colour lines, and its alpha line if needed. */
  method AddRow(im: Image, buf: Scanline, row: seq<Byte>, t: int, bg: Byte, cmap: seq<Colour>, y: nat) returns (r: Image)
    requires im.Valid() && y < im.height && buf.Valid() && !buf.bgr && buf.width == im.width
    modifies buf.xc1, buf.xc2, buf.xc3, buf.alpha
    ensures r.Valid() && r.width == im.width && r.height == im.height
    ensures forall ch :: r.Line(ch, y) == if ch == Alpha && !HasTransparent(row, im.width, t) then im.Line(ch, y)
                                          else GifLine(row, im.width, t, bg, cmap, ch)
    ensures forall ch, j :: 0 <= j < im.height && j != y ==> r.Line(ch, j) == im.Line(ch, j)
  {
    var doAlpha := MapRow(row, buf, t, bg, cmap);
    r := AddColourLines(im, buf, y);
    assert buf.alpha[..] == buf.alpha[..][..im.width];
    if doAlpha {
      r := AddLine(r, Alpha, buf.alpha[..], y);
    }
    forall ch
      ensures r.Line(ch, y) == if ch == Alpha && !HasTransparent(row, im.width, t) then im.Line(ch, y)
                               else GifLine(row, im.width, t, bg, cmap, ch)
    {
      var line := Samples(row, im.width, t, bg, cmap, ch);
      match ch
      case Red =>
        assert buf.Red()[..im.width] == line;
        assert r.Line(ch, y) == Some(line);
      case Green =>
        assert buf.Green()[..im.width] == line;
        assert r.Line(ch, y) == Some(line);
      case Blue =>
        assert buf.Blue()[..im.width] == line;
        assert r.Line(ch, y) == Some(line);
      case Alpha =>
        assert buf.alpha[..] == line;
        assert doAlpha ==> r.Line(ch, y) == Some(line);
    }
  }

  /** The mapping loop of gif2ASImage over all rows of the image read. */
  method MapRows(f: Frame, t: int, bg: Byte, cmap: seq<Colour>) returns (im: Image)
    requires |f.rows| == f.desc.height
    ensures GifDecoded(im, f, t, bg, cmap)
  {
    var w, h := f.desc.width as nat, f.desc.height as nat;
    im := Start(w, h);
    var buf := new Scanline(w, false);
    var y := 0;
    while y < h
      invariant y <= h && im.Valid() && im.width == w && im.height == h
      invariant forall ch, j :: 0 <= j < h ==> im.Line(ch, j) == if j < y then GifLine(f.rows[j], w, t, bg, cmap, ch) else None
    {
      var im' := AddRow(im, buf, f.rows[y], t, bg, cmap, y);
      im := im';
      y := y + 1;
    }
  }

  /**
   * gif2ASImage: an image exists when the record loop ends with status GIF_OK after reading an
   * image; its lines are the mapped rows of that image with the transparent index the loop found.
   */
  method Gif2ASImage(file: Option<GifFile>, maxSize: nat) returns (im: Option<Image>)
    ensures file.None? ==> im.None?
    ensures file.Some? ==>
              var sc := ScanAll(file.value.records, maxSize);
              (im.Some? <==> sc.ok && sc.frame.Some?) &&
              (im.Some? ==> GifDecoded(im.value, sc.frame.value, sc.transparent, file.value.background,
                                       Palette(file.value, sc.frame.value.desc)))
  {
    if file.None? {
      return None;
    }
    var g := file.value;
    var sc := ReadRecords(g.records, maxSize);
    if !sc.ok || sc.frame.None? {
      return None;
    }
    FrameRows(g.records, maxSize);
    var f := sc.frame.value;
    var image := MapRows(f, sc.transparent, g.background, Palette(g, f.desc));
    im := Some(image);
  }

  /** The image the record loop reads has one row per line of its height. */
  lemma FrameRows(records: seq<Record>, maxSize: nat)
    ensures ScanAll(records, maxSize).frame.Some? ==>
              |ScanAll(records, maxSize).frame.value.rows| == ScanAll(records, maxSize).frame.value.desc.height
  {
    ScanTakesFirstImage(records, maxSize);
  }

  /**
   * The transparency rule as it shows in the image: a row has an alpha line exactly when one of
   * its pixels has the transparent index; in it such a pixel has alpha 0 and every other 0xFF;
   * a transparent pixel shows the background index's colour and any other its own entry.
   */
  lemma TransparentPixels(im: Image, f: Frame, t: int, bg: Byte, cmap: seq<Colour>, y: nat, x: nat)
    requires GifDecoded(im, f, t, bg, cmap) && y < im.height && x < im.width
    ensures im.Line(Alpha, y).Some? <==> exists x' :: 0 <= x' < im.width && ByteAt(f.rows[y], x') == t
    ensures im.Line(Alpha, y).Some? ==> (im.Line(Alpha, y).value[x] == 0 <==> ByteAt(f.rows[y], x) == t)
    ensures im.Line(Alpha, y).Some? ==> (im.Line(Alpha, y).value[x] == 0xFF <==> ByteAt(f.rows[y], x) != t)
    ensures var c := if ByteAt(f.rows[y], x) == t then Lookup(cmap, bg) else Lookup(cmap, ByteAt(f.rows[y], x));
            im.Line(Red, y) == Some(Samples(f.rows[y], im.width, t, bg, cmap, Red)) &&
            im.Line(Red, y).value[x] == c.red && im.Line(Green, y).value[x] == c.green &&
            im.Line(Blue, y).value[x] == c.blue
  {
    assert im.Line(Alpha, y) == GifLine(f.rows[y], im.width, t, bg, cmap, Alpha);
    assert im.Line(Red, y) == GifLine(f.rows[y], im.width, t, bg, cmap, Red);
    assert im.Line(Green, y) == GifLine(f.rows[y], im.width, t, bg, cmap, Green);
    assert im.Line(Blue, y) == GifLine(f.rows[y], im.width, t, bg, cmap, Blue);
  }

  /** Without a graphic-control extension marking transparency the image has no alpha line at all. */
  lemma OpaqueWithoutTransparency(im: Image, f: Frame, t: int, bg: Byte, cmap: seq<Colour>)
    requires GifDecoded(im, f, t, bg, cmap) && t < 0
    ensures !im.HasAlpha()
  {
    forall y | 0 <= y < im.height
      ensures im.alpha[y].None?
    {
      assert im.Line(Alpha, y) == GifLine(f.rows[y], im.width, t, bg, cmap, Alpha);
    }
  }
}
