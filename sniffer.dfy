/**
 * Format sniffing of an image file (check_image_type): the compressed-XPM name tests,
 * then at most 16 header bytes tested against the signatures in a fixed order.
 */
module Sniffer {
  import opened Common
  import opened CString

  /** The format tags, named as in the library's ASImageFileTypes. */
  datatype FileType =
    | Xpm | ZCompressedXpm | GZCompressedXpm | Png | Jpeg | Xcf | Ppm | Pnm | Bmp
    | Ico | Cur | Gif | Tiff | Xbm | Targa | Pcx | Unknown

  /** The first bytes of a GIMP XCF file. */
  const XcfSignature: seq<Byte> := [0x67, 0x69, 0x6D, 0x70, 0x20, 0x78, 0x63, 0x66]

  /** "#define", the start of an XBM file. */
  const XbmSignature: seq<Byte> := [0x23, 0x64, 0x65, 0x66, 0x69, 0x6E, 0x65]

  /** "XPM" */
  const XpmTag: seq<Byte> := [0x58, 0x50, 0x4D]

  /** The name ends in `ext` (4 characters) up to case; a shorter name never does. */
  predicate HasSuffix4(name: string, ext: string)
  {
    |name| >= 4 && StrNCaseEq(name[|name| - 4..], ext, 4)
  }

  /** The compressed-XPM test for ".xpm.gz": it compares the last THREE characters with six. */
  predicate IsGzXpmName(name: string)
  {
    |name| > 6 && StrNCaseEq(name[|name| - 3..], "xpm.gz", 6)
  }

  /** The compressed-XPM test for ".xpm.Z": the last three characters against five. */
  predicate IsZXpmName(name: string)
  {
    |name| > 5 && StrNCaseEq(name[|name| - 3..], "xpm.Z", 5)
  }

  /** The 16-byte stack buffer after fread: the bytes read over whatever it held, then head[15] = NUL. */
  function HeadBuffer(content: seq<Byte>, stale: seq<Byte>): (head: seq<Byte>)
    requires |stale| == 16
    ensures |head| == 16 && head[15] == 0
    ensures forall i :: 0 <= i < 15 && i < |content| ==> head[i] == content[i]
  {
    var n := if |content| < 16 then |content| else 16;
    (content[..n] + stale[n..])[15 := 0]
  }

  /** The tests made when more than 3 bytes were read, in their order; Unknown when none holds. */
  function ShortSignature(name: string, head: seq<Byte>): FileType
    requires |head| == 16
  {
    if head[0] == 0xFF && head[1] == 0xD8 && head[2] == 0xFF then Jpeg
    else if Contains(CStr(head), XpmTag) then Xpm
    else if head[1] == 'P' as int && head[2] == 'N' as int && head[3] == 'G' as int then Png
    else if head[0] == 'G' as int && head[1] == 'I' as int && head[2] == 'F' as int then Gif
    else if head[0] == head[1] && (head[0] == 'I' as int || head[0] == 'M' as int) then Tiff
    else if head[0] == 'P' as int && IsDigit(head[1]) then
      (if head[1] != '5' as int && head[1] != '6' as int then Pnm else Ppm)
    else if head[0] == 0x0A && head[1] <= 5 && head[2] == 1 then Pcx
    else if head[0] == 'B' as int && head[1] == 'M' as int then Bmp
    else if head[0] == 0 && head[2] == 1 && HasSuffix4(name, ".ICO") then Ico
    else if head[0] == 0 && head[2] == 2 && (HasSuffix4(name, ".CUR") || HasSuffix4(name, ".ICO")) then Cur
    else Unknown
  }

  /** The tests made when more than 8 bytes were read. */
  function LongSignature(head: seq<Byte>): FileType
    requires |head| == 16
  {
    if StrNEq(head, XcfSignature, 8) then Xcf
    else if head[..8] == [0, 0, 2, 0, 0, 0, 0, 0] then Targa
    else if StrNEq(head, XbmSignature, 7) then Xbm
    else Unknown
  }

  /** Classification of a header buffer of which `bytesIn` bytes were read. */
  function ClassifyHeader(name: string, head: seq<Byte>, bytesIn: nat): FileType
    requires |head| == 16
  {
    var early := if bytesIn > 3 then ShortSignature(name, head) else Unknown;
    if early != Unknown then early
    else if bytesIn > 8 then LongSignature(head)
    else Unknown
  }

  /**
   * check_image_type: `file` is the file's content, None when it cannot be opened;
   * `stale` is what the header buffer held before the read.
   */
  function CheckImageType(name: string, file: Option<seq<Byte>>, stale: seq<Byte>): FileType
    requires |stale| == 16
  {
    if IsGzXpmName(name) then GZCompressedXpm
    else if IsZXpmName(name) then ZCompressedXpm
    else if file.None? then Unknown
    else
      var content := file.value;
      ClassifyHeader(name, HeadBuffer(content, stale), if |content| < 16 then |content| else 16)
  }

  /** A mismatch in the rest, after a character other than NUL, is a mismatch of the whole. */
  lemma StrNCaseNeStep(a: string, b: string, n: nat)
    requires n > 0 && CharAt(b, 0) != '\0' && !StrNCaseEq(Rest(a), Rest(b), n - 1)
    ensures !StrNCaseEq(a, b, n)
  {
  }

  /** As written, neither compressed-XPM name test can succeed: the fourth compared character is NUL. */
  lemma CompressedXpmNamesNeverMatch(name: string)
    ensures !IsGzXpmName(name) && !IsZXpmName(name)
  {
    if |name| > 5 {
      var a := name[|name| - 3..];
      assert Rest(Rest(Rest(a))) == [];
      var gz := "xpm.gz";
      assert Rest(Rest(Rest(gz))) == ".gz";
      assert !StrNCaseEq([], ".gz", 3);
      StrNCaseNeStep(Rest(Rest(a)), Rest(Rest(gz)), 4);
      StrNCaseNeStep(Rest(a), Rest(gz), 5);
      StrNCaseNeStep(a, gz, 6);
      var z := "xpm.Z";
      assert Rest(Rest(Rest(z))) == ".Z";
      assert !StrNCaseEq([], ".Z", 2);
      StrNCaseNeStep(Rest(Rest(a)), Rest(Rest(z)), 3);
      StrNCaseNeStep(Rest(a), Rest(z), 4);
      StrNCaseNeStep(a, z, 5);
    }
  }

  /** With 16 or more bytes the header buffer is the first 15 bytes and a NUL. */
  lemma HeadOfLongFile(content: seq<Byte>, stale: seq<Byte>)
    requires |stale| == 16 && |content| >= 16
    ensures HeadBuffer(content, stale) == content[..15] + [0]
    ensures CStr(HeadBuffer(content, stale)) == CStr(content[..15])
  {
    assert HeadBuffer(content, stale) == content[..15] + [0];
    CStrOfTerminated(content[..15]);
  }

  predicate JpegSignature(content: seq<Byte>)
  {
    |content| >= 3 && content[0] == 0xFF && content[1] == 0xD8 && content[2] == 0xFF
  }

  /** With more than 3 bytes, the JPEG start-of-image marker followed by 0xFF wins over every other test. */
  lemma JpegWinsFirst(name: string, content: seq<Byte>, stale: seq<Byte>)
    requires |stale| == 16 && |content| > 3 && JpegSignature(content)
    ensures CheckImageType(name, Some(content), stale) == Jpeg
  {
    CompressedXpmNamesNeverMatch(name);
  }

  /** A file that cannot be opened, or yields at most 3 bytes, is Unknown whatever its name. */
  lemma ShortFileIsUnknown(name: string, file: Option<seq<Byte>>, stale: seq<Byte>)
    requires |stale| == 16
    requires file.None? || |file.value| <= 3
    ensures CheckImageType(name, file, stale) == Unknown
  {
    CompressedXpmNamesNeverMatch(name);
  }

  /** XCF, Targa and XBM can only be reported when more than 8 bytes were read. */
  lemma LongFormatsNeedNineBytes(name: string, content: seq<Byte>, stale: seq<Byte>)
    requires |stale| == 16
    requires CheckImageType(name, Some(content), stale) in {Xcf, Targa, Xbm}
    ensures |content| > 8
  {
    CompressedXpmNamesNeverMatch(name);
  }

  /** "XPM" counts only inside the NUL-terminated prefix of the first 15 bytes. */
  lemma XpmIffTagInFirst15(name: string, content: seq<Byte>, stale: seq<Byte>)
    requires |stale| == 16 && |content| >= 16 && !JpegSignature(content)
    ensures CheckImageType(name, Some(content), stale) == Xpm <==> Contains(CStr(content[..15]), XpmTag)
  {
    CompressedXpmNamesNeverMatch(name);
    HeadOfLongFile(content, stale);
  }

  lemma {:induction false} CStrOfTerminated(s: seq<Byte>)
    ensures CStr(s + [0]) == CStr(s)
  {
    if s != [] && s[0] != 0 {
      assert (s + [0])[1..] == s[1..] + [0];
      CStrOfTerminated(s[1..]);
    }
  }

  /** 'P' and a digit: Ppm for '5' or '6', Pnm for any other digit (when "XPM" is absent). */
  lemma PnmByDigit(name: string, content: seq<Byte>, stale: seq<Byte>)
    requires |stale| == 16 && |content| >= 16
    requires content[0] == 'P' as int && IsDigit(content[1])
    requires !Contains(CStr(content[..15]), XpmTag)
    ensures CheckImageType(name, Some(content), stale) ==
              (if content[1] == '5' as int || content[1] == '6' as int then Ppm else Pnm)
  {
    CompressedXpmNamesNeverMatch(name);
    HeadOfLongFile(content, stale);
  }

  /**
   * A header starting with 0 and not carrying "PNG" at 1..3 is an icon exactly when byte 2 is 1
   * and the name ends in ".ICO", a cursor exactly when byte 2 is 2 and it ends in ".CUR" or ".ICO".
   */
  lemma IconAndCursor(name: string, content: seq<Byte>, stale: seq<Byte>)
    requires |stale| == 16 && |content| >= 16 && content[0] == 0
    requires !(content[1] == 'P' as int && content[2] == 'N' as int && content[3] == 'G' as int)
    ensures CheckImageType(name, Some(content), stale) == Ico <==>
              content[2] == 1 && HasSuffix4(name, ".ICO")
    ensures CheckImageType(name, Some(content), stale) == Cur <==>
              content[2] == 2 && (HasSuffix4(name, ".CUR") || HasSuffix4(name, ".ICO"))
  {
    CompressedXpmNamesNeverMatch(name);
    HeadOfLongFile(content, stale);
    var head := HeadBuffer(content, stale);
    assert CStr(head) == [];
    assert !Contains(CStr(head), XpmTag);
    StrNEqLiteral(head, XcfSignature, 8);
    StrNEqLiteral(head, XbmSignature, 7);
  }

  /** A header whose first sixteen bytes are zero is not recognised, whatever the name. */
  lemma ZeroHeaderIsUnknown(name: string, content: seq<Byte>, stale: seq<Byte>)
    requires |stale| == 16 && |content| >= 16
    requires forall i :: 0 <= i < 16 ==> content[i] == 0
    ensures CheckImageType(name, Some(content), stale) == Unknown
  {
    CompressedXpmNamesNeverMatch(name);
    HeadOfLongFile(content, stale);
    var head := HeadBuffer(content, stale);
    assert head[0] == 0 && head[1] == 0 && head[2] == 0;
    assert CStr(head) == [];
    assert !Contains(CStr(head), XpmTag);
    assert ShortSignature(name, head) == Unknown;
    StrNEqLiteral(head, XcfSignature, 8);
    StrNEqLiteral(head, XbmSignature, 7);
    assert head[..8][2] == 0;
    assert LongSignature(head) == Unknown;
  }
}
