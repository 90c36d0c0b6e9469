/**
 * The high-level entry file2ASImage: finding the file (as given, with ".gz" or ".Z" appended,
 * then with a trailing ".<number>" sub-image index stripped), sniffing its format and choosing
 * the loader from the table indexed by format.
 */
module Locator {
  import opened Common
  import opened CString
  import opened Sniffer

  /**
   * What the loader sees of the file system: CheckFile (true when the name is a readable file),
   * find_file on one entry of the search-path list (None standing for the terminating NULL),
   * and the bytes a name opens to (None when fopen fails).
   */
  datatype FileSystem = FileSystem(
    checkFile: string -> bool,
    findFile: (string, Option<string>) -> Option<string>,
    contents: string -> Option<seq<Byte>>)

  /** Entry `i` of a NULL-terminated list of search paths. */
  function PathAt(paths: seq<string>, i: nat): (p: Option<string>)
    ensures p.Some? <==> i < |paths|
  {
    if i < |paths| then Some(paths[i]) else None
  }

  /**
   * Where locate_image_file ends up: the name itself when CheckFile accepts it, otherwise the
   * answer of the find_file call made for the terminating NULL entry. Every earlier call's answer
   * is overwritten by the next one, so the search paths never decide the outcome.
   */
  function Located(fs: FileSystem, file: string): Option<string>
  {
    if fs.checkFile(file) then Some(file) else fs.findFile(file, None)
  }

  /** locate_image_file: the do-while loop over the path list, ending after the NULL entry. */
  method LocateImageFile(fs: FileSystem, file: string, paths: seq<string>) returns (r: Option<string>)
    ensures r == Located(fs, file)
  {
    if fs.checkFile(file) {
      r := Some(file);
    } else {
      var i := 0;
      var more := true;
      r := None;
      while more
        invariant 0 <= i <= |paths| + 1
        invariant more ==> i <= |paths|
        invariant !more ==> r == fs.findFile(file, None)
        decreases |paths| + 1 - i
      {
        var p := PathAt(paths, i);
        r := fs.findFile(file, p);
        more := p.Some?;
        i := i + 1;
      }
    }
  }

  predicate AllDigits(s: string)
  {
    forall j :: 0 <= j < |s| ==> IsDigit(s[j] as int)
  }

  /** A '.' at `k`, neither first nor last, followed only by decimal digits: a sub-image suffix. */
  predicate SubimageDot(name: string, k: int)
  {
    0 < k < |name| - 1 && name[k] == '.' && AllDigits(name[k + 1..])
  }

  /** Everything after a sub-image dot is a digit. */
  lemma DigitsAfterDot(name: string, k: int)
    requires SubimageDot(name, k)
    ensures forall j :: k < j < |name| ==> IsDigit(name[j] as int)
  {
    forall j | k < j < |name|
      ensures IsDigit(name[j] as int)
    {
      assert name[k + 1..][j - k - 1] == name[j];
    }
  }

  /** A name has at most one sub-image dot: it is its last non-digit. */
  lemma SubimageDotUnique(name: string, k1: int, k2: int)
    requires SubimageDot(name, k1) && SubimageDot(name, k2)
    ensures k1 == k2
  {
    DigitsAfterDot(name, k1);
    DigitsAfterDot(name, k2);
  }

  /** The position where the backward scan stops is the only place a sub-image dot can be. */
  lemma DotIsWhereScanStops(name: string, k: int, i: int)
    requires SubimageDot(name, k)
    requires -1 <= i < |name|
    requires forall j :: i < j < |name| ==> IsDigit(name[j] as int)
    requires i > 0 ==> !IsDigit(name[i] as int)
    ensures k == i
  {
    DigitsAfterDot(name, k);
  }

  /** The scan of file2ASImage from the last character back to the first non-digit (index 0 excluded). */
  method FindSubimageDot(name: string) returns (dot: Option<nat>)
    ensures dot.Some? ==> SubimageDot(name, dot.value)
    ensures dot.None? ==> forall k :: !SubimageDot(name, k)
  {
    var i := |name| - 1;
    while i > 0 && IsDigit(name[i] as int)
      invariant -1 <= i < |name|
      invariant forall j :: i < j < |name| ==> IsDigit(name[j] as int)
    {
      i := i - 1;
    }
    forall k | SubimageDot(name, k)
      ensures k == i
    {
      DotIsWhereScanStops(name, k, i);
    }
    if i < |name| - 1 && i > 0 && name[i] == '.' {
      dot := Some(i);
    } else {
      dot := None;
    }
  }

  /** The value atoi gives for a string of decimal digits. */
  function DecimalValue(s: string): (v: nat)
    requires AllDigits(s)
  {
    if s == [] then 0 else 10 * DecimalValue(s[..|s| - 1]) + (s[|s| - 1] as int - '0' as int)
  }

  /** The name without its sub-image suffix, and the sub-image index the suffix gives. */
  ghost function SubimageSplit(name: string): (r: Option<(string, nat)>)
    ensures r.Some? <==> exists k :: SubimageDot(name, k)
  {
    if exists k :: SubimageDot(name, k) then
      var k :| SubimageDot(name, k);
      Some((name[..k], DecimalValue(name[k + 1..])))
    else None
  }

  /** A name to try and the sub-image index that goes with it (-1: none). */
  datatype Candidate = Candidate(name: string, subimage: int)

  /** A name as given, then with ".gz", then with ".Z" appended, all with one sub-image index. */
  function WithSuffixes(base: string, subimage: int): seq<Candidate>
  {
    [Candidate(base, subimage), Candidate(base + ".gz", subimage), Candidate(base + ".Z", subimage)]
  }

  /** The names file2ASImage tries, in order. */
  ghost function Candidates(file: string): (cs: seq<Candidate>)
    ensures 3 <= |cs| <= 6
    ensures cs[0] == Candidate(file, -1)
  {
    WithSuffixes(file, -1) +
    match SubimageSplit(file)
    case None => []
    case Some((base, n)) => WithSuffixes(base, n)
  }

  /** The first candidate that locate_image_file finds, as the path it found and the sub-image index. */
  function FirstFound(fs: FileSystem, cs: seq<Candidate>): (r: Option<Candidate>)
    ensures r.Some? ==> exists j :: 0 <= j < |cs| && Located(fs, cs[j].name) == Some(r.value.name)
                                     && cs[j].subimage == r.value.subimage
    ensures r.None? <==> forall j :: 0 <= j < |cs| ==> Located(fs, cs[j].name).None?
  {
    if cs == [] then None
    else match Located(fs, cs[0].name)
      case Some(path) => Some(Candidate(path, cs[0].subimage))
      case None =>
        var r := FirstFound(fs, cs[1..]);
        assert forall j :: 1 <= j < |cs| ==> cs[j] == cs[1..][j - 1];
        r
  }

  /** The loaders of the table, one per reader. */
  datatype Loader = XpmLoader | PngLoader | JpegLoader | XcfLoader | PpmLoader | BmpLoader
                  | IcoLoader | GifLoader | TiffLoader

  /** as_image_file_loaders, indexed by format; XBM, Targa and PCX have no loader. */
  function LoaderFor(t: FileType): Option<Loader>
    requires t != Unknown
  {
    match t
    case Xpm => Some(XpmLoader)
    case ZCompressedXpm => Some(XpmLoader)
    case GZCompressedXpm => Some(XpmLoader)
    case Png => Some(PngLoader)
    case Jpeg => Some(JpegLoader)
    case Xcf => Some(XcfLoader)
    case Ppm => Some(PpmLoader)
    case Pnm => Some(PpmLoader)
    case Bmp => Some(BmpLoader)
    case Ico => Some(IcoLoader)
    case Cur => Some(IcoLoader)
    case Gif => Some(GifLoader)
    case Tiff => Some(TiffLoader)
    case Xbm => None
    case Targa => None
    case Pcx => None
  }

  /** The formats that are recognised but cannot be read. */
  lemma UnsupportedFormats(t: FileType)
    requires t != Unknown
    ensures LoaderFor(t).None? <==> t in {Xbm, Targa, Pcx}
  {
  }

  /** What file2ASImage ends with: the loader it calls (and on what), or why it returns NULL. */
  datatype LoadRequest =
    | NoName
    | NotFound
    | UnknownFormat(path: string)
    | NotImplemented(path: string)
    | Load(loader: Loader, path: string, subimage: int)

  /** The outcome once a path is found: sniff it, then look the format up in the table. */
  function Dispatch(fs: FileSystem, found: Candidate, stale: seq<Byte>): (req: LoadRequest)
    requires |stale| == 16
    ensures req.UnknownFormat? || req.NotImplemented? || req.Load?
    ensures req.path == found.name
    ensures req.Load? ==> req.subimage == found.subimage
  {
    var t := CheckImageType(found.name, fs.contents(found.name), stale);
    if t == Unknown then UnknownFormat(found.name)
    else match LoaderFor(t)
      case None => NotImplemented(found.name)
      case Some(l) => Load(l, found.name, found.subimage)
  }

  /** The whole of file2ASImage, stated over the list of candidate names. */
  ghost function File2ASImageSpec(fs: FileSystem, file: Option<string>, stale: seq<Byte>): LoadRequest
    requires |stale| == 16
  {
    if file.None? then NoName
    else match FirstFound(fs, Candidates(file.value))
      case None => NotFound
      case Some(c) => Dispatch(fs, c, stale)
  }

  /** One step of the search: the head of the list if it is found, else the search of the rest. */
  lemma FirstFoundCons(fs: FileSystem, cs: seq<Candidate>)
    requires cs != []
    ensures FirstFound(fs, cs) ==
              if Located(fs, cs[0].name).Some? then Some(Candidate(Located(fs, cs[0].name).value, cs[0].subimage))
              else FirstFound(fs, cs[1..])
  {
  }

  /** Searching a list that is split in two searches the second part only when the first finds nothing. */
  lemma {:induction false} FirstFoundAppend(fs: FileSystem, xs: seq<Candidate>, ys: seq<Candidate>)
    ensures FirstFound(fs, xs + ys) == if FirstFound(fs, xs).Some? then FirstFound(fs, xs) else FirstFound(fs, ys)
  {
    if xs != [] {
      assert (xs + ys)[0] == xs[0];
      assert (xs + ys)[1..] == xs[1..] + ys;
      FirstFoundAppend(fs, xs[1..], ys);
    } else {
      assert xs + ys == ys;
    }
  }

  /** Three calls of locate_image_file: the name, then with ".gz", then with ".Z". */
  method LocateWithSuffixes(fs: FileSystem, base: string, paths: seq<string>, subimage: int)
    returns (found: Option<Candidate>)
    ensures found == FirstFound(fs, WithSuffixes(base, subimage))
  {
    var located := LocateImageFile(fs, base, paths);
    if located.None? {
      located := LocateImageFile(fs, base + ".gz", paths);
    }
    if located.None? {
      located := LocateImageFile(fs, base + ".Z", paths);
    }
    found := if located.None? then None else Some(Candidate(located.value, subimage));
    var cs := WithSuffixes(base, subimage);
    FirstFoundCons(fs, cs);
    FirstFoundCons(fs, cs[1..]);
    FirstFoundCons(fs, cs[2..]);
    assert cs[1..][1..] == cs[2..] && cs[2..][1..] == [];
  }

  /**
   * file2ASImage up to the loader call. `paths` are the variable arguments before their NULL
   * (at most seven are kept); `stale` is the sniffer's header buffer before its read.
   */
  method File2ASImage(fs: FileSystem, file: Option<string>, paths: seq<string>, stale: seq<Byte>)
    returns (req: LoadRequest)
    requires |stale| == 16
    ensures req == File2ASImageSpec(fs, file, stale)
  {
    if file.None? {
      return NoName;
    }
    var name := file.value;
    var list := if |paths| > 7 then paths[..7] else paths;
    var found := LocateWithSuffixes(fs, name, list, -1);
    if found.None? {
      var dot := FindSubimageDot(name);
      if dot.Some? {
        var k := dot.value;
        SplitAtDot(name, k);
        found := LocateWithSuffixes(fs, name[..k], list, DecimalValue(name[k + 1..]));
      }
    }
    FirstFoundAppend(fs, WithSuffixes(name, -1),
                     match SubimageSplit(name) case None => [] case Some((base, n)) => WithSuffixes(base, n));
    req := if found.None? then NotFound else Dispatch(fs, found.value, stale);
  }

  /** SubimageSplit picks the one sub-image dot there is. */
  lemma SplitAtDot(name: string, k: int)
    requires SubimageDot(name, k)
    ensures SubimageSplit(name) == Some((name[..k], DecimalValue(name[k + 1..])))
  {
    var k' :| SubimageDot(name, k') && SubimageSplit(name) == Some((name[..k'], DecimalValue(name[k' + 1..])));
    SubimageDotUnique(name, k, k');
  }

  /** A name CheckFile accepts is used as it is, with no sub-image index; the search paths play no part. */
  lemma ExactNameWins(fs: FileSystem, file: string, stale: seq<Byte>)
    requires |stale| == 16 && fs.checkFile(file)
    ensures File2ASImageSpec(fs, Some(file), stale) == Dispatch(fs, Candidate(file, -1), stale)
  {
    FirstFoundAppend(fs, WithSuffixes(file, -1),
                     match SubimageSplit(file) case None => [] case Some((base, n)) => WithSuffixes(base, n));
    FirstFoundCons(fs, WithSuffixes(file, -1));
  }

  /** A candidate found in a list of one sub-image index carries that index. */
  lemma FoundIndex(fs: FileSystem, base: string, n: int)
    ensures FirstFound(fs, WithSuffixes(base, n)).None? || FirstFound(fs, WithSuffixes(base, n)).value.subimage == n
  {
    var cs := WithSuffixes(base, n);
    assert forall j :: 0 <= j < |cs| ==> cs[j].subimage == n;
  }

  /**
   * A sub-image index reaches the loader only when none of the name, name.gz and name.Z was found
   * and the name ends in '.' and digits; the index is the value of those digits.
   */
  lemma SubimageIndexFromSuffix(fs: FileSystem, file: string, stale: seq<Byte>)
    requires |stale| == 16
    requires File2ASImageSpec(fs, Some(file), stale).Load?
    requires File2ASImageSpec(fs, Some(file), stale).subimage != -1
    ensures forall c :: c in WithSuffixes(file, -1) ==> Located(fs, c.name).None?
    ensures exists k :: SubimageDot(file, k) &&
              File2ASImageSpec(fs, Some(file), stale).subimage == DecimalValue(file[k + 1..])
  {
    var c := FirstFound(fs, Candidates(file)).value;
    assert File2ASImageSpec(fs, Some(file), stale) == Dispatch(fs, c, stale);
    SearchWithIndex(fs, file);
  }

  /** The search finds a candidate with a sub-image index only past the three plain names. */
  lemma SearchWithIndex(fs: FileSystem, file: string)
    requires FirstFound(fs, Candidates(file)).Some? && FirstFound(fs, Candidates(file)).value.subimage != -1
    ensures FirstFound(fs, WithSuffixes(file, -1)).None?
    ensures exists k :: SubimageDot(file, k) && FirstFound(fs, Candidates(file)).value.subimage == DecimalValue(file[k + 1..])
  {
    var first := WithSuffixes(file, -1);
    var rest := match SubimageSplit(file) case None => [] case Some((base, n)) => WithSuffixes(base, n);
    FirstFoundAppend(fs, first, rest);
    FoundIndex(fs, file, -1);
    assert rest != [];
    var k :| SubimageDot(file, k);
    SplitAtDot(file, k);
    FoundIndex(fs, file[..k], DecimalValue(file[k + 1..]));
  }

  /** A file found but not read is one of the three formats without a loader, or one not recognised. */
  lemma NotImplementedFormats(fs: FileSystem, file: string, stale: seq<Byte>)
    requires |stale| == 16
    requires File2ASImageSpec(fs, Some(file), stale).NotImplemented?
    ensures var path := File2ASImageSpec(fs, Some(file), stale).path;
            CheckImageType(path, fs.contents(path), stale) in {Xbm, Targa, Pcx}
  {
  }
}
