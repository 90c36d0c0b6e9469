/**
 * The decoded image (ASImage) as the import code builds it: asimage_start gives an image of
 * the stated size with no stored lines, and asimage_add_line stores one line of one channel.
 * A channel line that was never added reads as absent.
 */
module Images {
  import opened Common

  datatype Channel = Red | Green | Blue | Alpha

  datatype Image = Image(width: nat, height: nat,
                         red: seq<Option<seq<U32>>>, green: seq<Option<seq<U32>>>,
                         blue: seq<Option<seq<U32>>>, alpha: seq<Option<seq<U32>>>)
  {
    /** One entry per row in each channel; a stored line has `width` samples. */
    ghost predicate Valid()
    {
      |red| == height && |green| == height && |blue| == height && |alpha| == height &&
      forall y :: 0 <= y < height ==>
        (red[y].Some? ==> |red[y].value| == width) && (green[y].Some? ==> |green[y].value| == width) &&
        (blue[y].Some? ==> |blue[y].value| == width) && (alpha[y].Some? ==> |alpha[y].value| == width)
    }

    function Lines(ch: Channel): seq<Option<seq<U32>>>
    {
      match ch
      case Red => red
      case Green => green
      case Blue => blue
      case Alpha => alpha
    }

    /** Line `y` of channel `ch`, None when it was not stored. */
    function Line(ch: Channel, y: nat): Option<seq<U32>>
      requires Valid() && y < height
    {
      Lines(ch)[y]
    }

    /** Some row carries an alpha line (the test file2pixmap makes before building a mask). */
    predicate HasAlpha()
    {
      exists y :: 0 <= y < |alpha| && alpha[y].Some?
    }
  }

  /** asimage_start: an image of the given size with no line stored. */
  function Start(width: nat, height: nat): (im: Image)
    ensures im.Valid() && im.width == width && im.height == height
    ensures forall ch, y :: 0 <= y < height ==> im.Line(ch, y).None?
    ensures !im.HasAlpha()
  {
    var none := seq(height, _ => None);
    Image(width, height, none, none, none, none)
  }

  /** asimage_add_line: stores the first `width` samples of `data` as line `y` of channel `ch`. */
  function AddLine(im: Image, ch: Channel, data: seq<U32>, y: nat): (r: Image)
    requires im.Valid() && y < im.height && |data| >= im.width
    ensures r.Valid() && r.width == im.width && r.height == im.height
    ensures r.Line(ch, y) == Some(data[..im.width])
    ensures forall ch', y' :: 0 <= y' < im.height && (ch' != ch || y' != y) ==> r.Line(ch', y') == im.Line(ch', y')
  {
    var line := Some(data[..im.width]);
    match ch
    case Red => im.(red := im.red[y := line])
    case Green => im.(green := im.green[y := line])
    case Blue => im.(blue := im.blue[y := line])
    case Alpha => im.(alpha := im.alpha[y := line])
  }
}
