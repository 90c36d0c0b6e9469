/**
 * The Wharf dock's own objects: a folder (ASWharfFolder) is a window holding an array of buttons
 * (ASWharfButton structs), some of which open a sub-folder. Only the fields the layout, animation
 * and pressed-state rules read or write are kept; canvases, bars and swallowed windows are X
 * objects and are reduced to the numbers those rules use.
 */
module WharfFolders {
  import opened Common

  /** ASWharfButton flag bits. */
  const SwallowTarget: bv32 := 0x01
  const MaxSwallow: bv32 := 0x02
  const FixedWidth: bv32 := 0x04
  const FixedHeight: bv32 := 0x08
  const Transient: bv32 := 0x10

  /** ASWharfFolder flag bits. */
  const Mapped: bv32 := 0x01
  const Vertical: bv32 := 0x02
  const Withdrawn: bv32 := 0x04
  const NeedsShaping: bv32 := 0x08
  const Shaped: bv32 := 0x10
  const ReverseOrder: bv32 := 0x20
  const UseBoundary: bv32 := 0x40
  const AnimationPending: bv32 := 0x80

  /** get_flags: some bit of `bits` is set in `flags`. */
  predicate Has(flags: bv32, bits: bv32)
  {
    flags & bits != 0
  }

  /** X11 window gravities (X.h) the animation code tests. */
  const NorthEastGravity := 3
  const SouthWestGravity := 7
  const SouthEastGravity := 9

  /** A signed 16-bit coordinate (short). */
  type I16 = x: int | -0x8000 <= x < 0x8000

  /** An XRectangle: short x and y, unsigned short width and height. */
  datatype Rect = Rect(x: I16, y: I16, width: U16, height: U16)

  /** The kind of function a button runs: a swallowing one (maximised or not), an Exec, or another. */
  datatype FuncKind = Swallow(maximised: bool) | Exec | OtherFunc

  /** A button's function: its kind and the command or module name it names. */
  datatype Action = Action(kind: FuncKind, text: string)

  /**
   * One button of a folder. `desired*` is the size it asks for, `folder*` the place and size the
   * layout gives it inside the folder; `swallowed` says whether a window is swallowed into it;
   * `folder` is the sub-folder it opens, if any.
   */
  datatype Button = Button(flags: bv32, name: string, action: Option<Action>, swallowed: bool,
                           desiredWidth: nat, desiredHeight: nat,
                           folderX: int, folderY: int, folderWidth: nat, folderHeight: nat,
                           folder: Folder?)

  /** A button as safecalloc leaves it: every field zero. */
  const Blank := Button(0, "", None, false, 0, 0, 0, 0, 0, 0, null)

  /**
   * A folder. `canvasWidth`/`canvasHeight` are its window's current size, `totalWidth`/
   * `totalHeight` the size its buttons need, `boundary` the visible part while it animates.
   */
  class Folder {
    var flags: bv32
    const buttons: array<Button>
    var gravity: int
    var totalWidth: U32
    var totalHeight: U32
    var animationSteps: int
    var animationDir: int
    var canvasWidth: U16
    var canvasHeight: U16
    var boundary: Rect

    /** A zeroed folder with `count` zeroed buttons. */
    constructor (count: nat)
      ensures flags == 0 && gravity == 0 && animationSteps == 0 && animationDir == 0
      ensures totalWidth == 0 && totalHeight == 0 && canvasWidth == 0 && canvasHeight == 0
      ensures boundary == Rect(0, 0, 0, 0)
      ensures fresh(buttons) && buttons.Length == count
      ensures forall i :: 0 <= i < count ==> buttons[i] == Blank
    {
      flags, gravity, animationSteps, animationDir := 0, 0, 0, 0;
      totalWidth, totalHeight, canvasWidth, canvasHeight := 0, 0, 0, 0;
      boundary := Rect(0, 0, 0, 0);
      buttons := new Button[count](_ => Blank);
    }
  }

  /** create_wharf_folder: no folder for a count of zero or less, else a zeroed one of that many buttons. */
  method CreateWharfFolder(count: int) returns (f: Folder?)
    ensures f == null <==> count <= 0
    ensures f != null ==> fresh(f) && fresh(f.buttons) && f.buttons.Length == count && f.flags == 0
    ensures f != null ==> forall i :: 0 <= i < count ==> f.buttons[i] == Blank
  {
    if count > 0 {
      f := new Folder(count);
    } else {
      f := null;
    }
  }
}
