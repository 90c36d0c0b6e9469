/**
 * One step of a folder's open/close animation (animate_wharf), the clamping of the visible
 * rectangle to the folder's gravity (clamp_animation_rect), and the strip of the folder window
 * that update_wharf_folder_shape cuts away outside the visible rectangle.
 *
 * Sizes follow the C types: the folder's window size is an X dimension (16 bits), its total
 * size an `unsigned int`, the results `int`; XRectangle has `short` x and y and `unsigned
 * short` width and height, so stores into it wrap.
 */
module WharfAnimation {
  import opened Common
  import opened WharfFolders

  const TwoTo32 := 0x1_0000_0000

  /** `(unsigned)v`: v modulo 2^32. */
  function ToU32(v: int): (u: U32)
    ensures 0 <= v < TwoTo32 ==> u == v
  {
    v % TwoTo32
  }

  /** A store into a `short`: v modulo 2^16, read as two's complement. */
  function ToShort(v: int): (s: I16)
    ensures -0x8000 <= v < 0x8000 ==> s == v
  {
    var u := v % 0x1_0000;
    if u < 0x8000 then u else u - 0x1_0000
  }

  /** A store into an `unsigned short`: v modulo 2^16. */
  function ToUShort(v: int): (u: U16)
    ensures 0 <= v < 0x1_0000 ==> u == v
  {
    v % 0x1_0000
  }

  /**
   * The size on the animated axis after one collapsing step: 0 on the last step, else
   * cur * (steps - 1) / steps, one less if that did not move. It always shrinks, by about a
   * steps-th of the size.
   */
  function CollapseSize(cur: U16, steps: int): (r: int)
    ensures steps <= 1 ==> r == 0
    ensures steps > 1 ==> r < cur && cur - cur / steps - 1 <= r
  {
    if steps <= 1 then 0
    else
      var n := cur * (steps - 1) / steps;
      CollapseBounds(cur, steps);
      if n == cur then n - 1 else n
  }

  /** cur * (steps - 1) / steps lies between cur - cur / steps - 1 and cur, and is cur only for 0. */
  lemma CollapseBounds(cur: nat, steps: int)
    requires steps > 1
    ensures var n := cur * (steps - 1) / steps;
            cur - cur / steps - 1 <= n <= cur && (n == cur ==> cur == 0)
  {
    var q, r := cur / steps, cur % steps;
    assert cur == q * steps + r;
    MulMono(1, steps, q);
    MulMono(0, cur, steps - 1);
    var a: nat, k: nat := cur * (steps - 1), cur - q;
    assert a == cur * steps - cur;
    assert k * steps == cur * steps - q * steps;
    assert a == k * steps - r;
    if r == 0 {
      DivExact(a, steps, k);
    } else {
      assert (k - 1) * steps == k * steps - steps;
      DivExact(a, steps, k - 1);
    }
  }

  /** The quotient is the k with k * s <= a < k * s + s. */
  lemma DivExact(a: nat, s: nat, k: nat)
    requires s > 0 && k * s <= a < k * s + s
    ensures a / s == k
  {
    var n, m := a / s, a % s;
    assert a == n * s + m && 0 <= m < s;
    if n > k {
      MulMono(k + 1, n, s);
      MulSucc(k, s);
      assert false;
    } else if n < k {
      MulMono(n + 1, k, s);
      MulSucc(n, s);
      assert false;
    }
  }

  /**
   * The size on the animated axis after one expanding step, computed as the C code does: the
   * distance total - cur in `unsigned` arithmetic, a steps-th of it added to cur, the sum
   * stored into an `int`, and one more if that did not move and is still below the total. On
   * the last step it is the total.
   */
  function ExpandSize(cur: U16, total: U32, steps: int): int
  {
    if steps <= 1 then Signed32(total)
    else
      var sum := ToU32(cur + ToU32(total - cur) / steps);
      if sum == cur && sum < total then Signed32(sum) + 1 else Signed32(sum)
  }

  /**
   * While the window is no larger than the total (and the total fits an int), an expanding
   * step never overshoots the total, never shrinks, and moves by at least one pixel.
   */
  lemma ExpandApproaches(cur: U16, total: U32, steps: int)
    requires cur <= total < 0x8000_0000
    ensures var r := ExpandSize(cur, total, steps);
            cur <= r <= total && (cur < total ==> cur < r) && (steps <= 1 ==> r == total)
  {
    if steps > 1 {
      var d := total - cur;
      assert ToU32(total - cur) == d;
      assert d / steps <= d;
    }
  }

  /**
   * Past the total, the unsigned distance wraps: a 10-pixel window expanding towards 5 in two
   * steps is given a size of -2147483641.
   */
  lemma ExpandPastTotalWraps()
    ensures ExpandSize(10, 5, 2) == -2147483641
  {
    assert ToU32(5 - 10) == 4294967291;
    assert ToU32(10 + 4294967291 / 2) == 2147483655;
  }

  /**
   * animate_wharf: one step of the folder's animation. Collapsing (direction < 0) shrinks the
   * animated axis (height for a vertical folder, width for a horizontal one) and keeps the
   * other; expanding takes the total on the other axis and moves the animated one towards its
   * total. The steps left go down by one.
   */
  method AnimateWharf(f: Folder) returns (newWidth: int, newHeight: int)
    modifies f`animationSteps
    ensures f.animationSteps == old(f.animationSteps) - 1
    ensures var vertical, steps := Has(f.flags, Vertical), old(f.animationSteps);
            if f.animationDir < 0 then
              (newWidth, newHeight) ==
              (if vertical then (f.canvasWidth as int, CollapseSize(f.canvasHeight, steps))
               else (CollapseSize(f.canvasWidth, steps), f.canvasHeight as int))
            else
              (newWidth, newHeight) ==
              (if vertical then (Signed32(f.totalWidth), ExpandSize(f.canvasHeight, f.totalHeight, steps))
               else (ExpandSize(f.canvasWidth, f.totalWidth, steps), Signed32(f.totalHeight)))
  {
    newWidth, newHeight := f.canvasWidth, f.canvasHeight;
    var steps := f.animationSteps;
    if f.animationDir < 0 {
      if Has(f.flags, Vertical) {
        if steps <= 1 {
          newHeight := 0;
        } else {
          newHeight := newHeight * (steps - 1) / steps;
          if newHeight == f.canvasHeight {
            newHeight := newHeight - 1;
          }
        }
      } else {
        if steps <= 1 {
          newWidth := 0;
        } else {
          newWidth := newWidth * (steps - 1) / steps;
          if newWidth == f.canvasWidth {
            newWidth := newWidth - 1;
          }
        }
      }
    } else {
      newWidth, newHeight := Signed32(f.totalWidth), Signed32(f.totalHeight);
      if Has(f.flags, Vertical) {
        if steps > 1 {
          var sum := ToU32(f.canvasHeight + ToU32(f.totalHeight - f.canvasHeight) / steps);
          newHeight := Signed32(sum);
          if sum == f.canvasHeight && sum < f.totalHeight {
            newHeight := newHeight + 1;
          }
        }
      } else {
        if steps > 1 {
          var sum := ToU32(f.canvasWidth + ToU32(f.totalWidth - f.canvasWidth) / steps);
          newWidth := Signed32(sum);
          if sum == f.canvasWidth && sum < f.totalWidth {
            newWidth := newWidth + 1;
          }
        }
      }
    }
    f.animationSteps := steps - 1;
  }

  /** Gravities whose folder grows from its bottom edge, and from its right edge. */
  predicate South(gravity: int)
  {
    gravity == SouthWestGravity || gravity == SouthEastGravity
  }

  predicate East(gravity: int)
  {
    gravity == NorthEastGravity || gravity == SouthEastGravity
  }

  /**
   * clamp_animation_rect: on the animated axis, a folder anchored at the far edge (south for a
   * vertical folder, east for a horizontal one) has the rectangle moved so that it ends at the
   * larger of the two sizes; a rectangle that would then start before 0 starts at 0 and takes
   * the target size. The other axis is left alone, and the start is never negative.
   */
  function ClampAnimationRect(vertical: bool, gravity: int, fromWidth: int, fromHeight: int,
                              toWidth: int, toHeight: int, rect: Rect): (r: Rect)
    ensures vertical ==> r.x == rect.x && r.width == rect.width
    ensures !vertical ==> r.y == rect.y && r.height == rect.height
    ensures vertical ==> r.y >= 0 && (r.y > 0 ==> r.height == rect.height)
    ensures !vertical ==> r.x >= 0 && (r.x > 0 ==> r.width == rect.width)
  {
    if vertical then
      var y := if South(gravity) then ToShort(Max(toHeight, fromHeight) - ToShort(rect.height)) else rect.y;
      if y < 0 then rect.(y := 0, height := ToUShort(toHeight)) else rect.(y := y)
    else
      var x := if East(gravity) then ToShort(Max(toWidth, fromWidth) - ToShort(rect.width)) else rect.x;
      if x < 0 then rect.(x := 0, width := ToUShort(toWidth)) else rect.(x := x)
  }

  function Max(a: int, b: int): int
  {
    if a < b then b else a
  }

  /**
   * With sizes that fit their C types, a vertical folder anchored at the bottom has the
   * rectangle end at the larger of the two heights when it fits, and otherwise cover the
   * target height from 0; a horizontal folder anchored at the right mirrors this.
   */
  lemma ClampAnchorsFarEdge(vertical: bool, gravity: int, fromWidth: int, fromHeight: int,
                            toWidth: int, toHeight: int, rect: Rect)
    requires 0 <= fromWidth < 0x8000 && 0 <= fromHeight < 0x8000 && 0 <= toWidth < 0x8000 && 0 <= toHeight < 0x8000
    requires rect.width < 0x8000 && rect.height < 0x8000
    ensures var r := ClampAnimationRect(vertical, gravity, fromWidth, fromHeight, toWidth, toHeight, rect);
            var h, w := Max(toHeight, fromHeight), Max(toWidth, fromWidth);
            (vertical && South(gravity) ==>
               if rect.height <= h then r.y + r.height == h && r.height == rect.height
               else r.y == 0 && r.height == toHeight) &&
            (!vertical && East(gravity) ==>
               if rect.width <= w then r.x + r.width == w && r.width == rect.width
               else r.x == 0 && r.width == toWidth)
  {
  }

  /**
   * The strip update_wharf_folder_shape cuts away when the folder uses its boundary: on each
   * axis where the boundary is smaller than the window, the part before the boundary when it
   * starts past 0, else the part after it up to the window's edge. Nothing is cut when neither
   * axis is smaller or the strip comes out empty.
   */
  function ShapeCut(boundary: Rect, canvasWidth: U16, canvasHeight: U16): Option<Rect>
  {
    var cutX := boundary.width < canvasWidth;
    var cutY := boundary.height < canvasHeight;
    var (x, width) :=
      if !cutX then (boundary.x, boundary.width)
      else if boundary.x > 0 then (0, ToUShort(boundary.x))
      else (ToShort(boundary.width), ToUShort(canvasWidth - boundary.width));
    var (y, height) :=
      if !cutY then (boundary.y, boundary.height)
      else if boundary.y > 0 then (0, ToUShort(boundary.y))
      else (ToShort(boundary.height), ToUShort(canvasHeight - boundary.height));
    if width > 0 && height > 0 && (cutX || cutY) then Some(Rect(x, y, width, height)) else None
  }

  /**
   * On an axis where the boundary is narrower than the window, the cut strip lies in the
   * window and next to the boundary: it ends where a boundary starting past 0 begins, and
   * otherwise starts where the boundary (at 0) ends and runs to the window's edge.
   */
  lemma ShapeCutBesideBoundary(boundary: Rect, canvasWidth: U16, canvasHeight: U16)
    requires boundary.width < canvasWidth && canvasWidth < 0x8000
    requires ShapeCut(boundary, canvasWidth, canvasHeight).Some?
    ensures var cut := ShapeCut(boundary, canvasWidth, canvasHeight).value;
            if boundary.x > 0 then cut.x == 0 && cut.x + cut.width == boundary.x
            else cut.x == boundary.width && cut.x + cut.width == canvasWidth
  {
  }

  /** When the boundary covers the window on both axes nothing is cut. */
  lemma NoCutWhenCovered(boundary: Rect, canvasWidth: U16, canvasHeight: U16)
    requires boundary.width >= canvasWidth && boundary.height >= canvasHeight
    ensures ShapeCut(boundary, canvasWidth, canvasHeight).None?
  {
  }
}
