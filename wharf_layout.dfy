/**
 * place_wharf_buttons: the buttons of a folder are packed into columns (a vertical folder) or
 * rows (a horizontal one). The two branches of the C code mirror each other, so the model speaks
 * of the MAIN axis, along which the buttons of a group are stacked (y in a vertical folder, x in
 * a horizontal one), and the CROSS axis, along which the groups follow each other.
 *
 * Buttons are visited in array order, or backwards when the folder has ReverseOrder. Consecutive
 * visited buttons form groups of ceil(n / groups) buttons, where `groups` is the configured
 * number of columns (rows) for the root folder and 1 for any other. A group is as wide (cross
 * axis) as its widest button; a button's main extent is its own when it is MaxSwallow or the
 * dock fits contents, else the largest main size among the group's non-MaxSwallow buttons.
 *
 * A group is the index range lo..hi-1 of the visited buttons `vs`.
 */
module WharfLayout {
  import opened Common
  import opened WharfFolders

  /** The ALIGN_LEFT/RIGHT/TOP/BOTTOM bits of the configured content alignment. */
  datatype Align = Align(left: bool, right: bool, top: bool, bottom: bool)

  /** What place_wharf_buttons reads from the module configuration. */
  datatype LayoutConfig = LayoutConfig(columns: int, rows: int, fitContents: bool, shapeToContents: bool, align: Align)

  function Max(a: int, b: int): int
  {
    if a < b then b else a
  }

  function Min(a: int, b: int): int
  {
    if a < b then a else b
  }

  /** A button's desired size along the main and the cross axis. */
  function MainSize(b: Button, vertical: bool): nat
  {
    if vertical then b.desiredHeight else b.desiredWidth
  }

  function CrossSize(b: Button, vertical: bool): nat
  {
    if vertical then b.desiredWidth else b.desiredHeight
  }

  predicate MaxSwallows(b: Button)
  {
    Has(b.flags, MaxSwallow)
  }

  /** The cross size of a group: the largest cross size of its buttons (0 for none). */
  function CrossMax(vs: seq<Button>, lo: nat, hi: nat, vertical: bool): nat
    requires lo <= hi <= |vs|
    decreases hi - lo
  {
    if lo == hi then 0 else Max(CrossSize(vs[lo], vertical), CrossMax(vs, lo + 1, hi, vertical))
  }

  /** The main size a group gives its buttons: the largest among its non-MaxSwallow buttons (0 for none). */
  function MainMax(vs: seq<Button>, lo: nat, hi: nat, vertical: bool): nat
    requires lo <= hi <= |vs|
    decreases hi - lo
  {
    if lo == hi then 0
    else if MaxSwallows(vs[lo]) then MainMax(vs, lo + 1, hi, vertical)
    else Max(MainSize(vs[lo], vertical), MainMax(vs, lo + 1, hi, vertical))
  }

  /** A group is as wide as its widest button: CrossMax bounds every button and is the size of one of them. */
  lemma {:induction false} CrossMaxIsMaximum(vs: seq<Button>, lo: nat, hi: nat, vertical: bool)
    requires lo <= hi <= |vs|
    ensures forall i :: lo <= i < hi ==> CrossSize(vs[i], vertical) <= CrossMax(vs, lo, hi, vertical)
    ensures lo < hi ==> exists i :: lo <= i < hi && CrossMax(vs, lo, hi, vertical) == CrossSize(vs[i], vertical)
    ensures lo == hi ==> CrossMax(vs, lo, hi, vertical) == 0
    decreases hi - lo
  {
    if lo < hi {
      CrossMaxIsMaximum(vs, lo + 1, hi, vertical);
    }
  }

  /**
   * The main size of a group bounds every non-MaxSwallow button and is either 0 or the size of
   * one of them: MaxSwallow buttons never widen (heighten) their group.
   */
  lemma {:induction false} MainMaxIsMaximum(vs: seq<Button>, lo: nat, hi: nat, vertical: bool)
    requires lo <= hi <= |vs|
    ensures forall i :: lo <= i < hi && !MaxSwallows(vs[i]) ==> MainSize(vs[i], vertical) <= MainMax(vs, lo, hi, vertical)
    ensures MainMax(vs, lo, hi, vertical) == 0 ||
            exists i :: lo <= i < hi && !MaxSwallows(vs[i]) && MainMax(vs, lo, hi, vertical) == MainSize(vs[i], vertical)
    decreases hi - lo
  {
    if lo < hi {
      MainMaxIsMaximum(vs, lo + 1, hi, vertical);
    }
  }

  /** The main extent a button gets: its own size when it is MaxSwallow or contents are fitted, else the group's. */
  function Extent(b: Button, vertical: bool, fitContents: bool, mainMax: nat): nat
  {
    if MaxSwallows(b) || fitContents then MainSize(b, vertical) else mainMax
  }

  /** The sum of the main extents of buttons lo..hi-1: the length of that part of a column (row). */
  function GroupLength(vs: seq<Button>, lo: nat, hi: nat, vertical: bool, fitContents: bool, mainMax: nat): nat
    requires lo <= hi <= |vs|
    decreases hi - lo
  {
    if lo == hi then 0
    else GroupLength(vs, lo, hi - 1, vertical, fitContents, mainMax) + Extent(vs[hi - 1], vertical, fitContents, mainMax)
  }

  /** How far an aligned button moves inside its slot: not at all, by half the slack (centred) or all of it. */
  function AlignOffset(slack: int, far: bool, centre: bool): int
  {
    if !far then 0 else if centre then slack / 2 else slack
  }

  /** Where a button goes in the folder and what size it gets (folder_x, folder_y, folder_width, folder_height). */
  datatype Box = Box(x: int, y: int, width: nat, height: nat)

  /**
   * The box of a button at cross offset `cross` and main offset `main` of a group of cross size
   * `crossMax` and main size `mainMax`: its slot, or, when shaped to contents, its own size
   * aligned inside the slot.
   */
  function Slot(b: Button, vertical: bool, c: LayoutConfig, cross: int, main: int, crossMax: nat, mainMax: nat): Box
  {
    var extent := Extent(b, vertical, c.fitContents, mainMax);
    var x := if vertical then cross else main;
    var y := if vertical then main else cross;
    if c.shapeToContents then
      var crossSlack := crossMax - CrossSize(b, vertical);
      var mainSlack := extent - MainSize(b, vertical);
      var dx := AlignOffset(if vertical then crossSlack else mainSlack, c.align.right, c.align.left);
      var dy := AlignOffset(if vertical then mainSlack else crossSlack, c.align.bottom, c.align.top);
      Box(x + dx, y + dy, b.desiredWidth, b.desiredHeight)
    else
      Box(x, y, if vertical then crossMax else extent, if vertical then extent else crossMax)
  }

  /** The button with its box stored. */
  function Place(b: Button, vertical: bool, c: LayoutConfig, cross: int, main: int, crossMax: nat, mainMax: nat): Button
  {
    var box := Slot(b, vertical, c, cross, main, crossMax, mainMax);
    b.(folderX := box.x, folderY := box.y, folderWidth := box.width, folderHeight := box.height)
  }

  /** The buttons of group lo..hi-1, each at the main offset where the group's earlier buttons end. */
  function PlaceGroup(vs: seq<Button>, lo: nat, hi: nat, vertical: bool, c: LayoutConfig, cross: int): (r: seq<Button>)
    requires lo <= hi <= |vs|
    ensures |r| == hi - lo
  {
    var cm, mm := CrossMax(vs, lo, hi, vertical), MainMax(vs, lo, hi, vertical);
    seq(hi - lo, r requires 0 <= r < hi - lo =>
      Place(vs[lo + r], vertical, c, cross, GroupLength(vs, lo, lo + r, vertical, c.fitContents, mm), cm, mm))
  }

  /** Where the group starting at s ends: p buttons on, or at the last button. */
  function GroupEnd(s: nat, p: nat, n: nat): nat
  {
    Min(s + p, n)
  }

  /** The visited buttons from s on, placed group by group, the first group at cross offset `cross`. */
  function LayoutFrom(vs: seq<Button>, s: nat, p: nat, vertical: bool, c: LayoutConfig, cross: int): (r: seq<Button>)
    requires p > 0 && s <= |vs|
    ensures |r| == |vs| - s
    decreases |vs| - s
  {
    if s == |vs| then []
    else
      var e := GroupEnd(s, p, |vs|);
      PlaceGroup(vs, s, e, vertical, c, cross) + LayoutFrom(vs, e, p, vertical, c, cross + CrossMax(vs, s, e, vertical))
  }

  /**
   * The running totals of the loop: the summed cross sizes and the longest length of the groups
   * closed so far, the cross size and main offset of the last group, and whether that group is
   * still open (the counter bc is not back at 0).
   */
  datatype Sweep = Sweep(crossTotal: int, mainTotal: int, lastCross: int, mainPos: int, pending: bool)

  /** Group lo..hi-1 ends: a full group is added to the totals, a short one (the last) is left in progress. */
  function Close(acc: Sweep, vs: seq<Button>, lo: nat, hi: nat, p: nat, vertical: bool, c: LayoutConfig): Sweep
    requires lo <= hi <= |vs|
  {
    var crossMax := CrossMax(vs, lo, hi, vertical);
    var length := GroupLength(vs, lo, hi, vertical, c.fitContents, MainMax(vs, lo, hi, vertical));
    if hi - lo >= p then Sweep(acc.crossTotal + crossMax, Max(acc.mainTotal, length), crossMax, 0, false)
    else Sweep(acc.crossTotal, acc.mainTotal, crossMax, length, true)
  }

  /** The totals after the groups from s on. */
  function SweepFrom(vs: seq<Button>, s: nat, p: nat, vertical: bool, c: LayoutConfig, acc: Sweep): Sweep
    requires p > 0 && s <= |vs|
    decreases |vs| - s
  {
    if s == |vs| then acc
    else
      var e := GroupEnd(s, p, |vs|);
      SweepFrom(vs, e, p, vertical, c, Close(acc, vs, s, e, p, vertical, c))
  }

  /** The number of groups: the configured columns (rows) for the root folder, 1 for any other. */
  function Groups(isRoot: bool, vertical: bool, c: LayoutConfig): int
  {
    if !isRoot then 1 else if vertical then c.columns else c.rows
  }

  /** Buttons per group: ceil(n / groups). */
  function PerGroup(n: nat, groups: int): (p: nat)
    requires groups >= 1
    ensures n > 0 ==> p > 0
    ensures groups * p >= n
  {
    (n + groups - 1) / groups
  }

  /** The loop's totals before the first button. */
  const NoTotals := Sweep(0, 0, 0, 0, false)

  /** The totals of the loop over all visited buttons. */
  function SweepAll(vs: seq<Button>, groups: int, vertical: bool, c: LayoutConfig): Sweep
    requires groups >= 1
  {
    if vs == [] then NoTotals else SweepFrom(vs, 0, PerGroup(|vs|, groups), vertical, c, NoTotals)
  }

  /** (main, cross) totals as (width, height). */
  function Oriented(vertical: bool, main: int, cross: int): (int, int)
  {
    if vertical then (cross, main) else (main, cross)
  }

  /**
   * The totals as written: after the loop, whenever groups * perGroup exceeds n, the last
   * group's cross size and main offset are added once more, whether or not that group was
   * already closed. The result is (width, height).
   */
  function Totals(vs: seq<Button>, groups: int, vertical: bool, c: LayoutConfig): (int, int)
    requires groups >= 1
  {
    var s := SweepAll(vs, groups, vertical, c);
    var trailing := groups * PerGroup(|vs|, groups) > |vs|;
    Oriented(vertical, if trailing then Max(s.mainTotal, s.mainPos) else s.mainTotal,
             if trailing then s.crossTotal + s.lastCross else s.crossTotal)
  }

  /**
   * The totals as intended: the last group is added after the loop only when it is still open,
   * that is, when it holds fewer than perGroup buttons.
   */
  function IntendedTotals(vs: seq<Button>, groups: int, vertical: bool, c: LayoutConfig): (int, int)
    requires groups >= 1
  {
    var s := SweepAll(vs, groups, vertical, c);
    Oriented(vertical, if s.pending then Max(s.mainTotal, s.mainPos) else s.mainTotal,
             if s.pending then s.crossTotal + s.lastCross else s.crossTotal)
  }

  /** The cross sizes of the groups from s on, summed: how wide (high) the groups lie side by side. */
  function CrossSum(vs: seq<Button>, s: nat, p: nat, vertical: bool): nat
    requires p > 0 && s <= |vs|
    decreases |vs| - s
  {
    if s == |vs| then 0
    else
      var e := GroupEnd(s, p, |vs|);
      CrossMax(vs, s, e, vertical) + CrossSum(vs, e, p, vertical)
  }

  /** The longest length of the groups from s on. */
  function LongestGroup(vs: seq<Button>, s: nat, p: nat, vertical: bool, fitContents: bool): nat
    requires p > 0 && s <= |vs|
    decreases |vs| - s
  {
    if s == |vs| then 0
    else
      var e := GroupEnd(s, p, |vs|);
      Max(GroupLength(vs, s, e, vertical, fitContents, MainMax(vs, s, e, vertical)), LongestGroup(vs, e, p, vertical, fitContents))
  }

  /**
   * From a group start s on, the loop's totals with the open group added are the cross sizes
   * summed and the longest length.
   */
  lemma {:induction false} SweepSums(vs: seq<Button>, s: nat, p: nat, vertical: bool, c: LayoutConfig, acc: Sweep)
    requires p > 0 && s <= |vs| && acc.mainTotal >= 0 && (s == |vs| ==> !acc.pending)
    ensures var r := SweepFrom(vs, s, p, vertical, c, acc);
            (if r.pending then r.crossTotal + r.lastCross else r.crossTotal) == acc.crossTotal + CrossSum(vs, s, p, vertical) &&
            (if r.pending then Max(r.mainTotal, r.mainPos) else r.mainTotal) ==
              Max(acc.mainTotal, LongestGroup(vs, s, p, vertical, c.fitContents))
    decreases |vs| - s
  {
    if s < |vs| {
      var e := GroupEnd(s, p, |vs|);
      var next := Close(acc, vs, s, e, p, vertical, c);
      if e < |vs| || !next.pending {
        SweepSums(vs, e, p, vertical, c, next);
      }
    }
  }

  /** Taking one group of p buttons off the front leaves the remainder modulo p unchanged. */
  lemma ModStep(x: nat, p: nat)
    requires 0 < p <= x
    ensures x % p == (x - p) % p
  {
    var q, r, k := (x - p) / p, (x - p) % p, x / p;
    assert x - p == p * q + r;
    MulSucc(q, p);
    assert p * (q + 1) + r == p * k + x % p;
    if q + 1 > k {
      MulMono(k + 1, q + 1, p);
      MulSucc(k, p);
    } else if q + 1 < k {
      MulMono(q + 2, k, p);
      MulSucc(q + 1, p);
    }
  }

  /** From a group start s on, the last group is left open exactly when p does not divide the remaining buttons. */
  lemma {:induction false} LastGroupOpen(vs: seq<Button>, s: nat, p: nat, vertical: bool, c: LayoutConfig, acc: Sweep)
    requires p > 0 && s < |vs|
    ensures SweepFrom(vs, s, p, vertical, c, acc).pending <==> (|vs| - s) % p != 0
    decreases |vs| - s
  {
    var e := GroupEnd(s, p, |vs|);
    if e < |vs| {
      ModStep(|vs| - s, p);
      LastGroupOpen(vs, e, p, vertical, c, Close(acc, vs, s, e, p, vertical, c));
    }
  }

  /**
   * When p divides the buttons from s on, the loop ends with every group closed, the main offset
   * back at 0 and the last cross size that of the last p buttons.
   */
  lemma {:induction false} LastGroupFull(vs: seq<Button>, s: nat, p: nat, vertical: bool, c: LayoutConfig, acc: Sweep)
    requires p > 0 && s < |vs| && (|vs| - s) % p == 0
    ensures var r := SweepFrom(vs, s, p, vertical, c, acc);
            !r.pending && r.mainPos == 0 && |vs| >= p && r.lastCross == CrossMax(vs, |vs| - p, |vs|, vertical)
    decreases |vs| - s
  {
    var e := GroupEnd(s, p, |vs|);
    if |vs| - s < p {
      assert false;
    } else if e < |vs| {
      ModStep(|vs| - s, p);
      LastGroupFull(vs, e, p, vertical, c, Close(acc, vs, s, e, p, vertical, c));
    }
  }

  /** A multiple of p leaves no remainder. */
  lemma {:induction false} MultipleMod(g: nat, p: nat)
    requires p > 0
    ensures (g * p) % p == 0
  {
    if g > 0 {
      MulSucc(g - 1, p);
      MulMono(1, g, p);
      ModStep(g * p, p);
      MultipleMod(g - 1, p);
    }
  }

  /** Every group is full (p divides n) but there are fewer of them than configured. */
  predicate FewerFullGroups(n: nat, groups: int)
    requires groups >= 1
  {
    var p := PerGroup(n, groups);
    n > 0 && n % p == 0 && groups * p > n
  }

  /**
   * The totals as written are the intended ones unless p divides n and groups * p exceeds n:
   * the groups are then all full but fewer than configured.
   */
  lemma TotalsAsIntended(vs: seq<Button>, groups: int, vertical: bool, c: LayoutConfig)
    requires groups >= 1
    ensures !FewerFullGroups(|vs|, groups) ==> Totals(vs, groups, vertical, c) == IntendedTotals(vs, groups, vertical, c)
  {
    if vs != [] && !FewerFullGroups(|vs|, groups) {
      var p := PerGroup(|vs|, groups);
      LastGroupOpen(vs, 0, p, vertical, c, NoTotals);
      MultipleMod(groups, p);
    }
  }

  /**
   * When p divides n but groups * p exceeds n, the code as written adds the last group's cross
   * size a second time: the folder comes out one last-column too wide (one last-row too high).
   */
  lemma LastGroupCountedTwice(vs: seq<Button>, groups: int, vertical: bool, c: LayoutConfig)
    requires groups >= 1 && FewerFullGroups(|vs|, groups)
    ensures var p := PerGroup(|vs|, groups);
            var last := CrossMax(vs, |vs| - p, |vs|, vertical);
            var (w, h) := IntendedTotals(vs, groups, vertical, c);
            Totals(vs, groups, vertical, c) == if vertical then (w + last, h) else (w, h + last)
  {
    var p := PerGroup(|vs|, groups);
    LastGroupFull(vs, 0, p, vertical, c, NoTotals);
    SweepSums(vs, 0, p, vertical, c, NoTotals);
  }

  /**
   * Four buttons of 48x48 in a vertical root folder of three columns: two columns of two are
   * used, the folder needs 96 pixels of width, and the code as written asks for 144.
   */
  lemma FourButtonsInThreeColumns(c: LayoutConfig)
    ensures var b := Blank.(desiredWidth := 48, desiredHeight := 48);
            Totals([b, b, b, b], 3, true, c) == (144, 96) && IntendedTotals([b, b, b, b], 3, true, c) == (96, 96)
  {
    var b := Blank.(desiredWidth := 48, desiredHeight := 48);
    var vs := [b, b, b, b];
    assert PerGroup(4, 3) == 2;
    IntendedTotalsAreSums(vs, 3, true, c);
    LastGroupCountedTwice(vs, 3, true, c);
    assert CrossMax(vs, 2, 4, true) == 48;
    assert CrossSum(vs, 2, 2, true) == 48;
    assert CrossSum(vs, 0, 2, true) == 96;
    assert GroupLength(vs, 0, 2, true, c.fitContents, MainMax(vs, 0, 2, true)) == 96;
    assert GroupLength(vs, 2, 4, true, c.fitContents, MainMax(vs, 2, 4, true)) == 96;
    assert LongestGroup(vs, 2, 2, true, c.fitContents) == 96;
  }

  /** The intended totals are the sum of the groups' cross sizes and the longest group. */
  lemma IntendedTotalsAreSums(vs: seq<Button>, groups: int, vertical: bool, c: LayoutConfig)
    requires groups >= 1
    ensures var p := PerGroup(|vs|, groups);
            IntendedTotals(vs, groups, vertical, c) ==
              if vs == [] then (0, 0)
              else Oriented(vertical, LongestGroup(vs, 0, p, vertical, c.fitContents), CrossSum(vs, 0, p, vertical))
  {
    if vs != [] {
      SweepSums(vs, 0, PerGroup(|vs|, groups), vertical, c, NoTotals);
    }
  }

  /** Some button of lo..hi-1 has a cross size other than `m`. */
  predicate Narrower(vs: seq<Button>, lo: nat, hi: nat, vertical: bool, m: nat)
    requires lo <= hi <= |vs|
    decreases hi - lo
  {
    lo < hi && (CrossSize(vs[hi - 1], vertical) != m || Narrower(vs, lo, hi - 1, vertical, m))
  }

  /** Narrower says that some button's cross size differs from `m`, and nothing more. */
  lemma {:induction false} NarrowerMeans(vs: seq<Button>, lo: nat, hi: nat, vertical: bool, m: nat)
    requires lo <= hi <= |vs|
    ensures Narrower(vs, lo, hi, vertical, m) <==> exists i :: lo <= i < hi && CrossSize(vs[i], vertical) != m
    decreases hi - lo
  {
    if lo < hi {
      NarrowerMeans(vs, lo, hi - 1, vertical, m);
    }
  }

  /** Some group from s on has a button narrower than itself: shaped to contents, the folder then needs shaping. */
  predicate Ragged(vs: seq<Button>, s: nat, p: nat, vertical: bool)
    requires p > 0 && s <= |vs|
    decreases |vs| - s
  {
    var e := GroupEnd(s, p, |vs|);
    s < |vs| && (Narrower(vs, s, e, vertical, CrossMax(vs, s, e, vertical)) || Ragged(vs, e, p, vertical))
  }

  /** The array index of the i-th visited button. */
  function Order(n: nat, reverse: bool, i: nat): (k: nat)
    requires i < n
    ensures k < n
  {
    if reverse then n - 1 - i else i
  }

  /** The buttons in the order they are visited. */
  function Visit(bs: seq<Button>, reverse: bool): (vs: seq<Button>)
    ensures |vs| == |bs|
  {
    seq(|bs|, i requires 0 <= i < |bs| => bs[Order(|bs|, reverse, i)])
  }

  /** The visited-order results written back to the array slots they came from. */
  function Arrange(n: nat, reverse: bool, placed: seq<Button>): (bs: seq<Button>)
    requires |placed| == n
    ensures |bs| == n
  {
    seq(n, k requires 0 <= k < n => placed[Order(n, reverse, k)])
  }

  /** The array after placement: every button with its folder place and size. */
  function Layout(bs: seq<Button>, groups: int, vertical: bool, reverse: bool, c: LayoutConfig): (r: seq<Button>)
    requires groups >= 1
    ensures |r| == |bs|
  {
    if bs == [] then []
    else Arrange(|bs|, reverse, LayoutFrom(Visit(bs, reverse), 0, PerGroup(|bs|, groups), vertical, c, 0))
  }

  /** The folder needs shaping: shaped to contents with some button narrower than its group. */
  predicate NeedsShape(bs: seq<Button>, groups: int, vertical: bool, reverse: bool, c: LayoutConfig)
    requires groups >= 1
  {
    bs != [] && c.shapeToContents && Ragged(Visit(bs, reverse), 0, PerGroup(|bs|, groups), vertical)
  }

  /** The largest cross size and non-MaxSwallow main size among visited buttons lo..hi-1, scanned from the end. */
  method GroupMaxima(a: array<Button>, reverse: bool, lo: nat, hi: nat, ghost vs: seq<Button>, vertical: bool)
    returns (crossMax: nat, mainMax: nat)
    requires lo <= hi <= a.Length == |vs|
    requires forall j :: lo <= j < hi ==> a[Order(a.Length, reverse, j)] == vs[j]
    ensures crossMax == CrossMax(vs, lo, hi, vertical) && mainMax == MainMax(vs, lo, hi, vertical)
  {
    crossMax, mainMax := 0, 0;
    var k := hi;
    while k > lo
      invariant lo <= k <= hi
      invariant crossMax == CrossMax(vs, k, hi, vertical) && mainMax == MainMax(vs, k, hi, vertical)
    {
      k := k - 1;
      var b := a[Order(a.Length, reverse, k)];
      if crossMax < CrossSize(b, vertical) {
        crossMax := CrossSize(b, vertical);
      }
      if mainMax < MainSize(b, vertical) && !MaxSwallows(b) {
        mainMax := MainSize(b, vertical);
      }
    }
  }
  /** One button's box: its slot, or its own size aligned in the slot; `ragged` when shaped and narrower than the group. */
  method PlaceButton(b: Button, vertical: bool, c: LayoutConfig, cross: int, main: int, crossMax: nat, mainMax: nat)
    returns (box: Box, extent: nat, ragged: bool)
    ensures box == Slot(b, vertical, c, cross, main, crossMax, mainMax)
    ensures extent == Extent(b, vertical, c.fitContents, mainMax)
    ensures ragged == (c.shapeToContents && CrossSize(b, vertical) != crossMax)
  {
    extent := if MaxSwallows(b) || c.fitContents then MainSize(b, vertical) else mainMax;
    var x, y := if vertical then cross else main, if vertical then main else cross;
    ragged := false;
    if c.shapeToContents {
      var dx := if vertical then crossMax - CrossSize(b, vertical) else extent - MainSize(b, vertical);
      var dy := if vertical then extent - MainSize(b, vertical) else crossMax - CrossSize(b, vertical);
      if !c.align.right {
        dx := 0;
      } else if c.align.left {
        dx := dx / 2;
      }
      if !c.align.bottom {
        dy := 0;
      } else if c.align.top {
        dy := dy / 2;
      }
      box := Box(x + dx, y + dy, b.desiredWidth, b.desiredHeight);
      assert box.x == Slot(b, vertical, c, cross, main, crossMax, mainMax).x;
      assert box.y == Slot(b, vertical, c, cross, main, crossMax, mainMax).y;
      if CrossSize(b, vertical) != crossMax {
        ragged := true;
      }
    } else {
      box := Box(x, y, if vertical then crossMax else extent, if vertical then extent else crossMax);
    }
  }

  /**
   * The variables of the C loop: the button counter of the group in progress (bc), the group's
   * cross and main maxima (max_width and max_height, by axis), the cross and main offsets (x and
   * y, by axis), the two totals, and needs_shaping.
   */
  datatype Cursor = Cursor(bc: nat, crossMax: nat, mainMax: nat, cross: int, main: int,
                           crossTotal: int, mainTotal: int, needs: bool)

  /** The loop variables before the first button. */
  const Start := Cursor(0, 0, 0, 0, 0, 0, 0, false)

  /** At a group's first button (bc == 0) the maxima are rescanned over the group's buttons. */
  function Opened(vs: seq<Button>, p: nat, vertical: bool, i: nat, st: Cursor): Cursor
    requires i <= |vs|
  {
    if st.bc == 0 then
      var e := GroupEnd(i, p, |vs|);
      st.(crossMax := CrossMax(vs, i, e, vertical), mainMax := MainMax(vs, i, e, vertical))
    else st
  }

  /**
   * One pass of the loop on visited button i: the button's extent moves the main offset on;
   * once p buttons are counted the group is closed, its cross size added to the cross total and
   * its length to the longest length, and the next group starts at main offset 0.
   */
  function Advance(vs: seq<Button>, p: nat, vertical: bool, c: LayoutConfig, i: nat, st: Cursor): Cursor
    requires i < |vs|
  {
    var o := Opened(vs, p, vertical, i, st);
    var main := o.main + Extent(vs[i], vertical, c.fitContents, o.mainMax);
    var needs := o.needs || (c.shapeToContents && CrossSize(vs[i], vertical) != o.crossMax);
    if o.bc + 1 >= p then
      Cursor(0, o.crossMax, o.mainMax, o.cross + o.crossMax, 0, o.crossTotal + o.crossMax, Max(o.mainTotal, main), needs)
    else
      o.(bc := o.bc + 1, main := main, needs := needs)
  }

  /** The loop variables before visited button i. */
  function CursorAt(vs: seq<Button>, p: nat, vertical: bool, c: LayoutConfig, i: nat): Cursor
    requires i <= |vs|
  {
    if i == 0 then Start else Advance(vs, p, vertical, c, i - 1, CursorAt(vs, p, vertical, c, i - 1))
  }

  /** Visited button i as the loop stores it. */
  function PlacedAt(vs: seq<Button>, p: nat, vertical: bool, c: LayoutConfig, i: nat): Button
    requires i < |vs|
  {
    var o := Opened(vs, p, vertical, i, CursorAt(vs, p, vertical, c, i));
    Place(vs[i], vertical, c, o.cross, o.main, o.crossMax, o.mainMax)
  }

  /** The running totals the loop keeps, as a Sweep. */
  function Progress(st: Cursor): Sweep
  {
    Sweep(st.crossTotal, st.mainTotal, st.crossMax, st.main, st.bc > 0)
  }

  /**
   * The loop variables after buttons s..i-1 of group s..e-1, which started with the variables
   * st0: the group's maxima, its length so far, and whether a button so far is narrower; once
   * the group holds p buttons it is closed.
   */
  function Within(st0: Cursor, vs: seq<Button>, s: nat, e: nat, i: nat, p: nat, vertical: bool, c: LayoutConfig): Cursor
    requires s <= i <= e <= |vs|
  {
    var cm, mm := CrossMax(vs, s, e, vertical), MainMax(vs, s, e, vertical);
    var length := GroupLength(vs, s, i, vertical, c.fitContents, mm);
    var needs := st0.needs || (c.shapeToContents && Narrower(vs, s, i, vertical, cm));
    if i - s >= p then Cursor(0, cm, mm, st0.cross + cm, 0, st0.crossTotal + cm, Max(st0.mainTotal, length), needs)
    else Cursor(i - s, cm, mm, st0.cross, length, st0.crossTotal, st0.mainTotal, needs)
  }

  /** The first button of a group starting at s with bc == 0 and main offset 0. */
  lemma FirstOfGroup(vs: seq<Button>, p: nat, vertical: bool, c: LayoutConfig, s: nat, st0: Cursor)
    requires p > 0 && s < |vs| && st0.bc == 0 && st0.main == 0
    ensures Advance(vs, p, vertical, c, s, st0) == Within(st0, vs, s, GroupEnd(s, p, |vs|), s + 1, p, vertical, c)
  {
    var e := GroupEnd(s, p, |vs|);
    var mm := MainMax(vs, s, e, vertical);
    assert GroupLength(vs, s, s + 1, vertical, c.fitContents, mm) == Extent(vs[s], vertical, c.fitContents, mm);
    assert Narrower(vs, s, s + 1, vertical, CrossMax(vs, s, e, vertical)) == (CrossSize(vs[s], vertical) != CrossMax(vs, s, e, vertical));
  }

  /** Button i - 1 of a group starting at s, not its first, advances Within by one. */
  lemma NextInGroup(vs: seq<Button>, p: nat, vertical: bool, c: LayoutConfig, s: nat, i: nat, st0: Cursor)
    requires p > 0 && s + 1 < i <= GroupEnd(s, p, |vs|)
    ensures var e := GroupEnd(s, p, |vs|);
            Advance(vs, p, vertical, c, i - 1, Within(st0, vs, s, e, i - 1, p, vertical, c)) == Within(st0, vs, s, e, i, p, vertical, c)
  {
  }

  /** A group starting at s (bc == 0, main offset 0): before button i of it, or at its end, the loop variables are Within. */
  lemma {:induction false} InGroup(vs: seq<Button>, p: nat, vertical: bool, c: LayoutConfig, s: nat, i: nat)
    requires p > 0 && s < i <= GroupEnd(s, p, |vs|)
    requires CursorAt(vs, p, vertical, c, s).bc == 0 && CursorAt(vs, p, vertical, c, s).main == 0
    ensures CursorAt(vs, p, vertical, c, i) ==
              Within(CursorAt(vs, p, vertical, c, s), vs, s, GroupEnd(s, p, |vs|), i, p, vertical, c)
  {
    var st0 := CursorAt(vs, p, vertical, c, s);
    if i > s + 1 {
      InGroup(vs, p, vertical, c, s, i - 1);
      NextInGroup(vs, p, vertical, c, s, i, st0);
    } else {
      FirstOfGroup(vs, p, vertical, c, s, st0);
    }
  }

  /** Button j of a group starting at s is stored as PlaceGroup places it. */
  lemma PlacedInGroup(vs: seq<Button>, p: nat, vertical: bool, c: LayoutConfig, s: nat, j: nat)
    requires p > 0 && s <= j < GroupEnd(s, p, |vs|)
    requires CursorAt(vs, p, vertical, c, s).bc == 0 && CursorAt(vs, p, vertical, c, s).main == 0
    ensures PlacedAt(vs, p, vertical, c, j) ==
              PlaceGroup(vs, s, GroupEnd(s, p, |vs|), vertical, c, CursorAt(vs, p, vertical, c, s).cross)[j - s]
  {
    var e := GroupEnd(s, p, |vs|);
    var st0 := CursorAt(vs, p, vertical, c, s);
    var o := Opened(vs, p, vertical, j, CursorAt(vs, p, vertical, c, j));
    if j > s {
      InGroup(vs, p, vertical, c, s, j);
      assert CursorAt(vs, p, vertical, c, j).bc == j - s;
      assert o == CursorAt(vs, p, vertical, c, j);
    }
    var mm := MainMax(vs, s, e, vertical);
    assert o.cross == st0.cross && o.crossMax == CrossMax(vs, s, e, vertical) && o.mainMax == mm;
    assert o.main == GroupLength(vs, s, j, vertical, c.fitContents, mm);
    assert s + (j - s) == j;
  }

  /** At the end of a group starting at s: the totals are Close's, and the next group starts at bc == 0, main offset 0. */
  lemma EndOfGroup(vs: seq<Button>, p: nat, vertical: bool, c: LayoutConfig, s: nat)
    requires p > 0 && s < |vs|
    requires CursorAt(vs, p, vertical, c, s).bc == 0 && CursorAt(vs, p, vertical, c, s).main == 0
    ensures var st, e := CursorAt(vs, p, vertical, c, s), GroupEnd(s, p, |vs|);
            var fin := CursorAt(vs, p, vertical, c, e);
            Progress(fin) == Close(Progress(st), vs, s, e, p, vertical, c) &&
            fin.needs == (st.needs || (c.shapeToContents && Narrower(vs, s, e, vertical, CrossMax(vs, s, e, vertical)))) &&
            (e < |vs| ==> fin.bc == 0 && fin.main == 0 && fin.cross == st.cross + CrossMax(vs, s, e, vertical))
  {
    InGroup(vs, p, vertical, c, s, GroupEnd(s, p, |vs|));
  }

  /**
   * From a group start s on, the loop ends with SweepFrom's totals, and sets needs_shaping
   * when some later group is Ragged.
   */
  lemma {:induction false} SweepsGroupwise(vs: seq<Button>, p: nat, vertical: bool, c: LayoutConfig, s: nat)
    requires p > 0 && s <= |vs|
    requires CursorAt(vs, p, vertical, c, s).bc == 0 && CursorAt(vs, p, vertical, c, s).main == 0
    ensures var st, fin := CursorAt(vs, p, vertical, c, s), CursorAt(vs, p, vertical, c, |vs|);
            Progress(fin) == SweepFrom(vs, s, p, vertical, c, Progress(st)) &&
            fin.needs == (st.needs || (c.shapeToContents && Ragged(vs, s, p, vertical)))
    decreases |vs| - s
  {
    if s < |vs| {
      var e := GroupEnd(s, p, |vs|);
      EndOfGroup(vs, p, vertical, c, s);
      if e < |vs| {
        SweepsGroupwise(vs, p, vertical, c, e);
      }
    }
  }

  /** From a group start s on, the loop stores the buttons LayoutFrom places. */
  lemma {:induction false} PlacesGroupwise(vs: seq<Button>, p: nat, vertical: bool, c: LayoutConfig, s: nat)
    requires p > 0 && s <= |vs|
    requires CursorAt(vs, p, vertical, c, s).bc == 0 && CursorAt(vs, p, vertical, c, s).main == 0
    ensures forall j :: s <= j < |vs| ==>
              PlacedAt(vs, p, vertical, c, j) == LayoutFrom(vs, s, p, vertical, c, CursorAt(vs, p, vertical, c, s).cross)[j - s]
    decreases |vs| - s
  {
    if s < |vs| {
      var cross := CursorAt(vs, p, vertical, c, s).cross;
      var e := GroupEnd(s, p, |vs|);
      var group := PlaceGroup(vs, s, e, vertical, c, cross);
      var rest := LayoutFrom(vs, e, p, vertical, c, cross + CrossMax(vs, s, e, vertical));
      assert LayoutFrom(vs, s, p, vertical, c, cross) == group + rest;
      forall j | s <= j < e
        ensures PlacedAt(vs, p, vertical, c, j) == (group + rest)[j - s]
      {
        PlacedInGroup(vs, p, vertical, c, s, j);
      }
      if e < |vs| {
        EndOfGroup(vs, p, vertical, c, s);
        PlacesGroupwise(vs, p, vertical, c, e);
        forall j | e <= j < |vs|
          ensures PlacedAt(vs, p, vertical, c, j) == (group + rest)[j - s]
        {
          assert (group + rest)[j - s] == rest[j - e];
        }
      }
    }
  }

  /** Visiting twice in the same direction comes back to the first button: Order is its own inverse. */
  lemma OrderInvolution(n: nat, reverse: bool, i: nat)
    requires i < n
    ensures Order(n, reverse, Order(n, reverse, i)) == i
  {
  }

  /** Visited position j of an arranged sequence is at the array slot Order gives for it. */
  lemma ArrangeAt(n: nat, reverse: bool, s: seq<Button>, j: nat)
    requires |s| == n && j < n
    ensures Arrange(n, reverse, s)[Order(n, reverse, j)] == s[j]
  {
    OrderInvolution(n, reverse, j);
  }

  /** Arranging the visited order gives back the array: Arrange undoes Visit. */
  lemma ArrangeVisit(bs: seq<Button>, reverse: bool)
    ensures Arrange(|bs|, reverse, Visit(bs, reverse)) == bs
  {
    forall k | 0 <= k < |bs|
      ensures Arrange(|bs|, reverse, Visit(bs, reverse))[k] == bs[k]
    {
      OrderInvolution(|bs|, reverse, k);
    }
  }

  /** Storing into the slot of visited position i is changing position i before arranging. */
  lemma ArrangeUpdate(n: nat, reverse: bool, s: seq<Button>, i: nat, b: Button)
    requires |s| == n && i < n
    ensures Arrange(n, reverse, s)[Order(n, reverse, i) := b] == Arrange(n, reverse, s[i := b])
  {
    var u, v := Arrange(n, reverse, s)[Order(n, reverse, i) := b], Arrange(n, reverse, s[i := b]);
    forall k | 0 <= k < n
      ensures u[k] == v[k]
    {
      OrderInvolution(n, reverse, k);
      OrderInvolution(n, reverse, i);
    }
  }

  /** The visited order during the loop: the first i buttons placed, the rest as they were. */
  function Stored(results: seq<Button>, vs: seq<Button>, i: nat): (s: seq<Button>)
    requires i <= |results| == |vs|
    ensures |s| == |vs|
  {
    results[..i] + vs[i..]
  }

  /** Placing visited button i moves the loop's visited order one button on. */
  lemma StoredStep(results: seq<Button>, vs: seq<Button>, i: nat)
    requires i < |results| == |vs|
    ensures Stored(results, vs, i)[i := results[i]] == Stored(results, vs, i + 1)
    ensures Stored(results, vs, i)[i] == vs[i]
  {
    assert results[..i + 1] == results[..i] + [results[i]];
  }

  /** The button the loop stores for visited button j is the one LayoutFrom places j-th. */
  lemma LoopPlacesInOrder(vs: seq<Button>, p: nat, vertical: bool, c: LayoutConfig, j: nat)
    requires p > 0 && j < |vs|
    ensures PlacedAt(vs, p, vertical, c, j) == LayoutFrom(vs, 0, p, vertical, c, 0)[j]
  {
    PlacesGroupwise(vs, p, vertical, c, 0);
  }

  /** The button the loop stores for visited button i, from the opened loop variables and PlaceButton's box. */
  lemma StoredIsPlaced(vs: seq<Button>, p: nat, vertical: bool, c: LayoutConfig, i: nat, o: Cursor, box: Box)
    requires i < |vs| && o == Opened(vs, p, vertical, i, CursorAt(vs, p, vertical, c, i))
    requires box == Slot(vs[i], vertical, c, o.cross, o.main, o.crossMax, o.mainMax)
    ensures vs[i].(folderX := box.x, folderY := box.y, folderWidth := box.width, folderHeight := box.height) ==
              PlacedAt(vs, p, vertical, c, i)
  {
  }

  /**
   * The loop's final variables give Totals (with the trailing check after the loop) and
   * needs_shaping is NeedsShape.
   */
  lemma LoopTotals(bs: seq<Button>, vs: seq<Button>, p: nat, groups: int, vertical: bool, reverse: bool, c: LayoutConfig, fin: Cursor)
    requires groups >= 1 && vs == Visit(bs, reverse) && p == PerGroup(|bs|, groups)
    requires fin == CursorAt(vs, p, vertical, c, |bs|)
    ensures var trailing := groups * p > |bs|;
            Totals(vs, groups, vertical, c) ==
              Oriented(vertical, if trailing then Max(fin.mainTotal, fin.main) else fin.mainTotal,
                       if trailing then fin.crossTotal + fin.crossMax else fin.crossTotal)
    ensures fin.needs == NeedsShape(bs, groups, vertical, reverse, c)
  {
    if vs != [] {
      SweepsGroupwise(vs, p, vertical, c, 0);
    }
  }

  /** Advance in terms of the opened variables, the main offset after the button and needs_shaping after it. */
  lemma AdvanceFrom(vs: seq<Button>, p: nat, vertical: bool, c: LayoutConfig, i: nat, st: Cursor, o: Cursor, main: int, needs: bool)
    requires i < |vs| && o == Opened(vs, p, vertical, i, st)
    requires main == o.main + Extent(vs[i], vertical, c.fitContents, o.mainMax)
    requires needs == (o.needs || (c.shapeToContents && CrossSize(vs[i], vertical) != o.crossMax))
    ensures o.bc + 1 >= p ==>
              Advance(vs, p, vertical, c, i, st) ==
              Cursor(0, o.crossMax, o.mainMax, o.cross + o.crossMax, 0, o.crossTotal + o.crossMax, Max(o.mainTotal, main), needs)
    ensures o.bc + 1 < p ==>
              Advance(vs, p, vertical, c, i, st) == Cursor(o.bc + 1, o.crossMax, o.mainMax, o.cross, main, o.crossTotal, o.mainTotal, needs)
  {
  }

  /** The loop variables at visited button i, with the maxima rescanned when a group starts there. */
  method OpenGroup(a: array<Button>, reverse: bool, p: nat, vertical: bool, i: nat, st: Cursor, ghost vs: seq<Button>)
    returns (o: Cursor)
    requires i < a.Length == |vs|
    requires forall j :: i <= j < a.Length ==> a[Order(a.Length, reverse, j)] == vs[j]
    ensures o == Opened(vs, p, vertical, i, st)
  {
    o := st;
    if st.bc == 0 {
      var crossMax, mainMax := GroupMaxima(a, reverse, i, Min(i + p, a.Length), vs, vertical);
      o := st.(crossMax := crossMax, mainMax := mainMax);
    }
  }

  /**
   * One pass of the loop body on visited button i, the loop variables gathered in a Cursor: at
   * a group's first button the maxima are rescanned; the button gets its box; the offsets,
   * counter and totals move on as Advance says.
   */
  method PlaceNext(a: array<Button>, reverse: bool, p: nat, vertical: bool, c: LayoutConfig, i: nat, st: Cursor,
                   ghost vs: seq<Button>)
    returns (next: Cursor)
    requires i < a.Length == |vs| && st == CursorAt(vs, p, vertical, c, i)
    requires forall j :: i <= j < a.Length ==> a[Order(a.Length, reverse, j)] == vs[j]
    modifies a
    ensures next == CursorAt(vs, p, vertical, c, i + 1)
    ensures a[..] == old(a[..])[Order(a.Length, reverse, i) := PlacedAt(vs, p, vertical, c, i)]
  {
    var k := Order(a.Length, reverse, i);
    var o := OpenGroup(a, reverse, p, vertical, i, st, vs);
    var box, extent, narrower := PlaceButton(a[k], vertical, c, o.cross, o.main, o.crossMax, o.mainMax);
    StoredIsPlaced(vs, p, vertical, c, i, o, box);
    a[k] := a[k].(folderX := box.x, folderY := box.y, folderWidth := box.width, folderHeight := box.height);
    var needs := o.needs || narrower;
    var main := o.main + extent;
    AdvanceFrom(vs, p, vertical, c, i, st, o, main, needs);
    if o.bc + 1 >= p {
      next := Cursor(0, o.crossMax, o.mainMax, o.cross + o.crossMax, 0, o.crossTotal + o.crossMax, Max(o.mainTotal, main), needs);
    } else {
      next := o.(bc := o.bc + 1, main := main, needs := needs);
    }
  }

  /** PlaceNext on the loop's visited order: visited button i goes from its old value to its place. */
  method StoreNext(a: array<Button>, reverse: bool, p: nat, vertical: bool, c: LayoutConfig, i: nat, st: Cursor,
                   ghost vs: seq<Button>, ghost results: seq<Button>)
    returns (next: Cursor)
    requires i < a.Length == |vs| && p > 0 && results == LayoutFrom(vs, 0, p, vertical, c, 0)
    requires st == CursorAt(vs, p, vertical, c, i)
    requires a[..] == Arrange(a.Length, reverse, Stored(results, vs, i))
    modifies a
    ensures next == CursorAt(vs, p, vertical, c, i + 1)
    ensures a[..] == Arrange(a.Length, reverse, Stored(results, vs, i + 1))
  {
    var n := a.Length;
    ghost var s := Stored(results, vs, i);
    forall j | i <= j < n
      ensures a[Order(n, reverse, j)] == vs[j]
    {
      ArrangeAt(n, reverse, s, j);
      assert a[Order(n, reverse, j)] == a[..][Order(n, reverse, j)];
    }
    LoopPlacesInOrder(vs, p, vertical, c, i);
    StoredStep(results, vs, i);
    ArrangeUpdate(n, reverse, s, i, results[i]);
    next := PlaceNext(a, reverse, p, vertical, c, i, st, vs);
  }

  /**
   * The loop of place_wharf_buttons: the buttons are visited in order and each is placed and
   * sized as Layout says; the cursor it ends with is the one after the last button.
   */
  method PlaceAll(a: array<Button>, reverse: bool, p: nat, vertical: bool, c: LayoutConfig,
                  ghost vs: seq<Button>, ghost results: seq<Button>)
    returns (st: Cursor)
    requires a.Length == |vs| == |results| && a[..] == Arrange(a.Length, reverse, vs)
    requires a.Length > 0 ==> p > 0 && results == LayoutFrom(vs, 0, p, vertical, c, 0)
    modifies a
    ensures a[..] == Arrange(a.Length, reverse, results)
    ensures st == CursorAt(vs, p, vertical, c, |vs|)
  {
    var n := a.Length;
    assert Stored(results, vs, 0) == vs;
    st := Start;
    var i := 0;
    while i < n
      invariant i <= n && st == CursorAt(vs, p, vertical, c, i)
      invariant a[..] == Arrange(n, reverse, Stored(results, vs, i))
    {
      st := StoreNext(a, reverse, p, vertical, c, i, st, vs, results);
      i := i + 1;
    }
    assert Stored(results, vs, n) == results;
  }

  /** set_flags or clear_flags of NeedsShaping. */
  function WithShaping(flags: bv32, on: bool): bv32
  {
    if on then flags | NeedsShaping else flags & !NeedsShaping
  }

  /**
   * After the loop: the trailing check adds the last group's cross size and main offset when
   * groups * perGroup exceeds n, the totals are returned as (width, height), and NeedsShaping
   * is set or cleared from needs_shaping.
   */
  method FinishPlacement(f: Folder, st: Cursor, n: nat, groups: int, p: nat, vertical: bool, reverse: bool, c: LayoutConfig,
                         ghost bs: seq<Button>, ghost vs: seq<Button>)
    returns (totalWidth: int, totalHeight: int)
    requires groups >= 1 && n == |bs| && vs == Visit(bs, reverse) && p == PerGroup(n, groups)
    requires st == CursorAt(vs, p, vertical, c, n)
    modifies f`flags
    ensures (totalWidth, totalHeight) == Totals(vs, groups, vertical, c)
    ensures !FewerFullGroups(n, groups) ==> (totalWidth, totalHeight) == IntendedTotals(vs, groups, vertical, c)
    ensures f.flags == WithShaping(old(f.flags), NeedsShape(bs, groups, vertical, reverse, c))
  {
    var crossTotal, mainTotal := st.crossTotal, st.mainTotal;
    if groups * p > n {
      crossTotal := crossTotal + st.crossMax;
      if mainTotal < st.main {
        mainTotal := st.main;
      }
    }
    totalWidth, totalHeight := if vertical then crossTotal else mainTotal, if vertical then mainTotal else crossTotal;
    if st.needs {
      f.flags := f.flags | NeedsShaping;
    } else {
      f.flags := f.flags & !NeedsShaping;
    }
    LoopTotals(bs, vs, p, groups, vertical, reverse, c, st);
    TotalsAsIntended(vs, groups, vertical, c);
  }

  /**
   * place_wharf_buttons: every button gets its place and size in the folder as Layout says, the
   * totals are those of Totals, as written, which are the intended ones except when the groups
   * are all full but fewer than configured (LastGroupCountedTwice), and NeedsShaping is set
   * exactly when the folder is shaped to contents and some button is narrower than its group.
   */
  method PlaceWharfButtons(f: Folder, isRoot: bool, c: LayoutConfig) returns (totalWidth: int, totalHeight: int)
    requires Groups(isRoot, Has(f.flags, Vertical), c) >= 1
    modifies f`flags, f.buttons
    ensures var vertical, reverse := Has(old(f.flags), Vertical), Has(old(f.flags), ReverseOrder);
            f.buttons[..] == Layout(old(f.buttons[..]), Groups(isRoot, vertical, c), vertical, reverse, c)
    ensures var vertical, reverse := Has(old(f.flags), Vertical), Has(old(f.flags), ReverseOrder);
            (totalWidth, totalHeight) == Totals(Visit(old(f.buttons[..]), reverse), Groups(isRoot, vertical, c), vertical, c)
    ensures var vertical, reverse := Has(old(f.flags), Vertical), Has(old(f.flags), ReverseOrder);
            !FewerFullGroups(f.buttons.Length, Groups(isRoot, vertical, c)) ==>
              (totalWidth, totalHeight) == IntendedTotals(Visit(old(f.buttons[..]), reverse), Groups(isRoot, vertical, c), vertical, c)
    ensures var vertical, reverse := Has(old(f.flags), Vertical), Has(old(f.flags), ReverseOrder);
            f.flags == WithShaping(old(f.flags), NeedsShape(old(f.buttons[..]), Groups(isRoot, vertical, c), vertical, reverse, c))
  {
    var vertical, reverse := Has(f.flags, Vertical), Has(f.flags, ReverseOrder);
    var n := f.buttons.Length;
    var groups := Groups(isRoot, vertical, c);
    var p := PerGroup(n, groups);
    ghost var bs := f.buttons[..];
    ghost var vs := Visit(bs, reverse);
    ghost var results := if n > 0 then LayoutFrom(vs, 0, p, vertical, c, 0) else [];
    ArrangeVisit(bs, reverse);
    var st := PlaceAll(f.buttons, reverse, p, vertical, c, vs, results);
    totalWidth, totalHeight := FinishPlacement(f, st, n, groups, p, vertical, reverse, c, bs, vs);
  }
}
