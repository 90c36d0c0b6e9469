/**
 * build_wharf_folder: a folder is built from a list of configured buttons in two passes. The
 * first pass decides which entries are usable, records for each the first function it can run,
 * and marks the others Disabled; the number of usable entries sizes the folder. The second pass
 * turns every entry not marked Disabled into a button, with its size defaults, and builds the
 * sub-folder of an entry that has one, with the other orientation.
 *
 * Whether a program is on the PATH (is_executable_in_path) and the size of a button's title bar
 * (calculate_astbar_width/height) are parameters.
 */
module WharfBuild {
  import opened Common
  import opened WharfFolders
  import opened WharfConfigs

  /** IsSwallowFunc || IsExecFunc: a function that runs a program named by its text. */
  predicate NeedsProgram(a: Action)
  {
    a.kind.Swallow? || a.kind.Exec?
  }

  /** A content the first pass accepts: it has a function, and one that runs a program finds it on the PATH. */
  predicate Usable(c: Option<Action>, inPath: string -> bool)
  {
    c.Some? && (NeedsProgram(c.value) ==> inPath(c.value.text))
  }

  /** The first usable content at index `i` or later. */
  function FirstUsable(contents: seq<Option<Action>>, inPath: string -> bool, i: nat): (r: Option<nat>)
    requires i <= |contents|
    decreases |contents| - i
    ensures r.Some? ==> i <= r.value < |contents| && Usable(contents[r.value], inPath)
    ensures forall j :: i <= j < |contents| && (r.None? || j < r.value) ==> !Usable(contents[j], inPath)
  {
    if i == |contents| then None
    else if Usable(contents[i], inPath) then Some(i)
    else FirstUsable(contents, inPath, i + 1)
  }

  /** An entry is usable when it is transient, has a usable content, or opens a folder. */
  predicate Enabled(e: WharfEntry, inPath: string -> bool)
  {
    e.transient || FirstUsable(e.contents, inPath, 0).Some? || e.folder != []
  }

  /** Every selected content exists, in the list and in every sub-folder's list. */
  predicate WellFormed(list: seq<WharfEntry>)
    decreases list
  {
    forall i :: 0 <= i < |list| ==>
      (list[i].contents != [] ==> list[i].selected < |list[i].contents|) && WellFormed(list[i].folder)
  }

  /**
   * The first pass on one entry: a non-transient entry selects its first usable content, if
   * any; an entry that is not usable is marked Disabled. A mark from before stays.
   */
  function MarkEntry(e: WharfEntry, inPath: string -> bool): (m: WharfEntry)
    ensures m.disabled <==> e.disabled || !Enabled(e, inPath)
    ensures m.(selected := e.selected, disabled := e.disabled) == e
    ensures !e.transient && FirstUsable(e.contents, inPath, 0).Some? ==>
              m.selected == FirstUsable(e.contents, inPath, 0).value
    ensures e.transient || FirstUsable(e.contents, inPath, 0).None? ==> m.selected == e.selected
  {
    var sel := FirstUsable(e.contents, inPath, 0);
    var e1 := if !e.transient && sel.Some? then e.(selected := sel.value) else e;
    if Enabled(e, inPath) then e1 else e1.(disabled := true)
  }

  /** The list after the first pass. */
  function MarkTop(list: seq<WharfEntry>, inPath: string -> bool): (r: seq<WharfEntry>)
    ensures |r| == |list|
  {
    seq(|list|, i requires 0 <= i < |list| => MarkEntry(list[i], inPath))
  }

  /** The number of usable entries: the size of the folder. */
  function EnabledCount(list: seq<WharfEntry>, inPath: string -> bool): nat
  {
    if list == [] then 0
    else EnabledCount(list[..|list| - 1], inPath) + if Enabled(list[|list| - 1], inPath) then 1 else 0
  }

  /** The entries the second pass turns into buttons: those not marked Disabled, in order. */
  function Kept(list: seq<WharfEntry>): seq<WharfEntry>
  {
    if list == [] then []
    else Kept(list[..|list| - 1]) + if list[|list| - 1].disabled then [] else [list[|list| - 1]]
  }

  /** Entry `i` after both passes: marked, and with its sub-folder's list marked when it was built. */
  function MarkedAt(list: seq<WharfEntry>, i: nat, inPath: string -> bool): WharfEntry
    requires i < |list|
    decreases list, 0
  {
    var m := MarkEntry(list[i], inPath);
    if !m.disabled && list[i].folder != [] then m.(folder := MarkTree(list[i].folder, inPath)) else m
  }

  /** The list after build_wharf_folder, sub-folders included. */
  function MarkTree(list: seq<WharfEntry>, inPath: string -> bool): (r: seq<WharfEntry>)
    decreases list, 1
    ensures |r| == |list|
  {
    seq(|list|, i requires 0 <= i < |list| => MarkedAt(list, i, inPath))
  }

  /** A word with `bits` set (set_flags) or cleared (clear_flags). */
  function WithFlag(flags: bv32, bits: bv32, on: bool): bv32
  {
    if on then flags | bits else flags & !bits
  }

  /** A zeroed folder's flags after its orientation is set. */
  lemma OrientedFlags(vertical: bool)
    ensures WithFlag(0, Vertical, vertical) == if vertical then Vertical else 0
    ensures Has(WithFlag(0, Vertical, vertical), Vertical) == vertical
  {
  }

  /**
   * The selected function of an entry; none when it has no contents (a selection outside the
   * contents does not occur in a well-formed list).
   */
  function Function(m: WharfEntry): Option<Action>
  {
    if m.selected < |m.contents| then m.contents[m.selected] else None
  }

  /** The flags of a new button: swallow target and maximised, transient, and fixed sides of a sized entry. */
  function ButtonFlags(m: WharfEntry, fn: Option<Action>): (flags: bv32)
    ensures Has(flags, SwallowTarget) <==> fn.Some? && fn.value.kind.Swallow?
    ensures Has(flags, MaxSwallow) <==> fn.Some? && fn.value.kind == Swallow(true)
    ensures Has(flags, Transient) <==> m.transient
    ensures Has(flags, FixedWidth) <==> m.sized && m.width > 0
    ensures Has(flags, FixedHeight) <==> m.sized && m.height > 0
  {
    var swallow := fn.Some? && fn.value.kind.Swallow?;
    (if swallow then SwallowTarget else 0) |
    (if swallow && fn.value.kind.maximised then MaxSwallow else 0) |
    (if m.transient then Transient else 0) |
    (if m.sized && m.width > 0 then FixedWidth else 0) |
    (if m.sized && m.height > 0 then FixedHeight else 0)
  }

  /**
   * One side of a new button: the configured size of a sized entry; else the forced size, or
   * for a button that swallows nothing the title bar's size when no size is forced; 64 when
   * that is still 0.
   */
  function DesiredSize(configured: nat, swallow: bool, forced: nat, barSize: nat): (r: nat)
    ensures r > 0
    ensures configured > 0 ==> r == configured
    ensures configured == 0 && forced > 0 ==> r == forced
    ensures configured == 0 && forced == 0 && !swallow && barSize > 0 ==> r == barSize
    ensures configured == 0 && forced == 0 && (swallow || barSize == 0) ==> r == DefaultSize
  {
    var d := if configured != 0 then configured else if !swallow && forced == 0 then barSize else forced;
    if d == 0 then DefaultSize else d
  }

  /** The button the second pass makes of a kept entry, before its sub-folder is attached. */
  function ButtonFor(m: WharfEntry, forceWidth: nat, forceHeight: nat, bar: (nat, nat)): (b: Button)
    ensures b.desiredWidth > 0 && b.desiredHeight > 0
    ensures b.name == m.title && b.action == Function(m) && b.folder == null && !b.swallowed
  {
    var fn := Function(m);
    var swallow := fn.Some? && fn.value.kind.Swallow?;
    Button(ButtonFlags(m, fn), m.title, fn, false,
           DesiredSize(if m.sized then m.width else 0, swallow, forceWidth, bar.0),
           DesiredSize(if m.sized then m.height else 0, swallow, forceHeight, bar.1),
           0, 0, 0, 0, null)
  }

  /** The first pass keeps every selected content in range. */
  lemma MarkTopWellFormed(list: seq<WharfEntry>, inPath: string -> bool, i: nat)
    requires WellFormed(list) && i < |list|
    ensures var m := MarkTop(list, inPath)[i];
            (m.contents != [] ==> m.selected < |m.contents|) && m.folder == list[i].folder && WellFormed(m.folder)
  {
  }

  /** Kept and EnabledCount of a list grown by one entry. */
  lemma {:induction false} KeptStep(s: seq<WharfEntry>, j: nat)
    requires j < |s|
    ensures Kept(s[..j + 1]) == Kept(s[..j]) + if s[j].disabled then [] else [s[j]]
  {
    assert s[..j + 1][..j] == s[..j];
  }

  lemma {:induction false} CountStep(s: seq<WharfEntry>, inPath: string -> bool, j: nat)
    requires j < |s|
    ensures EnabledCount(s[..j + 1], inPath) == EnabledCount(s[..j], inPath) + if Enabled(s[j], inPath) then 1 else 0
  {
    assert s[..j + 1][..j] == s[..j];
  }

  /**
   * Only usable entries escape the Disabled mark, so the second pass never makes more buttons
   * than the first pass counted.
   */
  lemma {:induction false} KeptWithinCount(list: seq<WharfEntry>, inPath: string -> bool)
    ensures |Kept(MarkTop(list, inPath))| <= EnabledCount(list, inPath)
  {
    if list != [] {
      var n := |list| - 1;
      assert MarkTop(list, inPath)[..n] == MarkTop(list[..n], inPath);
      KeptWithinCount(list[..n], inPath);
    }
  }

  /**
   * On a list no earlier build marked, the second pass fills the folder exactly: one button per
   * usable entry.
   */
  lemma {:induction false} FreshListFillsAll(list: seq<WharfEntry>, inPath: string -> bool)
    requires forall i :: 0 <= i < |list| ==> !list[i].disabled
    ensures |Kept(MarkTop(list, inPath))| == EnabledCount(list, inPath)
  {
    if list != [] {
      var n := |list| - 1;
      assert MarkTop(list, inPath)[..n] == MarkTop(list[..n], inPath);
      FreshListFillsAll(list[..n], inPath);
    }
  }

  /**
   * An entry marked Disabled by an earlier build keeps the mark even when it has become usable:
   * it is counted, but gets no button, and the folder keeps a blank one.
   */
  lemma StaleMarkLeavesBlank(inPath: string -> bool)
    requires inPath("xterm")
    ensures var e := WharfEntry("term", false, false, true, [Some(Action(Exec, "xterm"))], 0, 0, 0, []);
            EnabledCount([e], inPath) == 1 && Kept(MarkTop([e], inPath)) == []
  {
    var e := WharfEntry("term", false, false, true, [Some(Action(Exec, "xterm"))], 0, 0, 0, []);
    assert Usable(e.contents[0], inPath);
    assert [e][..0] == [];
    assert MarkTop([e], inPath)[..0] == [];
  }

  /** When nothing is usable, nothing is kept and nothing is built: the first pass is the whole of it. */
  lemma {:induction false} NothingEnabled(list: seq<WharfEntry>, inPath: string -> bool)
    requires EnabledCount(list, inPath) == 0
    ensures MarkTree(list, inPath) == MarkTop(list, inPath)
    ensures forall i :: 0 <= i < |list| ==> !Enabled(list[i], inPath)
  {
    if list != [] {
      var n := |list| - 1;
      NothingEnabled(list[..n], inPath);
      forall i | 0 <= i < |list|
        ensures !Enabled(list[i], inPath)
      {
        if i < n {
          assert list[..n][i] == list[i];
        }
      }
    }
  }

  /**
   * The first pass: every entry marked, and the usable ones counted. The inner loop picks the
   * first usable content of a non-transient entry.
   */
  method MarkEntries(list: seq<WharfEntry>, inPath: string -> bool) returns (top: seq<WharfEntry>, count: nat)
    ensures top == MarkTop(list, inPath)
    ensures count == EnabledCount(list, inPath)
  {
    top, count := [], 0;
    var j := 0;
    while j < |list|
      invariant j <= |list|
      invariant top == MarkTop(list[..j], inPath)
      invariant count == EnabledCount(list[..j], inPath)
    {
      var e := list[j];
      var disabled := true;
      var selected := e.selected;
      if e.transient {
        disabled := false;
      } else {
        var i := 0;
        while i < |e.contents|
          invariant i <= |e.contents|
          invariant FirstUsable(e.contents, inPath, 0) == FirstUsable(e.contents, inPath, i)
          invariant disabled && selected == e.selected
        {
          var c := e.contents[i];
          if c.Some? {
            if NeedsProgram(c.value) {
              disabled := !inPath(c.value.text);
            } else {
              disabled := false;
            }
          }
          if !disabled {
            selected := i;
            break;
          }
          i := i + 1;
        }
        if e.folder != [] {
          disabled := false;
        }
      }
      var m := e.(selected := selected);
      if disabled {
        m := m.(disabled := true);
      }
      assert m == MarkEntry(e, inPath);
      CountStep(list, inPath, j);
      assert list[..j + 1][..j] == list[..j];
      top := top + [m];
      if !disabled {
        count := count + 1;
      }
      j := j + 1;
    }
    assert list[..j] == list;
  }

  /** The second pass never passes the number of kept entries. */
  lemma {:induction false} KeptPrefix(s: seq<WharfEntry>, j: nat)
    requires j <= |s|
    decreases |s| - j
    ensures |Kept(s[..j])| <= |Kept(s)|
  {
    if j < |s| {
      KeptStep(s, j);
      KeptPrefix(s, j + 1);
    } else {
      assert s[..j] == s;
    }
  }

  /**
   * `sub` is what build_wharf_folder makes of `list` with the given orientation: no folder when
   * no entry is usable, else one of one button per usable entry, oriented as asked.
   */
  predicate Built(sub: Folder?, list: seq<WharfEntry>, vertical: bool, inPath: string -> bool)
    reads sub
  {
    (sub == null <==> EnabledCount(list, inPath) == 0) &&
    (sub != null ==> sub.buttons.Length == EnabledCount(list, inPath) && sub.flags == if vertical then Vertical else 0)
  }

  /**
   * The second pass on one kept entry: its button, with the sub-folder built the other way when
   * the entry has a folder, and the entry as it is left, its folder's list marked.
   */
  method MakeButton(list: seq<WharfEntry>, j: nat, vertical: bool, forceWidth: nat, forceHeight: nat,
                    inPath: string -> bool, bar: WharfEntry -> (nat, nat))
    returns (b: Button, done: WharfEntry)
    requires j < |list| && WellFormed(list) && !MarkEntry(list[j], inPath).disabled
    decreases list, 0
    ensures var m := MarkEntry(list[j], inPath); b.(folder := null) == ButtonFor(m, forceWidth, forceHeight, bar(m))
    ensures done == MarkedAt(list, j, inPath)
    ensures Built(b.folder, list[j].folder, !vertical, inPath)
  {
    var m := MarkEntry(list[j], inPath);
    b := ButtonFor(m, forceWidth, forceHeight, bar(m));
    done := m;
    if list[j].folder != [] {
      var subMarked, sub := BuildWharfFolder(list[j].folder, !vertical, forceWidth, forceHeight, inPath, bar);
      b := b.(folder := sub);
      done := m.(folder := subMarked);
    }
  }

  /** `n` buttons as safecalloc leaves them. */
  function Blanks(n: nat): (r: seq<Button>)
    ensures |r| == n && forall t :: 0 <= t < n ==> r[t] == Blank
  {
    seq(n, _ => Blank)
  }

  /**
   * The second pass's step on a kept entry: its button becomes button `k` of the folder, after
   * the `k` made so far and before the blank ones.
   */
  method AddButton(f: Folder, k: nat, ghost made: seq<Button>, list: seq<WharfEntry>, j: nat, vertical: bool,
                   forceWidth: nat, forceHeight: nat, inPath: string -> bool, bar: WharfEntry -> (nat, nat))
    returns (done: WharfEntry)
    requires k == |made| < f.buttons.Length && f.buttons[..] == made + Blanks(f.buttons.Length - k)
    requires j < |list| && WellFormed(list) && !MarkEntry(list[j], inPath).disabled
    modifies f.buttons
    decreases list, 1
    ensures f.buttons[..] == made + [f.buttons[k]] + Blanks(f.buttons.Length - k - 1)
    ensures var m := MarkEntry(list[j], inPath); f.buttons[k].(folder := null) == ButtonFor(m, forceWidth, forceHeight, bar(m))
    ensures done == MarkedAt(list, j, inPath)
  {
    var b;
    b, done := MakeButton(list, j, vertical, forceWidth, forceHeight, inPath, bar);
    f.buttons[k] := b;
    assert f.buttons[..] == made + [b] + Blanks(f.buttons.Length - k - 1);
  }

  /** The first `j` entries after both passes, one entry at a time. */
  function MarkedPrefix(list: seq<WharfEntry>, j: nat, inPath: string -> bool): (r: seq<WharfEntry>)
    requires j <= |list|
    ensures |r| == j
  {
    if j == 0 then [] else MarkedPrefix(list, j - 1, inPath) + [MarkedAt(list, j - 1, inPath)]
  }

  lemma {:induction false} MarkedPrefixIsTree(list: seq<WharfEntry>, j: nat, inPath: string -> bool)
    requires j <= |list|
    ensures MarkedPrefix(list, j, inPath) == MarkTree(list, inPath)[..j]
  {
    if j > 0 {
      MarkedPrefixIsTree(list, j - 1, inPath);
    }
  }

  /** Buttons without their sub-folders. */
  function Shells(bs: seq<Button>): (r: seq<Button>)
    ensures |r| == |bs|
  {
    if bs == [] then [] else Shells(bs[..|bs| - 1]) + [bs[|bs| - 1].(folder := null)]
  }

  /** The buttons made of the kept entries, without their sub-folders. */
  function Wanted(kept: seq<WharfEntry>, forceWidth: nat, forceHeight: nat, bar: WharfEntry -> (nat, nat)): (r: seq<Button>)
    ensures |r| == |kept|
  {
    if kept == [] then []
    else
      var m := kept[|kept| - 1];
      Wanted(kept[..|kept| - 1], forceWidth, forceHeight, bar) + [ButtonFor(m, forceWidth, forceHeight, bar(m))]
  }

  lemma {:induction false} ShellsAt(bs: seq<Button>, t: nat)
    requires t < |bs|
    ensures Shells(bs)[t] == bs[t].(folder := null)
  {
    if t < |bs| - 1 {
      ShellsAt(bs[..|bs| - 1], t);
    }
  }

  lemma {:induction false} WantedAt(kept: seq<WharfEntry>, forceWidth: nat, forceHeight: nat, bar: WharfEntry -> (nat, nat), t: nat)
    requires t < |kept|
    ensures Wanted(kept, forceWidth, forceHeight, bar)[t] == ButtonFor(kept[t], forceWidth, forceHeight, bar(kept[t]))
  {
    if t < |kept| - 1 {
      WantedAt(kept[..|kept| - 1], forceWidth, forceHeight, bar, t);
    }
  }

  /**
   * The second pass after `j` entries of `top`: `k` buttons made, of the entries kept so far,
   * the rest blank, and the entries visited so far as both passes leave them.
   */
  ghost predicate Filled(buttons: seq<Button>, list: seq<WharfEntry>, top: seq<WharfEntry>, forceWidth: nat, forceHeight: nat,
                         inPath: string -> bool, bar: WharfEntry -> (nat, nat),
                         j: nat, k: nat, marked: seq<WharfEntry>, kept: seq<WharfEntry>, made: seq<Button>)
  {
    j <= |top| == |list| && kept == Kept(top[..j]) && k == |kept| == |made| <= |Kept(top)| <= |buttons| &&
    marked == MarkedPrefix(list, j, inPath) &&
    buttons == made + Blanks(|buttons| - k) &&
    Shells(made) == Wanted(kept, forceWidth, forceHeight, bar)
  }

  /** At the end of the list the second pass has made the button of every kept entry. */
  lemma FilledAll(buttons: seq<Button>, list: seq<WharfEntry>, top: seq<WharfEntry>, forceWidth: nat, forceHeight: nat,
                  inPath: string -> bool, bar: WharfEntry -> (nat, nat),
                  k: nat, marked: seq<WharfEntry>, kept: seq<WharfEntry>, made: seq<Button>)
    requires Filled(buttons, list, top, forceWidth, forceHeight, inPath, bar, |top|, k, marked, kept, made)
    ensures marked == MarkTree(list, inPath)
    ensures Shells(buttons[..|Kept(top)|]) == Wanted(Kept(top), forceWidth, forceHeight, bar)
    ensures buttons[|Kept(top)|..] == Blanks(|buttons| - |Kept(top)|)
  {
    assert top[..|top|] == top;
    assert kept == Kept(top);
    assert buttons[..k] == made && buttons[k..] == Blanks(|buttons| - k);
    MarkedPrefixIsTree(list, |list|, inPath);
    assert MarkTree(list, inPath)[..|list|] == MarkTree(list, inPath);
  }

  /** An entry marked Disabled is passed over: it gets no button and stays as the first pass left it. */
  lemma FilledSkip(buttons: seq<Button>, list: seq<WharfEntry>, top: seq<WharfEntry>, forceWidth: nat, forceHeight: nat,
                   inPath: string -> bool, bar: WharfEntry -> (nat, nat),
                   j: nat, k: nat, marked: seq<WharfEntry>, kept: seq<WharfEntry>, made: seq<Button>)
    requires top == MarkTop(list, inPath) && j < |top| && top[j].disabled
    requires Filled(buttons, list, top, forceWidth, forceHeight, inPath, bar, j, k, marked, kept, made)
    ensures Filled(buttons, list, top, forceWidth, forceHeight, inPath, bar, j + 1, k, marked + [top[j]], kept, made)
  {
    KeptStep(top, j);
  }

  /** An entry not marked Disabled gets the next button. */
  lemma FilledAdd(buttons: seq<Button>, list: seq<WharfEntry>, top: seq<WharfEntry>, forceWidth: nat, forceHeight: nat,
                  inPath: string -> bool, bar: WharfEntry -> (nat, nat),
                  j: nat, k: nat, marked: seq<WharfEntry>, kept: seq<WharfEntry>, made: seq<Button>,
                  b: Button, done: WharfEntry, buttons': seq<Button>)
    requires top == MarkTop(list, inPath) && j < |top| && !top[j].disabled
    requires Filled(buttons, list, top, forceWidth, forceHeight, inPath, bar, j, k, marked, kept, made)
    requires b.(folder := null) == ButtonFor(top[j], forceWidth, forceHeight, bar(top[j]))
    requires done == MarkedAt(list, j, inPath)
    requires k < |buttons| == |buttons'| && buttons' == made + [b] + Blanks(|buttons| - k - 1)
    ensures Filled(buttons', list, top, forceWidth, forceHeight, inPath, bar, j + 1, k + 1, marked + [done], kept + [top[j]], made + [b])
  {
    KeptStep(top, j);
    KeptPrefix(top, j + 1);
    assert (made + [b])[..k] == made && (kept + [top[j]])[..k] == kept;
  }

  /** One entry of the second pass. */
  method FillStep(f: Folder, list: seq<WharfEntry>, top: seq<WharfEntry>, vertical: bool,
                  forceWidth: nat, forceHeight: nat, inPath: string -> bool, bar: WharfEntry -> (nat, nat),
                  j: nat, k: nat, marked: seq<WharfEntry>, ghost kept: seq<WharfEntry>, ghost made: seq<Button>)
    returns (k': nat, marked': seq<WharfEntry>, ghost kept': seq<WharfEntry>, ghost made': seq<Button>)
    requires WellFormed(list) && top == MarkTop(list, inPath) && j < |top|
    requires Filled(f.buttons[..], list, top, forceWidth, forceHeight, inPath, bar, j, k, marked, kept, made)
    modifies f.buttons
    decreases list, 2
    ensures Filled(f.buttons[..], list, top, forceWidth, forceHeight, inPath, bar, j + 1, k', marked', kept', made')
  {
    if !top[j].disabled {
      KeptStep(top, j);
      KeptPrefix(top, j + 1);
      ghost var buttons := f.buttons[..];
      var done := AddButton(f, k, made, list, j, vertical, forceWidth, forceHeight, inPath, bar);
      FilledAdd(buttons, list, top, forceWidth, forceHeight, inPath, bar, j, k, marked, kept, made, f.buttons[k], done, f.buttons[..]);
      k', marked', kept', made' := k + 1, marked + [done], kept + [top[j]], made + [f.buttons[k]];
    } else {
      FilledSkip(f.buttons[..], list, top, forceWidth, forceHeight, inPath, bar, j, k, marked, kept, made);
      k', marked', kept', made' := k, marked + [top[j]], kept, made;
    }
  }

  /**
   * The second pass over the marked list `top`: every entry not marked Disabled becomes the
   * next button; the list comes out with the sub-folders' lists marked too.
   */
  method FillButtons(f: Folder, list: seq<WharfEntry>, top: seq<WharfEntry>, vertical: bool,
                     forceWidth: nat, forceHeight: nat, inPath: string -> bool, bar: WharfEntry -> (nat, nat))
    returns (marked: seq<WharfEntry>)
    requires WellFormed(list) && top == MarkTop(list, inPath)
    requires |Kept(top)| <= f.buttons.Length
    requires f.buttons[..] == Blanks(f.buttons.Length)
    modifies f.buttons
    decreases list, 3
    ensures marked == MarkTree(list, inPath)
    ensures Shells(f.buttons[..|Kept(top)|]) == Wanted(Kept(top), forceWidth, forceHeight, bar)
    ensures f.buttons[|Kept(top)|..] == Blanks(f.buttons.Length - |Kept(top)|)
  {
    marked := [];
    ghost var kept: seq<WharfEntry> := [];
    ghost var made: seq<Button> := [];
    var j: nat, k: nat := 0, 0;
    while j < |top|
      invariant Filled(f.buttons[..], list, top, forceWidth, forceHeight, inPath, bar, j, k, marked, kept, made)
      decreases |top| - j
    {
      k, marked, kept, made := FillStep(f, list, top, vertical, forceWidth, forceHeight, inPath, bar, j, k, marked, kept, made);
      j := j + 1;
    }
    FilledAll(f.buttons[..], list, top, forceWidth, forceHeight, inPath, bar, k, marked, kept, made);
  }

  /**
   * build_wharf_folder: no folder when no entry is usable; otherwise a new folder of one button
   * per usable entry, oriented as asked, whose first buttons are made from the entries not
   * marked Disabled, in order, each with its sub-folder built the other way. The list comes
   * out marked.
   */
  method BuildWharfFolder(list: seq<WharfEntry>, vertical: bool, forceWidth: nat, forceHeight: nat,
                          inPath: string -> bool, bar: WharfEntry -> (nat, nat))
    returns (marked: seq<WharfEntry>, f: Folder?)
    requires WellFormed(list)
    decreases list, 4
    ensures marked == MarkTree(list, inPath)
    ensures Built(f, list, vertical, inPath)
    ensures f != null ==> fresh(f) && fresh(f.buttons)
    ensures f != null ==> var kept := Kept(MarkTop(list, inPath));
              |kept| <= f.buttons.Length &&
              (forall t :: 0 <= t < |kept| ==>
                 f.buttons[t].(folder := null) == ButtonFor(kept[t], forceWidth, forceHeight, bar(kept[t]))) &&
              (forall t :: |kept| <= t < f.buttons.Length ==> f.buttons[t] == Blank)
  {
    var top, count := MarkEntries(list, inPath);
    f := CreateWharfFolder(count);
    if f == null {
      NothingEnabled(list, inPath);
      return top, null;
    }
    f.flags := WithFlag(f.flags, Vertical, vertical);
    OrientedFlags(vertical);
    KeptWithinCount(list, inPath);
    assert f.buttons[..] == Blanks(f.buttons.Length);
    marked := FillButtons(f, list, top, vertical, forceWidth, forceHeight, inPath, bar);
    forall t | |Kept(top)| <= t < f.buttons.Length
      ensures f.buttons[t] == Blank
    {
      assert f.buttons[t] == f.buttons[|Kept(top)|..][t - |Kept(top)|];
    }
    forall t | 0 <= t < |Kept(top)|
      ensures f.buttons[t].(folder := null) == ButtonFor(Kept(top)[t], forceWidth, forceHeight, bar(Kept(top)[t]))
    {
      ShellsAt(f.buttons[..|Kept(top)|], t);
      WantedAt(Kept(top), forceWidth, forceHeight, bar, t);
    }
  }
}
