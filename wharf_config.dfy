/**
 * The Wharf module's configuration (WharfConfig) as far as the dock's layout and build rules
 * read it: the option flags and which of them the configuration set, the rows and columns of
 * the root folder, the forced button size, and the list of configured buttons (WharfButton).
 * GetOptions merges a freshly parsed configuration into the current one; CheckConfigSanity
 * fills in defaults afterwards.
 */
module WharfConfigs {
  import opened Common
  import opened WharfFolders
  import opened WharfLayout

  /**
   * An option word (`flags`, `set_flags`) as the set of the bit positions it has on: `a & b`
   * is `a * b`, `a | b` is `a + b` and `a & ~b` is `a - b`.
   */
  type Options = set<nat>

  /**
   * Bit positions of the options the rules below test. Their numeric values live in Wharf's
   * configuration header; the rules only need them to be distinct.
   */
  const RowsOption: nat := 0
  const ColumnsOption: nat := 1
  const ForceSizeOption: nat := 2
  const FitContentsOption: nat := 3
  const WithdrawStyleOption: nat := 4
  const AnimateStepsOption: nat := 5
  const AnimateStepsMainOption: nat := 6
  const AnimateDelayOption: nat := 7
  const LabelLocationOption: nat := 8
  const AlignContentsOption: nat := 9
  const BevelOption: nat := 10
  const NoBorderOption: nat := 11
  const CompositionOption: nat := 12

  /** The size given to a button or forced on all of them when nothing else decides it. */
  const DefaultSize := 64

  /** The balloon style the dock falls back to. */
  const DefaultBalloonStyle := "*WharfBalloon"

  /**
   * One configured button (a WharfButton of the configuration's list): its title, the
   * Transient / Size / Disabled bits of its `set_flags`, its alternative functions (a missing
   * FunctionData is None), the one selected, its configured size, and its sub-folder's list
   * (empty for none).
   */
  datatype WharfEntry = WharfEntry(title: string, transient: bool, sized: bool, disabled: bool,
                                   contents: seq<Option<Action>>, selected: nat,
                                   width: nat, height: nat, folder: seq<WharfEntry>)

  /**
   * `(parsed & mask) | (current & ~mask)`: every option the new configuration set takes its new
   * value, every other option keeps its current one.
   */
  function MergeFlags(current: Options, parsed: Options, mask: Options): (r: Options)
    ensures forall b :: b in mask ==> (b in r <==> b in parsed)
    ensures forall b :: b !in mask ==> (b in r <==> b in current)
  {
    (parsed * mask) + (current - mask)
  }

  /** A configuration that sets nothing changes nothing. */
  lemma MergeNothing(current: Options, parsed: Options)
    ensures MergeFlags(current, parsed, {}) == current
  {
  }

  /** Merging the same configuration twice is merging it once. */
  lemma MergeIdempotent(current: Options, parsed: Options, mask: Options)
    ensures MergeFlags(MergeFlags(current, parsed, mask), parsed, mask) == MergeFlags(current, parsed, mask)
  {
  }

  /**
   * Merging configuration a and then b is merging, in one step, the configuration whose options
   * are b's where b set them and a's elsewhere, with the union of what they set: the later file
   * wins, and set_flags accumulate.
   */
  lemma MergeSequence(current: Options, a: Options, setA: Options, b: Options, setB: Options)
    ensures MergeFlags(MergeFlags(current, a, setA), b, setB) == MergeFlags(current, MergeFlags(a, b, setB), setA + setB)
  {
  }

  /**
   * The plain-valued settings GetOptions copies from the parsed configuration when it set them:
   * withdraw style, animation steps (of folders and of the main folder), animation delay, label
   * location, content alignment and bevel.
   */
  datatype Settings = Settings(withdrawStyle: int, animateSteps: int, animateStepsMain: int, animateDelay: int,
                               labelLocation: int, alignContents: int, bevel: int)

  /** Each setting the parsed configuration set (its option in `mask`) is taken over; the others stay. */
  function MergeSettings(current: Settings, parsed: Settings, mask: Options): (r: Settings)
    ensures r.withdrawStyle == if WithdrawStyleOption in mask then parsed.withdrawStyle else current.withdrawStyle
    ensures r.animateSteps == if AnimateStepsOption in mask then parsed.animateSteps else current.animateSteps
    ensures r.animateStepsMain == if AnimateStepsMainOption in mask then parsed.animateStepsMain else current.animateStepsMain
    ensures r.animateDelay == if AnimateDelayOption in mask then parsed.animateDelay else current.animateDelay
    ensures r.labelLocation == if LabelLocationOption in mask then parsed.labelLocation else current.labelLocation
    ensures r.alignContents == if AlignContentsOption in mask then parsed.alignContents else current.alignContents
    ensures r.bevel == if BevelOption in mask then parsed.bevel else current.bevel
  {
    Settings(if WithdrawStyleOption in mask then parsed.withdrawStyle else current.withdrawStyle,
             if AnimateStepsOption in mask then parsed.animateSteps else current.animateSteps,
             if AnimateStepsMainOption in mask then parsed.animateStepsMain else current.animateStepsMain,
             if AnimateDelayOption in mask then parsed.animateDelay else current.animateDelay,
             if LabelLocationOption in mask then parsed.labelLocation else current.labelLocation,
             if AlignContentsOption in mask then parsed.alignContents else current.alignContents,
             if BevelOption in mask then parsed.bevel else current.bevel)
  }

  /** Settings merge like option flags: a configuration that sets nothing changes nothing, and a second merge of the same one is a no-op. */
  lemma MergeSettingsIdempotent(current: Settings, parsed: Settings, mask: Options)
    ensures MergeSettings(current, parsed, {}) == current
    ensures MergeSettings(MergeSettings(current, parsed, mask), parsed, mask) == MergeSettings(current, parsed, mask)
  {
  }

  /**
   * The set options after a merge: the union of both, except that a configuration setting the
   * bevel without setting no-border clears the no-border option's set mark.
   */
  function MergeSetFlags(current: Options, parsed: Options): (r: Options)
    ensures forall b :: b != NoBorderOption ==> (b in r <==> b in current || b in parsed)
    ensures NoBorderOption in r <==> NoBorderOption in parsed || (NoBorderOption in current && BevelOption !in parsed)
  {
    var union := current + parsed;
    if BevelOption in parsed && NoBorderOption !in parsed then union - {NoBorderOption} else union
  }

  /** The part of a WharfConfig that the dock's layout and build rules read and write. */
  class WharfConfig {
    var flags: Options
    var setFlags: Options
    var rows: int
    var columns: int
    var forceWidth: nat
    var forceHeight: nat
    var compositionMethod: int
    var settings: Settings
    /** The balloon configuration's style; None while its BALLOON_STYLE bit is clear. */
    var balloonStyle: Option<string>
    var rootFolder: seq<WharfEntry>

    constructor (flags: Options, setFlags: Options, rows: int, columns: int, forceWidth: nat, forceHeight: nat,
                 compositionMethod: int, settings: Settings, balloonStyle: Option<string>, rootFolder: seq<WharfEntry>)
      ensures this.flags == flags && this.setFlags == setFlags && this.rows == rows && this.columns == columns
      ensures this.forceWidth == forceWidth && this.forceHeight == forceHeight
      ensures this.compositionMethod == compositionMethod && this.settings == settings
      ensures this.balloonStyle == balloonStyle && this.rootFolder == rootFolder
    {
      this.flags, this.setFlags, this.rows, this.columns := flags, setFlags, rows, columns;
      this.forceWidth, this.forceHeight := forceWidth, forceHeight;
      this.compositionMethod, this.settings := compositionMethod, settings;
      this.balloonStyle, this.rootFolder := balloonStyle, rootFolder;
    }

    /** What CheckConfigSanity guarantees about the grid: rows or columns is positive. */
    predicate Sane()
      reads this
    {
      rows > 0 || columns > 0
    }

    /** The layout options place_wharf_buttons reads. */
    function LayoutOptions(shapeToContents: bool, align: Align): (c: LayoutConfig)
      reads this
      ensures c.columns == columns && c.rows == rows && c.fitContents == (FitContentsOption in flags)
    {
      LayoutConfig(columns, rows, FitContentsOption in flags, shapeToContents, align)
    }

    /**
     * The merging part of GetOptions: the option flags and the scalar settings (below), its
     * buttons appended after the current ones (merge_wharf_folders), and its balloon
     * configuration taken over. The parsed configuration is left without buttons.
     */
    method GetOptions(parsed: WharfConfig, mergeGeometry: ((nat, nat), (nat, nat)) -> (nat, nat))
      requires parsed != this
      modifies this, parsed`rootFolder
      ensures flags == MergeFlags(old(flags), parsed.flags, parsed.setFlags)
      ensures setFlags == MergeSetFlags(old(setFlags), parsed.setFlags)
      ensures rows == if RowsOption in parsed.setFlags then parsed.rows else old(rows)
      ensures columns == if ColumnsOption in parsed.setFlags then parsed.columns else old(columns)
      ensures (forceWidth, forceHeight) == if ForceSizeOption in parsed.setFlags
                                           then mergeGeometry((parsed.forceWidth, parsed.forceHeight), (old(forceWidth), old(forceHeight)))
                                           else (old(forceWidth), old(forceHeight))
      ensures settings == MergeSettings(old(settings), parsed.settings, parsed.setFlags)
      ensures compositionMethod == if CompositionOption in parsed.setFlags then parsed.compositionMethod else old(compositionMethod)
      ensures rootFolder == old(rootFolder) + old(parsed.rootFolder) && parsed.rootFolder == []
      ensures balloonStyle == parsed.balloonStyle
    {
      MergeScalars(parsed, mergeGeometry);
      if parsed.rootFolder != [] {
        MergeWharfFolders(parsed);
      }
      balloonStyle := parsed.balloonStyle;
    }

    /**
     * The option and scalar part of GetOptions: the option flags as MergeFlags says, the set
     * options as MergeSetFlags says, and rows, columns, the plain settings and the composition
     * method taken from the parsed configuration when it set them; the forced size is merged by
     * merge_geometry (passed in as `mergeGeometry`) when it set one.
     */
    method MergeScalars(parsed: WharfConfig, mergeGeometry: ((nat, nat), (nat, nat)) -> (nat, nat))
      requires parsed != this
      modifies this`flags, this`setFlags, this`rows, this`columns, this`forceWidth, this`forceHeight,
               this`settings, this`compositionMethod
      ensures flags == MergeFlags(old(flags), parsed.flags, parsed.setFlags)
      ensures setFlags == MergeSetFlags(old(setFlags), parsed.setFlags)
      ensures rows == if RowsOption in parsed.setFlags then parsed.rows else old(rows)
      ensures columns == if ColumnsOption in parsed.setFlags then parsed.columns else old(columns)
      ensures (forceWidth, forceHeight) == if ForceSizeOption in parsed.setFlags
                                           then mergeGeometry((parsed.forceWidth, parsed.forceHeight), (old(forceWidth), old(forceHeight)))
                                           else (old(forceWidth), old(forceHeight))
      ensures settings == MergeSettings(old(settings), parsed.settings, parsed.setFlags)
      ensures compositionMethod == if CompositionOption in parsed.setFlags then parsed.compositionMethod else old(compositionMethod)
    {
      var mask := parsed.setFlags;
      flags := MergeFlags(flags, parsed.flags, mask);
      setFlags := MergeSetFlags(setFlags, mask);
      if RowsOption in mask {
        rows := parsed.rows;
      }
      if ColumnsOption in mask {
        columns := parsed.columns;
      }
      if ForceSizeOption in mask {
        var merged := mergeGeometry((parsed.forceWidth, parsed.forceHeight), (forceWidth, forceHeight));
        forceWidth, forceHeight := merged.0, merged.1;
      }
      settings := MergeSettings(settings, parsed.settings, mask);
      if CompositionOption in mask {
        compositionMethod := parsed.compositionMethod;
      }
    }

    /**
     * merge_wharf_folders: the other list is hooked onto the end of this one and the other's
     * head is cleared.
     */
    method MergeWharfFolders(other: WharfConfig)
      requires other != this
      modifies this`rootFolder, other`rootFolder
      ensures rootFolder == old(rootFolder) + old(other.rootFolder)
      ensures other.rootFolder == []
    {
      rootFolder := rootFolder + other.rootFolder;
      other.rootFolder := [];
    }

    /**
     * CheckConfigSanity: one row when neither rows nor columns is positive; a forced size of
     * 64 on each side the configuration left at 0; without a forced size, the unfocused back
     * style's icon size (64x64 without an icon) unless the dock fits its contents, which gets
     * no forced size; the default composition method for 0; and the default balloon style
     * when none was set.
     */
    method CheckConfigSanity(backIcon: Option<(nat, nat)>, transpixmapAlpha: int)
      modifies this
      ensures Sane()
      ensures rows == if old(rows) <= 0 && old(columns) <= 0 then 1 else old(rows)
      ensures columns == old(columns) && flags == old(flags) && setFlags == old(setFlags)
      ensures rootFolder == old(rootFolder) && settings == old(settings)
      ensures (forceWidth, forceHeight) == ForcedSize(old(forceWidth), old(forceHeight), setFlags, flags, backIcon)
      ensures compositionMethod == if old(compositionMethod) == 0 then transpixmapAlpha else old(compositionMethod)
      ensures balloonStyle == if old(balloonStyle).None? then Some(DefaultBalloonStyle) else old(balloonStyle)
    {
      if rows <= 0 && columns <= 0 {
        rows := 1;
      }
      if ForceSizeOption in setFlags {
        if forceWidth == 0 {
          forceWidth := DefaultSize;
        }
        if forceHeight == 0 {
          forceHeight := DefaultSize;
        }
      } else if FitContentsOption !in flags {
        if backIcon.Some? {
          forceWidth, forceHeight := backIcon.value.0, backIcon.value.1;
        } else {
          forceWidth, forceHeight := DefaultSize, DefaultSize;
        }
      } else {
        forceWidth, forceHeight := 0, 0;
      }
      if compositionMethod == 0 {
        compositionMethod := transpixmapAlpha;
      }
      if balloonStyle.None? {
        balloonStyle := Some(DefaultBalloonStyle);
      }
    }
  }

  /**
   * The forced button size after CheckConfigSanity: a configured forced size with its zero
   * sides made 64; else, unless the dock fits its contents, the back icon's size or 64x64;
   * else none (0x0).
   */
  function ForcedSize(width: nat, height: nat, setFlags: Options, flags: Options, backIcon: Option<(nat, nat)>): (r: (nat, nat))
    ensures ForceSizeOption in setFlags ==>
              r.0 > 0 && r.1 > 0 && (width > 0 ==> r.0 == width) && (height > 0 ==> r.1 == height)
    ensures ForceSizeOption !in setFlags && FitContentsOption in flags ==> r == (0, 0)
    ensures ForceSizeOption !in setFlags && FitContentsOption !in flags ==>
              r == if backIcon.Some? then backIcon.value else (DefaultSize, DefaultSize)
  {
    if ForceSizeOption in setFlags then
      (if width == 0 then DefaultSize else width, if height == 0 then DefaultSize else height)
    else if FitContentsOption !in flags then
      (if backIcon.Some? then backIcon.value else (DefaultSize, DefaultSize))
    else (0, 0)
  }

  /**
   * The root folder is vertical exactly when columns are configured, so once the configuration
   * is sane the root folder's layout has at least one group: place_wharf_buttons never divides
   * by a zero count of columns or rows.
   */
  lemma SaneRootHasGroups(columns: int, rows: int, c: LayoutConfig)
    requires rows > 0 || columns > 0
    requires c.columns == columns && c.rows == rows
    ensures Groups(true, columns > 0, c) >= 1
  {
  }

  /** Without sanity the horizontal root folder of a configuration with no rows has no groups. */
  lemma InsaneRootHasNoGroups(c: LayoutConfig)
    requires c.columns <= 0 && c.rows <= 0
    ensures Groups(true, c.columns > 0, c) <= 0
  {
  }
}
