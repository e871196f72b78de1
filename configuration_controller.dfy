/**
 * The deterministic parts of the expert configuration module
 * (`ConfigurationController`): the `conversion_mapping` text transforms,
 * the cut of the form footer, and the load/save cycle of the `config` field.
 */
module ConfigurationController {
  import opened Wrappers
  import opened PhpStrings
  import opened PhpArrays
  import FlexForm

  const LF: char := '\n'

  // ---------------------------------------------------------------------
  // conversion_mapping: commas on disk, one item per line in the form
  // ---------------------------------------------------------------------

  /**
   * The load transform: `implode(LF, explode(',', $s))`. Every comma becomes
   * a line feed and every other character stays where it is.
   */
  function LoadMapping(s: string): (r: string)
    ensures |r| == |s|
    ensures forall i :: 0 <= i < |s| ==> r[i] == if s[i] == ',' then LF else s[i]
  {
    JoinSplitReplace(s, ',', LF);
    Join(Split(s, ','), LF)
  }

  /** The save transform: `implode(',', trimExplode(LF, $s, true))`. */
  function SaveMapping(s: string): string
  {
    Join(TrimExplode(s, LF), ',')
  }

  /**
   * Loading puts each comma item on a line of its own, in order: the lines
   * of the loaded text are exactly the comma items of the stored one.
   */
  lemma LoadedLines(s: string)
    requires LF !in s
    ensures Split(LoadMapping(s), LF) == Split(s, ',')
  {
    SplitAvoids(s, ',', LF);
    SplitJoin(Split(s, ','), LF);
  }

  /**
   * Saving keeps the lines trimmed and non-empty, in order: the comma items
   * of the saved text are the trimmed non-empty lines (when at least one
   * remains and no line holds a comma).
   */
  lemma SavedItems(s: string)
    requires ',' !in s
    requires |TrimExplode(s, LF)| >= 1
    ensures Split(SaveMapping(s), ',') == TrimExplode(s, LF)
  {
    SplitAvoids(s, LF, ',');
    TrimNonEmptyAvoids(Split(s, LF), ',');
    SplitJoin(TrimExplode(s, LF), ',');
  }

  /** An item that survives a save unchanged: non-empty, trimmed, on one line. */
  predicate CleanItem(item: string)
  {
    item != "" && Trimmed(item) && LF !in item
  }

  /** Loading and then saving a mapping whose comma items are clean gives it back. */
  lemma MappingRoundTrip(s: string)
    requires forall i :: 0 <= i < |Split(s, ',')| ==> CleanItem(Split(s, ',')[i])
    ensures SaveMapping(LoadMapping(s)) == s
  {
    var items := Split(s, ',');
    SplitJoin(items, LF);
    assert TrimExplode(LoadMapping(s), LF) == TrimNonEmpty(items);
    TrimNonEmptyOfClean(items);
    JoinSplit(s, ',');
  }

  /** The items of the mapping used when no configuration is stored yet. */
  const DefaultMappingItems: seq<string> :=
    ["ai => jpg", "bmp => jpg", "pcx => jpg", "tga => jpg", "tif => jpg", "tiff => jpg"]

  const DefaultMapping: string := Join(DefaultMappingItems, ',')

  /** The default mapping survives a load followed by a save. */
  lemma DefaultMappingRoundTrip()
    ensures Split(DefaultMapping, ',') == DefaultMappingItems
    ensures SaveMapping(LoadMapping(DefaultMapping)) == DefaultMapping
  {
    var items := DefaultMappingItems;
    forall i | 0 <= i < |items| ensures CleanItem(items[i]) && ',' !in items[i] {
      assert items[i][0] != ' ' && items[i][|items[i]| - 1] == 'g';
    }
    SplitJoin(items, ',');
    MappingRoundTrip(DefaultMapping);
  }

  // ---------------------------------------------------------------------
  // Footer cut in buildForm
  // ---------------------------------------------------------------------

  const FooterMarker: string := "<div class=\"help-block text-right\">"
  const EndTag: string := "</div>"

  /**
   * The rendered form without its footer: from the last footer marker up to
   * and including the next `</div>`. When no `</div>` follows, `strpos`
   * yields false, which counts as 0, so the text resumes at offset 6.
   */
  function StripFooter(html: string): (r: string)
    ensures (forall j :: !OccursAt(html, FooterMarker, j)) ==> r == html
  {
    match LastIndexOf(html, FooterMarker)
    case None => html
    case Some(start) =>
      var cut := match IndexOfFrom(html, EndTag, start)
        case Some(e) => e + |EndTag|
        case None => |EndTag|;
      html[..start] + html[cut..]
  }

  /** With a last marker at `s` and the first `</div>` from `s` at `e`, exactly `html[s..e+6]` is cut out. */
  lemma StripFooterCut(html: string, s: nat, e: nat)
    requires OccursAt(html, FooterMarker, s) && forall j :: s < j ==> !OccursAt(html, FooterMarker, j)
    requires s <= e && OccursAt(html, EndTag, e) && forall j :: s <= j < e ==> !OccursAt(html, EndTag, j)
    ensures StripFooter(html) == html[..s] + html[e + |EndTag|..]
  {
    var last := LastIndexOf(html, FooterMarker);
    assert last == Some(s);
    var end := IndexOfFrom(html, EndTag, s);
    assert end == Some(e);
  }

  /** With a last marker at `s` and no `</div>` after it, the text before the marker is followed by `html[6..]`. */
  lemma StripFooterUnclosed(html: string, s: nat)
    requires OccursAt(html, FooterMarker, s) && forall j :: s < j ==> !OccursAt(html, FooterMarker, j)
    requires forall j :: s <= j ==> !OccursAt(html, EndTag, j)
    ensures StripFooter(html) == html[..s] + html[|EndTag|..]
  {
    assert LastIndexOf(html, FooterMarker) == Some(s);
  }

  // ---------------------------------------------------------------------
  // The configuration field: loaded in the constructor, saved in processData
  // ---------------------------------------------------------------------

  /** The mapping text of a configuration: PHP's string form of the stored value. */
  function MappingValue(config: seq<Entry>): Value
  {
    match Find(config, "conversion_mapping")
    case None => Null
    case Some(v) => v
  }

  /**
   * The configuration as the constructor keeps it: the mapping in line form.
   * `explode` of an array fails and `implode` of that failure is null.
   */
  function LoadedConfig(stored: seq<Entry>): seq<Entry>
  {
    var v := MappingValue(stored);
    Put(stored, "conversion_mapping", if v.Arr? then Null else Str(LoadMapping(StringOf(v))))
  }

  /** The configuration written to the local configuration: the mapping back in comma form. */
  function LocalconfConfig(config: seq<Entry>): seq<Entry>
  {
    Put(config, "conversion_mapping", Str(Join(TrimExplodeValue(MappingValue(config), LF), ',')))
  }

  /** What a save request produces. */
  datatype SaveOutcome =
    | NotSaved                                    // neither save button was pressed
    | Crashed                                     // the rulesets could not be handed to persistFlexForm
    | Saved(written: seq<Entry>, stored: bool)    // the configuration written, and whether writing succeeded

  /**
   * The new configuration of a save: the submitted data merged over the
   * current configuration, then, when the submitted rulesets are truthy,
   * their FlexForm data with new items renumbered. None when the rulesets
   * cannot be passed to `persistFlexForm` (not an array, or without an
   * array under `data`) or when it fails inside.
   */
  function NewConfig(config: seq<Entry>, data: seq<Entry>,
                     merge: (seq<Entry>, seq<Entry>) -> seq<Entry>): Option<seq<Entry>>
  {
    var merged := merge(config, data);
    match Find(data, "rulesets")
    case None => Some(merged)
    case Some(ff) =>
      if !Truthy(ff) then Some(merged)
      else if !ff.Arr? then None
      else match Find(ff.entries, "data")
        case Some(Arr(d)) =>
          (match FlexForm.Persist(d)
           case None => None
           case Some(d') => Some(Put(merged, "rulesets", Arr(Put(ff.entries, "data", Arr(d'))))))
        case _ => None
  }

  /** The outcome of `processData` for the current configuration. */
  function Outcome(config: seq<Entry>, save: bool, data: seq<Entry>,
                   merge: (seq<Entry>, seq<Entry>) -> seq<Entry>,
                   write: seq<Entry> -> bool): SaveOutcome
  {
    if !save then NotSaved
    else match NewConfig(config, data, merge)
      case None => Crashed
      case Some(c) => Saved(LocalconfConfig(c), write(LocalconfConfig(c)))
  }

  /** The configuration field after `processData`: replaced only when the write succeeded. */
  function ConfigAfter(config: seq<Entry>, save: bool, data: seq<Entry>,
                       merge: (seq<Entry>, seq<Entry>) -> seq<Entry>,
                       write: seq<Entry> -> bool): seq<Entry>
  {
    match Outcome(config, save, data, merge, write)
    case Saved(_, true) => NewConfig(config, data, merge).value
    case _ => config
  }

  class ConfigurationController {
    /** The extension configuration being edited, mapping in line form. */
    var config: seq<Entry>

    /** Loads the stored configuration and turns its mapping into lines. */
    constructor(stored: seq<Entry>)
      ensures config == LoadedConfig(stored)
    {
      var v := MappingValue(stored);
      if v.Arr? {
        config := Put(stored, "conversion_mapping", Null);
      } else {
        config := Put(stored, "conversion_mapping", Str(LoadMapping(StringOf(v))));
      }
    }

    /**
     * `processData`: on a save request, merges the submitted data, renumbers
     * the new FlexForm items, writes the configuration with the mapping in
     * comma form and keeps the new configuration when the write succeeded.
     * The request parameters, the merge and the write are inputs.
     */
    method ProcessData(save: bool, data: seq<Entry>,
                       merge: (seq<Entry>, seq<Entry>) -> seq<Entry>,
                       write: seq<Entry> -> bool) returns (outcome: SaveOutcome)
      modifies this
      ensures outcome == Outcome(old(config), save, data, merge, write)
      ensures config == ConfigAfter(old(config), save, data, merge, write)
    {
      if !save {
        return NotSaved;
      }
      var newConfig := merge(config, data);
      var ffValue := Find(data, "rulesets");
      if ffValue.Some? && Truthy(ffValue.value) {
        var ff := ffValue.value;
        if !ff.Arr? {
          assert NewConfig(config, data, merge).None?;
          return Crashed;
        }
        var d := Find(ff.entries, "data");
        if !(d.Some? && d.value.Arr?) {
          assert NewConfig(config, data, merge).None?;
          return Crashed;
        }
        var persisted := FlexForm.PersistFlexForm(d.value.entries);
        if persisted.None? {
          assert NewConfig(config, data, merge).None?;
          return Crashed;
        }
        newConfig := Put(newConfig, "rulesets", Arr(Put(ff.entries, "data", Arr(persisted.value))));
      }
      assert NewConfig(config, data, merge) == Some(newConfig);
      var localconf := Put(newConfig, "conversion_mapping",
                           Str(Join(TrimExplodeValue(MappingValue(newConfig), LF), ',')));
      var ok := write(localconf);
      if ok {
        config := newConfig;
      }
      outcome := Saved(localconf, ok);
    }
  }

  // ---------------------------------------------------------------------
  // Properties of the load/save cycle
  // ---------------------------------------------------------------------

  /** A save that gets through writes the configuration with the mapping in comma form. */
  lemma SaveWritesLocalconf(config: seq<Entry>, data: seq<Entry>,
                            merge: (seq<Entry>, seq<Entry>) -> seq<Entry>, write: seq<Entry> -> bool)
    requires NewConfig(config, data, merge).Some?
    ensures Outcome(config, true, data, merge, write)
            == Saved(LocalconfConfig(NewConfig(config, data, merge).value),
                     write(LocalconfConfig(NewConfig(config, data, merge).value)))
  {
  }

  /** The written configuration holds the saved form of the mapping text. */
  lemma WrittenMapping(c: seq<Entry>, s: string)
    requires MappingValue(c) == Str(s)
    ensures Find(LocalconfConfig(c), "conversion_mapping") == Some(Str(SaveMapping(s)))
    ensures forall k :: k != "conversion_mapping" ==> Find(LocalconfConfig(c), k) == Find(c, k)
  {
    FindPut(c, "conversion_mapping", Str(SaveMapping(s)));
  }

  /** The loaded configuration holds the line form of a stored mapping text. */
  lemma LoadedMapping(stored: seq<Entry>, s: string)
    requires Find(stored, "conversion_mapping") == Some(Str(s))
    ensures MappingValue(LoadedConfig(stored)) == Str(LoadMapping(s))
    ensures forall k :: k != "conversion_mapping" ==> Find(LoadedConfig(stored), k) == Find(stored, k)
  {
    FindPut(stored, "conversion_mapping", Str(LoadMapping(s)));
  }

  /**
   * A configuration loaded by the constructor and saved without a change to
   * its mapping is written back with the stored mapping, when that mapping's
   * comma items are clean.
   */
  lemma UnchangedMappingWrittenBack(stored: seq<Entry>, s: string, data: seq<Entry>,
                                    merge: (seq<Entry>, seq<Entry>) -> seq<Entry>, write: seq<Entry> -> bool)
    requires Find(stored, "conversion_mapping") == Some(Str(s))
    requires forall i :: 0 <= i < |Split(s, ',')| ==> CleanItem(Split(s, ',')[i])
    requires NewConfig(LoadedConfig(stored), data, merge).Some?
    requires MappingValue(NewConfig(LoadedConfig(stored), data, merge).value)
             == MappingValue(LoadedConfig(stored))
    ensures Outcome(LoadedConfig(stored), true, data, merge, write).Saved?
    ensures Find(Outcome(LoadedConfig(stored), true, data, merge, write).written, "conversion_mapping")
            == Some(Str(s))
  {
    var loaded := LoadedConfig(stored);
    LoadedMapping(stored, s);
    var c := NewConfig(loaded, data, merge).value;
    SaveWritesLocalconf(loaded, data, merge, write);
    WrittenMapping(c, LoadMapping(s));
    MappingRoundTrip(s);
  }

  /** A save request whose write fails, or that is not a save, leaves the configuration as it was. */
  lemma ConfigKeptUnlessWritten(config: seq<Entry>, save: bool, data: seq<Entry>,
                                merge: (seq<Entry>, seq<Entry>) -> seq<Entry>, write: seq<Entry> -> bool)
    ensures ConfigAfter(config, save, data, merge, write) != config ==>
      save && NewConfig(config, data, merge).Some?
      && write(LocalconfConfig(NewConfig(config, data, merge).value))
  {
  }

  /**
   * Submitted truthy rulesets reach the new configuration with their
   * FlexForm data renumbered, every other submitted ruleset key kept.
   */
  lemma RulesetsPersisted(config: seq<Entry>, data: seq<Entry>,
                          merge: (seq<Entry>, seq<Entry>) -> seq<Entry>, ff: seq<Entry>, d: seq<Entry>)
    requires Find(data, "rulesets") == Some(Arr(ff)) && |ff| > 0
    requires Find(ff, "data") == Some(Arr(d))
    requires FlexForm.Persist(d).Some?
    ensures NewConfig(config, data, merge).Some?
    ensures Get(NewConfig(config, data, merge).value, ["rulesets", "data"])
            == Some(Arr(FlexForm.Persist(d).value))
    ensures forall k :: k != "data" ==>
      Get(NewConfig(config, data, merge).value, ["rulesets", k]) == Find(ff, k)
  {
    var d' := FlexForm.Persist(d).value;
    var inner := Put(ff, "data", Arr(d'));
    var c := Put(merge(config, data), "rulesets", Arr(inner));
    assert Truthy(Arr(ff));
    assert NewConfig(config, data, merge) == Some(c);
    FindPut(merge(config, data), "rulesets", Arr(inner));
    FindPut(ff, "data", Arr(d'));
    forall k ensures Get(c, ["rulesets", k]) == Find(inner, k) {
      GetPair(c, "rulesets", inner, k);
    }
  }
}
