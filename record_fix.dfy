/**
 * `ConfigurationController::fixRecordForFormEngine`: the stored
 * configuration keeps select fields as comma-separated text, while the form
 * engine expects lists. Each listed select field of the record, and of every
 * ruleset item in the FlexForm, is split into its trimmed, non-empty pieces.
 */
module RecordFix {
  import opened Wrappers
  import opened PhpStrings
  import opened PhpArrays

  // ---------------------------------------------------------------------
  // isset and assignment along a path of keys
  // ---------------------------------------------------------------------

  /** `isset($a[p0]...[pn])`: every step is an array holding the key, and the last value is not null. */
  predicate IsSetAt(es: seq<Entry>, path: seq<string>)
  {
    Get(es, path).Some? && Get(es, path).value != Null
  }

  /** `$a[p0]...[pn] = $w` where the arrays along the path exist. */
  function PutAt(es: seq<Entry>, path: seq<string>, w: Value): seq<Entry>
    requires |path| >= 1
    decreases |path|
  {
    if |path| == 1 then Put(es, path[0], w)
    else match Find(es, path[0])
      case Some(Arr(m)) => Put(es, path[0], Arr(PutAt(m, path[1..], w)))
      case _ => es
  }

  /** After the assignment, the path leads to the assigned value. */
  lemma {:induction false} GetPutAtSame(es: seq<Entry>, path: seq<string>, w: Value)
    requires |path| >= 1 && Get(es, path).Some?
    ensures Get(PutAt(es, path, w), path) == Some(w)
  {
    if |path| == 1 {
      FindPut(es, path[0], w);
    } else {
      var m := Find(es, path[0]).value.entries;
      var m' := PutAt(m, path[1..], w);
      assert PutAt(es, path, w) == Put(es, path[0], Arr(m'));
      FindPut(es, path[0], Arr(m'));
      GetPutAtSame(m, path[1..], w);
    }
  }

  /** The assignment leaves alone every path that branches off before its end. */
  lemma {:induction false} GetPutAtOther(es: seq<Entry>, p: seq<string>, q: seq<string>, d: nat, w: Value)
    requires d < |p| && d < |q| && p[..d] == q[..d] && p[d] != q[d]
    ensures Get(PutAt(es, p, w), q) == Get(es, q)
  {
    if d > 0 {
      assert p[0] == q[0] by { assert p[..d][0] == q[..d][0]; }
      assert p[1..][..d - 1] == p[..d][1..] && q[1..][..d - 1] == q[..d][1..];
      match Find(es, p[0])
      case Some(Arr(m)) =>
        FindPut(es, p[0], Arr(PutAt(m, p[1..], w)));
        GetPutAtOther(m, p[1..], q[1..], d - 1, w);
      case _ =>
    }
  }

  // ---------------------------------------------------------------------
  // One select field
  // ---------------------------------------------------------------------

  /**
   * `GeneralUtility::trimExplode(',', $v, true)`: the list of trimmed,
   * non-empty comma pieces of the value; an array argument yields the empty
   * list (explode fails and trimExplode keeps no piece).
   */
  function SelectItems(v: Value): (r: Value)
    ensures r.Arr?
    ensures v.Str? ==> r == Arr(ListOf(TrimExplode(v.s, ',')))
    ensures v.Arr? ==> r == Arr([])
  {
    Arr(ListOf(TrimExplodeValue(v, ',')))
  }

  /** `if (isset(<path>)) <path> = trimExplode(',', <path>, true);`. */
  function SplitAt(es: seq<Entry>, path: seq<string>): seq<Entry>
    requires |path| >= 1
  {
    if IsSetAt(es, path) then PutAt(es, path, SelectItems(Get(es, path).value)) else es
  }

  /** The select field `f` inside a ruleset item: `['container']['el'][f]['vDEF']`. */
  function ItemPath(f: string): seq<string>
  {
    ["container", "el", f, "vDEF"]
  }

  /** Where the ruleset items live in the record. */
  const RulesetItemsPath: seq<string> := ["rulesets", "data", "sDEF", "lDEF", "ruleset", "el"]

  // ---------------------------------------------------------------------
  // The two loops, as specifications
  // ---------------------------------------------------------------------

  /** The first loop after its first `|fields|` iterations: record fields split. */
  function SplitFields(row: seq<Entry>, fields: seq<string>): seq<Entry>
    decreases |fields|
  {
    if |fields| == 0 then row
    else SplitAt(SplitFields(row, fields[..|fields| - 1]), [fields[|fields| - 1]])
  }

  /** The inner loop for one ruleset item after its first `|fields|` iterations. */
  function SplitItemFields(item: seq<Entry>, fields: seq<string>): seq<Entry>
    decreases |fields|
  {
    if |fields| == 0 then item
    else SplitAt(SplitItemFields(item, fields[..|fields| - 1]), ItemPath(fields[|fields| - 1]))
  }

  /** One ruleset item: an array has its select fields split; anything else is left as it is. */
  function SplitItem(e: Entry, fields: seq<string>): Entry
  {
    if e.val.Arr? then Entry(e.key, Arr(SplitItemFields(e.val.entries, fields))) else e
  }

  /** The `foreach (... as &$el)` loop over the ruleset items. */
  function SplitItems(items: seq<Entry>, fields: seq<string>): (r: seq<Entry>)
    ensures Keys(r) == Keys(items)
    ensures forall j :: 0 <= j < |items| && !items[j].val.Arr? ==> r[j] == items[j]
    ensures forall j :: 0 <= j < |items| && items[j].val.Arr? ==> r[j].val.Arr?
  {
    seq(|items|, j requires 0 <= j < |items| => SplitItem(items[j], fields))
  }

  /** The second part: only when the items are set, and only an array of items is iterated. */
  function SplitRulesets(row: seq<Entry>, fields: seq<string>): seq<Entry>
  {
    if IsSetAt(row, RulesetItemsPath) && Get(row, RulesetItemsPath).value.Arr? then
      PutAt(row, RulesetItemsPath, Arr(SplitItems(Get(row, RulesetItemsPath).value.entries, fields)))
    else row
  }

  /** `fixRecordForFormEngine(&$row, $tcaSelectFields)`: the record after the call. */
  function FixRecord(row: seq<Entry>, fields: seq<string>): seq<Entry>
  {
    SplitRulesets(SplitFields(row, fields), fields)
  }

  // ---------------------------------------------------------------------
  // The method
  // ---------------------------------------------------------------------

  /** The select fields of one ruleset item, split in place. */
  method FixItem(item: seq<Entry>, fields: seq<string>) returns (r: seq<Entry>)
    ensures r == SplitItemFields(item, fields)
  {
    r := item;
    for k := 0 to |fields|
      invariant r == SplitItemFields(item, fields[..k])
    {
      assert fields[..k + 1][..k] == fields[..k];
      var path := ItemPath(fields[k]);
      if IsSetAt(r, path) {
        r := PutAt(r, path, SelectItems(Get(r, path).value));
      }
    }
    assert fields[..|fields|] == fields;
  }

  /** `fixRecordForFormEngine`, with its three loops. */
  method FixRecordForFormEngine(row: seq<Entry>, fields: seq<string>) returns (r: seq<Entry>)
    ensures r == FixRecord(row, fields)
  {
    r := row;
    for i := 0 to |fields|
      invariant r == SplitFields(row, fields[..i])
    {
      assert fields[..i + 1][..i] == fields[..i];
      if IsSetAt(r, [fields[i]]) {
        r := PutAt(r, [fields[i]], SelectItems(Get(r, [fields[i]]).value));
      }
    }
    assert fields[..|fields|] == fields;
    if IsSetAt(r, RulesetItemsPath) && Get(r, RulesetItemsPath).value.Arr? {
      var items := FixItems(Get(r, RulesetItemsPath).value.entries, fields);
      r := PutAt(r, RulesetItemsPath, Arr(items));
    }
  }

  /** The by-reference loop over the ruleset items. */
  method FixItems(items: seq<Entry>, fields: seq<string>) returns (done: seq<Entry>)
    ensures done == SplitItems(items, fields)
  {
    done := [];
    for j := 0 to |items|
      invariant |done| == j
      invariant forall m :: 0 <= m < j ==> done[m] == SplitItem(items[m], fields)
    {
      var e := items[j];
      if e.val.Arr? {
        var fixed := FixItem(e.val.entries, fields);
        e := Entry(e.key, Arr(fixed));
      }
      done := done + [e];
    }
  }

  // ---------------------------------------------------------------------
  // What the call does
  // ---------------------------------------------------------------------

  /** The split value of a set field, or its unchanged value (or absence) otherwise. */
  function Expected(es: seq<Entry>, path: seq<string>): Option<Value>
  {
    if IsSetAt(es, path) then Some(SelectItems(Get(es, path).value)) else Get(es, path)
  }

  /** A record field: its split value when listed, its old value otherwise. */
  function ExpectedField(row: seq<Entry>, fields: seq<string>, k: string): Option<Value>
  {
    if k in fields then Expected(row, [k]) else Find(row, k)
  }

  /** A ruleset item's field: its split value when listed, its old value otherwise. */
  function ExpectedItemField(item: seq<Entry>, fields: seq<string>, f: string): Option<Value>
  {
    if f in fields then Expected(item, ItemPath(f)) else Get(item, ItemPath(f))
  }

  /** On a one-key path, the split is a plain `isset` and assignment. */
  lemma SplitAtSingle(es: seq<Entry>, f: string)
    ensures SplitAt(es, [f]) == if IsSet(es, f) then Put(es, f, SelectItems(Find(es, f).value)) else es
  {
    assert Get(es, [f]) == Find(es, f);
  }

  /** On a one-key path, the expected value is that of a plain `isset`. */
  lemma ExpectedSingle(es: seq<Entry>, f: string)
    ensures Expected(es, [f]) == if IsSet(es, f) then Some(SelectItems(Find(es, f).value)) else Find(es, f)
  {
    assert Get(es, [f]) == Find(es, f);
  }

  /**
   * With each field listed once, every listed field that is set holds its
   * split pieces, every other key (unlisted, or listed but absent or null)
   * keeps its value, and the keys keep their order.
   */
  lemma {:induction false} SplitFieldsEffect(row: seq<Entry>, fields: seq<string>)
    requires forall a, b :: 0 <= a < b < |fields| ==> fields[a] != fields[b]
    ensures Keys(SplitFields(row, fields)) == Keys(row)
    ensures forall k :: Find(SplitFields(row, fields), k) == ExpectedField(row, fields, k)
  {
    if |fields| > 0 {
      var init := fields[..|fields| - 1];
      var f := fields[|fields| - 1];
      assert fields == init + [f];
      SplitFieldsEffect(row, init);
      assert f !in init;
      var r := SplitFields(row, init);
      SplitAtSingle(r, f);
      ExpectedSingle(row, f);
      forall k ensures Find(SplitFields(row, fields), k) == ExpectedField(row, fields, k) {
        assert k in fields <==> k in init || k == f;
        if k == f && IsSet(r, f) {
          FindPut(r, f, SelectItems(Find(r, f).value));
        }
      }
    }
  }

  /**
   * With each field listed once, every listed field of a ruleset item that is
   * set holds its split pieces, and the field paths of unlisted fields are
   * unchanged.
   */
  lemma {:induction false} SplitItemFieldsEffect(item: seq<Entry>, fields: seq<string>)
    requires forall a, b :: 0 <= a < b < |fields| ==> fields[a] != fields[b]
    ensures Keys(SplitItemFields(item, fields)) == Keys(item)
    ensures forall k :: k != "container" ==> Find(SplitItemFields(item, fields), k) == Find(item, k)
    ensures forall f :: Get(SplitItemFields(item, fields), ItemPath(f)) == ExpectedItemField(item, fields, f)
  {
    SplitItemFieldsFrame(item, fields);
    if |fields| > 0 {
      var init := fields[..|fields| - 1];
      var g := fields[|fields| - 1];
      SplitItemFieldsEffect(item, init);
      assert g !in init;
      var r := SplitItemFields(item, init);
      forall f ensures Get(SplitItemFields(item, fields), ItemPath(f)) == ExpectedItemField(item, fields, f) {
        assert f in fields <==> f in init || f == g;
        SplitAtItemPath(r, g, f);
      }
    }
  }

  /**
   * Whatever the field list, the item keeps its keys in their order, and
   * every key other than `container` keeps its value.
   */
  lemma {:induction false} SplitItemFieldsFrame(item: seq<Entry>, fields: seq<string>)
    ensures Keys(SplitItemFields(item, fields)) == Keys(item)
    ensures forall k :: k != "container" ==> Find(SplitItemFields(item, fields), k) == Find(item, k)
  {
    if |fields| > 0 {
      SplitItemFieldsFrame(item, fields[..|fields| - 1]);
      SplitAtFrame(SplitItemFields(item, fields[..|fields| - 1]), ItemPath(fields[|fields| - 1]));
    }
  }

  /** A split along a path keeps the keys, and every key but the path's first keeps its value. */
  lemma SplitAtFrame(es: seq<Entry>, path: seq<string>)
    requires |path| >= 1
    ensures Keys(SplitAt(es, path)) == Keys(es)
    ensures forall k :: k != path[0] ==> Find(SplitAt(es, path), k) == Find(es, k)
  {
    if IsSetAt(es, path) {
      assert Find(es, path[0]).Some?;
      PutAtFrame(es, path, SelectItems(Get(es, path).value));
    }
  }

  /** An assignment along a path whose first key exists keeps the keys, and every other key's value. */
  lemma PutAtFrame(es: seq<Entry>, path: seq<string>, w: Value)
    requires |path| >= 1 && Find(es, path[0]).Some?
    ensures Keys(PutAt(es, path, w)) == Keys(es)
    ensures forall k :: k != path[0] ==> Find(PutAt(es, path, w), k) == Find(es, k)
  {
  }

  /**
   * With each field listed once, every array item of the ruleset list keeps
   * its keys in order, keeps every key but `container`, and has each listed
   * field that is set split; non-array items are left as they are.
   */
  lemma SplitItemsEffect(items: seq<Entry>, fields: seq<string>)
    requires forall a, b :: 0 <= a < b < |fields| ==> fields[a] != fields[b]
    ensures forall j :: 0 <= j < |items| && items[j].val.Arr? ==>
      Keys(SplitItems(items, fields)[j].val.entries) == Keys(items[j].val.entries)
    ensures forall j, k :: 0 <= j < |items| && items[j].val.Arr? && k != "container" ==>
      Find(SplitItems(items, fields)[j].val.entries, k) == Find(items[j].val.entries, k)
    ensures forall j, f :: 0 <= j < |items| && items[j].val.Arr? ==>
      Get(SplitItems(items, fields)[j].val.entries, ItemPath(f)) == ExpectedItemField(items[j].val.entries, fields, f)
  {
    forall j | 0 <= j < |items| && items[j].val.Arr?
      ensures Keys(SplitItems(items, fields)[j].val.entries) == Keys(items[j].val.entries)
      ensures forall k :: k != "container" ==>
        Find(SplitItems(items, fields)[j].val.entries, k) == Find(items[j].val.entries, k)
      ensures forall f ::
        Get(SplitItems(items, fields)[j].val.entries, ItemPath(f)) == ExpectedItemField(items[j].val.entries, fields, f)
    {
      SplitItemFieldsEffect(items[j].val.entries, fields);
    }
  }

  /** The paths of two fields share `container` / `el` and part at the field. */
  lemma ItemPathsBranch(g: string, f: string)
    ensures ItemPath(g)[..2] == ItemPath(f)[..2] && ItemPath(g)[2] == g && ItemPath(f)[2] == f
  {
  }

  /** Splitting field `g` of an item sets `g` as expected and leaves every other field path alone. */
  lemma SplitAtItemPath(r: seq<Entry>, g: string, f: string)
    ensures Get(SplitAt(r, ItemPath(g)), ItemPath(f)) == if f == g then Expected(r, ItemPath(g)) else Get(r, ItemPath(f))
  {
    if IsSetAt(r, ItemPath(g)) {
      var w := SelectItems(Get(r, ItemPath(g)).value);
      if f == g {
        GetPutAtSame(r, ItemPath(g), w);
      } else {
        ItemPathsBranch(g, f);
        GetPutAtOther(r, ItemPath(g), ItemPath(f), 2, w);
      }
    }
  }

  /**
   * The ruleset items after the call are the items found after the first
   * loop, each split; nothing outside the `rulesets` key is touched by the
   * second part.
   */
  lemma RulesetItemsSplit(row: seq<Entry>, fields: seq<string>, items: seq<Entry>)
    requires Get(SplitFields(row, fields), RulesetItemsPath) == Some(Arr(items))
    ensures Get(FixRecord(row, fields), RulesetItemsPath) == Some(Arr(SplitItems(items, fields)))
    ensures forall k :: k != "rulesets" ==> Find(FixRecord(row, fields), k) == Find(SplitFields(row, fields), k)
  {
    GetPutAtSame(SplitFields(row, fields), RulesetItemsPath, Arr(SplitItems(items, fields)));
  }

  /** The first loop leaves the ruleset items alone unless `rulesets` itself is a listed field. */
  lemma RulesetsUntouchedByFields(row: seq<Entry>, fields: seq<string>)
    requires forall a, b :: 0 <= a < b < |fields| ==> fields[a] != fields[b]
    requires "rulesets" !in fields
    ensures Get(SplitFields(row, fields), RulesetItemsPath) == Get(row, RulesetItemsPath)
  {
    SplitFieldsEffect(row, fields);
    assert Find(SplitFields(row, fields), "rulesets") == Find(row, "rulesets");
    GetSameFirst(SplitFields(row, fields), row, RulesetItemsPath);
  }

  /** Two arrays agreeing on the first key of a path agree on the whole path. */
  lemma GetSameFirst(a: seq<Entry>, b: seq<Entry>, path: seq<string>)
    requires |path| >= 1 && Find(a, path[0]) == Find(b, path[0])
    ensures Get(a, path) == Get(b, path)
  {
  }
}
