/**
 * `ConfigurationController::persistFlexForm`: before the configuration is
 * saved, section items that the form created in the browser carry temporary
 * keys "ID-<hash>"; the method walks the FlexForm data and, inside every
 * `el` map it reaches, moves each such item to the key without the "ID-"
 * prefix.
 */
module FlexForm {
  import opened Wrappers
  import opened PhpArrays

  /** `substr($idx, 0, 3) === 'ID-'`. */
  predicate HasIdPrefix(k: string)
  {
    |k| >= 3 && k[..3] == "ID-"
  }

  /** The entry of an `el` map that the inner loop renames: a truthy value under an "ID-" key. */
  predicate Moves(e: Entry)
  {
    Truthy(e.val) && HasIdPrefix(e.key)
  }

  /**
   * No key of `el` is "ID-ID-...": a renamed key never carries the prefix
   * itself. Temporary keys are "ID-" followed by a hash, so this always holds
   * for the form's own data.
   */
  predicate NoNestedIdPrefix(el: seq<Entry>)
  {
    forall i :: 0 <= i < |el| && HasIdPrefix(el[i].key) ==> !HasIdPrefix(el[i].key[3..])
  }

  // ---------------------------------------------------------------------
  // The inner loop over one `el` map
  // ---------------------------------------------------------------------

  /** One iteration: `$valueArray['el'][substr($idx, 3)] = $v; unset($valueArray['el'][$idx]);`. */
  function RenameStep(live: seq<Entry>, e: Entry): seq<Entry>
  {
    if Moves(e) then Remove(Put(live, e.key[3..], e.val), e.key) else live
  }

  /**
   * The live `el` map after the first `i` entries of the snapshot the
   * `foreach` iterates over have been handled (PHP iterates over a copy,
   * so later entries are visited with their original keys and values).
   */
  function RenameFold(el: seq<Entry>, i: nat): seq<Entry>
    requires i <= |el|
  {
    if i == 0 then el else RenameStep(RenameFold(el, i - 1), el[i - 1])
  }

  /** The `el` map once the inner loop has finished. */
  function RenamedEl(el: seq<Entry>): seq<Entry>
  {
    RenameFold(el, |el|)
  }

  /** The inner `foreach ($value as $idx => $v)` loop of `persistFlexForm`. */
  method RenameNewItems(el: seq<Entry>) returns (live: seq<Entry>)
    ensures live == RenamedEl(el)
  {
    live := el;
    var i := 0;
    while i < |el|
      invariant 0 <= i <= |el|
      invariant live == RenameFold(el, i)
    {
      ghost var before := live;
      var idx, v := el[i].key, el[i].val;
      if Truthy(v) && |idx| >= 3 && idx[..3] == "ID-" {
        live := Put(live, idx[3..], v);
        live := Remove(live, idx);
      }
      assert live == RenameStep(before, el[i]);
      i := i + 1;
    }
  }

  // ---------------------------------------------------------------------
  // What the inner loop does, key by key
  // ---------------------------------------------------------------------

  /** In a well-formed array two different positions hold different keys. */
  lemma {:induction false} UniqueAt(es: seq<Entry>, j: int, i: int)
    requires UniqueKeys(es) && 0 <= j < i < |es|
    ensures es[j].key != es[i].key
  {
    if j > 0 {
      UniqueAt(es[1..], j - 1, i - 1);
    } else {
      assert es[i] == es[1..][i - 1];
    }
  }

  /** Two moving entries at different positions have different target keys. */
  lemma TargetsDiffer(el: seq<Entry>, j: int, i: int)
    requires UniqueKeys(el) && 0 <= j < |el| && 0 <= i < |el| && j != i
    requires HasIdPrefix(el[j].key) && HasIdPrefix(el[i].key)
    ensures el[j].key[3..] != el[i].key[3..]
  {
    if j < i { UniqueAt(el, j, i); } else { UniqueAt(el, i, j); }
    assert el[j].key == el[j].key[..3] + el[j].key[3..];
    assert el[i].key == el[i].key[..3] + el[i].key[3..];
  }

  /**
   * Every moving entry seen so far sits under its target key with its
   * value, and its "ID-" key is gone.
   */
  lemma {:induction false} RenameFoldMoved(el: seq<Entry>, i: nat)
    requires UniqueKeys(el) && NoNestedIdPrefix(el) && i <= |el|
    ensures UniqueKeys(RenameFold(el, i))
    ensures forall j :: 0 <= j < i && Moves(el[j]) ==>
      Find(RenameFold(el, i), el[j].key[3..]) == Some(el[j].val) && Find(RenameFold(el, i), el[j].key) == None
  {
    if i > 0 {
      RenameFoldMoved(el, i - 1);
      var e := el[i - 1];
      if Moves(e) {
        forall j | 0 <= j < i - 1 && Moves(el[j])
          ensures el[j].key[3..] != e.key[3..] && el[j].key[3..] != e.key
          ensures el[j].key != e.key[3..] && el[j].key != e.key
        {
          TargetsDiffer(el, j, i - 1);
          UniqueAt(el, j, i - 1);
        }
      }
    }
  }

  /** An "ID-" entry of `el` moves its value onto key `k`. */
  ghost predicate Overwritten(el: seq<Entry>, k: string)
  {
    exists m :: 0 <= m < |el| && Moves(el[m]) && el[m].key[3..] == k
  }

  /** One step leaves an entry that does not move and that nothing overwrites where it was found. */
  lemma RenameStepKeeps(el: seq<Entry>, i: nat, j: int, live: seq<Entry>)
    requires UniqueKeys(el) && i < |el| && 0 <= j < |el|
    requires !Moves(el[j]) && !Overwritten(el, el[j].key)
    ensures Find(RenameStep(live, el[i]), el[j].key) == Find(live, el[j].key)
  {
    var e := el[i];
    if Moves(e) {
      assert j != i;
      if j < i { UniqueAt(el, j, i); } else { UniqueAt(el, i, j); }
      assert e.key[3..] != el[j].key;
      var put := Put(live, e.key[3..], e.val);
      assert Find(put, el[j].key) == Find(live, el[j].key);
      assert Find(Remove(put, e.key), el[j].key) == Find(put, el[j].key);
    }
  }

  /** An entry that does not move and that no moving entry targets keeps its key and value. */
  lemma {:induction false} RenameFoldKept(el: seq<Entry>, i: nat, j: int)
    requires UniqueKeys(el) && i <= |el| && 0 <= j < |el|
    requires !Moves(el[j]) && !Overwritten(el, el[j].key)
    ensures Find(RenameFold(el, i), el[j].key) == Some(el[j].val)
  {
    if i == 0 {
      FindEntry(el, j);
    } else {
      RenameFoldKept(el, i - 1, j);
      RenameStepKeeps(el, i - 1, j, RenameFold(el, i - 1));
    }
  }

  /**
   * After the loop: each moving "ID-x" entry is found under "x" with its own
   * value and "ID-x" is gone; every other entry that nothing overwrites is
   * found under its own key with its own value.
   */
  lemma RenamedElFind(el: seq<Entry>)
    requires UniqueKeys(el) && NoNestedIdPrefix(el)
    ensures UniqueKeys(RenamedEl(el))
    ensures forall j :: 0 <= j < |el| && Moves(el[j]) ==>
      Find(RenamedEl(el), el[j].key[3..]) == Some(el[j].val) && Find(RenamedEl(el), el[j].key) == None
    ensures forall j :: 0 <= j < |el| && !Moves(el[j]) && !Overwritten(el, el[j].key) ==>
      Find(RenamedEl(el), el[j].key) == Some(el[j].val)
  {
    RenameFoldMoved(el, |el|);
    forall j | 0 <= j < |el| && !Moves(el[j]) && !Overwritten(el, el[j].key)
      ensures Find(RenamedEl(el), el[j].key) == Some(el[j].val)
    {
      RenameFoldKept(el, |el|, j);
    }
  }

  // ---------------------------------------------------------------------
  // Where the entries end up: the loop result in closed form
  // ---------------------------------------------------------------------

  /** The entries of `es` that were not removed, each with its value or the value moved onto it. */
  function Kept(es: seq<Entry>, dropped: set<string>, over: map<string, Value>): seq<Entry>
  {
    if |es| == 0 then []
    else
      var k := es[0].key;
      var rest := Kept(es[1..], dropped, over);
      if k in dropped then rest
      else [Entry(k, if k in over then over[k] else es[0].val)] + rest
  }

  /** Keys of the first `i` snapshot entries that moved away. */
  function Dropped(el: seq<Entry>, i: nat): set<string>
    requires i <= |el|
  {
    if i == 0 then {}
    else Dropped(el, i - 1) + (if Moves(el[i - 1]) then {el[i - 1].key} else {})
  }

  /** Values moved so far onto keys the `el` map already had. */
  function Overrides(el: seq<Entry>, i: nat): map<string, Value>
    requires i <= |el|
  {
    if i == 0 then map[]
    else
      var e := el[i - 1];
      if Moves(e) && e.key[3..] in KeySet(el) then Overrides(el, i - 1)[e.key[3..] := e.val]
      else Overrides(el, i - 1)
  }

  /** Entries moved so far onto keys the `el` map did not have; they were appended in this order. */
  function Appended(el: seq<Entry>, i: nat): seq<Entry>
    requires i <= |el|
  {
    if i == 0 then []
    else
      var e := el[i - 1];
      Appended(el, i - 1) + (if Moves(e) && e.key[3..] !in KeySet(el) then [Entry(e.key[3..], e.val)] else [])
  }

  /** Target keys of the first `i` snapshot entries that moved. */
  function Targets(el: seq<Entry>, i: nat): set<string>
    requires i <= |el|
  {
    if i == 0 then {}
    else Targets(el, i - 1) + (if Moves(el[i - 1]) then {el[i - 1].key[3..]} else {})
  }

  lemma {:induction false} KeptUnchanged(es: seq<Entry>)
    ensures Kept(es, {}, map[]) == es
  {
    if |es| > 0 {
      KeptUnchanged(es[1..]);
      assert es == [es[0]] + es[1..];
    }
  }

  lemma {:induction false} KeptKeySet(es: seq<Entry>, dropped: set<string>, over: map<string, Value>)
    ensures KeySet(Kept(es, dropped, over)) == KeySet(es) - dropped
  {
    if |es| > 0 {
      KeptKeySet(es[1..], dropped, over);
    }
  }

  lemma {:induction false} KeptRemove(es: seq<Entry>, dropped: set<string>, over: map<string, Value>, k: string)
    ensures Remove(Kept(es, dropped, over), k) == Kept(es, dropped + {k}, over)
  {
    if |es| > 0 {
      KeptRemove(es[1..], dropped, over, k);
    }
  }

  lemma {:induction false} KeptIgnoresAbsent(es: seq<Entry>, dropped: set<string>, over: map<string, Value>, x: string, v: Value)
    requires x !in KeySet(es)
    ensures Kept(es, dropped, over[x := v]) == Kept(es, dropped, over)
  {
    if |es| > 0 {
      KeptIgnoresAbsent(es[1..], dropped, over, x, v);
    }
  }

  lemma {:induction false} KeptPut(es: seq<Entry>, dropped: set<string>, over: map<string, Value>, x: string, v: Value)
    requires UniqueKeys(es) && x in KeySet(es) && x !in dropped
    ensures Put(Kept(es, dropped, over), x, v) == Kept(es, dropped, over[x := v])
  {
    var rest := Kept(es[1..], dropped, over);
    if es[0].key == x {
      KeptIgnoresAbsent(es[1..], dropped, over, x, v);
    } else {
      KeptPut(es[1..], dropped, over, x, v);
      if es[0].key !in dropped {
        KeptKeySet(es[1..], dropped, over);
      }
    }
  }

  lemma {:induction false} ClosedFormFacts(el: seq<Entry>, i: nat)
    requires UniqueKeys(el) && NoNestedIdPrefix(el) && i <= |el|
    ensures forall k :: k in Dropped(el, i) ==> HasIdPrefix(k)
    ensures forall k :: k in Targets(el, i) ==> !HasIdPrefix(k)
    ensures KeySet(Appended(el, i)) <= Targets(el, i)
    ensures i < |el| && Moves(el[i]) ==> el[i].key[3..] !in Targets(el, i)
  {
    if i > 0 {
      ClosedFormFacts(el, i - 1);
      var e := el[i - 1];
      KeySetAppend(Appended(el, i - 1), if Moves(e) && e.key[3..] !in KeySet(el) then [Entry(e.key[3..], e.val)] else []);
      if i < |el| && Moves(el[i]) {
        forall j | 0 <= j < i && Moves(el[j]) ensures el[j].key[3..] != el[i].key[3..] {
          TargetsDiffer(el, j, i);
        }
        TargetsBelow(el, i);
      }
    }
  }

  lemma {:induction false} TargetsBelow(el: seq<Entry>, i: nat)
    requires i <= |el|
    ensures forall t :: t in Targets(el, i) ==> exists j :: 0 <= j < i && Moves(el[j]) && el[j].key[3..] == t
  {
    if i > 0 {
      TargetsBelow(el, i - 1);
    }
  }

  /** The step that moves `el[i]` onto a key the map already had. */
  lemma MoveOntoExisting(el: seq<Entry>, i: nat)
    requires UniqueKeys(el) && NoNestedIdPrefix(el) && i < |el|
    requires Moves(el[i]) && el[i].key[3..] in KeySet(el)
    ensures RenameStep(Kept(el, Dropped(el, i), Overrides(el, i)) + Appended(el, i), el[i])
            == Kept(el, Dropped(el, i + 1), Overrides(el, i + 1)) + Appended(el, i + 1)
  {
    var e := el[i];
    var x := e.key[3..];
    var D, O, A := Dropped(el, i), Overrides(el, i), Appended(el, i);
    ClosedFormFacts(el, i);
    ClosedFormFacts(el, i + 1);
    KeptKeySet(el, D, O);
    PutInFirst(Kept(el, D, O), A, x, e.val);
    KeptPut(el, D, O, x, e.val);
    assert Appended(el, i + 1) == A;
    var K' := Kept(el, D, O[x := e.val]);
    RemoveAppend(K', A, e.key);
    KeptRemove(el, D, O[x := e.val], e.key);
  }

  /** The step that moves `el[i]` onto a key the map did not have. */
  lemma MoveOntoNew(el: seq<Entry>, i: nat)
    requires UniqueKeys(el) && NoNestedIdPrefix(el) && i < |el|
    requires Moves(el[i]) && el[i].key[3..] !in KeySet(el)
    ensures RenameStep(Kept(el, Dropped(el, i), Overrides(el, i)) + Appended(el, i), el[i])
            == Kept(el, Dropped(el, i + 1), Overrides(el, i + 1)) + Appended(el, i + 1)
  {
    var e := el[i];
    var x := e.key[3..];
    var D, O, A := Dropped(el, i), Overrides(el, i), Appended(el, i);
    var K := Kept(el, D, O);
    ClosedFormFacts(el, i);
    ClosedFormFacts(el, i + 1);
    KeptKeySet(el, D, O);
    KeySetAppend(K, A);
    assert x !in KeySet(K + A);
    assert Appended(el, i + 1) == A + [Entry(x, e.val)];
    assert (K + A) + [Entry(x, e.val)] == K + (A + [Entry(x, e.val)]);
    RemoveAppend(K, Appended(el, i + 1), e.key);
    KeptRemove(el, D, O, e.key);
  }

  /** A step whose entry does not move changes none of the three parts. */
  lemma StayStep(el: seq<Entry>, i: nat)
    requires i < |el| && !Moves(el[i])
    ensures Dropped(el, i + 1) == Dropped(el, i)
    ensures Overrides(el, i + 1) == Overrides(el, i)
    ensures Appended(el, i + 1) == Appended(el, i)
  {
    assert Appended(el, i + 1) == Appended(el, i) + [];
  }

  /**
   * The live map after `i` steps: the original entries in their original
   * order, without those that moved away and with moved values written over
   * keys that already existed, followed by the moved entries whose target
   * key was new, in the order they were visited.
   */
  lemma {:induction false} RenameFoldClosedForm(el: seq<Entry>, i: nat)
    requires UniqueKeys(el) && NoNestedIdPrefix(el) && i <= |el|
    ensures RenameFold(el, i) == Kept(el, Dropped(el, i), Overrides(el, i)) + Appended(el, i)
  {
    if i == 0 {
      KeptUnchanged(el);
    } else {
      RenameFoldClosedForm(el, i - 1);
      var e := el[i - 1];
      if Moves(e) {
        if e.key[3..] in KeySet(el) {
          MoveOntoExisting(el, i - 1);
        } else {
          MoveOntoNew(el, i - 1);
        }
      } else {
        StayStep(el, i - 1);
      }
    }
  }

  // ---------------------------------------------------------------------
  // The outer recursion
  // ---------------------------------------------------------------------

  /**
   * One key of the outer `foreach`: an `el` array has its items renamed and
   * is not descended into; any other set value is processed recursively;
   * a null value is skipped by `isset`. Recursing into a string, number or
   * boolean violates the `array` parameter type and fails the whole call.
   */
  function PersistEntry(e: Entry): (r: Option<Entry>)
    ensures r.Some? ==> r.value.key == e.key
  {
    if e.key == "el" then
      Some(if e.val.Arr? then Entry("el", Arr(RenamedEl(e.val.entries))) else e)
    else match e.val
      case Null => Some(e)
      case Arr(m) =>
        (match Persist(m)
         case None => None
         case Some(m') => Some(Entry(e.key, Arr(m'))))
      case _ => None
  }

  /** `persistFlexForm(&$valueArray)`: the array after the call, or none when the call fails. */
  function Persist(es: seq<Entry>): (r: Option<seq<Entry>>)
    ensures r.Some? ==> Keys(r.value) == Keys(es)
  {
    if |es| == 0 then Some([])
    else
      match PersistEntry(es[0])
      case None => None
      case Some(e') =>
        match Persist(es[1..])
        case None => None
        case Some(rest) =>
          ConsFacts(e', rest);
          FirstRest(es);
          ConsFacts(es[0], es[1..]);
          Some([e'] + rest)
  }

  /** The processed entries `done` in front of the processed rest, if the rest did not fail. */
  function Prefixed(done: seq<Entry>, rest: Option<seq<Entry>>): Option<seq<Entry>>
  {
    match rest
    case None => None
    case Some(t) => Some(done + t)
  }

  /** Handling entry `i` of the outer loop moves it from the rest onto the processed part. */
  lemma PersistStep(es: seq<Entry>, i: nat, done: seq<Entry>)
    requires i < |es|
    ensures PersistEntry(es[i]).None? ==> Persist(es[i..]) == None
    ensures PersistEntry(es[i]).Some? ==>
      Prefixed(done, Persist(es[i..])) == Prefixed(done + [PersistEntry(es[i]).value], Persist(es[i + 1..]))
  {
    assert es[i..][0] == es[i] && es[i..][1..] == es[i + 1..];
    if PersistEntry(es[i]).Some? && Persist(es[i + 1..]).Some? {
      var t := Persist(es[i + 1..]).value;
      assert done + ([PersistEntry(es[i]).value] + t) == (done + [PersistEntry(es[i]).value]) + t;
    }
  }

  /** The body of the outer `foreach` for one key: rename, recurse, skip or fail. */
  method PersistOne(e: Entry) returns (r: Option<Entry>)
    ensures r == PersistEntry(e)
  {
    if e.key == "el" {
      if e.val.Arr? {
        var renamed := RenameNewItems(e.val.entries);
        r := Some(Entry(e.key, Arr(renamed)));
      } else {
        r := Some(e);
      }
    } else if e.val.Null? {
      r := Some(e);
    } else if e.val.Arr? {
      var inner := PersistFlexForm(e.val.entries);
      if inner.None? {
        r := None;
      } else {
        r := Some(Entry(e.key, Arr(inner.value)));
      }
    } else {
      r := None;
    }
  }

  /** `persistFlexForm`, with its outer `foreach` loop; the recursion goes through `PersistOne`. */
  method PersistFlexForm(es: seq<Entry>) returns (r: Option<seq<Entry>>)
    ensures r == Persist(es)
  {
    var done: seq<Entry> := [];
    var i := 0;
    assert es[i..] == es;
    assert Persist(es).Some? ==> [] + Persist(es).value == Persist(es).value;
    while i < |es|
      invariant 0 <= i <= |es|
      invariant Persist(es) == Prefixed(done, Persist(es[i..]))
    {
      PersistStep(es, i, done);
      var next := PersistOne(es[i]);
      if next.None? {
        assert Persist(es[i..]) == None;
        assert Persist(es) == None;
        return None;
      }
      done := done + [next.value];
      i := i + 1;
    }
    assert es[i..] == [] && done + [] == done;
    r := Some(done);
  }

  // ---------------------------------------------------------------------
  // el maps at any depth
  // ---------------------------------------------------------------------

  /** The processed array holds, under each key, the processed original value. */
  lemma {:induction false} FindPersist(es: seq<Entry>, r: seq<Entry>, k: string)
    requires Persist(es) == Some(r) && Find(es, k).Some?
    ensures Find(r, k).Some? && PersistEntry(Entry(k, Find(es, k).value)) == Some(Entry(k, Find(r, k).value))
  {
    if es[0].key != k {
      FindPersist(es[1..], r[1..], k);
    }
  }

  /** Following a path through nested arrays: the path as a prefix, then the rest. */
  lemma {:induction false} GetConcat(es: seq<Entry>, p: seq<string>, q: seq<string>)
    requires |q| >= 1
    ensures Get(es, p + q) == match Get(es, p) case Some(Arr(m)) => Get(m, q) case _ => None
  {
    if |p| > 0 {
      assert (p + q)[0] == p[0] && (p + q)[1..] == p[1..] + q;
      match Find(es, p[0])
      case None =>
      case Some(v) =>
        if |p| > 1 && v.Arr? {
          GetConcat(v.entries, p[1..], q);
        }
    } else {
      assert p + q == q;
    }
  }

  /**
   * Along any path that does not pass through an `el` key, an array of the
   * input appears, processed, at the same place in the output.
   */
  lemma {:induction false} PersistAlongPath(es: seq<Entry>, r: seq<Entry>, p: seq<string>, m: seq<Entry>)
      returns (m': seq<Entry>)
    requires Persist(es) == Some(r) && "el" !in p && Get(es, p) == Some(Arr(m))
    ensures Get(r, p) == Some(Arr(m')) && Persist(m) == Some(m')
  {
    if |p| == 0 {
      m' := r;
    } else {
      FindPersist(es, r, p[0]);
      var v := Find(es, p[0]).value;
      var w := Find(r, p[0]).value;
      PersistEntryArr(p[0], v, w);
      if |p| > 1 {
        TailAvoids(p, "el");
        m' := PersistAlongPath(v.entries, w.entries, p[1..], m);
      } else {
        m' := w.entries;
      }
    }
  }

  /** Outside `el`, a processed array entry holds the processed inner array. */
  lemma PersistEntryArr(k: string, v: Value, w: Value)
    requires k != "el" && v.Arr? && PersistEntry(Entry(k, v)) == Some(Entry(k, w))
    ensures w.Arr? && Persist(v.entries) == Some(w.entries)
  {
  }

  lemma TailAvoids(p: seq<string>, x: string)
    requires |p| > 0 && x !in p
    ensures p[0] != x && x !in p[1..]
  {
    assert forall j :: 0 <= j < |p| - 1 ==> p[1..][j] == p[j + 1];
  }

  /**
   * Every `el` array reachable along keys other than `el` is replaced by
   * the renamed version of itself.
   */
  lemma ElProcessedAtAnyDepth(es: seq<Entry>, r: seq<Entry>, p: seq<string>, el: seq<Entry>)
    requires Persist(es) == Some(r) && "el" !in p && Get(es, p + ["el"]) == Some(Arr(el))
    ensures Get(r, p + ["el"]) == Some(Arr(RenamedEl(el)))
  {
    GetConcat(es, p, ["el"]);
    var m := Get(es, p).value.entries;
    var m' := PersistAlongPath(es, r, p, m);
    assert Find(m, "el") == Some(Arr(el));
    FindPersist(m, m', "el");
    GetConcat(r, p, ["el"]);
  }

  /**
   * If a string, number or boolean is reachable along keys other than `el`,
   * the call fails: `persistFlexForm` is called on it.
   */
  lemma {:induction false} ScalarOffElFails(es: seq<Entry>, p: seq<string>, v: Value)
    requires |p| >= 1 && "el" !in p && Get(es, p) == Some(v)
    requires v.Bool? || v.Int? || v.Str?
    ensures Persist(es) == None
  {
    if Persist(es).Some? {
      var r := Persist(es).value;
      FindPersist(es, r, p[0]);
      var w := Find(es, p[0]).value;
      if |p| > 1 {
        ScalarOffElFails(w.entries, p[1..], v);
      }
    }
  }
}
