/**
 * PHP arrays as values. A PHP array is an ordered map; this model keeps its
 * entries as a sequence of key/value pairs in insertion order. Keys are
 * strings: PHP stores the key "5" and the key 5 as the same integer key, so
 * a decimal string stands for an integer key. PHP arrays are copied on
 * write, so a function that changes an array "by reference" is modelled as
 * one that returns the new array.
 */
module PhpArrays {
  import opened Wrappers
  import opened PhpStrings

  datatype Value =
    | Null
    | Bool(b: bool)
    | Int(i: int)
    | Str(s: string)
    | Arr(entries: seq<Entry>)

  datatype Entry = Entry(key: string, val: Value)

  /** The keys in iteration order: `array_keys`. */
  function Keys(es: seq<Entry>): (ks: seq<string>)
    ensures |ks| == |es|
    ensures forall k :: k in ks <==> k in KeySet(es)
  {
    var ks := seq(|es|, i requires 0 <= i < |es| => es[i].key);
    assert forall k :: k in KeySet(es) ==> k in ks by {
      forall k | k in KeySet(es) ensures k in ks {
        var i := KeyIndex(es, k);
        assert ks[i] == k;
      }
    }
    ks
  }

  function KeySet(es: seq<Entry>): (ks: set<string>)
    ensures forall i :: 0 <= i < |es| ==> es[i].key in ks
  {
    if |es| == 0 then {} else {es[0].key} + KeySet(es[1..])
  }

  /** A key of the array is held by some entry. */
  lemma {:induction false} KeyIndex(es: seq<Entry>, k: string) returns (i: nat)
    requires k in KeySet(es)
    ensures i < |es| && es[i].key == k
  {
    if es[0].key == k {
      i := 0;
    } else {
      var j := KeyIndex(es[1..], k);
      i := j + 1;
    }
  }

  /** A key no entry holds is not a key of the array. */
  lemma {:induction false} KeyAbsent(es: seq<Entry>, k: string)
    requires forall i :: 0 <= i < |es| ==> es[i].key != k
    ensures k !in KeySet(es)
  {
    if |es| > 0 {
      assert forall i :: 0 <= i < |es[1..]| ==> es[1..][i] == es[i + 1];
      KeyAbsent(es[1..], k);
    }
  }

  /** A well-formed PHP array: no key occurs twice. */
  predicate UniqueKeys(es: seq<Entry>)
  {
    |es| == 0 || (es[0].key !in KeySet(es[1..]) && UniqueKeys(es[1..]))
  }

  /** `$a[$k]` when `array_key_exists($k, $a)`, or none. */
  function Find(es: seq<Entry>, k: string): (r: Option<Value>)
    ensures r.None? <==> k !in KeySet(es)
    ensures r.Some? ==> exists i :: 0 <= i < |es| && es[i] == Entry(k, r.value)
  {
    if |es| == 0 then None
    else if es[0].key == k then Some(es[0].val)
    else
      var r := Find(es[1..], k);
      if r.Some? then
        var i :| 0 <= i < |es[1..]| && es[1..][i] == Entry(k, r.value);
        assert es[i + 1] == Entry(k, r.value);
        r
      else r
  }

  /** In a well-formed array, the value stored at an entry's key is that entry's value. */
  lemma {:induction false} FindEntry(es: seq<Entry>, i: int)
    requires UniqueKeys(es) && 0 <= i < |es|
    ensures Find(es, es[i].key) == Some(es[i].val)
  {
    if i > 0 {
      FindEntry(es[1..], i - 1);
    }
  }

  /** `isset($a[$k])`: the key is present and its value is not null. */
  predicate IsSet(es: seq<Entry>, k: string)
  {
    Find(es, k).Some? && Find(es, k).value != Null
  }

  /**
   * `$a[$k] = $v`: an existing entry is overwritten where it stands, a new
   * key is appended at the end.
   */
  function Put(es: seq<Entry>, k: string, v: Value): (r: seq<Entry>)
    ensures k !in KeySet(es) ==> r == es + [Entry(k, v)]
    ensures k in KeySet(es) ==> Keys(r) == Keys(es)
    ensures KeySet(r) == KeySet(es) + {k}
    ensures UniqueKeys(es) ==> UniqueKeys(r)
    ensures UniqueKeys(es) ==> Find(r, k) == Some(v)
    ensures forall k' :: k' != k ==> Find(r, k') == Find(es, k')
  {
    if |es| == 0 then [Entry(k, v)]
    else
      FirstRest(es);
      if es[0].key == k then
        var r := [Entry(k, v)] + es[1..];
        ConsFacts(Entry(k, v), es[1..]);
        r
      else
        var rest := Put(es[1..], k, v);
        var r := [es[0]] + rest;
        ConsFacts(es[0], rest);
        ConsFacts(es[0], es[1..]);
        assert k !in KeySet(es) ==> es + [Entry(k, v)] == [es[0]] + (es[1..] + [Entry(k, v)]) by {
          SplitFirst(es, [Entry(k, v)]);
        }
        r
  }

  /** An array is its first entry followed by the rest. */
  lemma FirstRest(es: seq<Entry>)
    requires |es| > 0
    ensures es == [es[0]] + es[1..]
  {
  }

  /** The parts of an array with a known first entry. */
  lemma ConsFacts(x: Entry, rest: seq<Entry>)
    ensures ([x] + rest)[0] == x && ([x] + rest)[1..] == rest
    ensures Keys([x] + rest) == [x.key] + Keys(rest)
    ensures KeySet([x] + rest) == {x.key} + KeySet(rest)
  {
    assert ([x] + rest)[1..] == rest;
  }

  /** The assignment replaces the first entry with the key, the one a lookup finds. */
  lemma {:induction false} FindPut(es: seq<Entry>, k: string, v: Value)
    ensures Find(Put(es, k, v), k) == Some(v)
  {
    if |es| > 0 && es[0].key != k {
      FindPut(es[1..], k, v);
      var r := Put(es, k, v);
      assert r[0] == es[0] && r[1..] == Put(es[1..], k, v);
    }
  }

  /** `unset($a[$k])`: the entry with key `k` removed, the others kept in order. */
  function Remove(es: seq<Entry>, k: string): (r: seq<Entry>)
    ensures k !in KeySet(es) ==> r == es
    ensures KeySet(r) == KeySet(es) - {k}
    ensures UniqueKeys(es) ==> UniqueKeys(r)
    ensures Find(r, k) == None
    ensures forall k' :: k' != k ==> Find(r, k') == Find(es, k')
  {
    if |es| == 0 then []
    else
      var rest := Remove(es[1..], k);
      assert es == [es[0]] + es[1..];
      if es[0].key == k then rest
      else
        var r := [es[0]] + rest;
        assert r[1..] == rest;
        r
  }

  /**
   * In a well-formed array, `unset` cuts out the one entry holding the key:
   * the entries before it and after it stay, in their order.
   */
  lemma {:induction false} RemoveAt(es: seq<Entry>, k: string, i: int)
    requires UniqueKeys(es) && 0 <= i < |es| && es[i].key == k
    ensures Remove(es, k) == es[..i] + es[i + 1..]
  {
    FirstRest(es);
    if i == 0 {
      assert k !in KeySet(es[1..]);
      assert es[..0] + es[1..] == es[1..];
    } else {
      assert es[1..][i - 1] == es[i];
      RemoveAt(es[1..], k, i - 1);
      RemoveCons(es[0], es[1..], k);
      ConsSplice(es, i);
    }
  }

  /** Cutting out entry `i > 0` of an array is cutting out entry `i - 1` of its tail, after the first entry. */
  lemma ConsSplice(es: seq<Entry>, i: int)
    requires 0 < i < |es|
    ensures [es[0]] + (es[1..][..i - 1] + es[1..][i..]) == es[..i] + es[i + 1..]
  {
    assert es[1..][..i - 1] == es[1..i];
    assert es[1..][i..] == es[i + 1..];
    assert es[..i] == [es[0]] + es[1..i];
  }

  /** Removing distributes over the two halves of an array. */
  lemma {:induction false} RemoveAppend(a: seq<Entry>, b: seq<Entry>, k: string)
    ensures Remove(a + b, k) == Remove(a, k) + Remove(b, k)
  {
    if |a| == 0 {
      assert a + b == b;
    } else {
      RemoveAppend(a[1..], b, k);
      SplitFirst(a, b);
      RemoveCons(a[0], a[1..] + b, k);
      RemoveCons(a[0], a[1..], k);
      ConsAppend(a[0], Remove(a[1..], k), Remove(b, k));
    }
  }

  /** A non-empty first half splits into its first entry and the rest. */
  lemma SplitFirst(a: seq<Entry>, b: seq<Entry>)
    requires |a| > 0
    ensures a + b == [a[0]] + (a[1..] + b)
    ensures a == [a[0]] + a[1..]
  {
  }

  /** Sequence concatenation regroups around a first element. */
  lemma ConsAppend(x: Entry, p: seq<Entry>, q: seq<Entry>)
    ensures ([x] + p) + q == [x] + (p + q)
  {
  }

  /** Removing from an array with a known first entry. */
  lemma RemoveCons(x: Entry, rest: seq<Entry>, k: string)
    ensures Remove([x] + rest, k) == if x.key == k then Remove(rest, k) else [x] + Remove(rest, k)
  {
    assert ([x] + rest)[0] == x && ([x] + rest)[1..] == rest;
  }

  /** Assigning to a key of the first half leaves the second half where it is. */
  lemma {:induction false} PutInFirst(a: seq<Entry>, b: seq<Entry>, k: string, v: Value)
    requires k in KeySet(a)
    ensures Put(a + b, k, v) == Put(a, k, v) + b
  {
    SplitFirst(a, b);
    ConsFacts(a[0], a[1..] + b);
    ConsFacts(a[0], a[1..]);
    if a[0].key != k {
      PutInFirst(a[1..], b, k, v);
      ConsAppend(a[0], Put(a[1..], k, v), b);
    } else {
      ConsAppend(Entry(k, v), a[1..], b);
    }
  }

  lemma {:induction false} KeySetAppend(a: seq<Entry>, b: seq<Entry>)
    ensures KeySet(a + b) == KeySet(a) + KeySet(b)
  {
    if |a| > 0 {
      KeySetAppend(a[1..], b);
      assert (a + b)[1..] == a[1..] + b;
    } else {
      assert a + b == b;
    }
  }

  /** PHP's conversion of a value to boolean. */
  predicate Truthy(v: Value)
  {
    match v
    case Null => false
    case Bool(b) => b
    case Int(i) => i != 0
    case Str(s) => s != "" && s != "0"
    case Arr(es) => |es| > 0
  }

  /** The value found by following `path` through nested arrays, if every step exists. */
  function Get(es: seq<Entry>, path: seq<string>): Option<Value>
    decreases |path|
  {
    if |path| == 0 then Some(Arr(es))
    else match Find(es, path[0])
      case None => None
      case Some(v) =>
        if |path| == 1 then Some(v)
        else if v.Arr? then Get(v.entries, path[1..])
        else None
  }

  /** PHP's conversion to string of a value that is not an array. */
  function StringOf(v: Value): string
    requires !v.Arr?
  {
    match v
    case Null => ""
    case Bool(b) => if b then "1" else ""
    case Int(i) => IntToString(i)
    case Str(s) => s
  }

  /**
   * `GeneralUtility::trimExplode(d, $v, true)` on any value: scalars are
   * converted to strings first; an array makes `explode` fail, and no piece
   * survives.
   */
  function TrimExplodeValue(v: Value, d: char): seq<string>
  {
    if v.Arr? then [] else TrimExplode(StringOf(v), d)
  }

  /** Two steps down a path: the second key looked up in the array under the first. */
  lemma GetPair(es: seq<Entry>, a: string, m: seq<Entry>, k: string)
    requires Find(es, a) == Some(Arr(m))
    ensures Get(es, [a, k]) == Find(m, k)
  {
    assert [a, k][1..] == [k];
  }

  /**
   * A PHP list: a well-formed array whose entries are the strings in order,
   * under the keys "0", "1", ...; looking up key "i" gives the i-th string.
   */
  function ListOf(xs: seq<string>): (r: seq<Entry>)
    ensures |r| == |xs|
    ensures forall i :: 0 <= i < |xs| ==> r[i] == Entry(NatToString(i), Str(xs[i]))
    ensures UniqueKeys(r)
    ensures forall i :: 0 <= i < |xs| ==> Find(r, NatToString(i)) == Some(Str(xs[i]))
  {
    var r := seq(|xs|, i requires 0 <= i < |xs| => Entry(NatToString(i), Str(xs[i])));
    forall i, j | 0 <= i < j < |r| ensures r[i].key != r[j].key {
      NatToStringInjective(i, j);
    }
    DistinctKeysUnique(r);
    forall i | 0 <= i < |xs| ensures Find(r, NatToString(i)) == Some(Str(xs[i])) {
      FindEntry(r, i);
    }
    r
  }

  /** An array whose entries hold pairwise different keys is well formed. */
  lemma {:induction false} DistinctKeysUnique(es: seq<Entry>)
    requires forall i, j :: 0 <= i < j < |es| ==> es[i].key != es[j].key
    ensures UniqueKeys(es)
  {
    if |es| > 0 {
      var rest := es[1..];
      forall i, j | 0 <= i < j < |rest| ensures rest[i].key != rest[j].key {
        assert rest[i] == es[i + 1] && rest[j] == es[j + 1];
      }
      DistinctKeysUnique(rest);
      forall j | 0 <= j < |rest| ensures rest[j].key != es[0].key {
        assert rest[j] == es[j + 1];
      }
      KeyAbsent(rest, es[0].key);
    }
  }
}
