/**
 * The PHP string built-ins (and the two TYPO3 string helpers) that the
 * configuration controller and the upload slot rely on, over `seq<char>`.
 * Only the single-byte, ASCII behaviour is modelled.
 */
module PhpStrings {
  import opened Wrappers

  // ---------------------------------------------------------------------
  // explode / implode with a one-character delimiter
  // ---------------------------------------------------------------------

  /** `explode(d, s)`: the pieces of `s` between occurrences of `d`; never empty. */
  function Split(s: string, d: char): (parts: seq<string>)
    ensures |parts| >= 1
    ensures forall i :: 0 <= i < |parts| ==> d !in parts[i]
    ensures |parts| == 1 ==> parts[0] == s
  {
    if |s| == 0 then [""]
    else
      var rest := Split(s[1..], d);
      if s[0] == d then [""] + rest
      else [[s[0]] + rest[0]] + rest[1..]
  }

  /** The summed length of the pieces. */
  function TotalLength(parts: seq<string>): nat
  {
    if |parts| == 0 then 0 else |parts[0]| + TotalLength(parts[1..])
  }

  /** The pieces of `explode` and the delimiters between them make up the whole text. */
  lemma {:induction false} SplitLength(s: string, d: char)
    ensures TotalLength(Split(s, d)) + |Split(s, d)| - 1 == |s|
  {
    if |s| > 0 {
      SplitLength(s[1..], d);
      var rest := Split(s[1..], d);
      if s[0] == d {
        assert Split(s, d)[1..] == rest;
      } else {
        var parts := Split(s, d);
        assert parts[1..] == rest[1..];
        assert TotalLength(rest) == |rest[0]| + TotalLength(rest[1..]);
      }
    }
  }

  /** Each piece avoids every character the text avoids. */
  lemma {:induction false} SplitAvoids(s: string, d: char, c: char)
    requires c !in s
    ensures forall i :: 0 <= i < |Split(s, d)| ==> c !in Split(s, d)[i]
  {
    if |s| > 0 {
      SplitAvoids(s[1..], d, c);
      assert s == [s[0]] + s[1..];
    }
  }

  /** `implode(d, parts)`: the pieces glued together with `d` between neighbours. */
  function Join(parts: seq<string>, d: char): string
  {
    if |parts| == 0 then ""
    else if |parts| == 1 then parts[0]
    else parts[0] + [d] + Join(parts[1..], d)
  }

  /** Gluing the pieces of `explode` back together gives the original text. */
  lemma {:induction false} JoinSplit(s: string, d: char)
    ensures Join(Split(s, d), d) == s
  {
    if |s| > 0 {
      var rest := Split(s[1..], d);
      JoinSplit(s[1..], d);
      if s[0] == d {
        assert Split(s, d)[1..] == rest;
      } else if |rest| > 1 {
        var parts := Split(s, d);
        assert parts[1..] == rest[1..];
        assert Join(rest, d) == rest[0] + [d] + Join(rest[1..], d);
        assert Join(parts, d) == [s[0]] + rest[0] + [d] + Join(rest[1..], d);
        assert s == [s[0]] + s[1..];
      } else {
        assert s == [s[0]] + s[1..];
      }
    }
  }

  /** `s` with every `d` replaced by `e`. */
  function ReplaceChar(s: string, d: char, e: char): (r: string)
    ensures |r| == |s|
    ensures forall i :: 0 <= i < |s| ==> r[i] == if s[i] == d then e else s[i]
  {
    seq(|s|, i requires 0 <= i < |s| => if s[i] == d then e else s[i])
  }

  /**
   * Gluing the pieces of `explode(d, s)` with another character `e` replaces
   * every `d` of `s` by `e` and keeps every other character.
   */
  lemma {:induction false} JoinSplitReplace(s: string, d: char, e: char)
    ensures Join(Split(s, d), e) == ReplaceChar(s, d, e)
  {
    if |s| > 0 {
      var rest := Split(s[1..], d);
      JoinSplitReplace(s[1..], d, e);
      ReplaceCharCons(s, d, e);
      if s[0] == d {
        assert Split(s, d) == [""] + rest;
        JoinEmptyFirst(rest, e);
      } else {
        assert Split(s, d) == [[s[0]] + rest[0]] + rest[1..];
        JoinPrepend(s[0], rest, e);
      }
    }
  }

  /** An empty first piece contributes only the glue after it. */
  lemma JoinEmptyFirst(parts: seq<string>, e: char)
    requires |parts| >= 1
    ensures Join([""] + parts, e) == [e] + Join(parts, e)
  {
    var q := [""] + parts;
    assert q[0] == "" && q[1..] == parts;
  }

  /** A character put in front of the first piece ends up in front of the glued text. */
  lemma JoinPrepend(c: char, parts: seq<string>, e: char)
    requires |parts| >= 1
    ensures Join([[c] + parts[0]] + parts[1..], e) == [c] + Join(parts, e)
  {
    var q := [[c] + parts[0]] + parts[1..];
    assert q[0] == [c] + parts[0] && q[1..] == parts[1..];
    if |parts| > 1 {
      assert Join(parts, e) == parts[0] + [e] + Join(parts[1..], e);
    }
  }

  /** Replacing in a non-empty text: the first character, then the rest. */
  lemma ReplaceCharCons(s: string, d: char, e: char)
    requires |s| > 0
    ensures ReplaceChar(s, d, e) == [if s[0] == d then e else s[0]] + ReplaceChar(s[1..], d, e)
  {
  }

  /** A text without the delimiter is a single piece. */
  lemma {:induction false} SplitWithoutDelimiter(a: string, d: char)
    requires d !in a
    ensures Split(a, d) == [a]
  {
    if |a| > 0 {
      SplitWithoutDelimiter(a[1..], d);
      assert a == [a[0]] + a[1..];
    }
  }

  /** A delimiter after a delimiter-free prefix ends the first piece. */
  lemma {:induction false} SplitAfterPiece(a: string, b: string, d: char)
    requires d !in a
    ensures Split(a + [d] + b, d) == [a] + Split(b, d)
  {
    if |a| == 0 {
      assert a + [d] + b == [d] + b;
      assert ([d] + b)[1..] == b;
    } else {
      SplitAfterPiece(a[1..], b, d);
      assert (a + [d] + b)[1..] == a[1..] + [d] + b;
      assert a == [a[0]] + a[1..];
    }
  }

  /** `explode` undoes `implode` when no piece contains the delimiter. */
  lemma {:induction false} SplitJoin(parts: seq<string>, d: char)
    requires |parts| >= 1
    requires forall i :: 0 <= i < |parts| ==> d !in parts[i]
    ensures Split(Join(parts, d), d) == parts
  {
    if |parts| == 1 {
      SplitWithoutDelimiter(parts[0], d);
    } else {
      SplitJoin(parts[1..], d);
      SplitAfterPiece(parts[0], Join(parts[1..], d), d);
      assert parts == [parts[0]] + parts[1..];
    }
  }

  // ---------------------------------------------------------------------
  // trim / trimExplode
  // ---------------------------------------------------------------------

  /** The characters PHP's `trim` removes by default: " \t\n\r\0\x0B". */
  predicate IsTrimChar(c: char)
  {
    c == ' ' || c == '\t' || c == '\n' || c == '\r' || c == '\0' || c == '\U{0B}'
  }

  /** Neither end of `s` is a character `trim` would remove. */
  predicate Trimmed(s: string)
  {
    |s| == 0 || (!IsTrimChar(s[0]) && !IsTrimChar(s[|s| - 1]))
  }

  /** `ltrim(s)`: what is left of `s` after dropping leading trim characters. */
  function TrimLeft(s: string): (r: string)
    ensures |r| <= |s|
    ensures |r| == 0 || !IsTrimChar(r[0])
  {
    if |s| > 0 && IsTrimChar(s[0]) then TrimLeft(s[1..]) else s
  }

  /** `ltrim` keeps a suffix of its input and drops only trim characters. */
  lemma {:induction false} TrimLeftSuffix(s: string)
    ensures TrimLeft(s) == s[|s| - |TrimLeft(s)|..]
    ensures forall i :: 0 <= i < |s| - |TrimLeft(s)| ==> IsTrimChar(s[i])
  {
    if |s| > 0 && IsTrimChar(s[0]) {
      var t := s[1..];
      TrimLeftSuffix(t);
      var r := TrimLeft(s);
      assert r == TrimLeft(t);
      assert t[|t| - |r|..] == s[|s| - |r|..];
      forall i | 0 <= i < |s| - |r| ensures IsTrimChar(s[i]) {
        if i > 0 {
          assert s[i] == t[i - 1];
        }
      }
    }
  }

  /** `rtrim(s)`: what is left of `s` after dropping trailing trim characters. */
  function TrimRight(s: string): (r: string)
    ensures |r| <= |s|
    ensures |r| == 0 || !IsTrimChar(r[|r| - 1])
  {
    if |s| > 0 && IsTrimChar(s[|s| - 1]) then TrimRight(s[..|s| - 1]) else s
  }

  /** `rtrim` keeps a prefix of its input and drops only trim characters. */
  lemma {:induction false} TrimRightPrefix(s: string)
    ensures TrimRight(s) == s[..|TrimRight(s)|]
    ensures forall i :: |TrimRight(s)| <= i < |s| ==> IsTrimChar(s[i])
  {
    if |s| > 0 && IsTrimChar(s[|s| - 1]) {
      var t := s[..|s| - 1];
      TrimRightPrefix(t);
      var r := TrimRight(s);
      assert r == TrimRight(t);
      assert t[..|r|] == s[..|r|];
      forall i | |r| <= i < |s| ensures IsTrimChar(s[i]) {
        if i < |s| - 1 {
          assert s[i] == t[i];
        }
      }
    }
  }

  /** How many characters `ltrim` drops from the front of `s`. */
  function TrimStart(s: string): nat
  {
    |s| - |TrimLeft(s)|
  }

  /**
   * `trim(s)`: both ends stripped. The result is the run of `s` that starts
   * at `TrimStart(s)`; everything before and after it is a trim character,
   * and the result itself neither starts nor ends with one. A string that is
   * already trimmed is returned as it is.
   */
  function Trim(s: string): (r: string)
    ensures Trimmed(r)
    ensures TrimStart(s) + |r| <= |s| && r == s[TrimStart(s)..TrimStart(s) + |r|]
    ensures forall i :: 0 <= i < TrimStart(s) ==> IsTrimChar(s[i])
    ensures forall i :: TrimStart(s) + |r| <= i < |s| ==> IsTrimChar(s[i])
    ensures Trimmed(s) ==> r == s
  {
    var l := TrimLeft(s);
    var r := TrimRight(l);
    TrimLeftSuffix(s);
    TrimRightPrefix(l);
    TrimCompose(s, l, r, |s| - |l|);
    TrimOfTrimmed(s);
    r
  }

  /** A prefix `r` of the suffix `l` of `s` starting at `a` is the run of `s` starting at `a`. */
  lemma TrimCompose(s: string, l: string, r: string, a: int)
    requires 0 <= a <= |s| && l == s[a..]
    requires |r| <= |l| && r == l[..|r|]
    requires forall i :: |r| <= i < |l| ==> IsTrimChar(l[i])
    ensures a + |r| <= |s| && r == s[a..a + |r|]
    ensures forall i :: a + |r| <= i < |s| ==> IsTrimChar(s[i])
  {
    forall i | a + |r| <= i < |s| ensures IsTrimChar(s[i]) {
      assert s[i] == l[i - a];
    }
  }

  /** Neither half of `trim` changes a text that is already trimmed. */
  lemma TrimOfTrimmed(s: string)
    ensures Trimmed(s) ==> TrimRight(TrimLeft(s)) == s
  {
    if Trimmed(s) && |s| > 0 {
      assert TrimLeft(s) == s;
    }
  }

  /** A character the text avoids is not in its trimmed form. */
  lemma TrimAvoids(s: string, c: char)
    requires c !in s
    ensures c !in Trim(s)
  {
    var r := Trim(s);
    var a := TrimStart(s);
    forall i | 0 <= i < |r| ensures r[i] != c {
      assert r[i] == s[a + i];
    }
  }

  /** Each piece trimmed, empty pieces dropped, order kept. */
  function TrimNonEmpty(parts: seq<string>): (r: seq<string>)
    ensures |r| <= |parts|
    ensures forall i :: 0 <= i < |r| ==> r[i] != "" && Trimmed(r[i])
    ensures |parts| == 1 && Trim(parts[0]) == "" ==> r == []
    ensures |parts| == 1 && Trim(parts[0]) != "" ==> r == [Trim(parts[0])]
  {
    if |parts| == 0 then []
    else
      var t := Trim(parts[0]);
      var rest := TrimNonEmpty(parts[1..]);
      assert |parts| == 1 ==> |parts[1..]| == 0;
      if t == "" then rest
      else
        CleanCons(t, rest);
        [t] + rest
  }

  /** A clean piece in front of clean pieces gives clean pieces. */
  lemma CleanCons(t: string, rest: seq<string>)
    requires t != "" && Trimmed(t)
    requires forall i :: 0 <= i < |rest| ==> rest[i] != "" && Trimmed(rest[i])
    ensures forall i :: 0 <= i < |[t] + rest| ==> ([t] + rest)[i] != "" && Trimmed(([t] + rest)[i])
  {
    forall i | 0 <= i < |[t] + rest| ensures ([t] + rest)[i] != "" && Trimmed(([t] + rest)[i]) {
      if i > 0 {
        assert ([t] + rest)[i] == rest[i - 1];
      }
    }
  }

  /**
   * The pieces are handled one by one: the kept pieces of a concatenation
   * are those of its first part followed by those of its second.
   */
  lemma {:induction false} TrimNonEmptyAppend(a: seq<string>, b: seq<string>)
    ensures TrimNonEmpty(a + b) == TrimNonEmpty(a) + TrimNonEmpty(b)
  {
    if |a| == 0 {
      assert a + b == b;
    } else {
      TrimNonEmptyAppend(a[1..], b);
      HeadTail(a, b);
      TrimNonEmptyCons(a[0], a[1..] + b);
      TrimNonEmptyCons(a[0], a[1..]);
      AppendAssoc([Trim(a[0])], TrimNonEmpty(a[1..]), TrimNonEmpty(b));
    }
  }

  /** The kept pieces of a list with a known first piece. */
  lemma TrimNonEmptyCons(x: string, rest: seq<string>)
    ensures TrimNonEmpty([x] + rest)
      == if Trim(x) == "" then TrimNonEmpty(rest) else [Trim(x)] + TrimNonEmpty(rest)
  {
    assert ([x] + rest)[0] == x && ([x] + rest)[1..] == rest;
  }

  /** A non-empty first part splits into its first element and the rest. */
  lemma HeadTail<T>(a: seq<T>, b: seq<T>)
    requires |a| > 0
    ensures a + b == [a[0]] + (a[1..] + b)
  {
  }

  lemma AppendAssoc<T>(p: seq<T>, q: seq<T>, u: seq<T>)
    ensures (p + q) + u == p + (q + u)
  {
  }

  /**
   * TYPO3's `GeneralUtility::trimExplode(d, s, true)`: the `explode` pieces,
   * each trimmed, without the empty ones.
   */
  function TrimExplode(s: string, d: char): (r: seq<string>)
  {
    TrimNonEmpty(Split(s, d))
  }

  /** No piece of `trimExplode` is empty, none has surrounding blanks, none holds the delimiter. */
  lemma {:induction false} TrimExplodePieces(s: string, d: char)
    ensures forall i :: 0 <= i < |TrimExplode(s, d)| ==>
      TrimExplode(s, d)[i] != "" && Trimmed(TrimExplode(s, d)[i]) && d !in TrimExplode(s, d)[i]
  {
    TrimNonEmptyAvoids(Split(s, d), d);
  }

  lemma {:induction false} TrimNonEmptyAvoids(parts: seq<string>, d: char)
    requires forall i :: 0 <= i < |parts| ==> d !in parts[i]
    ensures forall i :: 0 <= i < |TrimNonEmpty(parts)| ==> d !in TrimNonEmpty(parts)[i]
  {
    if |parts| > 0 {
      TrimNonEmptyAvoids(parts[1..], d);
      TrimAvoids(parts[0], d);
      var rest := TrimNonEmpty(parts[1..]);
      if Trim(parts[0]) != "" {
        forall i | 0 < i < |[Trim(parts[0])] + rest| ensures d !in ([Trim(parts[0])] + rest)[i] {
          assert ([Trim(parts[0])] + rest)[i] == rest[i - 1];
        }
      }
    }
  }

  /** Pieces that are already non-empty and trimmed pass through `TrimNonEmpty` unchanged. */
  lemma {:induction false} TrimNonEmptyOfClean(parts: seq<string>)
    requires forall i :: 0 <= i < |parts| ==> parts[i] != "" && Trimmed(parts[i])
    ensures TrimNonEmpty(parts) == parts
  {
    if |parts| > 0 {
      TrimNonEmptyOfClean(parts[1..]);
      assert parts == [parts[0]] + parts[1..];
    }
  }

  // ---------------------------------------------------------------------
  // strtolower, rtrim with a character list, basename
  // ---------------------------------------------------------------------

  function LowerChar(c: char): char
  {
    if IsUpper(c) then (c as int + 32) as char else c
  }

  predicate IsUpper(c: char)
  {
    'A' <= c <= 'Z'
  }

  /**
   * `strtolower(s)` on ASCII: no upper-case letter is left; each one becomes
   * the letter 32 code points further on, and every other character stays.
   */
  function ToLower(s: string): (r: string)
    ensures |r| == |s|
    ensures forall i :: 0 <= i < |r| ==> !IsUpper(r[i])
    ensures forall i :: 0 <= i < |s| && IsUpper(s[i]) ==> r[i] as int == s[i] as int + 32
    ensures forall i :: 0 <= i < |s| && !IsUpper(s[i]) ==> r[i] == s[i]
  {
    seq(|s|, i requires 0 <= i < |s| => LowerChar(s[i]))
  }

  /** Lower-casing twice is lower-casing once. */
  lemma ToLowerIdempotent(s: string)
    ensures ToLower(ToLower(s)) == ToLower(s)
  {
    var r := ToLower(s);
    assert forall i :: 0 <= i < |r| ==> ToLower(r)[i] == r[i];
  }

  /** `rtrim(s, c)`: `s` without its trailing run of `c`. */
  function RTrimChar(s: string, c: char): (r: string)
    ensures |r| <= |s| && r == s[..|r|]
    ensures forall i :: |r| <= i < |s| ==> s[i] == c
    ensures |r| == 0 || r[|r| - 1] != c
  {
    if |s| > 0 && s[|s| - 1] == c then RTrimChar(s[..|s| - 1], c) else s
  }

  /** The part of `s` after its last `c` (all of `s` when there is none). */
  function AfterLast(s: string, c: char): (r: string)
    ensures |r| <= |s| && r == s[|s| - |r|..]
    ensures c !in r
    ensures |r| == |s| || s[|s| - |r| - 1] == c
  {
    if |s| == 0 then ""
    else if s[|s| - 1] == c then ""
    else AfterLast(s[..|s| - 1], c) + [s[|s| - 1]]
  }

  /**
   * `basename(p)` for '/'-separated paths: trailing slashes are ignored and
   * the last path segment is returned.
   */
  function Basename(p: string): (r: string)
    ensures '/' !in r
    ensures exists q :: q == RTrimChar(p, '/') && |r| <= |q| && r == q[|q| - |r|..]
                        && (|r| == |q| || q[|q| - |r| - 1] == '/')
  {
    AfterLast(RTrimChar(p, '/'), '/')
  }

  // ---------------------------------------------------------------------
  // strrpos / strpos
  // ---------------------------------------------------------------------

  /** `pat` occurs in `h` starting at index `i`. */
  predicate OccursAt(h: string, pat: string, i: int)
  {
    0 <= i && i + |pat| <= |h| && h[i..i + |pat|] == pat
  }

  /** The last index below `k` where `pat` occurs in `h`. */
  function LastBelow(h: string, pat: string, k: nat): (r: Option<nat>)
    ensures r.Some? ==> r.value < k && OccursAt(h, pat, r.value)
                        && forall j :: r.value < j < k ==> !OccursAt(h, pat, j)
    ensures r.None? ==> forall j :: 0 <= j < k ==> !OccursAt(h, pat, j)
  {
    if k == 0 then None
    else if OccursAt(h, pat, k - 1) then Some(k - 1)
    else LastBelow(h, pat, k - 1)
  }

  /** `strrpos(h, pat)`: the index of the last occurrence of `pat`, or none. */
  function LastIndexOf(h: string, pat: string): (r: Option<nat>)
    ensures r.Some? ==> OccursAt(h, pat, r.value)
                        && forall j :: r.value < j ==> !OccursAt(h, pat, j)
    ensures r.None? ==> forall j :: !OccursAt(h, pat, j)
  {
    LastBelow(h, pat, |h| + 1)
  }

  /** `strpos(h, pat, from)`: the index of the first occurrence at or after `from`, or none. */
  function IndexOfFrom(h: string, pat: string, from: nat): (r: Option<nat>)
    requires from <= |h|
    ensures r.Some? ==> from <= r.value && OccursAt(h, pat, r.value)
                        && forall j :: from <= j < r.value ==> !OccursAt(h, pat, j)
    ensures r.None? ==> forall j :: from <= j ==> !OccursAt(h, pat, j)
    decreases |h| - from
  {
    if OccursAt(h, pat, from) then Some(from)
    else if from == |h| then None
    else IndexOfFrom(h, pat, from + 1)
  }

  /** `strrpos(s, c)` for a single character. */
  function LastIndexOfChar(s: string, c: char): (r: Option<nat>)
    ensures r.Some? ==> r.value < |s| && s[r.value] == c && c !in s[r.value + 1..]
    ensures r.None? <==> c !in s
  {
    if |s| == 0 then None
    else if s[|s| - 1] == c then Some(|s| - 1)
    else
      var r := LastIndexOfChar(s[..|s| - 1], c);
      assert s == s[..|s| - 1] + [s[|s| - 1]];
      if r.Some? then
        assert s[r.value + 1..] == s[..|s| - 1][r.value + 1..] + [s[|s| - 1]];
        r
      else r
  }

  // ---------------------------------------------------------------------
  // PHP's string form of integers
  // ---------------------------------------------------------------------

  function DigitChar(d: nat): char
    requires d < 10
  {
    ('0' as int + d) as char
  }

  /** The decimal digits of `n`, without leading zeros. */
  function NatToString(n: nat): (r: string)
    ensures |r| >= 1
    ensures forall i :: 0 <= i < |r| ==> '0' <= r[i] <= '9'
  {
    if n < 10 then [DigitChar(n)] else NatToString(n / 10) + [DigitChar(n % 10)]
  }

  /** Different numbers have different decimal forms. */
  lemma {:induction false} NatToStringInjective(a: nat, b: nat)
    ensures NatToString(a) == NatToString(b) ==> a == b
    decreases a + b
  {
    if NatToString(a) == NatToString(b) {
      if a >= 10 && b >= 10 {
        var ra := NatToString(a / 10);
        var rb := NatToString(b / 10);
        assert NatToString(a) == ra + [DigitChar(a % 10)];
        assert NatToString(b) == rb + [DigitChar(b % 10)];
        assert ra == NatToString(a)[..|ra|] && rb == NatToString(b)[..|rb|];
        assert DigitChar(a % 10) == NatToString(a)[|ra|];
        assert DigitChar(b % 10) == NatToString(b)[|rb|];
        NatToStringInjective(a / 10, b / 10);
      } else if a < 10 && b < 10 {
        assert DigitChar(a) == NatToString(a)[0];
      }
    }
  }

  /** `(string)$i`. */
  function IntToString(i: int): string
  {
    if i < 0 then "-" + NatToString(-i) else NatToString(i)
  }
}
