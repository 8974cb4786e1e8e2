/** Models of the java.lang.String, java.lang.Character and commons-lang
    StringUtils operations the text pipeline relies on.

    A Java String is a sequence of UTF-16 units; here it is a `string`, a
    sequence of Unicode scalar values. The two agree on text in the Basic
    Multilingual Plane, which is all the pipeline's rules talk about.
 */
module JavaText {

  /** Character.isWhitespace (JDK 9 and later): the space, line and
      paragraph separators other than the non-breaking ones (U+00A0, U+2007,
      U+202F), and the controls
      U+0009..U+000D and U+001C..U+001F. */
  predicate IsWhitespace(c: char) {
    || c == ' '
    || ('\t' <= c <= '\r')
    || ('\U{1C}' <= c <= '\U{1F}')
    || c == '\U{1680}'
    || ('\U{2000}' <= c <= '\U{2006}')
    || ('\U{2008}' <= c <= '\U{200A}')
    || c == '\U{2028}'
    || c == '\U{2029}'
    || c == '\U{205F}'
    || c == '\U{3000}'
  }

  /** The class `\s` of java.util.regex (without UNICODE_CHARACTER_CLASS). */
  predicate IsRegexSpace(c: char) {
    c == ' ' || c == '\t' || c == '\n' || c == '\U{0B}' || c == '\U{0C}' || c == '\r'
  }

  /** StringUtils.isBlank (commons-lang 2): empty, or whitespace only. */
  predicate IsBlank(s: string) {
    forall i | 0 <= i < |s| :: IsWhitespace(s[i])
  }

  predicate StartsWith(s: string, prefix: string) {
    |prefix| <= |s| && s[..|prefix|] == prefix
  }

  predicate EndsWith(s: string, suffix: string) {
    |suffix| <= |s| && s[|s| - |suffix|..] == suffix
  }

  /** `t` occurs in `s` starting at index `k`. */
  predicate OccursAt(s: string, t: string, k: int) {
    0 <= k && k + |t| <= |s| && s[k..k + |t|] == t
  }

  /** String.contains. */
  predicate Contains(s: string, t: string) {
    exists k | 0 <= k <= |s| - |t| :: OccursAt(s, t, k)
  }

  /* ---------------- String.trim ---------------- */

  /** The first index at or after `st` whose unit is above U+0020, or `|s|`. */
  function TrimLeft(s: string, st: nat): (r: nat)
    requires st <= |s|
    ensures st <= r <= |s|
    ensures forall k | st <= k < r :: s[k] <= ' '
    ensures r < |s| ==> s[r] > ' '
    decreases |s| - st
  {
    if st < |s| && s[st] <= ' ' then TrimLeft(s, st + 1) else st
  }

  /** The end of the trimmed range: `len` moved left past units at or below
      U+0020, but never past `st`. */
  function TrimRight(s: string, st: nat, len: nat): (r: nat)
    requires st <= len <= |s|
    ensures st <= r <= len
    ensures forall k | r <= k < len :: s[k] <= ' '
    ensures r > st ==> s[r - 1] > ' '
    decreases len
  {
    if st < len && s[len - 1] <= ' ' then TrimRight(s, st, len - 1) else len
  }

  function TrimStart(s: string): nat
    ensures TrimStart(s) <= |s|
  {
    TrimLeft(s, 0)
  }

  /** String.trim: the longest slice of `s` that neither starts nor ends with a
      unit at or below U+0020. */
  function Trim(s: string): (r: string)
    ensures |r| <= |s|
    ensures r == [] || (r[0] > ' ' && r[|r| - 1] > ' ')
  {
    var st := TrimLeft(s, 0);
    s[st..TrimRight(s, st, |s|)]
  }

  /** The trimmed text is the slice of `s` from TrimStart, and only units at
      or below U+0020 are cut on either side. */
  lemma TrimSpec(s: string)
    ensures TrimStart(s) + |Trim(s)| <= |s|
    ensures Trim(s) == s[TrimStart(s)..TrimStart(s) + |Trim(s)|]
    ensures forall k | 0 <= k < TrimStart(s) :: s[k] <= ' '
    ensures forall k | TrimStart(s) + |Trim(s)| <= k < |s| :: s[k] <= ' '
  {
  }

  /** Trimming twice is trimming once. */
  lemma TrimIdempotent(s: string)
    ensures Trim(Trim(s)) == Trim(s)
  {
    var t := Trim(s);
    TrimSpec(s);
    TrimSpec(t);
    if t != [] {
      assert TrimStart(t) == 0;
    }
  }

  /** An occurrence in the trimmed text is an occurrence in the text. */
  lemma TrimOccurrence(s: string, t: string)
    ensures Contains(Trim(s), t) ==> Contains(s, t)
  {
    var r := Trim(s);
    var a := TrimStart(s);
    TrimSpec(s);
    if Contains(r, t) {
      var k :| 0 <= k <= |r| - |t| && OccursAt(r, t, k);
      var w := s[a + k..a + k + |t|];
      forall m | 0 <= m < |t|
        ensures w[m] == t[m]
      {
        assert w[m] == s[a + k + m];
        assert r[k + m] == s[a + k + m];
        assert r[k..k + |t|][m] == r[k + m];
      }
      assert w == t;
      assert OccursAt(s, t, a + k);
    }
  }

  /** A string that never contains `t` still does not after trimming. */
  lemma TrimKeepsAbsence(s: string, t: string)
    requires !Contains(s, t)
    ensures !Contains(Trim(s), t)
  {
    TrimOccurrence(s, t);
  }

  /* ---------------- String.indexOf ---------------- */

  /** String.indexOf(t, from): the first occurrence of `t` at or after `from`,
      or -1. */
  function IndexOf(s: string, t: string, from: nat): (r: int)
    ensures r == -1 || (from <= r && OccursAt(s, t, r))
    ensures forall k | from <= k && (r == -1 || k < r) :: !OccursAt(s, t, k)
    decreases |s| - from
  {
    if from + |t| > |s| then -1
    else if s[from..from + |t|] == t then from
    else IndexOf(s, t, from + 1)
  }

  /** String.contains is String.indexOf(t) >= 0. */
  lemma IndexOfContains(s: string, t: string)
    ensures IndexOf(s, t, 0) >= 0 <==> Contains(s, t)
  {
    var r := IndexOf(s, t, 0);
    if r >= 0 {
      assert 0 <= r <= |s| - |t| && OccursAt(s, t, r);
    }
  }

  lemma OccursAtSingle(s: string, c: char, k: int)
    ensures OccursAt(s, [c], k) <==> 0 <= k < |s| && s[k] == c
  {
    if 0 <= k < |s| {
      assert s[k..k + 1] == [s[k]];
    }
  }

  /** String.indexOf for a one-unit string finds the first such unit. */
  lemma IndexOfUnit(s: string, c: char, from: nat)
    ensures var r := IndexOf(s, [c], from);
      && (r == -1 || (from <= r < |s| && s[r] == c))
      && (forall k | from <= k < |s| && (r == -1 || k < r) :: s[k] != c)
  {
    var r := IndexOf(s, [c], from);
    if r != -1 {
      OccursAtSingle(s, c, r);
    }
    forall k | from <= k < |s| && (r == -1 || k < r)
      ensures s[k] != c
    {
      OccursAtSingle(s, c, k);
    }
  }

  /** Containing a one-unit string is containing the unit. */
  lemma ContainsSingle(s: string, c: char)
    ensures Contains(s, [c]) <==> exists k | 0 <= k < |s| :: s[k] == c
  {
    forall k | 0 <= k < |s|
      ensures OccursAt(s, [c], k) <==> s[k] == c
    {
      OccursAtSingle(s, c, k);
    }
  }

  /* ---------------- String.replace ---------------- */

  /** String.replace(pat, rep): the non-overlapping occurrences of `pat`,
      found left to right, each replaced by `rep`. */
  function Replace(s: string, pat: string, rep: string): string
    requires |pat| > 0
    decreases |s|
  {
    if |s| < |pat| then s
    else if s[..|pat|] == pat then rep + Replace(s[|pat|..], pat, rep)
    else [s[0]] + Replace(s[1..], pat, rep)
  }

  /** Replacing by a same-length text keeps every position: each unit of the
      result is the original unit or a unit of the replacement. */
  lemma {:induction false} ReplaceSameLength(s: string, pat: string, rep: string)
    requires |pat| == |rep| > 0
    ensures |Replace(s, pat, rep)| == |s|
    ensures forall k | 0 <= k < |s| :: Replace(s, pat, rep)[k] == s[k] || Replace(s, pat, rep)[k] in rep
    decreases |s|
  {
    var r := Replace(s, pat, rep);
    if |s| < |pat| {
    } else if s[..|pat|] == pat {
      ReplaceSameLength(s[|pat|..], pat, rep);
      forall k | 0 <= k < |s|
        ensures r[k] == s[k] || r[k] in rep
      {
        if k < |rep| {
          assert r[k] == rep[k];
        } else {
          assert r[k] == Replace(s[|pat|..], pat, rep)[k - |pat|];
        }
      }
    } else {
      ReplaceSameLength(s[1..], pat, rep);
      forall k | 0 <= k < |s|
        ensures r[k] == s[k] || r[k] in rep
      {
        if k > 0 {
          assert r[k] == Replace(s[1..], pat, rep)[k - 1];
        }
      }
    }
  }

  /** Every unit of a replacement's result comes from the text or from the
      replacement string. */
  lemma {:induction false} ReplaceUnits(s: string, pat: string, rep: string)
    requires |pat| > 0
    ensures forall k | 0 <= k < |Replace(s, pat, rep)| :: Replace(s, pat, rep)[k] in s || Replace(s, pat, rep)[k] in rep
    decreases |s|
  {
    var r := Replace(s, pat, rep);
    if |s| < |pat| {
    } else if s[..|pat|] == pat {
      var r' := Replace(s[|pat|..], pat, rep);
      ReplaceUnits(s[|pat|..], pat, rep);
      assert r == rep + r';
      forall k | 0 <= k < |r|
        ensures r[k] in s || r[k] in rep
      {
        if k >= |rep| {
          assert r[k] == r'[k - |rep|];
          assert r'[k - |rep|] in s[|pat|..] || r'[k - |rep|] in rep;
        }
      }
    } else {
      var r' := Replace(s[1..], pat, rep);
      ReplaceUnits(s[1..], pat, rep);
      assert r == [s[0]] + r';
      forall k | 0 <= k < |r|
        ensures r[k] in s || r[k] in rep
      {
        if k > 0 {
          assert r[k] == r'[k - 1];
          assert r'[k - 1] in s[1..] || r'[k - 1] in rep;
        }
      }
    }
  }

  /** Under a same-length replacement that introduces none of `t`'s units,
      an occurrence of `t` in the result is one in the text. */
  lemma ReplaceOccurrence(s: string, pat: string, rep: string, t: string)
    requires |pat| == |rep| > 0
    requires forall k | 0 <= k < |t| :: t[k] !in rep
    ensures Contains(Replace(s, pat, rep), t) ==> Contains(s, t)
  {
    var r := Replace(s, pat, rep);
    ReplaceSameLength(s, pat, rep);
    if Contains(r, t) {
      var k :| 0 <= k <= |r| - |t| && OccursAt(r, t, k);
      forall m | 0 <= m < |t|
        ensures s[k + m] == t[m]
      {
        assert r[k + m] == r[k..k + |t|][m] == t[m];
      }
      assert s[k..k + |t|] == t;
      assert OccursAt(s, t, k);
    }
  }

  /** A same-length replacement that introduces none of `t`'s units cannot
      create an occurrence of `t`. */
  lemma ReplaceKeepsAbsence(s: string, pat: string, rep: string, t: string)
    requires |pat| == |rep| > 0
    requires forall k | 0 <= k < |t| :: t[k] !in rep
    requires !Contains(s, t)
    ensures !Contains(Replace(s, pat, rep), t)
  {
    ReplaceOccurrence(s, pat, rep, t);
  }

  /** No unit `a` of `s` is directly followed by a unit `b`. */
  predicate NoPair(s: string, a: char, b: char) {
    forall k | 0 <= k < |s| - 1 :: !(s[k] == a && s[k + 1] == b)
  }

  /** Replacing the pair `pat` by a pair that can neither form nor complete
      an `a` `b` pair leaves no such pair: none remains when `pat` is that
      pair, and none is created otherwise. */
  lemma {:induction false} NoPairAfterReplace(s: string, pat: string, rep: string, a: char, b: char)
    requires |pat| == |rep| == 2 && a != b
    requires pat != [a, b] ==> NoPair(s, a, b)
    requires rep[0] != b && rep[1] != a && rep[1] != b
    ensures NoPair(Replace(s, pat, rep), a, b)
    decreases |s|
  {
    var r := Replace(s, pat, rep);
    if |s| < |pat| {
    } else if s[..|pat|] == pat {
      var r' := Replace(s[2..], pat, rep);
      NoPairAfterReplace(s[2..], pat, rep, a, b);
      assert r == rep + r';
      forall k | 0 <= k < |r| - 1
        ensures !(r[k] == a && r[k + 1] == b)
      {
        if k >= 2 {
          assert r[k] == r'[k - 2] && r[k + 1] == r'[k - 1];
        } else if k == 1 {
          assert r[k] == rep[1];
        } else {
          assert r[k + 1] == rep[1];
        }
      }
    } else {
      var r' := Replace(s[1..], pat, rep);
      NoPairAfterReplace(s[1..], pat, rep, a, b);
      ReplaceSameLength(s[1..], pat, rep);
      assert r == [s[0]] + r';
      assert !(s[0] == a && s[1] == b) by {
        assert s[..2] == [s[0], s[1]];
      }
      assert r'[0] == s[1] || r'[0] in rep;
      forall k | 0 <= k < |r| - 1
        ensures !(r[k] == a && r[k + 1] == b)
      {
        if k >= 1 {
          assert r[k] == r'[k - 1] && r[k + 1] == r'[k];
        }
      }
    }
  }

  /** Without an `a` `b` pair, the two-unit text `[a, b]` does not occur. */
  lemma NoPairAbsent(s: string, a: char, b: char)
    requires NoPair(s, a, b)
    ensures !Contains(s, [a, b])
  {
    forall k | 0 <= k <= |s| - 2
      ensures !OccursAt(s, [a, b], k)
    {
      assert s[k..k + 2][0] == s[k] && s[k..k + 2][1] == s[k + 1];
    }
  }

  /* ---------------- String.split ---------------- */

  /** The first index at or after `from` whose unit is in `delims`, or `|s|`. */
  function NextIn(s: string, delims: set<char>, from: nat): (r: nat)
    requires from <= |s|
    ensures from <= r <= |s|
    ensures forall k | from <= k < r :: s[k] !in delims
    ensures r < |s| ==> s[r] in delims
    decreases |s| - from
  {
    if from == |s| || s[from] in delims then from else NextIn(s, delims, from + 1)
  }

  /** The pieces of `s` between single delimiter units, empty pieces kept. */
  function Fields(s: string, delims: set<char>): (r: seq<string>)
    ensures |r| >= 1
    ensures forall j | 0 <= j < |r| :: forall k | 0 <= k < |r[j]| :: r[j][k] !in delims
    decreases |s|
  {
    var k := NextIn(s, delims, 0);
    if k == |s| then [s] else [s[..k]] + Fields(s[k + 1..], delims)
  }

  function DropTrailingEmpty(fs: seq<string>): (r: seq<string>)
    ensures |r| <= |fs| && r == fs[..|r|]
    ensures r == [] || r[|r| - 1] != []
    ensures forall j | |r| <= j < |fs| :: fs[j] == []
  {
    if fs == [] || fs[|fs| - 1] != [] then fs else DropTrailingEmpty(fs[..|fs| - 1])
  }

  /** String.split(regex) with limit 0, for a regex that is one character
      class: the input itself when no delimiter occurs, otherwise the fields
      with the trailing empty ones removed. */
  function Split(s: string, delims: set<char>): (r: seq<string>)
    ensures forall j | 0 <= j < |r| :: forall k | 0 <= k < |r[j]| :: r[j][k] !in delims
  {
    if NextIn(s, delims, 0) == |s| then [s] else DropTrailingEmpty(Fields(s, delims))
  }

  /** The delimiter units of `s`, in order. */
  function DelimUnits(s: string, delims: set<char>): (r: string)
    ensures forall k | 0 <= k < |r| :: r[k] in delims
    decreases |s|
  {
    if s == [] then [] else (if s[0] in delims then [s[0]] else []) + DelimUnits(s[1..], delims)
  }

  /** The pieces with one delimiter unit put back between each two. */
  function Interleave(fs: seq<string>, ds: string): string
    requires |fs| == |ds| + 1
    decreases |ds|
  {
    if ds == [] then fs[0] else fs[0] + [ds[0]] + Interleave(fs[1..], ds[1..])
  }

  lemma {:induction false} DelimUnitsAppend(a: string, b: string, delims: set<char>)
    ensures DelimUnits(a + b, delims) == DelimUnits(a, delims) + DelimUnits(b, delims)
    decreases |a|
  {
    if a == [] {
      assert a + b == b;
    } else {
      DelimUnitsAppend(a[1..], b, delims);
      assert (a + b)[1..] == a[1..] + b;
    }
  }

  lemma {:induction false} DelimUnitsNone(a: string, delims: set<char>)
    requires forall k | 0 <= k < |a| :: a[k] !in delims
    ensures DelimUnits(a, delims) == []
    decreases |a|
  {
    if a != [] {
      DelimUnitsNone(a[1..], delims);
    }
  }

  /** Cutting at the first delimiter: the text before it holds none, so the
      delimiter units are that one and those after it. */
  lemma DelimUnitsAtFirst(s: string, delims: set<char>)
    requires NextIn(s, delims, 0) < |s|
    ensures var k := NextIn(s, delims, 0);
      DelimUnits(s, delims) == [s[k]] + DelimUnits(s[k + 1..], delims)
  {
    var k := NextIn(s, delims, 0);
    assert s == s[..k] + ([s[k]] + s[k + 1..]);
    DelimUnitsAppend(s[..k], [s[k]] + s[k + 1..], delims);
    DelimUnitsAppend([s[k]], s[k + 1..], delims);
    DelimUnitsNone(s[..k], delims);
    assert [s[k]][1..] == [];
  }

  /** The first piece is the text up to the first delimiter. */
  lemma FieldsHead(s: string, delims: set<char>)
    ensures Fields(s, delims)[0] == s[..NextIn(s, delims, 0)]
  {
    assert s[..|s|] == s;
  }

  /** Fields past the first delimiter. */
  lemma FieldsCons(s: string, delims: set<char>)
    requires NextIn(s, delims, 0) < |s|
    ensures var k := NextIn(s, delims, 0);
      Fields(s, delims) == [s[..k]] + Fields(s[k + 1..], delims)
  {
  }

  /** Putting a piece and a delimiter in front of a rebuilt rest. */
  lemma InterleaveCons(a: string, c: char, fr: seq<string>, dr: string, rest: string)
    requires |fr| == |dr| + 1 && Interleave(fr, dr) == rest
    ensures Interleave([a] + fr, [c] + dr) == a + [c] + rest
  {
    assert ([a] + fr)[1..] == fr && ([c] + dr)[1..] == dr;
  }

  /** The text is its part before the first delimiter, that delimiter, and
      the part after it. */
  lemma CutAtFirst(s: string, delims: set<char>)
    requires NextIn(s, delims, 0) < |s|
    ensures var k := NextIn(s, delims, 0);
      s == s[..k] + [s[k]] + s[k + 1..]
  {
  }

  /** String.split gives one more piece than there are delimiter units. */
  lemma {:induction false} FieldsCount(s: string, delims: set<char>)
    ensures |Fields(s, delims)| == |DelimUnits(s, delims)| + 1
    decreases |s|
  {
    var k := NextIn(s, delims, 0);
    if k == |s| {
      DelimUnitsNone(s, delims);
    } else {
      FieldsCount(s[k + 1..], delims);
      DelimUnitsAtFirst(s, delims);
      FieldsCons(s, delims);
    }
  }

  /** String.split loses nothing but the delimiters: putting the delimiter
      units back between the pieces gives the text again. */
  lemma {:induction false} FieldsRebuild(s: string, delims: set<char>)
    ensures |Fields(s, delims)| == |DelimUnits(s, delims)| + 1
    ensures Interleave(Fields(s, delims), DelimUnits(s, delims)) == s
    decreases |s|
  {
    FieldsCount(s, delims);
    var k := NextIn(s, delims, 0);
    if k == |s| {
      DelimUnitsNone(s, delims);
    } else {
      var rest := s[k + 1..];
      FieldsRebuild(rest, delims);
      RebuildStep(s, delims);
    }
  }

  /** One step of the rebuild: the first piece, the first delimiter, and the
      rebuild of the rest. */
  lemma RebuildStep(s: string, delims: set<char>)
    requires NextIn(s, delims, 0) < |s|
    requires var rest := s[NextIn(s, delims, 0) + 1..];
      |Fields(rest, delims)| == |DelimUnits(rest, delims)| + 1 &&
      Interleave(Fields(rest, delims), DelimUnits(rest, delims)) == rest
    ensures |Fields(s, delims)| == |DelimUnits(s, delims)| + 1
    ensures Interleave(Fields(s, delims), DelimUnits(s, delims)) == s
  {
    var k := NextIn(s, delims, 0);
    var rest := s[k + 1..];
    var fr := Fields(rest, delims);
    var dr := DelimUnits(rest, delims);
    DelimUnitsAtFirst(s, delims);
    FieldsCons(s, delims);
    CutAtFirst(s, delims);
    InterleaveCons(s[..k], s[k], fr, dr, rest);
  }

  /** The pieces of String.split with limit 0: a text without a delimiter
      gives itself; otherwise the pieces are the leading pieces of Fields,
      every trailing empty piece is dropped, and no other piece is. */
  lemma SplitFields(s: string, delims: set<char>)
    ensures NextIn(s, delims, 0) == |s| ==> Split(s, delims) == [s]
    ensures |Split(s, delims)| <= |Fields(s, delims)|
    ensures Split(s, delims) == Fields(s, delims)[..|Split(s, delims)|]
    ensures forall j | |Split(s, delims)| <= j < |Fields(s, delims)| :: Fields(s, delims)[j] == []
    ensures NextIn(s, delims, 0) < |s| ==> Split(s, delims) == [] || Split(s, delims)[|Split(s, delims)| - 1] != []
  {
  }

  /** When every unit `c` of `s` is last or followed by `x`, a piece that
      follows a delimiter `c` is empty or starts with `x`. */
  lemma {:induction false} FieldAfterDelim(s: string, delims: set<char>, c: char, x: char)
    requires forall k | 0 <= k < |s| && s[k] == c :: k == |s| - 1 || s[k + 1] == x
    ensures |Fields(s, delims)| == |DelimUnits(s, delims)| + 1
    ensures forall j | 1 <= j < |Fields(s, delims)| && DelimUnits(s, delims)[j - 1] == c ::
              Fields(s, delims)[j] == [] || Fields(s, delims)[j][0] == x
    decreases |s|
  {
    FieldsRebuild(s, delims);
    var k := NextIn(s, delims, 0);
    if k < |s| {
      var rest := s[k + 1..];
      forall m | 0 <= m < |rest| && rest[m] == c
        ensures m == |rest| - 1 || rest[m + 1] == x
      {
        assert s[k + 1 + m] == c;
      }
      FieldAfterDelim(rest, delims, c, x);
      DelimUnitsAtFirst(s, delims);
      var fs := Fields(s, delims);
      var ds := DelimUnits(s, delims);
      assert fs == [s[..k]] + Fields(rest, delims);
      forall j | 1 <= j < |fs| && ds[j - 1] == c
        ensures fs[j] == [] || fs[j][0] == x
      {
        if j == 1 {
          FieldsHead(rest, delims);
          if rest != [] && NextIn(rest, delims, 0) > 0 {
            assert s[k] == c && s[k + 1] == x;
            assert fs[1][0] == rest[0] == s[k + 1];
          }
        } else {
          assert fs[j] == Fields(rest, delims)[j - 1];
          assert ds[j - 1] == DelimUnits(rest, delims)[j - 2];
        }
      }
    }
  }

  /** A blank text splits into blank pieces. */
  lemma {:induction false} FieldsBlank(s: string, delims: set<char>)
    requires IsBlank(s)
    ensures forall j | 0 <= j < |Fields(s, delims)| :: IsBlank(Fields(s, delims)[j])
    decreases |s|
  {
    var k := NextIn(s, delims, 0);
    if k < |s| {
      var rest := s[k + 1..];
      assert forall m | 0 <= m < |rest| :: rest[m] == s[k + 1 + m];
      FieldsBlank(rest, delims);
      var fs := Fields(s, delims);
      assert fs == [s[..k]] + Fields(rest, delims);
      forall j | 0 <= j < |fs|
        ensures IsBlank(fs[j])
      {
        if j > 0 {
          assert fs[j] == Fields(rest, delims)[j - 1];
        }
      }
    }
  }

  /* ---------------- String.split("\\s+") ---------------- */

  /** The first index at or after `from` that is not `\s`, or `|s|`. */
  function SkipSpace(s: string, from: nat): (r: nat)
    requires from <= |s|
    ensures from <= r <= |s|
    ensures forall k | from <= k < r :: IsRegexSpace(s[k])
    ensures r < |s| ==> !IsRegexSpace(s[r])
    decreases |s| - from
  {
    if from < |s| && IsRegexSpace(s[from]) then SkipSpace(s, from + 1) else from
  }

  /** The first index at or after `from` that is `\s`, or `|s|`. */
  function SkipWord(s: string, from: nat): (r: nat)
    requires from <= |s|
    ensures from <= r <= |s|
    ensures forall k | from <= k < r :: !IsRegexSpace(s[k])
    ensures r < |s| ==> IsRegexSpace(s[r])
    decreases |s| - from
  {
    if from < |s| && !IsRegexSpace(s[from]) then SkipWord(s, from + 1) else from
  }

  /** The maximal runs of non-`\s` units, in order. */
  function Tokens(s: string): (r: seq<string>)
    ensures forall j | 0 <= j < |r| :: |r[j]| > 0
    ensures forall j | 0 <= j < |r| :: forall k | 0 <= k < |r[j]| :: !IsRegexSpace(r[j][k])
    ensures r == [] <==> forall k | 0 <= k < |s| :: IsRegexSpace(s[k])
    decreases |s|
  {
    var a := SkipSpace(s, 0);
    if a == |s| then []
    else
      var b := SkipWord(s, a);
      var rest := Tokens(s[b..]);
      assert s[a] == s[a..b][0];
      [s[a..b]] + rest
  }

  /** String.split("\\s+"): the runs of non-`\s` units, preceded by one empty
      string when `s` starts with `\s`; a string of `\s` only gives no
      pieces, and the empty string gives one empty piece. */
  function Words(s: string): seq<string>
  {
    if s == [] then [[]]
    else if Tokens(s) == [] then []
    else (if IsRegexSpace(s[0]) then [[]] else []) + Tokens(s)
  }

  /** When the text does not start with `\s`, split("\\s+") yields exactly the
      runs, none of them empty. */
  lemma WordsAreTokens(s: string)
    requires |s| > 0 && !IsRegexSpace(s[0])
    ensures Words(s) == Tokens(s)
    ensures forall j | 0 <= j < |Words(s)| :: |Words(s)[j]| > 0
  {
  }

  /* ---------------- counting ---------------- */

  /** The number of units of `s` that lie in `cs`. */
  function Count(s: string, cs: set<char>): (n: nat)
    ensures n <= |s|
  {
    if s == [] then 0 else Count(s[..|s| - 1], cs) + (if s[|s| - 1] in cs then 1 else 0)
  }
}
