/** PdfParser.prepareSeg: before a paragraph is split at periods, every
    period that does not end a sentence (one followed by something other than
    whitespace, as in "2.5" or "e.g.x") is replaced by a marker, so that the
    split passes over it; segSentence later turns the marker back into a
    period. */
module PeriodGuard {
  import opened JavaText

  const Yang: char := '\U{6768}'
  const Shang: char := '\U{5C1A}'
  const Chuan: char := '\U{5DDD}'

  /** The marker that stands in for a protected period: three CJK
      ideographs (the author's name), taken not to occur in English text. */
  const Sentinel: string := [Yang, Shang, Chuan]

  /** The two rewrites prepareSeg starts with: ".)" and "!)" both become ". ". */
  function Rewrite(p: string): (r: string)
    ensures |r| == |p|
  {
    ReplaceSameLength(p, ".)", ". ");
    ReplaceSameLength(Replace(p, ".)", ". "), "!)", ". ");
    Replace(Replace(p, ".)", ". "), "!)", ". ")
  }

  /** After the rewrites no `.)` and no `!)` is left: every one has become
      `. `, and the new `. ` cannot complete another. */
  lemma RewriteNormalizes(p: string)
    ensures !Contains(Rewrite(p), ".)")
    ensures !Contains(Rewrite(p), "!)")
  {
    var a := Replace(p, ".)", ". ");
    NoPairAfterReplace(p, ".)", ". ", '.', ')');
    NoPairAfterReplace(a, "!)", ". ", '.', ')');
    NoPairAfterReplace(a, "!)", ". ", '!', ')');
    NoPairAbsent(Rewrite(p), '.', ')');
    NoPairAbsent(Rewrite(p), '!', ')');
  }

  /** A period at index `i` remains a sentence boundary when it is the last
      unit or the next unit is whitespace. */
  predicate Remains(t: string, i: nat)
    requires i < |t|
  {
    i == |t| - 1 || IsWhitespace(t[i + 1])
  }

  /** What the unit at index `i` becomes: a period that does not remain turns
      into the sentinel, every other unit stays. */
  function Expand(t: string, i: nat): string
    requires i < |t|
  {
    if t[i] == '.' && !Remains(t, i) then Sentinel else [t[i]]
  }

  /** The units of `t` from index `i` on, each expanded. */
  function ProtectFrom(t: string, i: nat): string
    requires i <= |t|
    decreases |t| - i
  {
    if i == |t| then [] else Expand(t, i) + ProtectFrom(t, i + 1)
  }

  /** The result of prepareSeg: the rewritten paragraph, and when it holds a
      period, trimmed and with its non-final periods protected. */
  function PrepareSeg(p: string): string
  {
    var q := Rewrite(p);
    if Contains(q, ".") then ProtectFrom(Trim(q), 0) else q
  }

  /** The `replace` of segSentence that turns markers back into periods. */
  function Restore(s: string): string
  {
    Replace(s, Sentinel, ".")
  }

  /** Every period of `s` is its last unit or is followed by whitespace. */
  predicate PeriodsSafe(s: string) {
    forall k | 0 <= k < |s| && s[k] == '.' :: k == |s| - 1 || IsWhitespace(s[k + 1])
  }

  /* ---------------- facts about the expansion ---------------- */

  /** The expansion of index `i` onwards starts with the expansion of
      index `i`'s first unit. */
  lemma ProtectHead(t: string, i: nat)
    requires i < |t|
    ensures |ProtectFrom(t, i)| > 0
    ensures ProtectFrom(t, i)[0] == if t[i] == '.' && !Remains(t, i) then Yang else t[i]
  {
  }

  /** A stretch without periods is copied as it is. */
  lemma {:induction false} ProtectNoPeriod(t: string, a: nat, b: nat)
    requires a <= b <= |t|
    requires forall k | a <= k < b :: t[k] != '.'
    ensures ProtectFrom(t, a) == t[a..b] + ProtectFrom(t, b)
    decreases b - a
  {
    if a < b {
      ProtectNoPeriod(t, a + 1, b);
      ProtectUnit(t, a);
      calc {
        ProtectFrom(t, a);
        [t[a]] + ProtectFrom(t, a + 1);
        [t[a]] + (t[a + 1..b] + ProtectFrom(t, b));
        ([t[a]] + t[a + 1..b]) + ProtectFrom(t, b);
        { assert t[a..b] == [t[a]] + t[a + 1..b]; }
        t[a..b] + ProtectFrom(t, b);
      }
    }
  }

  /** After the expansion, every period left is last or followed by
      whitespace. */
  lemma {:induction false} ProtectSafe(t: string, i: nat)
    requires i <= |t|
    ensures PeriodsSafe(ProtectFrom(t, i))
    decreases |t| - i
  {
    if i < |t| {
      ProtectSafe(t, i + 1);
      var e := Expand(t, i);
      var rest := ProtectFrom(t, i + 1);
      var r := e + rest;
      if i + 1 < |t| {
        ProtectHead(t, i + 1);
      }
      forall k | 0 <= k < |r| && r[k] == '.'
        ensures k == |r| - 1 || IsWhitespace(r[k + 1])
      {
        if k >= |e| {
          assert r[k] == rest[k - |e|];
          if k + 1 < |r| {
            assert r[k + 1] == rest[k + 1 - |e|];
          }
        } else {
          assert e == [t[i]] && t[i] == '.' && Remains(t, i);
          if i + 1 < |t| {
            assert r[k + 1] == rest[0];
          }
        }
      }
    }
  }

  /* ---------------- facts about the restoration ---------------- */

  lemma RestoreMarker(x: string)
    ensures Restore(Sentinel + x) == "." + Restore(x)
  {
    assert (Sentinel + x)[..3] == Sentinel;
    assert (Sentinel + x)[3..] == x;
  }

  lemma RestoreUnit(c: char, x: string)
    requires !StartsWith([c] + x, Sentinel)
    ensures Restore([c] + x) == [c] + Restore(x)
  {
    assert ([c] + x)[1..] == x;
    if |[c] + x| < 3 {
      assert Restore(x) == x;
    }
  }

  /** The first unit of a restored text: a period for a leading marker,
      otherwise the first unit itself. */
  lemma RestoreHead(x: string)
    requires |x| > 0
    ensures |Restore(x)| > 0
    ensures Restore(x)[0] == if StartsWith(x, Sentinel) then '.' else x[0]
  {
  }

  /** In a marker-free text, the expansion of an unprotected unit does not
      start a marker. */
  lemma ProtectNoMarker(t: string, i: nat)
    requires i < |t| && !Contains(t, Sentinel)
    requires !(t[i] == '.' && !Remains(t, i))
    ensures !StartsWith([t[i]] + ProtectFrom(t, i + 1), Sentinel)
  {
    var rest := ProtectFrom(t, i + 1);
    if StartsWith([t[i]] + rest, Sentinel) {
      MarkerUnits([t[i]] + rest);
      assert |rest| >= 2;
      ProtectHead(t, i + 1);
      ProtectUnit(t, i + 1);
      var rest2 := ProtectFrom(t, i + 2);
      assert |rest2| >= 1;
      ProtectHead(t, i + 2);
      MarkerAt(t, i);
    }
  }

  lemma MarkerUnits(w: string)
    requires StartsWith(w, Sentinel)
    ensures w[0] == Yang && w[1] == Shang && w[2] == Chuan
  {
    assert w[..3] == Sentinel;
  }

  lemma MarkerAt(t: string, i: nat)
    requires i + 2 < |t| && t[i] == Yang && t[i + 1] == Shang && t[i + 2] == Chuan
    ensures Contains(t, Sentinel)
  {
    assert t[i..i + 3] == Sentinel;
    assert OccursAt(t, Sentinel, i);
  }

  /** A unit other than a period is copied by the expansion. */
  lemma ProtectUnit(t: string, i: nat)
    requires i < |t| && t[i] != '.'
    ensures ProtectFrom(t, i) == [t[i]] + ProtectFrom(t, i + 1)
  {
  }

  /** Restoring the expansion of a marker-free text gives the text back. */
  lemma {:induction false} RestoreProtect(t: string, i: nat)
    requires i <= |t| && !Contains(t, Sentinel)
    ensures Restore(ProtectFrom(t, i)) == t[i..]
    decreases |t| - i
  {
    if i < |t| {
      RestoreProtect(t, i + 1);
      var rest := ProtectFrom(t, i + 1);
      if t[i] == '.' && !Remains(t, i) {
        RestoreMarker(rest);
      } else {
        ProtectNoMarker(t, i);
        RestoreUnit(t[i], rest);
      }
      assert t[i..] == [t[i]] + t[i + 1..];
    }
  }

  /** A marker-free text without periods is its own restoration. */
  lemma RestoreAbsent(s: string)
    requires !Contains(s, Sentinel) && !Contains(s, ".")
    ensures Restore(s) == s
  {
    assert "." == ['.'];
    ContainsSingle(s, '.');
    assert forall k | 0 <= k < |s| :: s[k] != '.';
    ProtectNoPeriod(s, 0, |s|);
    assert ProtectFrom(s, |s|) == [];
    assert s[0..|s|] == s && s[0..] == s;
    assert ProtectFrom(s, 0) == s;
    RestoreProtect(s, 0);
    assert Restore(ProtectFrom(s, 0)) == s;
  }

  /** No marker survives restoration. */
  lemma {:induction false} RestoreClean(s: string)
    ensures forall k :: !OccursAt(Restore(s), Sentinel, k)
    decreases |s|
  {
    if |s| < 3 {
      assert Restore(s) == s;
    } else if s[..3] == Sentinel {
      RestoreClean(s[3..]);
      assert Restore(s) == ['.'] + Restore(s[3..]);
      NoMarkerCons('.', Restore(s[3..]));
    } else {
      RestoreClean(s[1..]);
      assert Restore(s) == [s[0]] + Restore(s[1..]);
      if s[0] == Yang {
        NoBridge(s);
      }
      NoMarkerCons(s[0], Restore(s[1..]));
    }
  }

  /** A unit put in front of a marker-free text starts a marker only when it
      is the first unit of the marker and the text starts with the other two. */
  lemma NoMarkerCons(c: char, r: string)
    requires forall k :: !OccursAt(r, Sentinel, k)
    requires c == Yang ==> !(|r| >= 2 && r[0] == Shang && r[1] == Chuan)
    ensures forall k :: !OccursAt([c] + r, Sentinel, k)
  {
    var w := [c] + r;
    forall k
      ensures !OccursAt(w, Sentinel, k)
    {
      if 0 < k && k + 3 <= |w| {
        assert w[k..k + 3] == r[k - 1..k + 2];
        assert !OccursAt(r, Sentinel, k - 1);
      } else if k == 0 && 3 <= |w| {
        assert w[..3] == [c, r[0], r[1]];
      }
    }
  }

  /** A text that starts with the marker's first unit but not the marker
      does not restore to one whose tail starts with the other two units. */
  lemma NoBridge(s: string)
    requires |s| >= 3 && s[..3] != Sentinel && s[0] == Yang
    ensures var r := Restore(s[1..]); !(|r| >= 2 && r[0] == Shang && r[1] == Chuan)
  {
    RestoreHead(s[1..]);
    if s[1] == Shang {
      assert s[1..][0] == Shang;
      assert !StartsWith(s[1..], Sentinel);
      assert s[1..] == [s[1]] + s[2..];
      RestoreUnit(s[1], s[2..]);
      RestoreHead(s[2..]);
      assert s[..3] == [Yang, Shang, s[2]];
    }
  }

  /** The last unit of a restored text: a period when the text ends with a
      marker, otherwise the last unit itself. */
  lemma {:induction false} RestoreLast(x: string)
    requires |x| > 0
    ensures |Restore(x)| > 0
    ensures Restore(x)[|Restore(x)| - 1] == if EndsWith(x, Sentinel) then '.' else x[|x| - 1]
    decreases |x|
  {
    if |x| < 3 {
    } else if x[..3] == Sentinel {
      assert x[0] == Yang && x[1] == Shang && x[2] == Chuan;
      if |x| == 3 {
        assert x == Sentinel && x[3..] == [];
        assert Restore(x) == "." + Restore([]);
        assert x[0..] == x;
      } else {
        RestoreLast(x[3..]);
        if |x| < 6 {
          assert !EndsWith(x, Sentinel) by {
            assert x[|x| - 3] != Yang;
          }
        } else {
          assert x[3..][|x| - 6..] == x[|x| - 3..];
        }
      }
    } else {
      RestoreLast(x[1..]);
      if |x| == 3 {
        assert !EndsWith(x, Sentinel);
      } else {
        assert x[1..][|x| - 4..] == x[|x| - 3..];
      }
    }
  }

  /* ---------------- prepareSeg ---------------- */

  /** The rewrites and the trim never create a marker. */
  lemma RewriteKeepsAbsence(p: string)
    requires !Contains(p, Sentinel)
    ensures !Contains(Rewrite(p), Sentinel)
    ensures !Contains(Trim(Rewrite(p)), Sentinel)
  {
    ReplaceKeepsAbsence(p, ".)", ". ", Sentinel);
    ReplaceKeepsAbsence(Replace(p, ".)", ". "), "!)", ". ", Sentinel);
    TrimKeepsAbsence(Rewrite(p), Sentinel);
  }

  /** prepareSeg round trip: for a paragraph without the marker, restoring
      the markers gives back the rewritten paragraph, trimmed when it held a
      period. */
  lemma PrepareSegRoundTrip(p: string)
    requires !Contains(p, Sentinel)
    ensures Contains(Rewrite(p), ".") ==> Restore(PrepareSeg(p)) == Trim(Rewrite(p))
    ensures !Contains(Rewrite(p), ".") ==> Restore(PrepareSeg(p)) == Rewrite(p)
  {
    RewriteKeepsAbsence(p);
    if Contains(Rewrite(p), ".") {
      RestoreProtect(Trim(Rewrite(p)), 0);
    } else {
      RestoreAbsent(Rewrite(p));
    }
  }

  /** Every period prepareSeg leaves in place ends a sentence: it is last or
      followed by whitespace. */
  lemma PrepareSegPeriods(p: string)
    ensures PeriodsSafe(PrepareSeg(p))
  {
    var q := Rewrite(p);
    if Contains(q, ".") {
      ProtectSafe(Trim(q), 0);
    } else {
      ContainsSingle(q, '.');
    }
  }

  /** Whitespace other than the space occurs in `s` at most at index 0. */
  predicate SpaceOnlyAfterFirst(s: string) {
    forall k | 1 <= k < |s| :: IsWhitespace(s[k]) ==> s[k] == ' '
  }

  /** Every period of `s` is its last unit or is followed by a space. */
  predicate PeriodsSpaced(s: string) {
    forall k | 0 <= k < |s| && s[k] == '.' :: k == |s| - 1 || s[k + 1] == ' '
  }

  /** The rewrites bring in only a period and a space. */
  lemma RewriteSpaces(p: string)
    requires SpaceOnlyAfterFirst(p)
    ensures SpaceOnlyAfterFirst(Rewrite(p))
  {
    var a := Replace(p, ".)", ". ");
    ReplaceSameLength(p, ".)", ". ");
    ReplaceSameLength(a, "!)", ". ");
  }

  /** Trimming keeps index 0 or cuts it: no later unit moves to index 0 that
      was not at index 1 or beyond. */
  lemma TrimSpaces(t: string)
    requires SpaceOnlyAfterFirst(t)
    ensures SpaceOnlyAfterFirst(Trim(t))
  {
    TrimSpec(t);
    var st := TrimStart(t);
    forall k | 1 <= k < |Trim(t)|
      ensures IsWhitespace(Trim(t)[k]) ==> Trim(t)[k] == ' '
    {
      assert Trim(t)[k] == t[st + k];
    }
  }

  /** The expansion copies units and adds markers, which are not whitespace,
      so it keeps SpaceOnlyAfterFirst. */
  lemma {:induction false} ProtectSpaces(t: string, i: nat)
    requires i <= |t|
    requires forall k | i < k < |t| :: IsWhitespace(t[k]) ==> t[k] == ' '
    ensures SpaceOnlyAfterFirst(ProtectFrom(t, i))
    decreases |t| - i
  {
    if i < |t| {
      ProtectSpaces(t, i + 1);
      var e := Expand(t, i);
      var rest := ProtectFrom(t, i + 1);
      var r := e + rest;
      if i + 1 < |t| {
        ProtectHead(t, i + 1);
      }
      forall k | 1 <= k < |r|
        ensures IsWhitespace(r[k]) ==> r[k] == ' '
      {
        if k >= |e| {
          assert r[k] == rest[k - |e|];
        } else {
          assert e == Sentinel && r[k] == Sentinel[k];
        }
      }
    }
  }

  /** When whitespace after index 0 is only ever a space, as in a paragraph
      whose later units are all legal, every period prepareSeg leaves in place
      is last or followed by a space. */
  lemma PrepareSegSpaced(p: string)
    requires SpaceOnlyAfterFirst(p)
    ensures PeriodsSpaced(PrepareSeg(p))
  {
    var q := Rewrite(p);
    RewriteSpaces(p);
    if Contains(q, ".") {
      var t := Trim(q);
      TrimSpaces(q);
      ProtectSpaces(t, 0);
      ProtectSafe(t, 0);
    } else {
      ContainsSingle(q, '.');
    }
  }

  /** One period found by the scan: the stretch before it is copied, and the
      period is kept when it remains a boundary and replaced by the marker
      otherwise. */
  lemma ScanStep(p: string, last: nat, index: nat)
    requires last <= index < |p| && p[index] == '.'
    requires forall k | last <= k < index :: p[k] != '.'
    ensures Remains(p, index) ==> ProtectFrom(p, last) == p[last..index + 1] + ProtectFrom(p, index + 1)
    ensures !Remains(p, index) ==> ProtectFrom(p, last) == p[last..index] + Sentinel + ProtectFrom(p, index + 1)
  {
    ProtectNoPeriod(p, last, index);
    var tail := ProtectFrom(p, index + 1);
    var head := p[last..index];
    assert ProtectFrom(p, index) == Expand(p, index) + tail;
    assert ProtectFrom(p, last) == head + (Expand(p, index) + tail);
    if Remains(p, index) {
      assert Expand(p, index) == ".";
      calc {
        head + (Expand(p, index) + tail);
        (head + ".") + tail;
        { assert p[last..index + 1] == head + "."; }
        p[last..index + 1] + tail;
      }
    } else {
      assert Expand(p, index) == Sentinel;
      assert head + (Sentinel + tail) == head + Sentinel + tail;
    }
  }

  /** The scan's accumulated output after one more period. */
  lemma ScanData(p: string, last: nat, index: nat, data: string)
    requires last <= index < |p| && p[index] == '.'
    requires forall k | last <= k < index :: p[k] != '.'
    requires data + ProtectFrom(p, last) == ProtectFrom(p, 0)
    ensures Remains(p, index) ==> (data + p[last..index + 1]) + ProtectFrom(p, index + 1) == ProtectFrom(p, 0)
    ensures !Remains(p, index) ==> (data + p[last..index] + Sentinel) + ProtectFrom(p, index + 1) == ProtectFrom(p, 0)
  {
    ScanStep(p, last, index);
    var tail := ProtectFrom(p, index + 1);
    if Remains(p, index) {
      assert data + p[last..index + 1] + tail == data + (p[last..index + 1] + tail);
    } else {
      assert data + p[last..index] + Sentinel + tail == data + (p[last..index] + Sentinel + tail);
    }
  }

  /** The body of prepareSeg's loop at one period: the text since the
      previous period is copied, and the period itself is kept when it is
      last or followed by whitespace and replaced by the marker otherwise. */
  method ScanPeriod(p: string, last: nat, index: nat, data0: string) returns (data: string)
    requires last <= index < |p| && p[index] == '.'
    requires forall k | last <= k < index :: p[k] != '.'
    requires data0 + ProtectFrom(p, last) == ProtectFrom(p, 0)
    ensures data + ProtectFrom(p, index + 1) == ProtectFrom(p, 0)
  {
    var remain := false;
    if index + 1 < |p| {
      if IsWhitespace(p[index + 1]) {
        remain := true;
      }
    }
    if index == |p| - 1 {
      remain := true;
    }
    assert remain == Remains(p, index);
    ScanData(p, last, index, data0);
    if !remain {
      data := data0 + p[last..index] + Sentinel;
    } else {
      data := data0 + p[last..index + 1];
    }
  }

  /** `paragraph.indexOf(".", from)`: the first period at or after `from`,
      or -1 when there is none. */
  method NextPeriod(p: string, from: nat) returns (index: int)
    ensures index == -1 || (from <= index < |p| && p[index] == '.')
    ensures forall k | from <= k < |p| && (index == -1 || k < index) :: p[k] != '.'
  {
    index := IndexOf(p, ".", from);
    IndexOfUnit(p, '.', from);
  }

  /** The loop of PdfParser.prepareSeg: from period to period with
      String.indexOf, copying the text between and deciding each period. */
  method ProtectScan(p: string) returns (data: string)
    ensures data == ProtectFrom(p, 0)
  {
    data := "";
    var last := 0;
    var index := NextPeriod(p, 0);
    while index >= 0
      invariant 0 <= last <= |p|
      invariant index == -1 || (last <= index < |p| && p[index] == '.')
      invariant forall k | last <= k < |p| && (index == -1 || k < index) :: p[k] != '.'
      invariant data + ProtectFrom(p, last) == ProtectFrom(p, 0)
      decreases |p| - last
    {
      data := ScanPeriod(p, last, index, data);
      last := index + 1;
      index := NextPeriod(p, last);
    }
    ProtectNoPeriod(p, last, |p|);
    if last < |p| {
      data := data + p[last..];
    } else {
      assert p[last..] == [];
    }
  }

  /** PdfParser.prepareSeg as the Java code runs it: the two rewrites, then
      the period scan when the paragraph holds a period. */
  method PrepareSegScan(paragraph: string) returns (r: string)
    ensures r == PrepareSeg(paragraph)
    ensures PeriodsSafe(r)
    ensures !Contains(paragraph, Sentinel) && Contains(Rewrite(paragraph), ".") ==>
              Restore(r) == Trim(Rewrite(paragraph))
    ensures !Contains(paragraph, Sentinel) && !Contains(Rewrite(paragraph), ".") ==>
              Restore(r) == Rewrite(paragraph)
  {
    var p := Replace(paragraph, ".)", ". ");
    p := Replace(p, "!)", ". ");
    IndexOfContains(p, ".");
    if IndexOf(p, ".", 0) >= 0 {
      p := Trim(p);
      r := ProtectScan(p);
    } else {
      r := p;
    }
    PrepareSegPeriods(paragraph);
    if !Contains(paragraph, Sentinel) {
      PrepareSegRoundTrip(paragraph);
    }
  }
}
