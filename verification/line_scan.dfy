/** The line scan of PdfParser.toSentence: each line is trimmed, a blank line
    ends the paragraph, a line ending in a dash is joined to the next
    non-blank line, and numeric headings are dropped. */
module LineScan {
  import opened JavaText
  import opened Optional
  import opened Environment

  /** The units `toSentence` tests `line.endsWith` against: the ASCII
      hyphen-minus and U+2010..U+2015. */
  const Dashes: set<char> := {'-', '\U{2010}', '\U{2011}', '\U{2012}', '\U{2013}', '\U{2014}', '\U{2015}'}

  predicate EndsWithDash(line: string) {
    |line| > 0 && line[|line| - 1] in Dashes
  }

  /** PdfParser.paragraphFinish: a blank line ends the paragraph. */
  predicate ParagraphFinish(line: string) {
    IsBlank(line)
  }

  /** What the joins over lines[a..b] add to the length: each non-blank
      trimmed line adds its length and removes the one dash it replaces. */
  function JoinGain(lines: seq<string>, a: nat, b: nat): int
    requires a <= b <= |lines|
    decreases b - a
  {
    if a == b then 0
    else (if IsBlank(Trim(lines[a])) then 0 else |Trim(lines[a])| - 1) + JoinGain(lines, a + 1, b)
  }

  /** The hyphen loop of toSentence, started at line `i` whose trimmed text is
      `line`: the joined line, and the index of the last line it consumed. */
  function Dehyphenate(lines: seq<string>, line: string, i: nat): (r: (string, nat))
    requires i < |lines|
    ensures i <= r.1 < |lines|
    ensures EndsWithDash(r.0) ==> r.1 + 1 == |lines|
    ensures !EndsWithDash(line) ==> r == (line, i)
    decreases |lines| - i
  {
    if EndsWithDash(line) && i + 1 < |lines| then
      var n := Trim(lines[i + 1]);
      Dehyphenate(lines, if !IsBlank(n) then line[..|line| - 1] + n else line, i + 1)
    else
      (line, i)
  }

  /** The length of the joined line: the line's own length plus, for each
      consumed non-blank line, its trimmed length less the one dash it
      replaces. */
  lemma {:induction false} DehyphenateLength(lines: seq<string>, line: string, i: nat)
    requires i < |lines|
    ensures |Dehyphenate(lines, line, i).0| == |line| + JoinGain(lines, i + 1, Dehyphenate(lines, line, i).1 + 1)
    decreases |lines| - i
  {
    if EndsWithDash(line) && i + 1 < |lines| {
      var n := Trim(lines[i + 1]);
      DehyphenateLength(lines, if !IsBlank(n) then line[..|line| - 1] + n else line, i + 1);
    }
  }

  /** Joining never loses text: everything before the dash of a
      dash-terminated line survives, in place, at the start of the result. */
  lemma {:induction false} DehyphenatePrefix(lines: seq<string>, line: string, i: nat)
    requires i < |lines| && EndsWithDash(line)
    ensures |Dehyphenate(lines, line, i).0| >= |line| - 1
    ensures Dehyphenate(lines, line, i).0[..|line| - 1] == line[..|line| - 1]
    decreases |lines| - i
  {
    if i + 1 < |lines| {
      var n := Trim(lines[i + 1]);
      var line' := if !IsBlank(n) then line[..|line| - 1] + n else line;
      assert |line'| >= |line| && line'[..|line| - 1] == line[..|line| - 1];
      if EndsWithDash(line') {
        DehyphenatePrefix(lines, line', i + 1);
        var r := Dehyphenate(lines, line', i + 1).0;
        assert r[..|line| - 1] == r[..|line'| - 1][..|line| - 1];
      }
    }
  }

  /** Text in front of the line plays no part in the joins: they act only on
      the end of the line. */
  lemma {:induction false} DehyphenateUnderPrefix(lines: seq<string>, u: string, x: string, j: nat)
    requires j < |lines| && |x| > 0
    ensures Dehyphenate(lines, u + x, j) == (u + Dehyphenate(lines, x, j).0, Dehyphenate(lines, x, j).1)
    decreases |lines| - j
  {
    assert (u + x)[|u + x| - 1] == x[|x| - 1];
    if EndsWithDash(x) && j + 1 < |lines| {
      var n := Trim(lines[j + 1]);
      if !IsBlank(n) {
        assert (u + x)[..|u + x| - 1] + n == u + (x[..|x| - 1] + n);
        DehyphenateUnderPrefix(lines, u, x[..|x| - 1] + n, j + 1);
      } else {
        DehyphenateUnderPrefix(lines, u, x, j + 1);
      }
    }
  }

  /** A dash-terminated line followed by a non-blank line loses its dash and
      gains the whole trimmed next line with no space between; the joins then
      go on from that next line as if it started the line. */
  lemma DehyphenateJoin(lines: seq<string>, line: string, i: nat)
    requires i + 1 < |lines| && EndsWithDash(line) && !IsBlank(Trim(lines[i + 1]))
    ensures var d := Dehyphenate(lines, Trim(lines[i + 1]), i + 1);
      Dehyphenate(lines, line, i) == (line[..|line| - 1] + d.0, d.1)
  {
    var n := Trim(lines[i + 1]);
    DehyphenateUnderPrefix(lines, line[..|line| - 1], n, i + 1);
  }

  /** The `while` loop of toSentence that removes line-end dashes, as the Java
      code runs it: every pass consumes one more line or stops. */
  method JoinHyphenated(lines: seq<string>, line0: string, i0: nat) returns (line: string, i: nat)
    requires i0 < |lines|
    ensures (line, i) == Dehyphenate(lines, line0, i0)
    ensures i0 <= i < |lines|
    ensures EndsWithDash(line) ==> i + 1 == |lines|
  {
    line, i := line0, i0;
    while EndsWithDash(line)
      invariant i0 <= i < |lines|
      invariant Dehyphenate(lines, line, i) == Dehyphenate(lines, line0, i0)
      decreases |lines| - i
    {
      if i + 1 < |lines| {
        var pre := line[..|line| - 1];
        var n := Trim(lines[i + 1]);
        if !IsBlank(n) {
          line := pre + n;
        }
        i := i + 1;
      } else {
        break;
      }
    }
  }

  /** A dash-terminated line followed by a blank line is left as it is and the
      blank line is consumed: the join continues with the line after it. */
  lemma DehyphenateSkipsBlank(lines: seq<string>, line: string, i: nat)
    requires i + 1 < |lines| && EndsWithDash(line) && IsBlank(Trim(lines[i + 1]))
    ensures Dehyphenate(lines, line, i) == Dehyphenate(lines, line, i + 1)
    ensures Dehyphenate(lines, line, i).1 > i + 1 || i + 2 == |lines|
  {
  }

  /** The numeric-heading test of addLineToParagraph: the line starts with a
      digit and ends alphabetic, and the next line is blank or starts with a
      digit or an upper-case character. */
  predicate IsNumericHeading(env: Env, line: string, nextLine: string)
    requires |line| > 0
  {
    && env.IsDigit(line[0])
    && env.IsAlphabetic(line[|line| - 1])
    && (IsBlank(nextLine) || env.IsDigit(nextLine[0]) || env.IsUpperCase(nextLine[0]))
  }

  /** PdfParser.addLineToParagraph: the paragraph grows by the line and one
      space, unless the line is blank or is a numeric heading; the heading
      rule applies only when there is a next line. The growth condition is
      what LastLineNeverHeading and PlainParagraphs build on. */
  function AddLineToParagraph(env: Env, line: string, nextLine: Option<string>, paragraph: string): (r: string)
    ensures r == paragraph || r == paragraph + line + " "
    ensures r == paragraph + line + " " <==>
              !IsBlank(line) && (nextLine.None? || !IsNumericHeading(env, line, nextLine.value))
  {
    if IsBlank(line) then paragraph
    else if nextLine.Some? && IsNumericHeading(env, line, nextLine.value) then paragraph
    else paragraph + line + " "
  }

  predicate IsTrimmed(p: string) {
    Trim(p) == p
  }

  /** The last line of the text is never dropped as a heading. */
  lemma LastLineNeverHeading(env: Env, line: string, paragraph: string)
    requires !IsBlank(line)
    ensures AddLineToParagraph(env, line, None, paragraph) == paragraph + line + " "
  {
  }

  /** One pass of toSentence's `for` loop at line `i` with `acc` accumulated:
      the paragraphs it flushes (the trimmed accumulation, if line `i` is
      blank), the index the next pass starts at, and the new accumulation. */
  function Step(env: Env, lines: seq<string>, i: nat, acc: string): (r: (seq<string>, nat, string))
    requires i < |lines|
    ensures i < r.1 <= |lines|
    ensures r.0 == [] || r.0 == [Trim(acc)]
    ensures SpaceTerminated(acc) ==> SpaceTerminated(r.2)
  {
    var line := Trim(lines[i]);
    var finish := ParagraphFinish(line);
    var acc' := if finish then [] else acc;
    var joined := Dehyphenate(lines, line, i);
    var next := if joined.1 + 1 < |lines| then Some(Trim(lines[joined.1 + 1])) else None;
    (if finish then [Trim(acc)] else [], joined.1 + 1, AddLineToParagraph(env, joined.0, next, acc'))
  }

  /** The parts of one pass of toSentence's loop. */
  lemma StepParts(env: Env, lines: seq<string>, i: nat, acc: string)
    requires i < |lines|
    ensures var line := Trim(lines[i]);
      var joined := Dehyphenate(lines, line, i);
      var next := if joined.1 + 1 < |lines| then Some(Trim(lines[joined.1 + 1])) else None;
      && Step(env, lines, i, acc).0 == (if ParagraphFinish(line) then [Trim(acc)] else [])
      && Step(env, lines, i, acc).1 == joined.1 + 1
      && Step(env, lines, i, acc).2
         == AddLineToParagraph(env, joined.0, next, if ParagraphFinish(line) then [] else acc)
  {
  }

  /** The paragraphs toSentence passes to `process`, in order, when the scan is
      at line `i` with `acc` accumulated: every blank line flushes the trimmed
      accumulation, and the end of the text flushes it untrimmed. */
  function ScanFrom(env: Env, lines: seq<string>, i: nat, acc: string): (r: seq<string>)
    requires i <= |lines|
    ensures |r| >= 1
    decreases |lines| - i
  {
    if i == |lines| then [acc]
    else
      var step := Step(env, lines, i, acc);
      step.0 + ScanFrom(env, lines, step.1, step.2)
  }

  /** Every paragraph the scan flushes at a blank line is trimmed; only the
      final flush may not be. */
  lemma {:induction false} ScanFromTrimmed(env: Env, lines: seq<string>, i: nat, acc: string)
    requires i <= |lines|
    ensures var r := ScanFrom(env, lines, i, acc); forall j | 0 <= j < |r| - 1 :: IsTrimmed(r[j])
    decreases |lines| - i
  {
    if i < |lines| {
      var step := Step(env, lines, i, acc);
      ScanFromTrimmed(env, lines, step.1, step.2);
      ScanFromUnfold(env, lines, i, acc);
      TrimIdempotent(acc);
      TrimmedPrefix(step.0, ScanFrom(env, lines, step.1, step.2));
    }
  }

  /** Trimmed paragraphs in front keep every paragraph but the last trimmed. */
  lemma TrimmedPrefix(a: seq<string>, rest: seq<string>)
    requires forall j | 0 <= j < |a| :: IsTrimmed(a[j])
    requires forall j | 0 <= j < |rest| - 1 :: IsTrimmed(rest[j])
    requires |rest| >= 1
    ensures forall j | 0 <= j < |a + rest| - 1 :: IsTrimmed((a + rest)[j])
  {
    forall j | 0 <= j < |a + rest| - 1
      ensures IsTrimmed((a + rest)[j])
    {
      if j >= |a| {
        assert (a + rest)[j] == rest[j - |a|];
      }
    }
  }

  /** The paragraphs of a whole text, already split into lines. */
  function Paragraphs(env: Env, lines: seq<string>): seq<string>
  {
    ScanFrom(env, lines, 0, [])
  }

  /** An accumulation that is empty or ends with a space. */
  predicate SpaceTerminated(p: string) {
    p == [] || p[|p| - 1] == ' '
  }

  /** The final flush is not trimmed: the last paragraph keeps the space that
      follows its last line. */
  lemma {:induction false} FinalFlushUntrimmed(env: Env, lines: seq<string>, i: nat, acc: string)
    requires i <= |lines| && SpaceTerminated(acc)
    ensures SpaceTerminated(ScanFrom(env, lines, i, acc)[|ScanFrom(env, lines, i, acc)| - 1])
    decreases |lines| - i
  {
    if i < |lines| {
      var step := Step(env, lines, i, acc);
      FinalFlushUntrimmed(env, lines, step.1, step.2);
      var rest := ScanFrom(env, lines, step.1, step.2);
      ScanFromUnfold(env, lines, i, acc);
      assert (step.0 + rest)[|step.0 + rest| - 1] == rest[|rest| - 1];
    }
  }

  /** A blank line ends the paragraph: the trimmed accumulation is flushed and
      the scan goes on from an empty paragraph. */
  lemma BlankLineFlushes(env: Env, lines: seq<string>, i: nat, acc: string)
    requires i < |lines| && IsBlank(Trim(lines[i]))
    ensures ScanFrom(env, lines, i, acc) == [Trim(acc)] + ScanFrom(env, lines, i + 1, [])
  {
    var line := Trim(lines[i]);
    assert line == [] || IsWhitespace(line[|line| - 1]);
    assert !EndsWithDash(line);
    assert Step(env, lines, i, acc) == ([Trim(acc)], i + 1, []);
  }

  /** A dash before a blank line still joins: the blank line is skipped
      without ending the paragraph, and the word is rebuilt from the lines
      on either side of it. */
  lemma HyphenBridgesBlankLine(env: Env)
    ensures Paragraphs(env, ["a-", "", "b."]) == ["ab. "]
  {
    var lines := ["a-", "", "b."];
    TrimOf("a-");
    TrimOf("b.");
    assert Trim(lines[1]) == "";
    assert Dehyphenate(lines, "a-", 0) == Dehyphenate(lines, "a-", 1);
    assert "a-"[..1] + "b." == "ab.";
    assert Dehyphenate(lines, "a-", 1) == Dehyphenate(lines, "ab.", 2);
    assert Dehyphenate(lines, "a-", 0) == ("ab.", 2);
    assert !ParagraphFinish(Trim(lines[0])) && !IsBlank("ab.");
    LastLineNeverHeading(env, "ab.", []);
    assert AddLineToParagraph(env, "ab.", None, []) == "ab. ";
    assert Step(env, lines, 0, []).0 == [];
    assert Step(env, lines, 0, []).1 == 3;
    assert Step(env, lines, 0, []).2 == "ab. ";
  }

  /** A line with no unit at or below U+0020 at either end is its own trim. */
  lemma TrimOf(s: string)
    requires |s| > 0 && s[0] > ' ' && s[|s| - 1] > ' '
    ensures Trim(s) == s
  {
  }

  /* ---------------- a reference for plain text ---------------- */

  /** The lines of a block, each followed by one space. */
  function Joined(ls: seq<string>): string
  {
    if ls == [] then [] else ls[0] + " " + Joined(ls[1..])
  }

  /** Appending a line and then the rest of its block is appending the block. */
  lemma JoinedCons(acc: string, line: string, ls: seq<string>)
    ensures (acc + line + " ") + Joined(ls) == acc + Joined([line] + ls)
  {
    assert ([line] + ls)[1..] == ls;
  }

  /** The trimmed lines grouped into blocks separated by blank lines. */
  function Blocks(ls: seq<string>): (bs: seq<seq<string>>)
    ensures |bs| >= 1
  {
    if ls == [] then [[]]
    else if IsBlank(ls[0]) then [[]] + Blocks(ls[1..])
    else
      var bs := Blocks(ls[1..]);
      [[ls[0]] + bs[0]] + bs[1..]
  }

  /** One paragraph per block, the first one continuing `acc`; every paragraph
      but the last is trimmed. */
  function Flush(acc: string, bs: seq<seq<string>>): seq<string>
    requires |bs| >= 1
    decreases |bs|
  {
    if |bs| == 1 then [acc + Joined(bs[0])]
    else [Trim(acc + Joined(bs[0]))] + Flush([], bs[1..])
  }

  function TrimAll(lines: seq<string>): (r: seq<string>)
    ensures |r| == |lines|
    ensures forall j | 0 <= j < |lines| :: r[j] == Trim(lines[j])
  {
    if lines == [] then [] else [Trim(lines[0])] + TrimAll(lines[1..])
  }

  /** A trimmed line that neither ends with a dash nor starts with a digit. */
  predicate Plain(env: Env, line: string) {
    !EndsWithDash(line) && (|line| > 0 ==> !env.IsDigit(line[0]))
  }

  /** One pass over a plain line consumes just that line and appends it. */
  lemma PlainStep(env: Env, lines: seq<string>, i: nat, acc: string)
    requires i < |lines| && Plain(env, Trim(lines[i]))
    ensures var line := Trim(lines[i]);
      Step(env, lines, i, acc) ==
        if IsBlank(line) then ([Trim(acc)], i + 1, []) else ([], i + 1, acc + line + " ")
  {
    var line := Trim(lines[i]);
    StepParts(env, lines, i, acc);
    assert Dehyphenate(lines, line, i) == (line, i);
    var acc' := if ParagraphFinish(line) then [] else acc;
    var next := if i + 1 < |lines| then Some(Trim(lines[i + 1])) else None;
    if !IsBlank(line) {
      assert next.Some? ==> !IsNumericHeading(env, line, next.value);
    }
  }

  /** Blocks of a text that starts with a blank line, and of one that starts
      with a line of text. */
  lemma BlocksCons(line: string, ls: seq<string>)
    ensures IsBlank(line) ==> Blocks([line] + ls) == [[]] + Blocks(ls)
    ensures !IsBlank(line) ==> Blocks([line] + ls) == [[line] + Blocks(ls)[0]] + Blocks(ls)[1..]
  {
    assert ([line] + ls)[1..] == ls;
  }

  /** A scan that has not reached the end unfolds into one pass and the rest. */
  lemma ScanFromUnfold(env: Env, lines: seq<string>, i: nat, acc: string)
    requires i < |lines|
    ensures var step := Step(env, lines, i, acc);
      ScanFrom(env, lines, i, acc) == step.0 + ScanFrom(env, lines, step.1, step.2)
  {
  }

  /** Without dashes at line ends and without digit-initial lines, the scan is
      plain paragraph assembly: the trimmed lines grouped at blank lines, each
      line followed by one space. */
  lemma {:induction false} PlainScan(env: Env, lines: seq<string>, i: nat, acc: string)
    requires i <= |lines|
    requires forall j | i <= j < |lines| :: Plain(env, Trim(lines[j]))
    ensures ScanFrom(env, lines, i, acc) == Flush(acc, Blocks(TrimAll(lines[i..])))
    decreases |lines| - i, 1
  {
    var ls := TrimAll(lines[i..]);
    if i == |lines| {
      assert ls == [];
      assert Flush(acc, Blocks(ls)) == [acc + Joined([])];
      assert acc + Joined([]) == acc;
    } else if IsBlank(Trim(lines[i])) {
      PlainScanBlank(env, lines, i, acc);
    } else {
      PlainScanText(env, lines, i, acc);
    }
  }

  lemma {:induction false} PlainScanBlank(env: Env, lines: seq<string>, i: nat, acc: string)
    requires i < |lines| && IsBlank(Trim(lines[i]))
    requires forall j | i <= j < |lines| :: Plain(env, Trim(lines[j]))
    ensures ScanFrom(env, lines, i, acc) == Flush(acc, Blocks(TrimAll(lines[i..])))
    decreases |lines| - i, 0
  {
    var line := Trim(lines[i]);
    var rest := TrimAll(lines[i + 1..]);
    assert TrimAll(lines[i..]) == [line] + rest by {
      assert lines[i..][1..] == lines[i + 1..];
    }
    BlankLineFlushes(env, lines, i, acc);
    PlainScan(env, lines, i + 1, []);
    BlocksCons(line, rest);
    var bs := Blocks(rest);
    assert Joined([]) == [] && acc + [] == acc;
    assert ([[]] + bs)[1..] == bs;
    assert Flush(acc, [[]] + bs) == [Trim(acc)] + Flush([], bs);
  }

  lemma {:induction false} PlainScanText(env: Env, lines: seq<string>, i: nat, acc: string)
    requires i < |lines| && !IsBlank(Trim(lines[i]))
    requires forall j | i <= j < |lines| :: Plain(env, Trim(lines[j]))
    ensures ScanFrom(env, lines, i, acc) == Flush(acc, Blocks(TrimAll(lines[i..])))
    decreases |lines| - i, 0
  {
    var line := Trim(lines[i]);
    var rest := TrimAll(lines[i + 1..]);
    assert TrimAll(lines[i..]) == [line] + rest by {
      assert lines[i..][1..] == lines[i + 1..];
    }
    PlainStep(env, lines, i, acc);
    ScanFromUnfold(env, lines, i, acc);
    var acc2 := acc + line + " ";
    assert ScanFrom(env, lines, i, acc) == ScanFrom(env, lines, i + 1, acc2);
    PlainScan(env, lines, i + 1, acc2);
    BlocksCons(line, rest);
    var bs := Blocks(rest);
    var b0 := [line] + bs[0];
    var bs' := [b0] + bs[1..];
    JoinedCons(acc, line, bs[0]);
    FlushHead(acc2, acc, bs, bs');
  }

  /** Two flushes agree when their first paragraphs agree and the other blocks
      are the same. */
  lemma FlushHead(acc: string, acc': string, bs: seq<seq<string>>, bs': seq<seq<string>>)
    requires |bs| >= 1 && |bs'| == |bs| && bs[1..] == bs'[1..]
    requires acc + Joined(bs[0]) == acc' + Joined(bs'[0])
    ensures Flush(acc, bs) == Flush(acc', bs')
  {
  }

  /** The paragraphs of a plain text are its blocks. */
  lemma PlainParagraphs(env: Env, lines: seq<string>)
    requires forall j | 0 <= j < |lines| :: Plain(env, Trim(lines[j]))
    ensures Paragraphs(env, lines) == Flush([], Blocks(TrimAll(lines)))
  {
    PlainScan(env, lines, 0, []);
    assert lines[0..] == lines;
  }
}
