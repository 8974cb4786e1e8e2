/** PdfParser.toSentence, process and segSentence: the text is split into
    lines, the lines are assembled into paragraphs, every valid paragraph is
    split into sentences, and every sentence that passes processSentence is
    finished and collected. */
module Pipeline {
  import opened JavaText
  import opened Optional
  import opened Environment
  import opened LineScan
  import opened ParagraphCheck
  import opened PeriodGuard
  import opened SentenceCheck
  import opened Sequences

  /** The line separators of `split("[\n\r]")`. */
  const LineBreaks: set<char> := {'\n', '\r'}
  /** The sentence delimiters of `split("[.．。•]")`. */
  const SentenceMarks: set<char> := {'.', '\U{FF0E}', '\U{3002}', '\U{2022}'}
  /** The delimiters other than the ASCII period, which segSentence never
      puts back. */
  const WideMarks: set<char> := {'\U{FF0E}', '\U{3002}', '\U{2022}'}

  predicate MarkFree(s: string) {
    forall k | 0 <= k < |s| :: s[k] !in WideMarks
  }

  /** What every collected sentence looks like: non-empty, without the
      period marker, and ending with a period or a non-alphabetic unit. */
  predicate WellFormed(env: Env, s: string) {
    && |s| > 0
    && !Contains(s, Sentinel)
    && (s[|s| - 1] == '.' || !env.IsAlphabetic(s[|s| - 1]))
  }

  /** The last steps segSentence applies to an accepted sentence: a period is
      appended after a final alphabetic unit, then every marker becomes a
      period again. */
  function Finish(env: Env, s: string): (r: string)
    requires |s| > 0
    ensures WellFormed(env, r)
    ensures r[|r| - 1] == '.' || r[|r| - 1] == s[|s| - 1]
    ensures MarkFree(s) ==> MarkFree(r)
  {
    var t := if env.IsAlphabetic(s[|s| - 1]) then s + "." else s;
    RestoreClean(t);
    RestoreLast(t);
    ReplaceUnits(t, Sentinel, ".");
    assert t != s ==> !EndsWith(t, Sentinel) by {
      if t != s {
        assert t[|t| - 1] == '.';
      }
    }
    Restore(t)
  }

  /** The sentence, if any, segSentence collects from one fragment. */
  function Emit(env: Env, f: string): (r: Option<string>)
    ensures r.Some? ==> WellFormed(env, r.value)
    ensures r.Some? && MarkFree(f) ==> MarkFree(r.value)
    ensures IsBlank(f) ==> r == None
  {
    if IsBlank(f) then None
    else
      match ProcessSentence(env, f)
      case None => None
      case Some(s) => Some(Finish(env, s))
  }

  /** Every sentence of `r` is well formed and free of the non-ASCII
      delimiters. */
  predicate AllWellFormed(env: Env, r: seq<string>) {
    forall j | 0 <= j < |r| :: WellFormed(env, r[j]) && MarkFree(r[j])
  }

  /** Emit, as a value. */
  function EmitOf(env: Env): string -> Option<string> {
    f => Emit(env, f)
  }

  /** The sentences collected from a paragraph's fragments, in order. */
  function EmitAll(env: Env, frags: seq<string>): seq<string>
  {
    FilterMap(EmitOf(env), frags)
  }

  /** Fragments free of the non-ASCII delimiters yield well-formed sentences
      free of them. */
  lemma EmitAllWellFormed(env: Env, frags: seq<string>)
    requires forall j | 0 <= j < |frags| :: MarkFree(frags[j])
    ensures AllWellFormed(env, EmitAll(env, frags))
  {
    var P := (s: string) => WellFormed(env, s) && MarkFree(s);
    forall i | 0 <= i < |frags| && EmitOf(env)(frags[i]).Some?
      ensures P(EmitOf(env)(frags[i]).value)
    {
      assert MarkFree(frags[i]);
    }
    FilterMapAll(EmitOf(env), frags, P);
  }

  /** PdfParser.segSentence */
  function SegSentence(env: Env, p: string): seq<string>
  {
    var q := PrepareSeg(p);
    if IsBlank(q) then [] else EmitAll(env, Split(q, SentenceMarks))
  }

  /** Every sentence segSentence collects is well formed, and none holds a
      delimiter other than the ASCII period. */
  lemma SegSentenceWellFormed(env: Env, p: string)
    ensures AllWellFormed(env, SegSentence(env, p))
  {
    var q := PrepareSeg(p);
    if !IsBlank(q) {
      var frags := Split(q, SentenceMarks);
      assert forall j | 0 <= j < |frags| :: MarkFree(frags[j]);
      EmitAllWellFormed(env, frags);
    }
  }

  /** Every sentence segSentence collects is a fragment of the prepared
      paragraph that processSentence accepted unchanged, then finished. */
  lemma SegSentenceAccepted(env: Env, p: string)
    ensures forall j | 0 <= j < |SegSentence(env, p)| ::
              exists f | f in Split(PrepareSeg(p), SentenceMarks) ::
                |f| > 0 && ProcessSentence(env, f) == Some(f) && SegSentence(env, p)[j] == Finish(env, f)
  {
    var q := PrepareSeg(p);
    if !IsBlank(q) {
      var frags := Split(q, SentenceMarks);
      var P := (s: string) =>
        exists f | f in frags :: |f| > 0 && ProcessSentence(env, f) == Some(f) && s == Finish(env, f);
      forall i | 0 <= i < |frags| && EmitOf(env)(frags[i]).Some?
        ensures P(EmitOf(env)(frags[i]).value)
      {
        var f := frags[i];
        assert f in frags;
      }
      FilterMapAll(EmitOf(env), frags, P);
    } else {
      assert SegSentence(env, p) == [];
    }
  }

  /** After index 0, the legal units of a valid paragraph hold no whitespace
      but the space. */
  lemma ValidSpaces(p: string)
    requires ParagraphValid(p)
    ensures SpaceOnlyAfterFirst(p)
  {
  }

  /** As written, segSentence never collects a sentence from a fragment that
      follows a period. In a valid paragraph, prepareSeg keeps a period only
      when it is last or followed by a space. So the fragment after it is
      empty or starts with a space, and the first-word check, which reads
      `charAt(0)` without trimming, rejects it. */
  lemma LaterFragmentsRejected(env: Env, p: string)
    requires ParagraphValid(p)
    ensures var q := PrepareSeg(p);
      var frags := Split(q, SentenceMarks);
      && |frags| <= |DelimUnits(q, SentenceMarks)| + 1
      && forall j | 1 <= j < |frags| && DelimUnits(q, SentenceMarks)[j - 1] == '.' ::
           Emit(env, frags[j]) == None
  {
    var q := PrepareSeg(p);
    ValidSpaces(p);
    PrepareSegSpaced(p);
    FieldAfterDelim(q, SentenceMarks, '.', ' ');
    SplitFields(q, SentenceMarks);
    var frags := Split(q, SentenceMarks);
    forall j | 1 <= j < |frags| && DelimUnits(q, SentenceMarks)[j - 1] == '.'
      ensures Emit(env, frags[j]) == None
    {
      var f := frags[j];
      assert f == Fields(q, SentenceMarks)[j];
      if !IsBlank(f) {
        LeadingNonCapitalRejected(env, f);
      }
    }
  }

  /** So every sentence segSentence collects from a valid paragraph comes
      from its first fragment or from one that follows a delimiter other than
      the period. */
  lemma SegSentenceLeadingOnly(env: Env, p: string)
    requires ParagraphValid(p)
    ensures var q := PrepareSeg(p);
      var frags := Split(q, SentenceMarks);
      var ds := DelimUnits(q, SentenceMarks);
      && |frags| <= |ds| + 1
      && forall j | 0 <= j < |SegSentence(env, p)| ::
           exists i | 0 <= i < |frags| && (i == 0 || ds[i - 1] != '.') ::
             Emit(env, frags[i]) == Some(SegSentence(env, p)[j])
  {
    var q := PrepareSeg(p);
    var frags := Split(q, SentenceMarks);
    var ds := DelimUnits(q, SentenceMarks);
    LaterFragmentsRejected(env, p);
    if !IsBlank(q) {
      var P := (s: string) =>
        exists i | 0 <= i < |frags| && (i == 0 || ds[i - 1] != '.') :: Emit(env, frags[i]) == Some(s);
      forall i | 0 <= i < |frags| && EmitOf(env)(frags[i]).Some?
        ensures P(EmitOf(env)(frags[i]).value)
      {
        assert i == 0 || ds[i - 1] != '.';
      }
      FilterMapAll(EmitOf(env), frags, P);
    } else {
      assert SegSentence(env, p) == [];
    }
  }

  /** segSentence with each fragment trimmed before processSentence sees it,
      so that a sentence after a period is judged by its first word. */
  function EmitTrimmed(env: Env, f: string): (r: Option<string>)
    ensures r.Some? ==> WellFormed(env, r.value)
  {
    Emit(env, Trim(f))
  }

  function EmitTrimmedOf(env: Env): string -> Option<string> {
    f => EmitTrimmed(env, f)
  }

  function SegSentenceTrimmed(env: Env, p: string): seq<string>
  {
    var q := PrepareSeg(p);
    if IsBlank(q) then [] else FilterMap(EmitTrimmedOf(env), Split(q, SentenceMarks))
  }

  /** A blank text trims to a blank text. */
  lemma TrimBlank(s: string)
    requires IsBlank(s)
    ensures IsBlank(Trim(s))
  {
    TrimSpec(s);
    assert forall k | 0 <= k < |Trim(s)| :: Trim(s)[k] == s[TrimStart(s) + k];
  }

  /** The pieces of a blank text trim to blank texts. */
  lemma SplitBlankPieces(q: string, i: nat)
    requires i < |Split(q, SentenceMarks)|
    ensures IsBlank(q) ==> IsBlank(Trim(Split(q, SentenceMarks)[i]))
  {
    if IsBlank(q) {
      SplitFields(q, SentenceMarks);
      FieldsBlank(q, SentenceMarks);
      assert Split(q, SentenceMarks)[i] == Fields(q, SentenceMarks)[i];
      TrimBlank(Split(q, SentenceMarks)[i]);
    }
  }

  /** With fragments trimmed, every fragment whose trimmed text processSentence
      accepts is collected, wherever it stands in the paragraph, and every
      collected sentence is well formed. */
  lemma SegSentenceTrimmedCollects(env: Env, p: string)
    ensures var frags := Split(PrepareSeg(p), SentenceMarks);
      forall i | 0 <= i < |frags| && ProcessSentence(env, Trim(frags[i])) == Some(Trim(frags[i])) ::
        Finish(env, Trim(frags[i])) in SegSentenceTrimmed(env, p)
    ensures forall j | 0 <= j < |SegSentenceTrimmed(env, p)| :: WellFormed(env, SegSentenceTrimmed(env, p)[j])
  {
    var q := PrepareSeg(p);
    var frags := Split(q, SentenceMarks);
    forall i | 0 <= i < |frags| && ProcessSentence(env, Trim(frags[i])) == Some(Trim(frags[i]))
      ensures Finish(env, Trim(frags[i])) in SegSentenceTrimmed(env, p)
    {
      var f := Trim(frags[i]);
      assert !IsBlank(f);
      SplitBlankPieces(q, i);
      assert !IsBlank(q);
      assert EmitTrimmedOf(env)(frags[i]) == Some(Finish(env, f));
      FilterMapHas(EmitTrimmedOf(env), frags, i);
    }
    if !IsBlank(q) {
      FilterMapAll(EmitTrimmedOf(env), frags, (s: string) => WellFormed(env, s));
    }
  }

  /** PdfParser.process: the sentences of a non-blank, valid paragraph. */
  function Process(env: Env, p: string): (r: seq<string>)
    ensures IsBlank(p) || !ParagraphValid(p) ==> r == []
  {
    if IsBlank(p) then []
    else if !ParagraphValid(p) then []
    else SegSentence(env, p)
  }

  /** Process, as a value. */
  function ProcessOf(env: Env): string -> seq<string> {
    p => Process(env, p)
  }

  /** The sentences of a sequence of paragraphs, in order. */
  function ProcessAll(env: Env, ps: seq<string>): seq<string>
  {
    FlatMap(ProcessOf(env), ps)
  }

  lemma ProcessAllWellFormed(env: Env, ps: seq<string>)
    ensures AllWellFormed(env, ProcessAll(env, ps))
  {
    var P := (s: string) => WellFormed(env, s) && MarkFree(s);
    forall i | 0 <= i < |ps|
      ensures forall k | 0 <= k < |ProcessOf(env)(ps[i])| :: P(ProcessOf(env)(ps[i])[k])
    {
      if !IsBlank(ps[i]) && ParagraphValid(ps[i]) {
        SegSentenceWellFormed(env, ps[i]);
      }
    }
    FlatMapAll(ProcessOf(env), ps, P);
  }

  /** The lines of the extracted text. */
  function Lines(text: string): seq<string> {
    Split(text, LineBreaks)
  }

  /** PdfParser.toSentence */
  function ToSentence(env: Env, text: string): seq<string>
  {
    ProcessAll(env, Paragraphs(env, Lines(text)))
  }

  /** Every sentence toSentence returns is well formed: non-empty, free of the
      period marker, ending with a period or a non-alphabetic unit, and free
      of the non-ASCII delimiters. */
  lemma ToSentenceWellFormed(env: Env, text: string)
    ensures AllWellFormed(env, ToSentence(env, text))
  {
    ProcessAllWellFormed(env, Paragraphs(env, Lines(text)));
  }

  /** Program code never yields a sentence. */
  lemma ProgramCodeDropped(env: Env, p: string)
    requires IsProgramCode(p)
    ensures Process(env, p) == []
  {
  }

  /* ---------------- the Java loops ---------------- */

  /** One more fragment handled by segSentence's loop. */
  lemma EmitPass(env: Env, frags: seq<string>, j: nat, data: seq<string>, total: seq<string>)
    requires j < |frags| && data + EmitAll(env, frags[j..]) == total
    ensures var e := Emit(env, frags[j]);
      (data + (if e.Some? then [e.value] else [])) + EmitAll(env, frags[j + 1..]) == total
  {
    assert frags[j..][1..] == frags[j + 1..];
    assert frags[j..][0] == frags[j];
  }

  /** The body of segSentence's loop for one fragment: skip it when blank
      or rejected, otherwise append a period after a final letter and turn
      the markers back into periods. */
  method EmitScan(env: Env, f: string) returns (e: Option<string>)
    ensures e == Emit(env, f)
  {
    if IsBlank(f) {
      return None;
    }
    var accepted := ProcessSentenceScan(env, f);
    if accepted.None? {
      return None;
    }
    var s := f;
    if env.IsAlphabetic(s[|s| - 1]) {
      s := s + ".";
    }
    s := Restore(s);
    return Some(s);
  }

  /** segSentence as the Java code runs it. */
  method SegSentenceScan(env: Env, paragraph: string) returns (data: seq<string>)
    ensures data == SegSentence(env, paragraph)
  {
    var p := PrepareSegScan(paragraph);
    data := [];
    if IsBlank(p) {
      return;
    }
    var frags := Split(p, SentenceMarks);
    var j := 0;
    while j < |frags|
      invariant 0 <= j <= |frags|
      invariant data + EmitAll(env, frags[j..]) == SegSentence(env, paragraph)
    {
      EmitPass(env, frags, j, data, SegSentence(env, paragraph));
      var e := EmitScan(env, frags[j]);
      if e.Some? {
        data := data + [e.value];
      }
      j := j + 1;
    }
    assert frags[|frags|..] == [];
  }

  /** process as the Java code runs it. */
  method ProcessScan(env: Env, paragraph: string) returns (data: seq<string>)
    ensures data == Process(env, paragraph)
  {
    data := [];
    if !IsBlank(paragraph) {
      var valid := CheckParagraph(paragraph);
      if valid {
        data := SegSentenceScan(env, paragraph);
      }
    }
  }


  /** The sentences of what one pass of toSentence's loop flushes. */
  lemma PassFlush(env: Env, lines: seq<string>, i: nat, acc: string)
    requires i < |lines|
    ensures ProcessAll(env, Step(env, lines, i, acc).0)
            == if ParagraphFinish(Trim(lines[i])) then Process(env, Trim(acc)) else []
  {
    if ParagraphFinish(Trim(lines[i])) {
      assert Step(env, lines, i, acc).0 == [Trim(acc)];
      FlatMapOne(ProcessOf(env), Trim(acc));
    } else {
      assert Step(env, lines, i, acc).0 == [];
    }
  }

  /** One more pass of toSentence's loop: the sentences of the paragraph it
      flushes, if any, come before those of the rest of the scan. */
  lemma ScanPass(env: Env, lines: seq<string>, i: nat, acc: string, data: seq<string>, total: seq<string>)
    requires i < |lines| && data + ProcessAll(env, ScanFrom(env, lines, i, acc)) == total
    ensures var step := Step(env, lines, i, acc);
      (data + (if ParagraphFinish(Trim(lines[i])) then Process(env, Trim(acc)) else []))
        + ProcessAll(env, ScanFrom(env, lines, step.1, step.2)) == total
  {
    var step := Step(env, lines, i, acc);
    ScanFromUnfold(env, lines, i, acc);
    FlatMapShift(ProcessOf(env), data, step.0, ScanFrom(env, lines, step.1, step.2), total);
    PassFlush(env, lines, i, acc);
  }

  /** One pass of toSentence's `for` loop as the Java code runs it: flush
      at a blank line, join hyphenated lines, add the result to the
      paragraph. */
  method ScanLine(env: Env, lines: seq<string>, i0: nat, paragraph0: string)
    returns (out: seq<string>, i: nat, paragraph: string)
    requires i0 < |lines|
    ensures out == if ParagraphFinish(Trim(lines[i0])) then Process(env, Trim(paragraph0)) else []
    ensures (i, paragraph) == (Step(env, lines, i0, paragraph0).1, Step(env, lines, i0, paragraph0).2)
  {
    StepParts(env, lines, i0, paragraph0);
    var line := Trim(lines[i0]);
    out, paragraph := FlushAtBlank(env, line, paragraph0);
    i, paragraph := JoinAndAdd(env, lines, i0, line, paragraph);
  }

  /** The start of the `for` body: a blank line hands the trimmed paragraph
      to process and empties it. */
  method FlushAtBlank(env: Env, line: string, paragraph0: string) returns (out: seq<string>, paragraph: string)
    ensures out == if ParagraphFinish(line) then Process(env, Trim(paragraph0)) else []
    ensures paragraph == if ParagraphFinish(line) then [] else paragraph0
  {
    out, paragraph := [], paragraph0;
    if ParagraphFinish(line) {
      out := ProcessScan(env, Trim(paragraph));
      paragraph := "";
    }
  }

  /** The rest of the `for` body: the hyphen loop, then the line added to
      the paragraph with the line after the last one consumed as next line. */
  method JoinAndAdd(env: Env, lines: seq<string>, i0: nat, line0: string, paragraph0: string)
    returns (i: nat, paragraph: string)
    requires i0 < |lines|
    ensures var joined := Dehyphenate(lines, line0, i0);
      var next := if joined.1 + 1 < |lines| then Some(Trim(lines[joined.1 + 1])) else None;
      i == joined.1 + 1 && paragraph == AddLineToParagraph(env, joined.0, next, paragraph0)
  {
    var line;
    line, i := JoinHyphenated(lines, line0, i0);
    var nextLine := if i + 1 < |lines| then Some(Trim(lines[i + 1])) else None;
    paragraph := AddLineToParagraph(env, line, nextLine, paragraph0);
    i := i + 1;
  }

  /** toSentence as the Java code runs it: one pass over the lines with the
      index advanced past joined lines, flushing at blank lines and once more
      at the end. */
  method ToSentenceScan(env: Env, text: string) returns (data: seq<string>)
    ensures data == ToSentence(env, text)
  {
    data := [];
    var paragraph := "";
    var lines := Split(text, LineBreaks);
    var i := 0;
    while i < |lines|
      invariant 0 <= i <= |lines|
      invariant data + ProcessAll(env, ScanFrom(env, lines, i, paragraph)) == ToSentence(env, text)
      decreases |lines| - i
    {
      ScanPass(env, lines, i, paragraph, data, ToSentence(env, text));
      var out;
      out, i, paragraph := ScanLine(env, lines, i, paragraph);
      data := data + out;
    }
    var out := ProcessScan(env, paragraph);
    FlatMapOne(ProcessOf(env), paragraph);
    data := data + out;
  }
}
