/** PdfParser.processSentence: the chain of checks a candidate sentence must
    pass to be kept. Each check that fires rejects the sentence; a sentence
    that passes them all is returned unchanged. */
module SentenceCheck {
  import opened JavaText
  import opened Optional
  import opened Environment

  /** SENTENCE_WORD_MIN_COUNT */
  const SentenceWordMinCount: nat := 10
  /** MAX_WORD_CHAR_COUNT */
  const MaxWordCharCount: nat := 18
  /** Words holding this are exempt from the length check. */
  const Http: string := "http://"

  /** The single-unit entries of the punctuation set that hasSpecialWords
      strips from each word; the set's one two-unit entry, "==", strips
      nothing that "=" does not. */
  const Punctuation: set<char> := {
    ',', '\U{2019}', '\U{2010}', '\U{2011}', '\U{2012}', '\U{2013}', '\U{2014}',
    '-', '\U{2015}', ':', ';', '/', '+', '=', '%', '!', '\'', '"', '[', ']',
    '(', ')', '\U{201C}', '\U{201D}', '?'
  }

  /** The entries of the punctuation set in the order they are added; a
      HashSet iterates over them in some order of its own. */
  const PunctuationEntries: seq<string> := [
    ",", "\U{2019}", "\U{2010}", "\U{2011}", "\U{2012}", "\U{2013}", "\U{2014}",
    "-", "\U{2015}", ":", ";", "/", "+", "=", "==", "%", "!", "'", "\"", "[", "]",
    "(", ")", "\U{201C}", "\U{201D}", "?"
  ]

  const Openers: set<char> := {'[', '\U{201C}', '('}
  const Closers: set<char> := {']', '\U{201D}', ')'}
  const Quotes: set<char> := {'"'}

  /* ---------------- isIgnorableSentence ---------------- */

  /** A blank sentence, or one whose trimmed text ends with a comma. */
  predicate IsIgnorable(s: string) {
    IsBlank(s) || EndsWith(Trim(s), ",")
  }

  /* ---------------- hasInvalidFirstWord ---------------- */

  /** The index of the first alphabetic unit at or after `i`, or the length
      when there is none. */
  function FirstAlphabetic(env: Env, s: string, i: nat): (r: nat)
    requires i <= |s|
    ensures i <= r <= |s|
    ensures forall k | i <= k < r :: !env.IsAlphabetic(s[k])
    ensures r < |s| ==> env.IsAlphabetic(s[r])
    decreases |s| - i
  {
    if i == |s| || env.IsAlphabetic(s[i]) then i else FirstAlphabetic(env, s, i + 1)
  }

  /** hasInvalidFirstWord: the sentence has no alphabetic unit at all, or its
      first unit (not its first alphabetic one) is not upper case. */
  function HasInvalidFirstWord(env: Env, s: string): (r: bool)
    ensures r <==> |s| == 0 || !env.IsUpperCase(s[0])
                   || forall k | 0 <= k < |s| :: !env.IsAlphabetic(s[k])
  {
    FirstAlphabetic(env, s, 0) >= |s| || !env.IsUpperCase(s[0])
  }

  /** The loop of hasInvalidFirstWord, counting units up to the first
      alphabetic one. */
  method FirstWordScan(env: Env, s: string) returns (invalid: bool)
    ensures invalid == HasInvalidFirstWord(env, s)
  {
    var i := 0;
    while i < |s| && !env.IsAlphabetic(s[i])
      invariant 0 <= i <= |s|
      invariant forall k | 0 <= k < i :: !env.IsAlphabetic(s[k])
    {
      i := i + 1;
    }
    invalid := i >= |s| || !env.IsUpperCase(s[0]);
  }

  /* ---------------- word-level checks ---------------- */

  /** StringUtils.isNumeric of commons-lang 2: every unit is a digit, so the
      empty word counts as numeric. */
  predicate IsNumeric(env: Env, w: string) {
    forall k | 0 <= k < |w| :: env.IsDigit(w[k])
  }

  /** hasNumericLastWord */
  predicate HasNumericLastWord(env: Env, words: seq<string>)
    requires |words| > 0
  {
    IsNumeric(env, words[|words| - 1])
  }

  /** A word whose first unit is upper case. The Java check reads the first
      unit without asking whether there is one. */
  predicate IsCapWord(env: Env, w: string) {
    |w| > 0 && env.IsUpperCase(w[0])
  }

  /** The number of capitalised words. */
  function CapWordCount(env: Env, words: seq<string>): (n: nat)
    ensures n <= |words|
  {
    if words == [] then 0
    else CapWordCount(env, words[..|words| - 1]) + (if IsCapWord(env, words[|words| - 1]) then 1 else 0)
  }

  /** The count is zero exactly when no word is capitalised, and the word
      count exactly when every word is. */
  lemma {:induction false} CapWordCountExtremes(env: Env, words: seq<string>)
    ensures CapWordCount(env, words) == 0 <==> forall j | 0 <= j < |words| :: !IsCapWord(env, words[j])
    ensures CapWordCount(env, words) == |words| <==> forall j | 0 <= j < |words| :: IsCapWord(env, words[j])
  {
    if words != [] {
      var init := words[..|words| - 1];
      CapWordCountExtremes(env, init);
      assert forall j | 0 <= j < |init| :: init[j] == words[j];
    }
  }

  /** hasTooManyCapWords: more than 40% of the words are capitalised. */
  predicate HasTooManyCapWords(env: Env, words: seq<string>) {
    5 * CapWordCount(env, words) > 2 * |words|
  }

  /** The loop of hasTooManyCapWords. It reads the first unit of every word,
      so every word must be non-empty. */
  method CapWordsScan(env: Env, words: seq<string>) returns (tooMany: bool)
    requires forall j | 0 <= j < |words| :: |words[j]| > 0
    ensures tooMany == HasTooManyCapWords(env, words)
  {
    var count := 0;
    var j := 0;
    while j < |words|
      invariant 0 <= j <= |words|
      invariant count == CapWordCount(env, words[..j])
    {
      assert words[..j + 1][..j] == words[..j];
      if env.IsUpperCase(words[j][0]) {
        count := count + 1;
      }
      j := j + 1;
    }
    assert words[..|words|] == words;
    tooMany := 5 * count > 2 * |words|;
  }

  /** The length of the longest word that does not contain "http://". */
  function LongestWordLength(words: seq<string>): (m: nat)
    ensures forall j | 0 <= j < |words| && !Contains(words[j], Http) :: |words[j]| <= m
    ensures m == 0 || exists j | 0 <= j < |words| :: !Contains(words[j], Http) && |words[j]| == m
  {
    if words == [] then 0
    else
      var init := words[..|words| - 1];
      var last := words[|words| - 1];
      var m0 := LongestWordLength(init);
      assert forall j | 0 <= j < |init| :: init[j] == words[j];
      if !Contains(last, Http) && |last| > m0 then |last| else m0
  }

  /** hasLongWords */
  predicate HasLongWords(words: seq<string>) {
    LongestWordLength(words) > MaxWordCharCount
  }

  /** hasLongWords fires exactly when some word without "http://" is longer
      than 18 units. */
  lemma HasLongWordsIff(words: seq<string>)
    ensures HasLongWords(words) <==>
              exists j | 0 <= j < |words| :: !Contains(words[j], Http) && |words[j]| > MaxWordCharCount
  {
    var m := LongestWordLength(words);
    if m > MaxWordCharCount {
      var j :| 0 <= j < |words| && !Contains(words[j], Http) && |words[j]| == m;
    }
  }

  /** The loop of hasLongWords. */
  method LongWordsScan(words: seq<string>) returns (long: bool)
    ensures long == HasLongWords(words)
  {
    var max := 0;
    var j := 0;
    while j < |words|
      invariant 0 <= j <= |words|
      invariant max == LongestWordLength(words[..j])
    {
      assert words[..j + 1][..j] == words[..j];
      var w := words[j];
      if !Contains(w, Http) && |w| > max {
        max := |w|;
      }
      j := j + 1;
    }
    assert words[..|words|] == words;
    long := max > MaxWordCharCount;
  }

  /* ---------------- hasSpecialWords ---------------- */

  /** `w` with every unit of `cs` removed. */
  function Without(w: string, cs: set<char>): (r: string)
    ensures |r| <= |w|
    ensures forall k | 0 <= k < |r| :: r[k] !in cs && r[k] in w
  {
    if w == [] then []
    else
      var rest := Without(w[1..], cs);
      assert forall k | 0 <= k < |rest| :: rest[k] in w;
      (if w[0] in cs then [] else [w[0]]) + rest
  }

  lemma {:induction false} WithoutAppend(a: string, b: string, cs: set<char>)
    ensures Without(a + b, cs) == Without(a, cs) + Without(b, cs)
  {
    if a != [] {
      var h := if a[0] in cs then [] else [a[0]];
      WithoutAppend(a[1..], b, cs);
      assert (a + b)[0] == a[0] && (a + b)[1..] == a[1..] + b;
      calc {
        Without(a + b, cs);
        h + Without(a[1..] + b, cs);
        h + (Without(a[1..], cs) + Without(b, cs));
        (h + Without(a[1..], cs)) + Without(b, cs);
      }
    } else {
      assert a + b == b;
    }
  }

  /** Removing units from a text that has none of them changes nothing. */
  lemma {:induction false} WithoutNone(x: string, cs: set<char>)
    requires forall k | 0 <= k < |x| :: x[k] !in cs
    ensures Without(x, cs) == x
  {
    if x != [] {
      WithoutNone(x[1..], cs);
    }
  }

  /** Removing units from a text made only of them leaves nothing. */
  lemma {:induction false} WithoutAll(x: string, cs: set<char>)
    requires forall k | 0 <= k < |x| :: x[k] in cs
    ensures Without(x, cs) == []
  {
    if x != [] {
      WithoutAll(x[1..], cs);
    }
  }

  /** Replacing an entry of the punctuation by the empty string removes
      nothing that the punctuation filter would keep. */
  lemma {:induction false} ReplaceErases(x: string, pat: string, cs: set<char>)
    requires |pat| > 0 && forall k | 0 <= k < |pat| :: pat[k] in cs
    ensures Without(Replace(x, pat, ""), cs) == Without(x, cs)
    decreases |x|
  {
    if |x| < |pat| {
    } else if x[..|pat|] == pat {
      ReplaceErases(x[|pat|..], pat, cs);
      assert x == pat + x[|pat|..];
      WithoutAppend(pat, x[|pat|..], cs);
      WithoutAll(pat, cs);
      assert Replace(x, pat, "") == Replace(x[|pat|..], pat, "");
    } else {
      ReplaceErases(x[1..], pat, cs);
      var r' := Replace(x[1..], pat, "");
      assert Replace(x, pat, "") == [x[0]] + r';
      assert ([x[0]] + r')[1..] == r';
    }
  }

  /** Replacing a one-unit string by the empty string leaves none of it. */
  lemma {:induction false} ReplaceUnitClears(x: string, c: char)
    ensures c !in Replace(x, [c], "")
    decreases |x|
  {
    if |x| == 0 {
    } else if x[..1] == [c] {
      ReplaceUnitClears(x[1..], c);
      assert Replace(x, [c], "") == Replace(x[1..], [c], "");
    } else {
      ReplaceUnitClears(x[1..], c);
      assert x[0] != c by {
        assert x[..1] == [x[0]];
      }
      assert Replace(x, [c], "") == [x[0]] + Replace(x[1..], [c], "");
    }
  }

  /** The inner loop of hasSpecialWords: `word.replace(c, "")` for each entry
      of the punctuation set in the set's iteration order. */
  function ReplaceEach(w: string, ps: seq<string>): (r: string)
    requires forall i | 0 <= i < |ps| :: |ps[i]| > 0
    decreases |ps|
  {
    if ps == [] then w else ReplaceEach(Replace(w, ps[0], ""), ps[1..])
  }

  lemma {:induction false} ReplaceEachSpec(x: string, ps: seq<string>, cs: set<char>)
    requires forall i | 0 <= i < |ps| :: |ps[i]| > 0
    requires forall i | 0 <= i < |ps| :: forall k | 0 <= k < |ps[i]| :: ps[i][k] in cs
    ensures Without(ReplaceEach(x, ps), cs) == Without(x, cs)
    ensures forall k | 0 <= k < |ReplaceEach(x, ps)| :: ReplaceEach(x, ps)[k] in x
    ensures forall i | 0 <= i < |ps| && |ps[i]| == 1 :: ps[i][0] !in ReplaceEach(x, ps)
    decreases |ps|
  {
    if ps != [] {
      var x' := Replace(x, ps[0], "");
      ReplaceEachSpec(x', ps[1..], cs);
      ReplaceErases(x, ps[0], cs);
      ReplaceUnits(x, ps[0], "");
      var r := ReplaceEach(x, ps);
      assert r == ReplaceEach(x', ps[1..]);
      forall i | 0 <= i < |ps| && |ps[i]| == 1
        ensures ps[i][0] !in r
      {
        if i == 0 {
          assert ps[0] == [ps[0][0]];
          ReplaceUnitClears(x, ps[0][0]);
        } else {
          assert ps[i] == ps[1..][i - 1];
        }
      }
    }
  }

  /** What an iteration order of the punctuation set is: non-empty entries
      made of punctuation units, with every punctuation unit as an entry of
      its own. */
  predicate IsIterationOrder(ps: seq<string>) {
    && (forall i | 0 <= i < |ps| :: |ps[i]| > 0)
    && (forall i | 0 <= i < |ps| :: forall k | 0 <= k < |ps[i]| :: ps[i][k] in Punctuation)
    && (forall c | c in Punctuation :: exists i | 0 <= i < |ps| :: ps[i] == [c])
  }

  /** Whatever order the punctuation set is iterated in, the chain of
      replacements removes exactly the punctuation units. */
  lemma StripOrderFree(w: string, ps: seq<string>)
    requires IsIterationOrder(ps)
    ensures ReplaceEach(w, ps) == Without(w, Punctuation)
  {
    ReplaceEachSpec(w, ps, Punctuation);
    var r := ReplaceEach(w, ps);
    assert forall k | 0 <= k < |r| :: r[k] !in Punctuation;
    WithoutNone(r, Punctuation);
  }

  /** The entries of the Java set, in the order its static block adds them,
      form an iteration order. */
  lemma EntriesCoverPunctuation()
    ensures IsIterationOrder(PunctuationEntries)
  {
    EntriesArePunctuation();
    EntriesCover();
  }

  /** Every entry is a non-empty string of punctuation units. */
  lemma EntriesArePunctuation()
    ensures forall i | 0 <= i < |PunctuationEntries| :: |PunctuationEntries[i]| > 0
    ensures forall i | 0 <= i < |PunctuationEntries| :: forall k | 0 <= k < |PunctuationEntries[i]| :: PunctuationEntries[i][k] in Punctuation
  {
  }

  /** Every punctuation unit is an entry of its own. */
  lemma EntriesCover()
    ensures forall c | c in Punctuation :: exists i | 0 <= i < |PunctuationEntries| :: PunctuationEntries[i] == [c]
  {
    assert PunctuationEntries[0] == [','];
    assert PunctuationEntries[1] == ['\U{2019}'];
    assert PunctuationEntries[2] == ['\U{2010}'];
    assert PunctuationEntries[3] == ['\U{2011}'];
    assert PunctuationEntries[4] == ['\U{2012}'];
    assert PunctuationEntries[5] == ['\U{2013}'];
    assert PunctuationEntries[6] == ['\U{2014}'];
    assert PunctuationEntries[7] == ['-'];
    assert PunctuationEntries[8] == ['\U{2015}'];
    assert PunctuationEntries[9] == [':'];
    assert PunctuationEntries[10] == [';'];
    assert PunctuationEntries[11] == ['/'];
    assert PunctuationEntries[12] == ['+'];
    assert PunctuationEntries[13] == ['='];
    assert PunctuationEntries[15] == ['%'];
    assert PunctuationEntries[16] == ['!'];
    assert PunctuationEntries[17] == ['\''];
    assert PunctuationEntries[18] == ['"'];
    assert PunctuationEntries[19] == ['['];
    assert PunctuationEntries[20] == [']'];
    assert PunctuationEntries[21] == ['('];
    assert PunctuationEntries[22] == [')'];
    assert PunctuationEntries[23] == ['\U{201C}'];
    assert PunctuationEntries[24] == ['\U{201D}'];
    assert PunctuationEntries[25] == ['?'];
  }

  /** StringUtils.isAlpha of commons-lang 2: every unit is a letter, so the
      empty word counts as alphabetic. */
  predicate IsAlpha(env: Env, w: string) {
    forall k | 0 <= k < |w| :: env.IsLetter(w[k])
  }

  /** A word that, stripped of punctuation, is neither blank nor alphabetic. */
  predicate IsSpecialWord(env: Env, w: string) {
    var x := Without(w, Punctuation);
    !IsBlank(x) && !IsAlpha(env, x)
  }

  /** The number of special words. */
  function SpecialWordCount(env: Env, words: seq<string>): (n: nat)
    ensures n <= |words|
  {
    if words == [] then 0
    else SpecialWordCount(env, words[..|words| - 1]) + (if IsSpecialWord(env, words[|words| - 1]) then 1 else 0)
  }

  /** The count is zero exactly when no word is special. */
  lemma {:induction false} SpecialWordCountZero(env: Env, words: seq<string>)
    ensures SpecialWordCount(env, words) == 0 <==> forall j | 0 <= j < |words| :: !IsSpecialWord(env, words[j])
  {
    if words != [] {
      var init := words[..|words| - 1];
      SpecialWordCountZero(env, init);
      assert forall j | 0 <= j < |init| :: init[j] == words[j];
    }
  }

  /** The largest word count `n` with `k > ln(n) / 2`, that is with
      `n < e^(2k)`: the floor of `e^(2k)` for `k >= 1`, and 0 for `k = 0`.
      From `k = 11` on the bound exceeds every Java array length. */
  function MaxTokensFor(k: nat): (n: nat)
    ensures k >= 1 ==> n >= 7
  {
    match k
    case 0 => 0
    case 1 => 7
    case 2 => 54
    case 3 => 403
    case 4 => 2980
    case 5 => 22026
    case 6 => 162754
    case 7 => 1202604
    case 8 => 8886110
    case 9 => 65659969
    case 10 => 485165195
    case _ => 3584912846
  }

  /** hasSpecialWords: more special words than half the natural logarithm of
      the word count. */
  predicate HasSpecialWords(env: Env, words: seq<string>) {
    |words| <= MaxTokensFor(SpecialWordCount(env, words))
  }

  /** A sentence with more special words is no more acceptable: the table
      grows with the count. SpecialWordsTolerance uses it to carry the
      two-word threshold to every larger count. */
  lemma MaxTokensMonotone(a: nat, b: nat)
    requires a <= b
    ensures MaxTokensFor(a) <= MaxTokensFor(b)
  {
  }

  /** For sentences of 8 to 54 words the threshold is two special words: one
      is tolerated, two reject the sentence. */
  lemma SpecialWordsTolerance(env: Env, words: seq<string>)
    requires 8 <= |words| <= 54
    ensures HasSpecialWords(env, words) <==> SpecialWordCount(env, words) >= 2
  {
    var n := SpecialWordCount(env, words);
    if n >= 2 {
      MaxTokensMonotone(2, n);
    }
  }

  /** One more word in the count of special words. */
  lemma SpecialCountStep(env: Env, words: seq<string>, j: nat)
    requires j < |words|
    ensures SpecialWordCount(env, words[..j + 1])
            == SpecialWordCount(env, words[..j]) + (if IsSpecialWord(env, words[j]) then 1 else 0)
  {
    assert words[..j + 1][..j] == words[..j];
  }

  /** The test hasSpecialWords applies to one word after the replacements is
      the special-word test. */
  lemma SpecialTest(env: Env, w: string, entries: seq<string>)
    requires IsIterationOrder(entries)
    ensures var x := ReplaceEach(w, entries); (!IsBlank(x) && !IsAlpha(env, x)) == IsSpecialWord(env, w)
  {
    StripOrderFree(w, entries);
  }

  /** The loop of hasSpecialWords, with `entries` the punctuation set in its
      iteration order. */
  method SpecialWordsScan(env: Env, words: seq<string>, entries: seq<string>) returns (special: bool)
    requires IsIterationOrder(entries)
    ensures special == HasSpecialWords(env, words)
  {
    var count := 0;
    var j := 0;
    while j < |words|
      invariant 0 <= j <= |words|
      invariant count == SpecialWordCount(env, words[..j])
    {
      SpecialCountStep(env, words, j);
      SpecialTest(env, words[j], entries);
      var w := ReplaceEach(words[j], entries);
      if !IsBlank(w) && !IsAlpha(env, w) {
        count := count + 1;
      }
      j := j + 1;
    }
    assert words[..j] == words;
    assert count == SpecialWordCount(env, words);
    special := |words| <= MaxTokensFor(count);
  }

  /* ---------------- areBracketsAndQuotesPaired ---------------- */

  /** As many opening brackets as closing ones, and an even number of
      straight double quotes. Nesting and order are not examined. */
  predicate AreBracketsAndQuotesPaired(s: string) {
    Count(s, Openers) == Count(s, Closers) && Count(s, Quotes) % 2 == 0
  }

  /** The switch loop of areBracketsAndQuotesPaired. */
  method BracketsScan(s: string) returns (paired: bool)
    ensures paired == AreBracketsAndQuotesPaired(s)
  {
    var pre := 0;
    var suf := 0;
    var quotCount := 0;
    var j := 0;
    while j < |s|
      invariant 0 <= j <= |s|
      invariant pre == Count(s[..j], Openers)
      invariant suf == Count(s[..j], Closers)
      invariant quotCount == Count(s[..j], Quotes)
    {
      assert s[..j + 1][..j] == s[..j];
      var c := s[j];
      if c == '[' || c == '\U{201C}' || c == '(' {
        pre := pre + 1;
      } else if c == ']' || c == '\U{201D}' || c == ')' {
        suf := suf + 1;
      } else if c == '"' {
        quotCount := quotCount + 1;
      }
      j := j + 1;
    }
    assert s[..|s|] == s;
    paired := pre == suf && quotCount % 2 == 0;
  }

  /* ---------------- processSentence ---------------- */

  /** processSentence: the sentence itself when every check passes, in the
      order the Java code runs them, and nothing otherwise. */
  function ProcessSentence(env: Env, s: string): (r: Option<string>)
    ensures r == None || r == Some(s)
    ensures IsBlank(s) || EndsWith(Trim(s), ",") ==> r == None
  {
    if IsIgnorable(s) then None
    else if HasInvalidFirstWord(env, s) then None
    else
      var words := Words(s);
      if |words| < SentenceWordMinCount then None
      else if HasNumericLastWord(env, words) then None
      else if HasTooManyCapWords(env, words) then None
      else if HasLongWords(words) then None
      else if HasSpecialWords(env, words) then None
      else if env.hasUnknownWords(s) then None
      else if !AreBracketsAndQuotesPaired(s) then None
      else Some(s)
  }

  /** What an accepted sentence is known to satisfy, whatever the character
      classes: it starts with an upper-case unit, holds an alphabetic one, has
      at least ten words, a last word that is not numeric, at most 40% of its
      words capitalised, no word without "http://" longer than 18 units, few
      enough special words, the dictionary's approval, as many opening
      brackets as closing ones and an even number of straight quotes. */
  lemma AcceptedSentence(env: Env, s: string)
    requires ProcessSentence(env, s).Some?
    ensures |s| > 0 && env.IsUpperCase(s[0])
    ensures exists k | 0 <= k < |s| :: env.IsAlphabetic(s[k])
    ensures |Words(s)| >= SentenceWordMinCount
    ensures !IsNumeric(env, Words(s)[|Words(s)| - 1])
    ensures 5 * CapWordCount(env, Words(s)) <= 2 * |Words(s)|
    ensures forall j | 0 <= j < |Words(s)| && !Contains(Words(s)[j], Http) :: |Words(s)[j]| <= MaxWordCharCount
    ensures |Words(s)| > MaxTokensFor(SpecialWordCount(env, Words(s)))
    ensures !env.hasUnknownWords(s)
    ensures Count(s, Openers) == Count(s, Closers) && Count(s, Quotes) % 2 == 0
  {
  }

  /** With Java's character classes, a sentence that gets past the first
      two checks does not start with `\s`, so its words are the whitespace
      runs and none is empty: the capitalisation check never reads past the
      end of a word. */
  lemma WordsNonEmptyAfterFirstChecks(env: Env, s: string)
    requires !IsIgnorable(s) && !HasInvalidFirstWord(env, s)
    ensures Words(s) == Tokens(s)
    ensures forall j | 0 <= j < |Words(s)| :: |Words(s)[j]| > 0
  {
    assert env.IsUpperCase(s[0]);
    if s[0] < '\U{80}' {
      assert 'A' <= s[0] <= 'Z';
    }
    assert !IsRegexSpace(s[0]);
    WordsAreTokens(s);
  }

  /** The first-word check looks at the first unit only: with Java's
      character classes, a sentence opening with an ASCII unit other than a
      capital letter, such as a quotation mark, a bracket or a lower-case
      letter, is rejected even when its first word is capitalised. */
  lemma LeadingNonCapitalRejected(env: Env, s: string)
    requires |s| > 0 && s[0] < '\U{80}' && !('A' <= s[0] <= 'Z')
    ensures ProcessSentence(env, s) == None
  {
    assert !env.IsUpperCase(s[0]);
  }

  /** The three checks of processSentence that look at the shape of the
      words, run in order: too many capitalised words, an overlong word, too
      many special words. */
  method WordShapeScan(env: Env, words: seq<string>) returns (rejected: bool)
    requires forall j | 0 <= j < |words| :: |words[j]| > 0
    ensures rejected == (HasTooManyCapWords(env, words) || HasLongWords(words) || HasSpecialWords(env, words))
  {
    rejected := CapWordsScan(env, words);
    if rejected {
      return;
    }
    rejected := LongWordsScan(words);
    if rejected {
      return;
    }
    EntriesCoverPunctuation();
    rejected := SpecialWordsScan(env, words, PunctuationEntries);
  }

  /** processSentence as the Java code runs it, each check through its own
      loop. The punctuation set is iterated in the order its entries are
      added; StripOrderFree shows any other order gives the same result. */
  method ProcessSentenceScan(env: Env, s: string) returns (r: Option<string>)
    ensures r == ProcessSentence(env, s)
  {
    if IsIgnorable(s) {
      return None;
    }
    var invalid := FirstWordScan(env, s);
    if invalid {
      return None;
    }
    var words := Words(s);
    if |words| < SentenceWordMinCount {
      return None;
    }
    if HasNumericLastWord(env, words) {
      return None;
    }
    WordsNonEmptyAfterFirstChecks(env, s);
    var rejected := WordShapeScan(env, words);
    if rejected {
      return None;
    }
    if env.hasUnknownWords(s) {
      return None;
    }
    var paired := BracketsScan(s);
    if !paired {
      return None;
    }
    return Some(s);
  }
}
