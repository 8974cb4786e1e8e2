# PdfParser text cleaning, modelled in Dafny

`PdfParser` turns the raw text a PDF extractor produces into a list of
English sentences. This project models that pipeline and proves properties
of it:

- **Line scan** (`LineScan`). `toSentence` splits the text at `\n` and `\r` and trims every line. It flushes the paragraph at each blank line and joins a line ending in one of seven dashes to the next non-blank line. `addLineToParagraph` appends each line followed by a space, and drops numeric headings.
- **Paragraph validity** (`ParagraphCheck`). `paragraphValid` accepts a paragraph when every unit after the first lies in a legal code-point range and `isProgramCode` does not fire.
- **Period protection** (`PeriodGuard`). `prepareSeg` rewrites `.)` and `!)` to `. `. It then replaces every period that is neither last nor followed by whitespace with the marker 杨尚川, so that splitting at periods does not cut abbreviations or decimals. `segSentence` later turns the marker back into a period.
- **Sentence acceptance** (`SentenceCheck`). `processSentence` runs nine checks in order and returns the sentence unchanged or nothing.
- **Pipeline** (`Pipeline`). This module covers `process`, `segSentence` and `toSentence` as a whole.

Every operation built around a Java loop appears twice:

- as a functional definition, which the lemmas reason about;
- as a method that follows the Java loop, proved equal to that definition.

These are the loops of `toSentence` (`Pipeline.ToSentenceScan`, with `LineScan.JoinHyphenated` for the inner dash loop), `process` (`Pipeline.ProcessScan`), `segSentence` (`Pipeline.SegSentenceScan`), `paragraphValid` (`ParagraphCheck.CheckParagraph`), `prepareSeg` (`PeriodGuard.ProtectScan` and `PeriodGuard.PrepareSegScan`), and the counting loops of `processSentence` (`SentenceCheck.FirstWordScan`, `CapWordsScan`, `LongWordsScan`, `SpecialWordsScan`, `BracketsScan` and `ProcessSentenceScan`). The loop-free operations, such as `isProgramCode`, `addLineToParagraph`, the ignore-list and numeric-last-word checks, the `replace` rewrites, the marker restore and the finishing of a sentence, have only the functional form.

Java's character classes beyond ASCII, and the dictionary check, are fields of the datatype `Environment.Env`. Every result holds for any choice of them. On ASCII the classes are exact.

Two details of the dash join, as the code has it:

- A line ending in a dash followed by a blank line is left as it is. The index still advances and the loop tests the line again. So blank lines after a trailing dash are skipped without ending the paragraph (`LineScan.HyphenBridgesBlankLine`), and a blank line does not always separate two paragraphs.
- The dash set is `-` and U+2010..U+2015.

## Model

| member | source | states |
|---|---|---|
| JavaText.FieldsRebuild | src/main/java/org/apdplat/superword/tools/PdfParser.java:471 | `split` with a one-class regex loses only the delimiters: there is one more piece than delimiter units, and the pieces with the delimiter units put back between them, in order, are the text (the same split cuts the text into lines at line 198) |
| JavaText.SplitFields | src/main/java/org/apdplat/superword/tools/PdfParser.java:471 | `split` with limit 0 gives the text itself when no delimiter occurs; otherwise it keeps the leading pieces of the full cut, drops every trailing empty piece and no other |
| LineScan.Dehyphenate | src/main/java/org/apdplat/superword/tools/PdfParser.java:209-232 | the hyphen loop consumes lines from `i` to the returned index, which stays inside the text; the joined line ends in a dash only if the last consumed line is the last line of the text; a line not ending in a dash is returned unchanged with the same index |
| LineScan.DehyphenateLength | src/main/java/org/apdplat/superword/tools/PdfParser.java:217-227 | the joined line is as long as the line plus, for each consumed non-blank line, its trimmed length less one for the dash it replaces; a blank next line adds nothing |
| LineScan.DehyphenateJoin | src/main/java/org/apdplat/superword/tools/PdfParser.java:217-227 | a line ending in a dash followed by a non-blank line becomes the line without its dash followed directly by the trimmed next line, and the joins go on from that next line |
| LineScan.DehyphenatePrefix | src/main/java/org/apdplat/superword/tools/PdfParser.java:219-224 | joining keeps everything of the line except its trailing dash as a prefix of the result |
| LineScan.JoinHyphenated | src/main/java/org/apdplat/superword/tools/PdfParser.java:209-232 | the `while` loop as written (the index advances or the loop breaks) computes Dehyphenate and leaves a dash at the end only at the last line |
| LineScan.DehyphenateSkipsBlank | src/main/java/org/apdplat/superword/tools/PdfParser.java:222-227 | a blank line after a trailing dash is skipped: the loop goes on from the next index with the line unchanged |
| LineScan.HyphenBridgesBlankLine | src/main/java/org/apdplat/superword/tools/PdfParser.java:199-245 | the lines `a-`, blank, `b.` make the single paragraph `ab. `: the blank line neither flushes nor separates |
| LineScan.AddLineToParagraph | src/main/java/org/apdplat/superword/tools/PdfParser.java:249-266 | the paragraph is unchanged, or gains the line plus one space; it gains it exactly when the line is not blank and is not a numeric heading (digit first, alphabetic last, next line blank or starting with a digit or capital) |
| LineScan.LastLineNeverHeading | src/main/java/org/apdplat/superword/tools/PdfParser.java:253-264 | the heading rule needs a next line: a non-blank last line is always appended |
| LineScan.Step | src/main/java/org/apdplat/superword/tools/PdfParser.java:199-243 | each pass of the `for` loop advances the index by at least one, flushes nothing or the trimmed paragraph, and keeps the paragraph empty or ending in a space |
| LineScan.ScanFromTrimmed | src/main/java/org/apdplat/superword/tools/PdfParser.java:199-245 | every paragraph the scan flushes at a blank line is trimmed; only the final flush may not be |
| LineScan.FinalFlushUntrimmed | src/main/java/org/apdplat/superword/tools/PdfParser.java:245 | the final flush is not trimmed: the last paragraph keeps the space after its last line |
| LineScan.BlankLineFlushes | src/main/java/org/apdplat/superword/tools/PdfParser.java:200-206 | a blank line flushes the trimmed paragraph and the scan restarts from an empty one |
| LineScan.PlainParagraphs | src/main/java/org/apdplat/superword/tools/PdfParser.java:194-247 | when no line ends in a dash or starts with a digit, the paragraphs are exactly the blank-line-separated blocks of trimmed lines, each line followed by a space, with all but the last block trimmed |
| ParagraphCheck.IsProgramCode | src/main/java/org/apdplat/superword/tools/PdfParser.java:268-283 | true iff the paragraph starts with `package`, `import`, `public`, `private`, `/**` or `<`, or contains `);`, `{` or `}` |
| ParagraphCheck.CheckParagraph | src/main/java/org/apdplat/superword/tools/PdfParser.java:299-456 | valid iff every unit from index 1 on lies in [32,126], [8208,8231] or [64256,64262], and the paragraph is not program code |
| ParagraphCheck.FirstUnitExempt | src/main/java/org/apdplat/superword/tools/PdfParser.java:303 | the first unit is never inspected: changing it changes validity only through the program-code test |
| PeriodGuard.Rewrite | src/main/java/org/apdplat/superword/tools/PdfParser.java:642-643 | the `.)` and `!)` rewrites keep the length of the paragraph |
| PeriodGuard.RewriteNormalizes | src/main/java/org/apdplat/superword/tools/PdfParser.java:642-643 | after the two rewrites no `.)` and no `!)` is left in the paragraph |
| PeriodGuard.NextPeriod | src/main/java/org/apdplat/superword/tools/PdfParser.java:650 | `indexOf(".", index)` yields the first period at or after the index, or -1 when no period follows |
| PeriodGuard.ScanPeriod | src/main/java/org/apdplat/superword/tools/PdfParser.java:651-667 | at one period, the copied stretch and the period or marker extend the output so that it stays a prefix of the unit-by-unit protection |
| PeriodGuard.ProtectScan | src/main/java/org/apdplat/superword/tools/PdfParser.java:646-672 | the `indexOf` loop builds exactly the unit-by-unit protection: a period that is not last and not followed by whitespace becomes the marker, everything else is copied |
| PeriodGuard.ProtectSafe | src/main/java/org/apdplat/superword/tools/PdfParser.java:650-668 | in the protected text every period is the last unit or is followed by whitespace |
| PeriodGuard.PrepareSegPeriods | src/main/java/org/apdplat/superword/tools/PdfParser.java:641-678 | in the output of prepareSeg every period is the last unit or is followed by whitespace, whether or not the input held a period |
| PeriodGuard.PrepareSegSpaced | src/main/java/org/apdplat/superword/tools/PdfParser.java:641-678 | when whitespace after the first unit is only ever a space, every period prepareSeg keeps is last or followed by a space |
| PeriodGuard.RestoreProtect | src/main/java/org/apdplat/superword/tools/PdfParser.java:661 | for text without the marker, turning markers back into periods undoes the protection |
| PeriodGuard.PrepareSegRoundTrip | src/main/java/org/apdplat/superword/tools/PdfParser.java:641-678 | for input without the marker, restoring periods in prepareSeg's output gives the rewritten input, trimmed when it held a period and untouched when it did not |
| PeriodGuard.PrepareSegScan | src/main/java/org/apdplat/superword/tools/PdfParser.java:641-678 | prepareSeg as written computes PrepareSeg, its periods are safe, and it completes both round trips |
| PeriodGuard.RestoreClean | src/main/java/org/apdplat/superword/tools/PdfParser.java:485 | after `replace("杨尚川", ".")` the text holds no marker, whatever it held before |
| PeriodGuard.RestoreLast | src/main/java/org/apdplat/superword/tools/PdfParser.java:481-485 | restoring ends with a period when the text ended with the marker and keeps the last unit otherwise |
| SentenceCheck.HasInvalidFirstWord | src/main/java/org/apdplat/superword/tools/PdfParser.java:552-561 | invalid iff the sentence is empty, its first unit is not upper case, or it holds no alphabetic unit |
| SentenceCheck.FirstWordScan | src/main/java/org/apdplat/superword/tools/PdfParser.java:552-561 | the counting loop computes HasInvalidFirstWord |
| SentenceCheck.LeadingNonCapitalRejected | src/main/java/org/apdplat/superword/tools/PdfParser.java:560 | a sentence whose first unit is an ASCII unit other than a capital is rejected, even when its first word is capitalised |
| SentenceCheck.CapWordCountExtremes | src/main/java/org/apdplat/superword/tools/PdfParser.java:571-577 | the capitalised-word count is zero iff no word starts with a capital, and the word count iff every word does |
| SentenceCheck.CapWordsScan | src/main/java/org/apdplat/superword/tools/PdfParser.java:571-579 | the loop decides whether more than 40% of the words are capitalised |
| SentenceCheck.LongestWordLength | src/main/java/org/apdplat/superword/tools/PdfParser.java:581-589 | the maximum is at least the length of every word without `http://`, and is zero or the length of one of them |
| SentenceCheck.HasLongWordsIff | src/main/java/org/apdplat/superword/tools/PdfParser.java:581-589 | the check fires iff some word without `http://` is longer than 18 units |
| SentenceCheck.LongWordsScan | src/main/java/org/apdplat/superword/tools/PdfParser.java:581-589 | the loop computes HasLongWords |
| SentenceCheck.StripOrderFree | src/main/java/org/apdplat/superword/tools/PdfParser.java:594-596 | removing the punctuation entries one `replace` at a time, in any order that lists each entry once, gives the word without its punctuation units |
| SentenceCheck.EntriesCoverPunctuation | src/main/java/org/apdplat/superword/tools/PdfParser.java:58-85 | the entries in the order the static block adds them are such an order |
| SentenceCheck.EntriesCover | src/main/java/org/apdplat/superword/tools/PdfParser.java:58-85 | each of the 25 single-unit punctuation marks is an entry of its own |
| SentenceCheck.EntriesArePunctuation | src/main/java/org/apdplat/superword/tools/PdfParser.java:58-85 | every entry, `==` included, is non-empty and made of punctuation units only |
| SentenceCheck.SpecialWordCountZero | src/main/java/org/apdplat/superword/tools/PdfParser.java:591-600 | the special-word count is zero iff no word, stripped of punctuation, is non-blank and not all letters |
| SentenceCheck.MaxTokensMonotone | src/main/java/org/apdplat/superword/tools/PdfParser.java:601 | the largest word count at which k special words reject a sentence grows with k |
| SentenceCheck.SpecialWordsTolerance | src/main/java/org/apdplat/superword/tools/PdfParser.java:601 | for 8 to 54 words, the sentence is rejected iff it has two or more special words |
| SentenceCheck.SpecialTest | src/main/java/org/apdplat/superword/tools/PdfParser.java:594-599 | the Java test on a stripped word agrees with IsSpecialWord |
| SentenceCheck.SpecialWordsScan | src/main/java/org/apdplat/superword/tools/PdfParser.java:591-602 | the nested loop, with the punctuation set in any iteration order, computes HasSpecialWords |
| SentenceCheck.BracketsScan | src/main/java/org/apdplat/superword/tools/PdfParser.java:615-633 | the `switch` loop decides whether the `[`, `“`, `(` count equals the `]`, `”`, `)` count and the `"` count is even |
| SentenceCheck.WordShapeScan | src/main/java/org/apdplat/superword/tools/PdfParser.java:520-534 | the capitalisation, long-word and special-word checks, run in order, reject exactly when one of the three predicates holds |
| SentenceCheck.ProcessSentence | src/main/java/org/apdplat/superword/tools/PdfParser.java:497-550 | the result is nothing or the sentence unchanged, and nothing when the sentence is blank or its trim ends with `,` |
| SentenceCheck.AcceptedSentence | src/main/java/org/apdplat/superword/tools/PdfParser.java:497-546 | an accepted sentence starts with a capital and holds an alphabetic unit. It has at least 10 words and a non-numeric last word. At most 40% of its words are capitalised, no word without `http://` is longer than 18 units, and it has few enough special words. The dictionary approves it, and its brackets and quotes are paired |
| SentenceCheck.WordsNonEmptyAfterFirstChecks | src/main/java/org/apdplat/superword/tools/PdfParser.java:571-577 | once the first two checks pass, splitting at whitespace yields no empty word, so `word.charAt(0)` in hasTooManyCapWords always has a unit to read |
| SentenceCheck.ProcessSentenceScan | src/main/java/org/apdplat/superword/tools/PdfParser.java:497-546 | the checks as the Java code runs them, each through its own loop, compute ProcessSentence |
| Pipeline.Finish | src/main/java/org/apdplat/superword/tools/PdfParser.java:481-485 | the finished sentence is non-empty, holds no marker and ends in a period or a non-alphabetic unit |
| Pipeline.Emit | src/main/java/org/apdplat/superword/tools/PdfParser.java:472-486 | a blank fragment yields nothing; anything collected is well formed |
| Pipeline.SegSentenceAccepted | src/main/java/org/apdplat/superword/tools/PdfParser.java:463-496 | every collected sentence is a fragment of the prepared paragraph that processSentence accepted unchanged, then finished |
| Pipeline.LaterFragmentsRejected | src/main/java/org/apdplat/superword/tools/PdfParser.java:471-476 | in a valid paragraph, a fragment that follows a kept period is empty or starts with a space, and segSentence collects nothing from it |
| Pipeline.SegSentenceLeadingOnly | src/main/java/org/apdplat/superword/tools/PdfParser.java:463-496 | every sentence segSentence collects from a valid paragraph comes from its first fragment or from a fragment after a delimiter other than the period |
| Pipeline.SegSentenceTrimmedCollects | src/main/java/org/apdplat/superword/tools/PdfParser.java:471-486 | with each fragment trimmed first, every fragment whose trimmed text processSentence accepts is collected, wherever it stands, and everything collected is well formed |
| Pipeline.SegSentenceWellFormed | src/main/java/org/apdplat/superword/tools/PdfParser.java:463-496 | every sentence segSentence collects is well formed and holds none of the delimiters `．`, `。`, `•` |
| Pipeline.EmitScan | src/main/java/org/apdplat/superword/tools/PdfParser.java:472-486 | the loop body for one fragment: skip it when blank or rejected, otherwise append a period after a final alphabetic unit and restore the markers, as Emit |
| Pipeline.SegSentenceScan | src/main/java/org/apdplat/superword/tools/PdfParser.java:463-496 | the `for` loop over the fragments computes SegSentence |
| Pipeline.Process | src/main/java/org/apdplat/superword/tools/PdfParser.java:285-297 | a blank or invalid paragraph contributes no sentence |
| Pipeline.ProgramCodeDropped | src/main/java/org/apdplat/superword/tools/PdfParser.java:451-454 | a paragraph that looks like program code contributes no sentence |
| Pipeline.ProcessScan | src/main/java/org/apdplat/superword/tools/PdfParser.java:285-297 | process as written computes Process |
| Pipeline.FlushAtBlank | src/main/java/org/apdplat/superword/tools/PdfParser.java:200-206 | a blank line hands the trimmed paragraph to process and empties it; any other line changes nothing |
| Pipeline.JoinAndAdd | src/main/java/org/apdplat/superword/tools/PdfParser.java:209-242 | the hyphen loop followed by addLineToParagraph, with the line after the last consumed one as next line, gives Dehyphenate's index plus one and AddLineToParagraph's paragraph |
| Pipeline.ScanLine | src/main/java/org/apdplat/superword/tools/PdfParser.java:199-243 | one pass of the `for` body flushes the paragraph's sentences at a blank line, and moves to the index and paragraph of Step |
| Pipeline.ToSentenceScan | src/main/java/org/apdplat/superword/tools/PdfParser.java:194-247 | toSentence as written, with its index advanced inside the hyphen loop, collects the sentences of each scanned paragraph in order |
| Pipeline.ToSentenceWellFormed | src/main/java/org/apdplat/superword/tools/PdfParser.java:194-247 | every sentence toSentence returns is well formed and free of `．`, `。`, `•` |

## Left out

- PDF extraction (`parsePdfFileToPlainText`, a Tika call) is left out: the text is the input.
- File-system glue (`parseDirectory`, `parseZip`, `parseFile`, `invalid`, `prepareTarget`, `main`) is left out: it walks files, opens ZIP archives and writes results.
- Logging is left out. So are the `CORRUPT_CHAR` and `SENTENCE_LENGTH_INFO` accumulators, which only record diagnostics and do not change the output.
- `hasUnknownWords` calls an external segmenter and dictionary. It is the `hasUnknownWords` field of `Env`, a predicate the caller supplies.
- `Character.isAlphabetic`, `isUpperCase`, `isDigit` and `isLetter` beyond ASCII are the `Env` fields. `isWhitespace`, `String.trim`, the regex `\s` and `StringUtils.isBlank` are modelled exactly, with `isWhitespace` as in JDK 9 and later. JDK 8 also counts U+180E as whitespace, so there a line holding only U+180E would be blank.
- Strings are sequences of Unicode scalar values, whereas Java indexes UTF-16 units. The two agree on text within the Basic Multilingual Plane. A supplementary character would be one unit here and two in Java, and the range check of `paragraphValid` would reject its surrogates. They part at index 0: the model exempts a supplementary character there, while Java inspects its low surrogate at index 1 and rejects the paragraph.
- SentenceCheck.CapWordsScan: the 0.4f threshold is modelled as the integer test `5 * cap > 2 * n`. Java computes `words.length * 0.4f` in single precision, so the two agree for every word count up to 10485761. The first disagreement is at 10485762 words with 4194305 capitalised: the product rounds to 4194305.0f, and Java does not reject, while the integer test does.
- SentenceCheck.HasSpecialWords: `count > Math.log(n) / 2` is modelled as the integer table `MaxTokensFor`, with n <= floor(e^(2k)) for k special words. The table is exact where the real-number comparison is decided away from a rounding tie. Its last entry (k >= 11) exceeds every Java array length.
- SentenceCheck.IsCapWord: Java's `word.charAt(0)` would throw on an empty word. The model treats an empty word as not capitalised instead, and WordsNonEmptyAfterFirstChecks shows no empty word reaches that point.
- SentenceCheck.ProcessSentenceScan: the `HashSet` iteration order is not specified by Java. The method uses the order the static block adds the entries, and StripOrderFree shows every order gives the same result.
- `AntiRobotFilter` (a servlet filter with shared counters and a scheduler) and `Definition` (an HTTP scraper) are outside the text pipeline and are not part of this model.

## Findings

| source | as written | input that shows it | evidently intended | confidence | as-written member | corrected member |
|---|---|---|---|---|---|---|
| src/main/java/org/apdplat/superword/tools/PdfParser.java:471-476 | segSentence passes each fragment to processSentence untrimmed. In a valid paragraph a kept period is followed by a space, so the next fragment starts with a space. `charAt(0)` in hasInvalidFirstWord then rejects it | the paragraph `This is the first sentence of the test paragraph here. This is the second sentence of the test paragraph here.` yields at most the first sentence | every accepted sentence of the paragraph is collected, the second one too | not executed; follows from the proved lemma | Pipeline.LaterFragmentsRejected | Pipeline.SegSentenceTrimmedCollects |

The pipeline (`Pipeline.SegSentence`, `Pipeline.ToSentence` and their methods) keeps the behaviour as written, because each method is proved equal to the Java loop it follows. The corrected variant is `Pipeline.SegSentenceTrimmed`, which trims each fragment before the checks.
