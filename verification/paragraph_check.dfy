/** The paragraph filter of PdfParser: a paragraph goes on to sentence
    splitting only when every unit after the first lies in the legal ranges
    and the paragraph does not look like program code. */
module ParagraphCheck {
  import opened JavaText

  /** The legal code points: printable ASCII 32..126, the punctuation block
      8208..8231 (dashes, quotation marks, bullet, ellipsis) and the Latin
      ligatures 64256..64262. */
  predicate IsLegal(c: char) {
    || (' ' <= c <= '~')
    || ('\U{2010}' <= c <= '\U{2027}')
    || ('\U{FB00}' <= c <= '\U{FB06}')
  }

  /** PdfParser.isProgramCode: Java source (a `package`, `import`, `public` or
      `private` start, a Javadoc opener, a `);` or a brace anywhere) or markup
      (a `<` start). */
  function IsProgramCode(p: string): (r: bool)
    ensures r <==>
      || StartsWith(p, "package")
      || StartsWith(p, "import")
      || StartsWith(p, "public")
      || StartsWith(p, "private")
      || StartsWith(p, "/**")
      || StartsWith(p, "<")
      || Contains(p, ");")
      || (exists k | 0 <= k < |p| :: p[k] == '{' || p[k] == '}')
  {
    IndexOfContains(p, ");");
    IndexOfContains(p, "}");
    IndexOfContains(p, "{");
    ContainsSingle(p, '}');
    ContainsSingle(p, '{');
    || StartsWith(p, "package")
    || StartsWith(p, "import")
    || StartsWith(p, "public")
    || StartsWith(p, "private")
    || StartsWith(p, "/**")
    || IndexOf(p, ");", 0) >= 0
    || IndexOf(p, "}", 0) >= 0
    || IndexOf(p, "{", 0) >= 0
    || StartsWith(p, "<")
  }

  /** The acceptance rule of PdfParser.paragraphValid. */
  predicate ParagraphValid(p: string) {
    (forall i | 1 <= i < |p| :: IsLegal(p[i])) && !IsProgramCode(p)
  }

  /** PdfParser.paragraphValid as the Java code runs it: a scan from index 1
      that stops at the first illegal unit, then the program-code test. */
  method CheckParagraph(p: string) returns (valid: bool)
    ensures valid <==> (forall i | 1 <= i < |p| :: IsLegal(p[i])) && !IsProgramCode(p)
  {
    var i := 1;
    while i < |p|
      invariant 1 <= i <= |p| + 1
      invariant forall k | 1 <= k < i && k < |p| :: IsLegal(p[k])
    {
      var c := p[i];
      if '\U{2010}' <= c <= '\U{2027}' {
      } else if ' ' <= c <= '~' {
      } else if '\U{FB00}' <= c <= '\U{FB06}' {
      } else {
        return false;
      }
      i := i + 1;
    }
    if IsProgramCode(p) {
      return false;
    }
    return true;
  }

  /** The first unit is never inspected: any first unit, legal or not, gives
      the same verdict as long as it does not change the program-code test. */
  lemma FirstUnitExempt(c: char, d: char, rest: string)
    requires IsProgramCode([c] + rest) == IsProgramCode([d] + rest)
    ensures ParagraphValid([c] + rest) == ParagraphValid([d] + rest)
  {
    assert forall i | 1 <= i < |rest| + 1 :: ([c] + rest)[i] == ([d] + rest)[i];
  }
}
