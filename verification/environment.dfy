/** The optional value the Java code expresses with `null`. */
module Optional {
  datatype Option<+T> = None | Some(value: T)
}

/** What the pipeline consults but does not define: the Unicode character
    classes of java.lang.Character, and the dictionary check that runs the
    sentence through an external segmenter and word list. The character
    classes are exact on ASCII; beyond ASCII, and for the dictionary check,
    the model takes them as parameters, so every result holds for any choice
    of them. */
module Environment {

  predicate IsAsciiLetter(c: char) {
    'A' <= c <= 'Z' || 'a' <= c <= 'z'
  }

  datatype Env = Env(
    /** Character.isAlphabetic beyond ASCII */
    wideAlphabetic: char -> bool,
    /** Character.isUpperCase beyond ASCII */
    wideUpperCase: char -> bool,
    /** Character.isDigit beyond ASCII */
    wideDigit: char -> bool,
    /** Character.isLetter beyond ASCII, as used by StringUtils.isAlpha */
    wideLetter: char -> bool,
    /** PdfParser.hasUnknownWords: more than 40% of the segmenter's distinct
        tokens are missing from the dictionary */
    hasUnknownWords: string -> bool
  )
  {
    /** Character.isAlphabetic */
    predicate IsAlphabetic(c: char) {
      if c < '\U{80}' then IsAsciiLetter(c) else wideAlphabetic(c)
    }

    /** Character.isUpperCase */
    predicate IsUpperCase(c: char) {
      if c < '\U{80}' then 'A' <= c <= 'Z' else wideUpperCase(c)
    }

    /** Character.isDigit */
    predicate IsDigit(c: char) {
      if c < '\U{80}' then '0' <= c <= '9' else wideDigit(c)
    }

    /** Character.isLetter */
    predicate IsLetter(c: char) {
      if c < '\U{80}' then IsAsciiLetter(c) else wideLetter(c)
    }
  }
}
