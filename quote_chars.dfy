/**
 * The quotation marks the engines recognise, their kinds and roles, the segments the
 * wrappers emit, and the curly-to-ASCII reset every engine runs first.
 */
module QuoteChars {
  import opened Text

  /** Single (') or double (") quotation mark. */
  datatype Kind = Single | Double

  /** The role a paired quotation mark plays. */
  datatype Role = Open | Close

  /** A piece of wrapped text: literal text, or the start or end of a quotation. */
  datatype Segment = TextSegment(content: string) | QuoteOpen | QuoteClose

  /**
   * Every prefix holds at least as many Opens as Closes, and the whole holds as many of
   * each: no quotation closes before it opens.
   */
  ghost predicate WellNested(roles: seq<Role>)
  {
    (forall j :: 0 <= j <= |roles| ==> multiset(roles[..j])[Close] <= multiset(roles[..j])[Open]) &&
    multiset(roles)[Open] == multiset(roles)[Close]
  }

  /** The single quotation mark variants: ASCII ', ‘, ’, ‚, ‹ and ›. */
  const SingleVariants: set<char> :=
    {'\'', '\U{2018}', '\U{2019}', '\U{201A}', '\U{2039}', '\U{203A}'}

  /** The double quotation mark variants: ASCII ", “, ”, „, « and ». */
  const DoubleVariants: set<char> :=
    {'"', '\U{201C}', '\U{201D}', '\U{201E}', '\U{00AB}', '\U{00BB}'}

  /** The ASCII marks every variant is reset to, and that the finders report. */
  const AsciiQuotes: set<char> := {'\'', '"'}

  /** Every variant, single and double. */
  const CurlyVariants: set<char> := SingleVariants + DoubleVariants

  lemma VariantsAreNotLetters()
    ensures forall c :: c in CurlyVariants ==> !IsLetter(c) && !IsNumber(c) && !IsSpace(c)
  {
  }

  /** The character at index `i` has a letter on neither side, or on one side only. */
  predicate NotBetweenLetters(text: string, i: int)
    requires 0 <= i < |text|
  {
    i == 0 || i == |text| - 1 || !IsLetter(text[i - 1]) || !IsLetter(text[i + 1])
  }

  /**
   * The mark at index `i` is a variant without a letter before it or without a letter
   * after it: `(?<!\p{L})[class]|[class](?!\p{L})`.
   */
  predicate ResetsAt(text: string, variants: set<char>, i: nat)
    requires i < |text|
  {
    text[i] in variants && NotBetweenLetters(text, i)
  }

  /**
   * Replaces every variant that looks like a quotation mark (no letter before it, or no
   * letter after it) by the ASCII mark; a variant between two letters, an apostrophe as
   * in "don’t", is kept.
   */
  function ResetToAscii(text: string, variants: set<char>, ascii: char): (r: string)
    ensures |r| == |text|
  {
    seq(|text|, i requires 0 <= i < |text| => if ResetsAt(text, variants, i) then ascii else text[i])
  }

  /**
   * What the reset keeps and what it changes: letters and every character outside the
   * variant set are kept, an apostrophe between letters is kept, and every other variant
   * becomes the ASCII mark.
   */
  lemma ResetToAsciiEffect(text: string, variants: set<char>, ascii: char)
    ensures forall i :: 0 <= i < |text| && text[i] !in variants ==> ResetToAscii(text, variants, ascii)[i] == text[i]
    ensures forall i :: 0 < i < |text| - 1 && IsLetter(text[i - 1]) && IsLetter(text[i + 1])
              ==> ResetToAscii(text, variants, ascii)[i] == text[i]
    ensures forall i :: 0 <= i < |text| && text[i] in variants && NotBetweenLetters(text, i)
              ==> ResetToAscii(text, variants, ascii)[i] == ascii
  {
  }

  /**
   * Resetting twice is resetting once, so running an engine again over its own output
   * starts from the same ASCII text.
   */
  lemma ResetToAsciiIdempotent(text: string, variants: set<char>, ascii: char)
    requires ascii in variants
    requires forall c :: c in variants ==> !IsLetter(c)
    ensures ResetToAscii(ResetToAscii(text, variants, ascii), variants, ascii) == ResetToAscii(text, variants, ascii)
  {
    var once := ResetToAscii(text, variants, ascii);
    assert forall i :: 0 <= i < |text| ==> (IsLetter(once[i]) <==> IsLetter(text[i]));
    forall i | 0 <= i < |text|
      ensures ResetToAscii(once, variants, ascii)[i] == once[i]
    {
      assert ResetsAt(once, variants, i) ==> ResetsAt(text, variants, i);
    }
  }

  /** A text whose only variants are the ASCII mark itself is left as it is. */
  lemma ResetKeeps(text: string, variants: set<char>, ascii: char)
    requires forall i :: 0 <= i < |text| ==> text[i] !in variants || text[i] == ascii
    ensures ResetToAscii(text, variants, ascii) == text
  {
  }

  /** The curly-to-ASCII reset the engines run first: single variants, then double variants. */
  function Normalized(text: string): (r: string)
    ensures |r| == |text|
  {
    ResetToAscii(ResetToAscii(text, SingleVariants, '\''), DoubleVariants, '"')
  }

  /** A text whose only marks are ASCII ones is left as it is by the reset. */
  lemma NormalizedKeepsAscii(text: string)
    requires forall i :: 0 <= i < |text| ==> text[i] in AsciiQuotes || text[i] !in CurlyVariants
    ensures Normalized(text) == text
  {
    var once := ResetToAscii(text, SingleVariants, '\'');
    ResetToAsciiEffect(text, SingleVariants, '\'');
    assert once == text;
    ResetToAsciiEffect(text, DoubleVariants, '"');
  }
}
