/**
 * The locale quote styles: one glyph table per supported language code, and the lookup of
 * a style by its code.
 */
module QuoteStyle {
  import opened Wrappers
  import opened Text
  import opened QuoteChars
  import opened QuotesReplacer

  /** The supported styles. */
  datatype Style = English | German | French | Spanish

  /** The language code each style is backed by. */
  function Code(s: Style): string
  {
    match s
    case English => "en"
    case German => "de"
    case French => "fr"
    case Spanish => "es"
  }

  /** `fromLang`: the style with exactly this code, or none. */
  function FromLang(lang: string): (r: Option<Style>)
    ensures r.Some? ==> Code(r.value) == lang
  {
    if lang == "en" then Some(English)
    else if lang == "de" then Some(German)
    else if lang == "fr" then Some(French)
    else if lang == "es" then Some(Spanish)
    else None
  }

  /** `replacer`: the glyph pairs of each style, tagged with the style's own code. */
  function ReplacerOf(s: Style): (r: Replacer)
    ensures r.lang == Code(s)
  {
    match s
    case English => Replacer(Code(s), QuotePair("‘", "’"), QuotePair("“", "”"))
    case German => Replacer(Code(s), QuotePair("‚", "‘"), QuotePair("„", "“"))
    case French => Replacer(Code(s), QuotePair("‹\U{202F}", "\U{202F}›"), QuotePair("«\U{202F}", "\U{202F}»"))
    case Spanish => Replacer(Code(s), QuotePair("„", "“"), QuotePair("«", "»"))
  }

  /** Every style is found again from its own code. */
  lemma FromLangCode(s: Style)
    ensures FromLang(Code(s)) == Some(s)
  {
  }

  /** Any code other than the four supported ones finds no style. */
  lemma FromLangUnsupported(lang: string)
    requires lang != "en" && lang != "de" && lang != "fr" && lang != "es"
    ensures FromLang(lang) == None
  {
  }

  /** German double quotations open low and close high: „ and “. */
  lemma GermanDoubles()
    ensures ReplacerOf(German).double == QuotePair("„", "“")
  {
  }

  /** Every French glyph keeps a narrow no-break space between the guillemet and the quoted text. */
  lemma FrenchNarrowSpaces()
    ensures var r := ReplacerOf(French);
            forall pair :: pair in {r.single, r.double} ==>
              |pair.opening| == 2 && pair.opening[1] == '\U{202F}' &&
              |pair.closing| == 2 && pair.closing[0] == '\U{202F}'
  {
  }

  /** `"Hallo"` in German becomes „Hallo“, and `'Hallo'` becomes ‚Hallo‘. */
  lemma GermanHallo()
    ensures Localize("\"Hallo\"", ReplacerOf(German)) == "„Hallo“"
    ensures Localize("'Hallo'", ReplacerOf(German)) == "‚Hallo‘"
  {
    var w := "Hallo";
    assert IsLetter(w[0]) && IsLetter(w[4]);
    QuotedWord(ReplacerOf(German), '"', w);
    QuotedWord(ReplacerOf(German), '\'', w);
    assert ['"'] + w + ['"'] == "\"Hallo\"";
    assert ['\''] + w + ['\''] == "'Hallo'";
  }

  /** `"Hello"` in English becomes “Hello”. */
  lemma EnglishHello()
    ensures Localize("\"Hello\"", ReplacerOf(English)) == "“Hello”"
  {
    var w := "Hello";
    assert IsLetter(w[0]) && IsLetter(w[4]);
    QuotedWord(ReplacerOf(English), '"', w);
    assert ['"'] + w + ['"'] == "\"Hello\"";
  }
}
