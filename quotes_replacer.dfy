/**
 * The glyph replacer: resets curly marks to ASCII, finds the marks, pairs them with one
 * counter per kind, and replaces each mark that got a role by the opening or closing
 * glyph of its kind, working from the last mark back to the first.
 */
module QuotesReplacer {
  import opened Wrappers
  import opened Text
  import opened QuoteChars
  import opened QuoteFinder
  import opened QuotePairing

  /** An opening and a closing glyph. */
  datatype QuotePair = QuotePair(opening: string, closing: string)

  /** A language code with the glyph pairs for single and double quotations. */
  datatype Replacer = Replacer(lang: string, single: QuotePair, double: QuotePair)

  /** The glyph for a mark: the pair of its kind, the side of its role. */
  function Glyph(r: Replacer, kind: Kind, role: Role): string
  {
    var pair := if kind == Single then r.single else r.double;
    if role == Open then pair.opening else pair.closing
  }

  /** The matches lie inside a text of length `n`, in order and without overlapping. */
  ghost predicate Laid(quotes: seq<QuoteMatch>, n: nat)
  {
    (forall k :: 0 <= k < |quotes| ==> quotes[k].position + quotes[k].length <= n) &&
    (forall k, l :: 0 <= k < l < |quotes| ==> quotes[k].position + quotes[k].length <= quotes[l].position)
  }

  /** Where the text after match `i - 1` starts. */
  function Start(quotes: seq<QuoteMatch>, i: nat): nat
    requires i <= |quotes|
  {
    if i == 0 then 0 else quotes[i - 1].position + quotes[i - 1].length
  }

  /** What stands in place of a match: its glyph when it has a role, else the mark itself. */
  function Replacement(text: string, r: Replacer, m: QuoteMatch, role: Option<Role>): string
    requires m.position + m.length <= |text|
  {
    if role.None? then text[m.position..m.position + m.length] else Glyph(r, m.kind, role.value)
  }

  lemma LaidStarts(quotes: seq<QuoteMatch>, n: nat, i: nat)
    requires Laid(quotes, n) && i <= |quotes|
    ensures Start(quotes, i) <= n
    ensures i < |quotes| ==> Start(quotes, i) <= quotes[i].position
  {
  }

  /** The output from the end of match `i - 1` on: the text between marks, and each mark's replacement. */
  ghost function Tail(text: string, r: Replacer, quotes: seq<QuoteMatch>, roles: seq<Option<Role>>, i: nat): string
    requires Laid(quotes, |text|) && |roles| == |quotes| && i <= |quotes|
    decreases |quotes| - i
  {
    LaidStarts(quotes, |text|, i);
    if i == |quotes| then text[Start(quotes, i)..]
    else
      text[Start(quotes, i)..quotes[i].position] + Replacement(text, r, quotes[i], roles[i]) +
      Tail(text, r, quotes, roles, i + 1)
  }

  /** The localised text: every mark with a role replaced by its glyph. */
  ghost function Localized(text: string, r: Replacer, quotes: seq<QuoteMatch>, roles: seq<Option<Role>>): string
    requires Laid(quotes, |text|) && |roles| == |quotes|
  {
    Tail(text, r, quotes, roles, 0)
  }

  /** The found matches are laid out in the text. */
  lemma FoundLaid(text: string)
    ensures Laid(Scan(text, AsciiQuotes, 0), |text|)
  {
    FoundMatches(text, AsciiQuotes);
  }

  /** The marks of a text with the roles of the counter walk. */
  ghost function Localize(text: string, r: Replacer): string
  {
    var quotes := Scan(text, AsciiQuotes, 0);
    FoundLaid(text);
    Localized(text, r, quotes, CountWalk(quotes).roles)
  }

  /** Unfolding one match of the tail, with the text before it. */
  lemma TailStep(text: string, r: Replacer, quotes: seq<QuoteMatch>, roles: seq<Option<Role>>, i: nat)
    requires Laid(quotes, |text|) && |roles| == |quotes| && i < |quotes|
    ensures Start(quotes, i + 1) == quotes[i].position + quotes[i].length <= |text|
    ensures text[..Start(quotes, i)] + Tail(text, r, quotes, roles, i) ==
            text[..quotes[i].position] + Replacement(text, r, quotes[i], roles[i]) + Tail(text, r, quotes, roles, i + 1)
  {
    LaidStarts(quotes, |text|, i);
    var p := quotes[i].position;
    assert text[..Start(quotes, i)] + text[Start(quotes, i)..p] == text[..p];
  }

  /** One step of the reverse loop keeps the invariant: the replacement of mark `i` is spliced in. */
  lemma ReverseStep(text: string, r: Replacer, quotes: seq<QuoteMatch>, roles: seq<Option<Role>>, i: nat, result: string)
    requires Laid(quotes, |text|) && |roles| == |quotes| && i < |quotes|
    requires result == text[..Start(quotes, i + 1)] + Tail(text, r, quotes, roles, i + 1)
    ensures var m := quotes[i];
            m.position + m.length <= |result| &&
            (roles[i] == None ==> result == text[..Start(quotes, i)] + Tail(text, r, quotes, roles, i)) &&
            (roles[i] != None ==>
               result[..m.position] + Glyph(r, m.kind, roles[i].value) + result[m.position + m.length..] ==
               text[..Start(quotes, i)] + Tail(text, r, quotes, roles, i))
  {
    TailStep(text, r, quotes, roles, i);
    var m := quotes[i];
    var a := text[..m.position + m.length];
    var b := Tail(text, r, quotes, roles, i + 1);
    assert result[..m.position] == text[..m.position] by {
      assert result[..m.position] == a[..m.position];
    }
    assert result[m.position + m.length..] == b;
    assert text[..m.position] + text[m.position..m.position + m.length] == a;
  }

  // ---------------------------------------------------------------------------
  // The imperative operations

  /**
   * `localizeWithStack`: find, pair with counters, then replace from the last mark to the
   * first, so the positions of the marks not yet replaced stay valid.
   */
  method LocalizeWithStack(r: Replacer, text: string) returns (result: string)
    ensures result == Localize(text, r)
  {
    var quotes := Find(text, AsciiQuotes);
    var roles := AssignRolesCounters(quotes);
    FoundLaid(text);
    result := text;
    var i := |quotes|;
    LaidStarts(quotes, |text|, i);
    while i > 0
      invariant 0 <= i <= |quotes|
      invariant Start(quotes, i) <= |text|
      invariant result == text[..Start(quotes, i)] + Tail(text, r, quotes, roles, i)
    {
      i := i - 1;
      ReverseStep(text, r, quotes, roles, i, result);
      LaidStarts(quotes, |text|, i);
      var m := quotes[i];
      if roles[i] == None {
        continue;
      }
      var pair := if m.kind == Single then r.single else r.double;
      var replacement := if roles[i] == Some(Open) then pair.opening else pair.closing;
      result := result[..m.position] + replacement + result[m.position + m.length..];
    }
    assert text[..Start(quotes, 0)] == [];
  }

  /** `applyTo`: reset the curly marks, then localise. */
  method ApplyTo(r: Replacer, text: string) returns (result: string)
    ensures result == Localize(Normalized(text), r)
  {
    var normalized := ResetToAscii(text, SingleVariants, '\'');
    normalized := ResetToAscii(normalized, DoubleVariants, '"');
    result := LocalizeWithStack(r, normalized);
  }

  // ---------------------------------------------------------------------------
  // Replacing from the end is replacing every mark in place

  /** What stands in place of character `a`: the glyph of a mark with a role there, else the character. */
  function SubstituteAt(text: string, r: Replacer, quotes: seq<QuoteMatch>, roles: seq<Option<Role>>,
                        byPosition: map<nat, nat>, a: nat): string
    requires a < |text| && |roles| == |quotes|
    requires forall p :: p in byPosition ==> byPosition[p] < |quotes|
  {
    if a in byPosition && roles[byPosition[a]].Some? then
      Glyph(r, quotes[byPosition[a]].kind, roles[byPosition[a]].value)
    else [text[a]]
  }

  /** Every character from `a` on, each substituted in place, independently of the others. */
  function Substituted(text: string, r: Replacer, quotes: seq<QuoteMatch>, roles: seq<Option<Role>>,
                       byPosition: map<nat, nat>, a: nat): string
    requires |roles| == |quotes|
    requires forall p :: p in byPosition ==> byPosition[p] < |quotes|
    decreases |text| - a
  {
    if a >= |text| then "" else SubstituteAt(text, r, quotes, roles, byPosition, a) + Substituted(text, r, quotes, roles, byPosition, a + 1)
  }

  /** A stretch without a mark that has a role is copied as it is. */
  lemma {:induction false} SubstitutedPlain(text: string, r: Replacer, quotes: seq<QuoteMatch>, roles: seq<Option<Role>>,
                                            byPosition: map<nat, nat>, a: nat, b: nat)
    requires |roles| == |quotes|
    requires forall p :: p in byPosition ==> byPosition[p] < |quotes|
    requires a <= b <= |text|
    requires forall p :: a <= p < b && p in byPosition ==> roles[byPosition[p]].None?
    ensures Substituted(text, r, quotes, roles, byPosition, a) == text[a..b] + Substituted(text, r, quotes, roles, byPosition, b)
    decreases b - a
  {
    if a < b {
      SubstitutedPlain(text, r, quotes, roles, byPosition, a + 1, b);
      PlainStep(text, r, quotes, roles, byPosition, a, b);
    }
  }

  /** The plain stretch from `a + 1` extends to `a`, whose character is copied. */
  lemma PlainStep(text: string, r: Replacer, quotes: seq<QuoteMatch>, roles: seq<Option<Role>>,
                  byPosition: map<nat, nat>, a: nat, b: nat)
    requires |roles| == |quotes|
    requires forall p :: p in byPosition ==> byPosition[p] < |quotes|
    requires a < b <= |text|
    requires a in byPosition ==> roles[byPosition[a]].None?
    requires Substituted(text, r, quotes, roles, byPosition, a + 1) ==
             text[a + 1..b] + Substituted(text, r, quotes, roles, byPosition, b)
    ensures Substituted(text, r, quotes, roles, byPosition, a) == text[a..b] + Substituted(text, r, quotes, roles, byPosition, b)
  {
    var rest := Substituted(text, r, quotes, roles, byPosition, b);
    assert SubstituteAt(text, r, quotes, roles, byPosition, a) == [text[a]];
    HeadSplit(text, a, b, rest);
  }

  lemma HeadSplit(text: string, a: nat, b: nat, rest: string)
    requires a < b <= |text|
    ensures [text[a]] + (text[a + 1..b] + rest) == text[a..b] + rest
  {
    assert text[a..b] == [text[a]] + text[a + 1..b];
  }

  /** The matches the finder reports: one code point each, in strictly ascending order, inside the text. */
  ghost predicate Marks(quotes: seq<QuoteMatch>, n: nat)
  {
    PositionsIncreasing(quotes) &&
    forall k :: 0 <= k < |quotes| ==> quotes[k].length == 1 && quotes[k].position < n
  }

  lemma MarksLaid(quotes: seq<QuoteMatch>, n: nat)
    requires Marks(quotes, n)
    ensures Laid(quotes, n)
  {
  }

  /** Between `a` and `b` there is no match when every match lies outside that stretch. */
  lemma NoMarkIn(quotes: seq<QuoteMatch>, a: nat, b: nat)
    requires PositionsIncreasing(quotes)
    requires forall k :: 0 <= k < |quotes| ==> quotes[k].position < a || b <= quotes[k].position
    ensures forall p :: a <= p < b ==> p !in ByPosition(quotes)
  {
    ByPositionAt(quotes);
  }

  /** The replacement of a mark is its in-place substitution. */
  lemma ReplacementInPlace(text: string, r: Replacer, quotes: seq<QuoteMatch>, roles: seq<Option<Role>>, i: nat)
    requires Marks(quotes, |text|) && |roles| == |quotes| && i < |quotes|
    ensures Replacement(text, r, quotes[i], roles[i]) ==
            SubstituteAt(text, r, quotes, roles, ByPosition(quotes), quotes[i].position)
  {
    ByPositionAt(quotes);
    var p := quotes[i].position;
    assert text[p..p + 1] == [text[p]];
  }

  /** Matches before `i` end before the tail from `i` starts; the others are at or after mark `i`. */
  lemma MarksAround(quotes: seq<QuoteMatch>, n: nat, i: nat)
    requires Marks(quotes, n) && i <= |quotes|
    ensures forall k :: 0 <= k < i ==> quotes[k].position < Start(quotes, i)
    ensures i < |quotes| ==> forall k :: i <= k < |quotes| ==> quotes[i].position <= quotes[k].position
  {
  }

  /** Where the stretch after match `i - 1` ends: at match `i`, or at the text end. */
  function GapEnd(text: string, quotes: seq<QuoteMatch>, i: nat): nat
    requires i <= |quotes|
  {
    if i < |quotes| then quotes[i].position else |text|
  }

  /** The stretch between two matches holds no mark, so it is substituted as it is. */
  lemma GapPlain(text: string, r: Replacer, quotes: seq<QuoteMatch>, roles: seq<Option<Role>>, i: nat)
    requires Marks(quotes, |text|) && |roles| == |quotes| && i <= |quotes|
    ensures Start(quotes, i) <= GapEnd(text, quotes, i) <= |text|
    ensures Substituted(text, r, quotes, roles, ByPosition(quotes), Start(quotes, i)) ==
            text[Start(quotes, i)..GapEnd(text, quotes, i)] +
            Substituted(text, r, quotes, roles, ByPosition(quotes), GapEnd(text, quotes, i))
  {
    MarksLaid(quotes, |text|);
    LaidStarts(quotes, |text|, i);
    MarksAround(quotes, |text|, i);
    var start := Start(quotes, i);
    var end := GapEnd(text, quotes, i);
    NoMarkIn(quotes, start, end);
    SubstitutedPlain(text, r, quotes, roles, ByPosition(quotes), start, end);
  }

  /** The empty tail after the last match is the plain rest of the text. */
  lemma TailSubstitutedEnd(text: string, r: Replacer, quotes: seq<QuoteMatch>, roles: seq<Option<Role>>)
    requires Marks(quotes, |text|) && Laid(quotes, |text|) && |roles| == |quotes|
    ensures Start(quotes, |quotes|) <= |text|
    ensures Tail(text, r, quotes, roles, |quotes|) == Substituted(text, r, quotes, roles, ByPosition(quotes), Start(quotes, |quotes|))
  {
    GapPlain(text, r, quotes, roles, |quotes|);
  }

  /** One match of the tail against the in-place substitution. */
  lemma TailSubstitutedStep(text: string, r: Replacer, quotes: seq<QuoteMatch>, roles: seq<Option<Role>>, i: nat)
    requires Marks(quotes, |text|) && Laid(quotes, |text|) && |roles| == |quotes| && i < |quotes|
    requires Tail(text, r, quotes, roles, i + 1) ==
             Substituted(text, r, quotes, roles, ByPosition(quotes), quotes[i].position + 1)
    ensures Start(quotes, i) <= |text|
    ensures Tail(text, r, quotes, roles, i) == Substituted(text, r, quotes, roles, ByPosition(quotes), Start(quotes, i))
  {
    GapPlain(text, r, quotes, roles, i);
    ReplacementInPlace(text, r, quotes, roles, i);
    var bp := ByPosition(quotes);
    var start := Start(quotes, i);
    var p := quotes[i].position;
    var T := Tail(text, r, quotes, roles, i);
    var T1 := Tail(text, r, quotes, roles, i + 1);
    var A := text[start..p];
    var R := Replacement(text, r, quotes[i], roles[i]);
    var S := SubstituteAt(text, r, quotes, roles, bp, p);
    var U1 := Substituted(text, r, quotes, roles, bp, p + 1);
    var U := Substituted(text, r, quotes, roles, bp, p);
    var U0 := Substituted(text, r, quotes, roles, bp, start);
    assert T == A + R + T1;
    assert R == S && T1 == U1;
    assert U == S + U1;
    assert U0 == A + U;
    assert A + R + T1 == A + (S + U1);
  }

  /** The tail from match `i` on is the in-place substitution from where that tail starts. */
  lemma {:induction false} TailSubstituted(text: string, r: Replacer, quotes: seq<QuoteMatch>, roles: seq<Option<Role>>, i: nat)
    requires Marks(quotes, |text|) && |roles| == |quotes| && i <= |quotes|
    ensures Laid(quotes, |text|) && Start(quotes, i) <= |text|
    ensures Tail(text, r, quotes, roles, i) == Substituted(text, r, quotes, roles, ByPosition(quotes), Start(quotes, i))
    decreases |quotes| - i
  {
    MarksLaid(quotes, |text|);
    if i == |quotes| {
      TailSubstitutedEnd(text, r, quotes, roles);
    } else {
      TailSubstituted(text, r, quotes, roles, i + 1);
      assert Start(quotes, i + 1) == quotes[i].position + 1;
      TailSubstitutedStep(text, r, quotes, roles, i);
    }
  }

  /**
   * Replacing from the last mark back to the first gives the same text as substituting
   * every mark in place at once: the earlier positions are never shifted.
   */
  lemma LocalizeInPlace(text: string, r: Replacer)
    ensures var quotes := Scan(text, AsciiQuotes, 0);
            Localize(text, r) == Substituted(text, r, quotes, CountWalk(quotes).roles, ByPosition(quotes), 0)
  {
    var quotes := Scan(text, AsciiQuotes, 0);
    FoundMatches(text, AsciiQuotes);
    TailSubstituted(text, r, quotes, CountWalk(quotes).roles, 0);
  }

  /** A text in which no mark gets a role comes back unchanged; in particular one without marks. */
  lemma UnchangedWithoutRoles(text: string, r: Replacer)
    requires forall k :: 0 <= k < |CountWalk(Scan(text, AsciiQuotes, 0)).roles| ==>
               CountWalk(Scan(text, AsciiQuotes, 0)).roles[k].None?
    ensures Localize(text, r) == text
  {
    var quotes := Scan(text, AsciiQuotes, 0);
    var roles := CountWalk(quotes).roles;
    LocalizeInPlace(text, r);
    SubstitutedPlain(text, r, quotes, roles, ByPosition(quotes), 0, |text|);
    assert text[0..|text|] == text;
  }

  /** The kind a mark character is reported with. */
  function KindOf(c: char): Kind
  {
    if c == '\'' then Single else Double
  }

  /** The two matches of a word between two marks of the same kind. */
  lemma QuotedWordScan(c: char, w: string)
    requires c in AsciiQuotes && |w| > 0 && IsLetter(w[0]) && IsLetter(w[|w| - 1])
    requires forall k :: 0 <= k < |w| ==> w[k] !in AsciiQuotes
    ensures var t := [c] + w + [c];
            Scan(t, AsciiQuotes, 0) ==
            [QuoteMatch(0, 1, KindOf(c), true, false), QuoteMatch(|w| + 1, 1, KindOf(c), false, true)]
  {
    var t := [c] + w + [c];
    var n := |t|;
    ScanSkip(t, AsciiQuotes, 1, n - 1);
    assert t[1] == w[0] && t[n - 2] == w[|w| - 1];
    assert Scan(t, AsciiQuotes, n - 1) == [QuoteMatch(n - 1, 1, KindOf(c), false, true)];
  }

  /**
   * A word between two marks of one kind, with letters just inside them, gets the opening
   * and the closing glyph of that kind.
   */
  lemma QuotedWord(r: Replacer, c: char, w: string)
    requires c in AsciiQuotes && |w| > 0 && IsLetter(w[0]) && IsLetter(w[|w| - 1])
    requires forall k :: 0 <= k < |w| ==> w[k] !in AsciiQuotes
    ensures Localize([c] + w + [c], r) == Glyph(r, KindOf(c), Open) + w + Glyph(r, KindOf(c), Close)
  {
    var t := [c] + w + [c];
    QuotedWordScan(c, w);
    var quotes := Scan(t, AsciiQuotes, 0);
    var roles := CountWalk(quotes).roles;
    assert quotes[..1][..0] == [] && quotes[..|quotes| - 1] == quotes[..1];
    var first := CountWalk(quotes[..1]);
    assert CountWalk(quotes[..1][..0]) == Counted([], 0, 0);
    assert quotes[..1][0] == QuoteMatch(0, 1, KindOf(c), true, false);
    assert first.roles == [Some(Open)];
    assert (if KindOf(c) == Single then first.single else first.double) == 1;
    assert roles == [Some(Open), Some(Close)];
    FoundLaid(t);
    assert Tail(t, r, quotes, roles, 2) == [];
    assert t[1..|w| + 1] == w;
    assert Tail(t, r, quotes, roles, 1) == w + Glyph(r, KindOf(c), Close);
  }

  /**
   * The counters do not clear an opener that is never closed: it still gets its opening
   * glyph, as the single mark of `"a` does.
   */
  lemma UnclosedOpenerReplaced(r: Replacer, c: char, w: string)
    requires c in AsciiQuotes && |w| > 0 && IsLetter(w[0])
    requires forall k :: 0 <= k < |w| ==> w[k] !in AsciiQuotes
    ensures Localize([c] + w, r) == Glyph(r, KindOf(c), Open) + w
  {
    var t := [c] + w;
    ScanSkip(t, AsciiQuotes, 1, |t|);
    var quotes := Scan(t, AsciiQuotes, 0);
    assert quotes == [QuoteMatch(0, 1, KindOf(c), true, false)];
    var roles := CountWalk(quotes).roles;
    assert quotes[..0] == [];
    assert roles == [Some(Open)];
    FoundLaid(t);
    assert t[1..] == w;
    assert Tail(t, r, quotes, roles, 1) == w;
  }
}
