/**
 * The `<q>` wrapper: resets curly marks to ASCII, finds the marks, pairs them with one
 * stack per kind, and replaces each paired mark by `<q>` or `</q>`.
 */
module QuotesWrapper {
  import opened Wrappers
  import opened Text
  import opened QuoteChars
  import opened QuoteFinder
  import opened QuotePairing

  /** One output piece per input character: the character itself, or a tag in place of a mark. */
  datatype Piece = Literal(c: char) | OpenTag | CloseTag

  /** The markup of a piece. */
  function PieceText(p: Piece): string
  {
    match p
    case Literal(c) => [c]
    case OpenTag => "<q>"
    case CloseTag => "</q>"
  }

  /** The pieces rendered one after another, in order. */
  function Render(pieces: seq<Piece>): string
  {
    if pieces == [] then "" else Render(pieces[..|pieces| - 1]) + PieceText(pieces[|pieces| - 1])
  }

  /** The piece for index `i`: a tag for a paired mark, else the character as it is. */
  function PieceAt(text: string, byPosition: map<nat, nat>, roles: seq<Option<Role>>, i: nat): Piece
    requires i < |text|
    requires forall p :: p in byPosition ==> byPosition[p] < |roles|
  {
    if i in byPosition && roles[byPosition[i]] == Some(Open) then OpenTag
    else if i in byPosition && roles[byPosition[i]] == Some(Close) then CloseTag
    else Literal(text[i])
  }

  function Pieces(text: string, byPosition: map<nat, nat>, roles: seq<Option<Role>>): (r: seq<Piece>)
    requires forall p :: p in byPosition ==> byPosition[p] < |roles|
    ensures |r| == |text|
  {
    seq(|text|, i requires 0 <= i < |text| => PieceAt(text, byPosition, roles, i))
  }

  /** What the wrapper produces for an already normalised text, piece by piece. */
  function WrappedPieces(text: string): (r: seq<Piece>)
    ensures |r| == |text|
  {
    var quotes := Scan(text, AsciiQuotes, 0);
    Pieces(text, ByPosition(quotes), StackRoles(quotes, true))
  }

  // ---------------------------------------------------------------------------
  // The imperative operations

  /** `buildOutput`: one pass over the text, a tag for each paired mark, every other character copied. */
  method BuildOutput(text: string, quotes: seq<QuoteMatch>, roles: seq<Option<Role>>) returns (result: string)
    requires |roles| == |quotes|
    ensures result == Render(Pieces(text, ByPosition(quotes), roles))
  {
    var byPosition := IndexByPosition(quotes);
    ghost var pieces := Pieces(text, byPosition, roles);
    result := "";
    var i := 0;
    while i < |text|
      invariant 0 <= i <= |text|
      invariant result == Render(pieces[..i])
    {
      assert pieces[..i + 1][..i] == pieces[..i];
      if i in byPosition && roles[byPosition[i]] == Some(Open) {
        result := result + "<q>";
      } else if i in byPosition && roles[byPosition[i]] == Some(Close) {
        result := result + "</q>";
      } else {
        result := result + [text[i]];
      }
      i := i + 1;
    }
    assert pieces[..i] == pieces;
  }

  /** `wrapQuotes`: reset, find, pair, and emit. */
  method WrapQuotes(text: string) returns (result: string)
    ensures result == Render(WrappedPieces(Normalized(text)))
  {
    var normalized := ResetToAscii(text, SingleVariants, '\'');
    normalized := ResetToAscii(normalized, DoubleVariants, '"');
    var quotes := Find(normalized, AsciiQuotes);
    var roles := AssignRolesPerKind(quotes);
    result := BuildOutput(normalized, quotes, roles);
  }

  // ---------------------------------------------------------------------------
  // Properties

  /**
   * Every character that is not an ASCII mark is copied unchanged to its own place, a tag
   * stands only where a mark was, and a mark that gets no role (an apostrophe, an unpaired
   * opener) is copied as it is.
   */
  lemma TextPreserved(text: string)
    ensures forall i :: 0 <= i < |text| && text[i] !in AsciiQuotes ==> WrappedPieces(text)[i] == Literal(text[i])
    ensures forall i :: 0 <= i < |text| && WrappedPieces(text)[i] != Literal(text[i]) ==> text[i] in AsciiQuotes
    ensures forall k :: 0 <= k < |Scan(text, AsciiQuotes, 0)| ==> Scan(text, AsciiQuotes, 0)[k].position < |text|
    ensures var quotes := Scan(text, AsciiQuotes, 0);
            forall k :: 0 <= k < |quotes| && StackRoles(quotes, true)[k] == None
              ==> WrappedPieces(text)[quotes[k].position] == Literal(text[quotes[k].position])
  {
    var quotes := Scan(text, AsciiQuotes, 0);
    FoundMatches(text, AsciiQuotes);
    ByPositionAt(quotes);
  }

  /** An apostrophe, a mark with a letter on both sides, is copied as it is. */
  lemma ApostropheCopied(text: string, i: nat)
    requires 0 < i < |text| - 1 && text[i] in AsciiQuotes && IsLetter(text[i - 1]) && IsLetter(text[i + 1])
    ensures WrappedPieces(text)[i] == Literal(text[i])
  {
    var quotes := Scan(text, AsciiQuotes, 0);
    FoundMatches(text, AsciiQuotes);
    ScanComplete(text, AsciiQuotes, 0);
    assert HasMatchAt(quotes, i);
    var k :| 0 <= k < |quotes| && quotes[k].position == i;
    assert Reports(text, AsciiQuotes, quotes[k]);
    assert PrecededByLetter(text, i) && FollowedByLetter(text, i + 1);
    ApostropheHasNoRole(quotes, k);
    var roles := StackRoles(quotes, true);
    ByPositionAt(quotes);
    assert ByPosition(quotes)[i] == k;
  }

  /** The positions of the matches at the indices in `s`. */
  ghost function PositionsOf(quotes: seq<QuoteMatch>, s: set<nat>): set<nat>
  {
    set i | i in s && i < |quotes| :: quotes[i].position
  }

  lemma {:induction false} PositionsOfSize(quotes: seq<QuoteMatch>, s: set<nat>)
    requires PositionsIncreasing(quotes)
    requires forall i :: i in s ==> i < |quotes|
    ensures |PositionsOf(quotes, s)| == |s|
    decreases s
  {
    if s != {} {
      var x :| x in s;
      PositionsOfSize(quotes, s - {x});
      assert PositionsOf(quotes, s) == PositionsOf(quotes, s - {x}) + {quotes[x].position};
      assert quotes[x].position !in PositionsOf(quotes, s - {x});
    }
  }

  /** The indices of the pieces equal to `p`. */
  ghost function PiecesEqual(pieces: seq<Piece>, p: Piece): set<nat>
  {
    set i: nat | i < |pieces| && pieces[i] == p
  }

  function TagOf(r: Role): Piece
  {
    if r == Open then OpenTag else CloseTag
  }

  /** The tags of a role stand exactly at the positions of the matches with that role. */
  lemma TagsAtRoles(text: string, quotes: seq<QuoteMatch>, roles: seq<Option<Role>>, r: Role)
    requires |roles| == |quotes| && PositionsIncreasing(quotes)
    requires forall k :: 0 <= k < |quotes| ==> quotes[k].position < |text|
    ensures PiecesEqual(Pieces(text, ByPosition(quotes), roles), TagOf(r)) == PositionsOf(quotes, WithRole(roles, r))
  {
    ByPositionAt(quotes);
    var pieces := Pieces(text, ByPosition(quotes), roles);
    var bp := ByPosition(quotes);
    var positions := PositionsOf(quotes, WithRole(roles, r));
    forall p | p in PiecesEqual(pieces, TagOf(r)) ensures p in positions {
      var k := bp[p];
      assert quotes[k].position == p && roles[k] == Some(r);
      assert k in WithRole(roles, r);
    }
  }

  /** The number of matches that stand before position `j`: with ascending positions, a prefix. */
  lemma MatchesBefore(quotes: seq<QuoteMatch>, j: nat) returns (m: nat)
    requires PositionsIncreasing(quotes)
    ensures m <= |quotes|
    ensures forall k :: 0 <= k < |quotes| ==> (k < m <==> quotes[k].position < j)
  {
    m := 0;
    while m < |quotes| && quotes[m].position < j
      invariant m <= |quotes|
      invariant forall k :: 0 <= k < m ==> quotes[k].position < j
    {
      m := m + 1;
    }
  }

  /** The pieces equal to `t` among the first `j` are those before `j`. */
  lemma PiecesBefore(pieces: seq<Piece>, t: Piece, j: nat)
    requires j <= |pieces|
    ensures PiecesEqual(pieces[..j], t) == set p | p in PiecesEqual(pieces, t) && p < j
  {
  }

  /** The marks of a role standing before `j` are those of the first `m` matches. */
  lemma PositionsBefore(quotes: seq<QuoteMatch>, roles: seq<Option<Role>>, r: Role, j: nat, m: nat)
    requires |roles| == |quotes| && m <= |quotes|
    requires forall k :: 0 <= k < |quotes| ==> (k < m <==> quotes[k].position < j)
    ensures (set p | p in PositionsOf(quotes, WithRole(roles, r)) && p < j) == PositionsOf(quotes, WithRole(roles[..m], r))
  {
    var all := PositionsOf(quotes, WithRole(roles, r));
    forall p | p in PositionsOf(quotes, WithRole(roles[..m], r))
      ensures p in all && p < j
    {
      var k: nat :| k in WithRole(roles[..m], r) && quotes[k].position == p;
      assert k in WithRole(roles, r);
    }
    forall p | p in all && p < j
      ensures p in PositionsOf(quotes, WithRole(roles[..m], r))
    {
      var k: nat :| k in WithRole(roles, r) && k < |quotes| && quotes[k].position == p;
      assert k in WithRole(roles[..m], r);
    }
  }

  /** The tags of a role among the first `j` pieces are those of the marks before `j`. */
  lemma TagsBefore(text: string, quotes: seq<QuoteMatch>, roles: seq<Option<Role>>, r: Role, j: nat, m: nat)
    requires |roles| == |quotes| && PositionsIncreasing(quotes)
    requires forall k :: 0 <= k < |quotes| ==> quotes[k].position < |text|
    requires j <= |text| && m <= |quotes|
    requires forall k :: 0 <= k < |quotes| ==> (k < m <==> quotes[k].position < j)
    ensures |PiecesEqual(Pieces(text, ByPosition(quotes), roles)[..j], TagOf(r))| == |WithRole(roles[..m], r)|
  {
    TagsAtRoles(text, quotes, roles, r);
    PiecesBefore(Pieces(text, ByPosition(quotes), roles), TagOf(r), j);
    PositionsBefore(quotes, roles, r, j, m);
    PositionsOfSize(quotes, WithRole(roles[..m], r));
  }

  /**
   * The tags are well nested: as many `<q>` as `</q>`, and no prefix of the output holds
   * more `</q>` than `<q>`.
   */
  lemma TagsBalanced(text: string)
    ensures |PiecesEqual(WrappedPieces(text), OpenTag)| == |PiecesEqual(WrappedPieces(text), CloseTag)|
    ensures forall j :: 0 <= j <= |WrappedPieces(text)| ==>
              |PiecesEqual(WrappedPieces(text)[..j], CloseTag)| <= |PiecesEqual(WrappedPieces(text)[..j], OpenTag)|
  {
    var quotes := Scan(text, AsciiQuotes, 0);
    var roles := StackRoles(quotes, true);
    FoundMatches(text, AsciiQuotes);
    TagsAtRoles(text, quotes, roles, Open);
    TagsAtRoles(text, quotes, roles, Close);
    PositionsOfSize(quotes, WithRole(roles, Open));
    PositionsOfSize(quotes, WithRole(roles, Close));
    TotalBalanced(quotes, true);
    var pieces := WrappedPieces(text);
    forall j | 0 <= j <= |pieces|
      ensures |PiecesEqual(pieces[..j], CloseTag)| <= |PiecesEqual(pieces[..j], OpenTag)|
    {
      var m := MatchesBefore(quotes, j);
      TagsBefore(text, quotes, roles, Open, j, m);
      TagsBefore(text, quotes, roles, Close, j, m);
      PrefixBalanced(quotes, true, m);
    }
  }

  /** Rendering pieces that are all literals gives back their characters. */
  lemma {:induction false} RenderLiterals(pieces: seq<Piece>, text: string)
    requires |pieces| == |text| && forall i :: 0 <= i < |text| ==> pieces[i] == Literal(text[i])
    ensures Render(pieces) == text
  {
    if pieces != [] {
      var n := |pieces| - 1;
      RenderLiterals(pieces[..n], text[..n]);
      assert text[..n] + [text[n]] == text;
    }
  }

  /** With no mark paired, the text comes back unchanged. */
  lemma UnchangedWithoutPairs(text: string)
    requires forall k :: 0 <= k < |Scan(text, AsciiQuotes, 0)| ==> StackRoles(Scan(text, AsciiQuotes, 0), true)[k] == None
    ensures Render(WrappedPieces(text)) == text
  {
    var quotes := Scan(text, AsciiQuotes, 0);
    FoundMatches(text, AsciiQuotes);
    ByPositionAt(quotes);
    RenderLiterals(WrappedPieces(text), text);
  }

  // ---------------------------------------------------------------------------
  // The nested example

  const NestedText: string := "\"outer 'inner' outer\""
  const NestedMatches: seq<QuoteMatch> :=
    [QuoteMatch(0, 1, Double, true, false), QuoteMatch(7, 1, Single, true, false),
     QuoteMatch(13, 1, Single, false, true), QuoteMatch(20, 1, Double, false, true)]
  const NestedRoles: seq<Option<Role>> := [Some(Open), Some(Open), Some(Close), Some(Close)]

  /** The nested example has ASCII marks only, so the reset keeps it. */
  lemma NestedIsAscii()
    ensures Normalized(NestedText) == NestedText
  {
    var t := NestedText;
    forall i | 0 <= i < |t| ensures t[i] in AsciiQuotes || t[i] !in CurlyVariants {
    }
    NormalizedKeepsAscii(t);
  }

  /** The matches of the nested example. */
  lemma NestedScanTail()
    ensures Scan(NestedText, AsciiQuotes, 13) == NestedMatches[2..]
  {
    var t, m, qs := NestedText, AsciiQuotes, NestedMatches;
    ScanAcross(t, m, 20, 21);
    assert Scan(t, m, 21) == [];
    ScanAcross(t, m, 13, 20);
    assert MatchAt(t, 13) == qs[2] && MatchAt(t, 20) == qs[3];
  }

  lemma NestedScan()
    ensures Scan(NestedText, AsciiQuotes, 0) == NestedMatches
  {
    var t, m, qs := NestedText, AsciiQuotes, NestedMatches;
    NestedScanTail();
    ScanAcross(t, m, 7, 13);
    ScanAcross(t, m, 0, 7);
    assert IsLetter(t[1]) && IsLetter(t[8]);
    assert MatchAt(t, 0) == qs[0] && MatchAt(t, 7) == qs[1];
  }



  /** Its roles: both outer and inner marks are paired. */
  lemma NestedWalk()
    ensures StackRoles(NestedMatches, true) == NestedRoles
  {
    var qs, roles := NestedMatches, NestedRoles;
    assert qs[..3][..2] == qs[..2] && qs[..2][..1] == qs[..1] && qs[..1][..0] == [];
    assert Walk(qs[..1], true) == Walked(roles[..1], Stacks([], [0]));
    assert Walk(qs[..2], true) == Walked(roles[..2], Stacks([1], [0]));
    assert Walk(qs[..3], true) == Walked(roles[..3], Stacks([], [0]));
    assert qs[..3] == qs[..|qs| - 1];
    assert Walk(qs, true) == Walked(roles, Stacks([], []));
  }

  /** Its pieces: tags at the four marks, every other character literal. */
  lemma NestedPieces()
    ensures var w := WrappedPieces(NestedText);
            w[0] == OpenTag && w[7] == OpenTag && w[13] == CloseTag && w[20] == CloseTag &&
            forall i :: 0 <= i < |w| && i != 0 && i != 7 && i != 13 && i != 20 ==> w[i] == Literal(NestedText[i])
  {
    NestedScan();
    NestedWalk();
    var t, qs, roles := NestedText, NestedMatches, NestedRoles;
    FoundMatches(t, AsciiQuotes);
    ByPositionAt(qs);
    var bp := ByPosition(qs);
    assert qs[0].position == 0 && qs[1].position == 7 && qs[2].position == 13 && qs[3].position == 20;
    forall p | p in bp ensures p == 0 || p == 7 || p == 13 || p == 20 {
      assert qs[bp[p]].position == p;
    }
  }

  /** A run of literal pieces renders as the characters it copies. */
  lemma {:induction false} RenderRange(ps: seq<Piece>, text: string, i: nat, j: nat)
    requires i <= j <= |ps| <= |text|
    requires forall k :: i <= k < j ==> ps[k] == Literal(text[k])
    ensures Render(ps[..j]) == Render(ps[..i]) + text[i..j]
    decreases j - i
  {
    if i < j {
      RenderRange(ps, text, i, j - 1);
      RenderRangeStep(ps, text, i, j);
    }
  }

  /** The run up to `j - 1` extends by the literal at `j - 1`. */
  lemma RenderRangeStep(ps: seq<Piece>, text: string, i: nat, j: nat)
    requires i < j <= |ps| <= |text| && ps[j - 1] == Literal(text[j - 1])
    requires Render(ps[..j - 1]) == Render(ps[..i]) + text[i..j - 1]
    ensures Render(ps[..j]) == Render(ps[..i]) + text[i..j]
  {
    var k := j - 1;
    var head := Render(ps[..i]);
    RenderSnoc(ps, k);
    SliceSnoc(text, i, j);
    assert PieceText(ps[k]) == [text[k]];
    assert Render(ps[..j]) == (head + text[i..k]) + [text[k]];
    assert (head + text[i..k]) + [text[k]] == head + (text[i..k] + [text[k]]);
  }

  lemma SliceSnoc(text: string, i: nat, j: nat)
    requires i < j <= |text|
    ensures text[i..j] == text[i..j - 1] + [text[j - 1]]
  {
  }

  lemma RenderSnoc(ps: seq<Piece>, i: nat)
    requires i < |ps|
    ensures Render(ps[..i + 1]) == Render(ps[..i]) + PieceText(ps[i])
  {
    assert ps[..i + 1][..i] == ps[..i];
  }

  /** A piece followed by a run of literals renders as the piece's markup, then the run's characters. */
  lemma RenderPieceThenRun(ps: seq<Piece>, text: string, i: nat, j: nat)
    requires i < j <= |ps| <= |text|
    requires forall k :: i < k < j ==> ps[k] == Literal(text[k])
    ensures Render(ps[..j]) == Render(ps[..i]) + PieceText(ps[i]) + text[i + 1..j]
  {
    RenderSnoc(ps, i);
    RenderRange(ps, text, i + 1, j);
  }

  lemma RenderNested(w: seq<Piece>, t: string)
    requires |w| == |t| == 21
    requires w[0] == OpenTag && w[7] == OpenTag && w[13] == CloseTag && w[20] == CloseTag
    requires forall i :: 0 <= i < |w| && i != 0 && i != 7 && i != 13 && i != 20 ==> w[i] == Literal(t[i])
    ensures Render(w) == "<q>" + t[1..7] + "<q>" + t[8..13] + "</q>" + t[14..20] + "</q>"
  {
    assert w[..0] == [];
    RenderPieceThenRun(w, t, 0, 7);
    var r7 := Render(w[..7]);
    assert r7 == "<q>" + t[1..7];
    RenderPieceThenRun(w, t, 7, 13);
    var r13 := Render(w[..13]);
    assert r13 == r7 + "<q>" + t[8..13];
    RenderPieceThenRun(w, t, 13, 20);
    var r20 := Render(w[..20]);
    assert r20 == r13 + "</q>" + t[14..20];
    RenderSnoc(w, 20);
    assert w[..21] == w;
  }

  /** The words between the marks of the nested example. */
  lemma NestedWords()
    ensures NestedText[1..7] == "outer " && NestedText[8..13] == "inner" && NestedText[14..20] == " outer"
  {
  }

  /** The nested example: `"outer 'inner' outer"` becomes `<q>outer <q>inner</q> outer</q>`. */
  lemma Nested()
    ensures Render(WrappedPieces(NestedText)) == "<q>" + "outer " + "<q>" + "inner" + "</q>" + " outer" + "</q>"
  {
    NestedPieces();
    RenderNested(WrappedPieces(NestedText), NestedText);
    NestedWords();
  }

  /** The same through the whole of `wrapQuotes`, reset included. */
  lemma NestedWrapped()
    ensures Render(WrappedPieces(Normalized(NestedText))) ==
            "<q>" + "outer " + "<q>" + "inner" + "</q>" + " outer" + "</q>"
  {
    NestedIsAscii();
    Nested();
  }

  // ---------------------------------------------------------------------------
  // An unpaired curly opener

  const UnpairedText: string := "\U{201E}a"

  /**
   * The reset runs before the pairing, so an unpaired curly opener does not come back as
   * it was given: `„a` is reset to `"a`, the mark finds no closer, and the wrapper returns
   * the reset text. Keeping the curly mark is left to the caller, which writes nothing
   * back for a text without a quotation.
   */
  lemma UnpairedCurlyOpenerReset()
    ensures Normalized(UnpairedText) == "\"a"
    ensures Render(WrappedPieces(Normalized(UnpairedText))) == "\"a"
    ensures Render(WrappedPieces(Normalized(UnpairedText))) != UnpairedText
  {
    var t := UnpairedText;
    var once := ResetToAscii(t, SingleVariants, '\'');
    assert once == t;
    var n := Normalized(t);
    assert n[0] == '"' && n[1] == 'a';
    assert n == "\"a";
    ScanAcross(n, AsciiQuotes, 0, 2);
    var quotes := Scan(n, AsciiQuotes, 0);
    assert quotes == [MatchAt(n, 0)];
    assert quotes[..0] == [];
    assert StackRoles(quotes, true) == [None];
    UnchangedWithoutPairs(n);
  }
}
