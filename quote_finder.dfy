/**
 * The quotation mark finder: reports every quotation mark of a text, in order, with
 * whether it may open (no letter before it) and whether it may close (no letter after it).
 */
module QuoteFinder {
  import opened Text
  import opened QuoteChars

  /**
   * One quotation mark: its index, its length (always one code point), its kind, and
   * whether it may open and close a quotation.
   */
  datatype QuoteMatch = QuoteMatch(position: nat, length: nat, kind: Kind, canOpen: bool, canClose: bool)

  /** The character just before `position` is a letter; the text start is not. */
  predicate PrecededByLetter(text: string, position: nat)
  {
    0 < position <= |text| && IsLetter(text[position - 1])
  }

  /** The character at `position` is a letter; the text end is not. */
  predicate FollowedByLetter(text: string, position: nat)
  {
    position < |text| && IsLetter(text[position])
  }

  /** The match the finder reports for the mark at index `p`. */
  function MatchAt(text: string, p: nat): QuoteMatch
    requires p < |text|
  {
    QuoteMatch(p, 1, if text[p] == '\'' then Single else Double,
               !PrecededByLetter(text, p), !FollowedByLetter(text, p + 1))
  }

  /** The matches at or after index `i`, in ascending position order. */
  function Scan(text: string, marks: set<char>, i: nat): seq<QuoteMatch>
    requires i <= |text|
    decreases |text| - i
  {
    if i == |text| then []
    else if text[i] in marks then [MatchAt(text, i)] + Scan(text, marks, i + 1)
    else Scan(text, marks, i + 1)
  }

  /**
   * `m` is what the finder reports for a mark of `marks`: one code point long, Single
   * exactly for ', may open exactly when no letter precedes it, may close exactly when no
   * letter follows it.
   */
  predicate Reports(text: string, marks: set<char>, m: QuoteMatch)
  {
    && m.position < |text|
    && text[m.position] in marks
    && m.length == 1
    && (m.kind == Single <==> text[m.position] == '\'')
    && (m.canOpen <==> !PrecededByLetter(text, m.position))
    && (m.canClose <==> !FollowedByLetter(text, m.position + 1))
  }

  /** Every match is reported correctly for a mark at or after `i`. */
  lemma {:induction false} ScanReports(text: string, marks: set<char>, i: nat)
    requires i <= |text|
    ensures forall k :: 0 <= k < |Scan(text, marks, i)| ==>
              i <= Scan(text, marks, i)[k].position && Reports(text, marks, Scan(text, marks, i)[k])
    decreases |text| - i
  {
    if i < |text| {
      ScanReports(text, marks, i + 1);
    }
  }

  /** The matches are in strictly ascending position order. */
  lemma {:induction false} ScanSorted(text: string, marks: set<char>, i: nat)
    requires i <= |text|
    ensures forall k, l :: 0 <= k < l < |Scan(text, marks, i)| ==>
              Scan(text, marks, i)[k].position < Scan(text, marks, i)[l].position
    decreases |text| - i
  {
    if i < |text| {
      ScanSorted(text, marks, i + 1);
      ScanReports(text, marks, i + 1);
    }
  }

  /** Some match of `quotes` is at position `p`. */
  predicate HasMatchAt(quotes: seq<QuoteMatch>, p: int)
  {
    exists k :: 0 <= k < |quotes| && quotes[k].position == p
  }

  /** No mark is missed: every mark at or after `i` has a match. */
  lemma {:induction false} ScanComplete(text: string, marks: set<char>, i: nat)
    requires i <= |text|
    ensures forall p :: i <= p < |text| && text[p] in marks ==> HasMatchAt(Scan(text, marks, i), p)
    decreases |text| - i
  {
    if i < |text| {
      ScanComplete(text, marks, i + 1);
      var rest := Scan(text, marks, i + 1);
      var r := Scan(text, marks, i);
      forall p | i <= p < |text| && text[p] in marks
        ensures HasMatchAt(r, p)
      {
        if p == i {
          assert r[0].position == p;
        } else {
          var k :| 0 <= k < |rest| && rest[k].position == p;
          if text[i] in marks {
            assert r[k + 1].position == p;
          } else {
            assert r[k].position == p;
          }
        }
      }
    }
  }

  /**
   * `find`: the matches of the whole text, collected by a loop. `marks` stands for the
   * pattern argument; `AsciiQuotes` is its default.
   */
  method Find(text: string, marks: set<char>) returns (quotes: seq<QuoteMatch>)
    ensures quotes == Scan(text, marks, 0)
    ensures (forall p :: 0 <= p < |text| ==> text[p] !in marks) ==> quotes == []
  {
    ScanReports(text, marks, 0);
    assert Scan(text, marks, 0) != [] ==> text[Scan(text, marks, 0)[0].position] in marks;
    quotes := [];
    var i := 0;
    while i < |text|
      invariant 0 <= i <= |text|
      invariant quotes + Scan(text, marks, i) == Scan(text, marks, 0)
    {
      if text[i] in marks {
        quotes := quotes + [MatchAt(text, i)];
      }
      i := i + 1;
    }
  }

  /** A mark at the start of the text may open; a mark at its end may close. */
  lemma {:induction false} BoundariesAreOpenAndClose(text: string, marks: set<char>)
    ensures forall k :: 0 <= k < |Scan(text, marks, 0)| && Scan(text, marks, 0)[k].position == 0
              ==> Scan(text, marks, 0)[k].canOpen
    ensures forall k :: 0 <= k < |Scan(text, marks, 0)| && Scan(text, marks, 0)[k].position == |text| - 1
              ==> Scan(text, marks, 0)[k].canClose
  {
    ScanReports(text, marks, 0);
  }

  /** A stretch without marks contributes no match. */
  lemma {:induction false} ScanSkip(text: string, marks: set<char>, i: nat, j: nat)
    requires i <= j <= |text|
    requires forall p :: i <= p < j ==> text[p] !in marks
    ensures Scan(text, marks, i) == Scan(text, marks, j)
    decreases j - i
  {
    if i < j {
      ScanSkip(text, marks, i + 1, j);
    }
  }

  /** A mark followed by a stretch without marks contributes exactly its own match. */
  lemma ScanAcross(text: string, marks: set<char>, i: nat, j: nat)
    requires i < j <= |text| && text[i] in marks
    requires forall p :: i < p < j ==> text[p] !in marks
    ensures Scan(text, marks, i) == [MatchAt(text, i)] + Scan(text, marks, j)
  {
    ScanSkip(text, marks, i + 1, j);
  }

  // ---------------------------------------------------------------------------
  // Matches indexed by position

  ghost predicate PositionsIncreasing(quotes: seq<QuoteMatch>)
  {
    forall k, l :: 0 <= k < l < |quotes| ==> quotes[k].position < quotes[l].position
  }

  /** The found matches are in ascending order and each is reported correctly. */
  lemma FoundMatches(text: string, marks: set<char>)
    ensures PositionsIncreasing(Scan(text, marks, 0))
    ensures forall k :: 0 <= k < |Scan(text, marks, 0)| ==> Reports(text, marks, Scan(text, marks, 0)[k])
  {
    ScanSorted(text, marks, 0);
    ScanReports(text, marks, 0);
  }

  /** The index of the match at each position; a later match at the same position wins. */
  function ByPosition(quotes: seq<QuoteMatch>): (r: map<nat, nat>)
    ensures forall p :: p in r ==> r[p] < |quotes|
  {
    if quotes == [] then map[]
    else
      var n := |quotes| - 1;
      ByPosition(quotes[..n])[quotes[n].position := n]
  }

  /** `quotesByPosition`: the loop that indexes the matches by position. */
  method IndexByPosition(quotes: seq<QuoteMatch>) returns (byPosition: map<nat, nat>)
    ensures byPosition == ByPosition(quotes)
  {
    byPosition := map[];
    var i := 0;
    while i < |quotes|
      invariant 0 <= i <= |quotes|
      invariant byPosition == ByPosition(quotes[..i])
    {
      assert quotes[..i + 1][..i] == quotes[..i];
      byPosition := byPosition[quotes[i].position := i];
      i := i + 1;
    }
    assert quotes[..i] == quotes;
  }

  /** With distinct positions, every match is found at its own position, and only matches are. */
  lemma {:induction false} ByPositionAt(quotes: seq<QuoteMatch>)
    requires PositionsIncreasing(quotes)
    ensures forall i :: 0 <= i < |quotes| ==>
              quotes[i].position in ByPosition(quotes) && ByPosition(quotes)[quotes[i].position] == i
    ensures forall p :: p in ByPosition(quotes) ==> quotes[ByPosition(quotes)[p]].position == p
  {
    if quotes != [] {
      var n := |quotes| - 1;
      ByPositionAt(quotes[..n]);
    }
  }
}
