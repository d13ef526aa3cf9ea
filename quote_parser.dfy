/**
 * The quote parser: finds quotation-mark candidates with three look-around patterns,
 * pairs them with a stack (only paired marks survive), sorts the pairs by position and
 * cuts the text into text and quote segments.
 */
module QuoteParser {
  import opened Wrappers
  import opened Text
  import opened QuoteChars
  import opened Segments

  /** A mark one of the patterns matched, and which role that pattern allows it. */
  datatype Candidate = Candidate(mark: char, position: nat, canOpen: bool, canClose: bool)

  /** A paired mark with its role. */
  datatype Quote = Quote(role: Role, position: nat, mark: char)

  // ---------------------------------------------------------------------------
  // The candidate patterns

  /** `[\p{L}\p{N}]`: a letter or a number. */
  predicate IsAlnum(c: char)
  {
    IsLetter(c) || IsNumber(c)
  }

  predicate AlnumBefore(text: string, i: nat)
    requires i < |text|
  {
    i > 0 && IsAlnum(text[i - 1])
  }

  predicate LetterBefore(text: string, i: nat)
    requires i < |text|
  {
    i > 0 && IsLetter(text[i - 1])
  }

  predicate AlnumAfter(text: string, i: nat)
    requires i < |text|
  {
    i + 1 < |text| && IsAlnum(text[i + 1])
  }

  predicate LetterAfter(text: string, i: nat)
    requires i < |text|
  {
    i + 1 < |text| && IsLetter(text[i + 1])
  }

  /**
   * The pattern for `role` matches the mark at `i`: the opening pattern wants no letter or
   * number before and a letter after, the closing one a letter before and no letter or
   * number after, and the default (`None`) no letter or number on either side.
   */
  predicate MatchesAt(text: string, role: Option<Role>, i: nat)
    requires i < |text|
  {
    text[i] in CurlyVariants &&
    match role
    case Some(Open) => !AlnumBefore(text, i) && LetterAfter(text, i)
    case Some(Close) => LetterBefore(text, i) && !AlnumAfter(text, i)
    case None => !AlnumBefore(text, i) && !AlnumAfter(text, i)
  }

  /** The candidate the pattern for `role` reports at `i`: it may only do what the pattern names. */
  function CandidateAt(text: string, role: Option<Role>, i: nat): Candidate
    requires i < |text|
  {
    Candidate(text[i], i, role == Some(Open), role == Some(Close))
  }

  /** The match of one pattern at `i`, if it matches there. */
  function MatchHere(text: string, role: Option<Role>, i: nat): seq<Candidate>
    requires i < |text|
  {
    if MatchesAt(text, role, i) then [CandidateAt(text, role, i)] else []
  }

  /** The per-position pieces from `i` on, joined in position order. */
  function Gather<T>(hits: seq<seq<T>>, i: nat): seq<T>
    requires i <= |hits|
    decreases |hits| - i
  {
    if i == |hits| then [] else hits[i] + Gather(hits, i + 1)
  }

  /** One pattern's match (or none) at every position of the text. */
  function PatternHits(text: string, role: Option<Role>): seq<seq<Candidate>>
  {
    seq(|text|, k requires 0 <= k < |text| => MatchHere(text, role, k))
  }

  /** The matches of one pattern at or after `i`, in position order. */
  function MatchesFrom(text: string, role: Option<Role>, i: nat): seq<Candidate>
    requires i <= |text|
  {
    Gather(PatternHits(text, role), i)
  }

  /** `matchesToCandidates`: the matches of one pattern over the whole text. */
  function MatchesToCandidates(text: string, role: Option<Role>): seq<Candidate>
  {
    MatchesFrom(text, role, 0)
  }

  /** `findCandidates` as written: all opening matches, then all closing ones, then the rest. */
  function FindCandidates(text: string): seq<Candidate>
  {
    MatchesToCandidates(text, Some(Open)) + MatchesToCandidates(text, Some(Close)) +
    MatchesToCandidates(text, None)
  }

  /** The candidate at `i`: the match of whichever pattern matches there, if any. */
  function MatchedAt(text: string, i: nat): seq<Candidate>
    requires i < |text|
  {
    if text[i] !in CurlyVariants then []
    else if MatchesAt(text, Some(Open), i) then [CandidateAt(text, Some(Open), i)]
    else if MatchesAt(text, Some(Close), i) then [CandidateAt(text, Some(Close), i)]
    else if MatchesAt(text, None, i) then [CandidateAt(text, None, i)]
    else []
  }

  /** The candidate (or none) at every position of the text. */
  function MarkHits(text: string): seq<seq<Candidate>>
  {
    seq(|text|, k requires 0 <= k < |text| => MatchedAt(text, k))
  }

  /**
   * The candidates found at or after `i`, in position order: at each mark, the match of
   * whichever pattern matches there (at most one does).
   */
  function InOrderFrom(text: string, i: nat): seq<Candidate>
    requires i <= |text|
  {
    Gather(MarkHits(text), i)
  }

  /** The corrected `findCandidates`: the same candidates, in position order. */
  function CandidatesInOrder(text: string): seq<Candidate>
  {
    InOrderFrom(text, 0)
  }

  /** At most one pattern matches at any mark. */
  lemma PatternsExclusive(text: string, i: nat)
    requires i < |text|
    ensures !(MatchesAt(text, Some(Open), i) && MatchesAt(text, Some(Close), i))
    ensures !(MatchesAt(text, Some(Open), i) && MatchesAt(text, None, i))
    ensures !(MatchesAt(text, Some(Close), i) && MatchesAt(text, None, i))
  {
  }

  /** Positions strictly ascending. */
  ghost predicate Increasing(cands: seq<Candidate>)
  {
    forall k, l :: 0 <= k < l < |cands| ==> cands[k].position < cands[l].position
  }

  // ---------------------------------------------------------------------------
  // Joining per-position pieces

  /** Each piece holds at most one candidate, and that one stands at the piece's own position. */
  ghost predicate Positioned(hits: seq<seq<Candidate>>)
  {
    forall p :: 0 <= p < |hits| ==> |hits[p]| <= 1 && forall c :: c in hits[p] ==> c.position == p
  }

  lemma GatherStep<T>(hits: seq<seq<T>>, i: nat)
    requires i < |hits|
    ensures Gather(hits, i) == hits[i] + Gather(hits, i + 1)
  {
  }

  /** Whatever the join from `i` holds comes from a piece at or after `i`. */
  lemma {:induction false} GatherFrom<T>(hits: seq<seq<T>>, i: nat, x: T)
    requires i <= |hits| && x in Gather(hits, i)
    ensures exists p :: i <= p < |hits| && x in hits[p]
    decreases |hits| - i
  {
    if x !in hits[i] {
      GatherStep(hits, i);
      GatherFrom(hits, i + 1, x);
    }
  }

  /** Every piece at or after `i` is in the join from `i`. */
  lemma {:induction false} GatherHas<T>(hits: seq<seq<T>>, i: nat, p: nat, x: T)
    requires i <= p < |hits| && x in hits[p]
    ensures x in Gather(hits, i)
    decreases p - i
  {
    GatherStep(hits, i);
    if i < p {
      GatherHas(hits, i + 1, p, x);
    }
  }

  /** Positioned pieces join into an ascending run of positions at or after `i`. */
  lemma {:induction false} GatherIncreasing(hits: seq<seq<Candidate>>, i: nat)
    requires i <= |hits| && Positioned(hits)
    ensures Increasing(Gather(hits, i))
    ensures forall c :: c in Gather(hits, i) ==> i <= c.position < |hits|
    decreases |hits| - i
  {
    if i < |hits| {
      GatherIncreasing(hits, i + 1);
      GatherStep(hits, i);
      IncreasingAppend(hits[i], Gather(hits, i + 1));
    }
  }

  /** Empty pieces from `i` up to `j` add nothing. */
  lemma {:induction false} GatherSkip<T>(hits: seq<seq<T>>, i: nat, j: nat)
    requires i <= j <= |hits|
    requires forall p :: i <= p < j ==> hits[p] == []
    ensures Gather(hits, i) == Gather(hits, j)
    decreases j - i
  {
    if i < j {
      GatherSkip(hits, i + 1, j);
      GatherStep(hits, i);
      EmptyAppend(Gather(hits, i + 1));
    }
  }

  lemma EmptyAppend<T>(s: seq<T>)
    ensures [] + s == s
  {
  }

  /** Only the piece at `p` between `i` and `j` may be non-empty: the join from `i` is that piece, then the join from `j`. */
  lemma GatherOnly<T>(hits: seq<seq<T>>, i: nat, p: nat, j: nat)
    requires i <= p < j <= |hits|
    requires forall q :: i <= q < j && q != p ==> hits[q] == []
    ensures Gather(hits, i) == hits[p] + Gather(hits, j)
  {
    GatherSkip(hits, i, p);
    GatherStep(hits, p);
    GatherSkip(hits, p + 1, j);
  }

  /** Pieces empty but at two positions join into those two. */
  lemma GatherTwo<T>(hits: seq<seq<T>>, p0: nat, p1: nat)
    requires p0 < p1 < |hits|
    requires forall q :: 0 <= q < |hits| && q != p0 && q != p1 ==> hits[q] == []
    ensures Gather(hits, 0) == hits[p0] + hits[p1]
  {
    GatherOnly(hits, 0, p0, p1);
    GatherOnly(hits, p1, p1, |hits|);
    assert Gather(hits, |hits|) == [];
    assert hits[p1] + [] == hits[p1];
  }

  /** Pieces empty but at four positions join into those four, in order. */
  lemma GatherFour<T>(hits: seq<seq<T>>, p0: nat, p1: nat, p2: nat, p3: nat)
    requires p0 < p1 < p2 < p3 < |hits|
    requires forall q :: 0 <= q < |hits| && q != p0 && q != p1 && q != p2 && q != p3 ==> hits[q] == []
    ensures Gather(hits, 0) == hits[p0] + hits[p1] + hits[p2] + hits[p3]
  {
    GatherOnly(hits, 0, p0, p1);
    GatherOnly(hits, p1, p1, p2);
    GatherTail(hits, p2, p3);
    AppendThree(hits[p0], hits[p1], hits[p2] + hits[p3]);
  }

  /** The last two of the four pieces. */
  lemma GatherTail<T>(hits: seq<seq<T>>, p2: nat, p3: nat)
    requires p2 < p3 < |hits|
    requires forall q :: p2 <= q < |hits| && q != p2 && q != p3 ==> hits[q] == []
    ensures Gather(hits, p2) == hits[p2] + hits[p3]
  {
    GatherOnly(hits, p2, p2, p3);
    GatherOnly(hits, p3, p3, |hits|);
    assert Gather(hits, |hits|) == [];
    assert hits[p3] + [] == hits[p3];
  }

  lemma AppendThree<T>(a: seq<T>, b: seq<T>, cd: seq<T>)
    ensures a + (b + cd) == a + b + cd
  {
  }

  /** How often `x` occurs in `s`. */
  function Occurrences<T(==)>(s: seq<T>, x: T): nat
  {
    if s == [] then 0 else (if s[0] == x then 1 else 0) + Occurrences(s[1..], x)
  }

  lemma {:induction false} OccurrencesAppend<T>(a: seq<T>, b: seq<T>, x: T)
    ensures Occurrences(a + b, x) == Occurrences(a, x) + Occurrences(b, x)
  {
    if a == [] {
      assert a + b == b;
    } else {
      OccurrencesAppend(a[1..], b, x);
      assert (a + b)[1..] == a[1..] + b;
    }
  }

  lemma {:induction false} OccurrencesMultiplicity<T>(s: seq<T>, x: T)
    ensures Occurrences(s, x) == multiset(s)[x]
  {
    if s != [] {
      OccurrencesMultiplicity(s[1..], x);
      assert s == [s[0]] + s[1..];
    }
  }

  /** Pieces that are, position by position, three pieces joined: the counts from `i` on add up. */
  lemma {:induction false} GatherCounts<T>(all: seq<seq<T>>, a: seq<seq<T>>, b: seq<seq<T>>, c: seq<seq<T>>,
                                           i: nat, x: T)
    requires |a| == |all| && |b| == |all| && |c| == |all| && i <= |all|
    requires forall p :: 0 <= p < |all| ==> all[p] == a[p] + b[p] + c[p]
    ensures Occurrences(Gather(all, i), x) ==
            Occurrences(Gather(a, i), x) + Occurrences(Gather(b, i), x) + Occurrences(Gather(c, i), x)
    decreases |all| - i
  {
    if i < |all| {
      GatherCounts(all, a, b, c, i + 1, x);
      GatherStep(all, i);
      GatherStep(a, i);
      GatherStep(b, i);
      GatherStep(c, i);
      OccurrencesAppend(all[i], Gather(all, i + 1), x);
      OccurrencesAppend(a[i] + b[i], c[i], x);
      OccurrencesAppend(a[i], b[i], x);
      OccurrencesAppend(a[i], Gather(a, i + 1), x);
      OccurrencesAppend(b[i], Gather(b, i + 1), x);
      OccurrencesAppend(c[i], Gather(c, i + 1), x);
    }
  }

  /** Sequences whose occurrence counts add up have multisets that add up. */
  lemma BagsFromCounts<T>(all: seq<T>, a: seq<T>, b: seq<T>, c: seq<T>)
    requires forall x :: Occurrences(all, x) == Occurrences(a, x) + Occurrences(b, x) + Occurrences(c, x)
    ensures multiset(all) == multiset(a) + multiset(b) + multiset(c)
  {
    forall x
      ensures multiset(all)[x] == (multiset(a) + multiset(b) + multiset(c))[x]
    {
      OccurrencesMultiplicity(all, x);
      OccurrencesMultiplicity(a, x);
      OccurrencesMultiplicity(b, x);
      OccurrencesMultiplicity(c, x);
    }
  }

  /** Two ascending runs, the first wholly before the second, make one ascending run. */
  lemma IncreasingAppend(a: seq<Candidate>, b: seq<Candidate>)
    requires Increasing(a) && Increasing(b)
    requires forall x, y :: x in a && y in b ==> x.position < y.position
    ensures Increasing(a + b)
  {
    forall k, l | 0 <= k < l < |a + b|
      ensures (a + b)[k].position < (a + b)[l].position
    {
      if l < |a| {
      } else if k >= |a| {
        assert (a + b)[k] == b[k - |a|] && (a + b)[l] == b[l - |a|];
      } else {
        assert (a + b)[k] in a && (a + b)[l] in b;
      }
    }
  }

  // ---------------------------------------------------------------------------
  // What the candidates promise

  /** One pattern's pieces: each is its match at that position, if any. */
  lemma PatternHitsPositioned(text: string, role: Option<Role>)
    ensures Positioned(PatternHits(text, role))
  {
  }

  /** The corrected pieces: each is the candidate at that position, if any. */
  lemma MarkHitsPositioned(text: string)
    ensures Positioned(MarkHits(text))
  {
    forall p | 0 <= p < |text|
      ensures |MarkHits(text)[p]| <= 1 && forall c :: c in MarkHits(text)[p] ==> c.position == p
    {
      MatchedAtFacts(text, p);
    }
  }

  /**
   * Each match of a pattern stands at a matching mark at or after `i`, carries that mark
   * and exactly the flags its pattern allows, and the matches are in ascending order.
   */
  lemma MatchesReport(text: string, role: Option<Role>, i: nat)
    requires i <= |text|
    ensures Increasing(MatchesFrom(text, role, i))
    ensures forall c :: c in MatchesFrom(text, role, i) ==>
              i <= c.position < |text| && MatchesAt(text, role, c.position) && c == CandidateAt(text, role, c.position)
  {
    var hits := PatternHits(text, role);
    PatternHitsPositioned(text, role);
    GatherIncreasing(hits, i);
    forall c: Candidate | c in Gather(hits, i)
      ensures MatchesAt(text, role, c.position) && c == CandidateAt(text, role, c.position)
    {
      GatherFrom(hits, i, c);
    }
  }

  /** Every mark the pattern matches at or after `i` is reported. */
  lemma MatchesComplete(text: string, role: Option<Role>, i: nat)
    requires i <= |text|
    ensures forall p :: i <= p < |text| && MatchesAt(text, role, p) ==> CandidateAt(text, role, p) in MatchesFrom(text, role, i)
  {
    forall p | i <= p < |text| && MatchesAt(text, role, p)
      ensures CandidateAt(text, role, p) in Gather(PatternHits(text, role), i)
    {
      GatherHas(PatternHits(text, role), i, p, CandidateAt(text, role, p));
    }
  }

  /** Default-pattern candidates may neither open nor close. */
  lemma DefaultsAreInert(text: string)
    ensures forall c :: c in MatchesToCandidates(text, None) ==> !c.canOpen && !c.canClose
  {
    MatchesReport(text, None, 0);
  }

  /** The corrected candidates are exactly the candidates as written, reordered. */
  lemma InOrderPermutation(text: string)
    ensures multiset(CandidatesInOrder(text)) ==
            multiset(MatchesToCandidates(text, Some(Open))) + multiset(MatchesToCandidates(text, Some(Close))) +
            multiset(MatchesToCandidates(text, None))
  {
    var all, o, c, n := MarkHits(text), PatternHits(text, Some(Open)), PatternHits(text, Some(Close)),
                        PatternHits(text, None);
    forall p | 0 <= p < |all|
      ensures all[p] == o[p] + c[p] + n[p]
    {
      MatchedAtIsMatches(text, p);
    }
    forall x
      ensures Occurrences(Gather(all, 0), x) ==
              Occurrences(Gather(o, 0), x) + Occurrences(Gather(c, 0), x) + Occurrences(Gather(n, 0), x)
    {
      GatherCounts(all, o, c, n, 0, x);
    }
    BagsFromCounts(Gather(all, 0), Gather(o, 0), Gather(c, 0), Gather(n, 0));
  }

  /** The candidate at `i` is the one match of the three patterns there. */
  lemma MatchedAtIsMatches(text: string, i: nat)
    requires i < |text|
    ensures MatchedAt(text, i) == MatchHere(text, Some(Open), i) + MatchHere(text, Some(Close), i) + MatchHere(text, None, i)
  {
    PatternsExclusive(text, i);
  }

  /** At most one pattern matches at `i`, and its candidate carries the mark at `i`. */
  lemma MatchedAtFacts(text: string, i: nat)
    requires i < |text|
    ensures |MatchedAt(text, i)| <= 1
    ensures forall c :: c in MatchedAt(text, i) ==> c.position == i && c.mark == text[i] && text[i] in CurlyVariants
  {
  }

  /** The corrected candidates are in ascending order, each one at a mark one pattern matched. */
  lemma InOrderReport(text: string, i: nat)
    requires i <= |text|
    ensures Increasing(InOrderFrom(text, i))
    ensures forall c :: c in InOrderFrom(text, i) ==>
              i <= c.position < |text| && c.mark == text[c.position] && text[c.position] in CurlyVariants
  {
    var hits := MarkHits(text);
    MarkHitsPositioned(text);
    GatherIncreasing(hits, i);
    forall c: Candidate | c in Gather(hits, i)
      ensures c.mark == text[c.position] && text[c.position] in CurlyVariants
    {
      GatherFrom(hits, i, c);
      MatchedAtFacts(text, c.position);
    }
  }

  /** No pattern matches at a character that is not a mark. */
  lemma NoMatchHere(text: string, i: nat)
    requires i < |text| && text[i] !in CurlyVariants
    ensures forall role :: MatchHere(text, role, i) == []
  {
  }

  /** No candidate stands at a character that is not a mark. */
  lemma NoneMatchedAt(text: string, i: nat)
    requires i < |text| && text[i] !in CurlyVariants
    ensures MatchedAt(text, i) == []
  {
    NoMatchHere(text, i);
  }

  lemma InOrderStep(text: string, i: nat)
    requires i < |text|
    ensures InOrderFrom(text, i) == MatchedAt(text, i) + InOrderFrom(text, i + 1)
  {
    GatherStep(MarkHits(text), i);
  }

  lemma MatchesStep(text: string, role: Option<Role>, i: nat)
    requires i < |text|
    ensures MatchesFrom(text, role, i) == MatchHere(text, role, i) + MatchesFrom(text, role, i + 1)
  {
    GatherStep(PatternHits(text, role), i);
  }

  /** A stretch without marks contributes no candidate. */
  lemma InOrderSkip(text: string, i: nat, j: nat)
    requires i <= j <= |text|
    requires forall p :: i <= p < j ==> text[p] !in CurlyVariants
    ensures InOrderFrom(text, i) == InOrderFrom(text, j)
  {
    var hits := MarkHits(text);
    forall p | i <= p < j
      ensures hits[p] == []
    {
      NoneMatchedAt(text, p);
    }
    GatherSkip(hits, i, j);
  }

  // ---------------------------------------------------------------------------
  // Pairing

  /** The stack of unpaired openers and the pairs emitted so far. */
  datatype Pairing = Pairing(stack: seq<Candidate>, paired: seq<Quote>)

  /**
   * One candidate: one that may close, with an opener waiting, pops it and emits the
   * opener's Open and its own Close; otherwise one that may open is pushed; otherwise it
   * is dropped.
   */
  function PairStep(p: Pairing, c: Candidate): Pairing
  {
    if c.canClose && |p.stack| > 0 then
      var opener := p.stack[|p.stack| - 1];
      Pairing(p.stack[..|p.stack| - 1],
              p.paired + [Quote(Open, opener.position, opener.mark), Quote(Close, c.position, c.mark)])
    else if c.canOpen then Pairing(p.stack + [c], p.paired)
    else p
  }

  /** The pairing after all candidates, in the order given. */
  function PairAll(cands: seq<Candidate>): Pairing
  {
    if cands == [] then Pairing([], [])
    else PairStep(PairAll(cands[..|cands| - 1]), cands[|cands| - 1])
  }

  /** The number of quotes with role `r`. */
  function Tally(qs: seq<Quote>, r: Role): nat
  {
    if qs == [] then 0 else (if qs[0].role == r then 1 else 0) + Tally(qs[1..], r)
  }

  /** The number of quotes with role `r` before position `t`. */
  function Below(qs: seq<Quote>, t: nat, r: Role): nat
  {
    if qs == [] then 0 else (if qs[0].role == r && qs[0].position < t then 1 else 0) + Below(qs[1..], t, r)
  }

  lemma {:induction false} CountsAppend(a: seq<Quote>, b: seq<Quote>, t: nat, r: Role)
    ensures Tally(a + b, r) == Tally(a, r) + Tally(b, r)
    ensures Below(a + b, t, r) == Below(a, t, r) + Below(b, t, r)
  {
    if a != [] {
      assert (a + b)[0] == a[0] && (a + b)[1..] == a[1..] + b;
      CountsAppend(a[1..], b, t, r);
    } else {
      assert a + b == b;
    }
  }

  lemma CountsPair(o: Quote, c: Quote, t: nat, r: Role)
    ensures Tally([o, c], r) == (if o.role == r then 1 else 0) + (if c.role == r then 1 else 0)
    ensures Below([o, c], t, r) == (if o.role == r && o.position < t then 1 else 0) +
                                   (if c.role == r && c.position < t then 1 else 0)
  {
    var pair := [o, c];
    assert pair[1..] == [c] && [c][1..] == [];
    assert Tally([c], r) == (if c.role == r then 1 else 0) + Tally([], r);
    assert Below([c], t, r) == (if c.role == r && c.position < t then 1 else 0) + Below([], t, r);
  }

  /** The pairs alternate Open, Close, as many of one as of the other. */
  ghost predicate Alternating(paired: seq<Quote>)
  {
    |paired| % 2 == 0 &&
    (forall k :: 0 <= k < |paired| ==> (paired[k].role == Open <==> k % 2 == 0)) &&
    Tally(paired, Open) == Tally(paired, Close)
  }

  lemma ShapeStep(p: Pairing, c: Candidate)
    requires Alternating(p.paired)
    ensures Alternating(PairStep(p, c).paired)
  {
    if c.canClose && |p.stack| > 0 {
      var top := p.stack[|p.stack| - 1];
      var added := [Quote(Open, top.position, top.mark), Quote(Close, c.position, c.mark)];
      CountsAppend(p.paired, added, 0, Open);
      CountsAppend(p.paired, added, 0, Close);
      CountsPair(added[0], added[1], 0, Open);
      CountsPair(added[0], added[1], 0, Close);
    }
  }

  /**
   * Each pop emits exactly one Open, for the popped opener, and then one Close, for the
   * current candidate: the pairs alternate Open, Close and there are as many Opens as Closes.
   */
  lemma {:induction false} PairAllAlternates(cands: seq<Candidate>)
    ensures Alternating(PairAll(cands).paired)
  {
    if cands != [] {
      var n := |cands| - 1;
      PairAllAlternates(cands[..n]);
      ShapeStep(PairAll(cands[..n]), cands[n]);
    }
  }

  /** The quote `q` is the mark of a candidate of `all` allowed to take its role. */
  ghost predicate FromCandidate(q: Quote, all: seq<Candidate>)
  {
    exists c :: c in all && c.position == q.position && c.mark == q.mark &&
                (if q.role == Open then c.canOpen else c.canClose)
  }

  /** Every pair and every waiting opener comes from `all`, with the flag its role needs. */
  ghost predicate Traced(p: Pairing, all: seq<Candidate>)
  {
    (forall q :: q in p.paired ==> FromCandidate(q, all)) &&
    (forall s :: s in p.stack ==> s in all && s.canOpen)
  }

  lemma OriginStep(p: Pairing, c: Candidate, all: seq<Candidate>)
    requires Traced(p, all) && c in all
    ensures Traced(PairStep(p, c), all)
  {
    if c.canClose && |p.stack| > 0 {
      var m := |p.stack| - 1;
      var top := p.stack[m];
      var o, cl := Quote(Open, top.position, top.mark), Quote(Close, c.position, c.mark);
      assert top in p.stack;
      assert FromCandidate(o, all);
      assert FromCandidate(cl, all);
      assert forall s :: s in p.stack[..m] ==> s in p.stack;
    }
  }

  /**
   * Every Open quote is the mark of a candidate that may open, every Close quote the mark
   * of one that may close, and every waiting opener is a candidate that may open.
   */
  lemma {:induction false} PairAllOrigin(cands: seq<Candidate>, all: seq<Candidate>)
    requires forall c :: c in cands ==> c in all
    ensures Traced(PairAll(cands), all)
  {
    if cands != [] {
      var n := |cands| - 1;
      assert forall c :: c in cands[..n] ==> c in cands;
      PairAllOrigin(cands[..n], all);
      OriginStep(PairAll(cands[..n]), cands[n], all);
    }
  }

  /** The positions of candidates and of quotes. */
  function CandPositions(cs: seq<Candidate>): seq<nat>
  {
    seq(|cs|, k requires 0 <= k < |cs| => cs[k].position)
  }

  function QuotePositions(qs: seq<Quote>): seq<nat>
  {
    seq(|qs|, k requires 0 <= k < |qs| => qs[k].position)
  }

  /** The waiting openers and the pairs, as a bag of positions. */
  function InUse(p: Pairing): multiset<nat>
  {
    multiset(CandPositions(p.stack)) + multiset(QuotePositions(p.paired))
  }

  /** One candidate adds at most its own position to the positions in use. */
  lemma BagStep(p: Pairing, c: Candidate)
    ensures InUse(PairStep(p, c)) <= InUse(p) + multiset{c.position}
  {
    if c.canClose && |p.stack| > 0 {
      var m := |p.stack| - 1;
      var top := p.stack[m];
      assert p.stack == p.stack[..m] + [top];
      assert CandPositions(p.stack) == CandPositions(p.stack[..m]) + [top.position];
      assert QuotePositions(p.paired + [Quote(Open, top.position, top.mark), Quote(Close, c.position, c.mark)])
          == QuotePositions(p.paired) + [top.position, c.position];
    } else if c.canOpen {
      assert CandPositions(p.stack + [c]) == CandPositions(p.stack) + [c.position];
    }
  }

  /** The waiting openers and the pairs together use each candidate position at most once. */
  lemma {:induction false} PairAllBags(cands: seq<Candidate>)
    ensures InUse(PairAll(cands)) <= multiset(CandPositions(cands))
  {
    if cands != [] {
      var n := |cands| - 1;
      PairAllBags(cands[..n]);
      BagStep(PairAll(cands[..n]), cands[n]);
      PositionsSnoc(cands);
      BagChain(InUse(PairAll(cands)), InUse(PairAll(cands[..n])), multiset(CandPositions(cands[..n])),
               cands[n].position, multiset(CandPositions(cands)));
    } else {
      NothingInUse();
    }
  }

  lemma NothingInUse()
    ensures InUse(PairAll([])) <= multiset(CandPositions([]))
  {
    assert CandPositions([]) == [] && QuotePositions([]) == [];
  }

  /** The positions of all candidates are those of all but the last, and the last one's. */
  lemma PositionsSnoc(cands: seq<Candidate>)
    requires cands != []
    ensures multiset(CandPositions(cands)) ==
            multiset(CandPositions(cands[..|cands| - 1])) + multiset{cands[|cands| - 1].position}
  {
    var n := |cands| - 1;
    assert CandPositions(cands) == CandPositions(cands[..n]) + [cands[n].position];
  }

  lemma BagChain<T>(now: multiset<T>, before: multiset<T>, bound: multiset<T>, x: T, all: multiset<T>)
    requires now <= before + multiset{x} && before <= bound && all == bound + multiset{x}
    ensures now <= all
  {
  }

  /** No two entries are equal. */
  ghost predicate Distinct(s: seq<nat>)
  {
    forall k, l :: 0 <= k < l < |s| ==> s[k] != s[l]
  }

  lemma {:induction false} DistinctOnce(s: seq<nat>, x: nat)
    requires Distinct(s)
    ensures multiset(s)[x] <= 1
  {
    if s != [] {
      var n := |s| - 1;
      assert s == s[..n] + [s[n]];
      DistinctOnce(s[..n], x);
      if s[n] == x {
        assert x !in s[..n];
      }
    }
  }

  lemma Twice(s: seq<nat>, k: nat, l: nat)
    requires k < l < |s|
    ensures s[k] == s[l] ==> multiset(s)[s[k]] >= 2
  {
    assert s == s[..l] + [s[l]] + s[l + 1..];
    assert s[k] in s[..l];
  }

  /**
   * Openers never popped are dropped: when the candidates have distinct positions, no
   * waiting opener's position is among the pairs, and the pairs have distinct positions.
   */
  lemma UnpairedOpenersDropped(cands: seq<Candidate>)
    requires Distinct(CandPositions(cands))
    ensures var p := PairAll(cands);
            forall k, j :: 0 <= k < |p.stack| && 0 <= j < |p.paired| ==> p.stack[k].position != p.paired[j].position
    ensures Distinct(QuotePositions(PairAll(cands).paired))
  {
    var p := PairAll(cands);
    var sp, qp := CandPositions(p.stack), QuotePositions(p.paired);
    PairAllBags(cands);
    forall k, j | 0 <= k < |p.stack| && 0 <= j < |p.paired|
      ensures p.stack[k].position != p.paired[j].position
    {
      var x := p.stack[k].position;
      DistinctOnce(CandPositions(cands), x);
      assert sp[k] == x && x in multiset(sp);
      assert qp[j] in multiset(qp);
    }
    forall k, l | 0 <= k < l < |qp|
      ensures qp[k] != qp[l]
    {
      DistinctOnce(CandPositions(cands), qp[k]);
      Twice(qp, k, l);
    }
  }

  /** Before any position there are at least as many Open quotes as Close quotes. */
  ghost predicate OpensLead(paired: seq<Quote>)
  {
    forall t: nat :: Below(paired, t, Close) <= Below(paired, t, Open)
  }

  lemma NestStep(p: Pairing, c: Candidate)
    requires OpensLead(p.paired)
    requires forall s :: s in p.stack ==> s.position < c.position
    ensures OpensLead(PairStep(p, c).paired)
  {
    if c.canClose && |p.stack| > 0 {
      var top := p.stack[|p.stack| - 1];
      assert top in p.stack;
      var added := [Quote(Open, top.position, top.mark), Quote(Close, c.position, c.mark)];
      forall t: nat
        ensures Below(p.paired + added, t, Close) <= Below(p.paired + added, t, Open)
      {
        CountsAppend(p.paired, added, t, Open);
        CountsAppend(p.paired, added, t, Close);
        CountsPair(added[0], added[1], t, Open);
        CountsPair(added[0], added[1], t, Close);
      }
    }
  }

  /**
   * With candidates in position order every opener precedes the candidate that closes
   * it, so before any position the Open quotes are at least as many as the Close quotes.
   */
  lemma {:induction false} PairAllNests(cands: seq<Candidate>)
    requires Increasing(cands)
    ensures OpensLead(PairAll(cands).paired)
  {
    if cands != [] {
      var n := |cands| - 1;
      var prev := PairAll(cands[..n]);
      PairAllNests(cands[..n]);
      PairAllOrigin(cands[..n], cands[..n]);
      forall s | s in prev.stack
        ensures s.position < cands[n].position
      {
        var j :| 0 <= j < n && cands[..n][j] == s;
      }
      NestStep(prev, cands[n]);
    }
  }

  // ---------------------------------------------------------------------------
  // Sorting by position (`usort` with `<=>` on positions)

  ghost predicate Sorted(qs: seq<Quote>)
  {
    forall k, l :: 0 <= k < l < |qs| ==> qs[k].position <= qs[l].position
  }

  ghost predicate StrictlySorted(qs: seq<Quote>)
  {
    forall k, l :: 0 <= k < l < |qs| ==> qs[k].position < qs[l].position
  }

  /** Inserts `q` before the first quote not before it. */
  function Insert(q: Quote, s: seq<Quote>): seq<Quote>
  {
    if s == [] || q.position <= s[0].position then [q] + s
    else [s[0]] + Insert(q, s[1..])
  }

  /** The quotes in ascending position order; equal positions keep their order. */
  function SortByPosition(qs: seq<Quote>): seq<Quote>
  {
    if qs == [] then [] else Insert(qs[0], SortByPosition(qs[1..]))
  }

  /** Inserting adds exactly the one quote. */
  lemma {:induction false} InsertPermutes(q: Quote, s: seq<Quote>)
    ensures multiset(Insert(q, s)) == multiset(s) + multiset{q}
  {
    if s != [] && q.position > s[0].position {
      InsertPermutes(q, s[1..]);
      assert s == [s[0]] + s[1..];
    }
  }

  /** The sorted quotes are a permutation of the quotes. */
  lemma {:induction false} SortPermutes(qs: seq<Quote>)
    ensures multiset(SortByPosition(qs)) == multiset(qs)
  {
    if qs != [] {
      SortPermutes(qs[1..]);
      InsertPermutes(qs[0], SortByPosition(qs[1..]));
      assert qs == [qs[0]] + qs[1..];
    }
  }

  lemma {:induction false} InsertSorted(q: Quote, s: seq<Quote>)
    requires Sorted(s)
    ensures Sorted(Insert(q, s))
  {
    if s != [] && q.position > s[0].position {
      InsertSorted(q, s[1..]);
      InsertPermutes(q, s[1..]);
      var rest := Insert(q, s[1..]);
      forall x | x in rest
        ensures s[0].position <= x.position
      {
        assert x in multiset(rest);
        if x != q {
          assert x in s[1..];
        }
      }
      assert forall l :: 0 < l < |[s[0]] + rest| ==> ([s[0]] + rest)[l] in rest;
    }
  }

  lemma {:induction false} InsertStrict(q: Quote, s: seq<Quote>)
    requires StrictlySorted(s)
    requires forall k :: 0 <= k < |s| ==> s[k].position != q.position
    ensures StrictlySorted(Insert(q, s))
  {
    if s != [] && q.position > s[0].position {
      InsertStrict(q, s[1..]);
      InsertPermutes(q, s[1..]);
      var rest := Insert(q, s[1..]);
      forall x | x in rest
        ensures s[0].position < x.position
      {
        assert x in multiset(rest);
        if x != q {
          assert x in s[1..];
        }
      }
      assert forall l :: 0 < l < |[s[0]] + rest| ==> ([s[0]] + rest)[l] in rest;
    }
  }

  /** The paired output is sorted by position, and strictly so when its positions are distinct. */
  lemma {:induction false} SortSorted(qs: seq<Quote>)
    ensures Sorted(SortByPosition(qs))
    ensures Distinct(QuotePositions(qs)) ==> StrictlySorted(SortByPosition(qs))
  {
    if qs != [] {
      var rest := SortByPosition(qs[1..]);
      assert QuotePositions(qs[1..]) == QuotePositions(qs)[1..];
      SortSorted(qs[1..]);
      SortPermutes(qs[1..]);
      InsertSorted(qs[0], rest);
      if Distinct(QuotePositions(qs)) {
        forall k | 0 <= k < |rest|
          ensures rest[k].position != qs[0].position
        {
          assert rest[k] in multiset(qs[1..]);
          var j :| 0 <= j < |qs[1..]| && qs[1..][j] == rest[k];
          assert QuotePositions(qs)[j + 1] == rest[k].position && QuotePositions(qs)[0] == qs[0].position;
        }
        InsertStrict(qs[0], rest);
      }
    }
  }

  lemma {:induction false} CountsInsert(q: Quote, s: seq<Quote>, t: nat, r: Role)
    ensures Tally(Insert(q, s), r) == Tally([q], r) + Tally(s, r)
    ensures Below(Insert(q, s), t, r) == Below([q], t, r) + Below(s, t, r)
  {
    if s != [] && q.position > s[0].position {
      CountsInsert(q, s[1..], t, r);
      assert Insert(q, s)[1..] == Insert(q, s[1..]);
    }
  }

  /** Sorting keeps how many quotes of each role there are, in total and before any position. */
  lemma {:induction false} CountsSort(qs: seq<Quote>, t: nat, r: Role)
    ensures Tally(SortByPosition(qs), r) == Tally(qs, r)
    ensures Below(SortByPosition(qs), t, r) == Below(qs, t, r)
  {
    if qs != [] {
      CountsSort(qs[1..], t, r);
      CountsInsert(qs[0], SortByPosition(qs[1..]), t, r);
    }
  }

  // ---------------------------------------------------------------------------
  // The pairing method

  /** `findPairedQuotes`: pair with a stack, then sort the pairs by position. */
  method FindPairedQuotes(candidates: seq<Candidate>) returns (quotes: seq<Quote>)
    ensures quotes == SortByPosition(PairAll(candidates).paired)
  {
    var stack: seq<Candidate> := [];
    var paired: seq<Quote> := [];
    var i := 0;
    while i < |candidates|
      invariant 0 <= i <= |candidates|
      invariant Pairing(stack, paired) == PairAll(candidates[..i])
    {
      var candidate := candidates[i];
      assert candidates[..i + 1][..i] == candidates[..i];
      if candidate.canClose && |stack| > 0 {
        var opener := stack[|stack| - 1];
        stack := stack[..|stack| - 1];
        paired := paired + [Quote(Open, opener.position, opener.mark)];
        paired := paired + [Quote(Close, candidate.position, candidate.mark)];
      } else if candidate.canOpen {
        stack := stack + [candidate];
      }
      i := i + 1;
    }
    assert candidates[..i] == candidates;
    quotes := SortByPosition(paired);
  }

  // ---------------------------------------------------------------------------
  // Well-nested roles

  /** The roles of the quotes, in order. */
  function Roles(qs: seq<Quote>): seq<Role>
  {
    seq(|qs|, k requires 0 <= k < |qs| => qs[k].role)
  }

  lemma {:induction false} TallyRoles(qs: seq<Quote>, r: Role)
    ensures Tally(qs, r) == multiset(Roles(qs))[r]
  {
    if qs != [] {
      TallyRoles(qs[1..], r);
      assert Roles(qs) == [qs[0].role] + Roles(qs[1..]);
    }
  }

  lemma {:induction false} BelowAll(qs: seq<Quote>, t: nat, r: Role)
    requires forall k :: 0 <= k < |qs| ==> qs[k].position < t
    ensures Below(qs, t, r) == Tally(qs, r)
  {
    if qs != [] {
      BelowAll(qs[1..], t, r);
    }
  }

  lemma {:induction false} BelowNone(qs: seq<Quote>, t: nat, r: Role)
    requires forall k :: 0 <= k < |qs| ==> qs[k].position >= t
    ensures Below(qs, t, r) == 0
  {
    if qs != [] {
      BelowNone(qs[1..], t, r);
    }
  }

  /** In strictly sorted quotes, those before the position of the `j`-th are the first `j`. */
  lemma BelowIsPrefix(qs: seq<Quote>, j: nat, r: Role)
    requires StrictlySorted(qs) && j < |qs|
    ensures Below(qs, qs[j].position, r) == multiset(Roles(qs)[..j])[r]
  {
    var t := qs[j].position;
    assert qs == qs[..j] + qs[j..];
    CountsAppend(qs[..j], qs[j..], t, r);
    BelowAll(qs[..j], t, r);
    BelowNone(qs[j..], t, r);
    TallyRoles(qs[..j], r);
    assert Roles(qs)[..j] == Roles(qs[..j]);
  }

  /** Sorted quotes whose Opens lead before every position and balance overall are well nested. */
  lemma NestedFromBelow(qs: seq<Quote>)
    requires StrictlySorted(qs) && OpensLead(qs) && Tally(qs, Open) == Tally(qs, Close)
    ensures WellNested(Roles(qs))
  {
    var roles := Roles(qs);
    TallyRoles(qs, Open);
    TallyRoles(qs, Close);
    forall j | 0 <= j <= |roles|
      ensures multiset(roles[..j])[Close] <= multiset(roles[..j])[Open]
    {
      if j < |qs| {
        BelowIsPrefix(qs, j, Open);
        BelowIsPrefix(qs, j, Close);
        assert Below(qs, qs[j].position, Close) <= Below(qs, qs[j].position, Open);
      } else {
        assert roles[..j] == roles;
      }
    }
  }

  // ---------------------------------------------------------------------------
  // Segments

  /** The quotes as paired marks for the cursor walk. */
  function PlacedOf(quotes: seq<Quote>): seq<Placed>
  {
    seq(|quotes|, k requires 0 <= k < |quotes| => Placed(quotes[k].position, quotes[k].role))
  }

  /** The marks of the quotes, in order. */
  function MarksOf(quotes: seq<Quote>): seq<char>
  {
    seq(|quotes|, k requires 0 <= k < |quotes| => quotes[k].mark)
  }

  /**
   * `buildSegments`: none for an empty text (PHP's `empty`, which "0" also is), one text
   * segment when no quote is paired, the cursor walk otherwise.
   */
  function ParsedSegments(text: string, quotes: seq<Quote>): seq<Segment>
  {
    if PhpEmpty(text) then []
    else if quotes == [] then [TextSegment(text)]
    else Emit(text, PlacedOf(quotes), 0)
  }

  /** `parse` as written: candidates pattern by pattern, then pairing, then segments. */
  function ParseAsWritten(text: string): seq<Segment>
  {
    ParsedSegments(text, SortByPosition(PairAll(FindCandidates(text)).paired))
  }

  /** The paired quotes of the corrected parser, sorted by position. */
  function PairedQuotes(text: string): seq<Quote>
  {
    SortByPosition(PairAll(CandidatesInOrder(text)).paired)
  }

  /** `parse` with the candidates in position order. */
  function Parsed(text: string): seq<Segment>
  {
    ParsedSegments(text, PairedQuotes(text))
  }

  /** `buildSegments`: the early returns, then the cursor loop. */
  method BuildSegments(text: string, quotes: seq<Quote>) returns (segments: seq<Segment>)
    ensures segments == ParsedSegments(text, quotes)
  {
    if PhpEmpty(text) {
      return [];
    }
    if quotes == [] {
      return [TextSegment(text)];
    }
    segments := WalkCursor(text, PlacedOf(quotes));
  }

  /** `parse`: candidates, paired quotes, segments. */
  method Parse(text: string) returns (segments: seq<Segment>)
    ensures segments == Parsed(text)
  {
    var candidates := CandidatesInOrder(text);
    var quotes := FindPairedQuotes(candidates);
    segments := BuildSegments(text, quotes);
  }

  // ---------------------------------------------------------------------------
  // What the segments promise

  /** Default-pattern candidates never pair: appending candidates that may neither open nor close changes nothing. */
  lemma {:induction false} InertCandidatesIgnored(cands: seq<Candidate>, rest: seq<Candidate>)
    requires forall c :: c in rest ==> !c.canOpen && !c.canClose
    ensures PairAll(cands + rest) == PairAll(cands)
  {
    if rest != [] {
      var n := |rest| - 1;
      assert (cands + rest)[..|cands + rest| - 1] == cands + rest[..n];
      assert rest[n] in rest;
      assert forall c :: c in rest[..n] ==> c in rest;
      InertCandidatesIgnored(cands, rest[..n]);
    } else {
      assert cands + rest == cands;
    }
  }

  /** The default pattern's candidates take no part in the pairing as written. */
  lemma DefaultsNeverPair(text: string)
    ensures PairAll(FindCandidates(text)) ==
            PairAll(MatchesToCandidates(text, Some(Open)) + MatchesToCandidates(text, Some(Close)))
  {
    DefaultsAreInert(text);
    InertCandidatesIgnored(MatchesToCandidates(text, Some(Open)) + MatchesToCandidates(text, Some(Close)),
                           MatchesToCandidates(text, None));
  }

  /** Empty text, and "0" which PHP also takes for empty, give no segment. */
  lemma ParsedEmpty()
    ensures Parsed("") == [] && Parsed("0") == []
    ensures ParseAsWritten("") == [] && ParseAsWritten("0") == []
  {
  }

  /** A non-empty text without any quotation mark gives one text segment. */
  lemma ParsedPlain(text: string)
    requires !PhpEmpty(text)
    requires forall i :: 0 <= i < |text| ==> text[i] !in CurlyVariants
    ensures Parsed(text) == [TextSegment(text)]
  {
    InOrderSkip(text, 0, |text|);
  }

  /**
   * The corrected parser's quotes: strictly ascending, each the mark at its position in the
   * text, and well nested.
   */
  lemma PairedQuotesFacts(text: string)
    ensures StrictlySorted(PairedQuotes(text))
    ensures forall q :: q in PairedQuotes(text) ==> q.position < |text| && text[q.position] == q.mark
    ensures WellNested(Roles(PairedQuotes(text)))
  {
    var cands := CandidatesInOrder(text);
    var paired := PairAll(cands).paired;
    var quotes := PairedQuotes(text);
    InOrderReport(text, 0);
    assert Distinct(CandPositions(cands));
    UnpairedOpenersDropped(cands);
    SortSorted(paired);
    SortPermutes(paired);
    PairAllOrigin(cands, cands);
    forall q | q in quotes
      ensures q.position < |text| && text[q.position] == q.mark
    {
      assert q in multiset(paired);
      assert FromCandidate(q, cands);
    }
    PairAllNests(cands);
    PairAllAlternates(cands);
    forall t: nat
      ensures Below(quotes, t, Close) <= Below(quotes, t, Open)
    {
      CountsSort(paired, t, Open);
      CountsSort(paired, t, Close);
    }
    CountsSort(paired, 0, Open);
    CountsSort(paired, 0, Close);
    NestedFromBelow(quotes);
  }

  /** The quote segments carry the quotes' roles, in order, so no quotation closes before it opens. */
  lemma ParsedNests(text: string)
    ensures WellNested(QuoteRoles(Parsed(text)))
  {
    var quotes := PairedQuotes(text);
    PairedQuotesFacts(text);
    if !PhpEmpty(text) && quotes != [] {
      EmitRoles(text, PlacedOf(quotes), 0);
      assert RolesOf(PlacedOf(quotes)) == Roles(quotes);
    } else if !PhpEmpty(text) {
      assert QuoteRoles([TextSegment(text)]) == [];
    }
  }

  /** No text segment is empty. */
  lemma ParsedNoEmptyText(text: string)
    ensures NoEmptyText(Parsed(text))
  {
    var quotes := PairedQuotes(text);
    PairedQuotesFacts(text);
    if !PhpEmpty(text) && quotes != [] {
      EmitNoEmptyText(text, PlacedOf(quotes), 0);
    }
  }

  /**
   * The segments rebuild the text: the text segments joined, with each paired quote's mark
   * in place of its quote segment. The cursor steps over each mark whole.
   */
  lemma ParsedRoundTrip(text: string)
    requires !PhpEmpty(text)
    ensures Joined(Parsed(text), MarksOf(PairedQuotes(text))) == text
  {
    var quotes := PairedQuotes(text);
    PairedQuotesFacts(text);
    if quotes != [] {
      QuotesRoundTrip(text, quotes);
    } else {
      assert Joined([TextSegment(text)], []) == text + Joined([], []);
    }
  }

  /** The cursor walk over strictly ascending quotes, each at its own mark, rebuilds the text. */
  lemma QuotesRoundTrip(text: string, quotes: seq<Quote>)
    requires StrictlySorted(quotes)
    requires forall q :: q in quotes ==> q.position < |text| && text[q.position] == q.mark
    ensures Joined(Emit(text, PlacedOf(quotes), 0), MarksOf(quotes)) == text
  {
    PlacedInOrder(text, quotes);
    EmitRoundTrip(text, PlacedOf(quotes), 0);
    MarksInPlace(text, quotes);
  }

  /** Strictly ascending quotes inside the text are places the cursor walk accepts. */
  lemma PlacedInOrder(text: string, quotes: seq<Quote>)
    requires StrictlySorted(quotes)
    requires forall q :: q in quotes ==> q.position < |text|
    ensures InOrder(PlacedOf(quotes), 0, |text|)
  {
    var placed := PlacedOf(quotes);
    forall k | 0 <= k < |placed|
      ensures placed[k].position < |text|
    {
      assert quotes[k] in quotes;
    }
  }

  /** Each quote standing at its own mark, the characters at the places are the quotes' marks. */
  lemma MarksInPlace(text: string, quotes: seq<Quote>)
    requires forall q :: q in quotes ==> q.position < |text| && text[q.position] == q.mark
    ensures forall k :: 0 <= k < |quotes| ==> PlacedOf(quotes)[k].position < |text|
    ensures CharsAt(text, PlacedOf(quotes)) == MarksOf(quotes)
  {
    var placed := PlacedOf(quotes);
    forall k | 0 <= k < |quotes|
      ensures placed[k].position < |text| && text[placed[k].position] == quotes[k].mark
    {
      assert quotes[k] in quotes;
    }
    assert CharsAt(text, placed) == MarksOf(quotes);
  }

  // ---------------------------------------------------------------------------
  // Candidates at single marks

  /** A `"` with nothing alphanumeric before it and a letter after it only opens. */
  lemma OpenerHere(text: string, i: nat)
    requires i + 1 < |text| && text[i] == '"' && IsLetter(text[i + 1])
    requires i == 0 || !IsAlnum(text[i - 1])
    ensures MatchHere(text, Some(Open), i) == [Candidate('"', i, true, false)]
    ensures MatchHere(text, Some(Close), i) == [] && MatchHere(text, None, i) == []
    ensures MatchedAt(text, i) == [Candidate('"', i, true, false)]
  {
  }

  /** A `"` with a letter before it and nothing alphanumeric after it only closes. */
  lemma CloserHere(text: string, i: nat)
    requires 0 < i < |text| && text[i] == '"' && IsLetter(text[i - 1])
    requires i + 1 == |text| || !IsAlnum(text[i + 1])
    ensures MatchHere(text, Some(Close), i) == [Candidate('"', i, false, true)]
    ensures MatchHere(text, Some(Open), i) == [] && MatchHere(text, None, i) == []
    ensures MatchedAt(text, i) == [Candidate('"', i, false, true)]
  {
  }

  // ---------------------------------------------------------------------------
  // The documented nested example, with one-letter words

  /** `"x "x" x"`: the shape of `"outer "inner" outer"` for any letter `x`. */
  function NestedText(x: char): string
  {
    ['"', x, ' ', '"', x, '"', ' ', x, '"']
  }

  /** Its candidates: openers at 0 and 3, closers at 5 and 8. */
  const NestedCandidates: seq<Candidate> :=
    [Candidate('"', 0, true, false), Candidate('"', 3, true, false),
     Candidate('"', 5, false, true), Candidate('"', 8, false, true)]

  /** The characters of `"x "x" x"` between its marks are no marks. */
  lemma NestedGaps(x: char)
    requires IsLetter(x)
    ensures forall q :: 0 <= q < 9 && q != 0 && q != 3 && q != 5 && q != 8 ==> NestedText(x)[q] !in CurlyVariants
  {
    VariantsAreNotLetters();
  }

  /** Each pattern's matches over `"x "x" x"` are its matches at the four marks. */
  lemma NestedMatchesAtMarks(x: char, r: Option<Role>)
    requires IsLetter(x)
    ensures var t := NestedText(x);
            MatchesFrom(t, r, 0) ==
            MatchHere(t, r, 0) + MatchHere(t, r, 3) + MatchHere(t, r, 5) + MatchHere(t, r, 8)
  {
    var t := NestedText(x);
    var h := PatternHits(t, r);
    NestedGaps(x);
    forall q | 0 <= q < 9 && q != 0 && q != 3 && q != 5 && q != 8
      ensures h[q] == []
    {
      NoMatchHere(t, q);
    }
    GatherFour(h, 0, 3, 5, 8);
  }

  /** The corrected candidates over `"x "x" x"` are the candidates at the four marks. */
  lemma NestedInOrderAtMarks(x: char)
    requires IsLetter(x)
    ensures var t := NestedText(x);
            InOrderFrom(t, 0) == MatchedAt(t, 0) + MatchedAt(t, 3) + MatchedAt(t, 5) + MatchedAt(t, 8)
  {
    var t := NestedText(x);
    var h := MarkHits(t);
    NestedGaps(x);
    forall q | 0 <= q < 9 && q != 0 && q != 3 && q != 5 && q != 8
      ensures h[q] == []
    {
      NoneMatchedAt(t, q);
    }
    GatherFour(h, 0, 3, 5, 8);
  }

  /** As written, the opening pattern finds the marks at 0 and 3 of `"x "x" x"`. */
  lemma NestedOpeners(x: char)
    requires IsLetter(x)
    ensures MatchesToCandidates(NestedText(x), Some(Open)) == NestedCandidates[..2]
  {
    var t := NestedText(x);
    OpenerHere(t, 0);
    OpenerHere(t, 3);
    CloserHere(t, 5);
    CloserHere(t, 8);
    NestedMatchesAtMarks(x, Some(Open));
  }

  /** As written, the closing pattern finds the marks at 5 and 8 of `"x "x" x"`. */
  lemma NestedClosers(x: char)
    requires IsLetter(x)
    ensures MatchesToCandidates(NestedText(x), Some(Close)) == NestedCandidates[2..]
  {
    var t := NestedText(x);
    OpenerHere(t, 0);
    OpenerHere(t, 3);
    CloserHere(t, 5);
    CloserHere(t, 8);
    NestedMatchesAtMarks(x, Some(Close));
  }

  /** The default pattern finds nothing in `"x "x" x"`. */
  lemma NestedNoDefaults(x: char)
    requires IsLetter(x)
    ensures MatchesToCandidates(NestedText(x), None) == []
  {
    var t := NestedText(x);
    OpenerHere(t, 0);
    OpenerHere(t, 3);
    CloserHere(t, 5);
    CloserHere(t, 8);
    NestedMatchesAtMarks(x, None);
  }

  /** As written, the candidates of `"x "x" x"` are the openers at 0 and 3, then the closers at 5 and 8. */
  lemma NestedFound(x: char)
    requires IsLetter(x)
    ensures FindCandidates(NestedText(x)) == NestedCandidates
  {
    var cs := NestedCandidates;
    NestedOpeners(x);
    NestedClosers(x);
    NestedNoDefaults(x);
    assert cs[..2] + cs[2..] + [] == cs;
  }

  /** In position order, the candidates of `"x "x" x"` are the same. */
  lemma NestedInOrder(x: char)
    requires IsLetter(x)
    ensures CandidatesInOrder(NestedText(x)) == NestedCandidates
  {
    var t := NestedText(x);
    OpenerHere(t, 0);
    OpenerHere(t, 3);
    CloserHere(t, 5);
    CloserHere(t, 8);
    NestedInOrderAtMarks(x);
  }

  /**
   * Two openers and then two closers: the inner pair is emitted first, then the outer one.
   */
  lemma PairEnclosed(o1: Candidate, o2: Candidate, c1: Candidate, c2: Candidate)
    requires o1.canOpen && !o1.canClose && o2.canOpen && !o2.canClose && c1.canClose && c2.canClose
    ensures PairAll([o1, o2, c1, c2]).paired ==
            [Quote(Open, o2.position, o2.mark), Quote(Close, c1.position, c1.mark),
             Quote(Open, o1.position, o1.mark), Quote(Close, c2.position, c2.mark)]
  {
    var p1 := PairStep(Pairing([], []), o1);
    var p2 := PairStep(p1, o2);
    var p3 := PairStep(p2, c1);
    PairAllSnoc([], o1);
    assert [] + [o1] == [o1];
    PairAllSnoc([o1], o2);
    assert [o1] + [o2] == [o1, o2];
    PairAllSnoc([o1, o2], c1);
    assert [o1, o2] + [c1] == [o1, o2, c1];
    PairAllSnoc([o1, o2, c1], c2);
    assert [o1, o2, c1] + [c2] == [o1, o2, c1, c2];
    assert p2 == Pairing([o1, o2], []);
    assert p3 == Pairing([o1], [Quote(Open, o2.position, o2.mark), Quote(Close, c1.position, c1.mark)]);
  }

  /** Pairing one more candidate is one more step. */
  lemma PairAllSnoc(cands: seq<Candidate>, c: Candidate)
    ensures PairAll(cands + [c]) == PairStep(PairAll(cands), c)
  {
    assert (cands + [c])[..|cands|] == cands;
  }

  /** Inserting before every quote that stands later puts the quote first. */
  lemma InsertFirst(q: Quote, s: seq<Quote>)
    requires s == [] || q.position <= s[0].position
    ensures Insert(q, s) == [q] + s
  {
  }

  /** Inserting after a quote that stands earlier keeps that quote first. */
  lemma InsertAfter(q: Quote, s: seq<Quote>)
    requires s != [] && s[0].position < q.position
    ensures Insert(q, s) == [s[0]] + Insert(q, s[1..])
  {
  }

  /** An inner pair emitted before the outer one that encloses it sorts into nesting order. */
  lemma SortEnclosed(inner: Quote, innerEnd: Quote, outer: Quote, outerEnd: Quote)
    requires outer.position < inner.position < innerEnd.position < outerEnd.position
    ensures SortByPosition([inner, innerEnd, outer, outerEnd]) == [outer, inner, innerEnd, outerEnd]
  {
    var qs := [inner, innerEnd, outer, outerEnd];
    var tail3, tail2, tail1 := [innerEnd, outer, outerEnd], [outer, outerEnd], [outerEnd];
    assert qs[1..] == tail3 && tail3[1..] == tail2 && tail2[1..] == tail1 && tail1[1..] == [];
    InsertFirst(outerEnd, []);
    assert SortByPosition(tail1) == tail1;
    InsertFirst(outer, tail1);
    assert SortByPosition(tail2) == tail2;
    InsertAfter(innerEnd, tail2);
    InsertFirst(innerEnd, tail1);
    var s3 := [outer, innerEnd, outerEnd];
    assert SortByPosition(tail3) == s3;
    InsertAfter(inner, s3);
    assert s3[1..] == [innerEnd, outerEnd];
    InsertFirst(inner, [innerEnd, outerEnd]);
  }

  /** The quotes of `"x "x" x"`, sorted by position. */
  const NestedQuotes: seq<Quote> :=
    [Quote(Open, 0, '"'), Quote(Open, 3, '"'), Quote(Close, 5, '"'), Quote(Close, 8, '"')]

  /** Its candidates pair inner first, and sorting restores the nesting order. */
  lemma NestedSorted()
    ensures SortByPosition(PairAll(NestedCandidates).paired) == NestedQuotes
  {
    var cs := NestedCandidates;
    PairEnclosed(cs[0], cs[1], cs[2], cs[3]);
    SortEnclosed(NestedQuotes[1], NestedQuotes[2], NestedQuotes[0], NestedQuotes[3]);
  }

  /** With a non-empty text and some quote paired, the segments are the cursor walk. */
  lemma ParsedWalk(text: string, quotes: seq<Quote>)
    requires !PhpEmpty(text) && quotes != []
    ensures ParsedSegments(text, quotes) == Emit(text, PlacedOf(quotes), 0)
  {
  }

  /** The places of the nested example's quotes. */
  const NestedMarks: seq<Placed> := [Placed(0, Open), Placed(3, Open), Placed(5, Close), Placed(8, Close)]

  lemma NestedPlaced()
    ensures PlacedOf(NestedQuotes) == NestedMarks
  {
    var placed := PlacedOf(NestedQuotes);
    assert |placed| == 4;
    forall k | 0 <= k < 4
      ensures placed[k] == NestedMarks[k]
    {
    }
  }

  /** The walk from the inner opener on. */
  lemma NestedWalkTail(x: char)
    ensures Emit(NestedText(x), NestedMarks[2..], 4) == [TextSegment([x]), QuoteClose, TextSegment([' ', x]), QuoteClose]
  {
    var t, m := NestedText(x), NestedMarks;
    EmitUnfold(t, m[3..], 6);
    assert m[3..][1..] == [];
    assert Emit(t, [], 9) == [];
    assert Substr(t, 6, 2) == [' ', x];
    EmitUnfold(t, m[2..], 4);
    assert m[2..][1..] == m[3..];
    assert Substr(t, 4, 1) == [x];
  }

  /** The walk up to the inner opener. */
  lemma NestedWalkHead(x: char)
    ensures Emit(NestedText(x), NestedMarks, 0) ==
            [QuoteOpen, TextSegment([x, ' ']), QuoteOpen] + Emit(NestedText(x), NestedMarks[2..], 4)
  {
    var t, m := NestedText(x), NestedMarks;
    EmitUnfold(t, m, 0);
    EmitUnfold(t, m[1..], 1);
    assert m[1..][1..] == m[2..];
    assert Substr(t, 1, 2) == [x, ' '];
  }

  /** The cursor walk over the four marks of `"x "x" x"`. */
  lemma NestedWalk(x: char)
    ensures ParsedSegments(NestedText(x), NestedQuotes) ==
            [QuoteOpen, TextSegment([x, ' ']), QuoteOpen, TextSegment([x]), QuoteClose,
             TextSegment([' ', x]), QuoteClose]
  {
    ParsedWalk(NestedText(x), NestedQuotes);
    NestedPlaced();
    NestedWalkHead(x);
    NestedWalkTail(x);
  }

  /**
   * `"x "x" x"` yields Open, "x ", Open, "x", Close, " x", Close, as written: the shape of
   * `"outer "inner" outer"`.
   */
  lemma NestedAsWritten(x: char)
    requires IsLetter(x)
    ensures ParseAsWritten(NestedText(x)) ==
            [QuoteOpen, TextSegment([x, ' ']), QuoteOpen, TextSegment([x]), QuoteClose,
             TextSegment([' ', x]), QuoteClose]
  {
    NestedFound(x);
    NestedSorted();
    NestedWalk(x);
  }

  /** The corrected parser gives the same segments for `"x "x" x"`. */
  lemma Nested(x: char)
    requires IsLetter(x)
    ensures Parsed(NestedText(x)) ==
            [QuoteOpen, TextSegment([x, ' ']), QuoteOpen, TextSegment([x]), QuoteClose,
             TextSegment([' ', x]), QuoteClose]
  {
    NestedInOrder(x);
    NestedSorted();
    NestedWalk(x);
  }

  // ---------------------------------------------------------------------------
  // Candidates out of position order

  /** `x" "y`: a mark that only closes, then one that only opens (`a" "b` for instance). */
  function ReversedText(x: char, y: char): string
  {
    [x, '"', ' ', '"', y]
  }

  /** Each pattern's matches over `x" "y` are its matches at the two marks. */
  lemma ReversedMatches(x: char, y: char, r: Option<Role>)
    requires IsLetter(x) && IsLetter(y)
    ensures var t := ReversedText(x, y);
            MatchesFrom(t, r, 0) == MatchHere(t, r, 1) + MatchHere(t, r, 3)
  {
    var t := ReversedText(x, y);
    var h := PatternHits(t, r);
    VariantsAreNotLetters();
    forall q | 0 <= q < 5 && q != 1 && q != 3
      ensures h[q] == []
    {
      NoMatchHere(t, q);
    }
    GatherTwo(h, 1, 3);
  }

  /** The corrected candidates over `x" "y` are the candidates at the two marks. */
  lemma ReversedInOrderAtMarks(x: char, y: char)
    requires IsLetter(x) && IsLetter(y)
    ensures var t := ReversedText(x, y);
            InOrderFrom(t, 0) == MatchedAt(t, 1) + MatchedAt(t, 3)
  {
    var t := ReversedText(x, y);
    var h := MarkHits(t);
    VariantsAreNotLetters();
    forall q | 0 <= q < 5 && q != 1 && q != 3
      ensures h[q] == []
    {
      NoneMatchedAt(t, q);
    }
    GatherTwo(h, 1, 3);
  }

  /** The opening pattern finds the mark at 3 of `x" "y`, the closing one the mark at 1, the default none. */
  lemma ReversedByPattern(x: char, y: char)
    requires IsLetter(x) && IsLetter(y)
    ensures var t := ReversedText(x, y);
            MatchesToCandidates(t, Some(Open)) == [Candidate('"', 3, true, false)] &&
            MatchesToCandidates(t, Some(Close)) == [Candidate('"', 1, false, true)] &&
            MatchesToCandidates(t, None) == []
  {
    var t := ReversedText(x, y);
    CloserHere(t, 1);
    OpenerHere(t, 3);
    ReversedMatches(x, y, Some(Open));
    ReversedMatches(x, y, Some(Close));
    ReversedMatches(x, y, None);
  }

  /** As written, the opener at 3 comes before the closer at 1. */
  lemma ReversedFound(x: char, y: char)
    requires IsLetter(x) && IsLetter(y)
    ensures FindCandidates(ReversedText(x, y)) == [Candidate('"', 3, true, false), Candidate('"', 1, false, true)]
  {
    ReversedByPattern(x, y);
    assert [Candidate('"', 3, true, false)] + [Candidate('"', 1, false, true)] + [] ==
           [Candidate('"', 3, true, false), Candidate('"', 1, false, true)];
  }

  /** In position order, the closer at 1 comes first. */
  lemma ReversedInOrder(x: char, y: char)
    requires IsLetter(x) && IsLetter(y)
    ensures CandidatesInOrder(ReversedText(x, y)) == [Candidate('"', 1, false, true), Candidate('"', 3, true, false)]
  {
    var t := ReversedText(x, y);
    CloserHere(t, 1);
    OpenerHere(t, 3);
    ReversedInOrderAtMarks(x, y);
  }

  /** An opener followed by a closer makes one pair, whatever their positions. */
  lemma PairOpenerThenCloser(o: Candidate, c: Candidate)
    requires o.canOpen && !o.canClose && c.canClose
    ensures PairAll([o, c]).paired == [Quote(Open, o.position, o.mark), Quote(Close, c.position, c.mark)]
  {
    PairAllSnoc([], o);
    assert [] + [o] == [o];
    PairAllSnoc([o], c);
    assert [o] + [c] == [o, c];
  }

  /** A closer with no opener before it is dropped, and an opener left on the stack pairs with nothing. */
  lemma PairCloserThenOpener(c: Candidate, o: Candidate)
    requires !c.canOpen && o.canOpen && !o.canClose
    ensures PairAll([c, o]).paired == []
  {
    PairAllSnoc([], c);
    assert [] + [c] == [c];
    PairAllSnoc([c], o);
    assert [c] + [o] == [c, o];
  }

  /** The pair as written, sorted: the closer at 1 before the opener at 3. */
  const ReversedQuotes: seq<Quote> := [Quote(Close, 1, '"'), Quote(Open, 3, '"')]

  lemma ReversedSorted()
    ensures SortByPosition([Quote(Open, 3, '"'), Quote(Close, 1, '"')]) == ReversedQuotes
  {
    var qs := ReversedQuotes;
    assert [Quote(Open, 3, '"'), Quote(Close, 1, '"')][1..] == [qs[0]];
    InsertFirst(qs[0], []);
    InsertAfter(qs[1], [qs[0]]);
    InsertFirst(qs[1], []);
  }

  /** The cursor walk over a closer at 1 and an opener at 3. */
  lemma ReversedWalk(x: char, y: char)
    ensures ParsedSegments(ReversedText(x, y), ReversedQuotes) ==
            [TextSegment([x]), QuoteClose, TextSegment([' ']), QuoteOpen, TextSegment([y])]
  {
    var t := ReversedText(x, y);
    var m := [Placed(1, Close), Placed(3, Open)];
    ParsedWalk(t, ReversedQuotes);
    assert PlacedOf(ReversedQuotes) == m;
    assert m[1..][1..] == [];
    assert t[4..] == [y] && t[2..3] == [' '] && t[0..1] == [x];
    assert Emit(t, m[1..], 2) == [TextSegment([' ']), QuoteOpen, TextSegment([y])];
  }

  /** A quotation closed before any is opened is not well nested. */
  lemma CloseFirstNotNested(a: string, b: string, c: string)
    ensures !WellNested(QuoteRoles([TextSegment(a), QuoteClose, TextSegment(b), QuoteOpen, TextSegment(c)]))
  {
    var segs := [TextSegment(a), QuoteClose, TextSegment(b), QuoteOpen, TextSegment(c)];
    assert segs[1..][1..][1..][1..][1..] == [];
    assert QuoteRoles(segs[4..]) == [];
    assert QuoteRoles(segs[3..]) == [Open];
    assert QuoteRoles(segs[2..]) == [Open];
    assert QuoteRoles(segs[1..]) == [Close, Open];
    var roles := QuoteRoles(segs);
    assert roles == [Close, Open];
    assert roles[..1] == [Close];
  }

  /**
   * As written, the closer at 1 is paired with the opener at 3 that follows it, so the
   * segments close a quotation before opening it.
   */
  lemma AsWrittenClosesFirst(x: char, y: char)
    requires IsLetter(x) && IsLetter(y)
    ensures ParseAsWritten(ReversedText(x, y)) ==
            [TextSegment([x]), QuoteClose, TextSegment([' ']), QuoteOpen, TextSegment([y])]
    ensures !WellNested(QuoteRoles(ParseAsWritten(ReversedText(x, y))))
  {
    ReversedFound(x, y);
    PairOpenerThenCloser(Candidate('"', 3, true, false), Candidate('"', 1, false, true));
    ReversedSorted();
    ReversedWalk(x, y);
    CloseFirstNotNested([x], [' '], [y]);
  }

  /** In position order the closer at 1 finds no opener, and the opener at 3 none to close it. */
  lemma CorrectedKeepsText(x: char, y: char)
    requires IsLetter(x) && IsLetter(y)
    ensures Parsed(ReversedText(x, y)) == [TextSegment(ReversedText(x, y))]
  {
    ReversedInOrder(x, y);
    PairCloserThenOpener(Candidate('"', 1, false, true), Candidate('"', 3, true, false));
  }
}
