/**
 * The segment wrapper: resets every curly or ASCII mark that looks like a quotation mark
 * to `"`, finds the `"` marks, pairs them on one stack, clears the unpaired openers, and
 * cuts the text into text and quote segments.
 */
module QuoteNormalizer {
  import opened Wrappers
  import opened Text
  import opened QuoteChars
  import opened QuoteFinder
  import opened QuotePairing
  import opened Segments

  /** The only mark this wrapper's finder reports. */
  const DoubleMark: set<char> := {'"'}

  /** `resetQuotes`: every variant, single or double, that looks like a quotation mark becomes `"`. */
  function ResetQuotes(text: string): (r: string)
    ensures |r| == |text|
  {
    ResetToAscii(text, CurlyVariants, '"')
  }

  /** Resetting an already reset text changes nothing. */
  lemma ResetQuotesIdempotent(text: string)
    ensures ResetQuotes(ResetQuotes(text)) == ResetQuotes(text)
  {
    VariantsAreNotLetters();
    ResetToAsciiIdempotent(text, CurlyVariants, '"');
  }

  /** The marks that kept a role, with their positions, in order (`array_filter`). */
  function Active(quotes: seq<QuoteMatch>, roles: seq<Option<Role>>): seq<Placed>
    requires |roles| == |quotes|
  {
    if quotes == [] then []
    else
      var n := |quotes| - 1;
      Active(quotes[..n], roles[..n]) +
      LastPlaced(quotes[n].position, roles[n])
  }

  /**
   * The segments for the marks that kept a role: none for an empty text and one text
   * segment for any other text when no mark kept a role, the cursor walk otherwise.
   */
  function SegmentsOf(text: string, quotes: seq<QuoteMatch>, roles: seq<Option<Role>>): seq<Segment>
    requires |roles| == |quotes|
  {
    var active := Active(quotes, roles);
    if active == [] then (if text == "" then [] else [TextSegment(text)])
    else Emit(text, active, 0)
  }

  /** The segments `wrapQuotes` returns for a text. */
  function Wrapped(text: string): seq<Segment>
  {
    var t := ResetQuotes(text);
    var quotes := Scan(t, DoubleMark, 0);
    SegmentsOf(t, quotes, StackRoles(quotes, false))
  }

  // ---------------------------------------------------------------------------
  // The imperative operations

  /** `array_filter` over the marks: those with a role, in order. */
  method FilterActive(quotes: seq<QuoteMatch>, roles: seq<Option<Role>>) returns (active: seq<Placed>)
    requires |roles| == |quotes|
    ensures active == Active(quotes, roles)
  {
    active := [];
    var i := 0;
    while i < |quotes|
      invariant 0 <= i <= |quotes|
      invariant active == Active(quotes[..i], roles[..i])
    {
      assert quotes[..i + 1][..i] == quotes[..i] && roles[..i + 1][..i] == roles[..i];
      if roles[i].Some? {
        active := active + [Placed(quotes[i].position, roles[i].value)];
      }
      i := i + 1;
    }
    assert quotes[..i] == quotes && roles[..i] == roles;
  }

  /** `buildSegments`: filter the marks with a role, then walk a cursor over them. */
  method BuildSegments(text: string, quotes: seq<QuoteMatch>, roles: seq<Option<Role>>)
    returns (segments: seq<Segment>)
    requires |roles| == |quotes|
    ensures segments == SegmentsOf(text, quotes, roles)
  {
    var active := FilterActive(quotes, roles);
    if active == [] {
      segments := if text == "" then [] else [TextSegment(text)];
      return;
    }
    segments := WalkCursor(text, active);
  }

  /** `wrapQuotes`: reset, find, pair on one stack, then build the segments. */
  method WrapQuotes(text: string) returns (segments: seq<Segment>)
    ensures segments == Wrapped(text)
  {
    var t := ResetToAscii(text, CurlyVariants, '"');
    var quotes := Find(t, DoubleMark);
    var roles := AssignRolesOneStack(quotes);
    segments := BuildSegments(t, quotes, roles);
  }

  // ---------------------------------------------------------------------------
  // What the segments promise

  /** Marks in ascending order inside the text keep that order once filtered. */
  lemma {:induction false} ActiveInOrder(text: string, quotes: seq<QuoteMatch>, roles: seq<Option<Role>>, c: char)
    requires |roles| == |quotes| && PositionsIncreasing(quotes)
    requires forall k :: 0 <= k < |quotes| ==> quotes[k].position < |text| && text[quotes[k].position] == c
    ensures InOrder(Active(quotes, roles), 0, |text|)
    ensures forall j :: 0 <= j < |Active(quotes, roles)| ==> text[Active(quotes, roles)[j].position] == c
    ensures quotes != [] ==>
              forall j :: 0 <= j < |Active(quotes, roles)| ==> Active(quotes, roles)[j].position <= quotes[|quotes| - 1].position
  {
    if quotes != [] {
      var n := |quotes| - 1;
      ActiveInOrder(text, quotes[..n], roles[..n], c);
      ActiveInOrderSnoc(text, quotes, roles, c);
    }
  }

  /** The order from all but the last mark extends to the last one. */
  lemma ActiveInOrderSnoc(text: string, quotes: seq<QuoteMatch>, roles: seq<Option<Role>>, c: char)
    requires |roles| == |quotes| && quotes != [] && PositionsIncreasing(quotes)
    requires forall k :: 0 <= k < |quotes| ==> quotes[k].position < |text| && text[quotes[k].position] == c
    requires var n := |quotes| - 1;
             var prev := Active(quotes[..n], roles[..n]);
             InOrder(prev, 0, |text|) && (forall j :: 0 <= j < |prev| ==> text[prev[j].position] == c) &&
             (n > 0 ==> forall j :: 0 <= j < |prev| ==> prev[j].position <= quotes[..n][n - 1].position)
    ensures InOrder(Active(quotes, roles), 0, |text|)
    ensures forall j :: 0 <= j < |Active(quotes, roles)| ==> text[Active(quotes, roles)[j].position] == c
    ensures forall j :: 0 <= j < |Active(quotes, roles)| ==> Active(quotes, roles)[j].position <= quotes[|quotes| - 1].position
  {
    var n := |quotes| - 1;
    var prev := Active(quotes[..n], roles[..n]);
    var p := quotes[n].position;
    if n > 0 {
      assert quotes[..n][n - 1] == quotes[n - 1];
      assert quotes[n - 1].position < p;
    }
    assert Active(quotes, roles) == prev + LastPlaced(p, roles[n]);
    AppendPlaced(prev, LastPlaced(p, roles[n]), p, text, c);
  }

  /** Places before `p` at character `c`, then at most one place at `p` where `c` stands, stay in order. */
  lemma AppendPlaced(prev: seq<Placed>, last: seq<Placed>, p: nat, text: string, c: char)
    requires InOrder(prev, 0, |text|)
    requires forall j :: 0 <= j < |prev| ==> prev[j].position < p && text[prev[j].position] == c
    requires p < |text| && text[p] == c && |last| <= 1 && forall j :: 0 <= j < |last| ==> last[j].position == p
    ensures InOrder(prev + last, 0, |text|)
    ensures forall j :: 0 <= j < |prev + last| ==> text[(prev + last)[j].position] == c && (prev + last)[j].position <= p
  {
    var all := prev + last;
    forall j | 0 <= j < |all|
      ensures all[j] == if j < |prev| then prev[j] else last[j - |prev|]
    {
    }
  }

  /** The filtered marks with role `r` are exactly as many as the marks with role `r`. */
  lemma {:induction false} ActiveRoles(quotes: seq<QuoteMatch>, roles: seq<Option<Role>>, r: Role)
    requires |roles| == |quotes|
    ensures multiset(RolesOf(Active(quotes, roles)))[r] == |WithRole(roles, r)|
  {
    if quotes == [] {
      assert WithRole(roles, r) == {};
    } else {
      var n := |quotes| - 1;
      ActiveRoles(quotes[..n], roles[..n], r);
      ActiveRolesSnoc(quotes, roles, r);
    }
  }

  /** The count for all but the last mark extends to the last one. */
  lemma ActiveRolesSnoc(quotes: seq<QuoteMatch>, roles: seq<Option<Role>>, r: Role)
    requires |roles| == |quotes| && quotes != []
    requires multiset(RolesOf(Active(quotes[..|quotes| - 1], roles[..|quotes| - 1])))[r] ==
             |WithRole(roles[..|quotes| - 1], r)|
    ensures multiset(RolesOf(Active(quotes, roles)))[r] == |WithRole(roles, r)|
  {
    var n := |quotes| - 1;
    var prev := Active(quotes[..n], roles[..n]);
    var last := LastPlaced(quotes[n].position, roles[n]);
    assert Active(quotes, roles) == prev + last;
    RolesOfAppend(prev, last);
    LastPlacedCount(quotes[n].position, roles[n], r);
    WithRoleSnoc(roles, r);
    CountSnoc(RolesOf(prev + last), RolesOf(prev), RolesOf(last), r);
  }

  /** The place a mark adds to the filtered marks: none unless it has a role. */
  function LastPlaced(position: nat, role: Option<Role>): seq<Placed>
  {
    if role.Some? then [Placed(position, role.value)] else []
  }

  lemma LastPlacedCount(position: nat, role: Option<Role>, r: Role)
    ensures multiset(RolesOf(LastPlaced(position, role)))[r] == if role == Some(r) then 1 else 0
  {
    if role.Some? {
      assert RolesOf(LastPlaced(position, role)) == [role.value];
    } else {
      assert RolesOf(LastPlaced(position, role)) == [];
    }
  }

  lemma CountSnoc<T>(all: seq<T>, prev: seq<T>, last: seq<T>, x: T)
    requires all == prev + last
    ensures multiset(all)[x] == multiset(prev)[x] + multiset(last)[x]
  {
  }

  /** The marks with role `r` are those before the last one, and the last one if it has role `r`. */
  lemma WithRoleSnoc(roles: seq<Option<Role>>, r: Role)
    requires roles != []
    ensures |WithRole(roles, r)| ==
            |WithRole(roles[..|roles| - 1], r)| + (if roles[|roles| - 1] == Some(r) then 1 else 0)
  {
    var n := |roles| - 1;
    var rest := WithRole(roles[..n], r);
    if roles[n] == Some(r) {
      assert WithRole(roles, r) == rest + {n};
    } else {
      assert WithRole(roles, r) == rest;
    }
  }

  /** The special case for no marks with a role agrees with the cursor walk over no marks. */
  lemma NoActiveIsPlainWalk(text: string, quotes: seq<QuoteMatch>, roles: seq<Option<Role>>)
    requires |roles| == |quotes| && Active(quotes, roles) == []
    ensures SegmentsOf(text, quotes, roles) == Emit(text, [], 0)
    ensures text == "" <==> SegmentsOf(text, quotes, roles) == []
  {
  }

  /** The found `"` marks are in order, inside the reset text, and each is a `"`. */
  lemma WrappedMarks(text: string)
    ensures var t := ResetQuotes(text);
            var quotes := Scan(t, DoubleMark, 0);
            var active := Active(quotes, StackRoles(quotes, false));
            InOrder(active, 0, |t|) && CharsAt(t, active) == seq(|active|, _ => '"')
  {
    var t := ResetQuotes(text);
    var quotes := Scan(t, DoubleMark, 0);
    var roles := StackRoles(quotes, false);
    FoundMatches(t, DoubleMark);
    ActiveInOrder(t, quotes, roles, '"');
  }

  /** No text segment `wrapQuotes` returns is empty. */
  lemma WrappedNoEmptyText(text: string)
    ensures NoEmptyText(Wrapped(text))
  {
    var t := ResetQuotes(text);
    var quotes := Scan(t, DoubleMark, 0);
    WrappedMarks(text);
    EmitNoEmptyText(t, Active(quotes, StackRoles(quotes, false)), 0);
  }

  /**
   * The segments rebuild the reset text: the text segments joined, with `"` in place of
   * each quote segment.
   */
  lemma WrappedRoundTrip(text: string)
    ensures Joined(Wrapped(text), seq(|QuoteRoles(Wrapped(text))|, _ => '"')) == ResetQuotes(text)
  {
    var t := ResetQuotes(text);
    var quotes := Scan(t, DoubleMark, 0);
    var active := Active(quotes, StackRoles(quotes, false));
    WrappedMarks(text);
    if active != [] {
      EmitRoundTrip(t, active, 0);
      EmitRoles(t, active, 0);
    } else if t != "" {
      assert Joined([TextSegment(t)], []) == t + Joined([], []);
    }
  }

  /** No prefix of the roles closes more quotations than it opened. */
  ghost predicate PrefixesNest(xs: seq<Role>)
  {
    forall p :: 0 <= p <= |xs| ==> multiset(xs[..p])[Close] <= multiset(xs[..p])[Open]
  }

  /**
   * No prefix of the filtered roles holds more closers than openers when no prefix of
   * the marks does.
   */
  lemma {:induction false} ActiveNests(quotes: seq<QuoteMatch>, roles: seq<Option<Role>>)
    requires |roles| == |quotes|
    requires forall j :: 0 <= j <= |roles| ==> |WithRole(roles[..j], Close)| <= |WithRole(roles[..j], Open)|
    ensures PrefixesNest(RolesOf(Active(quotes, roles)))
  {
    var xs := RolesOf(Active(quotes, roles));
    if quotes != [] {
      var n := |quotes| - 1;
      var prev := Active(quotes[..n], roles[..n]);
      var last := LastPlaced(quotes[n].position, roles[n]);
      forall j | 0 <= j <= n
        ensures |WithRole(roles[..n][..j], Close)| <= |WithRole(roles[..n][..j], Open)|
      {
        assert roles[..n][..j] == roles[..j];
      }
      ActiveNests(quotes[..n], roles[..n]);
      var ys := RolesOf(prev);
      assert Active(quotes, roles) == prev + last;
      RolesOfAppend(prev, last);
      assert xs == ys + RolesOf(last);
      assert |last| <= 1;
      ActiveRoles(quotes, roles, Open);
      ActiveRoles(quotes, roles, Close);
      assert roles[..|roles|] == roles;
      assert multiset(xs)[Close] <= multiset(xs)[Open];
      forall p | 0 <= p <= |xs|
        ensures multiset(xs[..p])[Close] <= multiset(xs[..p])[Open]
      {
        if p <= |ys| {
          assert xs[..p] == ys[..p];
        } else {
          assert xs[..p] == xs;
        }
      }
    } else {
      assert xs == [];
    }
  }

  /**
   * The quote segments are well nested: as many open as close, and no prefix closes more
   * quotations than it opened.
   */
  lemma WrappedBalanced(text: string)
    ensures multiset(QuoteRoles(Wrapped(text)))[Open] == multiset(QuoteRoles(Wrapped(text)))[Close]
    ensures WellNested(QuoteRoles(Wrapped(text)))
  {
    var t := ResetQuotes(text);
    var quotes := Scan(t, DoubleMark, 0);
    var roles := StackRoles(quotes, false);
    var active := Active(quotes, roles);
    TotalBalanced(quotes, false);
    ActiveRoles(quotes, roles, Open);
    ActiveRoles(quotes, roles, Close);
    forall j | 0 <= j <= |roles|
      ensures |WithRole(roles[..j], Close)| <= |WithRole(roles[..j], Open)|
    {
      PrefixBalanced(quotes, false, j);
    }
    ActiveNests(quotes, roles);
    EmitRoles(t, active, 0);
    if active == [] {
      assert QuoteRoles([TextSegment(t)]) == [];
    }
  }

  /** The `"` marks of the nested example. */
  const NestedMatches: seq<QuoteMatch> :=
    [QuoteMatch(0, 1, Double, true, false), QuoteMatch(7, 1, Double, true, false),
     QuoteMatch(13, 1, Double, false, true), QuoteMatch(20, 1, Double, false, true)]

  /** Their roles on the single stack: all four are paired. */
  const NestedRoles: seq<Option<Role>> := [Some(Open), Some(Open), Some(Close), Some(Close)]

  lemma NestedReset()
    ensures ResetQuotes(NestedDoubles) == NestedDoubles
  {
    var t := NestedDoubles;
    forall i | 0 <= i < |t| ensures t[i] !in CurlyVariants || t[i] == '"' {
    }
    ResetKeeps(t, CurlyVariants, '"');
  }

  lemma NestedScanTail()
    ensures Scan(NestedDoubles, DoubleMark, 13) == NestedMatches[2..]
  {
    var t, m, qs := NestedDoubles, DoubleMark, NestedMatches;
    ScanAcross(t, m, 20, 21);
    assert Scan(t, m, 21) == [];
    ScanAcross(t, m, 13, 20);
    assert MatchAt(t, 13) == qs[2] && MatchAt(t, 20) == qs[3];
  }

  lemma NestedScan()
    ensures Scan(NestedDoubles, DoubleMark, 0) == NestedMatches
  {
    var t, m, qs := NestedDoubles, DoubleMark, NestedMatches;
    NestedScanTail();
    ScanAcross(t, m, 7, 13);
    ScanAcross(t, m, 0, 7);
    assert MatchAt(t, 0) == qs[0] && MatchAt(t, 7) == qs[1];
  }



  lemma NestedStack()
    ensures StackRoles(NestedMatches, false) == NestedRoles
  {
    var qs, roles := NestedMatches, NestedRoles;
    assert qs[..3][..2] == qs[..2] && qs[..2][..1] == qs[..1] && qs[..1][..0] == [];
    assert Walk(qs[..1], false) == Walked(roles[..1], Stacks([], [0]));
    assert Walk(qs[..2], false) == Walked(roles[..2], Stacks([], [0, 1]));
    assert Walk(qs[..3], false) == Walked(roles[..3], Stacks([], [0]));
    assert qs[..3] == qs[..|qs| - 1];
    assert Walk(qs, false) == Walked(roles, Stacks([], []));
  }

  lemma NestedActive()
    ensures Active(NestedMatches, NestedRoles) == NestedPlaced
  {
    var qs, roles := NestedMatches, NestedRoles;
    assert qs[..3][..2] == qs[..2] && qs[..2][..1] == qs[..1] && qs[..1][..0] == [];
    assert roles[..3][..2] == roles[..2] && roles[..2][..1] == roles[..1] && roles[..1][..0] == [];
    assert Active(qs[..1], roles[..1]) == NestedPlaced[..1];
    assert Active(qs[..2], roles[..2]) == NestedPlaced[..2];
    assert Active(qs[..3], roles[..3]) == NestedPlaced[..3];
  }

  /** The nested example: the inner pair closes before the outer one. */
  lemma Nested()
    ensures Wrapped(NestedDoubles) == NestedSegments
  {
    NestedReset();
    NestedScan();
    NestedStack();
    NestedActive();
    NestedEmit();
  }
}
