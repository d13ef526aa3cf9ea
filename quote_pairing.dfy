/**
 * Role assignment: the stack walk that pairs opening and closing quotation marks.
 *
 * Three variants share one walk. The tag wrapper keeps a stack per kind and clears the
 * openers left on a stack; the normaliser keeps one stack for every mark and clears the
 * same way; the glyph replacer keeps a counter per kind and clears nothing.
 */
module QuotePairing {
  import opened Wrappers
  import opened QuoteChars
  import opened QuoteFinder

  /** The indices of the openers still waiting for a closer, one stack per kind. */
  datatype Stacks = Stacks(single: seq<nat>, double: seq<nat>)

  /** The roles given so far and the stacks after them. */
  datatype Walked = Walked(roles: seq<Option<Role>>, stacks: Stacks)

  /** The stack a mark uses: that of its kind, or, with one shared stack, the double one. */
  function StackKind(m: QuoteMatch, perKind: bool): Kind
  {
    if perKind then m.kind else Double
  }

  function StackOf(st: Stacks, k: Kind): seq<nat>
  {
    if k == Single then st.single else st.double
  }

  function WithStack(st: Stacks, k: Kind, s: seq<nat>): Stacks
  {
    if k == Single then st.(single := s) else st.(double := s)
  }

  /**
   * One step for the mark `m` at index `i`: it closes when it may close and its stack
   * holds an opener (popping it), else it opens when it may open (pushing it), else it
   * gets no role.
   */
  function Step(w: Walked, m: QuoteMatch, i: nat, perKind: bool): Walked
  {
    var k := StackKind(m, perKind);
    var s := StackOf(w.stacks, k);
    if m.canClose && |s| > 0 then Walked(w.roles + [Some(Close)], WithStack(w.stacks, k, s[..|s| - 1]))
    else if m.canOpen then Walked(w.roles + [Some(Open)], WithStack(w.stacks, k, s + [i]))
    else Walked(w.roles + [None], w.stacks)
  }

  /** The walk over all marks, left to right, before any opener is cleared. */
  function Walk(quotes: seq<QuoteMatch>, perKind: bool): (w: Walked)
    ensures |w.roles| == |quotes|
  {
    if quotes == [] then Walked([], Stacks([], []))
    else
      var n := |quotes| - 1;
      Step(Walk(quotes[..n], perKind), quotes[n], n, perKind)
  }

  /** The walked roles with every opener still on a stack set back to no role. */
  function Cleared(w: Walked): seq<Option<Role>>
  {
    seq(|w.roles|, i requires 0 <= i < |w.roles| =>
      if i in w.stacks.single || i in w.stacks.double then None else w.roles[i])
  }

  /** The roles of the stack variants: walk, then clear the unpaired openers. */
  function StackRoles(quotes: seq<QuoteMatch>, perKind: bool): seq<Option<Role>>
  {
    Cleared(Walk(quotes, perKind))
  }

  /** The counter variant's state: the roles and one counter per kind. */
  datatype Counted = Counted(roles: seq<Option<Role>>, single: int, double: int)

  /** The counter walk: a close decrements its kind's counter, an open increments it. */
  function CountWalk(quotes: seq<QuoteMatch>): (c: Counted)
    ensures |c.roles| == |quotes|
  {
    if quotes == [] then Counted([], 0, 0)
    else
      var c := CountWalk(quotes[..|quotes| - 1]);
      var m := quotes[|quotes| - 1];
      var depth := if m.kind == Single then c.single else c.double;
      if m.canClose && depth > 0 then
        if m.kind == Single then Counted(c.roles + [Some(Close)], c.single - 1, c.double)
        else Counted(c.roles + [Some(Close)], c.single, c.double - 1)
      else if m.canOpen then
        if m.kind == Single then Counted(c.roles + [Some(Open)], c.single + 1, c.double)
        else Counted(c.roles + [Some(Open)], c.single, c.double + 1)
      else Counted(c.roles + [None], c.single, c.double)
  }

  // ---------------------------------------------------------------------------
  // The imperative role assignment of each variant

  /** Per-kind stacks, then the unpaired openers of both stacks lose their role. */
  method AssignRolesPerKind(quotes: seq<QuoteMatch>) returns (roles: seq<Option<Role>>)
    ensures roles == StackRoles(quotes, true)
  {
    roles := [];
    var singleStack: seq<nat> := [];
    var doubleStack: seq<nat> := [];
    var i := 0;
    while i < |quotes|
      invariant 0 <= i <= |quotes|
      invariant Walk(quotes[..i], true) == Walked(roles, Stacks(singleStack, doubleStack))
    {
      var m := quotes[i];
      assert quotes[..i + 1][..i] == quotes[..i];
      var isSingle := m.kind == Single;
      var stack := if isSingle then singleStack else doubleStack;
      if m.canClose && |stack| > 0 {
        roles := roles + [Some(Close)];
        if isSingle {
          singleStack := singleStack[..|singleStack| - 1];
        } else {
          doubleStack := doubleStack[..|doubleStack| - 1];
        }
      } else if m.canOpen {
        roles := roles + [Some(Open)];
        if isSingle {
          singleStack := singleStack + [i];
        } else {
          doubleStack := doubleStack + [i];
        }
      } else {
        roles := roles + [None];
      }
      i := i + 1;
    }
    assert quotes[..i] == quotes;
    roles := ClearUnpaired(roles, singleStack, doubleStack);
  }

  /** A single shared stack, then the unpaired openers lose their role. */
  method AssignRolesOneStack(quotes: seq<QuoteMatch>) returns (roles: seq<Option<Role>>)
    ensures roles == StackRoles(quotes, false)
  {
    roles := [];
    var stack: seq<nat> := [];
    var i := 0;
    while i < |quotes|
      invariant 0 <= i <= |quotes|
      invariant Walk(quotes[..i], false) == Walked(roles, Stacks([], stack))
    {
      var m := quotes[i];
      assert quotes[..i + 1][..i] == quotes[..i];
      if m.canClose && |stack| > 0 {
        roles := roles + [Some(Close)];
        stack := stack[..|stack| - 1];
      } else if m.canOpen {
        roles := roles + [Some(Open)];
        stack := stack + [i];
      } else {
        roles := roles + [None];
      }
      i := i + 1;
    }
    assert quotes[..i] == quotes;
    roles := ClearUnpaired(roles, [], stack);
  }

  /** Per-kind counters; nothing is cleared. */
  method AssignRolesCounters(quotes: seq<QuoteMatch>) returns (roles: seq<Option<Role>>)
    ensures roles == CountWalk(quotes).roles
  {
    roles := [];
    var singleStack := 0;
    var doubleStack := 0;
    var i := 0;
    while i < |quotes|
      invariant 0 <= i <= |quotes|
      invariant CountWalk(quotes[..i]) == Counted(roles, singleStack, doubleStack)
    {
      var m := quotes[i];
      assert quotes[..i + 1][..i] == quotes[..i];
      var isSingle := m.kind == Single;
      var stack := if isSingle then singleStack else doubleStack;
      if m.canClose && stack > 0 {
        roles := roles + [Some(Close)];
        if isSingle {
          singleStack := singleStack - 1;
        } else {
          doubleStack := doubleStack - 1;
        }
      } else if m.canOpen {
        roles := roles + [Some(Open)];
        if isSingle {
          singleStack := singleStack + 1;
        } else {
          doubleStack := doubleStack + 1;
        }
      } else {
        roles := roles + [None];
      }
      i := i + 1;
    }
    assert quotes[..i] == quotes;
  }

  /** The clearing loops: every index on either stack loses its role. */
  method ClearUnpaired(walked: seq<Option<Role>>, single: seq<nat>, double: seq<nat>) returns (roles: seq<Option<Role>>)
    ensures roles == Cleared(Walked(walked, Stacks(single, double)))
  {
    roles := walked;
    var j := 0;
    while j < |single|
      invariant 0 <= j <= |single|
      invariant |roles| == |walked|
      invariant forall x :: 0 <= x < |walked| ==> roles[x] == if x in single[..j] then None else walked[x]
    {
      if single[j] < |roles| {
        roles := roles[single[j] := None];
      }
      j := j + 1;
    }
    j := 0;
    while j < |double|
      invariant 0 <= j <= |double|
      invariant |roles| == |walked|
      invariant forall x :: 0 <= x < |walked| ==>
                  roles[x] == if x in single || x in double[..j] then None else walked[x]
    {
      if double[j] < |roles| {
        roles := roles[double[j] := None];
      }
      j := j + 1;
    }
  }

  // ---------------------------------------------------------------------------
  // Shape of the walk

  /** The elements of a stack, as a set. */
  ghost function Elems(s: seq<nat>): set<nat>
  {
    set x | x in s
  }

  ghost predicate Increasing(s: seq<nat>)
  {
    forall a, b :: 0 <= a < b < |s| ==> s[a] < s[b]
  }

  /** A stack of strictly increasing indices, each an opener of the stack's kind. */
  ghost predicate StackWell(s: seq<nat>, roles: seq<Option<Role>>, quotes: seq<QuoteMatch>, perKind: bool, k: Kind)
  {
    Increasing(s) &&
    forall a :: 0 <= a < |s| ==>
      s[a] < |roles| && s[a] < |quotes| && roles[s[a]] == Some(Open) && StackKind(quotes[s[a]], perKind) == k
  }

  ghost predicate WellStacked(w: Walked, quotes: seq<QuoteMatch>, perKind: bool)
  {
    |w.roles| == |quotes| &&
    (!perKind ==> w.stacks.single == []) &&
    StackWell(w.stacks.single, w.roles, quotes, perKind, Single) &&
    StackWell(w.stacks.double, w.roles, quotes, perKind, Double)
  }

  lemma StackWellExtend(s: seq<nat>, roles: seq<Option<Role>>, quotes: seq<QuoteMatch>, perKind: bool, k: Kind,
                        x: Option<Role>, m: QuoteMatch)
    requires StackWell(s, roles, quotes, perKind, k) && |roles| == |quotes|
    ensures StackWell(s, roles + [x], quotes + [m], perKind, k)
  {
    forall a | 0 <= a < |s|
      ensures (roles + [x])[s[a]] == roles[s[a]] && (quotes + [m])[s[a]] == quotes[s[a]]
    {
    }
  }

  lemma StackWellPop(s: seq<nat>, roles: seq<Option<Role>>, quotes: seq<QuoteMatch>, perKind: bool, k: Kind)
    requires StackWell(s, roles, quotes, perKind, k) && |s| > 0
    ensures StackWell(s[..|s| - 1], roles, quotes, perKind, k)
  {
  }

  lemma StackWellPush(s: seq<nat>, roles: seq<Option<Role>>, quotes: seq<QuoteMatch>, perKind: bool, k: Kind)
    requires StackWell(s, roles, quotes, perKind, k) && |roles| == |quotes| > 0
    requires roles[|roles| - 1] == Some(Open) && StackKind(quotes[|quotes| - 1], perKind) == k
    requires forall a :: 0 <= a < |s| ==> s[a] < |quotes| - 1
    ensures StackWell(s + [|quotes| - 1], roles, quotes, perKind, k)
  {
  }

  /** One step keeps the stacks well formed. */
  lemma StepWellStacked(w: Walked, prefix: seq<QuoteMatch>, m: QuoteMatch, perKind: bool)
    requires WellStacked(w, prefix, perKind)
    ensures WellStacked(Step(w, m, |prefix|, perKind), prefix + [m], perKind)
  {
    var n := |prefix|;
    var k := StackKind(m, perKind);
    var s := StackOf(w.stacks, k);
    var w1 := Step(w, m, n, perKind);
    var quotes := prefix + [m];
    StackWellExtend(w.stacks.single, w.roles, prefix, perKind, Single, w1.roles[n], m);
    StackWellExtend(w.stacks.double, w.roles, prefix, perKind, Double, w1.roles[n], m);
    assert w1.roles == w.roles + [w1.roles[n]];
    if m.canClose && |s| > 0 {
      StackWellPop(s, w1.roles, quotes, perKind, k);
    } else if m.canOpen {
      StackWellPush(s, w1.roles, quotes, perKind, k);
    }
  }

  /** The walk gives one role per mark, and its stacks hold earlier openers of their own kind, in order. */
  lemma {:induction false} WalkWellStacked(quotes: seq<QuoteMatch>, perKind: bool)
    ensures WellStacked(Walk(quotes, perKind), quotes, perKind)
  {
    if quotes != [] {
      WalkWellStacked(quotes[..|quotes| - 1], perKind);
      WellStackedSnoc(quotes, perKind);
    }
  }

  /** Well-formed stacks after all but the last mark stay well formed after the last one. */
  lemma WellStackedSnoc(quotes: seq<QuoteMatch>, perKind: bool)
    requires quotes != []
    requires WellStacked(Walk(quotes[..|quotes| - 1], perKind), quotes[..|quotes| - 1], perKind)
    ensures WellStacked(Walk(quotes, perKind), quotes, perKind)
  {
    var n := |quotes| - 1;
    StepWellStacked(Walk(quotes[..n], perKind), quotes[..n], quotes[n], perKind);
    SnocWhole(quotes);
  }

  lemma SnocWhole<T>(s: seq<T>)
    requires s != []
    ensures s[..|s| - 1] + [s[|s| - 1]] == s
  {
  }

  /** Roles once given are never revised by later marks: the walk of a prefix is a prefix of the walk. */
  lemma {:induction false} WalkPrefix(quotes: seq<QuoteMatch>, perKind: bool, j: nat)
    requires j <= |quotes|
    ensures Walk(quotes[..j], perKind).roles == Walk(quotes, perKind).roles[..j]
  {
    if j < |quotes| {
      var n := |quotes| - 1;
      WalkPrefix(quotes[..n], perKind, j);
      assert quotes[..n][..j] == quotes[..j];
    } else {
      assert quotes[..j] == quotes;
    }
  }

  /**
   * The role of mark `i` before clearing, decided when the walk reaches it: close when it
   * may close and its stack holds an opener, else open when it may open, else none.
   */
  lemma RoleAt(quotes: seq<QuoteMatch>, perKind: bool, i: nat)
    requires i < |quotes|
    ensures var s := StackOf(Walk(quotes[..i], perKind).stacks, StackKind(quotes[i], perKind));
            Walk(quotes, perKind).roles[i] ==
              if quotes[i].canClose && |s| > 0 then Some(Close)
              else if quotes[i].canOpen then Some(Open)
              else None
  {
    WalkPrefix(quotes, perKind, i + 1);
    assert quotes[..i + 1][..i] == quotes[..i];
  }

  // ---------------------------------------------------------------------------
  // Role rules

  /** A mark that is not an opener is on no stack. */
  lemma NotOnStack(w: Walked, quotes: seq<QuoteMatch>, perKind: bool, i: nat)
    requires WellStacked(w, quotes, perKind) && i < |w.roles|
    requires w.roles[i] != Some(Open)
    ensures i !in w.stacks.single && i !in w.stacks.double
  {
  }

  /** An opener left on a stack at the end has no role after clearing; every other role survives. */
  lemma UnpairedOpenersCleared(quotes: seq<QuoteMatch>, perKind: bool, i: nat)
    requires i < |quotes|
    ensures var w := Walk(quotes, perKind);
            if i in w.stacks.single || i in w.stacks.double then
              w.roles[i] == Some(Open) && StackRoles(quotes, perKind)[i] == None
            else StackRoles(quotes, perKind)[i] == w.roles[i]
  {
    WalkWellStacked(quotes, perKind);
  }

  /** A mark preceded and followed by a letter (an apostrophe) gets no role from either stack variant. */
  lemma ApostropheHasNoRole(quotes: seq<QuoteMatch>, i: nat)
    requires i < |quotes| && !quotes[i].canOpen && !quotes[i].canClose
    ensures StackRoles(quotes, true)[i] == None
    ensures StackRoles(quotes, false)[i] == None
  {
    RoleAt(quotes, true, i);
    RoleAt(quotes, false, i);
    WalkWellStacked(quotes, true);
    WalkWellStacked(quotes, false);
    NotOnStack(Walk(quotes, true), quotes, true, i);
    NotOnStack(Walk(quotes, false), quotes, false, i);
  }

  /** Nor from the counter variant. */
  lemma ApostropheHasNoCountedRole(quotes: seq<QuoteMatch>, i: nat)
    requires i < |quotes| && !quotes[i].canOpen && !quotes[i].canClose
    ensures CountWalk(quotes).roles[i] == None
  {
    RoleAt(quotes, true, i);
    CountersAreStackDepths(quotes);
  }

  /** A mark that may close, while an opener of its stack waits, closes and keeps that role. */
  lemma CloseBeforeOpen(quotes: seq<QuoteMatch>, perKind: bool, i: nat)
    requires i < |quotes| && quotes[i].canClose
    requires |StackOf(Walk(quotes[..i], perKind).stacks, StackKind(quotes[i], perKind))| > 0
    ensures StackRoles(quotes, perKind)[i] == Some(Close)
  {
    RoleAt(quotes, perKind, i);
    WalkWellStacked(quotes, perKind);
    NotOnStack(Walk(quotes, perKind), quotes, perKind, i);
  }

  /** Every role given respects what the finder allowed: openers may open, closers may close. */
  lemma RolesRespectContext(quotes: seq<QuoteMatch>, perKind: bool, i: nat)
    requires i < |quotes|
    ensures StackRoles(quotes, perKind)[i] == Some(Open) ==> quotes[i].canOpen
    ensures StackRoles(quotes, perKind)[i] == Some(Close) ==> quotes[i].canClose
  {
    RoleAt(quotes, perKind, i);
  }

  // ---------------------------------------------------------------------------
  // Counters against stacks

  /**
   * The counter walk is the per-kind stack walk before clearing: it gives the same roles,
   * and each counter is the depth of that kind's stack, so it is never negative.
   */
  lemma {:induction false} CountersAreStackDepths(quotes: seq<QuoteMatch>)
    ensures var w := Walk(quotes, true);
            CountWalk(quotes) == Counted(w.roles, |w.stacks.single|, |w.stacks.double|)
    ensures CountWalk(quotes).single >= 0 && CountWalk(quotes).double >= 0
  {
    if quotes != [] {
      CountersAreStackDepths(quotes[..|quotes| - 1]);
    }
  }

  /**
   * The counter variant and the per-kind stack variant disagree only on unpaired openers:
   * the counter variant keeps them as openers, the stack variant clears them.
   */
  lemma CountersKeepUnpairedOpeners(quotes: seq<QuoteMatch>, i: nat)
    requires i < |quotes|
    ensures CountWalk(quotes).roles[i] != StackRoles(quotes, true)[i] <==>
            CountWalk(quotes).roles[i] == Some(Open) && StackRoles(quotes, true)[i] == None
  {
    CountersAreStackDepths(quotes);
    UnpairedOpenersCleared(quotes, true, i);
  }

  // ---------------------------------------------------------------------------
  // Balance

  /** The indices of marks on stack `k` that have role `r`. */
  ghost function Marked(roles: seq<Option<Role>>, quotes: seq<QuoteMatch>, perKind: bool, k: Kind, r: Role): set<nat>
  {
    set i: nat | i < |roles| && i < |quotes| && StackKind(quotes[i], perKind) == k && roles[i] == Some(r)
  }

  lemma {:induction false} ElemsOfIncreasing(s: seq<nat>)
    requires Increasing(s)
    ensures |Elems(s)| == |s|
  {
    if s != [] {
      var n := |s| - 1;
      ElemsOfIncreasing(s[..n]);
      assert Elems(s) == Elems(s[..n]) + {s[n]};
      assert s[n] !in Elems(s[..n]);
    }
  }

  /** Extending the walk by one mark adds that mark's index to at most one marked set. */
  lemma MarkedStep(w: Walked, prefix: seq<QuoteMatch>, m: QuoteMatch, perKind: bool, k: Kind, r: Role)
    requires |w.roles| == |prefix|
    ensures var w1 := Step(w, m, |prefix|, perKind);
            Marked(w1.roles, prefix + [m], perKind, k, r) ==
              Marked(w.roles, prefix, perKind, k, r) +
              (if StackKind(m, perKind) == k && w1.roles[|prefix|] == Some(r) then {|prefix|} else {})
  {
    var n := |prefix|;
    var w1 := Step(w, m, n, perKind);
    assert w1.roles == w.roles + [w1.roles[n]];
    var quotes := prefix + [m];
    forall x: nat | x < n ensures w1.roles[x] == w.roles[x] && quotes[x] == prefix[x] {
    }
  }

  /**
   * On each stack, the openers given so far outnumber the closers given so far by exactly
   * the depth of that stack.
   */
  lemma {:induction false} StackDepth(quotes: seq<QuoteMatch>, perKind: bool, k: Kind)
    ensures var w := Walk(quotes, perKind);
            |Marked(w.roles, quotes, perKind, k, Open)| ==
            |Marked(w.roles, quotes, perKind, k, Close)| + |StackOf(w.stacks, k)|
  {
    var w := Walk(quotes, perKind);
    if quotes == [] {
      assert Marked(w.roles, quotes, perKind, k, Open) == {};
      assert Marked(w.roles, quotes, perKind, k, Close) == {};
    } else {
      var n := |quotes| - 1;
      var prefix := quotes[..n];
      assert prefix + [quotes[n]] == quotes;
      var w0 := Walk(prefix, perKind);
      assert w == Step(w0, quotes[n], n, perKind);
      StackDepth(prefix, perKind, k);
      DepthStep(w0, prefix, quotes[n], perKind, k);
    }
  }

  /** One step keeps the difference between a stack's openers and closers equal to its depth. */
  lemma DepthStep(w0: Walked, prefix: seq<QuoteMatch>, m: QuoteMatch, perKind: bool, k: Kind)
    requires |w0.roles| == |prefix|
    requires |Marked(w0.roles, prefix, perKind, k, Open)| ==
             |Marked(w0.roles, prefix, perKind, k, Close)| + |StackOf(w0.stacks, k)|
    ensures var w1 := Step(w0, m, |prefix|, perKind);
            |Marked(w1.roles, prefix + [m], perKind, k, Open)| ==
            |Marked(w1.roles, prefix + [m], perKind, k, Close)| + |StackOf(w1.stacks, k)|
  {
    var n := |prefix|;
    var w1 := Step(w0, m, n, perKind);
    MarkedStep(w0, prefix, m, perKind, k, Open);
    MarkedStep(w0, prefix, m, perKind, k, Close);
    var o0 := Marked(w0.roles, prefix, perKind, k, Open);
    var c0 := Marked(w0.roles, prefix, perKind, k, Close);
    assert n !in o0 && n !in c0;
    var kk := StackKind(m, perKind);
    var s := StackOf(w0.stacks, kk);
    if kk != k {
      assert StackOf(w1.stacks, k) == StackOf(w0.stacks, k);
    } else if m.canClose && |s| > 0 {
      assert w1.roles[n] == Some(Close);
      assert |StackOf(w1.stacks, k)| == |s| - 1;
      assert |c0 + {n}| == |c0| + 1;
    } else if m.canOpen {
      assert w1.roles[n] == Some(Open);
      assert |StackOf(w1.stacks, k)| == |s| + 1;
      assert |o0 + {n}| == |o0| + 1;
    } else {
      assert w1.roles[n] == None && w1.stacks == w0.stacks;
    }
  }

  /** Clearing removes exactly the openers on the stack of kind `k` from that kind's openers. */
  lemma ClearedOpens(w: Walked, quotes: seq<QuoteMatch>, perKind: bool, k: Kind)
    requires WellStacked(w, quotes, perKind)
    ensures Marked(Cleared(w), quotes, perKind, k, Open) ==
            Marked(w.roles, quotes, perKind, k, Open) - Elems(StackOf(w.stacks, k))
  {
    var c := Cleared(w);
    var other := StackOf(w.stacks, if k == Single then Double else Single);
    forall x: nat | x < |c| && x in other
      ensures StackKind(quotes[x], perKind) != k
    {
    }
  }

  /** Clearing changes no closing role. */
  lemma ClearedCloses(w: Walked, quotes: seq<QuoteMatch>, perKind: bool, k: Kind)
    requires WellStacked(w, quotes, perKind)
    ensures Marked(Cleared(w), quotes, perKind, k, Close) == Marked(w.roles, quotes, perKind, k, Close)
  {
    var c := Cleared(w);
    forall x: nat | x < |c| && w.roles[x] == Some(Close)
      ensures c[x] == Some(Close)
    {
      NotOnStack(w, quotes, perKind, x);
    }
  }

  /**
   * After clearing, every stack variant gives as many opening roles as closing roles on
   * each stack.
   */
  lemma Balanced(quotes: seq<QuoteMatch>, perKind: bool, k: Kind)
    ensures var roles := StackRoles(quotes, perKind);
            |Marked(roles, quotes, perKind, k, Open)| == |Marked(roles, quotes, perKind, k, Close)|
  {
    var w := Walk(quotes, perKind);
    WalkWellStacked(quotes, perKind);
    StackDepth(quotes, perKind, k);
    ClearedOpens(w, quotes, perKind, k);
    ClearedCloses(w, quotes, perKind, k);
    var s := StackOf(w.stacks, k);
    ElemsOfIncreasing(s);
    var opens := Marked(w.roles, quotes, perKind, k, Open);
    assert Elems(s) <= opens;
    assert opens == (opens - Elems(s)) + Elems(s);
  }

  // ---------------------------------------------------------------------------
  // Independence of the per-kind stacks

  /** Two mark lists that agree at every position holding a mark of kind `k` in either. */
  ghost predicate SameOfKind(q1: seq<QuoteMatch>, q2: seq<QuoteMatch>, k: Kind)
  {
    |q1| == |q2| && forall i :: 0 <= i < |q1| && (q1[i].kind == k || q2[i].kind == k) ==> q1[i] == q2[i]
  }

  lemma StepIndependent(w1: Walked, w2: Walked, m1: QuoteMatch, m2: QuoteMatch, n: nat, k: Kind)
    requires StackOf(w1.stacks, k) == StackOf(w2.stacks, k)
    requires |w1.roles| == |w2.roles| == n
    requires m1.kind == k || m2.kind == k ==> m1 == m2
    ensures StackOf(Step(w1, m1, n, true).stacks, k) == StackOf(Step(w2, m2, n, true).stacks, k)
    ensures m1.kind == k ==> Step(w1, m1, n, true).roles[n] == Step(w2, m2, n, true).roles[n]
  {
  }

  /**
   * With per-kind stacks, the marks of one kind are paired as if the other kind were not
   * there: changing only marks of the other kind changes neither this kind's stack nor
   * its roles.
   */
  lemma {:induction false} IndependentStacks(q1: seq<QuoteMatch>, q2: seq<QuoteMatch>, k: Kind)
    requires SameOfKind(q1, q2, k)
    ensures StackOf(Walk(q1, true).stacks, k) == StackOf(Walk(q2, true).stacks, k)
    ensures forall i :: 0 <= i < |q1| && q1[i].kind == k ==> Walk(q1, true).roles[i] == Walk(q2, true).roles[i]
  {
    if q1 != [] {
      var n := |q1| - 1;
      assert SameOfKind(q1[..n], q2[..n], k);
      IndependentStacks(q1[..n], q2[..n], k);
      var w1 := Walk(q1[..n], true);
      var w2 := Walk(q2[..n], true);
      StepIndependent(w1, w2, q1[n], q2[n], n, k);
      forall i | 0 <= i < |q1| && q1[i].kind == k
        ensures Walk(q1, true).roles[i] == Walk(q2, true).roles[i]
      {
        if i < n {
          assert Walk(q1, true).roles[i] == w1.roles[i];
          assert Walk(q2, true).roles[i] == w2.roles[i];
        }
      }
    }
  }

  /** The same independence holds after clearing. */
  lemma IndependentRoles(q1: seq<QuoteMatch>, q2: seq<QuoteMatch>, k: Kind, i: nat)
    requires SameOfKind(q1, q2, k) && i < |q1| && q1[i].kind == k
    ensures StackRoles(q1, true)[i] == StackRoles(q2, true)[i]
  {
    IndependentStacks(q1, q2, k);
    WalkWellStacked(q1, true);
    WalkWellStacked(q2, true);
    var w1 := Walk(q1, true);
    var w2 := Walk(q2, true);
    assert q2[i].kind == k;
    if k == Single {
      assert i !in w1.stacks.double && i !in w2.stacks.double;
    } else {
      assert i !in w1.stacks.single && i !in w2.stacks.single;
    }
  }

  /** The indices given role `r`, whatever their stack. */
  ghost function WithRole(roles: seq<Option<Role>>, r: Role): set<nat>
  {
    set i: nat | i < |roles| && roles[i] == Some(r)
  }

  /** Over both stacks together, the openers left after clearing equal the closers in number. */
  lemma TotalBalanced(quotes: seq<QuoteMatch>, perKind: bool)
    ensures var roles := StackRoles(quotes, perKind);
            |WithRole(roles, Open)| == |WithRole(roles, Close)|
  {
    var roles := StackRoles(quotes, perKind);
    Balanced(quotes, perKind, Single);
    Balanced(quotes, perKind, Double);
    SplitByKind(roles, quotes, perKind, Open);
    SplitByKind(roles, quotes, perKind, Close);
  }

  /** The indices with role `r` are those of the single stack and those of the double stack. */
  lemma SplitByKind(roles: seq<Option<Role>>, quotes: seq<QuoteMatch>, perKind: bool, r: Role)
    requires |roles| == |quotes|
    ensures |WithRole(roles, r)| ==
            |Marked(roles, quotes, perKind, Single, r)| + |Marked(roles, quotes, perKind, Double, r)|
  {
    var a := Marked(roles, quotes, perKind, Single, r);
    var b := Marked(roles, quotes, perKind, Double, r);
    assert WithRole(roles, r) == a + b;
    assert a * b == {};
  }

  // ---------------------------------------------------------------------------
  // Nesting

  lemma {:induction false} SubsetSize(a: set<nat>, b: set<nat>)
    requires a <= b
    ensures |a| <= |b|
    decreases a
  {
    if a != {} {
      var x :| x in a;
      SubsetSize(a - {x}, b - {x});
    }
  }

  /** A step's stack holds only what the stack held before and the index of the step's mark. */
  lemma StepStackFrom(w: Walked, m: QuoteMatch, i: nat, perKind: bool, k: Kind)
    ensures forall x :: x in StackOf(Step(w, m, i, perKind).stacks, k) ==> x in StackOf(w.stacks, k) || x == i
  {
    var s := StackOf(w.stacks, StackKind(m, perKind));
    if |s| > 0 {
      assert forall x :: x in s[..|s| - 1] ==> x in s;
    }
  }

  /**
   * An opener still on the final stack that stands before mark `j` was already on the
   * stack after the first `j` marks: an index once popped is never pushed again.
   */
  lemma {:induction false} StackSurvivors(quotes: seq<QuoteMatch>, perKind: bool, k: Kind, j: nat)
    requires j <= |quotes|
    ensures forall x :: x in StackOf(Walk(quotes, perKind).stacks, k) && x < j ==>
              x in StackOf(Walk(quotes[..j], perKind).stacks, k)
    decreases |quotes|
  {
    if j < |quotes| {
      var n := |quotes| - 1;
      StackSurvivors(quotes[..n], perKind, k, j);
      assert quotes[..n][..j] == quotes[..j];
      StepStackFrom(Walk(quotes[..n], perKind), quotes[n], n, perKind, k);
    } else {
      assert quotes[..j] == quotes;
    }
  }

  /** The marked indices of a prefix are the marked indices below its length. */
  lemma MarkedPrefix(roles: seq<Option<Role>>, quotes: seq<QuoteMatch>, perKind: bool, k: Kind, r: Role, j: nat)
    requires |roles| == |quotes| && j <= |roles|
    ensures Marked(roles[..j], quotes[..j], perKind, k, r) == set x | x in Marked(roles, quotes, perKind, k, r) && x < j
  {
  }

  /**
   * After clearing, no prefix of the marks holds more closers than openers on stack `k`:
   * every closer pops an opener before it, and an opener cleared later was still open at
   * the end of the prefix.
   */
  lemma KindPrefixBalanced(quotes: seq<QuoteMatch>, perKind: bool, k: Kind, j: nat)
    requires j <= |quotes|
    ensures var roles := StackRoles(quotes, perKind);
            |Marked(roles[..j], quotes[..j], perKind, k, Close)| <= |Marked(roles[..j], quotes[..j], perKind, k, Open)|
  {
    var w := Walk(quotes, perKind);
    var wj := Walk(quotes[..j], perKind);
    var roles := Cleared(w);
    WalkWellStacked(quotes, perKind);
    WalkWellStacked(quotes[..j], perKind);
    WalkPrefix(quotes, perKind, j);
    StackDepth(quotes[..j], perKind, k);
    StackSurvivors(quotes, perKind, k, j);
    ClearedOpens(w, quotes, perKind, k);
    ClearedCloses(w, quotes, perKind, k);
    MarkedPrefix(roles, quotes, perKind, k, Open, j);
    MarkedPrefix(roles, quotes, perKind, k, Close, j);
    MarkedPrefix(w.roles, quotes, perKind, k, Open, j);
    MarkedPrefix(w.roles, quotes, perKind, k, Close, j);
    var sj := StackOf(wj.stacks, k);
    var sn := StackOf(w.stacks, k);
    ElemsOfIncreasing(sj);
    var opens := Marked(wj.roles, quotes[..j], perKind, k, Open);
    var closes := Marked(wj.roles, quotes[..j], perKind, k, Close);
    assert Marked(roles[..j], quotes[..j], perKind, k, Close) == closes;
    var kept := Marked(roles[..j], quotes[..j], perKind, k, Open);
    assert kept == opens - Elems(sn);
    var lost := opens * Elems(sn);
    assert lost <= Elems(sj);
    SubsetSize(lost, Elems(sj));
    assert opens == kept + lost && kept * lost == {};
  }

  /** After clearing, no prefix of the marks holds more closers than openers. */
  lemma PrefixBalanced(quotes: seq<QuoteMatch>, perKind: bool, j: nat)
    requires j <= |quotes|
    ensures var roles := StackRoles(quotes, perKind);
            |WithRole(roles[..j], Close)| <= |WithRole(roles[..j], Open)|
  {
    var roles := StackRoles(quotes, perKind);
    KindPrefixBalanced(quotes, perKind, Single, j);
    KindPrefixBalanced(quotes, perKind, Double, j);
    SplitByKind(roles[..j], quotes[..j], perKind, Open);
    SplitByKind(roles[..j], quotes[..j], perKind, Close);
  }
}
