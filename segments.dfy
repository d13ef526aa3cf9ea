/**
 * The segment builder the two segment-producing wrappers share: a cursor walks over the
 * paired marks in position order, emitting the text before each mark, then a quote
 * segment for the mark, then the text after the last one.
 */
module Segments {
  import opened Text
  import opened QuoteChars

  /** A paired mark: where it is and which role it plays. */
  datatype Placed = Placed(position: nat, role: Role)

  /** The quote segment for a role. */
  function SegmentFor(r: Role): Segment
  {
    if r == Open then QuoteOpen else QuoteClose
  }

  /** `substr($text, $start, $len)` for non-negative arguments: clamped to the text. */
  function Substr(text: string, start: nat, len: nat): (r: string)
    ensures |r| <= len
  {
    if start >= |text| then ""
    else if start + len <= |text| then text[start..start + len]
    else text[start..]
  }

  /**
   * The segments from `cursor` on: for each mark, the text since the cursor when there is
   * any, then the mark's segment, the cursor moving past the one-character mark; then the
   * rest of the text when there is any.
   */
  function Emit(text: string, marks: seq<Placed>, cursor: nat): seq<Segment>
    decreases |marks|
  {
    if marks == [] then
      if cursor < |text| then [TextSegment(text[cursor..])] else []
    else
      var p := marks[0].position;
      Before(text, cursor, p) + [SegmentFor(marks[0].role)] + Emit(text, marks[1..], p + 1)
  }

  /** The text segment between the cursor and a mark at `p`, when there is text between them. */
  function Before(text: string, cursor: nat, p: nat): seq<Segment>
  {
    if p > cursor then [TextSegment(Substr(text, cursor, p - cursor))] else []
  }

  lemma EmitUnfold(text: string, marks: seq<Placed>, cursor: nat)
    requires marks != []
    ensures Emit(text, marks, cursor) ==
            Before(text, cursor, marks[0].position) + [SegmentFor(marks[0].role)] +
            Emit(text, marks[1..], marks[0].position + 1)
  {
  }

  /** The marks lie in the text at or after `cursor`, in strictly ascending order. */
  ghost predicate InOrder(marks: seq<Placed>, cursor: nat, n: nat)
  {
    (forall k :: 0 <= k < |marks| ==> cursor <= marks[k].position < n) &&
    (forall k, l :: 0 <= k < l < |marks| ==> marks[k].position < marks[l].position)
  }

  lemma InOrderTail(marks: seq<Placed>, cursor: nat, n: nat)
    requires InOrder(marks, cursor, n) && marks != []
    ensures marks[0].position < n && InOrder(marks[1..], marks[0].position + 1, n)
  {
    assert forall k :: 0 <= k < |marks| - 1 ==> marks[1..][k] == marks[k + 1];
  }

  /** The roles of the marks, in order. */
  function RolesOf(marks: seq<Placed>): (r: seq<Role>)
    ensures |r| == |marks|
  {
    seq(|marks|, k requires 0 <= k < |marks| => marks[k].role)
  }

  lemma RolesOfCons(marks: seq<Placed>)
    requires marks != []
    ensures RolesOf(marks) == [marks[0].role] + RolesOf(marks[1..])
  {
  }

  lemma RolesOfAppend(a: seq<Placed>, b: seq<Placed>)
    ensures RolesOf(a + b) == RolesOf(a) + RolesOf(b)
  {
    var ab, ra, rb := RolesOf(a + b), RolesOf(a), RolesOf(b);
    forall k | 0 <= k < |a + b|
      ensures ab[k] == (ra + rb)[k]
    {
      if k < |a| {
        assert (a + b)[k] == a[k];
      } else {
        assert (a + b)[k] == b[k - |a|];
      }
    }
  }

  /** The characters standing at the marks. */
  function CharsAt(text: string, marks: seq<Placed>): (r: seq<char>)
    requires forall k :: 0 <= k < |marks| ==> marks[k].position < |text|
    ensures |r| == |marks|
  {
    seq(|marks|, k requires 0 <= k < |marks| => text[marks[k].position])
  }

  lemma CharsAtCons(text: string, marks: seq<Placed>)
    requires marks != [] && forall k :: 0 <= k < |marks| ==> marks[k].position < |text|
    ensures CharsAt(text, marks) == [text[marks[0].position]] + CharsAt(text, marks[1..])
  {
  }

  /** The roles of the quote segments, in order. */
  function QuoteRoles(segs: seq<Segment>): seq<Role>
  {
    if segs == [] then [] else RoleIn(segs[0]) + QuoteRoles(segs[1..])
  }

  /** The role a single segment carries, if any. */
  function RoleIn(seg: Segment): seq<Role>
  {
    match seg
    case TextSegment(_) => []
    case QuoteOpen => [Open]
    case QuoteClose => [Close]
  }

  /** The text the segments stand for: each quote segment filled with the next of `chars`. */
  function Joined(segs: seq<Segment>, chars: seq<char>): string
  {
    if segs == [] then ""
    else if segs[0].TextSegment? then segs[0].content + Joined(segs[1..], chars)
    else if chars == [] then Joined(segs[1..], [])
    else [chars[0]] + Joined(segs[1..], chars[1..])
  }

  /** No text segment is empty. */
  ghost predicate NoEmptyText(segs: seq<Segment>)
  {
    forall k :: 0 <= k < |segs| && segs[k].TextSegment? ==> segs[k].content != ""
  }

  lemma NoEmptyTextAppend(a: seq<Segment>, b: seq<Segment>)
    requires NoEmptyText(a) && NoEmptyText(b)
    ensures NoEmptyText(a + b)
  {
    forall k | 0 <= k < |a + b| && (a + b)[k].TextSegment?
      ensures (a + b)[k].content != ""
    {
      if k >= |a| {
        assert (a + b)[k] == b[k - |a|];
      }
    }
  }

  lemma QuoteRolesAppend(a: seq<Segment>, b: seq<Segment>)
    ensures QuoteRoles(a + b) == QuoteRoles(a) + QuoteRoles(b)
  {
    if a != [] {
      assert (a + b)[0] == a[0] && (a + b)[1..] == a[1..] + b;
      QuoteRolesAppend(a[1..], b);
      assert QuoteRoles(a + b) == RoleIn(a[0]) + QuoteRoles(a[1..] + b);
    } else {
      assert a + b == b;
    }
  }

  lemma JoinedAppend(a: seq<Segment>, b: seq<Segment>, chars: seq<char>)
    requires |QuoteRoles(a)| <= |chars|
    ensures Joined(a + b, chars) == Joined(a, chars) + Joined(b, chars[|QuoteRoles(a)|..])
  {
    if a != [] {
      assert (a + b)[0] == a[0] && (a + b)[1..] == a[1..] + b;
      if a[0].TextSegment? {
        JoinedAppend(a[1..], b, chars);
        assert Joined(a + b, chars) == a[0].content + Joined(a[1..] + b, chars);
      } else {
        assert |QuoteRoles(a)| == 1 + |QuoteRoles(a[1..])|;
        JoinedAppend(a[1..], b, chars[1..]);
        assert chars[1..][|QuoteRoles(a[1..])|..] == chars[|QuoteRoles(a)|..];
        assert Joined(a + b, chars) == [chars[0]] + Joined(a[1..] + b, chars[1..]);
      }
    } else {
      assert a + b == b;
    }
  }

  /** The quote segments carry the marks' roles, one per mark, in order. */
  lemma {:induction false} EmitRoles(text: string, marks: seq<Placed>, cursor: nat)
    ensures QuoteRoles(Emit(text, marks, cursor)) == RolesOf(marks)
    decreases |marks|
  {
    if marks != [] {
      var p := marks[0].position;
      var before := Before(text, cursor, p);
      EmitRoles(text, marks[1..], p + 1);
      QuoteRolesAppend(before + [SegmentFor(marks[0].role)], Emit(text, marks[1..], p + 1));
      QuoteRolesAppend(before, [SegmentFor(marks[0].role)]);
      RolesOfCons(marks);
    } else {
      assert cursor < |text| ==> QuoteRoles([TextSegment(text[cursor..])]) == [];
    }
  }

  /** Marks in order give no empty text segment. */
  lemma {:induction false} EmitNoEmptyText(text: string, marks: seq<Placed>, cursor: nat)
    requires InOrder(marks, cursor, |text|)
    ensures NoEmptyText(Emit(text, marks, cursor))
    decreases |marks|
  {
    if marks != [] {
      InOrderTail(marks, cursor, |text|);
      EmitNoEmptyText(text, marks[1..], marks[0].position + 1);
      NoEmptyTextStep(text, marks, cursor);
    }
  }

  /** A mark after the cursor adds no empty text segment to the walk after it. */
  lemma NoEmptyTextStep(text: string, marks: seq<Placed>, cursor: nat)
    requires marks != [] && cursor <= marks[0].position < |text|
    requires NoEmptyText(Emit(text, marks[1..], marks[0].position + 1))
    ensures NoEmptyText(Emit(text, marks, cursor))
  {
    var before := Before(text, cursor, marks[0].position);
    NoEmptyTextAppend(before, [SegmentFor(marks[0].role)]);
    NoEmptyTextAppend(before + [SegmentFor(marks[0].role)], Emit(text, marks[1..], marks[0].position + 1));
  }

  /**
   * Marks in order give back the text: the text segments joined, with the character of
   * each mark in place of its quote segment.
   */
  lemma {:induction false} EmitRoundTrip(text: string, marks: seq<Placed>, cursor: nat)
    requires cursor <= |text| && InOrder(marks, cursor, |text|)
    ensures Joined(Emit(text, marks, cursor), CharsAt(text, marks)) == text[cursor..]
    decreases |marks|
  {
    if marks != [] {
      InOrderTail(marks, cursor, |text|);
      EmitRoundTrip(text, marks[1..], marks[0].position + 1);
      RoundTripCons(text, marks, cursor);
    } else {
      RoundTripEnd(text, cursor);
    }
  }

  /** Past the last mark, the walk gives back the rest of the text. */
  lemma RoundTripEnd(text: string, cursor: nat)
    requires cursor <= |text|
    ensures Joined(Emit(text, [], cursor), CharsAt(text, [])) == text[cursor..]
  {
    if cursor == |text| {
      assert text[cursor..] == [];
    }
  }

  /** The round trip past the first mark gives the round trip from the cursor. */
  lemma RoundTripCons(text: string, marks: seq<Placed>, cursor: nat)
    requires marks != [] && InOrder(marks, cursor, |text|)
    requires Joined(Emit(text, marks[1..], marks[0].position + 1), CharsAt(text, marks[1..])) ==
             text[marks[0].position + 1..]
    ensures Joined(Emit(text, marks, cursor), CharsAt(text, marks)) == text[cursor..]
  {
    RoundTripStep(text, marks, cursor);
    SplitAt(text, cursor, marks[0].position);
  }

  /** One mark of the round trip: the text before it, its character, then the rest. */
  lemma RoundTripStep(text: string, marks: seq<Placed>, cursor: nat)
    requires marks != [] && InOrder(marks, cursor, |text|)
    ensures Joined(Emit(text, marks, cursor), CharsAt(text, marks)) ==
            text[cursor..marks[0].position] + [text[marks[0].position]] +
            Joined(Emit(text, marks[1..], marks[0].position + 1), CharsAt(text, marks[1..]))
  {
    var p := marks[0].position;
    var piece := Before(text, cursor, p) + [SegmentFor(marks[0].role)];
    var chars, rest := CharsAt(text, marks), Emit(text, marks[1..], p + 1);
    EmitUnfold(text, marks, cursor);
    CharsAtCons(text, marks);
    MarkPiece(text, cursor, p, marks[0].role, chars);
    JoinedAppend(piece, rest, chars);
  }

  /** The text before a mark and the mark's segment give back the text up to and including the mark. */
  lemma MarkPiece(text: string, cursor: nat, p: nat, r: Role, chars: seq<char>)
    requires cursor <= p < |text| && chars != [] && chars[0] == text[p]
    ensures |QuoteRoles(Before(text, cursor, p) + [SegmentFor(r)])| == 1
    ensures Joined(Before(text, cursor, p) + [SegmentFor(r)], chars) == text[cursor..p] + [text[p]]
  {
    var before, seg := Before(text, cursor, p), SegmentFor(r);
    QuoteRolesAppend(before, [seg]);
    JoinedAppend(before, [seg], chars);
    assert Joined(before, chars) == text[cursor..p];
    assert Joined([seg], chars) == [text[p]];
  }

  /** A text from the cursor is the part before `p`, the character at `p`, and the rest. */
  lemma SplitAt(text: string, cursor: nat, p: nat)
    requires cursor <= p < |text|
    ensures text[cursor..] == text[cursor..p] + [text[p]] + text[p + 1..]
  {
  }

  // ---------------------------------------------------------------------------
  // The cursor loop

  /** The cursor loop of `buildSegments`, over the paired marks. */
  method WalkCursor(text: string, active: seq<Placed>) returns (segments: seq<Segment>)
    ensures segments == Emit(text, active, 0)
  {
    segments := [];
    var cursor: nat := 0;
    var j := 0;
    while j < |active|
      invariant 0 <= j <= |active|
      invariant segments + Emit(text, active[j..], cursor) == Emit(text, active, 0)
    {
      CursorStep(text, active, j, cursor, segments);
      segments := EmitMark(text, cursor, active[j], segments);
      cursor := active[j].position + 1;
      j := j + 1;
    }
    WalkEnd(text, active, j, cursor, segments);
    if cursor < |text| {
      segments := segments + [TextSegment(text[cursor..])];
    }
  }

  /** One turn of the cursor loop: the text since the cursor, if any, then the mark's segment. */
  method EmitMark(text: string, cursor: nat, mark: Placed, segments: seq<Segment>) returns (next: seq<Segment>)
    ensures next == segments + Before(text, cursor, mark.position) + [SegmentFor(mark.role)]
  {
    next := segments;
    if mark.position > cursor {
      next := next + [TextSegment(Substr(text, cursor, mark.position - cursor))];
    } else {
      assert segments + Before(text, cursor, mark.position) == segments;
    }
    next := next + [SegmentFor(mark.role)];
  }

  /** After the last mark, what remains of the walk is the tail of the text, if any. */
  lemma WalkEnd(text: string, active: seq<Placed>, j: nat, cursor: nat, segments: seq<Segment>)
    requires j == |active|
    requires segments + Emit(text, active[j..], cursor) == Emit(text, active, 0)
    ensures cursor < |text| ==> segments + [TextSegment(text[cursor..])] == Emit(text, active, 0)
    ensures cursor >= |text| ==> segments == Emit(text, active, 0)
  {
    assert active[j..] == [];
  }

  /** One turn of the cursor loop keeps its invariant. */
  lemma CursorStep(text: string, active: seq<Placed>, j: nat, cursor: nat, segments: seq<Segment>)
    requires j < |active|
    requires segments + Emit(text, active[j..], cursor) == Emit(text, active, 0)
    ensures segments + Before(text, cursor, active[j].position) + [SegmentFor(active[j].role)] +
            Emit(text, active[j + 1..], active[j].position + 1) == Emit(text, active, 0)
  {
    var p := active[j].position;
    var before, seg, rest := Before(text, cursor, p), [SegmentFor(active[j].role)], Emit(text, active[j + 1..], p + 1);
    EmitUnfold(text, active[j..], cursor);
    DropAfter(active, j);
    AppendRegroup(segments, before, seg, rest);
  }

  lemma DropAfter<T>(s: seq<T>, j: nat)
    requires j < |s|
    ensures s[j..][1..] == s[j + 1..]
  {
  }

  lemma AppendRegroup<T>(a: seq<T>, b: seq<T>, c: seq<T>, d: seq<T>)
    ensures a + (b + c + d) == a + b + c + d
  {
  }

  // ---------------------------------------------------------------------------
  // The nested example both segment wrappers document

  /** `"outer "inner" outer"`: a quotation nested in one of the same kind. */
  const NestedDoubles: string := "\"outer \"inner\" outer\""

  /** Its paired marks: two openers, then two closers. */
  const NestedPlaced: seq<Placed> := [Placed(0, Open), Placed(7, Open), Placed(13, Close), Placed(20, Close)]

  /** The segments the documentation promises for it. */
  const NestedSegments: seq<Segment> :=
    [QuoteOpen, TextSegment("outer "), QuoteOpen, TextSegment("inner"), QuoteClose, TextSegment(" outer"), QuoteClose]

  /** The cursor walk over its paired marks gives the promised segments. */
  lemma NestedEmit()
    ensures Emit(NestedDoubles, NestedPlaced, 0) == NestedSegments
  {
    var t, m := NestedDoubles, NestedPlaced;
    assert Emit(t, m[4..], 21) == [];
    assert Substr(t, 14, 6) == " outer";
    assert Emit(t, m[3..], 14) == [TextSegment(" outer"), QuoteClose];
    assert Substr(t, 8, 5) == "inner";
    assert Emit(t, m[2..], 8) == [TextSegment("inner"), QuoteClose, TextSegment(" outer"), QuoteClose];
    assert t[1..7] == "outer ";
    assert Substr(t, 1, 6) == "outer ";
    assert Emit(t, m[1..], 1) == [TextSegment("outer "), QuoteOpen] + Emit(t, m[2..], 8);
  }
}
