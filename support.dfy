/**
 * `Support::normalizeWhitespace` and `Support::containsOnlyText`
 * (src/Support/Support.php).
 */
module Support {
  import opened Text
  import opened Dom

  /** The token the HTML5 parser leaves where the source held `&nbsp;`. */
  const NbspPlaceholder: string := "html5-dom-document-internal-entity1-nbsp-end"

  /** The entity that, alone between blanks, also counts as blank. */
  const NbspEntity: string := "&nbsp;"

  /**
   * A character of the class `[\s\xc2\xa0]` applied to UTF-8 text: ASCII white space or
   * the no-break space U+00A0 (the only code point whose encoding uses just those bytes).
   */
  predicate IsBlank(c: char)
  {
    IsSpace(c) || c == '\U{00A0}'
  }

  /** `^[\s\xc2\xa0]*$` matches: the string is blank throughout (the empty string included). */
  predicate AllBlank(s: string)
  {
    forall i :: 0 <= i < |s| ==> IsBlank(s[i])
  }

  /**
   * `^[\s\xc2\xa0]*&nbsp;[\s\xc2\xa0]*$` with the `i` flag matches: one `&nbsp;`,
   * in any letter case, with only blanks around it.
   */
  predicate NbspAlone(s: string)
  {
    exists k | 0 <= k <= |s| :: EntityAt(s, k) && AllBlank(s[..k]) && AllBlank(s[k + |NbspEntity|..])
  }

  /** `&nbsp;`, in any letter case, starts at index `k`. */
  predicate EntityAt(s: string, k: int)
  {
    0 <= k <= |s| - |NbspEntity| && Lower(s[k..k + |NbspEntity|]) == NbspEntity
  }

  /** The characters that are not `\s`, in order. */
  function Strip(s: string): (r: string)
    ensures |r| <= |s|
    decreases |s|
  {
    if s == [] then []
    else (if IsSpace(s[0]) then [] else [s[0]]) + Strip(s[1..])
  }

  /** Every `\s` is a plain space and no two of them are adjacent. */
  predicate Squeezed(s: string)
  {
    forall i :: 0 <= i < |s| && IsSpace(s[i]) ==> s[i] == ' ' && (i + 1 < |s| ==> !IsSpace(s[i + 1]))
  }

  /** The string ends with a `\s` character. */
  predicate EndsInSpace(s: string)
    decreases |s|
  {
    s != [] && (if |s| == 1 then IsSpace(s[0]) else EndsInSpace(s[1..]))
  }

  /** `EndsInSpace` looks at the last character. */
  lemma {:induction false} EndsInSpaceLast(s: string)
    ensures EndsInSpace(s) <==> s != [] && IsSpace(s[|s| - 1])
    decreases |s|
  {
    if |s| > 1 {
      EndsInSpaceLast(s[1..]);
      assert s[1..][|s| - 2] == s[|s| - 1];
    }
  }

  /** The rest of a run of `\s`; it ends as the input does, unless nothing is left. */
  function DropSpaces(s: string): (r: string)
    ensures |r| <= |s|
    ensures r == [] || !IsSpace(r[0])
    ensures Strip(r) == Strip(s)
    ensures r != [] ==> (EndsInSpace(r) <==> EndsInSpace(s))
    ensures r == [] && s != [] ==> EndsInSpace(s)
    decreases |s|
  {
    if s != [] && IsSpace(s[0]) then DropSpaces(s[1..]) else s
  }

  /** The word at the start of `s`: its longest prefix without `\s`. */
  function TakeWord(s: string): (w: string)
    ensures |w| <= |s| && w == s[..|w|]
    ensures s != [] && !IsSpace(s[0]) ==> w != []
    ensures forall i :: 0 <= i < |w| ==> !IsSpace(w[i])
    ensures |w| < |s| ==> IsSpace(s[|w|])
    decreases |s|
  {
    if s == [] || IsSpace(s[0]) then [] else [s[0]] + TakeWord(s[1..])
  }

  /** The words of `s`, in order: its maximal runs of characters other than `\s`. */
  function Words(s: string): (r: seq<string>)
    ensures forall k :: 0 <= k < |r| ==> r[k] != []
    decreases |s|
  {
    if s == [] then []
    else if IsSpace(s[0]) then Words(s[1..])
    else
      var w := TakeWord(s);
      [w] + Words(s[|w|..])
  }

  /** Dropping leading white space keeps the words. */
  lemma {:induction false} WordsDropSpaces(s: string)
    ensures Words(DropSpaces(s)) == Words(s)
    decreases |s|
  {
    if s != [] && IsSpace(s[0]) {
      WordsDropSpaces(s[1..]);
    }
  }

  /**
   * The words of a string that starts with a character other than `\s`: that character
   * starts a word of its own when white space or nothing follows, and joins the first
   * word of the rest otherwise.
   */
  function ConsWord(c: char, rest: string, words: seq<string>): seq<string>
  {
    if rest == [] || IsSpace(rest[0]) || words == [] then [[c]] + words
    else [[c] + words[0]] + words[1..]
  }

  lemma WordsCons(c: char, rest: string)
    requires !IsSpace(c)
    ensures Words([c] + rest) == ConsWord(c, rest, Words(rest))
  {
    var s := [c] + rest;
    var w := TakeWord(rest);
    assert s[1..] == rest;
    assert TakeWord(s) == [c] + w;
    assert s[|[c] + w|..] == rest[|w|..];
    if rest != [] && !IsSpace(rest[0]) {
      assert Words(rest) == [w] + Words(rest[|w|..]);
    }
  }

  /**
   * What collapsing `s` to `r` keeps: `r` is squeezed, has the characters other than `\s`
   * and the words of `s` in order, is empty exactly when `s` is, and starts and ends with
   * white space exactly when `s` does.
   */
  predicate CollapsedFrom(r: string, s: string)
  {
    Squeezed(r) && Strip(r) == Strip(s) && Words(r) == Words(s) && (r == [] <==> s == []) &&
    (s != [] ==> (IsSpace(r[0]) <==> IsSpace(s[0]))) && (EndsInSpace(r) <==> EndsInSpace(s))
  }

  /** A run of white space in front becomes one space in front of the collapsed rest. */
  lemma CollapseSpaceStep(s: string, rest: string)
    requires s != [] && IsSpace(s[0])
    requires CollapsedFrom(rest, DropSpaces(s[1..]))
    ensures CollapsedFrom([' '] + rest, s)
  {
    var r := [' '] + rest;
    assert r[1..] == rest;
    WordsDropSpaces(s[1..]);
  }

  /** Any other first character is kept in front of the collapsed rest. */
  lemma CollapseSolidStep(s: string, rest: string)
    requires s != [] && !IsSpace(s[0])
    requires CollapsedFrom(rest, s[1..])
    ensures CollapsedFrom([s[0]] + rest, s)
  {
    var r := [s[0]] + rest;
    assert r[1..] == rest;
    assert s == [s[0]] + s[1..];
    WordsCons(s[0], s[1..]);
    WordsCons(s[0], rest);
  }

  /**
   * `preg_replace('/\s+/', ' ', ...)`: every maximal run of `\s` becomes one space.
   * The result is squeezed and keeps the words of the input, in order, so exactly the
   * runs between them became single spaces; it is empty exactly when the input is, and
   * starts and ends with white space exactly when the input does.
   */
  function Collapse(s: string): (r: string)
    ensures Squeezed(r)
    ensures Strip(r) == Strip(s)
    ensures Words(r) == Words(s)
    ensures r == [] <==> s == []
    ensures s != [] ==> (IsSpace(r[0]) <==> IsSpace(s[0]))
    ensures EndsInSpace(r) <==> EndsInSpace(s)
    decreases |s|
  {
    if s == [] then []
    else if IsSpace(s[0]) then
      var rest := Collapse(DropSpaces(s[1..]));
      CollapseSpaceStep(s, rest);
      [' '] + rest
    else
      var rest := Collapse(s[1..]);
      CollapseSolidStep(s, rest);
      [s[0]] + rest
  }

  /** Squeezing leaves a string without words empty or a single space. */
  lemma SqueezedNoWords(s: string)
    requires Squeezed(s) && Words(s) == []
    ensures s == [] || s == " "
  {
    if s != [] {
      assert IsSpace(s[0]);
    }
  }

  /** Squeezing keeps holding after the first character. */
  lemma SqueezedTail(s: string)
    requires Squeezed(s) && s != []
    ensures Squeezed(s[1..])
  {
    forall i | 0 <= i < |s[1..]| && IsSpace(s[1..][i])
      ensures s[1..][i] == ' ' && (i + 1 < |s[1..]| ==> !IsSpace(s[1..][i + 1]))
    {
      assert s[1..][i] == s[i + 1];
    }
  }

  /** The rest starts with a word, which the first character joins. */
  predicate WordLed(rest: string, words: seq<string>)
  {
    rest != [] && !IsSpace(rest[0]) && words != []
  }

  /** `ConsWord` tells apart the character, whether it joins a word, and the other words. */
  lemma ConsWordInjective(c: char, x: string, wx: seq<string>, d: char, y: string, wy: seq<string>)
    requires forall k :: 0 <= k < |wx| ==> wx[k] != []
    requires forall k :: 0 <= k < |wy| ==> wy[k] != []
    requires ConsWord(c, x, wx) == ConsWord(d, y, wy)
    ensures c == d && wx == wy && (WordLed(x, wx) <==> WordLed(y, wy))
  {
    var v := ConsWord(c, x, wx);
    assert v[0][0] == c && ConsWord(d, y, wy)[0][0] == d;
    assert WordLed(x, wx) <==> |v[0]| > 1;
    assert WordLed(y, wy) <==> |ConsWord(d, y, wy)[0]| > 1;
    if WordLed(x, wx) {
      assert wx[0] == v[0][1..] == wy[0];
      assert wx[1..] == v[1..] == wy[1..];
      assert wx == [wx[0]] + wx[1..] && wy == [wy[0]] + wy[1..];
    } else {
      assert wx == v[1..] == wy;
    }
  }

  /**
   * A squeezed string is determined by its words and by whether it is empty, starts with
   * white space and ends with white space.
   */
  lemma {:induction false} SqueezedUnique(a: string, b: string)
    requires Squeezed(a) && Squeezed(b) && Words(a) == Words(b)
    requires a == [] <==> b == []
    requires a != [] && b != [] ==> (IsSpace(a[0]) <==> IsSpace(b[0]))
    requires EndsInSpace(a) <==> EndsInSpace(b)
    ensures a == b
    decreases |a| + |b|
  {
    if a != [] {
      var a', b' := a[1..], b[1..];
      assert a == [a[0]] + a' && b == [b[0]] + b';
      SqueezedTail(a);
      SqueezedTail(b);
      if IsSpace(a[0]) {
        if a' == [] || b' == [] {
          SqueezedNoWords(a);
          SqueezedNoWords(b);
        } else {
          assert !IsSpace(a'[0]) && !IsSpace(b'[0]);
          SqueezedUnique(a', b');
        }
      } else {
        WordsCons(a[0], a');
        WordsCons(b[0], b');
        ConsWordInjective(a[0], a', Words(a'), b[0], b', Words(b'));
        if a' == [] || b' == [] {
          if a' != [] {
            assert Words(a') == [] && EndsInSpace(a');
            SqueezedNoWords(a');
          } else if b' != [] {
            assert Words(b') == [] && EndsInSpace(b');
            SqueezedNoWords(b');
          }
        } else {
          SqueezedUnique(a', b');
        }
      }
    }
  }

  /**
   * The contract of `Collapse` determines it: a squeezed string with the input's words,
   * empty exactly when the input is, and starting and ending with white space exactly
   * when the input does, is the collapsed input.
   */
  lemma CollapseUnique(s: string, r: string)
    requires Squeezed(r) && Words(r) == Words(s)
    requires r == [] <==> s == []
    requires s != [] ==> (IsSpace(r[0]) <==> IsSpace(s[0]))
    requires EndsInSpace(r) <==> EndsInSpace(s)
    ensures r == Collapse(s)
  {
    SqueezedUnique(r, Collapse(s));
  }

  /** A squeezed string is left as it is. */
  lemma CollapseSqueezed(s: string)
    requires Squeezed(s)
    ensures Collapse(s) == s
  {
    CollapseUnique(s, s);
  }

  /** Collapsing is idempotent, and a string is its own collapse exactly when it is squeezed. */
  lemma CollapseFixedPoints(s: string)
    ensures Collapse(Collapse(s)) == Collapse(s)
    ensures Collapse(s) == s <==> Squeezed(s)
  {
    CollapseSqueezed(Collapse(s));
    if Squeezed(s) {
      CollapseSqueezed(s);
    }
  }

  /** `Support::normalizeWhitespace`: the four replacements of lines 43 to 46, in order. */
  function NormalizeWhitespace(s: string): string
  {
    var unplaced := ReplaceAll(s, NbspPlaceholder, " ");
    var unblank := if AllBlank(unplaced) then " " else unplaced;
    var unentity := if NbspAlone(unblank) then " " else unblank;
    Collapse(unentity)
  }

  /** The placeholder holds a letter, so blank text never contains it. */
  lemma BlankHasNoPlaceholder(s: string)
    requires AllBlank(s)
    ensures !Contains(s, NbspPlaceholder)
  {
    forall i | 0 <= i <= |s| - |NbspPlaceholder|
      ensures !OccursAt(s, NbspPlaceholder, i)
    {
      assert s[i..i + |NbspPlaceholder|][0] == s[i];
      assert IsBlank(s[i]) && !IsBlank(NbspPlaceholder[0]);
    }
  }

  /** A single space is neither `&nbsp;` alone nor changed by collapsing. */
  lemma SpaceIsNormal()
    ensures !NbspAlone(" ")
    ensures Collapse(" ") == " "
  {
  }

  /** Blank text (also the empty string) normalises to a single space. */
  lemma NormalizeBlank(s: string)
    requires AllBlank(s)
    ensures NormalizeWhitespace(s) == " "
  {
    BlankHasNoPlaceholder(s);
    ReplaceAllAbsent(s, NbspPlaceholder, " ");
    SpaceIsNormal();
  }

  /** The placeholder token on its own becomes a single space. */
  lemma NormalizePlaceholder()
    ensures NormalizeWhitespace(NbspPlaceholder) == " "
  {
    ReplaceAllNeedle(NbspPlaceholder, " ");
    SpaceIsNormal();
  }

  /** `&nbsp;` (any letter case) between blanks becomes a single space. */
  lemma NormalizeNbspAlone(s: string)
    requires NbspAlone(s) && !Contains(s, NbspPlaceholder)
    ensures NormalizeWhitespace(s) == " "
  {
    ReplaceAllAbsent(s, NbspPlaceholder, " ");
    var k :| 0 <= k <= |s| && EntityAt(s, k) && AllBlank(s[..k]) && AllBlank(s[k + |NbspEntity|..]);
    assert s[k] == s[k..k + |NbspEntity|][0];
    assert !AllBlank(s) by {
      assert !IsBlank(s[k]);
    }
    SpaceIsNormal();
  }

  /**
   * Any other text (no placeholder, not blank, not a lone `&nbsp;`) is only collapsed:
   * the result is squeezed, keeps the words in order with one space between them, and
   * keeps white space at either end as one space.
   */
  lemma NormalizeOther(s: string)
    requires !Contains(s, NbspPlaceholder) && !AllBlank(s) && !NbspAlone(s)
    ensures Squeezed(NormalizeWhitespace(s))
    ensures Strip(NormalizeWhitespace(s)) == Strip(s)
    ensures Words(NormalizeWhitespace(s)) == Words(s)
    ensures IsSpace(NormalizeWhitespace(s)[0]) <==> IsSpace(s[0])
    ensures EndsInSpace(NormalizeWhitespace(s)) <==> EndsInSpace(s)
    ensures NormalizeWhitespace(s) == Collapse(s)
  {
    ReplaceAllAbsent(s, NbspPlaceholder, " ");
  }

  /** Normalised text is always squeezed and never empty. */
  lemma NormalizeSqueezed(s: string)
    ensures Squeezed(NormalizeWhitespace(s))
    ensures NormalizeWhitespace(s) != ""
  {
    var unplaced := ReplaceAll(s, NbspPlaceholder, " ");
    if !AllBlank(unplaced) {
      assert unplaced != [];
    }
  }

  /**
   * `Support::containsOnlyText` over an element's children: true when there are none,
   * false at the first child that is not a text node.
   */
  function OnlyText(children: seq<Node>): (r: bool)
    ensures r <==> forall i :: 0 <= i < |children| ==> children[i].TextNode?
    decreases |children|
  {
    if children == [] then true
    else if !children[0].TextNode? then false
    else
      assert forall i :: 1 <= i < |children| ==> children[i] == children[1..][i - 1];
      OnlyText(children[1..])
  }

  function ContainsOnlyText(el: Node): (r: bool)
    ensures Children(el) == [] ==> r
    ensures r <==> forall i :: 0 <= i < |Children(el)| ==> Children(el)[i].TextNode?
  {
    OnlyText(Children(el))
  }
}
