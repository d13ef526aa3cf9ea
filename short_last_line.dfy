/**
 * The short-last-line (widow) avoider
 * (src/Internal/Service/DOM/ShortLastLineAvoider/ShortLastLineAvoider.php): in every
 * block element without nested blocks, the last non-blank text node outside
 * head/link/pre/code/script/style gets a no-break space between its last two words.
 */
module ShortLastLineAvoider {
  import opened Wrappers
  import opened Text
  import opened Dom
  import opened Support

  /** The constructor's two settings. */
  datatype Settings = Settings(minWordCount: int, maxTailLength: int)

  const Defaults: Settings := Settings(4, 25)

  /** Elements whose text is never touched, compared after lower-casing the tag. */
  const ExcludedTags: seq<string> := ["head", "link", "pre", "code", "script", "style"]

  /** The block-level elements of the `BlockElement` enumeration. */
  const BlockTags: seq<string> := [
    "body", "address", "article", "aside", "blockquote", "dd", "div", "dl", "dt",
    "fieldset", "figcaption", "figure", "footer", "form", "h1", "h2", "h3", "h4", "h5",
    "h6", "header", "hgroup", "li", "main", "nav", "ol", "p", "section", "td", "th", "ul"]

  // ---------------------------------------------------------------------------
  // injectNonbreakingSpace
  // ---------------------------------------------------------------------------

  /** `empty(trim($string))`. */
  predicate IsBlankText(s: string)
  {
    PhpEmpty(Trim(s))
  }

  /**
   * `mb_strlen("$lastWord $secondLastWord")` with both words decoded; only consulted
   * once there are at least `minWordCount` (two or more) words.
   */
  function TailLength(words: seq<string>, decode: string -> string): nat
  {
    if |words| < 2 then 0 else |decode(words[|words| - 1]) + " " + decode(words[|words| - 2])|
  }

  /**
   * `injectNonbreakingSpace`: blank text comes back untouched; otherwise the normalised
   * text, with its last two words glued by `&nbsp;` when there are at least
   * `minWordCount` words and the two decoded words are short enough. `decode` stands for
   * `Support::decode`, which is not part of this model.
   */
  function InjectNonbreakingSpace(text: string, settings: Settings, decode: string -> string): string
    requires settings.minWordCount >= 2
  {
    var s := NormalizeWhitespace(text);
    if IsBlankText(s) then text
    else
      var words := Split(s, ' ');
      var n := |words|;
      if n < settings.minWordCount then s
      else if TailLength(words, decode) > settings.maxTailLength then s
      else Glued(words)
  }

  /** `k` is the index of the last space of `s`. */
  predicate IsLastSpace(s: string, k: int)
  {
    0 <= k < |s| && s[k] == ' ' && ' ' !in s[k + 1..]
  }

  /** Blank input (the empty string too) is returned exactly as given. */
  lemma InjectBlank(text: string, settings: Settings, decode: string -> string)
    requires settings.minWordCount >= 2 && AllBlank(text)
    ensures InjectNonbreakingSpace(text, settings, decode) == text
  {
    NormalizeBlank(text);
    assert Trim(" ") == "";
  }

  /** Text with fewer than `minWordCount` space-separated words comes back only normalised. */
  lemma InjectFewWords(text: string, settings: Settings, decode: string -> string)
    requires settings.minWordCount >= 2
    requires !IsBlankText(NormalizeWhitespace(text))
    requires CountChar(NormalizeWhitespace(text), ' ') + 1 < settings.minWordCount
    ensures InjectNonbreakingSpace(text, settings, decode) == NormalizeWhitespace(text)
  {
    SplitCount(NormalizeWhitespace(text), ' ');
  }

  /** A decoded tail longer than `maxTailLength` leaves the text only normalised. */
  lemma InjectLongTail(text: string, settings: Settings, decode: string -> string)
    requires settings.minWordCount >= 2
    requires !IsBlankText(NormalizeWhitespace(text))
    requires TailLength(Split(NormalizeWhitespace(text), ' '), decode) > settings.maxTailLength
    ensures InjectNonbreakingSpace(text, settings, decode) == NormalizeWhitespace(text)
  {
  }

  /** A string whose last piece holds no separator: the separator before it is the last one. */
  lemma LastSeparator(p: string, q: string)
    requires ' ' !in q
    ensures IsLastSpace(p + " " + q, |p|)
  {
    var s := p + " " + q;
    assert s[|p| + 1..] == q;
  }

  /**
   * When both guards pass, the result is the normalised text with its last space
   * replaced by `&nbsp;`: every earlier character, and the last word, are kept.
   */
  lemma InjectGlues(text: string, settings: Settings, decode: string -> string)
    requires settings.minWordCount >= 2
    requires !IsBlankText(NormalizeWhitespace(text))
    requires CountChar(NormalizeWhitespace(text), ' ') + 1 >= settings.minWordCount
    requires TailLength(Split(NormalizeWhitespace(text), ' '), decode) <= settings.maxTailLength
    ensures var s := NormalizeWhitespace(text);
      exists k :: IsLastSpace(s, k) && InjectNonbreakingSpace(text, settings, decode) == s[..k] + NbspEntity + s[k + 1..]
  {
    var s := NormalizeWhitespace(text);
    var words := Split(s, ' ');
    SplitCount(s, ' ');
    assert InjectNonbreakingSpace(text, settings, decode) == Glued(words);
    var k := SplitLast(s);
  }

  /** The words joined again, with `&nbsp;` in place of the last separator. */
  function Glued(words: seq<string>): string
    requires words != []
  {
    Join(words[..|words| - 1], ' ') + NbspEntity + words[|words| - 1]
  }

  /** With two or more pieces, gluing the pieces replaces exactly the last space of `s`. */
  lemma SplitLast(s: string) returns (k: nat)
    requires |Split(s, ' ')| >= 2
    ensures IsLastSpace(s, k) && Glued(Split(s, ' ')) == s[..k] + NbspEntity + s[k + 1..]
  {
    var words := Split(s, ' ');
    var n := |words|;
    JoinSplit(s, ' ');
    JoinSnoc(words, ' ');
    SplitNoSeparator(s, ' ');
    var p := Join(words[..n - 1], ' ');
    var q := words[n - 1];
    assert ' ' !in q;
    assert s == p + " " + q;
    LastSeparator(p, q);
    k := |p|;
    assert s[..k] == p && s[k + 1..] == q;
  }

  /** The last space is unique, so the glued result above is fully determined. */
  lemma LastSpaceUnique(s: string, k: int, k': int)
    requires IsLastSpace(s, k) && IsLastSpace(s, k')
    ensures k == k'
  {
  }

  /** Text without an ampersand never holds `&nbsp;`, in any letter case. */
  lemma NoAmpersandNoEntity(s: string)
    requires '&' !in s
    ensures !NbspAlone(s)
  {
    forall k | 0 <= k <= |s| - |NbspEntity|
      ensures !EntityAt(s, k)
    {
      assert s[k..k + |NbspEntity|][0] == s[k];
      assert s[k] in s;
    }
  }

  /** Text with two characters `trim` keeps is not blank. */
  lemma SolidNotBlank(s: string, i: nat, j: nat)
    requires i < j < |s| && !IsTrimmed(s[i]) && !IsTrimmed(s[j])
    ensures !IsBlankText(s)
  {
    var left := TrimLeft(s);
    var k := |s| - |left|;
    assert k <= i;
    assert left[i - k] == s[i] && left[j - k] == s[j];
    var both := TrimRight(left);
    assert |both| > j - k;
    assert both[i - k] == s[i];
  }

  /** A lower-case ASCII letter, used as a one-letter word in the example below. */
  predicate Word(c: char)
  {
    'a' <= c <= 'z'
  }

  /** The example text: four one-letter words, each followed by a space. */
  function FourWords(a: char, b: char, c: char, d: char): string
  {
    [a, ' ', b, ' ', c, ' ', d, ' ']
  }

  /** The example text holds single plain spaces between words. */
  lemma FourWordsSqueezed(a: char, b: char, c: char, d: char)
    requires Word(a) && Word(b) && Word(c) && Word(d)
    ensures Squeezed(FourWords(a, b, c, d))
  {
  }

  /** The example text is none of the special cases `normalizeWhitespace` replaces. */
  lemma FourWordsPlain(a: char, b: char, c: char, d: char)
    requires Word(a) && Word(b) && Word(c) && Word(d)
    ensures !Contains(FourWords(a, b, c, d), NbspPlaceholder)
    ensures !AllBlank(FourWords(a, b, c, d)) && !NbspAlone(FourWords(a, b, c, d))
  {
    var text := FourWords(a, b, c, d);
    assert |text| < |NbspPlaceholder|;
    assert !IsBlank(text[0]);
    NoAmpersandNoEntity(text);
  }

  lemma FourWordsNormal(a: char, b: char, c: char, d: char)
    requires Word(a) && Word(b) && Word(c) && Word(d)
    ensures NormalizeWhitespace(FourWords(a, b, c, d)) == FourWords(a, b, c, d)
    ensures !IsBlankText(FourWords(a, b, c, d))
  {
    var text := FourWords(a, b, c, d);
    FourWordsPlain(a, b, c, d);
    NormalizeOther(text);
    FourWordsSqueezed(a, b, c, d);
    CollapseSqueezed(text);
    SolidNotBlank(text, 0, 6);
  }

  /** A one-letter word and its space split off as the first piece. */
  lemma SplitLetter(x: char, rest: string)
    requires Word(x)
    ensures Split([x, ' '] + rest, ' ') == [[x]] + Split(rest, ' ')
  {
    SplitWord([x], rest, ' ');
    assert [x] + [' '] + rest == [x, ' '] + rest;
  }

  lemma FourWordsSplit(a: char, b: char, c: char, d: char)
    requires Word(a) && Word(b) && Word(c) && Word(d)
    ensures Split(FourWords(a, b, c, d), ' ') == [[a], [b], [c], [d], []]
  {
    var t3 := [d, ' '] + [];
    var t2 := [c, ' '] + t3;
    var t1 := [b, ' '] + t2;
    SplitLetter(d, []);
    SplitLetter(c, t3);
    SplitLetter(b, t2);
    SplitLetter(a, t1);
    assert [a, ' '] + t1 == FourWords(a, b, c, d);
  }

  /** Gluing the four words back with spaces gives the text without its trailing space. */
  lemma FourWordsJoin(a: char, b: char, c: char, d: char)
    ensures Join([[a], [b], [c], [d]], ' ') == [a, ' ', b, ' ', c, ' ', d]
  {
    assert Join([[c], [d]], ' ') == [c, ' ', d] by { assert [[c], [d]][1..] == [[d]]; }
    assert Join([[b], [c], [d]], ' ') == [b, ' ', c, ' ', d] by { assert [[b], [c], [d]][1..] == [[c], [d]]; }
    assert [[a], [b], [c], [d]][1..] == [[b], [c], [d]];
  }

  /**
   * Text ending in white space keeps an empty last word, so the `&nbsp;` takes the
   * place of the trailing space instead of gluing the last two words.
   */
  lemma TrailingSpaceExample(a: char, b: char, c: char, d: char)
    requires Word(a) && Word(b) && Word(c) && Word(d)
    ensures InjectNonbreakingSpace(FourWords(a, b, c, d), Defaults, s => s) == [a, ' ', b, ' ', c, ' ', d] + NbspEntity
  {
    var words := [[a], [b], [c], [d], []];
    FourWordsNormal(a, b, c, d);
    FourWordsSplit(a, b, c, d);
    FourWordsJoin(a, b, c, d);
    assert TailLength(words, s => s) == 2;
    assert words[..4] == [[a], [b], [c], [d]];
  }

  // ---------------------------------------------------------------------------
  // isInExcludedElement, isValidCandidate, findLastTextNode
  // ---------------------------------------------------------------------------

  /** Some ancestor's lower-cased tag is excluded. `ancestors` lists element tags, outermost first. */
  predicate InExcluded(ancestors: seq<string>)
  {
    exists i :: 0 <= i < |ancestors| && Lower(ancestors[i]) in ExcludedTags
  }

  /** `isInExcludedElement`: walks from the parent outwards and stops at the first excluded tag. */
  method IsInExcludedElement(ancestors: seq<string>) returns (r: bool)
    ensures r <==> InExcluded(ancestors)
  {
    var i := |ancestors|;
    while i > 0
      invariant 0 <= i <= |ancestors|
      invariant forall j :: i <= j < |ancestors| ==> Lower(ancestors[j]) !in ExcludedTags
    {
      i := i - 1;
      if Lower(ancestors[i]) in ExcludedTags {
        return true;
      }
    }
    return false;
  }

  /** What makes text a candidate: it is not blank and no excluded element is above it. */
  predicate Candidate(content: string, ancestors: seq<string>)
  {
    !IsBlankText(content) && !InExcluded(ancestors)
  }

  /** `isValidCandidate`: a text node whose content and ancestors make it a candidate. */
  predicate IsValidCandidate(n: Node, ancestors: seq<string>)
  {
    n.TextNode? && Candidate(n.content, ancestors)
  }

  /** An acceptance test for text, given its content and the tags above it. */
  type Accept = (string, seq<string>) -> bool

  /**
   * `findLastTextNode`: the address of the first valid candidate met when walking the
   * children from last to first, each child before its own descendants.
   */
  function FindLastTextNode(n: Node, above: seq<string>): Option<seq<nat>>
  {
    FindLastWith(n, above, Candidate)
  }

  /**
   * The walk, for any acceptance test `ok` (the source's is `Candidate`), so that its
   * order can be reasoned about apart from what makes text a candidate.
   */
  function FindLastWith(n: Node, above: seq<string>, ok: Accept): Option<seq<nat>>
    decreases n, |Children(n)| + 1
  {
    FindAmong(n, |Children(n)|, Within(n, above), ok)
  }

  /** The walk over the first `k` children of `n`, whose ancestors are `tags`. */
  function FindAmong(n: Node, k: nat, tags: seq<string>, ok: Accept): Option<seq<nat>>
    requires k <= |Children(n)|
    decreases n, k
  {
    if k == 0 then None
    else
      match FindInChild(n.children[k - 1], tags, ok)
      case Some(a) => Some([k - 1] + a)
      case None => FindAmong(n, k - 1, tags, ok)
  }

  /**
   * One step of the walk: the child itself when it is an accepted text node, else the
   * search below it when it has children (the address is relative to the child).
   */
  function FindInChild(child: Node, tags: seq<string>, ok: Accept): Option<seq<nat>>
    decreases child, |Children(child)| + 2
  {
    if child.TextNode? && ok(child.content, tags) then Some([])
    else if Children(child) != [] then FindLastWith(child, tags, ok)
    else None
  }

  // The reference order: the text nodes in document order.

  /** A text node met in document order: its address, its content and the tags above it. */
  datatype Leaf = Leaf(address: seq<nat>, content: string, ancestors: seq<string>)

  /** The leaves of a subtree, as seen from its parent's child `i`. */
  function Under(i: nat, leaves: seq<Leaf>): (r: seq<Leaf>)
    ensures |r| == |leaves|
  {
    seq(|leaves|, j requires 0 <= j < |leaves| => Leaf([i] + leaves[j].address, leaves[j].content, leaves[j].ancestors))
  }

  /** The text nodes strictly below `n`, in document order. */
  function TextLeaves(n: Node, above: seq<string>): seq<Leaf>
    decreases n, |Children(n)| + 1
  {
    LeavesAmong(n, |Children(n)|, Within(n, above))
  }

  function LeavesAmong(n: Node, k: nat, tags: seq<string>): seq<Leaf>
    requires k <= |Children(n)|
    decreases n, k
  {
    if k == 0 then [] else LeavesAmong(n, k - 1, tags) + Under(k - 1, OwnLeaves(n.children[k - 1], tags))
  }

  /** The text nodes of a child's subtree, the child included, relative to the child. */
  function OwnLeaves(child: Node, tags: seq<string>): seq<Leaf>
    decreases child, |Children(child)| + 2
  {
    if child.TextNode? then [Leaf([], child.content, tags)] else TextLeaves(child, tags)
  }

  /**
   * The address of the last leaf that `ok` accepts. The lemmas below hold for any `ok`;
   * the source's walk is compared with `ok` set to `Candidate`.
   */
  function LastValid(leaves: seq<Leaf>, ok: Accept): Option<seq<nat>>
    decreases |leaves|
  {
    if leaves == [] then None
    else if Accepts(ok, leaves[|leaves| - 1]) then Some(leaves[|leaves| - 1].address)
    else LastValid(leaves[..|leaves| - 1], ok)
  }

  predicate Accepts(ok: Accept, l: Leaf)
  {
    ok(l.content, l.ancestors)
  }

  predicate NoneValid(leaves: seq<Leaf>, ok: Accept)
  {
    forall j :: 0 <= j < |leaves| ==> !Accepts(ok, leaves[j])
  }

  /** Leaf `j` is accepted and no later leaf is. */
  predicate IsLastValidAt(leaves: seq<Leaf>, ok: Accept, j: int)
  {
    0 <= j < |leaves| && Accepts(ok, leaves[j]) && forall j' :: j < j' < |leaves| ==> !Accepts(ok, leaves[j'])
  }

  /** `LastValid` finds nothing exactly when no leaf is accepted. */
  lemma {:induction false} LastValidNone(leaves: seq<Leaf>, ok: Accept)
    ensures LastValid(leaves, ok).None? <==> NoneValid(leaves, ok)
    decreases |leaves|
  {
    if leaves != [] {
      var n := |leaves|;
      var prefix := leaves[..n - 1];
      LastValidNone(prefix, ok);
      assert forall j :: 0 <= j < n - 1 ==> prefix[j] == leaves[j];
    }
  }

  /** What `LastValid` finds is the address of the last accepted leaf. */
  lemma {:induction false} LastValidSome(leaves: seq<Leaf>, ok: Accept)
    requires LastValid(leaves, ok).Some?
    ensures exists j :: IsLastValidAt(leaves, ok, j) && LastValid(leaves, ok).value == leaves[j].address
    decreases |leaves|
  {
    var n := |leaves|;
    if Accepts(ok, leaves[n - 1]) {
      assert IsLastValidAt(leaves, ok, n - 1);
    } else {
      var prefix := leaves[..n - 1];
      LastValidSome(prefix, ok);
      var j :| IsLastValidAt(prefix, ok, j) && LastValid(prefix, ok).value == prefix[j].address;
      forall j' | j < j' < n
        ensures !Accepts(ok, leaves[j'])
      {
        if j' < n - 1 {
          assert leaves[j'] == prefix[j'];
        }
      }
      assert IsLastValidAt(leaves, ok, j);
    }
  }

  lemma {:induction false} LastValidAppend(a: seq<Leaf>, b: seq<Leaf>, ok: Accept)
    ensures LastValid(a + b, ok) == if LastValid(b, ok).Some? then LastValid(b, ok) else LastValid(a, ok)
    decreases |b|
  {
    if b != [] {
      assert (a + b)[..|a + b| - 1] == a + b[..|b| - 1];
      LastValidAppend(a, b[..|b| - 1], ok);
    } else {
      assert a + b == a;
    }
  }

  lemma {:induction false} LastValidUnder(i: nat, leaves: seq<Leaf>, ok: Accept)
    ensures LastValid(Under(i, leaves), ok)
      == if LastValid(leaves, ok).Some? then Some([i] + LastValid(leaves, ok).value) else None
    decreases |leaves|
  {
    if leaves != [] {
      assert Under(i, leaves)[..|leaves| - 1] == Under(i, leaves[..|leaves| - 1]);
      LastValidUnder(i, leaves[..|leaves| - 1], ok);
    }
  }

  /**
   * The reverse walk of the source finds the LAST candidate text node in document
   * order: `findLastTextNode` agrees with the reference on every tree.
   */
  lemma FindLastIsLastLeaf(n: Node, above: seq<string>)
    ensures FindLastTextNode(n, above) == LastValid(TextLeaves(n, above), Candidate)
  {
    FindLastWithIsLastLeaf(n, above, Candidate);
  }

  lemma {:induction false} FindLastWithIsLastLeaf(n: Node, above: seq<string>, ok: Accept)
    ensures FindLastWith(n, above, ok) == LastValid(TextLeaves(n, above), ok)
    decreases n, |Children(n)| + 1
  {
    FindAmongIsLastLeaf(n, |Children(n)|, Within(n, above), ok);
  }

  lemma {:induction false} FindAmongIsLastLeaf(n: Node, k: nat, tags: seq<string>, ok: Accept)
    requires k <= |Children(n)|
    ensures FindAmong(n, k, tags, ok) == LastValid(LeavesAmong(n, k, tags), ok)
    decreases n, k
  {
    if k > 0 {
      var child := n.children[k - 1];
      var prev := LeavesAmong(n, k - 1, tags);
      var own := OwnLeaves(child, tags);
      var found := FindInChild(child, tags, ok);
      calc {
        FindAmong(n, k, tags, ok);
        if found.Some? then Some([k - 1] + found.value) else FindAmong(n, k - 1, tags, ok);
        { FindAmongIsLastLeaf(n, k - 1, tags, ok);
          FindInChildIsLastLeaf(child, tags, ok); }
        if LastValid(own, ok).Some? then Some([k - 1] + LastValid(own, ok).value) else LastValid(prev, ok);
        { LastValidStep(prev, own, k - 1, ok); }
        LastValid(prev + Under(k - 1, own), ok);
        { assert LeavesAmong(n, k, tags) == prev + Under(k - 1, own); }
        LastValid(LeavesAmong(n, k, tags), ok);
      }
    }
  }

  lemma {:induction false} FindInChildIsLastLeaf(child: Node, tags: seq<string>, ok: Accept)
    ensures FindInChild(child, tags, ok) == LastValid(OwnLeaves(child, tags), ok)
    decreases child, |Children(child)| + 2
  {
    if child.TextNode? {
      assert OwnLeaves(child, tags)[..0] == [];
    } else {
      FindLastWithIsLastLeaf(child, tags, ok);
      if Children(child) == [] {
        assert TextLeaves(child, tags) == [];
      }
    }
  }

  /** Appending a child's leaves: the child's last accepted leaf wins over the earlier ones. */
  lemma LastValidStep(prev: seq<Leaf>, own: seq<Leaf>, i: nat, ok: Accept)
    ensures LastValid(prev + Under(i, own), ok)
      == if LastValid(own, ok).Some? then Some([i] + LastValid(own, ok).value) else LastValid(prev, ok)
  {
    LastValidAppend(prev, Under(i, own), ok);
    LastValidUnder(i, own, ok);
  }

  /** Every leaf names a text node of the tree, with its content and the tags above it. */
  lemma {:induction false} LeavesAreTextNodes(n: Node, above: seq<string>)
    ensures forall l | l in TextLeaves(n, above) ::
      At(n, l.address) == Some(TextNode(l.content)) && AncestorsAt(n, above, l.address) == l.ancestors
    decreases n, |Children(n)| + 1
  {
    LeavesAmongAreTextNodes(n, |Children(n)|, above);
  }

  lemma {:induction false} LeavesAmongAreTextNodes(n: Node, k: nat, above: seq<string>)
    requires k <= |Children(n)|
    ensures forall l | l in LeavesAmong(n, k, Within(n, above)) ::
      At(n, l.address) == Some(TextNode(l.content)) && AncestorsAt(n, above, l.address) == l.ancestors
    decreases n, k
  {
    if k > 0 {
      var tags := Within(n, above);
      var child := n.children[k - 1];
      var own := OwnLeaves(child, tags);
      LeavesAmongAreTextNodes(n, k - 1, above);
      if !child.TextNode? {
        LeavesAreTextNodes(child, tags);
      }
      forall l | l in Under(k - 1, own)
        ensures At(n, l.address) == Some(TextNode(l.content)) && AncestorsAt(n, above, l.address) == l.ancestors
      {
        var j :| 0 <= j < |own| && Under(k - 1, own)[j] == l;
        assert own[j] in own;
        assert l.address[1..] == own[j].address;
      }
    }
  }

  /**
   * What `findLastTextNode` returns is a non-blank text node with no excluded element
   * above it, and no text node after it in document order is such a candidate.
   */
  lemma FindLastSound(n: Node, above: seq<string>)
    requires FindLastTextNode(n, above).Some?
    ensures var a := FindLastTextNode(n, above).value;
      IsTextAt(n, a) && IsValidCandidate(At(n, a).value, AncestorsAt(n, above, a))
    ensures exists j ::
      IsLastValidAt(TextLeaves(n, above), Candidate, j) && TextLeaves(n, above)[j].address == FindLastTextNode(n, above).value
  {
    FindLastIsLastLeaf(n, above);
    LeavesAreTextNodes(n, above);
    var leaves := TextLeaves(n, above);
    LastValidSome(leaves, Candidate);
    var j :| IsLastValidAt(leaves, Candidate, j) && FindLastTextNode(n, above).value == leaves[j].address;
    assert leaves[j] in leaves;
  }

  /** Text under an excluded element is never found. */
  lemma ExcludedNeverFound(n: Node, above: seq<string>)
    requires FindLastTextNode(n, above).Some?
    ensures forall t | t in AncestorsAt(n, above, FindLastTextNode(n, above).value) :: Lower(t) !in ExcludedTags
  {
    FindLastSound(n, above);
  }

  /** With no valid text node at all, nothing is found. */
  lemma FindLastNone(n: Node, above: seq<string>)
    requires forall l | l in TextLeaves(n, above) :: !Candidate(l.content, l.ancestors)
    ensures FindLastTextNode(n, above) == None
  {
    FindLastIsLastLeaf(n, above);
    LastValidNone(TextLeaves(n, above), Candidate);
  }

  // ---------------------------------------------------------------------------
  // run
  // ---------------------------------------------------------------------------

  predicate IsBlock(n: Node)
  {
    n.Element? && n.tag in BlockTags
  }

  /** `containsBlockElements`: a block element somewhere below `n`. */
  predicate HasBlockBelow(n: Node)
    decreases n
  {
    n.Element? && exists i :: 0 <= i < |n.children| && (IsBlock(n.children[i]) || HasBlockBelow(n.children[i]))
  }

  /** A block the source processes: a block element with no block element below it. */
  predicate IsInnermostBlock(n: Node)
  {
    IsBlock(n) && !HasBlockBelow(n)
  }

  /** What `run` does to one innermost block: rewrite its last candidate text node. */
  function AvoidInBlock(n: Node, above: seq<string>, settings: Settings, decode: string -> string): (r: Node)
    requires settings.minWordCount >= 2
    ensures Shape(r) == Shape(n)
  {
    match FindLastTextNode(n, above)
    case None => n
    case Some(a) =>
      FindLastSound(n, above);
      SetText(n, a, InjectNonbreakingSpace(At(n, a).value.content, settings, decode))
  }

  /**
   * `run` on the tree below `n` (whose ancestors are `above`): every innermost block is
   * rewritten; blocks with blocks below them and all other elements are only descended
   * into. Innermost blocks never overlap, so the order the source visits them in does
   * not matter.
   */
  function Run(n: Node, above: seq<string>, settings: Settings, decode: string -> string): (r: Node)
    requires settings.minWordCount >= 2
    ensures Shape(r) == Shape(n)
    decreases n
  {
    if IsInnermostBlock(n) then AvoidInBlock(n, above, settings, decode)
    else if n.Element? then
      var children := seq(|n.children|, i requires 0 <= i < |n.children| => Run(n.children[i], above + [n.tag], settings, decode));
      var r := Element(n.tag, children);
      assert Shape(r).children == Shape(n).children;
      r
    else n
  }

  /** In an innermost block only the last candidate changes, and it gets the injected text. */
  lemma InnermostBlockRewritten(n: Node, above: seq<string>, settings: Settings, decode: string -> string, other: seq<nat>)
    requires settings.minWordCount >= 2 && IsInnermostBlock(n)
    requires FindLastTextNode(n, above).Some?
    requires IsTextAt(n, other) && other != FindLastTextNode(n, above).value
    ensures var a := FindLastTextNode(n, above).value;
      var r := Run(n, above, settings, decode);
      IsTextAt(n, a)
      && At(r, a) == Some(TextNode(InjectNonbreakingSpace(At(n, a).value.content, settings, decode)))
      && At(r, other) == At(n, other)
  {
    var a := FindLastTextNode(n, above).value;
    FindLastSound(n, above);
    SetTextElsewhere(n, a, other, InjectNonbreakingSpace(At(n, a).value.content, settings, decode));
  }

  /** A block with another block below it is skipped: its own text children stay as they are. */
  lemma OuterBlockKeepsOwnText(n: Node, above: seq<string>, settings: Settings, decode: string -> string, i: nat)
    requires settings.minWordCount >= 2 && IsBlock(n) && HasBlockBelow(n)
    requires i < |n.children| && n.children[i].TextNode?
    ensures Run(n, above, settings, decode).children[i] == n.children[i]
  {
  }

  /** A tree without any block element is left unchanged. */
  lemma {:induction false} NoBlockUnchanged(n: Node, above: seq<string>, settings: Settings, decode: string -> string)
    requires settings.minWordCount >= 2 && !IsBlock(n) && !HasBlockBelow(n)
    ensures Run(n, above, settings, decode) == n
    decreases n
  {
    if n.Element? {
      forall i | 0 <= i < |n.children|
        ensures Run(n.children[i], above + [n.tag], settings, decode) == n.children[i]
      {
        NoBlockUnchanged(n.children[i], above + [n.tag], settings, decode);
      }
      assert Run(n, above, settings, decode).children == n.children;
    }
  }

  /** A block element at a non-empty address lies below `n`. */
  lemma {:induction false} BlockBelowAt(n: Node, a: seq<nat>)
    requires a != [] && At(n, a).Some? && IsBlock(At(n, a).value)
    ensures HasBlockBelow(n)
    decreases |a|
  {
    var i := a[0];
    var child := Children(n)[i];
    if a[1..] != [] {
      BlockBelowAt(child, a[1..]);
    }
    assert IsBlock(n.children[i]) || HasBlockBelow(n.children[i]);
  }

  /**
   * Every innermost block anywhere in the document, not only at its root, is rewritten
   * as `run` rewrites one block, with the tags above it as its ancestors.
   */
  lemma {:induction false} RunAtInnermost(n: Node, above: seq<string>, settings: Settings, decode: string -> string, a: seq<nat>)
    requires settings.minWordCount >= 2
    requires At(n, a).Some? && IsInnermostBlock(At(n, a).value)
    ensures At(Run(n, above, settings, decode), a) == Some(AvoidInBlock(At(n, a).value, AncestorsAt(n, above, a), settings, decode))
    decreases |a|
  {
    if a != [] {
      BlockBelowAt(n, a);
      var i := a[0];
      assert Run(n, above, settings, decode).children[i] == Run(n.children[i], above + [n.tag], settings, decode);
      RunAtInnermost(n.children[i], above + [n.tag], settings, decode, a[1..]);
    }
  }

  /** The node at `a + b` is the node at `b` below the node at `a`. */
  lemma {:induction false} AtConcat(n: Node, a: seq<nat>, b: seq<nat>)
    requires At(n, a).Some?
    ensures At(n, a + b) == At(At(n, a).value, b)
    decreases |a|
  {
    if a != [] {
      assert a[0] < |Children(n)|;
      assert (a + b)[0] == a[0] && (a + b)[1..] == a[1..] + b;
      assert At(n, a + b) == At(Children(n)[a[0]], a[1..] + b);
      AtConcat(Children(n)[a[0]], a[1..], b);
    } else {
      assert a + b == b;
    }
  }

  /**
   * In a document, the last candidate text node of each innermost block gets the
   * injected text.
   */
  lemma RunGluesInnermost(n: Node, above: seq<string>, settings: Settings, decode: string -> string, a: seq<nat>)
    requires settings.minWordCount >= 2
    requires At(n, a).Some? && IsInnermostBlock(At(n, a).value)
    requires FindLastTextNode(At(n, a).value, AncestorsAt(n, above, a)).Some?
    ensures var t := a + FindLastTextNode(At(n, a).value, AncestorsAt(n, above, a)).value;
      IsTextAt(n, t)
      && At(Run(n, above, settings, decode), t) == Some(TextNode(InjectNonbreakingSpace(At(n, t).value.content, settings, decode)))
  {
    var block, tags := At(n, a).value, AncestorsAt(n, above, a);
    var f := FindLastTextNode(block, tags).value;
    FindLastSound(block, tags);
    RunAtInnermost(n, above, settings, decode, a);
    AtConcat(n, a, f);
    AtConcat(Run(n, above, settings, decode), a, f);
  }

  /** No innermost block on the path from `n` down to the node at `a`, both ends included. */
  predicate OutsideInnermost(n: Node, a: seq<nat>)
    decreases |a|
  {
    !IsInnermostBlock(n) && (a == [] || a[0] >= |Children(n)| || OutsideInnermost(Children(n)[a[0]], a[1..]))
  }

  /**
   * A text node with no innermost block above it is left unchanged, inline elements
   * and blocks with blocks below them included.
   */
  lemma {:induction false} RunOutsideInnermost(n: Node, above: seq<string>, settings: Settings, decode: string -> string, a: seq<nat>)
    requires settings.minWordCount >= 2
    requires IsTextAt(n, a) && OutsideInnermost(n, a)
    ensures At(Run(n, above, settings, decode), a) == At(n, a)
    decreases |a|
  {
    if a != [] {
      var i := a[0];
      assert Run(n, above, settings, decode).children[i] == Run(n.children[i], above + [n.tag], settings, decode);
      RunOutsideInnermost(n.children[i], above + [n.tag], settings, decode, a[1..]);
    }
  }
}
