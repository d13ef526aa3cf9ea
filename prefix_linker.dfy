/**
 * `PrefixLinker` (src/Internal/Service/DOM/PrefixLinker.php): turns a registered prefix
 * such as `@` at the start of a word into a link, the rest of the word appended both
 * to the registered URL and to the link text.
 */
module PrefixLinkers {
  import opened Wrappers
  import opened Text
  import opened Dom

  /** One registration: the prefix and its normalised URL. */
  datatype Entry = Entry(prefix: string, url: string)

  /** The priority the service reports to the queue. */
  const Prio: int := 0

  // ---------------------------------------------------------------------------
  // normalizeURL
  // ---------------------------------------------------------------------------

  /** `parse_url` reports a query: a `?` comes before any `#`. */
  predicate HasQuery(u: string)
    decreases |u|
  {
    u != [] && u[0] != '#' && (u[0] == '?' || HasQuery(u[1..]))
  }

  /** Characters other than `?` and `#` at the end do not change whether there is a query. */
  lemma {:induction false} HasQueryAppend(u: string, c: char)
    requires c != '?' && c != '#'
    ensures HasQuery(u + [c]) == HasQuery(u)
    decreases |u|
  {
    if u != [] {
      assert (u + [c])[1..] == u[1..] + [c];
      HasQueryAppend(u[1..], c);
    }
  }

  /**
   * `normalizeURL`: the trimmed URL, with `/` appended unless it has a query or already
   * ends in `/` or `@`.
   */
  function NormalizeUrl(url: string): (r: string)
    ensures r == Trim(url) || r == Trim(url) + "/"
    ensures EndsWith(r, "/") || EndsWith(r, "@") || HasQuery(r)
    ensures r == Trim(url) <==> (HasQuery(Trim(url)) || EndsWith(Trim(url), "/") || EndsWith(Trim(url), "@"))
  {
    var u := Trim(url);
    if !HasQuery(u) && !EndsWith(u, "/") && !EndsWith(u, "@") then u + "/" else u
  }

  /** A string whose ends `trim` keeps is its own trim. */
  lemma TrimKeeps(s: string)
    requires s == [] || (!IsTrimmed(s[0]) && !IsTrimmed(s[|s| - 1]))
    ensures Trim(s) == s
  {
  }

  /** The result of `trim` has ends `trim` keeps. */
  lemma TrimmedEnds(s: string)
    ensures Trim(s) == [] || (!IsTrimmed(Trim(s)[0]) && !IsTrimmed(Trim(s)[|Trim(s)| - 1]))
  {
    var left := TrimLeft(s);
    var both := TrimRight(left);
    if both != [] {
      assert both[0] == left[0];
    }
  }

  /** Normalising a normalised URL changes nothing. */
  lemma NormalizeIdempotent(url: string)
    ensures NormalizeUrl(NormalizeUrl(url)) == NormalizeUrl(url)
  {
    var u := Trim(url);
    var r := NormalizeUrl(url);
    TrimmedEnds(url);
    TrimKeeps(u);
    if r == u + "/" {
      assert !IsTrimmed(r[|r| - 1]);
      if u != [] {
        assert r[0] == u[0];
      }
      TrimKeeps(r);
      assert EndsWith(r, "/");
    }
  }

  // ---------------------------------------------------------------------------
  // register
  // ---------------------------------------------------------------------------

  /** The registered prefixes, in iteration order. */
  function Prefixes(entries: seq<Entry>): seq<string>
    decreases |entries|
  {
    if entries == [] then [] else [entries[0].prefix] + Prefixes(entries[1..])
  }

  /** The URL registered for a prefix, if any. */
  function UrlOf(entries: seq<Entry>, prefix: string): (r: Option<string>)
    ensures r.None? <==> prefix !in Prefixes(entries)
    decreases |entries|
  {
    if entries == [] then None
    else if entries[0].prefix == prefix then Some(entries[0].url)
    else UrlOf(entries[1..], prefix)
  }

  /**
   * `$entries[$prefix] = ...`: a prefix already present keeps its place and takes the new
   * URL; a new prefix goes last.
   */
  function Registered(entries: seq<Entry>, entry: Entry): (r: seq<Entry>)
    ensures Prefixes(r) == if entry.prefix in Prefixes(entries) then Prefixes(entries) else Prefixes(entries) + [entry.prefix]
    decreases |entries|
  {
    if entries == [] then [entry]
    else if entries[0].prefix == entry.prefix then [entry] + entries[1..]
    else
      var r := [entries[0]] + Registered(entries[1..], entry);
      assert r[1..] == Registered(entries[1..], entry);
      r
  }

  /** After registering, the prefix maps to the new URL, every other prefix as before. */
  lemma {:induction false} RegisterUrl(entries: seq<Entry>, entry: Entry, other: string)
    ensures UrlOf(Registered(entries, entry), other) == if other == entry.prefix then Some(entry.url) else UrlOf(entries, other)
    decreases |entries|
  {
    if entries != [] && entries[0].prefix != entry.prefix {
      var r := Registered(entries, entry);
      assert r[1..] == Registered(entries[1..], entry);
      RegisterUrl(entries[1..], entry, other);
    }
  }

  // ---------------------------------------------------------------------------
  // link
  // ---------------------------------------------------------------------------

  /** The lookbehind `(?<=^|\s)`: position `i` starts the text or follows white space. */
  predicate AtBoundary(text: string, i: int)
  {
    i == 0 || (0 < i <= |text| && IsSpace(text[i - 1]))
  }

  /**
   * The lazy `(.*?)` followed by the lookahead `(?=\s|$)`: the first position from `j` on
   * that holds white space, or the end.
   */
  function WordEnd(text: string, j: nat): (k: nat)
    requires j <= |text|
    ensures j <= k <= |text|
    ensures k == |text| || IsSpace(text[k])
    ensures forall m :: j <= m < k ==> !IsSpace(text[m])
    decreases |text| - j
  {
    if j == |text| || IsSpace(text[j]) then j else WordEnd(text, j + 1)
  }

  /** The replacement the callback builds for one match. */
  function Anchor(url: string, prefix: string, rest: string): string
  {
    "<a href=\"" + url + rest + "\">" + prefix + rest + "</a>"
  }

  /**
   * `preg_replace_callback` with `(?<=^|\s)PREFIX(.*?)(?=\s|$)` from position `i` on:
   * a match is replaced by its anchor and the search goes on after it; any other
   * character is copied.
   */
  function Scan(text: string, prefix: string, url: string, i: nat): string
    requires prefix != [] && i <= |text|
    decreases |text| - i
  {
    if i == |text| then []
    else if AtBoundary(text, i) && OccursAt(text, prefix, i) then
      var j := WordEnd(text, i + |prefix|);
      Anchor(url, prefix, text[i + |prefix|..j]) + Scan(text, prefix, url, j)
    else [text[i]] + Scan(text, prefix, url, i + 1)
  }

  /**
   * `link`, as the source evidently intends it: text without the prefix comes back as it
   * is; otherwise every match is replaced.
   */
  function Link(text: string, prefix: string, url: string): string
    requires prefix != []
  {
    if !Contains(text, prefix) then text else Scan(text, prefix, url, 0)
  }

  /**
   * `link` as written: `preg_quote` is called without the `/` delimiter, so a prefix
   * holding `/` ends the pattern early, the pattern does not compile,
   * `preg_replace_callback` returns null and the text comes back unchanged.
   */
  function LinkAsWritten(text: string, prefix: string, url: string): string
    requires prefix != []
  {
    if !Contains(text, prefix) then text
    else if '/' in prefix then text
    else Scan(text, prefix, url, 0)
  }

  /** With no occurrence of the prefix from `i` on, scanning copies the text. */
  lemma {:induction false} ScanCopies(text: string, prefix: string, url: string, i: nat)
    requires prefix != [] && i <= |text|
    requires forall k :: i <= k <= |text| - |prefix| ==> !OccursAt(text, prefix, k)
    ensures Scan(text, prefix, url, i) == text[i..]
    decreases |text| - i
  {
    if i < |text| {
      ScanCopies(text, prefix, url, i + 1);
      assert text[i..] == [text[i]] + text[i + 1..];
    }
  }

  /** The `str_contains` test is only a shortcut: `link` is the scan on every text. */
  lemma LinkIsScan(text: string, prefix: string, url: string)
    requires prefix != []
    ensures Link(text, prefix, url) == Scan(text, prefix, url, 0)
  {
    if !Contains(text, prefix) {
      ScanCopies(text, prefix, url, 0);
    }
  }

  /** One word, linked on its own: a word starting with the prefix becomes its anchor. */
  function LinkWord(w: string, prefix: string, url: string): string
  {
    if StartsWith(w, prefix) then Anchor(url, prefix, w[|prefix|..]) else w
  }

  function LinkWords(words: seq<string>, prefix: string, url: string): (r: seq<string>)
    ensures |r| == |words|
    decreases |words|
  {
    if words == [] then [] else [LinkWord(words[0], prefix, url)] + LinkWords(words[1..], prefix, url)
  }

  /** No white space in `s`. */
  predicate Solid(s: string)
  {
    forall k :: 0 <= k < |s| ==> !IsSpace(s[k])
  }

  /** Inside a word, positions after the first are no boundary, so the rest is copied. */
  lemma {:induction false} ScanInsideWord(text: string, prefix: string, url: string, k: nat, j: nat)
    requires prefix != [] && 0 < k <= j <= |text|
    requires forall m :: k - 1 <= m < j ==> !IsSpace(text[m])
    ensures Scan(text, prefix, url, k) == text[k..j] + Scan(text, prefix, url, j)
    decreases j - k
  {
    if k < j {
      assert !AtBoundary(text, k);
      assert Scan(text, prefix, url, k) == [text[k]] + Scan(text, prefix, url, k + 1);
      ScanInsideWord(text, prefix, url, k + 1, j);
      assert text[k..j] == [text[k]] + text[k + 1..j];
    }
  }

  /** Scanning a word at a boundary links that word and goes on at its end. */
  lemma ScanWord(text: string, prefix: string, url: string, i: nat)
    requires prefix != [] && Solid(prefix) && i <= |text| && AtBoundary(text, i)
    ensures Scan(text, prefix, url, i) == LinkWord(text[i..WordEnd(text, i)], prefix, url) + Scan(text, prefix, url, WordEnd(text, i))
  {
    var w := text[i..WordEnd(text, i)];
    if OccursAt(text, prefix, i) {
      ScanWordMatch(text, prefix, url, i);
      assert LinkWord(w, prefix, url) == Anchor(url, prefix, w[|prefix|..]);
    } else {
      ScanWordCopy(text, prefix, url, i);
      assert LinkWord(w, prefix, url) == w;
    }
  }

  /** A word starting with the prefix is replaced by its anchor. */
  lemma ScanWordMatch(text: string, prefix: string, url: string, i: nat)
    requires prefix != [] && Solid(prefix) && i <= |text| && AtBoundary(text, i) && OccursAt(text, prefix, i)
    ensures StartsWith(text[i..WordEnd(text, i)], prefix)
    ensures text[i..WordEnd(text, i)][|prefix|..] == text[i + |prefix|..WordEnd(text, i)]
    ensures Scan(text, prefix, url, i) == Anchor(url, prefix, text[i + |prefix|..WordEnd(text, i)]) + Scan(text, prefix, url, WordEnd(text, i))
  {
    var j := WordEnd(text, i);
    assert forall m :: i <= m < i + |prefix| ==> text[m] == prefix[m - i];
    assert WordEnd(text, i + |prefix|) == j by {
      var j' := WordEnd(text, i + |prefix|);
      assert j <= j';
    }
  }

  /** A word not starting with the prefix is copied. */
  lemma ScanWordCopy(text: string, prefix: string, url: string, i: nat)
    requires prefix != [] && i <= |text| && !OccursAt(text, prefix, i)
    ensures !StartsWith(text[i..WordEnd(text, i)], prefix)
    ensures Scan(text, prefix, url, i) == text[i..WordEnd(text, i)] + Scan(text, prefix, url, WordEnd(text, i))
  {
    var j := WordEnd(text, i);
    var w := text[i..j];
    if i < j {
      var tail := Scan(text, prefix, url, j);
      assert Scan(text, prefix, url, i) == [text[i]] + Scan(text, prefix, url, i + 1);
      ScanInsideWord(text, prefix, url, i + 1, j);
      assert w == [text[i]] + text[i + 1..j];
      assert [text[i]] + (text[i + 1..j] + tail) == w + tail;
    } else {
      assert w == [];
    }
  }

  /**
   * From a boundary on, the scan is the words linked one by one and joined by spaces
   * again, for text whose only white space is the plain space.
   */
  lemma {:induction false} ScanByWords(text: string, prefix: string, url: string, i: nat)
    requires prefix != [] && Solid(prefix) && i <= |text| && AtBoundary(text, i)
    requires forall k :: 0 <= k < |text| && IsSpace(text[k]) ==> text[k] == ' '
    ensures Scan(text, prefix, url, i) == Join(LinkWords(Split(text[i..], ' '), prefix, url), ' ')
    decreases |text| - i
  {
    var j := WordEnd(text, i);
    if j == |text| {
      ScanLastWord(text, prefix, url, i);
    } else {
      assert text[j] == ' ';
      ScanByWords(text, prefix, url, j + 1);
      ScanNextWord(text, prefix, url, i);
    }
  }

  /** The characters of a word are no spaces. */
  lemma WordHasNoSpace(text: string, i: nat)
    requires i <= |text|
    ensures ' ' !in text[i..WordEnd(text, i)]
  {
    var w := text[i..WordEnd(text, i)];
    forall m | 0 <= m < |w| ensures w[m] != ' ' { assert w[m] == text[i + m]; }
  }

  /** The last word of the text. */
  lemma ScanLastWord(text: string, prefix: string, url: string, i: nat)
    requires prefix != [] && Solid(prefix) && i <= |text| && AtBoundary(text, i) && WordEnd(text, i) == |text|
    ensures Scan(text, prefix, url, i) == Join(LinkWords(Split(text[i..], ' '), prefix, url), ' ')
  {
    var w := text[i..];
    assert text[i..WordEnd(text, i)] == w;
    ScanWord(text, prefix, url, i);
    assert Scan(text, prefix, url, |text|) == [];
    WordHasNoSpace(text, i);
    SplitNone(w, ' ');
    assert LinkWords([w], prefix, url) == [LinkWord(w, prefix, url)];
  }

  /** A word followed by a space: link it, copy the space, go on with what follows. */
  lemma ScanNextWord(text: string, prefix: string, url: string, i: nat)
    requires prefix != [] && Solid(prefix) && i <= |text| && AtBoundary(text, i)
    requires WordEnd(text, i) < |text| && text[WordEnd(text, i)] == ' '
    requires Scan(text, prefix, url, WordEnd(text, i) + 1)
      == Join(LinkWords(Split(text[WordEnd(text, i) + 1..], ' '), prefix, url), ' ')
    ensures Scan(text, prefix, url, i) == Join(LinkWords(Split(text[i..], ' '), prefix, url), ' ')
  {
    var j := WordEnd(text, i);
    var w := text[i..j];
    ScanWord(text, prefix, url, i);
    ScanAtSpace(text, prefix, url, j);
    var rest := Split(text[j + 1..], ' ');
    assert Split(text[i..], ' ') == [w] + rest by {
      WordHasNoSpace(text, i);
      SliceAt(text, i, j);
      SplitWord(w, text[j + 1..], ' ');
    }
    LinkWordsCons(w, rest, prefix, url);
    var head, linked := LinkWord(w, prefix, url), LinkWords(rest, prefix, url);
    JoinCons(head, linked, ' ');
    var tail := Scan(text, prefix, url, j + 1);
    assert Scan(text, prefix, url, i) == head + ([' '] + tail);
    Associative(head, [' '], tail);
    assert tail == Join(linked, ' ');
    assert LinkWords(Split(text[i..], ' '), prefix, url) == [head] + linked;
  }

  /** At a space the scan copies it: no prefix without white space starts there. */
  lemma ScanAtSpace(text: string, prefix: string, url: string, j: nat)
    requires prefix != [] && Solid(prefix) && j < |text| && text[j] == ' '
    ensures Scan(text, prefix, url, j) == [' '] + Scan(text, prefix, url, j + 1)
  {
    assert text[j] != prefix[0];
  }

  lemma Associative(a: string, b: string, c: string)
    ensures a + (b + c) == a + b + c
  {
  }

  /** A suffix split at one of its positions. */
  lemma SliceAt(text: string, i: nat, j: nat)
    requires i <= j < |text|
    ensures text[i..] == text[i..j] + [text[j]] + text[j + 1..]
  {
  }

  lemma LinkWordsCons(w: string, rest: seq<string>, prefix: string, url: string)
    ensures LinkWords([w] + rest, prefix, url) == [LinkWord(w, prefix, url)] + LinkWords(rest, prefix, url)
  {
    assert ([w] + rest)[1..] == rest;
  }

  /**
   * The reference reading of `link`: split at spaces, replace each word that starts
   * with the prefix by its anchor, join again. Occurrences inside a word stay as they are.
   */
  lemma LinkByWords(text: string, prefix: string, url: string)
    requires prefix != [] && Solid(prefix)
    requires forall k :: 0 <= k < |text| && IsSpace(text[k]) ==> text[k] == ' '
    ensures Link(text, prefix, url) == Join(LinkWords(Split(text, ' '), prefix, url), ' ')
  {
    LinkIsScan(text, prefix, url);
    ScanByWords(text, prefix, url, 0);
    assert text[0..] == text;
  }

  /** A single word made of the prefix and a rest becomes the anchor for that rest. */
  lemma LinkOneWord(prefix: string, rest: string, url: string)
    requires prefix != [] && Solid(prefix + rest)
    ensures Link(prefix + rest, prefix, url) == Anchor(url, prefix, rest)
  {
    var text := prefix + rest;
    assert Solid(prefix) by {
      forall k | 0 <= k < |prefix| ensures !IsSpace(prefix[k]) { assert prefix[k] == text[k]; }
    }
    LinkByWords(text, prefix, url);
    assert ' ' !in text by {
      forall k | 0 <= k < |text| ensures text[k] != ' ' { assert !IsSpace(text[k]); }
    }
    SplitNone(text, ' ');
    assert text[..|prefix|] == prefix && text[|prefix|..] == rest;
  }

  /**
   * With a `/` in the prefix the code as written leaves such a word unchanged, where
   * the intended reading links it.
   */
  lemma SlashPrefixNotLinked(prefix: string, rest: string, url: string)
    requires prefix != [] && '/' in prefix && Solid(prefix + rest)
    ensures LinkAsWritten(prefix + rest, prefix, url) == prefix + rest
    ensures Link(prefix + rest, prefix, url) == Anchor(url, prefix, rest)
    ensures LinkAsWritten(prefix + rest, prefix, url) != Link(prefix + rest, prefix, url)
  {
    LinkOneWord(prefix, rest, url);
    var a := Anchor(url, prefix, rest);
    assert a[0] == '<';
    assert (prefix + rest)[0] == prefix[0];
    if prefix[0] == '<' {
      assert |a| > |prefix + rest|;
    }
  }

  // ---------------------------------------------------------------------------
  // run
  // ---------------------------------------------------------------------------

  /** Every registered prefix applied in turn, in registration order. */
  function LinkAll(entries: seq<Entry>, text: string): string
    requires forall k :: 0 <= k < |entries| ==> entries[k].prefix != []
    decreases |entries|
  {
    if entries == [] then text
    else Link(LinkAll(entries[..|entries| - 1], text), entries[|entries| - 1].prefix, entries[|entries| - 1].url)
  }

  /**
   * The text nodes rewritten by `run`: every text node not inside an `<a>` element
   * gets all registered prefixes linked.
   */
  function LinkTree(n: Node, entries: seq<Entry>, above: seq<string>): (r: Node)
    requires forall k :: 0 <= k < |entries| ==> entries[k].prefix != []
    ensures Shape(r) == Shape(n)
    decreases n
  {
    match n
    case TextNode(content) => if "a" in above then n else TextNode(LinkAll(entries, content))
    case Element(tag, children) =>
      var r := Element(tag, seq(|children|, i requires 0 <= i < |children| => LinkTree(children[i], entries, above + [tag])));
      assert Shape(r).children == Shape(n).children;
      r
    case OtherNode => n
  }

  /** Each text node of the result: unchanged under `<a>`, otherwise linked. */
  lemma {:induction false} LinkTreeAt(n: Node, entries: seq<Entry>, above: seq<string>, address: seq<nat>)
    requires forall k :: 0 <= k < |entries| ==> entries[k].prefix != []
    requires IsTextAt(n, address)
    ensures IsTextAt(LinkTree(n, entries, above), address)
    ensures var content := At(n, address).value.content;
      At(LinkTree(n, entries, above), address).value.content
        == if "a" in AncestorsAt(n, above, address) then content else LinkAll(entries, content)
    decreases |address|
  {
    if address != [] {
      var i := address[0];
      assert LinkTree(n, entries, above).children[i] == LinkTree(n.children[i], entries, above + [n.tag]);
      LinkTreeAt(n.children[i], entries, above + [n.tag], address[1..]);
    }
  }

  class PrefixLinker {
    /** `$entries`, in iteration order. */
    var entries: seq<Entry>

    /** Every prefix is non-empty. */
    predicate Valid()
      reads this
    {
      forall k :: 0 <= k < |entries| ==> entries[k].prefix != []
    }

    constructor ()
      ensures Valid() && entries == []
    {
      entries := [];
    }

    /** `register`: the prefix now maps to the normalised URL, every other as before. */
    method Register(prefix: string, url: string)
      requires Valid() && prefix != []
      modifies this
      ensures Valid()
      ensures entries == Registered(old(entries), Entry(prefix, NormalizeUrl(url)))
      ensures Prefixes(entries) == if prefix in Prefixes(old(entries)) then Prefixes(old(entries)) else Prefixes(old(entries)) + [prefix]
      ensures forall other :: UrlOf(entries, other) == if other == prefix then Some(NormalizeUrl(url)) else UrlOf(old(entries), other)
    {
      var before := entries;
      var entry := Entry(prefix, NormalizeUrl(url));
      entries := Registered(before, entry);
      RegisterNonEmpty(before, entry);
      forall other ensures UrlOf(entries, other) == if other == prefix then Some(NormalizeUrl(url)) else UrlOf(before, other) {
        RegisterUrl(before, entry, other);
      }
    }

    /** The inner loop of `run`: every entry, in order, links the text of one node. */
    method LinkText(text: string) returns (r: string)
      requires Valid()
      ensures r == LinkAll(entries, text)
    {
      r := text;
      var k := 0;
      while k < |entries|
        invariant 0 <= k <= |entries|
        invariant r == LinkAll(entries[..k], text)
      {
        assert entries[..k + 1][..k] == entries[..k];
        r := Link(r, entries[k].prefix, entries[k].url);
        k := k + 1;
      }
      assert entries[..k] == entries;
    }

    /**
     * `run`: the document keeps its shape; text inside an `<a>` stays, every other
     * text node is linked.
     */
    method Run(document: Node) returns (r: Node)
      requires Valid()
      ensures Shape(r) == Shape(document)
      ensures forall address :: IsTextAt(document, address) ==>
        (IsTextAt(r, address) && At(r, address).value.content == (var content := At(document, address).value.content;
          if "a" in AncestorsAt(document, [], address) then content else LinkAll(entries, content)))
    {
      r := LinkTree(document, entries, []);
      forall address | IsTextAt(document, address)
        ensures IsTextAt(r, address) && At(r, address).value.content == (var content := At(document, address).value.content;
          if "a" in AncestorsAt(document, [], address) then content else LinkAll(entries, content))
      {
        LinkTreeAt(document, entries, [], address);
      }
    }
  }

  /** Registering a non-empty prefix keeps every prefix non-empty. */
  lemma {:induction false} RegisterNonEmpty(entries: seq<Entry>, entry: Entry)
    requires forall k :: 0 <= k < |entries| ==> entries[k].prefix != []
    requires entry.prefix != []
    ensures forall k :: 0 <= k < |Registered(entries, entry)| ==> Registered(entries, entry)[k].prefix != []
    decreases |entries|
  {
    if entries != [] && entries[0].prefix != entry.prefix {
      RegisterNonEmpty(entries[1..], entry);
      var r := Registered(entries, entry);
      assert r[1..] == Registered(entries[1..], entry);
      forall k | 0 <= k < |r| ensures r[k].prefix != [] {
        if k > 0 { assert r[k] == r[1..][k - 1]; }
      }
    }
  }
}
