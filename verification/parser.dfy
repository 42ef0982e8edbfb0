/**
 * `DocParser`: locate the main content of a page, remove noise from the
 * document, render the content node as markdown-like text, and refuse
 * renderings too short to be useful.
 */
module Parser {
  import opened Wrappers
  import opened Strings
  import opened Html

  /** What `clean_html` removes, in the order it removes it. */
  const NoiseSelectors: seq<Selector> := [
    TagIs("nav"), TagIs("footer"), TagIs("aside"),
    TagIs("script"), TagIs("style"), TagIs("noscript"),
    AttrContains("class", "sidebar"), AttrContains("id", "sidebar"),
    AttrContains("class", "advert"), AttrContains("class", "ad-"),
    HasClass("sp-wrapper"), AttrContains("class", "sandpack")
  ]

  /** What `find_content` tries, in priority order. */
  const ContentSelectors: seq<Selector> := [
    TagIs("main"), TagIs("article"), AttrIs("role", "main"),
    HasClass("content"), AttrIs("id", "content"), HasClass("main-content"),
    HasClass("post-content"), HasClass("entry-content"),
    HasClass("markdown-body"), HasClass("prose"), HasClass("mdx-content"),
    TagWithAttr("div", "data-page"), AttrContains("class", "content")
  ]

  /** A `div` must hold more text than this to be chosen by the fallback. */
  const MinDivText := 200
  /** A rendering must be longer than this to be returned by `parse`. */
  const MinContentLength := 50
  const NoContent := "No content found"
  /** The tag selectolax reports for the document node, the parent of the root. */
  const DocumentTag := "#document"
  const Div := TagIs("div")

  /** The document `HTMLParser(html)` builds; `clean_html` edits it in place.
      `root` is `None` once the root element itself has been removed. */
  class Document {
    var root: Option<Node>

    constructor (root: Node)
      ensures this.root == Some(root)
    {
      this.root := Some(root);
    }
  }

  // ---------------------------------------------------------------------
  // clean_html
  // ---------------------------------------------------------------------

  /** The document once every subtree matching one of `sels` is gone:
      nothing at all when the root element matches one. */
  function CleanedBy(root: Node, sels: seq<Selector>): Option<Node> {
    if MatchesAny(sels, root) then None else Some(Prune(root, sels))
  }

  function Cleaned(root: Node): Option<Node> {
    CleanedBy(root, NoiseSelectors)
  }

  /** Removes, selector after selector, every subtree that matches it, the
      root element included. The matches of one selector are removed in one
      step. */
  method CleanHtml(tree: Document)
    modifies tree
    ensures old(tree.root).None? ==> tree.root.None?
    ensures old(tree.root).Some? ==> tree.root == Cleaned(old(tree.root).value)
  {
    ghost var original := tree.root;
    if original.Some? {
      PruneNothing(original.value);
    }
    for i := 0 to |NoiseSelectors|
      invariant original.None? ==> tree.root.None?
      invariant original.Some? ==> tree.root == CleanedBy(original.value, NoiseSelectors[..i])
    {
      var sel := NoiseSelectors[i];
      if original.Some? {
        CleanOneMore(original.value, NoiseSelectors[..i], sel);
        assert NoiseSelectors[..i] + [sel] == NoiseSelectors[..i + 1];
      }
      if tree.root.Some? {
        if Matches(sel, tree.root.value) {
          tree.root := None;
        } else {
          tree.root := Some(Prune(tree.root.value, [sel]));
        }
      }
    }
    assert NoiseSelectors[..|NoiseSelectors|] == NoiseSelectors;
  }

  /** One more selector: the root goes when it matches, otherwise its
      matching subtrees go. */
  lemma CleanOneMore(root: Node, sels: seq<Selector>, sel: Selector)
    ensures CleanedBy(root, sels + [sel]) ==
      match CleanedBy(root, sels)
      case None => None
      case Some(r) => if Matches(sel, r) then None else Some(Prune(r, [sel]))
  {
    MatchesAnySnoc(sels, sel, root);
    PruneKeepsMatching(root, sels, sel);
    PruneThenPrune(root, sels, sel);
  }

  /** After cleaning, no node of the document, the root included, matches a
      noise selector. */
  lemma CleanedHasNoNoise(root: Node, q: Path)
    requires Cleaned(root).Some? && ValidPath(Cleaned(root).value, q)
    ensures !MatchesAny(NoiseSelectors, At(Cleaned(root).value, q))
  {
    if q == [] {
      forall i | 0 <= i < |NoiseSelectors|
        ensures !Matches(NoiseSelectors[i], Prune(root, NoiseSelectors))
      {
        PruneKeepsMatching(root, NoiseSelectors, NoiseSelectors[i]);
      }
    } else {
      PrunedHasNoNoise(root, NoiseSelectors, q);
    }
  }

  /** The node at `p` is still part of the cleaned document: neither it nor
      any of its ancestors, the root included, matches a noise selector. */
  predicate Attached(root: Node, p: Path)
    requires ValidPath(root, p)
  {
    !MatchesAny(NoiseSelectors, root) && Survives(root, p, NoiseSelectors)
  }

  /** Cleaning removes only matched subtrees: a node with no match on its
      path is still there, with only the noise below it removed. */
  lemma CleanKeepsNode(root: Node, p: Path)
    requires ValidPath(root, p) && Attached(root, p)
    ensures Cleaned(root).Some?
    ensures var c, p' := Cleaned(root).value, Relocate(root, p, NoiseSelectors);
      ValidPath(c, p') && At(c, p') == Prune(At(root, p), NoiseSelectors)
  {
    RelocateFindsPruned(root, p, NoiseSelectors, DocumentTag);
  }

  /** Two nodes that cleaning keeps stay in their document order. */
  lemma CleanKeepsOrder(root: Node, p: Path, q: Path)
    requires ValidPath(root, p) && Attached(root, p)
    requires ValidPath(root, q) && Attached(root, q)
    requires Before(p, q)
    ensures Cleaned(root).Some?
    ensures Before(Relocate(root, p, NoiseSelectors), Relocate(root, q, NoiseSelectors))
  {
    RelocateKeepsOrder(root, p, q, NoiseSelectors);
  }

  // ---------------------------------------------------------------------
  // find_content
  // ---------------------------------------------------------------------

  /** The first match, in document order, of the first selector of `sels`
      that matches anything. */
  function FirstSelectorMatch(root: Node, sels: seq<Selector>): (r: Option<Path>)
    ensures r.Some? ==> ValidPath(root, r.value)
  {
    if sels == [] then None
    else
      CssFirstIsEarliest(root, sels[0]);
      match CssFirst(root, sels[0])
      case Some(p) => Some(p)
      case None => FirstSelectorMatch(root, sels[1..])
  }

  predicate IsBody(n: Node) {
    n.Element? && n.tag == "body"
  }

  /** The first `body` child of the root at index `i` or later, if any. */
  function BodyFrom(root: Node, i: nat): (p: Path)
    requires root.Element?
    ensures ValidPath(root, p)
    ensures p == [] ==> forall j :: i <= j < |root.children| ==> !IsBody(root.children[j])
    ensures p != [] ==>
      |p| == 1 && i <= p[0] < |root.children| && IsBody(root.children[p[0]]) &&
      forall j :: i <= j < p[0] ==> !IsBody(root.children[j])
    decreases |root.children| - i
  {
    if i >= |root.children| then []
    else if IsBody(root.children[i]) then [i]
    else BodyFrom(root, i + 1)
  }

  /** `tree.body or tree.root`: the first `body` element under the root,
      or the root when there is none. */
  function BodyOrRoot(root: Node): (p: Path)
    ensures ValidPath(root, p)
    ensures p == [] <==> !(root.Element? && exists j :: 0 <= j < |root.children| && IsBody(root.children[j]))
    ensures p != [] ==>
      root.Element? && |p| == 1 && p[0] < |root.children| && IsBody(root.children[p[0]]) &&
      forall j :: 0 <= j < p[0] ==> !IsBody(root.children[j])
  {
    if root.Element? then BodyFrom(root, 0) else []
  }

  /** `len(div.text(strip=True))`: the stripped text pieces, concatenated. */
  function TextLength(root: Node, p: Path): nat
    requires ValidPath(root, p)
  {
    |DeepText(At(root, p), "")|
  }

  /** The text lengths of the nodes at `ds`. */
  function TextLengths(root: Node, ds: seq<Path>): (lens: seq<nat>)
    requires forall d :: d in ds ==> ValidPath(root, d)
    ensures |lens| == |ds| && forall i :: 0 <= i < |ds| ==> lens[i] == TextLength(root, ds[i])
  {
    seq(|ds|, i requires 0 <= i < |ds| => TextLength(root, ds[i]))
  }

  /** The `(best_node, max_text)` pair of the fallback loop after it has
      looked at the divs `ds`, whose text lengths are `lens`, starting from
      `start`. */
  function Largest(ds: seq<Path>, lens: seq<nat>, start: Path): (r: (Path, nat))
    requires |lens| == |ds|
    ensures r.0 == start || r.0 in ds
  {
    if ds == [] then (start, 0)
    else
      var prev := Largest(ds[..|ds| - 1], lens[..|ds| - 1], start);
      var n := lens[|ds| - 1];
      if n > prev.1 && n > MinDivText then (ds[|ds| - 1], n) else prev
  }

  /** The node the fallback picks among all divs of the document. */
  function DensestDiv(root: Node): (p: Path)
    ensures ValidPath(root, p)
  {
    CssExact(root, Div);
    var divs := Css(root, Div);
    Largest(divs, TextLengths(root, divs), BodyOrRoot(root)).0
  }

  /** The content node `find_content` returns. */
  function Locate(root: Node): (p: Path)
    ensures ValidPath(root, p)
  {
    match FirstSelectorMatch(root, ContentSelectors)
    case Some(p) => p
    case None => DensestDiv(root)
  }

  /** The selector loop of `find_content`: the first `css_first` that finds something. */
  method FirstContentMatch(tree: Document, sels: seq<Selector>) returns (found: Option<Path>)
    requires tree.root.Some?
    ensures found == FirstSelectorMatch(tree.root.value, sels)
  {
    var root := tree.root.value;
    for i := 0 to |sels|
      invariant FirstSelectorMatch(root, sels) == FirstSelectorMatch(root, sels[i..])
    {
      assert sels[i..][0] == sels[i] && sels[i..][1..] == sels[i + 1..];
      var node := CssFirst(root, sels[i]);
      if node.Some? {
        return node;
      }
    }
    return None;
  }

  /** The fallback loop of `find_content`: the largest text container. */
  method LargestTextDiv(tree: Document) returns (best: Path)
    requires tree.root.Some?
    ensures best == DensestDiv(tree.root.value)
  {
    var root := tree.root.value;
    var maxText := 0;
    var start := BodyOrRoot(root);
    best := start;
    CssExact(root, Div);
    var divs := Css(root, Div);
    ghost var lens := TextLengths(root, divs);
    for j := 0 to |divs|
      invariant (best, maxText) == Largest(divs[..j], lens[..j], start)
    {
      LargestStep(divs, lens, start, j);
      var textLen := TextLength(root, divs[j]);
      if textLen > maxText && textLen > MinDivText {
        maxText := textLen;
        best := divs[j];
      }
    }
    assert divs[..|divs|] == divs && lens[..|lens|] == lens;
  }

  /** One more div for the fallback loop to look at. */
  lemma LargestStep(ds: seq<Path>, lens: seq<nat>, start: Path, j: nat)
    requires |lens| == |ds| && j < |ds|
    ensures var prev := Largest(ds[..j], lens[..j], start);
      Largest(ds[..j + 1], lens[..j + 1], start) ==
        if lens[j] > prev.1 && lens[j] > MinDivText then (ds[j], lens[j]) else prev
  {
    assert ds[..j + 1][..j] == ds[..j] && lens[..j + 1][..j] == lens[..j];
  }

  method FindContent(tree: Document) returns (content: Path)
    requires tree.root.Some?
    ensures content == Locate(tree.root.value)
  {
    var found := FirstContentMatch(tree, ContentSelectors);
    if found.Some? {
      return found.value;
    }
    content := LargestTextDiv(tree);
  }

  /** The fallback loop ends on `start` when no div holds more than
      `MinDivText` characters. */
  lemma {:induction false} LargestKeepsStart(ds: seq<Path>, lens: seq<nat>, start: Path)
    requires |lens| == |ds|
    requires forall j :: 0 <= j < |lens| ==> lens[j] <= MinDivText
    ensures Largest(ds, lens, start) == (start, 0)
  {
    if ds != [] {
      LargestKeepsStart(ds[..|ds| - 1], lens[..|ds| - 1], start);
    }
  }

  /** The fallback loop ends on the earliest div of greatest text length when
      some div holds more than `MinDivText` characters; `i` is its index. */
  lemma {:induction false} LargestIsEarliest(ds: seq<Path>, lens: seq<nat>, start: Path, j0: nat) returns (i: nat)
    requires |lens| == |ds|
    requires j0 < |lens| && lens[j0] > MinDivText
    ensures i < |ds| && Largest(ds, lens, start) == (ds[i], lens[i]) && lens[i] > MinDivText
    ensures forall j :: 0 <= j < |lens| ==> lens[j] <= lens[i]
    ensures forall j :: 0 <= j < i ==> lens[j] < lens[i]
  {
    var last := |ds| - 1;
    var init, initLens := ds[..last], lens[..last];
    if exists j :: 0 <= j < last && initLens[j] > MinDivText {
      var j1 :| 0 <= j1 < last && initLens[j1] > MinDivText;
      var m := LargestIsEarliest(init, initLens, start, j1);
      if lens[last] > Largest(init, initLens, start).1 {
        i := last;
      } else {
        i := m;
      }
    } else {
      LargestKeepsStart(init, initLens, start);
      i := last;
    }
  }

  lemma {:induction false} FirstSelectorMatchNone(root: Node, sels: seq<Selector>)
    requires forall j, q :: 0 <= j < |sels| && ValidPath(root, q) ==> !Matches(sels[j], At(root, q))
    ensures FirstSelectorMatch(root, sels) == None
  {
    if sels != [] {
      CssFirstIsEarliest(root, sels[0]);
      FirstSelectorMatchNone(root, sels[1..]);
    }
  }

  lemma {:induction false} FirstSelectorMatchAt(root: Node, sels: seq<Selector>, k: nat)
    requires k < |sels|
    requires forall j, q :: 0 <= j < k && ValidPath(root, q) ==> !Matches(sels[j], At(root, q))
    requires exists q :: ValidPath(root, q) && Matches(sels[k], At(root, q))
    ensures FirstSelectorMatch(root, sels) == CssFirst(root, sels[k])
  {
    CssFirstIsEarliest(root, sels[0]);
    if k > 0 {
      FirstSelectorMatchAt(root, sels[1..], k - 1);
    }
  }

  /** When a content selector matches, the one earliest in the priority list
      decides, whatever the text lengths: its first match in document order is
      the content node. */
  lemma LocateBySelector(root: Node, k: nat)
    requires k < |ContentSelectors|
    requires forall j, q :: 0 <= j < k && ValidPath(root, q) ==> !Matches(ContentSelectors[j], At(root, q))
    requires exists q :: ValidPath(root, q) && Matches(ContentSelectors[k], At(root, q))
    ensures var p := Locate(root);
      Matches(ContentSelectors[k], At(root, p)) &&
      forall q :: ValidPath(root, q) && Matches(ContentSelectors[k], At(root, q)) ==> q == p || Before(p, q)
  {
    FirstSelectorMatchAt(root, ContentSelectors, k);
    CssFirstIsEarliest(root, ContentSelectors[k]);
  }

  /** With no div holding more than `MinDivText` characters, the fallback
      keeps the body, or the root. */
  lemma DensestDivDefault(root: Node)
    requires forall q :: ValidPath(root, q) && Matches(Div, At(root, q)) ==> TextLength(root, q) <= MinDivText
    ensures DensestDiv(root) == BodyOrRoot(root)
  {
    CssExact(root, Div);
    var divs := Css(root, Div);
    forall j | 0 <= j < |divs| ensures TextLength(root, divs[j]) <= MinDivText {
      assert divs[j] in divs;
    }
    LargestKeepsStart(divs, TextLengths(root, divs), BodyOrRoot(root));
  }

  /** Otherwise the fallback picks the div with the most text, the earliest in
      document order among those of that length. */
  lemma DensestDivIsLargest(root: Node, q0: Path)
    requires ValidPath(root, q0) && Matches(Div, At(root, q0)) && TextLength(root, q0) > MinDivText
    ensures var p := DensestDiv(root);
      Matches(Div, At(root, p)) && TextLength(root, p) > MinDivText &&
      forall q :: ValidPath(root, q) && Matches(Div, At(root, q)) ==>
        TextLength(root, q) < TextLength(root, p) || (TextLength(root, q) == TextLength(root, p) && (q == p || Before(p, q)))
  {
    CssExact(root, Div);
    var divs := Css(root, Div);
    assert q0 in divs;
    var j0 :| 0 <= j0 < |divs| && divs[j0] == q0;
    var i := LargestIsEarliest(divs, TextLengths(root, divs), BodyOrRoot(root), j0);
    var p := DensestDiv(root);
    assert divs[i] in divs;
    forall q | ValidPath(root, q) && Matches(Div, At(root, q))
      ensures TextLength(root, q) < TextLength(root, p) || (TextLength(root, q) == TextLength(root, p) && (q == p || Before(p, q)))
    {
      assert q in divs;
      var j :| 0 <= j < |divs| && divs[j] == q;
      if j > i {
        assert Before(divs[i], divs[j]);
      }
    }
  }

  /** When no content selector matches, `find_content` falls back to the
      densest div. */
  lemma LocateByDensity(root: Node)
    requires forall j, q :: 0 <= j < |ContentSelectors| && ValidPath(root, q) ==> !Matches(ContentSelectors[j], At(root, q))
    ensures Locate(root) == DensestDiv(root)
  {
    FirstSelectorMatchNone(root, ContentSelectors);
  }

  // ---------------------------------------------------------------------
  // to_markdown
  // ---------------------------------------------------------------------

  predicate IsDigit(c: char) {
    '0' <= c <= '9'
  }

  /** `tag.startswith('h') and len(tag) == 2 and tag[1].isdigit()`. */
  predicate IsHeading(tag: string) {
    |tag| == 2 && tag[0] == 'h' && IsDigit(tag[1])
  }

  /** What one visited element adds to `parts`. */
  function Fragment(n: Node, parentTag: string): string
    requires n.Element?
  {
    FragmentOf(n.tag, parentTag, DeepText(n, " "))
  }

  function FragmentOf(tag: string, parentTag: string, text: string): string {
    if |text| < 3 then ""
    else if IsHeading(tag) then "\n" + Repeat('#', tag[1] as int - '0' as int) + " " + text + "\n"
    else if tag in ["p", "div", "span"] then "\n" + text + "\n"
    else if tag == "li" then "- " + text + "\n"
    else if tag == "pre" then "\n``````\n"
    else if tag == "code" && parentTag != "pre" then "`" + text + "` "
    else ""
  }

  /** The concatenated fragments of the elements of `t` at `ps`, in that order. */
  function Emitted(t: Node, outer: string, ps: seq<Path>): string
    requires forall p :: p in ps ==> ValidPath(t, p) && At(t, p).Element?
  {
    if ps == [] then ""
    else
      var p := ps[|ps| - 1];
      Emitted(t, outer, ps[..|ps| - 1]) + Fragment(At(t, p), ParentTag(t, p, outer))
  }

  /** Three newlines in a row start at index `i` of `s`. */
  predicate TripleAt(s: string, i: int) {
    0 <= i && i + 2 < |s| && s[i] == '\n' && s[i + 1] == '\n' && s[i + 2] == '\n'
  }

  predicate NoTriple(s: string) {
    forall i :: 0 <= i < |s| ==> !TripleAt(s, i)
  }

  function NewlineRun(s: string): (n: nat)
    ensures n <= |s|
    ensures forall i :: 0 <= i < n ==> s[i] == '\n'
    ensures n < |s| ==> s[n] != '\n'
  {
    if s != [] && s[0] == '\n' then 1 + NewlineRun(s[1..]) else 0
  }

  /** `re.sub(r'\n{3,}', '\n\n', s)`: every maximal run of three or more
      newlines becomes two; the result holds no run of three. */
  function Collapse(s: string): (r: string)
    ensures NoTriple(r)
    ensures s != [] && s[0] != '\n' ==> r != [] && r[0] == s[0]
    decreases |s|
  {
    if s == [] then ""
    else if s[0] != '\n' then
      var rest := Collapse(s[1..]);
      NoTripleAfter([s[0]], rest);
      [s[0]] + rest
    else
      var n := NewlineRun(s);
      var run := if n >= 3 then "\n\n" else s[..n];
      var rest := Collapse(s[n..]);
      NoTripleAfter(run, rest);
      run + rest
  }

  /** Gluing at most two characters in front of a string without a run of
      three newlines keeps it so, unless a newline run crosses the seam. */
  lemma NoTripleAfter(a: string, b: string)
    requires |a| <= 2 && NoTriple(b)
    requires (a != [] && a[|a| - 1] != '\n') || b == [] || b[0] != '\n'
    ensures NoTriple(a + b)
  {
    var r := a + b;
    forall k | 0 <= k < |r|
      ensures !TripleAt(r, k)
    {
      if k >= |a| {
        assert !TripleAt(b, k - |a|);
        assert r[k..] == b[k - |a|..];
      }
    }
  }

  /** Two strings without a run of three newlines, glued where at least one
      side has no newline, have none either. */
  lemma NoTripleJoin(a: string, b: string)
    requires NoTriple(a) && NoTriple(b)
    requires a == [] || b == [] || a[|a| - 1] != '\n' || b[0] != '\n'
    ensures NoTriple(a + b)
  {
    var r := a + b;
    forall k | 0 <= k < |r|
      ensures !TripleAt(r, k)
    {
      if k + 2 < |a| {
        assert !TripleAt(a, k);
        assert r[k] == a[k] && r[k + 1] == a[k + 1] && r[k + 2] == a[k + 2];
      } else if k >= |a| {
        assert !TripleAt(b, k - |a|);
        assert r[k..] == b[k - |a|..];
      } else if k + 2 < |r| {
        assert r[|a| - 1] == a[|a| - 1] && r[|a|] == b[0];
      }
    }
  }

  lemma NoTripleSuffix(s: string, n: nat)
    requires NoTriple(s) && n <= |s|
    ensures NoTriple(s[n..])
  {
    forall k | 0 <= k < |s| - n
      ensures !TripleAt(s[n..], k)
    {
      assert !TripleAt(s, n + k);
    }
  }

  /** The run of newlines at the head of `s` is the one that ends at the
      first other character. */
  lemma NewlineRunIs(s: string, n: nat)
    requires n <= |s| && forall i :: 0 <= i < n ==> s[i] == '\n'
    requires n < |s| ==> s[n] != '\n'
    ensures NewlineRun(s) == n
  {
  }

  /** Collapsing works piece by piece when the first piece does not end in
      a newline, since no run of newlines then spans the boundary. */
  lemma {:induction false} CollapseAppend(x: string, z: string)
    requires x == [] || x[|x| - 1] != '\n'
    ensures Collapse(x + z) == Collapse(x) + Collapse(z)
    decreases |x|, 1
  {
    if x == [] {
      assert x + z == z;
    } else if x[0] != '\n' {
      CollapseAppendFirst(x, z);
    } else {
      CollapseAppendRun(x, z);
    }
  }

  lemma {:induction false} CollapseAppendFirst(x: string, z: string)
    requires x != [] && x[0] != '\n' && x[|x| - 1] != '\n'
    ensures Collapse(x + z) == Collapse(x) + Collapse(z)
    decreases |x|, 0
  {
    var tail := x[1..];
    assert tail == [] || tail[|tail| - 1] == x[|x| - 1];
    CollapseFirst(x, z);
    CollapseAppend(tail, z);
    AppendStep(Collapse(x), Collapse(x + z), [x[0]], Collapse(tail), Collapse(tail + z), Collapse(z));
  }

  lemma {:induction false} CollapseAppendRun(x: string, z: string)
    requires x != [] && x[0] == '\n' && x[|x| - 1] != '\n'
    ensures Collapse(x + z) == Collapse(x) + Collapse(z)
    decreases |x|, 0
  {
    var n := NewlineRun(x);
    CollapseRunPrefix(x, z, n);
    var tail := x[n..];
    assert tail[|tail| - 1] == x[|x| - 1];
    CollapseAppend(tail, z);
    var run := if n >= 3 then "\n\n" else x[..n];
    AppendStep(Collapse(x), Collapse(x + z), run, Collapse(tail), Collapse(tail + z), Collapse(z));
  }

  /** If `x` and `x + z` both render as a common head followed by the
      renderings of `y` and `y + z`, and the latter splits, so do they. */
  lemma AppendStep(cx: string, cxz: string, head: string, cy: string, cyz: string, cz: string)
    requires cx == head + cy && cxz == head + cyz && cyz == cy + cz
    ensures cxz == cx + cz
  {
    assert head + (cy + cz) == (head + cy) + cz;
  }

  /** A first character other than a newline is kept as it is. */
  lemma {:induction false} CollapseFirst(x: string, z: string)
    requires x != [] && x[0] != '\n'
    ensures Collapse(x) == [x[0]] + Collapse(x[1..])
    ensures Collapse(x + z) == [x[0]] + Collapse(x[1..] + z)
  {
    assert (x + z)[1..] == x[1..] + z;
  }

  /** A run of newlines that ends inside `x` ends at the same place in
      `x + z`, and is collapsed the same way in both. */
  lemma {:induction false} CollapseRunPrefix(x: string, z: string, n: nat)
    requires x != [] && x[0] == '\n' && x[|x| - 1] != '\n'
    requires n == NewlineRun(x)
    ensures n < |x|
    ensures var run := if n >= 3 then "\n\n" else x[..n];
      Collapse(x) == run + Collapse(x[n..]) && Collapse(x + z) == run + Collapse(x[n..] + z)
  {
    var s := x + z;
    assert s[n] == x[n];
    NewlineRunIs(s, n);
    assert s[..n] == x[..n];
    assert s[n..] == x[n..] + z;
  }

  /** A run of three or more newlines followed by something else becomes
      exactly one blank line. */
  lemma {:induction false} CollapseRun(n: nat, y: string)
    requires n >= 3
    requires y == [] || y[0] != '\n'
    ensures Collapse(Repeat('\n', n) + y) == "\n\n" + Collapse(y)
  {
    var s := Repeat('\n', n) + y;
    NewlineRunIs(s, n);
    assert s[n..] == y;
  }

  /** A run of one or two newlines followed by something else is kept. */
  lemma {:induction false} CollapseShortRun(n: nat, y: string)
    requires 1 <= n <= 2
    requires y == [] || y[0] != '\n'
    ensures Collapse(Repeat('\n', n) + y) == Repeat('\n', n) + Collapse(y)
  {
    var s := Repeat('\n', n) + y;
    NewlineRunIs(s, n);
    assert s[..n] == Repeat('\n', n);
    assert s[n..] == y;
  }

  /** Text without newlines is left alone. */
  lemma {:induction false} CollapseNoNewline(x: string)
    requires forall i :: 0 <= i < |x| ==> x[i] != '\n'
    ensures Collapse(x) == x
    decreases |x|
  {
    if x != [] {
      CollapseNoNewline(x[1..]);
    }
  }

  /** Between two pieces of text, a run of three or more newlines becomes
      exactly `\n\n` and the rest of the text is collapsed on its own. */
  lemma {:induction false} CollapseBetween(x: string, n: nat, y: string)
    requires n >= 3
    requires x == [] || x[|x| - 1] != '\n'
    requires y == [] || y[0] != '\n'
    ensures Collapse(x + Repeat('\n', n) + y) == Collapse(x) + "\n\n" + Collapse(y)
  {
    assert x + Repeat('\n', n) + y == x + (Repeat('\n', n) + y);
    CollapseAppend(x, Repeat('\n', n) + y);
    CollapseRun(n, y);
  }

  /** The characters of `s` other than newlines, in order. */
  function Words(s: string): (r: string)
    ensures |r| <= |s|
  {
    if s == [] then "" else (if s[0] == '\n' then "" else [s[0]]) + Words(s[1..])
  }

  lemma {:induction false} WordsAppend(a: string, b: string)
    ensures Words(a + b) == Words(a) + Words(b)
  {
    if a != [] {
      assert (a + b)[0] == a[0] && (a + b)[1..] == a[1..] + b;
      WordsAppend(a[1..], b);
    } else {
      assert a + b == b;
    }
  }

  lemma {:induction false} WordsOfNewlines(s: string)
    requires forall i :: 0 <= i < |s| ==> s[i] == '\n'
    ensures Words(s) == ""
  {
    if s != [] {
      WordsOfNewlines(s[1..]);
    }
  }

  /** Collapsing only shortens runs of newlines: every other character stays,
      in order. */
  lemma {:induction false} CollapseKeepsWords(s: string)
    ensures Words(Collapse(s)) == Words(s)
    decreases |s|
  {
    if s != [] {
      if s[0] != '\n' {
        CollapseKeepsWords(s[1..]);
        WordsAppend([s[0]], Collapse(s[1..]));
      } else {
        var n := NewlineRun(s);
        var run := if n >= 3 then "\n\n" else s[..n];
        CollapseKeepsWords(s[n..]);
        WordsAppend(run, Collapse(s[n..]));
        assert s == s[..n] + s[n..];
        WordsAppend(s[..n], s[n..]);
        WordsOfNewlines(run);
        WordsOfNewlines(s[..n]);
      }
    }
  }

  /** A string without a run of three newlines is left as it is. */
  lemma {:induction false} CollapseTidy(s: string)
    requires NoTriple(s)
    ensures Collapse(s) == s
    decreases |s|
  {
    if s != [] {
      if s[0] != '\n' {
        NoTripleSuffix(s, 1);
        CollapseTidy(s[1..]);
      } else {
        var n := NewlineRun(s);
        assert !TripleAt(s, 0);
        assert n < 3;
        NoTripleSuffix(s, n);
        CollapseTidy(s[n..]);
        assert s == s[..n] + s[n..];
      }
    }
  }

  /** The rendering of `t`, whose parent has tag `outer`. */
  function Render(t: Node, outer: string): string {
    ElementPathsSound(t);
    Strip(Collapse(Emitted(t, outer, ElementPaths(t))))
  }

  lemma EmittedSnoc(t: Node, outer: string, ps: seq<Path>, i: nat)
    requires forall p :: p in ps ==> ValidPath(t, p) && At(t, p).Element?
    requires i < |ps|
    ensures Emitted(t, outer, ps[..i + 1]) == Emitted(t, outer, ps[..i]) + Fragment(At(t, ps[i]), ParentTag(t, ps[i], outer))
  {
    assert ps[..i + 1][..i] == ps[..i];
    assert ps[..i + 1][i] == ps[i];
  }

  /** A rendering holds no run of three newlines and neither starts nor ends
      with whitespace. */
  lemma {:induction false} RenderIsTidy(t: Node, outer: string)
    ensures var r := Render(t, outer);
      NoTriple(r) && (r != [] ==> !IsSpace(r[0]) && !IsSpace(r[|r| - 1]))
  {
    ElementPathsSound(t);
    StripTidy(Collapse(Emitted(t, outer, ElementPaths(t))));
  }

  lemma {:induction false} StripTidy(c: string)
    requires NoTriple(c)
    ensures NoTriple(Strip(c))
  {
    NoTripleSlice(c, StripOffset(c), StripOffset(c) + |Strip(c)|);
  }

  lemma {:induction false} NoTripleSlice(s: string, i: nat, j: nat)
    requires NoTriple(s) && i <= j <= |s|
    ensures NoTriple(s[i..j])
  {
    var r := s[i..j];
    forall k | 0 <= k < |r|
      ensures !TripleAt(r, k)
    {
      assert !TripleAt(s, i + k);
      if k + 2 < |r| {
        assert r[k] == s[i + k] && r[k + 1] == s[i + k + 1] && r[k + 2] == s[i + k + 2];
      }
    }
  }

  /** `Strip` removes whitespace padding around a word that starts and ends
      with a visible character. */
  lemma {:induction false} StripPadded(a: string, x: string, b: string)
    requires AllSpace(a) && AllSpace(b)
    requires x != [] && !IsSpace(x[0]) && !IsSpace(x[|x| - 1])
    ensures Strip(a + x + b) == x
  {
    var s := a + x + b;
    assert s[|a|] == x[0] && s[|a| + |x| - 1] == x[|x| - 1];
    LeadingSpacesAt(s, |a|);
    VisibleEndAt(s, |a| + |x|);
    assert s[|a|..|a| + |x|] == x;
  }

  /** A string whose only newlines are its first and last characters holds
      no run of three. */
  lemma NoTripleFramed(s: string)
    requires forall i :: 0 < i < |s| - 1 ==> s[i] != '\n'
    ensures NoTriple(s)
  {
    forall k | 0 <= k < |s|
      ensures !TripleAt(s, k)
    {
      if k + 2 < |s| {
        assert s[k + 1] != '\n';
      }
    }
  }

  /** A fragment made of a visible word between at most one whitespace
      character on each side renders as that word. */
  lemma {:induction false} TidyFragment(a: string, x: string, b: string)
    requires |a| <= 1 && |b| <= 1 && AllSpace(a) && AllSpace(b)
    requires x != [] && !IsSpace(x[0]) && !IsSpace(x[|x| - 1])
    requires NoTriple(x)
    ensures Strip(Collapse(a + x + b)) == x
  {
    var s := a + x + b;
    NoTripleAfter(a, x);
    NoTripleJoin(a + x, b);
    CollapseTidy(s);
    StripPadded(a, x, b);
  }

  /** An element holding one text node renders as the fragment of that text. */
  lemma {:induction false} RenderLeafFragment(tag: string, attrs: map<string, string>, s: string, outer: string)
    ensures Render(Element(tag, attrs, [Text(s)]), outer) == Tidied(FragmentOf(tag, outer, Strip(s)))
  {
    var n := Element(tag, attrs, [Text(s)]);
    ElementPathsSound(n);
    LeafEmits(tag, attrs, s, outer);
  }

  /** An element whose only child is text has just itself among the elements. */
  lemma LeafPaths(tag: string, attrs: map<string, string>, s: string)
    ensures ElementPaths(Element(tag, attrs, [Text(s)])) == [[]]
  {
    assert Prefixed(0, ElementPaths(Text(s))) == [];
    assert ForestPaths([Text(s)], 0) == [];
  }

  lemma {:induction false} LeafEmits(tag: string, attrs: map<string, string>, s: string, outer: string)
    ensures var n := Element(tag, attrs, [Text(s)]);
      ElementPaths(n) == [[]] && Fragment(n, outer) == FragmentOf(tag, outer, Strip(s)) &&
      Emitted(n, outer, [[]]) == FragmentOf(tag, outer, Strip(s))
  {
    var n := Element(tag, attrs, [Text(s)]);
    assert Prefixed(0, ElementPaths(Text(s))) == [];
    assert ForestPaths([Text(s)], 0) == [];
    assert ForestPieces([Text(s)]) == [Strip(s)];
    assert DeepText(n, " ") == Strip(s);
    assert Emitted(n, outer, [[]]) == Emitted(n, outer, []) + Fragment(n, outer);
  }

  /** A tree whose text, stripped and joined, is shorter than three
      characters renders as nothing: no element inside it has more text. */
  lemma RenderShortText(t: Node, outer: string)
    requires |DeepText(t, " ")| < 3
    ensures Render(t, outer) == ""
  {
    var ps := ElementPaths(t);
    ElementPathsSound(t);
    forall p | p in ps
      ensures |DeepText(At(t, p), " ")| < 3
    {
      DeepTextShorter(t, p, " ");
    }
    ShortEmitsNothing(t, outer, ps);
    assert Collapse("") == "";
  }

  lemma {:induction false} ShortEmitsNothing(t: Node, outer: string, ps: seq<Path>)
    requires forall p :: p in ps ==> ValidPath(t, p) && At(t, p).Element? && |DeepText(At(t, p), " ")| < 3
    ensures Emitted(t, outer, ps) == ""
  {
    if ps != [] {
      ShortEmitsNothing(t, outer, ps[..|ps| - 1]);
      assert ps[|ps| - 1] in ps;
    }
  }

  /** Stripped text long enough to be rendered, with no run of three
      newlines inside it. */
  predicate Renderable(t: string) {
    |t| >= 3 && !IsSpace(t[0]) && !IsSpace(t[|t| - 1]) && NoTriple(t)
  }

  /** What a fragment becomes once the fragments are joined, collapsed and
      stripped, when it is the only one. */
  function Tidied(f: string): string {
    Strip(Collapse(f))
  }

  /** A `p`, `div` or `span` whose text is `t` renders as `t`. */
  lemma {:induction false} TidiedBlock(tag: string, outer: string, t: string)
    requires Renderable(t)
    requires tag in ["p", "div", "span"]
    ensures Tidied(FragmentOf(tag, outer, t)) == t
  {
    assert FragmentOf(tag, outer, t) == "\n" + t + "\n";
    TidyFragment("\n", t, "\n");
  }

  /** A list item renders as a bullet followed by its text. */
  lemma {:induction false} TidiedItem(outer: string, t: string)
    requires Renderable(t)
    ensures Tidied(FragmentOf("li", outer, t)) == "- " + t
  {
    var x := "- " + t;
    assert FragmentOf("li", outer, t) == "" + x + "\n";
    NoTripleAfter("- ", t);
    TidyFragment("", x, "\n");
  }

  /** A `pre` renders as an empty code fence: its text is not kept. */
  lemma {:induction false} TidiedPre(outer: string, t: string)
    requires |t| >= 3
    ensures Tidied(FragmentOf("pre", outer, t)) == "``````"
  {
    assert FragmentOf("pre", outer, t) == "\n" + "``````" + "\n";
    TidyFragment("\n", "``````", "\n");
  }

  /** A heading `hN` renders as N hashes, a space and its text. */
  lemma {:induction false} TidiedHeading(tag: string, outer: string, t: string)
    requires Renderable(t)
    requires IsHeading(tag) && tag[1] != '0'
    ensures Tidied(FragmentOf(tag, outer, t)) == Repeat('#', tag[1] as int - '0' as int) + " " + t
  {
    var h := Repeat('#', tag[1] as int - '0' as int);
    var x := h + " " + t;
    assert FragmentOf(tag, outer, t) == "\n" + x + "\n";
    var g := h + " ";
    assert forall i :: 0 <= i < |g| ==> g[i] == '#' || g[i] == ' ';
    NoTripleFramed(g);
    NoTripleJoin(g, t);
    TidyFragment("\n", x, "\n");
  }

  /** A `code` outside `pre` renders as its text in backquotes. */
  lemma {:induction false} TidiedCode(outer: string, t: string)
    requires Renderable(t)
    requires outer != "pre"
    ensures Tidied(FragmentOf("code", outer, t)) == "`" + t + "`"
  {
    var x := "`" + t + "`";
    assert FragmentOf("code", outer, t) == "" + x + " ";
    NoTripleAfter("`", t);
    NoTripleAfter("`", []);
    assert "`" + [] == "`";
    NoTripleJoin("`" + t, "`");
    TidyFragment("", x, " ");
  }

  /** A `code` inside `pre`, and any tag outside the rendered kinds, adds
      nothing. */
  lemma {:induction false} TidiedIgnored(tag: string, outer: string, t: string)
    requires (tag == "code" && outer == "pre") || (!IsHeading(tag) && tag !in ["p", "div", "span", "li", "pre", "code"])
    ensures Tidied(FragmentOf(tag, outer, t)) == ""
  {
    assert FragmentOf(tag, outer, t) == "";
  }

  /** Hence such an element holding one text node renders as nothing. */
  lemma {:induction false} RenderIgnored(tag: string, attrs: map<string, string>, s: string, outer: string)
    requires (tag == "code" && outer == "pre") || (!IsHeading(tag) && tag !in ["p", "div", "span", "li", "pre", "code"])
    ensures Render(Element(tag, attrs, [Text(s)]), outer) == ""
  {
    RenderLeafFragment(tag, attrs, s, outer);
    TidiedIgnored(tag, outer, Strip(s));
  }

  /** A heading followed by a paragraph, as in `<h2>Title</h2><p>Body text
      here</p>`: their two fragments render as the heading line, one blank
      line and the paragraph. */
  lemma {:induction false} HeadingThenParagraph(t: string, u: string)
    requires Renderable(t) && Renderable(u)
    ensures Tidied(FragmentOf("h2", "body", t) + FragmentOf("p", "body", u)) == "## " + t + "\n\n" + u
  {
    var x := "## " + t + "\n\n" + u;
    var e := "\n" + x + "\n";
    assert Repeat('#', 2) == "##";
    assert FragmentOf("h2", "body", t) == "\n" + Repeat('#', 2) + " " + t + "\n";
    assert FragmentOf("p", "body", u) == "\n" + u + "\n";
    assert FragmentOf("h2", "body", t) + FragmentOf("p", "body", u) == e;
    NoTripleFramed("## ");
    NoTripleJoin("## ", t);
    NoTripleFramed("\n\n");
    NoTripleJoin("## " + t, "\n\n");
    NoTripleJoin("## " + t + "\n\n", u);
    NoTripleAfter("\n", x);
    NoTripleFramed("\n");
    NoTripleJoin("\n" + x, "\n");
    CollapseTidy(e);
    StripPadded("\n", x, "\n");
  }

  /** A tag whose elements add no fragment of their own, such as `main`,
      `section` or `body`. */
  predicate Silent(tag: string) {
    !IsHeading(tag) && tag !in ["p", "div", "span", "li", "pre", "code"]
  }

  /** `<tag><h2>t</h2><p>u</p></tag>`. */
  function Section(tag: string, t: string, u: string): Node {
    Element(tag, map[], [Element("h2", map[], [Text(t)]), Element("p", map[], [Text(u)])])
  }

  lemma {:induction false} SectionPaths(tag: string, t: string, u: string)
    ensures ElementPaths(Section(tag, t, u)) == [[], [0], [1]]
  {
    var h := Element("h2", map[], [Text(t)]);
    var q := Element("p", map[], [Text(u)]);
    LeafPaths("h2", map[], t);
    LeafPaths("p", map[], u);
    var e: seq<Path> := [[]];
    assert ForestPaths([q], 1) == [[1]] by {
      assert [1] + e[0] == [1];
      assert Prefixed(1, e) == [[1]];
      assert [q][1..] == [];
    }
    assert ForestPaths([h, q], 0) == [[0], [1]] by {
      assert [0] + e[0] == [0];
      assert Prefixed(0, e) == [[0]];
      assert [h, q][1..] == [q];
    }
  }

  lemma {:induction false} SectionEmits(tag: string, t: string, u: string, outer: string)
    requires Silent(tag) && Renderable(t) && Renderable(u)
    ensures Emitted(Section(tag, t, u), outer, [[], [0], [1]]) == FragmentOf("h2", "body", t) + FragmentOf("p", "body", u)
  {
    var s := Section(tag, t, u);
    var x, y := FragmentOf("h2", "body", t), FragmentOf("p", "body", u);
    assert At(s, []) == s;
    EmittedThree(s, outer, [], [0], [1]);
    SilentEmitsNothing(At(s, []), ParentTag(s, [], outer));
    SectionHeading(tag, t, u, outer);
    SectionParagraph(tag, t, u, outer);
    assert "" + x + y == x + y;
  }

  /** The fragments of three visited elements, in order. */
  lemma {:induction false} EmittedThree(t: Node, outer: string, a: Path, b: Path, c: Path)
    requires ValidPath(t, a) && At(t, a).Element?
    requires ValidPath(t, b) && At(t, b).Element?
    requires ValidPath(t, c) && At(t, c).Element?
    ensures Emitted(t, outer, [a, b, c]) ==
      Fragment(At(t, a), ParentTag(t, a, outer)) + Fragment(At(t, b), ParentTag(t, b, outer)) +
      Fragment(At(t, c), ParentTag(t, c, outer))
  {
    var fa := Fragment(At(t, a), ParentTag(t, a, outer));
    assert [a, b, c][..2] == [a, b] && [a, b][..1] == [a] && [a][..0] == [];
    assert Emitted(t, outer, [a]) == fa;
  }

  /** An element of a silent tag adds no fragment, whatever its text. */
  lemma SilentEmitsNothing(n: Node, parentTag: string)
    requires n.Element? && Silent(n.tag)
    ensures Fragment(n, parentTag) == ""
  {
  }

  /** Only `code` looks at the parent's tag. */
  lemma ParentIrrelevant(tag: string, x: string, y: string, text: string)
    requires tag != "code"
    ensures FragmentOf(tag, x, text) == FragmentOf(tag, y, text)
  {
  }

  lemma {:induction false} SectionHeading(tag: string, t: string, u: string, outer: string)
    requires Renderable(t)
    ensures var s := Section(tag, t, u);
      Fragment(At(s, [0]), ParentTag(s, [0], outer)) == FragmentOf("h2", "body", t)
  {
    ChildLeaf(Section(tag, t, u), 0, "h2", t, outer);
    StripVisible(t);
    ParentIrrelevant("h2", tag, "body", t);
  }

  lemma {:induction false} SectionParagraph(tag: string, t: string, u: string, outer: string)
    requires Renderable(u)
    ensures var s := Section(tag, t, u);
      Fragment(At(s, [1]), ParentTag(s, [1], outer)) == FragmentOf("p", "body", u)
  {
    ChildLeaf(Section(tag, t, u), 1, "p", u, outer);
    StripVisible(u);
    ParentIrrelevant("p", tag, "body", u);
  }

  /** A child holding one text node emits the fragment of that text. */
  lemma {:induction false} ChildLeaf(s: Node, k: nat, tag: string, x: string, outer: string)
    requires s.Element? && k < |s.children| && s.children[k] == Element(tag, map[], [Text(x)])
    ensures ValidPath(s, [k]) && At(s, [k]).Element?
    ensures Fragment(At(s, [k]), ParentTag(s, [k], outer)) == FragmentOf(tag, s.tag, Strip(x))
  {
    assert ValidPath(s.children[k], []);
    assert At(s, [k]) == s.children[k];
    assert ParentTag(s, [k], outer) == s.tag;
    LeafEmits(tag, map[], x, s.tag);
  }

  /** A string that starts and ends with a visible character strips to itself. */
  lemma StripVisible(x: string)
    requires x != [] && !IsSpace(x[0]) && !IsSpace(x[|x| - 1])
    ensures Strip(x) == x
  {
    assert "" + x + "" == x;
    StripPadded("", x, "");
  }

  /** The same pair inside a container that adds nothing of its own, such as
      `<main>`: the whole container renders as the heading line, one blank
      line and the paragraph. */
  lemma {:induction false} SectionRender(tag: string, t: string, u: string, outer: string)
    requires Silent(tag) && Renderable(t) && Renderable(u)
    ensures Render(Section(tag, t, u), outer) == "## " + t + "\n\n" + u
  {
    SectionPaths(tag, t, u);
    SectionEmits(tag, t, u, outer);
    HeadingThenParagraph(t, u);
  }

  method ToMarkdown(node: Node, parentTag: string) returns (markdown: string)
    ensures markdown == Render(node, parentTag)
  {
    var visits := ElementPaths(node);
    ElementPathsSound(node);
    var parts: seq<string> := [];
    for i := 0 to |visits|
      invariant Join("", parts) == Emitted(node, parentTag, visits[..i])
    {
      EmittedSnoc(node, parentTag, visits, i);
      var n := At(node, visits[i]);
      var text := DeepText(n, " ");
      ghost var fragment := FragmentOf(n.tag, ParentTag(node, visits[i], parentTag), text);
      if |text| < 3 {
        assert fragment == "";
        continue;
      }
      var tag := n.tag;
      var part := "";
      if IsHeading(tag) {
        var level := tag[1] as int - '0' as int;
        part := "\n" + Repeat('#', level) + " " + text + "\n";
      } else if tag in ["p", "div", "span"] {
        part := "\n" + text + "\n";
      } else if tag == "li" {
        part := "- " + text + "\n";
      } else if tag == "pre" {
        part := "\n``````\n";
      } else if tag == "code" && ParentTag(node, visits[i], parentTag) != "pre" {
        part := "`" + text + "` ";
      } else {
        assert fragment == "";
        continue;
      }
      assert part == fragment;
      AppendPart(parts, part);
      parts := parts + [part];
    }
    assert visits[..|visits|] == visits;
    markdown := Strip(Collapse(Join("", parts)));
  }

  lemma AppendPart(parts: seq<string>, part: string)
    ensures Join("", parts + [part]) == Join("", parts) + part
  {
    if parts != [] {
      JoinSnoc("", parts, part);
    } else {
      assert parts + [part] == [part];
    }
  }

  // ---------------------------------------------------------------------
  // parse
  // ---------------------------------------------------------------------

  /** The located content node with the noise under it removed: the node
      `parse` renders. */
  function ContentNode(root: Node): Node {
    Prune(At(root, Locate(root)), NoiseSelectors)
  }

  /** The markdown of the content node. */
  function RenderedContent(root: Node): string {
    Render(ContentNode(root), ParentTag(root, Locate(root), DocumentTag))
  }

  /** The content node keeps the located element itself, tag and attributes,
      and holds no noise below it. When cleaning leaves the located node
      attached, the content node is exactly what the cleaned document holds
      at the node's new place, under a parent of the same tag. */
  lemma ContentNodeKept(root: Node)
    ensures var p, c := Locate(root), ContentNode(root);
      c.Element? == At(root, p).Element? &&
      (c.Element? ==> c.tag == At(root, p).tag && c.attrs == At(root, p).attrs) &&
      (forall q :: ValidPath(c, q) && q != [] ==> !MatchesAny(NoiseSelectors, At(c, q))) &&
      (Attached(root, p) ==>
        Cleaned(root).Some? &&
        var moved := Relocate(root, p, NoiseSelectors);
        ValidPath(Cleaned(root).value, moved) && At(Cleaned(root).value, moved) == c &&
        ParentTag(Cleaned(root).value, moved, DocumentTag) == ParentTag(root, p, DocumentTag))
  {
    var p := Locate(root);
    forall q | ValidPath(ContentNode(root), q) && q != []
      ensures !MatchesAny(NoiseSelectors, At(ContentNode(root), q))
    {
      PrunedHasNoNoise(At(root, p), NoiseSelectors, q);
    }
    if Attached(root, p) {
      RelocateFindsPruned(root, p, NoiseSelectors, DocumentTag);
    }
  }

  /** What the source hands to `to_markdown` after `clean_html`: the content
      node where the cleaning left it, or nothing when the cleaning destroyed
      it, alone or with the whole document. */
  function ContentAsWritten(root: Node): Option<Node> {
    var p := Locate(root);
    if Attached(root, p) then
      RelocateFindsPruned(root, p, NoiseSelectors, DocumentTag);
      Some(At(Cleaned(root).value, Relocate(root, p, NoiseSelectors)))
    else None
  }

  /** Where the source's content node is still attached, the model renders
      that very node. */
  lemma AsWrittenAgrees(root: Node)
    ensures ContentAsWritten(root).Some? ==> ContentAsWritten(root).value == ContentNode(root)
    ensures ContentAsWritten(root).None? <==> !Attached(root, Locate(root))
  {
    ContentNodeKept(root);
  }

  /** What `parse` returns: the markdown of the content when it is longer
      than 50 characters, `NoContent` otherwise. */
  function Extract(root: Node): (r: string)
    ensures r == NoContent <==> |RenderedContent(root)| <= MinContentLength
    ensures r != NoContent ==> r == RenderedContent(root) && |r| > MinContentLength
  {
    var markdown := RenderedContent(root);
    if |markdown| > MinContentLength then markdown else NoContent
  }

  /** Finds the content first, cleans the document after, and renders the
      content where the cleaning left it; a content node the cleaning
      removed is rendered as it was found, without the noise below it. */
  method Parse(root: Node) returns (result: string)
    ensures result == Extract(root)
  {
    var tree := new Document(root);
    var content := FindContent(tree);
    var node := At(tree.root.value, content);
    var parentTag := ParentTag(tree.root.value, content, DocumentTag);
    CleanHtml(tree);
    var markdown;
    if tree.root.Some? && Survives(root, content, NoiseSelectors) {
      ContentNodeKept(root);
      var moved := Relocate(root, content, NoiseSelectors);
      markdown := ToMarkdown(At(tree.root.value, moved), ParentTag(tree.root.value, moved, DocumentTag));
    } else {
      markdown := ToMarkdown(Prune(node, NoiseSelectors), parentTag);
    }
    result := if |markdown| > MinContentLength then markdown else NoContent;
  }

  /** A page whose only content candidate is a sidebar block. */
  function SidebarPage(): Node {
    Element("html", map[], [
      Element("body", map[], [
        SidebarDiv()])])
  }

  /** On that page `[class*='content']` picks the sidebar block, and
      `[class*='sidebar']` then destroys it: the node the source goes on to
      render is no longer part of the document. */
  lemma SidebarContentDestroyed()
    ensures Locate(SidebarPage()) == [0, 0]
    ensures ContentAsWritten(SidebarPage()) == None
    ensures Cleaned(SidebarPage()) == Some(Element("html", map[], [Element("body", map[], [])]))
  {
    SidebarLocate();
    SidebarCleaned();
    SidebarIsNoise();
  }

  const SidebarClass := "sidebar-content"

  function SidebarDiv(): Node {
    Element("div", map["class" := SidebarClass], [Text("Getting started")])
  }

  lemma SidebarIsNoise()
    ensures MatchesAny(NoiseSelectors, SidebarDiv())
    ensures !Survives(SidebarPage(), [0, 0], NoiseSelectors)
  {
    ContainsAt(SidebarClass, "sidebar", 0);
    assert Matches(NoiseSelectors[6], SidebarDiv());
  }

  lemma SidebarIsContent()
    ensures Matches(ContentSelectors[12], SidebarDiv())
  {
    ContainsAt(SidebarClass, "content", 8);
  }

  /** No content selector before `[class*='content']` matches an element
      without attributes other than `main` and `article`. */
  lemma BareMissesEarlier(n: Node)
    requires n.Element? ==> n.attrs == map[] && n.tag != "main" && n.tag != "article"
    ensures forall j :: 0 <= j < 12 ==> !Matches(ContentSelectors[j], n)
  {
  }

  /** Nor does it match the sidebar block. */
  lemma SidebarMissesEarlier()
    ensures forall j :: 0 <= j < 12 ==> !Matches(ContentSelectors[j], SidebarDiv())
  {
    var d := SidebarDiv();
    assert d.attrs.Keys == {"class"} && d.attrs["class"] == SidebarClass;
    SidebarTokens();
    SidebarClassIsOther();
    OneClassMissesEarlier(d, SidebarClass);
  }

  lemma SidebarTokens()
    ensures ClassTokens(SidebarClass) == [SidebarClass]
  {
    SingleToken(SidebarClass);
  }

  lemma SidebarClassIsOther()
    ensures SidebarClass !in ["content", "main-content", "post-content", "entry-content", "markdown-body", "prose", "mdx-content"]
  {
    assert |SidebarClass| == 15;
  }

  /** An element whose only attribute is a single class, none of the class
      names `find_content` looks for, is matched by none of the selectors
      before `[class*='content']`. */
  lemma OneClassMissesEarlier(n: Node, c: string)
    requires n.Element? && n.tag != "main" && n.tag != "article"
    requires n.attrs.Keys == {"class"} && ClassTokens(n.attrs["class"]) == [c]
    requires c !in ["content", "main-content", "post-content", "entry-content", "markdown-body", "prose", "mdx-content"]
    ensures forall j :: 0 <= j < 12 ==> !Matches(ContentSelectors[j], n)
  {
  }

  lemma SidebarLocate()
    ensures Locate(SidebarPage()) == [0, 0]
  {
    var page := SidebarPage();
    forall j, q | 0 <= j < 12 && ValidPath(page, q)
      ensures !Matches(ContentSelectors[j], At(page, q))
    {
      SidebarPaths(q);
      if q == [0, 0] {
        SidebarMissesEarlier();
      } else {
        BareMissesEarlier(At(page, q));
      }
    }
    SidebarIsContent();
    SidebarPaths([0, 0]);
    LocateBySelector(page, 12);
    SidebarPaths(Locate(page));
  }

  lemma SidebarCleaned()
    ensures Cleaned(SidebarPage()) == Some(Element("html", map[], [Element("body", map[], [])]))
  {
    var body := SidebarPage().children[0];
    SidebarIsNoise();
    assert !MatchesAny(NoiseSelectors, body) by {
      BareMissesNoise(body);
    }
    assert !MatchesAny(NoiseSelectors, SidebarPage()) by {
      BareMissesNoise(SidebarPage());
    }
    assert PruneForest([SidebarDiv()], NoiseSelectors) == [];
    assert PruneForest([body], NoiseSelectors) == [Element("body", map[], [])];
  }

  lemma BareMissesNoise(n: Node)
    requires n.Element? && n.attrs == map[] && n.tag in ["html", "body"]
    ensures !MatchesAny(NoiseSelectors, n)
  {
  }

  lemma SidebarPaths(q: Path)
    requires ValidPath(SidebarPage(), q)
    ensures q == [] || q == [0] || q == [0, 0] || q == [0, 0, 0]
    ensures q == [] ==> At(SidebarPage(), q) == SidebarPage()
    ensures q == [0] ==> At(SidebarPage(), q) == SidebarPage().children[0]
    ensures q == [0, 0] ==> At(SidebarPage(), q) == SidebarDiv()
    ensures q == [0, 0, 0] ==> At(SidebarPage(), q) == Text("Getting started")
  {
    var page := SidebarPage();
    var body := page.children[0];
    var div := body.children[0];
    if q != [] {
      var r := q[1..];
      assert ValidPath(body, r);
      if r != [] {
        var u := r[1..];
        assert ValidPath(div, u);
        if u != [] {
          assert ValidPath(div.children[0], u[1..]);
          assert u[1..] == [];
          assert q == [q[0], r[0], u[0]];
          assert At(page, q) == At(body, r) == At(div, u) == At(div.children[0], []);
        } else {
          assert q == [q[0], r[0]];
          assert At(page, q) == At(body, r) == At(div, []);
        }
      } else {
        assert q == [q[0]];
      }
    }
  }

  const SidebarRootClass := "sidebar-visible"

  /** A page whose root element carries a sidebar class, as documentation
      themes that set a class on `<html>` while their sidebar is shown. */
  function SidebarRootPage(): Node {
    Element("html", map["class" := SidebarRootClass], [
      Element("main", map[], [Text("Getting started")])])
  }

  /** On that page `main` is the content, and `[class*='sidebar']` then
      removes the root element and the whole document with it: nothing of
      the located node is left in the document. */
  lemma SidebarRootDestroyed()
    ensures Locate(SidebarRootPage()) == [0]
    ensures Cleaned(SidebarRootPage()) == None
    ensures ContentAsWritten(SidebarRootPage()) == None
  {
    ContainsAt(SidebarRootClass, "sidebar", 0);
    assert Matches(NoiseSelectors[6], SidebarRootPage());
    SidebarRootLocate();
  }

  lemma SidebarRootLocate()
    ensures Locate(SidebarRootPage()) == [0]
  {
    var page := SidebarRootPage();
    assert ValidPath(page, [0]) && Matches(ContentSelectors[0], At(page, [0]));
    LocateBySelector(page, 0);
    SidebarRootPaths(Locate(page));
  }

  lemma SidebarRootPaths(q: Path)
    requires ValidPath(SidebarRootPage(), q)
    ensures q == [] || q == [0] || q == [0, 0]
    ensures q == [] ==> At(SidebarRootPage(), q) == SidebarRootPage()
    ensures q == [0, 0] ==> At(SidebarRootPage(), q) == Text("Getting started")
  {
    var page := SidebarRootPage();
    var main := page.children[0];
    if q != [] {
      var r := q[1..];
      assert ValidPath(main, r);
      if r != [] {
        assert ValidPath(main.children[0], r[1..]);
        assert r[1..] == [];
        assert q == [q[0], r[0]];
        assert At(page, q) == At(main, r) == At(main.children[0], []);
      } else {
        assert q == [q[0]];
      }
    }
  }
}
