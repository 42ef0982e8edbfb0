/**
 * The parsed HTML document that the extractor works on, as a tree of element
 * and text nodes, with what the extractor asks of its HTML library: node
 * references, document order, the simple CSS selectors it uses, the text of a
 * subtree, and the removal of matching subtrees.
 *
 * A node is referred to by its path: the child indices that lead to it from
 * the root (the `html` element). Document order is the order of a preorder
 * walk, which on paths is lexicographic order with a prefix first.
 */
module Html {
  import opened Wrappers
  import opened Strings

  datatype Node =
    | Element(tag: string, attrs: map<string, string>, children: seq<Node>)
    | Text(text: string)

  type Path = seq<nat>

  predicate ValidPath(t: Node, p: Path)
    decreases p
  {
    p == [] || (t.Element? && p[0] < |t.children| && ValidPath(t.children[p[0]], p[1..]))
  }

  function At(t: Node, p: Path): Node
    requires ValidPath(t, p)
    decreases p
  {
    if p == [] then t else At(t.children[p[0]], p[1..])
  }

  /** The tag of the parent of the node at `p`; `outer` is the tag of the parent of `t` itself. */
  function ParentTag(t: Node, p: Path, outer: string): string
    requires ValidPath(t, p)
    decreases p
  {
    if p == [] then outer else ParentTag(t.children[p[0]], p[1..], t.tag)
  }

  /** `p` comes strictly before `q` in document order. */
  predicate Before(p: Path, q: Path)
    decreases |p|
  {
    q != [] && (p == [] || p[0] < q[0] || (p[0] == q[0] && Before(p[1..], q[1..])))
  }

  predicate InDocumentOrder(ps: seq<Path>) {
    forall i, j :: 0 <= i < j < |ps| ==> Before(ps[i], ps[j])
  }

  // ---------------------------------------------------------------------
  // Traversal: the element nodes of a subtree, in document order
  // ---------------------------------------------------------------------

  function Prefixed(k: nat, ps: seq<Path>): (r: seq<Path>)
    ensures |r| == |ps| && forall i :: 0 <= i < |ps| ==> r[i] == [k] + ps[i]
  {
    seq(|ps|, i requires 0 <= i < |ps| => [k] + ps[i])
  }

  /** The element nodes that `traverse()` yields for `t`: `t` itself, then its
      descendants in preorder; text nodes are skipped. */
  function ElementPaths(t: Node): seq<Path>
    decreases t
  {
    if t.Text? then [] else [[]] + ForestPaths(t.children, 0)
  }

  /** The element paths below a list of siblings whose first has index `k`. */
  function ForestPaths(cs: seq<Node>, k: nat): seq<Path>
    decreases cs
  {
    if cs == [] then [] else Prefixed(k, ElementPaths(cs[0])) + ForestPaths(cs[1..], k + 1)
  }

  lemma {:induction false} ElementPathsSound(t: Node)
    ensures forall p :: p in ElementPaths(t) ==> ValidPath(t, p) && At(t, p).Element?
    decreases t
  {
    if t.Element? {
      ForestPathsSound(t.children, 0);
    }
  }

  lemma {:induction false} ForestPathsSound(cs: seq<Node>, k: nat)
    ensures forall q :: q in ForestPaths(cs, k) ==>
      q != [] && k <= q[0] < k + |cs| && ValidPath(cs[q[0] - k], q[1..]) && At(cs[q[0] - k], q[1..]).Element?
    decreases cs
  {
    if cs != [] {
      ElementPathsSound(cs[0]);
      ForestPathsSound(cs[1..], k + 1);
      var head := Prefixed(k, ElementPaths(cs[0]));
      var tail := ForestPaths(cs[1..], k + 1);
      assert ForestPaths(cs, k) == head + tail;
      forall q | q in head
        ensures q != [] && q[0] == k && ValidPath(cs[0], q[1..]) && At(cs[0], q[1..]).Element?
      {
        var i :| 0 <= i < |head| && head[i] == q;
        assert q[1..] == ElementPaths(cs[0])[i];
      }
      forall q | q in tail
        ensures q != [] && k < q[0] < k + |cs| && cs[q[0] - k] == cs[1..][q[0] - (k + 1)]
      {
      }
    }
  }

  /** Every element of `t` is visited by the traversal. */
  lemma {:induction false} ElementPathsComplete(t: Node, p: Path)
    requires ValidPath(t, p) && At(t, p).Element?
    ensures p in ElementPaths(t)
    decreases t
  {
    if p != [] {
      ForestPathsComplete(t.children, 0, p[0], p[1..]);
      assert [0 + p[0]] + p[1..] == p;
    }
  }

  lemma {:induction false} ForestPathsComplete(cs: seq<Node>, k: nat, i: nat, r: Path)
    requires i < |cs| && ValidPath(cs[i], r) && At(cs[i], r).Element?
    ensures [k + i] + r in ForestPaths(cs, k)
    decreases cs
  {
    if i == 0 {
      ElementPathsComplete(cs[0], r);
      var j :| 0 <= j < |ElementPaths(cs[0])| && ElementPaths(cs[0])[j] == r;
      assert Prefixed(k, ElementPaths(cs[0]))[j] == [k + i] + r;
    } else {
      ForestPathsComplete(cs[1..], k + 1, i - 1, r);
      assert (k + 1) + (i - 1) == k + i;
    }
  }

  lemma OrderedConcat(xs: seq<Path>, ys: seq<Path>)
    requires InDocumentOrder(xs) && InDocumentOrder(ys)
    requires forall x, y :: x in xs && y in ys ==> Before(x, y)
    ensures InDocumentOrder(xs + ys)
  {
    forall i, j | 0 <= i < j < |xs + ys| ensures Before((xs + ys)[i], (xs + ys)[j]) {
      if j < |xs| {
      } else if i >= |xs| {
        assert (xs + ys)[i] == ys[i - |xs|];
        assert (xs + ys)[j] == ys[j - |xs|];
      } else {
        assert (xs + ys)[i] in xs;
        assert (xs + ys)[j] in ys;
      }
    }
  }

  /** The traversal visits the elements of `t` in document order. */
  lemma {:induction false} ElementPathsOrdered(t: Node)
    ensures InDocumentOrder(ElementPaths(t))
    decreases t
  {
    if t.Element? {
      ForestPathsOrdered(t.children, 0);
      ForestPathsSound(t.children, 0);
      OrderedConcat([[]], ForestPaths(t.children, 0));
    }
  }

  lemma {:induction false} ForestPathsOrdered(cs: seq<Node>, k: nat)
    ensures InDocumentOrder(ForestPaths(cs, k))
    decreases cs
  {
    if cs != [] {
      var inner := ElementPaths(cs[0]);
      var head := Prefixed(k, inner);
      ElementPathsOrdered(cs[0]);
      forall i, j | 0 <= i < j < |head| ensures Before(head[i], head[j]) {
        assert head[i][1..] == inner[i] && head[j][1..] == inner[j];
      }
      ForestPathsOrdered(cs[1..], k + 1);
      ForestPathsSound(cs[1..], k + 1);
      forall x, y | x in head && y in ForestPaths(cs[1..], k + 1) ensures Before(x, y) {
        var i :| 0 <= i < |head| && head[i] == x;
      }
      OrderedConcat(head, ForestPaths(cs[1..], k + 1));
    }
  }

  // ---------------------------------------------------------------------
  // Selectors
  // ---------------------------------------------------------------------

  /** The CSS selector forms the extractor uses. */
  datatype Selector =
    | TagIs(tag: string)                        // `main`
    | AttrIs(name: string, value: string)       // `[role='main']`, `#content`
    | HasClass(token: string)                   // `.content`
    | AttrContains(name: string, part: string)  // `[class*='content']`
    | TagWithAttr(tag: string, name: string)    // `div[data-page]`

  /** HTML's ASCII whitespace, which separates the tokens of a class list. */
  predicate IsHtmlSpace(c: char) {
    c == ' ' || c == '\t' || c == '\n' || c == '\U{C}' || c == '\r'
  }

  function TokenLength(s: string): (n: nat)
    requires s != [] && !IsHtmlSpace(s[0])
    ensures 1 <= n <= |s|
  {
    if |s| == 1 || IsHtmlSpace(s[1]) then 1 else 1 + TokenLength(s[1..])
  }

  /** The whitespace-separated tokens of a `class` attribute. */
  function ClassTokens(s: string): seq<string>
    decreases |s|
  {
    if s == [] then []
    else if IsHtmlSpace(s[0]) then ClassTokens(s[1..])
    else [s[..TokenLength(s)]] + ClassTokens(s[TokenLength(s)..])
  }

  predicate ContainsSub(s: string, part: string) {
    part <= s || (s != [] && ContainsSub(s[1..], part))
  }

  predicate Matches(sel: Selector, n: Node) {
    n.Element? &&
    match sel
    case TagIs(t) => n.tag == t
    case AttrIs(a, v) => a in n.attrs && n.attrs[a] == v
    case HasClass(c) => "class" in n.attrs && c in ClassTokens(n.attrs["class"])
    case AttrContains(a, part) => part != "" && a in n.attrs && ContainsSub(n.attrs[a], part)
    case TagWithAttr(t, a) => n.tag == t && a in n.attrs
  }

  /** A class list without whitespace is a single class. */
  lemma {:induction false} SingleToken(s: string)
    requires s != [] && forall i :: 0 <= i < |s| ==> !IsHtmlSpace(s[i])
    ensures TokenLength(s) == |s| && ClassTokens(s) == [s]
  {
    if |s| > 1 {
      SingleToken(s[1..]);
    }
    assert s[..|s|] == s && s[|s|..] == [];
  }

  /** `part` occurring at offset `k` of `s` is a substring of it. */
  lemma {:induction false} ContainsAt(s: string, part: string, k: nat)
    requires k <= |s| && part <= s[k..]
    ensures ContainsSub(s, part)
  {
    if k > 0 {
      assert s[1..][k - 1..] == s[k..];
      ContainsAt(s[1..], part, k - 1);
    }
  }

  predicate MatchesAny(sels: seq<Selector>, n: Node) {
    exists i :: 0 <= i < |sels| && Matches(sels[i], n)
  }

  /** The paths of `ps` whose nodes match `sel`, in the order of `ps`. */
  function Select(t: Node, sel: Selector, ps: seq<Path>): (r: seq<Path>)
    requires forall p :: p in ps ==> ValidPath(t, p)
    ensures forall p :: p in r ==> p in ps && Matches(sel, At(t, p))
  {
    if ps == [] then []
    else (if Matches(sel, At(t, ps[0])) then [ps[0]] else []) + Select(t, sel, ps[1..])
  }

  /** `tree.css(sel)`: every matching node of the document, in document order. */
  function Css(t: Node, sel: Selector): seq<Path> {
    ElementPathsSound(t);
    Select(t, sel, ElementPaths(t))
  }

  /** `tree.css_first(sel)`. */
  function CssFirst(t: Node, sel: Selector): Option<Path> {
    var ms := Css(t, sel);
    if ms == [] then None else Some(ms[0])
  }

  lemma {:induction false} SelectComplete(t: Node, sel: Selector, ps: seq<Path>, p: Path)
    requires forall q :: q in ps ==> ValidPath(t, q)
    requires p in ps && Matches(sel, At(t, p))
    ensures p in Select(t, sel, ps)
  {
    if ps[0] != p {
      SelectComplete(t, sel, ps[1..], p);
    }
  }

  lemma {:induction false} SelectOrdered(t: Node, sel: Selector, ps: seq<Path>)
    requires forall q :: q in ps ==> ValidPath(t, q)
    requires InDocumentOrder(ps)
    ensures InDocumentOrder(Select(t, sel, ps))
  {
    if ps != [] {
      SelectOrdered(t, sel, ps[1..]);
      var head := if Matches(sel, At(t, ps[0])) then [ps[0]] else [];
      forall x, y | x in head && y in Select(t, sel, ps[1..]) ensures Before(x, y) {
        var j :| 0 <= j < |ps[1..]| && ps[1..][j] == y;
        assert ps[j + 1] == y;
      }
      OrderedConcat(head, Select(t, sel, ps[1..]));
    }
  }

  /** `tree.css(sel)` holds exactly the matching nodes, in document order. */
  lemma CssExact(t: Node, sel: Selector)
    ensures InDocumentOrder(Css(t, sel))
    ensures forall p :: p in Css(t, sel) ==> ValidPath(t, p) && Matches(sel, At(t, p))
    ensures forall p :: ValidPath(t, p) && Matches(sel, At(t, p)) ==> p in Css(t, sel)
  {
    ElementPathsSound(t);
    ElementPathsOrdered(t);
    SelectOrdered(t, sel, ElementPaths(t));
    forall p | ValidPath(t, p) && Matches(sel, At(t, p)) ensures p in Css(t, sel) {
      ElementPathsComplete(t, p);
      SelectComplete(t, sel, ElementPaths(t), p);
    }
  }

  /** `tree.css_first(sel)` is the matching node that comes first in document
      order, and is absent exactly when nothing matches. */
  lemma CssFirstIsEarliest(t: Node, sel: Selector)
    ensures CssFirst(t, sel).None? ==> forall q :: ValidPath(t, q) ==> !Matches(sel, At(t, q))
    ensures CssFirst(t, sel).Some? ==>
      var p := CssFirst(t, sel).value;
      ValidPath(t, p) && Matches(sel, At(t, p)) &&
      forall q :: ValidPath(t, q) && Matches(sel, At(t, q)) ==> q == p || Before(p, q)
  {
    CssExact(t, sel);
    var ms := Css(t, sel);
    if ms != [] {
      forall q | ValidPath(t, q) && Matches(sel, At(t, q)) ensures q == ms[0] || Before(ms[0], q) {
        var j :| 0 <= j < |ms| && ms[j] == q;
      }
    }
  }

  // ---------------------------------------------------------------------
  // Text of a subtree
  // ---------------------------------------------------------------------

  /** The text nodes below `t` in document order, each stripped. */
  function TextPieces(t: Node): seq<string>
    decreases t
  {
    match t
    case Text(s) => [Strip(s)]
    case Element(_, _, cs) => ForestPieces(cs)
  }

  function ForestPieces(cs: seq<Node>): seq<string>
    decreases cs
  {
    if cs == [] then [] else TextPieces(cs[0]) + ForestPieces(cs[1..])
  }

  /** selectolax's `node.text(separator=sep, strip=True)` on an element: every
      text node below it, stripped, joined with `sep`. Empty pieces are kept,
      so they still contribute their separators. */
  function DeepText(t: Node, sep: string): string {
    Join(sep, TextPieces(t))
  }

  /** The pieces of the `k`-th sibling are a run of the pieces of the list. */
  lemma {:induction false} ForestPiecesAt(cs: seq<Node>, k: nat) returns (a: seq<string>, b: seq<string>)
    requires k < |cs|
    ensures ForestPieces(cs) == a + TextPieces(cs[k]) + b
    decreases k
  {
    if k == 0 {
      a, b := [], ForestPieces(cs[1..]);
    } else {
      var a1, b1 := ForestPiecesAt(cs[1..], k - 1);
      a, b := TextPieces(cs[0]) + a1, b1;
    }
  }

  /** The pieces of a descendant are a run of the pieces of its ancestor. */
  lemma {:induction false} PiecesInfix(t: Node, p: Path) returns (a: seq<string>, b: seq<string>)
    requires ValidPath(t, p)
    ensures TextPieces(t) == a + TextPieces(At(t, p)) + b
    decreases p
  {
    if p == [] {
      a, b := [], [];
    } else {
      var cs := t.children;
      var a1, b1 := ForestPiecesAt(cs, p[0]);
      var a2, b2 := PiecesInfix(cs[p[0]], p[1..]);
      a, b := a1 + a2, b2 + b1;
    }
  }

  /** A descendant's text is never longer than its ancestor's. */
  lemma DeepTextShorter(t: Node, p: Path, sep: string)
    requires ValidPath(t, p)
    ensures |DeepText(At(t, p), sep)| <= |DeepText(t, sep)|
  {
    var a, b := PiecesInfix(t, p);
    JoinInfix(sep, a, TextPieces(At(t, p)), b);
  }

  // ---------------------------------------------------------------------
  // Removing matching subtrees
  // ---------------------------------------------------------------------

  /** `t` with every descendant subtree whose root matches one of `noise`
      removed; `t` itself is kept. */
  function Prune(t: Node, noise: seq<Selector>): (r: Node)
    ensures r.Element? == t.Element?
    ensures t.Element? ==> r.tag == t.tag && r.attrs == t.attrs
    ensures t.Text? ==> r == t
    decreases t
  {
    match t
    case Text(_) => t
    case Element(tag, attrs, cs) => Element(tag, attrs, PruneForest(cs, noise))
  }

  function PruneForest(cs: seq<Node>, noise: seq<Selector>): seq<Node>
    decreases cs
  {
    if cs == [] then []
    else (if MatchesAny(noise, cs[0]) then [] else [Prune(cs[0], noise)]) + PruneForest(cs[1..], noise)
  }

  /** Pruning with no selectors changes nothing. */
  lemma {:induction false} PruneNothing(t: Node)
    ensures Prune(t, []) == t
    decreases t
  {
    if t.Element? {
      PruneForestNothing(t.children);
    }
  }

  lemma {:induction false} PruneForestNothing(cs: seq<Node>)
    ensures PruneForest(cs, []) == cs
    decreases cs
  {
    if cs != [] {
      PruneNothing(cs[0]);
      PruneForestNothing(cs[1..]);
      assert cs == [cs[0]] + cs[1..];
    }
  }

  lemma MatchesAnySnoc(sels: seq<Selector>, s: Selector, n: Node)
    ensures MatchesAny(sels + [s], n) <==> MatchesAny(sels, n) || Matches(s, n)
  {
    if Matches(s, n) {
      assert (sels + [s])[|sels|] == s;
    }
    if MatchesAny(sels, n) {
      var i :| 0 <= i < |sels| && Matches(sels[i], n);
      assert (sels + [s])[i] == sels[i];
    }
  }

  lemma PruneKeepsMatching(t: Node, noise: seq<Selector>, sel: Selector)
    ensures Matches(sel, Prune(t, noise)) == Matches(sel, t)
  {
  }

  /** Removing the matches of `noise` and then those of `s` is removing the
      matches of `noise + [s]` at once: the selectors look at a node alone. */
  lemma {:induction false} PruneThenPrune(t: Node, noise: seq<Selector>, s: Selector)
    ensures Prune(Prune(t, noise), [s]) == Prune(t, noise + [s])
    decreases t
  {
    if t.Element? {
      PruneForestThenPrune(t.children, noise, s);
    }
  }

  lemma {:induction false} PruneForestThenPrune(cs: seq<Node>, noise: seq<Selector>, s: Selector)
    ensures PruneForest(PruneForest(cs, noise), [s]) == PruneForest(cs, noise + [s])
    decreases cs
  {
    if cs != [] {
      var c := cs[0];
      var rest := PruneForest(cs[1..], noise);
      PruneForestThenPrune(cs[1..], noise, s);
      MatchesAnySnoc(noise, s, c);
      MatchesAnySnoc([], s, Prune(c, noise));
      PruneKeepsMatching(c, noise, s);
      if MatchesAny(noise, c) {
        assert PruneForest(cs, noise) == rest;
        assert MatchesAny(noise + [s], c);
        assert PruneForest(cs, noise + [s]) == PruneForest(cs[1..], noise + [s]);
      } else {
        var h := Prune(c, noise);
        assert PruneForest(cs, noise) == [h] + rest;
        assert ([h] + rest)[0] == h && ([h] + rest)[1..] == rest;
        PruneThenPrune(c, noise, s);
        if Matches(s, c) {
          assert PruneForest([h] + rest, [s]) == PruneForest(rest, [s]);
          assert PruneForest(cs, noise + [s]) == PruneForest(cs[1..], noise + [s]);
        } else {
          assert PruneForest([h] + rest, [s]) == [Prune(h, [s])] + PruneForest(rest, [s]);
          assert PruneForest(cs, noise + [s]) == [Prune(c, noise + [s])] + PruneForest(cs[1..], noise + [s]);
        }
      }
    }
  }

  lemma {:induction false} PruneForestAppend(xs: seq<Node>, ys: seq<Node>, noise: seq<Selector>)
    ensures PruneForest(xs + ys, noise) == PruneForest(xs, noise) + PruneForest(ys, noise)
  {
    if xs != [] {
      assert (xs + ys)[0] == xs[0] && (xs + ys)[1..] == xs[1..] + ys;
      PruneForestAppend(xs[1..], ys, noise);
      var head := if MatchesAny(noise, xs[0]) then [] else [Prune(xs[0], noise)];
      calc {
        PruneForest(xs + ys, noise);
        head + PruneForest(xs[1..] + ys, noise);
        head + (PruneForest(xs[1..], noise) + PruneForest(ys, noise));
        (head + PruneForest(xs[1..], noise)) + PruneForest(ys, noise);
        PruneForest(xs, noise) + PruneForest(ys, noise);
      }
    } else {
      assert xs + ys == ys;
    }
  }

  /** Nothing below the root of a pruned tree matches the removal list. */
  lemma {:induction false} PrunedHasNoNoise(t: Node, noise: seq<Selector>, q: Path)
    requires ValidPath(Prune(t, noise), q) && q != []
    ensures !MatchesAny(noise, At(Prune(t, noise), q))
    decreases q
  {
    var i := PruneForestOrigin(t.children, noise, q[0]);
    var c := t.children[i];
    if q[1..] != [] {
      PrunedHasNoNoise(c, noise, q[1..]);
    }
  }

  /** Every child that survives pruning is the pruned form of a child that
      was not itself removed. */
  lemma {:induction false} PruneForestOrigin(cs: seq<Node>, noise: seq<Selector>, j: nat) returns (i: nat)
    requires j < |PruneForest(cs, noise)|
    ensures i < |cs| && !MatchesAny(noise, cs[i]) && PruneForest(cs, noise)[j] == Prune(cs[i], noise)
    decreases cs
  {
    var head := if MatchesAny(noise, cs[0]) then [] else [Prune(cs[0], noise)];
    if j < |head| {
      i := 0;
    } else {
      var k := PruneForestOrigin(cs[1..], noise, j - |head|);
      i := k + 1;
    }
  }

  // ---------------------------------------------------------------------
  // What pruning does to a node reference
  // ---------------------------------------------------------------------

  /** The node at `p` is still attached after pruning: neither it nor any of
      its ancestors below the root matches `noise`. */
  predicate Survives(t: Node, p: Path, noise: seq<Selector>)
    requires ValidPath(t, p)
    decreases p
  {
    p == [] || (!MatchesAny(noise, t.children[p[0]]) && Survives(t.children[p[0]], p[1..], noise))
  }

  /** The position that child `i` takes among the siblings that survive. */
  function NewIndex(cs: seq<Node>, i: nat, noise: seq<Selector>): nat
    requires i <= |cs|
  {
    |PruneForest(cs[..i], noise)|
  }

  /** Where a surviving node sits in the pruned tree. */
  function Relocate(t: Node, p: Path, noise: seq<Selector>): Path
    requires ValidPath(t, p) && Survives(t, p, noise)
    decreases p
  {
    if p == [] then []
    else [NewIndex(t.children, p[0], noise)] + Relocate(t.children[p[0]], p[1..], noise)
  }

  lemma PruneForestAt(cs: seq<Node>, i: nat, noise: seq<Selector>)
    requires i < |cs| && !MatchesAny(noise, cs[i])
    ensures NewIndex(cs, i, noise) < |PruneForest(cs, noise)|
    ensures PruneForest(cs, noise)[NewIndex(cs, i, noise)] == Prune(cs[i], noise)
  {
    assert cs == cs[..i] + cs[i..];
    PruneForestAppend(cs[..i], cs[i..], noise);
    assert cs[i..][0] == cs[i];
  }

  /** A node that survives pruning is found at its relocated path, as the
      pruned form of its old subtree, under a parent with the same tag. */
  lemma {:induction false} RelocateFindsPruned(t: Node, p: Path, noise: seq<Selector>, outer: string)
    requires ValidPath(t, p) && Survives(t, p, noise)
    ensures ValidPath(Prune(t, noise), Relocate(t, p, noise))
    ensures At(Prune(t, noise), Relocate(t, p, noise)) == Prune(At(t, p), noise)
    ensures ParentTag(Prune(t, noise), Relocate(t, p, noise), outer) == ParentTag(t, p, outer)
    decreases p
  {
    if p != [] {
      var c := t.children[p[0]];
      PruneForestAt(t.children, p[0], noise);
      RelocateFindsPruned(c, p[1..], noise, t.tag);
      var q := Relocate(t, p, noise);
      assert q[0] == NewIndex(t.children, p[0], noise);
      assert q[1..] == Relocate(c, p[1..], noise);
    }
  }

  lemma NewIndexMonotone(cs: seq<Node>, i: nat, j: nat, noise: seq<Selector>)
    requires i < j <= |cs| && !MatchesAny(noise, cs[i])
    ensures NewIndex(cs, i, noise) < NewIndex(cs, j, noise)
  {
    assert cs[..j] == cs[..i] + cs[i..j];
    PruneForestAppend(cs[..i], cs[i..j], noise);
    assert cs[i..j] == [cs[i]] + cs[i + 1..j];
    PruneForestAppend([cs[i]], cs[i + 1..j], noise);
  }

  /** Pruning keeps the surviving nodes in their relative document order. */
  lemma {:induction false} RelocateKeepsOrder(t: Node, p: Path, q: Path, noise: seq<Selector>)
    requires ValidPath(t, p) && Survives(t, p, noise)
    requires ValidPath(t, q) && Survives(t, q, noise)
    requires Before(p, q)
    ensures Before(Relocate(t, p, noise), Relocate(t, q, noise))
    decreases p
  {
    if p != [] {
      if p[0] < q[0] {
        NewIndexMonotone(t.children, p[0], q[0], noise);
      } else {
        RelocateKeepsOrder(t.children[p[0]], p[1..], q[1..], noise);
      }
    }
  }
}
