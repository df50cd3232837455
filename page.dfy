/**
 * The parsed HTML page the reader works on, as jsoup presents it: a tree of
 * elements (tag name, class list, id, child nodes) whose text nodes keep
 * their document order. `select` is a pre-order walk that keeps the
 * elements a selector matches; `text()` joins the text below an element with
 * whitespace collapsed; `remove()` of a selection drops those subtrees.
 */
module Page {
  import opened Wrappers
  import opened JString

  datatype Node = TextNode(text: string) | ElementNode(elem: Element)

  datatype Element = Element(tag: string, classes: seq<string>, id: string, children: seq<Node>)

  /** A selected element together with its following element siblings, the
      chain `nextElementSibling()` walks. */
  datatype Located = Located(elem: Element, following: seq<Element>)

  // ---------------------------------------------------------------------------
  // Simple selectors.

  /** `hasClass`: class names compare without regard to case. */
  predicate HasClass(e: Element, name: string) {
    exists i | 0 <= i < |e.classes| :: EqualsIgnoreCase(e.classes[i], name)
  }

  /** `tag.class` */
  predicate TagWithClass(e: Element, tag: string, name: string) {
    e.tag == tag && HasClass(e, name)
  }

  /** `h[1-6]`, the test that ends a heading's section. */
  predicate IsHeadingTag(tag: string) {
    |tag| == 2 && tag[0] == 'h' && '1' <= tag[1] <= '6'
  }

  // ---------------------------------------------------------------------------
  // Tree walks.

  /** The element children among `nodes`, in order. */
  function Elements(nodes: seq<Node>): (r: seq<Element>)
    ensures |r| <= |nodes|
  {
    if nodes == [] then []
    else (if nodes[0].ElementNode? then [nodes[0].elem] else []) + Elements(nodes[1..])
  }

  /** `e` and every element below it, in document (pre-)order. */
  function Descendants(e: Element): (r: seq<Element>)
    ensures r != [] && r[0] == e
    decreases e, 1
  {
    [e] + DescendantsOf(e.children)
  }

  function DescendantsOf(nodes: seq<Node>): seq<Element>
    decreases nodes, 0
  {
    if nodes == [] then [] else NodeDescendants(nodes[0]) + DescendantsOf(nodes[1..])
  }

  function NodeDescendants(n: Node): seq<Element>
    decreases n, 2
  {
    if n.ElementNode? then Descendants(n.elem) else []
  }

  /** `select`: the elements at or below `e` that `p` accepts, in document
      order, each with its following siblings. An element counts only when
      `inside` holds for it: it is set from the start, or becomes set below
      an element `scope` accepts (the descendant combinator `A B`). */
  function SelectIn(e: Element, following: seq<Element>, scope: Element -> bool, p: Element -> bool, inside: bool): seq<Located>
    decreases e, 1
  {
    (if inside && p(e) then [Located(e, following)] else [])
    + SelectNodes(e.children, scope, p, inside || scope(e))
  }

  function SelectNodes(nodes: seq<Node>, scope: Element -> bool, p: Element -> bool, inside: bool): seq<Located>
    decreases nodes, 0
  {
    if nodes == [] then []
    else SelectNode(nodes[0], Elements(nodes[1..]), scope, p, inside) + SelectNodes(nodes[1..], scope, p, inside)
  }

  function SelectNode(n: Node, following: seq<Element>, scope: Element -> bool, p: Element -> bool, inside: bool): seq<Located>
    decreases n, 2
  {
    if n.ElementNode? then SelectIn(n.elem, following, scope, p, inside) else []
  }

  function Everywhere(e: Element): bool { true }

  /** `e.select(p)`: `e` itself included. */
  function Select(e: Element, p: Element -> bool): seq<Located> {
    SelectIn(e, [], Everywhere, p, true)
  }

  /** `select` on an element found earlier: the element itself, when `p`
      accepts it, keeps the siblings that follow it in the document. */
  function SelectAt(l: Located, p: Element -> bool): seq<Located> {
    SelectIn(l.elem, l.following, Everywhere, p, true)
  }

  /** `e.select("A B")`: the elements `p` accepts that lie strictly below an element `scope` accepts. */
  function SelectBelow(e: Element, scope: Element -> bool, p: Element -> bool): seq<Located> {
    SelectIn(e, [], scope, p, false)
  }

  function ElemsOf(ls: seq<Located>): (r: seq<Element>)
    ensures |r| == |ls| && forall i :: 0 <= i < |ls| ==> r[i] == ls[i].elem
  {
    if ls == [] then [] else [ls[0].elem] + ElemsOf(ls[1..])
  }

  function Filter(es: seq<Element>, p: Element -> bool): (r: seq<Element>)
    ensures |r| <= |es|
  {
    if es == [] then [] else (if p(es[0]) then [es[0]] else []) + Filter(es[1..], p)
  }

  /** `Elements.first()`. */
  function First(ls: seq<Located>): (r: Option<Located>)
    ensures r.None? <==> ls == []
  {
    if ls == [] then None else Some(ls[0])
  }

  lemma {:induction false} ElemsOfAppend(a: seq<Located>, b: seq<Located>)
    ensures ElemsOf(a + b) == ElemsOf(a) + ElemsOf(b)
  {
    if a != [] {
      assert (a + b)[1..] == a[1..] + b;
      ElemsOfAppend(a[1..], b);
    }
  }

  lemma {:induction false} FilterAppend(a: seq<Element>, b: seq<Element>, p: Element -> bool)
    ensures Filter(a + b, p) == Filter(a, p) + Filter(b, p)
  {
    if a != [] {
      assert (a + b)[0] == a[0];
      assert (a + b)[1..] == a[1..] + b;
      FilterAppend(a[1..], b, p);
      var h := if p(a[0]) then [a[0]] else [];
      assert Filter(a + b, p) == h + Filter(a[1..] + b, p);
      assert Filter(a, p) == h + Filter(a[1..], p);
    } else {
      assert a + b == b;
    }
  }

  /** `select` with no scope is the pre-order listing of the subtree, filtered. */
  lemma {:induction false} SelectIsFilter(e: Element, following: seq<Element>, p: Element -> bool)
    ensures ElemsOf(SelectIn(e, following, Everywhere, p, true)) == Filter(Descendants(e), p)
    decreases e, 1
  {
    SelectNodesIsFilter(e.children, p);
    var head := if p(e) then [Located(e, following)] else [];
    ElemsOfAppend(head, SelectNodes(e.children, Everywhere, p, true));
    FilterAppend([e], DescendantsOf(e.children), p);
  }

  lemma {:induction false} SelectNodesIsFilter(nodes: seq<Node>, p: Element -> bool)
    ensures ElemsOf(SelectNodes(nodes, Everywhere, p, true)) == Filter(DescendantsOf(nodes), p)
    decreases nodes, 0
  {
    if nodes != [] {
      SelectNodesIsFilter(nodes[1..], p);
      var first := SelectNode(nodes[0], Elements(nodes[1..]), Everywhere, p, true);
      SelectNodeIsFilter(nodes[0], Elements(nodes[1..]), p);
      ElemsOfAppend(first, SelectNodes(nodes[1..], Everywhere, p, true));
      FilterAppend(NodeDescendants(nodes[0]), DescendantsOf(nodes[1..]), p);
    }
  }

  lemma {:induction false} SelectNodeIsFilter(n: Node, following: seq<Element>, p: Element -> bool)
    ensures ElemsOf(SelectNode(n, following, Everywhere, p, true)) == Filter(NodeDescendants(n), p)
    decreases n, 2
  {
    if n.ElementNode? {
      SelectIsFilter(n.elem, following, p);
    }
  }

  /** A filter is empty exactly when nothing in the list passes it. */
  lemma {:induction false} FilterEmpty(es: seq<Element>, p: Element -> bool)
    ensures Filter(es, p) == [] <==> forall i :: 0 <= i < |es| ==> !p(es[i])
  {
    if es != [] {
      FilterEmpty(es[1..], p);
      assert forall i :: 1 <= i < |es| ==> es[i] == es[1..][i - 1];
    }
  }

  /** `e.select(p)` finds something exactly when some element of the subtree satisfies `p`. */
  lemma SelectFindsAny(e: Element, p: Element -> bool)
    ensures |Select(e, p)| > 0 <==> exists i :: 0 <= i < |Descendants(e)| && p(Descendants(e)[i])
  {
    SelectIsFilter(e, [], p);
    FilterEmpty(Descendants(e), p);
  }

  // ---------------------------------------------------------------------------
  // Text.

  /** Every run of whitespace becomes one space. */
  function CollapseSpaces(s: string): (r: string)
    ensures forall i :: 0 <= i < |r| ==> r[i] == ' ' || !IsSpace(r[i])
    decreases |s|
  {
    if s == [] then []
    else if IsSpace(s[0]) then " " + CollapseSpaces(s[SpaceRun(s)..])
    else [s[0]] + CollapseSpaces(s[1..])
  }

  /** The raw text below `e`: its text nodes in order, child elements set
      apart by spaces. */
  function RawText(e: Element): string
    decreases e, 1
  {
    RawTextOf(e.children)
  }

  function RawTextOf(nodes: seq<Node>): string
    decreases nodes, 0
  {
    if nodes == [] then ""
    else
      NodeText(nodes[0]) + RawTextOf(nodes[1..])
  }

  function NodeText(n: Node): string
    decreases n, 2
  {
    if n.ElementNode? then " " + RawText(n.elem) + " " else n.text
  }

  /** `text()`: the text below `e`, whitespace collapsed and trimmed. It holds
      no line break and `trim()` leaves it unchanged. */
  function Text(e: Element): (r: string)
    ensures IsTrimmed(r) && forall i :: 0 <= i < |r| ==> !IsLineBreak(r[i])
  {
    var c := CollapseSpaces(RawText(e));
    var r := Trim(c);
    assert forall i :: 0 <= i < |r| ==> !IsLineBreak(r[i]) by {
      var off := TrimOffset(c);
      TrimIsSlice(c);
      forall i | 0 <= i < |r| ensures !IsLineBreak(r[i]) {
        assert r[i] == c[off + i];
      }
    }
    r
  }

  // ---------------------------------------------------------------------------
  // Removal.

  /** `select(p).remove()`: every element below `e` that `p` accepts is cut
      out with its subtree; `e` itself, the document, stays. */
  function Prune(e: Element, p: Element -> bool): Element
    decreases e, 1
  {
    e.(children := PruneNodes(e.children, p))
  }

  function PruneHead(n: Node, p: Element -> bool): seq<Node>
    decreases n, 2
  {
    if n.TextNode? then [n]
    else if p(n.elem) then []
    else [ElementNode(Prune(n.elem, p))]
  }

  function PruneNodes(nodes: seq<Node>, p: Element -> bool): seq<Node>
    decreases nodes, 0
  {
    if nodes == [] then []
    else
      PruneHead(nodes[0], p) + PruneNodes(nodes[1..], p)
  }

  /** The test looks at the element itself (tag, classes, id), not at what is below it. */
  ghost predicate IgnoresChildren(p: Element -> bool) {
    forall x: Element :: p(x) == p(x.(children := []))
  }

  /** After removal nothing `p` accepts is left below the document. */
  lemma {:induction false} PruneRemovesAll(e: Element, p: Element -> bool)
    requires IgnoresChildren(p)
    ensures forall i :: 1 <= i < |Descendants(Prune(e, p))| ==> !p(Descendants(Prune(e, p))[i])
    decreases e, 1
  {
    PruneNodesRemovesAll(e.children, p);
  }

  lemma {:induction false} PruneNodesRemovesAll(nodes: seq<Node>, p: Element -> bool)
    requires IgnoresChildren(p)
    ensures forall i :: 0 <= i < |DescendantsOf(PruneNodes(nodes, p))| ==> !p(DescendantsOf(PruneNodes(nodes, p))[i])
    decreases nodes, 0
  {
    if nodes != [] {
      PruneNodesRemovesAll(nodes[1..], p);
      var head := PruneHead(nodes[0], p);
      var rest := PruneNodes(nodes[1..], p);
      assert PruneNodes(nodes, p) == head + rest;
      DescendantsOfAppend(head, rest);
      PruneHeadRemovesAll(nodes[0], p);
    }
  }

  lemma {:induction false} PruneHeadRemovesAll(n: Node, p: Element -> bool)
    requires IgnoresChildren(p)
    ensures forall i :: 0 <= i < |DescendantsOf(PruneHead(n, p))| ==> !p(DescendantsOf(PruneHead(n, p))[i])
    decreases n, 2
  {
    var head := PruneHead(n, p);
    if n.ElementNode? && !p(n.elem) {
      var c := n.elem;
      PruneRemovesAll(c, p);
      assert head == [ElementNode(Prune(c, p))];
      assert p(Prune(c, p)) == p(c) by {
        assert Prune(c, p).(children := []) == c.(children := []);
      }
      assert DescendantsOf(head) == Descendants(Prune(c, p)) by {
        assert head[1..] == [];
      }
    } else if n.TextNode? {
      assert DescendantsOf(head) == [] by {
        assert head[1..] == [];
      }
    } else {
      assert head == [];
    }
  }

  lemma {:induction false} DescendantsOfAppend(a: seq<Node>, b: seq<Node>)
    ensures DescendantsOf(a + b) == DescendantsOf(a) + DescendantsOf(b)
  {
    if a != [] {
      assert (a + b)[1..] == a[1..] + b;
      assert (a + b)[0] == a[0];
      DescendantsOfAppend(a[1..], b);
      assert DescendantsOf(a + b) == NodeDescendants(a[0]) + DescendantsOf(a[1..] + b);
      assert DescendantsOf(a) == NodeDescendants(a[0]) + DescendantsOf(a[1..]);
    } else {
      assert a + b == b;
    }
  }

  /** Removing the same elements a second time changes nothing. */
  lemma {:induction false} PruneIdempotent(e: Element, p: Element -> bool)
    requires IgnoresChildren(p)
    ensures Prune(Prune(e, p), p) == Prune(e, p)
    decreases e, 1
  {
    PruneNodesIdempotent(e.children, p);
  }

  lemma {:induction false} PruneNodesIdempotent(nodes: seq<Node>, p: Element -> bool)
    requires IgnoresChildren(p)
    ensures PruneNodes(PruneNodes(nodes, p), p) == PruneNodes(nodes, p)
    decreases nodes, 0
  {
    if nodes != [] {
      var head := PruneHead(nodes[0], p);
      var rest := PruneNodes(nodes[1..], p);
      assert PruneNodes(nodes, p) == head + rest;
      PruneNodesAppend(head, rest, p);
      PruneHeadIdempotent(nodes[0], p);
      PruneNodesIdempotent(nodes[1..], p);
    }
  }

  lemma {:induction false} PruneHeadIdempotent(n: Node, p: Element -> bool)
    requires IgnoresChildren(p)
    ensures PruneNodes(PruneHead(n, p), p) == PruneHead(n, p)
    decreases n, 2
  {
    var head := PruneHead(n, p);
    if n.ElementNode? && !p(n.elem) {
      var c := n.elem;
      PruneIdempotent(c, p);
      assert p(Prune(c, p)) == p(c) by {
        assert Prune(c, p).(children := []) == c.(children := []);
      }
      assert head == [ElementNode(Prune(c, p))];
      assert head[1..] == [];
      assert PruneNodes(head, p) == PruneHead(head[0], p) + PruneNodes(head[1..], p);
    } else if n.TextNode? {
      assert head == [n] && head[1..] == [];
      assert PruneNodes(head, p) == PruneHead(head[0], p) + PruneNodes(head[1..], p);
    } else {
      assert head == [];
    }
  }

  lemma {:induction false} PruneNodesAppend(a: seq<Node>, b: seq<Node>, p: Element -> bool)
    ensures PruneNodes(a + b, p) == PruneNodes(a, p) + PruneNodes(b, p)
  {
    if a != [] {
      assert (a + b)[1..] == a[1..] + b;
      assert (a + b)[0] == a[0];
      PruneNodesAppend(a[1..], b, p);
      assert PruneNodes(a + b, p) == PruneHead(a[0], p) + PruneNodes(a[1..] + b, p);
    } else {
      assert a + b == b;
    }
  }

  // ---------------------------------------------------------------------------
  // The document.

  /** `Document.title()`: the text of the first `title` element, or "". */
  function Title(root: Element): string {
    var ts := Select(root, (e: Element) => e.tag == "title");
    if ts == [] then "" else Text(ts[0].elem)
  }

  /** `Document.body()`: the first `body` element, with its following
      siblings; the parser always makes one, and the document itself stands
      in when the tree has none. */
  function Body(root: Element): Located {
    var bs := Select(root, (e: Element) => e.tag == "body");
    if bs == [] then Located(root, []) else bs[0]
  }
}
