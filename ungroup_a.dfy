/**
 * `ungroup_a`: an `a` element cannot simply be removed, so it becomes a
 * `tspan` when some ancestor is a `text` element and a `g` otherwise, and
 * it loses its `xlink:href`.
 */
module UngroupA {
  import opened SvgTypes
  import opened Dom

  /** The loop body on one node; `inText` says whether a strict ancestor is a `text` element. */
  function Ungroup(n: Node, inText: bool): (r: Node)
    ensures r.uid == n.uid && r.id == n.id && r.children == n.children
    ensures !n.Is(EId.A) ==> r == n
    ensures n.Is(EId.A) ==> r.attrs == n.attrs - {AId.Href}
    ensures n.Is(EId.A) ==> (r.Is(EId.Tspan) <==> inText) && (r.Is(EId.G) <==> !inText)
  {
    if n.Is(EId.A) then n.Remove(AId.Href).(kind := Element(if inText then EId.Tspan else EId.G))
    else n
  }

  /** One node and its subtree; its children are below a `text` when it is one or an ancestor is. */
  function WalkNode(n: Node, inText: bool): (r: Node)
    ensures HeadOf(r) == HeadOf(Ungroup(n, inText))
    ensures r.children == Walk(n.children, inText || n.Is(EId.Text))
  {
    Ungroup(n, inText).(children := Walk(n.children, inText || n.Is(EId.Text)))
  }

  /** Every node of a forest whose strict ancestors above it include a `text` exactly when `inText`. */
  function Walk(ns: seq<Node>, inText: bool): (r: seq<Node>)
    ensures |r| == |ns|
    ensures forall i :: 0 <= i < |ns| ==> r[i] == WalkNode(ns[i], inText)
  {
    if ns == [] then []
    else
      var head := WalkNode(ns[0], inText);
      var rest := Walk(ns[1..], inText);
      ConsIndex(head, rest);
      [head] + rest
  }

  /** The pass over the document: the root is not an element, so nothing above the top is a `text`. */
  function UngroupAnchors(doc: Node): (r: Node)
    ensures HeadOf(r) == HeadOf(doc) || doc.Is(EId.A)
  {
    WalkNode(doc, false)
  }

  /** One node of the result against the node it came from. */
  predicate Ungrouped(o: Node, m: Node)
  {
    m.uid == o.uid && m.id == o.id
    && (o.Is(EId.A) ==> (m.Is(EId.G) || m.Is(EId.Tspan)) && m.attrs == o.attrs - {AId.Href})
    && (!o.Is(EId.A) ==> HeadOf(m) == HeadOf(o))
  }

  /**
   * In document order, every node of the result is the node that was there:
   * unchanged when it was not an `a`, a `g` or a `tspan` without its href when
   * it was.
   */
  lemma {:induction false} WalkPairwise(ns: seq<Node>, inText: bool)
    ensures Pairwise(Flat(ns), Flat(Walk(ns, inText)), Ungrouped)
  {
    if ns != [] {
      var r := Walk(ns, inText);
      var t := inText || ns[0].Is(EId.Text);
      WalkPairwise(ns[0].children, t);
      WalkPairwise(ns[1..], inText);
      assert r[1..] == Walk(ns[1..], inText);
      assert Flat(r) == [r[0]] + Flat(r[0].children) + Flat(r[1..]);
      assert Flat(ns) == [ns[0]] + Flat(ns[0].children) + Flat(ns[1..]);
      assert Pairwise([ns[0]], [r[0]], Ungrouped);
      PairwiseAppend([ns[0]], [r[0]], Flat(ns[0].children), Flat(r[0].children), Ungrouped);
      PairwiseAppend([ns[0]] + Flat(ns[0].children), [r[0]] + Flat(r[0].children),
                     Flat(ns[1..]), Flat(r[1..]), Ungrouped);
    }
  }

  /** A result related node by node to its original holds no `a` element. */
  lemma UngroupedNoAnchors(o: seq<Node>, s: seq<Node>)
    requires Pairwise(o, s, Ungrouped)
    ensures forall m :: m in s ==> !m.Is(EId.A)
  {
    forall m | m in s
      ensures !m.Is(EId.A)
    {
      var k :| 0 <= k < |s| && s[k] == m;
      assert Ungrouped(o[k], m);
    }
  }

  /** No `a` element is left anywhere in a walked forest. */
  lemma WalkNoAnchors(ns: seq<Node>, inText: bool)
    ensures forall m :: m in Flat(Walk(ns, inText)) ==> !m.Is(EId.A)
  {
    WalkPairwise(ns, inText);
    UngroupedNoAnchors(Flat(ns), Flat(Walk(ns, inText)));
  }

  /** No `a` element is left anywhere in the document. */
  lemma NoAnchorsLeft(doc: Node)
    ensures forall m :: m in Descendants(UngroupAnchors(doc)) ==> !m.Is(EId.A)
  {
    WalkNoAnchors(doc.children, doc.Is(EId.Text));
  }

  /** A forest without `a` elements is left as it is. */
  lemma {:induction false} WalkNothing(ns: seq<Node>, inText: bool)
    requires forall m :: m in Flat(ns) ==> !m.Is(EId.A)
    ensures Walk(ns, inText) == ns
  {
    if ns != [] {
      FlatContains(ns, 0);
      assert forall m :: m in Flat(ns[1..]) ==> m in Flat(ns);
      WalkNothing(ns[0].children, inText || ns[0].Is(EId.Text));
      WalkNothing(ns[1..], inText);
      var r := Walk(ns, inText);
      assert r[1..] == Walk(ns[1..], inText);
      assert r[0] == ns[0];
      assert r == [r[0]] + r[1..];
      assert ns == [ns[0]] + ns[1..];
    }
  }

  /** Running the pass twice gives what running it once does. */
  lemma Idempotent(doc: Node)
    ensures UngroupAnchors(UngroupAnchors(doc)) == UngroupAnchors(doc)
  {
    var r := UngroupAnchors(doc);
    WalkNoAnchors(doc.children, doc.Is(EId.Text));
    WalkNothing(r.children, r.Is(EId.Text));
  }

  /** An `a` directly inside a `text` becomes a `tspan`; at the top, a `g`. */
  lemma AnchorInText(t: Node, a: Node)
    requires t.Is(EId.Text) && t.children == [a] && a.Is(EId.A)
    ensures WalkNode(t, false).children[0].Is(EId.Tspan)
    ensures WalkNode(a, false).Is(EId.G)
  {
  }
}
