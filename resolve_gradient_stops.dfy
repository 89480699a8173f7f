/**
 * `resolve_gradient_stops`: a gradient with an href and no children gets
 * shallow copies of the children of the gradient its href chain ends at;
 * afterwards no gradient keeps an href.
 */
module ResolveGradientStops {
  import opened Wrappers
  import opened SvgTypes
  import opened Dom

  predicate IsGradientNode(n: Node) { n.kind.Element? && IsGradient(n.kind.eid) }

  /** The gradients the first loop visits. */
  predicate Fillable(n: Node) { IsGradientNode(n) && AId.Href in n.attrs && n.children == [] }

  /** `resolve`: the gradient whose children are copied, found by following hrefs through gradients only. */
  function Source(doc: Node, n: Node): (r: Option<Node>)
    ensures r.Some? ==> IsGradientNode(r.value) && AId.Href !in r.value.attrs
  {
    ChainEnd(doc, n, IsGradientNode, Fuel(doc))
  }

  /** `copy_node`: kind and attributes, no id and no children, under a new uid. */
  function ShallowCopy(n: Node, u: UId): (r: Node)
    ensures r.uid == u && r.kind == n.kind && r.attrs == n.attrs && r.id == "" && r.children == []
  {
    Node(u, n.kind, "", n.attrs, [])
  }

  /** Copies of `ns` in order, the j-th under uid first + j. */
  function ShallowCopies(ns: seq<Node>, first: nat): (r: seq<Node>)
    ensures |r| == |ns|
    ensures forall j :: 0 <= j < |ns| ==> r[j] == ShallowCopy(ns[j], first + j)
  {
    seq(|ns|, j requires 0 <= j < |ns| => ShallowCopy(ns[j], first + j))
  }

  /** The copy loop: each child of the source, copied, is appended in order. */
  method AppendCopies(g: Node, src: seq<Node>, first: nat) returns (r: Node)
    ensures r == g.(children := g.children + ShallowCopies(src, first))
  {
    r := g;
    var j := 0;
    while j < |src|
      invariant 0 <= j <= |src|
      invariant r == g.(children := g.children + ShallowCopies(src[..j], first))
    {
      var copy := ShallowCopy(src[j], first + j);
      assert ShallowCopies(src[..j + 1], first) == ShallowCopies(src[..j], first) + [copy];
      r := r.(children := r.children + [copy]);
      j := j + 1;
    }
    assert src[..j] == src;
  }

  /** One visited gradient: filled from its source, or left empty when the chain fails. */
  function Fill(doc: Node, n: Node): (r: Node)
    ensures r.uid == n.uid && r.kind == n.kind && r.id == n.id && r.attrs == n.attrs
    ensures Source(doc, n).Some? ==> r.children == n.children + ShallowCopies(Source(doc, n).value.children, CopyBase(doc, n))
    ensures Source(doc, n).None? ==> r.children == n.children
  {
    match Source(doc, n)
    case Some(src) => n.(children := n.children + ShallowCopies(src.children, CopyBase(doc, n)))
    case None => n
  }

  /** The second loop on one node. */
  function DropGradientHref(n: Node): (r: Node)
    ensures r.uid == n.uid && r.kind == n.kind && r.id == n.id
    ensures r.attrs == if IsGradientNode(n) then n.attrs - {AId.Href} else n.attrs
  {
    if IsGradientNode(n) && AId.Href in n.attrs then n.Remove(AId.Href) else n
  }

  function ResolveGradientStopsDoc(doc: Node): (r: Node)
  {
    MapDoc(doc.(children := FillWalk(doc.children, Fillable, n => Fill(doc, n))), DropGradientHref)
  }

  /** Afterwards no gradient carries `xlink:href`. */
  lemma NoGradientHref(doc: Node)
    ensures forall m :: m in Descendants(ResolveGradientStopsDoc(doc)) && IsGradientNode(m) ==> AId.Href !in m.attrs
  {
    var filled := doc.(children := FillWalk(doc.children, Fillable, n => Fill(doc, n)));
    MapDocFlat(filled, DropGradientHref);
    forall m | m in Descendants(ResolveGradientStopsDoc(doc)) && IsGradientNode(m)
      ensures AId.Href !in m.attrs
    {
      var k :| 0 <= k < |Descendants(ResolveGradientStopsDoc(doc))| && Descendants(ResolveGradientStopsDoc(doc))[k] == m;
      assert HeadOf(m) == HeadOf(DropGradientHref(Descendants(filled)[k]));
    }
  }

  /**
   * Only childless gradients with an href gain children; every other node
   * keeps as many children as it had, and a node's own attributes are not
   * touched by the first loop.
   */
  lemma {:induction false} OnlyEmptyGradientsFilled(doc: Node, ns: seq<Node>, i: nat)
    requires i < |ns|
    ensures var r := FillWalk(ns, Fillable, n => Fill(doc, n))[i];
            HeadOf(r) == HeadOf(ns[i])
            && (!Fillable(ns[i]) ==> |r.children| == |ns[i].children|)
            && (Fillable(ns[i]) ==> r.children == (match Source(doc, ns[i])
                                                   case Some(src) => ShallowCopies(src.children, CopyBase(doc, ns[i]))
                                                   case None => []))
  {
  }

  /**
   * The copies are shallow: one per child of the source, in order, with the
   * same kind and attributes, no id, no children, and a uid no node of the
   * document has.
   */
  lemma CopiesAreFresh(doc: Node, n: Node)
    requires Fillable(n) && Source(doc, n).Some?
    ensures var src := Source(doc, n).value;
            var r := Fill(doc, n);
            |r.children| == |src.children|
            && forall j :: 0 <= j < |src.children| ==>
                 r.children[j].kind == src.children[j].kind && r.children[j].attrs == src.children[j].attrs
                 && r.children[j].id == "" && r.children[j].children == []
                 && forall m :: m in Descendants(doc) ==> m.uid != r.children[j].uid
  {
    FlatSingle(doc);
    var src := Source(doc, n).value;
    var r := Fill(doc, n);
    var base := CopyBase(doc, n);
    assert base > MaxUid([doc]);
    assert r.children == ShallowCopies(src.children, base);
    forall j | 0 <= j < |src.children|
      ensures forall m :: m in Descendants(doc) ==> m.uid != r.children[j].uid
    {
      assert r.children[j].uid == base + j;
    }
  }

  /** A chain that reaches a non-gradient copies nothing. */
  lemma NonGradientInChain(doc: Node, n: Node)
    requires Fillable(n) && HrefTarget(doc, n).Some? && !IsGradientNode(HrefTarget(doc, n).value)
    ensures Fill(doc, n) == n
  {
    FlatLength([doc]);
    ChainEndFails(doc, n, IsGradientNode, Fuel(doc));
  }

  /** Following one href: the source of a gradient is the source of its target. */
  lemma SourceFollowsHref(doc: Node, n: Node)
    requires IsGradientNode(n) && HrefTarget(doc, n).Some?
    ensures Source(doc, n) == ChainEnd(doc, HrefTarget(doc, n).value, IsGradientNode, Fuel(doc) - 1)
  {
    FlatLength([doc]);
    ChainEndStep(doc, n, IsGradientNode, Fuel(doc));
  }
}
