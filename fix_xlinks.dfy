/**
 * `fix_xlinks` and `remove_xlinks`: `xlink:href` attributes that are not
 * Links are dropped, a gradient may only link to a gradient and a pattern to
 * a pattern, and once everything is resolved every href goes. Images keep
 * theirs throughout.
 */
module FixXlinks {
  import opened Wrappers
  import opened SvgTypes
  import opened Dom

  predicate IsGradientNode(n: Node) { n.kind.Element? && IsGradient(n.kind.eid) }

  /** The first loop on one node: a non-Link href goes, except on images. */
  function DropNonLink(n: Node): (r: Node)
    ensures r.uid == n.uid && r.kind == n.kind && r.id == n.id
    ensures n.Is(EId.Image) ==> r == n
    ensures r.attrs == if !n.Is(EId.Image) && AId.Href in n.attrs && !n.attrs[AId.Href].Link?
                       then n.attrs - {AId.Href} else n.attrs
  {
    if !n.Is(EId.Image) && AId.Href in n.attrs && !n.attrs[AId.Href].Link? then n.Remove(AId.Href) else n
  }

  /** Whether a Link href of an element of kind `e` points at the right kind of element. */
  predicate ValidHref(doc: Node, e: EId, u: UId)
  {
    if IsGradient(e) then TargetTag(doc, u).Some? && IsGradient(TargetTag(doc, u).value)
    else if e == EId.Pattern then TargetTag(doc, u) == Some(EId.Pattern)
    else true
  }

  /** The second loop on one node of `doc`. */
  function DropWrongKind(doc: Node, n: Node): (r: Node)
    ensures r.uid == n.uid && r.kind == n.kind && r.id == n.id
    ensures r.attrs == if n.IsSvgElement() && AId.Href in n.attrs && n.attrs[AId.Href].Link?
                          && !ValidHref(doc, n.kind.eid, n.attrs[AId.Href].target)
                       then n.attrs - {AId.Href} else n.attrs
  {
    if n.IsSvgElement() && AId.Href in n.attrs && n.attrs[AId.Href].Link?
       && !ValidHref(doc, n.kind.eid, n.attrs[AId.Href].target)
    then n.Remove(AId.Href) else n
  }

  function FixXlinksDoc(doc: Node): (r: Node)
  {
    var d1 := MapDoc(doc, DropNonLink);
    MapDoc(d1, n => DropWrongKind(d1, n))
  }

  /** `remove_xlinks` on one node. */
  function DropHref(n: Node): (r: Node)
    ensures r.uid == n.uid && r.kind == n.kind && r.id == n.id
    ensures r.attrs == if !n.Is(EId.Image) then n.attrs - {AId.Href} else n.attrs
  {
    if !n.Is(EId.Image) && AId.Href in n.attrs then n.Remove(AId.Href) else n
  }

  function RemoveXlinks(doc: Node): (r: Node)
  {
    MapDoc(doc, DropHref)
  }

  /**
   * Node by node in document order, the pass keeps uid, kind and id; whatever
   * href a node other than an image keeps is a Link, and of the right kind
   * on gradients and patterns; every other attribute is as it was.
   */
  lemma FixXlinksEffect(doc: Node)
    ensures var r := FixXlinksDoc(doc);
            |Descendants(r)| == |Descendants(doc)|
            && forall k :: 0 <= k < |Descendants(doc)| ==>
                 var m := Descendants(r)[k];
                 var o := Descendants(doc)[k];
                 m.uid == o.uid && m.kind == o.kind && m.id == o.id
                 && m.attrs - {AId.Href} == o.attrs - {AId.Href}
                 && (AId.Href in m.attrs ==> AId.Href in o.attrs && m.attrs[AId.Href] == o.attrs[AId.Href])
                 && (!o.Is(EId.Image) && AId.Href in m.attrs ==> m.attrs[AId.Href].Link?)
                 && (AId.Href in m.attrs && m.IsSvgElement() && !o.Is(EId.Image) ==>
                       ValidHref(doc, m.kind.eid, m.attrs[AId.Href].target))
  {
    var d1 := MapDoc(doc, DropNonLink);
    var f2 := n => DropWrongKind(d1, n);
    var r := FixXlinksDoc(doc);
    MapDocFlat(doc, DropNonLink);
    MapDocFlat(d1, f2);
    forall k | 0 <= k < |Descendants(doc)|
      ensures var m := Descendants(r)[k];
              var o := Descendants(doc)[k];
              m.uid == o.uid && m.kind == o.kind && m.id == o.id
              && m.attrs - {AId.Href} == o.attrs - {AId.Href}
              && (AId.Href in m.attrs ==> AId.Href in o.attrs && m.attrs[AId.Href] == o.attrs[AId.Href])
              && (!o.Is(EId.Image) && AId.Href in m.attrs ==> m.attrs[AId.Href].Link?)
              && (AId.Href in m.attrs && m.IsSvgElement() && !o.Is(EId.Image) ==>
                    ValidHref(doc, m.kind.eid, m.attrs[AId.Href].target))
    {
      var o := Descendants(doc)[k];
      var d := Descendants(d1)[k];
      var m := Descendants(r)[k];
      assert HeadOf(d) == HeadOf(DropNonLink(o));
      assert HeadOf(m) == HeadOf(DropWrongKind(d1, d));
      if AId.Href in m.attrs && m.IsSvgElement() && m.attrs[AId.Href].Link? {
        TargetTagKept(doc, m.attrs[AId.Href].target);
      }
      OneNode(doc, d1, o, d, m);
    }
  }

  /** The two sweeps on one node. */
  lemma OneNode(doc: Node, d1: Node, o: Node, d: Node, m: Node)
    requires HeadOf(d) == HeadOf(DropNonLink(o))
    requires HeadOf(m) == HeadOf(DropWrongKind(d1, d))
    requires AId.Href in m.attrs && m.IsSvgElement() && m.attrs[AId.Href].Link? ==>
               TargetTag(d1, m.attrs[AId.Href].target) == TargetTag(doc, m.attrs[AId.Href].target)
    ensures m.uid == o.uid && m.kind == o.kind && m.id == o.id
    ensures m.attrs - {AId.Href} == o.attrs - {AId.Href}
    ensures AId.Href in m.attrs ==> AId.Href in o.attrs && m.attrs[AId.Href] == o.attrs[AId.Href]
    ensures !o.Is(EId.Image) && AId.Href in m.attrs ==> m.attrs[AId.Href].Link?
    ensures AId.Href in m.attrs && m.IsSvgElement() && !o.Is(EId.Image) ==>
              ValidHref(doc, m.kind.eid, m.attrs[AId.Href].target)
  {
    assert m.attrs == DropWrongKind(d1, d).attrs && d.attrs == DropNonLink(o).attrs;
  }

  /** The first sweep changes no node's kind, so link targets keep their tags. */
  lemma TargetTagKept(doc: Node, u: UId)
    ensures TargetTag(MapDoc(doc, DropNonLink), u) == TargetTag(doc, u)
  {
    var d1 := MapDoc(doc, DropNonLink);
    MapDocFlat(doc, DropNonLink);
    FlatSingle(doc);
    FlatSingle(d1);
    FirstWithUidAligned(Descendants(d1), Descendants(doc), u);
  }

  /** Two pre-orders with the same uids and kinds position by position find the same kind for a uid. */
  lemma {:induction false} FirstWithUidAligned(a: seq<Node>, b: seq<Node>, u: UId)
    requires |a| == |b|
    requires forall k :: 0 <= k < |a| ==> a[k].uid == b[k].uid && a[k].kind == b[k].kind
    ensures FirstWithUid(a, u).Some? <==> FirstWithUid(b, u).Some?
    ensures FirstWithUid(a, u).Some? ==> FirstWithUid(a, u).value.kind == FirstWithUid(b, u).value.kind
  {
    if a != [] && a[0].uid != u {
      FirstWithUidAligned(a[1..], b[1..], u);
    }
  }

  /** Images keep their href through both functions; every other node ends without one. */
  lemma RemoveXlinksEffect(doc: Node)
    ensures var r := RemoveXlinks(doc);
            |Descendants(r)| == |Descendants(doc)|
            && forall k :: 0 <= k < |Descendants(doc)| ==>
                 var m := Descendants(r)[k];
                 var o := Descendants(doc)[k];
                 m.uid == o.uid && m.kind == o.kind
                 && (o.Is(EId.Image) ==> m.attrs == o.attrs)
                 && (!o.Is(EId.Image) ==> AId.Href !in m.attrs && m.attrs == o.attrs - {AId.Href})
  {
    MapDocFlat(doc, DropHref);
  }
}
