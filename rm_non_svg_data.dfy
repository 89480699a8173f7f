/**
 * `remove_non_svg_data`: only SVG elements and text nodes stay below the
 * root, and every element keeps only its SVG attributes.
 */
module RmNonSvgData {
  import opened SvgTypes
  import opened Dom

  predicate Kept(n: Node) { n.IsSvgElement() || n.kind.TextNode? }

  /** The uids the drain matches: every node that is neither an SVG element nor text. */
  function Drops(doc: Node): (r: set<UId>)
    ensures forall n :: n in Flat(doc.children) && !Kept(n) ==> n.uid in r
    ensures forall u :: u in r ==> exists n :: n in Flat(doc.children) && !Kept(n) && n.uid == u
  {
    set n | n in Flat(doc.children) && !Kept(n) :: n.uid
  }

  /** The SVG attributes of a map, values unchanged. */
  function SvgOnly(attrs: map<AId, AValue>): (r: map<AId, AValue>)
    ensures forall a :: a in r <==> a in attrs && IsSvgAttr(a)
    ensures forall a :: a in r ==> r[a] == attrs[a]
  {
    map a | a in attrs && IsSvgAttr(a) :: attrs[a]
  }

  /** `attrs.retain(|attr| attr.is_svg())`. */
  method RetainSvgAttrs(attrs: map<AId, AValue>) returns (out: map<AId, AValue>)
    ensures out == SvgOnly(attrs)
  {
    out := attrs;
    var todo := attrs.Keys;
    while todo != {}
      invariant todo <= attrs.Keys
      invariant forall a :: a in out <==> a in attrs && (a in todo || IsSvgAttr(a))
      invariant forall a :: a in out ==> out[a] == attrs[a]
      decreases |todo|
    {
      var a :| a in todo;
      if !IsSvgAttr(a) {
        out := out - {a};
      }
      todo := todo - {a};
    }
  }

  /** What the loop leaves of one node's attributes: an element's SVG ones, anything else's all. */
  function StrippedAttrs(n: Node): map<AId, AValue>
  {
    if n.kind.Element? || n.kind.NonSvgElement? then SvgOnly(n.attrs) else n.attrs
  }

  /** The attribute loop's body on one node. */
  function StripOne(n: Node): (r: Node)
    ensures HeadOf(r) == HeadOf(n).(attrs := StrippedAttrs(n)) && r.children == n.children
  {
    n.(attrs := StrippedAttrs(n))
  }

  /** The drain, then the attribute loop over the root and every node below it. */
  function RemoveNonSvgData(doc: Node): (r: Node)
    ensures r.uid == doc.uid && r.kind == doc.kind
  {
    MapDoc(RemoveNodes(doc, Drops(doc)), StripOne)
  }

  /** Below the root, the result is the drained forest with each node stripped, in order. */
  lemma StripHeads(doc: Node)
    ensures var ns := RemoveNodes(doc, Drops(doc)).children;
            var s := Flat(RemoveNonSvgData(doc).children);
            |s| == |Flat(ns)|
            && forall k :: 0 <= k < |Flat(ns)| ==> HeadOf(s[k]) == HeadOf(Flat(ns)[k]).(attrs := StrippedAttrs(Flat(ns)[k]))
  {
    var drained := RemoveNodes(doc, Drops(doc));
    assert RemoveNonSvgData(doc).children == MapNodes(drained.children, StripOne);
    MapNodesFlat(drained.children, StripOne);
  }

  /** After the drain, below the root only SVG elements and text nodes remain. */
  lemma DrainedKept(doc: Node)
    ensures forall m :: m in Flat(RemoveNodes(doc, Drops(doc)).children) ==> Kept(m)
  {
    RemoveNodesHeads(doc, Drops(doc));
    forall m | m in Flat(RemoveNodes(doc, Drops(doc)).children)
      ensures Kept(m)
    {
      var o :| o in Flat(doc.children) && o.uid !in Drops(doc)
               && HeadOf(m) == HeadOf(o).(attrs := Unlinked(o.attrs, DroppedUids(doc.children, Drops(doc))));
      assert m.kind == o.kind;
    }
  }

  /** Below the root only SVG elements and text nodes remain. */
  lemma OnlySvgAndText(doc: Node)
    ensures forall m :: m in Flat(RemoveNonSvgData(doc).children) ==> Kept(m)
  {
    var drained := RemoveNodes(doc, Drops(doc));
    var s := Flat(RemoveNonSvgData(doc).children);
    DrainedKept(doc);
    StripHeads(doc);
    forall m | m in s
      ensures Kept(m)
    {
      var k :| 0 <= k < |s| && s[k] == m;
      assert Flat(drained.children)[k] in Flat(drained.children);
      assert HeadOf(m).kind == Flat(drained.children)[k].kind;
    }
  }

  /** Every element keeps only SVG attributes. */
  lemma OnlySvgAttrs(doc: Node)
    ensures forall m, a :: m in Flat(RemoveNonSvgData(doc).children) && m.IsSvgElement() && a in m.attrs ==> IsSvgAttr(a)
  {
    var drained := RemoveNodes(doc, Drops(doc));
    var s := Flat(RemoveNonSvgData(doc).children);
    StripHeads(doc);
    forall m, a | m in s && m.IsSvgElement() && a in m.attrs
      ensures IsSvgAttr(a)
    {
      var k :| 0 <= k < |s| && s[k] == m;
      assert HeadOf(m).attrs == StrippedAttrs(Flat(drained.children)[k]);
    }
  }

  /** Nothing in the result, root included, is an element with a non-SVG attribute. */
  lemma ResultClean(doc: Node)
    ensures forall m, a :: m in Flat([RemoveNonSvgData(doc)]) && (m.kind.Element? || m.kind.NonSvgElement?) && a in m.attrs
              ==> IsSvgAttr(a)
  {
    var r := RemoveNonSvgData(doc);
    var drained := RemoveNodes(doc, Drops(doc));
    assert [r] == MapNodes([drained], StripOne);
    assert Flat([r]) == [r] + Flat(r.children);
    OnlySvgAndText(doc);
    OnlySvgAttrs(doc);
  }

  /** The attribute loop over a forest whose elements carry only SVG attributes changes nothing. */
  lemma {:induction false} StripNothing(ns: seq<Node>)
    requires forall m, a :: m in Flat(ns) && (m.kind.Element? || m.kind.NonSvgElement?) && a in m.attrs ==> IsSvgAttr(a)
    ensures MapNodes(ns, StripOne) == ns
  {
    if ns != [] {
      FlatContains(ns, 0);
      assert forall m :: m in Flat(ns[1..]) ==> m in Flat(ns);
      StripNothing(ns[0].children);
      StripNothing(ns[1..]);
      assert StripOne(ns[0]) == ns[0];
      assert MapNodes(ns, StripOne) == [ns[0]] + ns[1..];
    }
  }

  /** Running the pass twice gives what running it once does. */
  lemma Idempotent(doc: Node)
    ensures RemoveNonSvgData(RemoveNonSvgData(doc)) == RemoveNonSvgData(doc)
  {
    var r := RemoveNonSvgData(doc);
    OnlySvgAndText(doc);
    assert Drops(r) == {};
    RemoveNothing(r);
    ResultClean(doc);
    StripNothing([r]);
  }

  /** One surviving element: its attributes after the drain and then the strip. */
  lemma SurvivorAttrs(m: Node, d: Node, o: Node, gone: set<UId>)
    requires m.IsSvgElement()
    requires HeadOf(m) == HeadOf(d).(attrs := StrippedAttrs(d))
    requires HeadOf(d) == HeadOf(o).(attrs := Unlinked(o.attrs, gone))
    ensures o.uid == m.uid && o.kind == m.kind && m.attrs == SvgOnly(Unlinked(o.attrs, gone))
  {
    assert d.kind == m.kind;
  }

  /**
   * The SVG attributes of every surviving element are those it had, minus
   * only the links into removed nodes.
   */
  lemma SvgAttrsUnchanged(doc: Node)
    ensures var gone := DroppedUids(doc.children, Drops(doc));
            forall m :: m in Flat(RemoveNonSvgData(doc).children) && m.IsSvgElement() ==>
              exists o :: o in Flat(doc.children) && o.uid == m.uid && o.kind == m.kind
                          && m.attrs == SvgOnly(Unlinked(o.attrs, gone))
  {
    var drained := RemoveNodes(doc, Drops(doc));
    var gone := DroppedUids(doc.children, Drops(doc));
    var s := Flat(RemoveNonSvgData(doc).children);
    RemoveNodesHeads(doc, Drops(doc));
    StripHeads(doc);
    forall m | m in s && m.IsSvgElement()
      ensures exists o :: o in Flat(doc.children) && o.uid == m.uid && o.kind == m.kind
                          && m.attrs == SvgOnly(Unlinked(o.attrs, gone))
    {
      var k :| 0 <= k < |s| && s[k] == m;
      var d := Flat(drained.children)[k];
      assert d in Flat(drained.children);
      var o :| o in Flat(doc.children) && o.uid !in Drops(doc)
               && HeadOf(d) == HeadOf(o).(attrs := Unlinked(o.attrs, gone));
      SurvivorAttrs(m, d, o, gone);
    }
  }
}
