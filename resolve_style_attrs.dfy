/**
 * `resolve_style_attributes`: walking down from the root, every text-content
 * element gets the font and `text-anchor` attributes, every shape, text and
 * group the fill and stroke set, and every graphic element directly inside a
 * `clipPath` the `clip-rule`. An attribute already present is kept; a missing
 * one is copied from the nearest ancestor that has it, or else takes its
 * default.
 */
module ResolveStyleAttrs {
  import opened Wrappers
  import opened SvgTypes
  import opened Dom
  import opened Traits

  /** Resolved on text content, together with `font-family`. */
  const TextAttrs: seq<AId> := [AId.FontStretch, AId.FontStyle, AId.FontVariant, AId.FontWeight, AId.TextAnchor]

  /** Resolved on shapes, text content and groups. */
  const PaintAttrs: seq<AId> :=
    [AId.Fill, AId.FillOpacity, AId.FillRule, AId.Stroke, AId.StrokeDasharray, AId.StrokeDashoffset,
     AId.StrokeLinecap, AId.StrokeLinejoin, AId.StrokeMiterlimit, AId.StrokeOpacity, AId.StrokeWidth]

  /** `DEFAULT_FONT_FAMILY`. */
  const DefaultFontFamily: string := "Times New Roman"

  /**
   * The value a missing attribute takes when no ancestor has it: `font-family`
   * falls back to the default family; any other attribute to its default,
   * a Length default stored as its Number.
   */
  function Fallback(a: AId): (r: Option<AValue>)
    ensures r.Some? <==> a == AId.FontFamily || DefaultValue(a).Some?
    ensures r.Some? ==> !r.value.Length?
  {
    if a == AId.FontFamily then Some(AValue.String(DefaultFontFamily))
    else
      match DefaultValue(a)
      case Some(v) => if v.Length? then Some(AValue.Number(v.len.num)) else Some(v)
      case None => Option.None
  }

  /** What a missing attribute gets from the strict ancestors `anc`, nearest first. */
  function Inherited(anc: seq<Node>, a: AId): (r: Option<AValue>)
    ensures FirstHaving(anc, a).Some? ==> r == Some(anc[FirstHaving(anc, a).value].attrs[a])
    ensures FirstHaving(anc, a).None? ==> r == Fallback(a)
  {
    match FirstHaving(anc, a)
    case Some(i) => Some(anc[i].attrs[a])
    case None => Fallback(a)
  }

  /** `resolve` and `resolve_font_family`: set the attribute only when it is missing. */
  function ResolveAttr(attrs: map<AId, AValue>, anc: seq<Node>, a: AId): map<AId, AValue>
  {
    if a in attrs then attrs
    else match Inherited(anc, a)
      case Some(v) => attrs[a := v]
      case None => attrs
  }

  /** The attributes once every attribute of `ids` is resolved. */
  function Filled(attrs: map<AId, AValue>, anc: seq<Node>, ids: seq<AId>): (r: map<AId, AValue>)
    ensures forall a :: a in attrs ==> a in r && r[a] == attrs[a]
    ensures forall a :: a in r && a !in attrs ==> a in ids && Inherited(anc, a).Some? && r[a] == Inherited(anc, a).value
    ensures forall a :: a in ids && a !in attrs ==> (a in r <==> Inherited(anc, a).Some?)
  {
    map a | a in attrs.Keys + (set x | x in ids) && (a in attrs || Inherited(anc, a).Some?) ::
      if a in attrs then attrs[a] else Inherited(anc, a).value
  }

  lemma FilledStep(attrs: map<AId, AValue>, anc: seq<Node>, ids: seq<AId>, a: AId)
    ensures Filled(attrs, anc, ids + [a]) == ResolveAttr(Filled(attrs, anc, ids), anc, a)
  {
    var before := Filled(attrs, anc, ids);
    var after := Filled(attrs, anc, ids + [a]);
    var step := ResolveAttr(before, anc, a);
    assert forall b :: b in ids + [a] <==> b in ids || b == a;
    assert forall b :: b in after <==> b in step;
    assert forall b :: b in after ==> after[b] == step[b];
  }

  /** The attributes one element resolves; `parentIsClip` says whether its parent is a `clipPath`. */
  function Wanted(n: Node, parentIsClip: bool): seq<AId>
  {
    if !n.IsSvgElement() then []
    else
      var e := n.kind.eid;
      (if IsTextContent(e) then TextAttrs + [AId.FontFamily] else [])
      + (if IsShape(e) || IsTextContent(e) || e.G? then PaintAttrs else [])
      + (if IsGraphic(e) && parentIsClip then [AId.ClipRule] else [])
  }

  /** Every attribute of the list has a value to fall back on. */
  predicate AllFallBack(ids: seq<AId>)
  {
    forall a :: a in ids ==> a == AId.FontFamily || DefaultValue(a).Some?
  }

  lemma TextAttrsFallBack()
    ensures AllFallBack(TextAttrs + [AId.FontFamily])
  {
  }

  lemma PaintAttrsFallBack()
    ensures AllFallBack(PaintAttrs)
  {
    assert forall a :: a in PaintAttrs ==> DefaultValue(a).Some?;
  }

  /** Every attribute the pass resolves has a value to fall back on. */
  lemma WantedHaveFallbacks(n: Node, parentIsClip: bool)
    ensures forall a :: a in Wanted(n, parentIsClip) ==> Fallback(a).Some?
  {
    TextAttrsFallBack();
    PaintAttrsFallBack();
    assert DefaultValue(AId.ClipRule).Some?;
  }

  /** `clip-rule` is resolved exactly on graphic elements directly inside a `clipPath`. */
  lemma ClipRuleOnlyInClipPath(n: Node, parentIsClip: bool)
    ensures AId.ClipRule in Wanted(n, parentIsClip) <==> n.IsSvgElement() && IsGraphic(n.kind.eid) && parentIsClip
  {
    assert AId.ClipRule !in TextAttrs + [AId.FontFamily];
    assert AId.ClipRule !in PaintAttrs;
  }

  /** `resolve` applied to each attribute of `ids` in turn. */
  method ResolveEach(attrs: map<AId, AValue>, anc: seq<Node>, ids: seq<AId>) returns (out: map<AId, AValue>)
    ensures out == Filled(attrs, anc, ids)
  {
    out := attrs;
    for i := 0 to |ids|
      invariant out == Filled(attrs, anc, ids[..i])
    {
      ghost var done := ids[..i];
      assert ids[..i + 1] == done + [ids[i]];
      FilledStep(attrs, anc, done, ids[i]);
      out := ResolveAttr(out, anc, ids[i]);
    }
    assert ids[..|ids|] == ids;
  }

  /** The statements of the loop body for one element, one attribute after another. */
  method ResolveNode(n: Node, anc: seq<Node>, parentIsClip: bool) returns (r: Node)
    ensures r == n.(attrs := Filled(n.attrs, anc, Wanted(n, parentIsClip)))
  {
    var attrs := ResolveEach(n.attrs, anc, Wanted(n, parentIsClip));
    r := n.(attrs := attrs);
  }

  /** One node as the walk leaves it, apart from its children; the parent is `anc[0]`. */
  function Visit(n: Node, anc: seq<Node>): (r: Node)
    requires anc != []
    ensures r.uid == n.uid && r.kind == n.kind && r.id == n.id && r.children == n.children
    ensures forall a :: a in n.attrs ==> a in r.attrs && r.attrs[a] == n.attrs[a]
  {
    if n.IsSvgElement() then n.(attrs := Filled(n.attrs, anc, Wanted(n, anc[0].Is(EId.ClipPath)))) else n
  }

  /**
   * The walk below a node whose ancestors-or-self, already resolved, are
   * `anc`: an element is resolved and then its children see it as their
   * parent; any other node is skipped with its subtree.
   */
  function WalkNode(n: Node, anc: seq<Node>): (r: Node)
    requires anc != []
    ensures HeadOf(r) == HeadOf(Visit(n, anc))
    ensures r.children == if n.IsSvgElement() then Walk(n.children, [Visit(n, anc)] + anc) else n.children
  {
    if n.IsSvgElement() then
      var v := Visit(n, anc);
      v.(children := Walk(n.children, [v] + anc))
    else n
  }

  function Walk(ns: seq<Node>, anc: seq<Node>): (r: seq<Node>)
    requires anc != []
    ensures |r| == |ns|
    ensures forall i :: 0 <= i < |ns| ==> r[i] == WalkNode(ns[i], anc)
  {
    if ns == [] then []
    else
      var head := WalkNode(ns[0], anc);
      var rest := Walk(ns[1..], anc);
      ConsIndex(head, rest);
      [head] + rest
  }

  function ResolveStyleAttributes(doc: Node): (r: Node)
    ensures HeadOf(r) == HeadOf(doc)
  {
    doc.(children := Walk(doc.children, [doc]))
  }

  /**
   * A missing attribute that the kind of element resolves is copied from the
   * nearest strict ancestor, as resolved, that has it, and otherwise takes its
   * fallback; no other attribute is added and no present one changes.
   */
  lemma VisitResolves(n: Node, anc: seq<Node>, a: AId)
    requires anc != [] && n.IsSvgElement()
    ensures var r := Visit(n, anc);
            var w := Wanted(n, anc[0].Is(EId.ClipPath));
            (a in n.attrs ==> r.attrs[a] == n.attrs[a])
            && (a !in n.attrs && a !in w ==> a !in r.attrs)
            && (a !in n.attrs && a in w && FirstHaving(anc, a).Some? ==>
                  a in r.attrs && r.attrs[a] == anc[FirstHaving(anc, a).value].attrs[a])
            && (a !in n.attrs && a in w && FirstHaving(anc, a).None? ==>
                  a in r.attrs && Some(r.attrs[a]) == Fallback(a))
  {
    WantedHaveFallbacks(n, anc[0].Is(EId.ClipPath));
  }

  /** Every element below the top has each attribute its kind resolves. */
  predicate Complete(ns: seq<Node>, parentIsClip: bool)
  {
    ns == [] ||
    ((ns[0].IsSvgElement() ==>
        (forall a :: a in Wanted(ns[0], parentIsClip) ==> a in ns[0].attrs)
        && Complete(ns[0].children, ns[0].Is(EId.ClipPath)))
     && Complete(ns[1..], parentIsClip))
  }

  /** A resolved element has every attribute its kind resolves. */
  lemma VisitComplete(n: Node, anc: seq<Node>)
    requires anc != [] && n.IsSvgElement()
    ensures forall a :: a in Wanted(n, anc[0].Is(EId.ClipPath)) ==> a in Visit(n, anc).attrs
  {
    WantedHaveFallbacks(n, anc[0].Is(EId.ClipPath));
  }

  /** After the walk every element has every attribute its kind resolves. */
  lemma {:induction false} WalkCompletes(ns: seq<Node>, anc: seq<Node>)
    requires anc != []
    ensures Complete(Walk(ns, anc), anc[0].Is(EId.ClipPath))
  {
    if ns != [] {
      var p := anc[0].Is(EId.ClipPath);
      var r := Walk(ns, anc);
      assert r[1..] == Walk(ns[1..], anc);
      WalkCompletes(ns[1..], anc);
      if ns[0].IsSvgElement() {
        var v := Visit(ns[0], anc);
        VisitComplete(ns[0], anc);
        assert r[0].kind == ns[0].kind && r[0].attrs == v.attrs;
        assert Wanted(r[0], p) == Wanted(ns[0], p);
        assert r[0].children == Walk(ns[0].children, [v] + anc);
        WalkCompletes(ns[0].children, [v] + anc);
      }
    }
  }

  /** A complete forest is left as it is, whatever its ancestors. */
  lemma {:induction false} WalkComplete(ns: seq<Node>, anc: seq<Node>)
    requires anc != [] && Complete(ns, anc[0].Is(EId.ClipPath))
    ensures Walk(ns, anc) == ns
  {
    if ns != [] {
      var r := Walk(ns, anc);
      assert r[1..] == Walk(ns[1..], anc);
      WalkComplete(ns[1..], anc);
      if ns[0].IsSvgElement() {
        var v := Visit(ns[0], anc);
        assert v.attrs == ns[0].attrs;
        WalkComplete(ns[0].children, [v] + anc);
      }
      assert r == [r[0]] + r[1..];
      assert ns == [ns[0]] + ns[1..];
    }
  }

  /** Running the pass twice gives what running it once does. */
  lemma Idempotent(doc: Node)
    ensures ResolveStyleAttributes(ResolveStyleAttributes(doc)) == ResolveStyleAttributes(doc)
  {
    var r := ResolveStyleAttributes(doc);
    WalkCompletes(doc.children, [doc]);
    assert r.Is(EId.ClipPath) == doc.Is(EId.ClipPath);
    WalkComplete(r.children, [r]);
  }
}
