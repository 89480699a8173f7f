/**
 * `prepare_svg` gives every svg element x=0, y=0, width=100% and
 * height=100% where those are missing. `prepare_nested_svg` turns every svg
 * below the root svg into a group: its transform gains translate(x, y) and
 * then the transform its viewBox asks for, and its tag becomes `g`.
 */
module PrepareNestedSvg {
  import opened Wrappers
  import opened SvgTypes
  import opened Dom
  import opened Traits

  const FullSize: AValue := AValue.Length(Len(100.0, Percent))

  /** The four `set_attribute_if_none` calls on one node. */
  function SvgDefaults(n: Node): Node
  {
    if n.Is(EId.Svg) then
      n.SetIfNone(AId.X, AValue.Number(0.0)).SetIfNone(AId.Y, AValue.Number(0.0))
       .SetIfNone(AId.Width, FullSize).SetIfNone(AId.Height, FullSize)
    else n
  }

  function PrepareSvg(doc: Node): Node
  {
    MapDoc(doc, SvgDefaults)
  }

  /** The four defaults `prepare_svg` gives an svg element. */
  const SvgDefaultAttrs: map<AId, AValue> :=
    map[AId.X := AValue.Number(0.0), AId.Y := AValue.Number(0.0), AId.Width := FullSize, AId.Height := FullSize]

  /** What `prepare_svg` leaves on an svg node: each attribute it had, else the default. */
  predicate HasDefaults(o: Node, m: Node)
  {
    m.attrs == SvgDefaultAttrs + o.attrs
  }

  lemma SvgDefaultsEffect(o: Node)
    ensures SvgDefaults(o).uid == o.uid && SvgDefaults(o).kind == o.kind && SvgDefaults(o).id == o.id
    ensures o.Is(EId.Svg) ==> HasDefaults(o, SvgDefaults(o))
    ensures !o.Is(EId.Svg) ==> SvgDefaults(o).attrs == o.attrs
  {
    if o.Is(EId.Svg) {
      var n1 := o.SetIfNone(AId.X, AValue.Number(0.0));
      var n2 := n1.SetIfNone(AId.Y, AValue.Number(0.0));
      var n3 := n2.SetIfNone(AId.Width, FullSize);
      SetIfNoneMerge(o, AId.X, AValue.Number(0.0));
      SetIfNoneMerge(n1, AId.Y, AValue.Number(0.0));
      SetIfNoneMerge(n2, AId.Width, FullSize);
      SetIfNoneMerge(n3, AId.Height, FullSize);
      MergeOrder(o.attrs);
    }
  }

  /** `set_attribute_if_none` merges its attribute under the ones the node has. */
  lemma SetIfNoneMerge(n: Node, a: AId, v: AValue)
    ensures n.SetIfNone(a, v).uid == n.uid && n.SetIfNone(a, v).kind == n.kind && n.SetIfNone(a, v).id == n.id
    ensures n.SetIfNone(a, v).attrs == map[a := v] + n.attrs
  {
  }

  lemma MergeOrder(attrs: map<AId, AValue>)
    ensures map[AId.Height := FullSize] + (map[AId.Width := FullSize] + (map[AId.Y := AValue.Number(0.0)]
              + (map[AId.X := AValue.Number(0.0)] + attrs)))
            == SvgDefaultAttrs + attrs
  {
  }

  /**
   * After `prepare_svg`, node by node in document order: every svg keeps the
   * attributes it had and has the four defaults where it had none; every
   * other node is as it was.
   */
  lemma PrepareSvgEffect(doc: Node)
    ensures |Descendants(PrepareSvg(doc))| == |Descendants(doc)|
    ensures forall k :: 0 <= k < |Descendants(doc)| ==>
              var m := Descendants(PrepareSvg(doc))[k];
              var o := Descendants(doc)[k];
              m.uid == o.uid && m.kind == o.kind && m.id == o.id
              && (o.Is(EId.Svg) ==> HasDefaults(o, m))
              && (!o.Is(EId.Svg) ==> m.attrs == o.attrs)
  {
    MapDocFlat(doc, SvgDefaults);
    forall k | 0 <= k < |Descendants(doc)|
      ensures var m := Descendants(PrepareSvg(doc))[k];
              var o := Descendants(doc)[k];
              m.uid == o.uid && m.kind == o.kind && m.id == o.id
              && (o.Is(EId.Svg) ==> HasDefaults(o, m))
              && (!o.Is(EId.Svg) ==> m.attrs == o.attrs)
    {
      var o := Descendants(doc)[k];
      assert HeadOf(Descendants(PrepareSvg(doc))[k]) == HeadOf(SvgDefaults(o));
      SvgDefaultsEffect(o);
    }
  }

  /** A second `prepare_svg` finds nothing to add on any node. */
  lemma SvgDefaultsIdempotent(n: Node)
    ensures SvgDefaults(SvgDefaults(n)) == SvgDefaults(n)
  {
    SvgDefaultsEffect(n);
  }

  // ---- nested svg ----

  /** svgdom's `append_transform`: the product with the node's transform, or `t` when it has none. */
  function AppendTransform(n: Node, t: Transform): (r: Node)
    ensures r.uid == n.uid && r.kind == n.kind && r.id == n.id && r.children == n.children
    ensures AId.Transform in r.attrs && r.attrs[AId.Transform].Transform?
  {
    match GetTransform(n, AId.Transform)
    case Some(ts) => n.Set(AId.Transform, AValue.Transform(ts.Append(t)))
    case None => n.Set(AId.Transform, AValue.Transform(t))
  }

  /** The body of the loop for one svg: `viewBox` is the node's viewBox transform, abstracted. */
  function Nest(n: Node, viewBox: Node -> Option<Transform>): Node
  {
    if n.Is(EId.Svg) then
      var n1 := AppendTransform(n, Shift(n));
      var n2 := match viewBox(n1) case Some(ts) => AppendTransform(n1, ts) case None => n1;
      n2.(kind := Element(EId.G))
    else n
  }

  /** `prepare_nested_svg` on the root svg `svg`: itself untouched, every svg below it a group. */
  function PrepareNested(svg: Node, viewBox: Node -> Option<Transform>): (r: Node)
    ensures r.uid == svg.uid && r.kind == svg.kind && r.id == svg.id && r.attrs == svg.attrs
  {
    svg.(children := MapNodes(svg.children, (n: Node) => Nest(n, viewBox)))
  }

  /** The transform a nested svg ends with, stated as one product. */
  function NestedTransform(o: Node, viewBox: Node -> Option<Transform>): Transform
  {
    var before := GetTransform(o, AId.Transform).UnwrapOr(Identity);
    before.Append(Shift(o)).Append(viewBox(AppendTransform(o, Shift(o))).UnwrapOr(Identity))
  }

  lemma IdentityLeft(t: Transform)
    ensures Identity.Append(t) == t
  {
  }

  lemma IdentityRight(t: Transform)
    ensures t.Append(Identity) == t
  {
  }

  /** `append_transform` multiplies the node's transform, identity when it has none, by `t`. */
  lemma AppendTransformIs(n: Node, t: Transform)
    ensures AppendTransform(n, t).attrs
            == n.attrs[AId.Transform := AValue.Transform(GetTransform(n, AId.Transform).UnwrapOr(Identity).Append(t))]
  {
    if GetTransform(n, AId.Transform).None? {
      IdentityLeft(t);
    }
  }

  /** Two `append_transform`s in a row multiply both factors onto the old transform. */
  lemma AppendTransformTwice(n: Node, s: Transform, t: Transform)
    ensures AppendTransform(AppendTransform(n, s), t).attrs
            == n.attrs[AId.Transform := AValue.Transform(GetTransform(n, AId.Transform).UnwrapOr(Identity).Append(s).Append(t))]
  {
    var n1 := AppendTransform(n, s);
    AppendTransformIs(n, s);
    AppendTransformIs(n1, t);
    assert GetTransform(n1, AId.Transform) == Some(GetTransform(n, AId.Transform).UnwrapOr(Identity).Append(s));
  }

  /** The translation `prepare_nested_svg` puts in front of the viewBox transform. */
  function Shift(o: Node): Transform
  {
    Ts(1.0, 0.0, 0.0, 1.0, NumberOr(o, AId.X, 0.0), NumberOr(o, AId.Y, 0.0))
  }

  lemma NestWithViewBox(o: Node, viewBox: Node -> Option<Transform>, ts: Transform)
    requires o.Is(EId.Svg) && viewBox(AppendTransform(o, Shift(o))) == Some(ts)
    ensures Nest(o, viewBox).attrs
            == o.attrs[AId.Transform := AValue.Transform(GetTransform(o, AId.Transform).UnwrapOr(Identity).Append(Shift(o)).Append(ts))]
  {
    AppendTransformTwice(o, Shift(o), ts);
  }

  lemma NestWithoutViewBox(o: Node, viewBox: Node -> Option<Transform>)
    requires o.Is(EId.Svg) && viewBox(AppendTransform(o, Shift(o))).None?
    ensures Nest(o, viewBox).attrs
            == o.attrs[AId.Transform := AValue.Transform(GetTransform(o, AId.Transform).UnwrapOr(Identity).Append(Shift(o)).Append(Identity))]
  {
    AppendTransformIs(o, Shift(o));
    IdentityRight(GetTransform(o, AId.Transform).UnwrapOr(Identity).Append(Shift(o)));
  }

  lemma NestEffect(o: Node, viewBox: Node -> Option<Transform>)
    ensures o.Is(EId.Svg) ==>
              Nest(o, viewBox)
              == o.(kind := Element(EId.G),
                    attrs := o.attrs[AId.Transform := AValue.Transform(NestedTransform(o, viewBox))])
    ensures !o.Is(EId.Svg) ==> Nest(o, viewBox) == o
  {
    if o.Is(EId.Svg) {
      var v := viewBox(AppendTransform(o, Shift(o)));
      if v.Some? {
        NestWithViewBox(o, viewBox, v.value);
      } else {
        NestWithoutViewBox(o, viewBox);
      }
    }
  }

  /**
   * `m` is what the pass makes of `o`: an svg becomes a `g` whose transform
   * is its old one (identity if none), then translate(x, y) with missing
   * values as 0, then its viewBox transform if any, and whose other
   * attributes are unchanged; any other node stays as it was.
   */
  predicate Lowered(o: Node, m: Node, viewBox: Node -> Option<Transform>)
  {
    m.uid == o.uid && m.id == o.id
    && (o.Is(EId.Svg) ==>
          m.Is(EId.G) && m.attrs.Keys == o.attrs.Keys + {AId.Transform}
          && (forall a :: a in o.attrs && a != AId.Transform ==> m.attrs[a] == o.attrs[a])
          && m.attrs[AId.Transform] == AValue.Transform(NestedTransform(o, viewBox)))
    && (!o.Is(EId.Svg) ==> HeadOf(m) == HeadOf(o))
  }

  /** The map facts behind `Lowered`, for any transform `t`. */
  lemma RetaggedWith(o: Node, m: Node, t: Transform)
    requires m.uid == o.uid && m.id == o.id && m.kind == Element(EId.G)
    requires m.attrs == o.attrs[AId.Transform := AValue.Transform(t)]
    ensures m.attrs.Keys == o.attrs.Keys + {AId.Transform}
    ensures forall a :: a in o.attrs && a != AId.Transform ==> m.attrs[a] == o.attrs[a]
    ensures m.attrs[AId.Transform] == AValue.Transform(t)
  {
  }

  lemma NestLowers(o: Node, m: Node, viewBox: Node -> Option<Transform>)
    requires HeadOf(m) == HeadOf(Nest(o, viewBox))
    ensures Lowered(o, m, viewBox)
  {
    NestEffect(o, viewBox);
    if o.Is(EId.Svg) {
      RetaggedWith(o, m, NestedTransform(o, viewBox));
    }
  }

  /** Node by node below the root svg, the pass lowers each node as `Lowered` says. */
  lemma NestedSvgEffect(svg: Node, viewBox: Node -> Option<Transform>)
    ensures var r := PrepareNested(svg, viewBox);
            |Flat(r.children)| == |Flat(svg.children)|
            && forall k :: 0 <= k < |Flat(svg.children)| ==> Lowered(Flat(svg.children)[k], Flat(r.children)[k], viewBox)
  {
    var f := (n: Node) => Nest(n, viewBox);
    var r := PrepareNested(svg, viewBox);
    MapNodesFlat(svg.children, f);
    forall k | 0 <= k < |Flat(svg.children)|
      ensures Lowered(Flat(svg.children)[k], Flat(r.children)[k], viewBox)
    {
      var o := Flat(svg.children)[k];
      assert HeadOf(Flat(r.children)[k]) == HeadOf(f(o));
      NestLowers(o, Flat(r.children)[k], viewBox);
    }
  }

  /** No svg element is left below the root svg. */
  lemma NoNestedSvgLeft(svg: Node, viewBox: Node -> Option<Transform>)
    ensures forall m :: m in Flat(PrepareNested(svg, viewBox).children) ==> !m.Is(EId.Svg)
  {
    NestedSvgEffect(svg, viewBox);
    var r := PrepareNested(svg, viewBox);
    forall m | m in Flat(r.children)
      ensures !m.Is(EId.Svg)
    {
      var k :| 0 <= k < |Flat(r.children)| && Flat(r.children)[k] == m;
      var o := Flat(svg.children)[k];
      assert HeadOf(m) == HeadOf(o) || m.Is(EId.G);
    }
  }
}
