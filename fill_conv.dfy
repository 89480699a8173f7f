/**
 * `fill` to the render tree's Fill (section 11.3 of SVG 1.1), and the paint
 * selection that fill and stroke share: a colour is used as it is, a FuncLink
 * only when it points at a gradient or pattern that is already in Defs.
 * Definitions are looked up by id among the ids of Defs's children, which
 * the caller passes in.
 */
module FillConv {
  import opened Wrappers
  import opened SvgTypes
  import opened Dom
  import opened Traits
  import T = TreeNode

  /** A FuncLink target that can paint: a gradient or pattern whose id names a Defs child. */
  predicate PaintServerInDefs(doc: Node, defsIds: seq<string>, u: UId)
  {
    var tag := TargetTag(doc, u);
    tag.Some? && IsPaintServer(tag.value) && Find([doc], u).value.id in defsIds
  }

  /** The paint of a fill or stroke value; None makes the whole fill or stroke None. */
  function ConvertPaint(doc: Node, defsIds: seq<string>, v: AValue): (r: Option<T.Paint>)
    ensures v.Color? ==> r == Some(T.PaintColor(v.color))
    ensures !v.Color? && !v.FuncLink? ==> r.None?
    ensures v.FuncLink? ==> (r.Some? <==> PaintServerInDefs(doc, defsIds, v.target))
    ensures v.FuncLink? && r.Some? ==> r.value == T.PaintLink(Find([doc], v.target).value.id)
  {
    match v
    case Color(c) => Some(T.PaintColor(c))
    case FuncLink(u) =>
      if PaintServerInDefs(doc, defsIds, u) then Some(T.PaintLink(Find([doc], u).value.id))
      else Option.None
    case _ => Option.None
  }

  /** `fill::convert`. */
  function Convert(doc: Node, defsIds: seq<string>, n: Node): (r: Option<T.Fill>)
    ensures AId.Fill !in n.attrs ==> r.None?
    ensures AId.Fill in n.attrs ==>
              (r.Some? <==> ConvertPaint(doc, defsIds, n.attrs[AId.Fill]).Some?)
    ensures r.Some? ==> r.value.paint == ConvertPaint(doc, defsIds, n.attrs[AId.Fill]).value
    ensures r.Some? ==> r.value.opacity == NumberOr(n, AId.FillOpacity, 1.0)
    ensures r.Some? ==> (r.value.rule == T.EvenOdd <==> GetPredef(n, AId.FillRule) == Some(ValueId.Evenodd))
  {
    if AId.Fill !in n.attrs then Option.None
    else
      var paint := ConvertPaint(doc, defsIds, n.attrs[AId.Fill]);
      if paint.None? then Option.None
      else
        var rule := if GetPredef(n, AId.FillRule).UnwrapOr(ValueId.Nonzero) == ValueId.Evenodd
                    then T.EvenOdd else T.NonZero;
        Some(T.Fill(paint.value, NumberOr(n, AId.FillOpacity, 1.0), rule))
  }
}
