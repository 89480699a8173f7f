/**
 * `tree::dump`: the render tree written back out as an svgdom document.
 * The `svg` element gets the image size, the view box and the namespace
 * declarations; its first child is a `defs` holding the gradients, clip
 * paths and patterns of `Defs`, and the rendered elements follow. The
 * children of clip paths and patterns are written only once every `defs`
 * entry exists, so that links inside them can be resolved.
 *
 * The document is built as a value: an element is made, its attributes set
 * one by one, and it is placed under its parent. The element written for
 * render-tree node `j` has uid `2 * j + 2`; the text node inside a span's
 * `tspan` has uid `2 * j + 3`; the document root has uid 0. A paint or
 * clip-path link is the uid of the first `defs` entry with the linked id,
 * as `defs.children().find(..)` gives it.
 */
module Dump {
  import opened Wrappers
  import opened SvgTypes
  import opened Dom
  import opened Traits
  import Geom
  import T = TreeNode
  import R = RenderTree
  import CB = ConvertBase
  import PathConv
  import FillConv
  import StrokeConv
  import GradientConv
  import ClipPathConv
  import ImageConv
  import Conv = Convert

  // ---- uids and elements ----

  /** The uid of the element written for render-tree node `j`. */
  function Uid(j: R.NodeId): (r: UId)
    ensures r % 2 == 0 && r >= 2
  {
    2 * j + 2
  }

  /** The uid of the text node inside the `tspan` of span `j`. */
  function TextUid(j: R.NodeId): (r: UId)
    ensures r % 2 == 1
  {
    2 * j + 3
  }

  /** `create_element`: an element with no id, no attribute and no child yet. */
  function NewElement(eid: EId, uid: UId): Node
  {
    Node(uid, Kind.Element(eid), "", map[], [])
  }

  // ---- conv_transform, conv_units, conv_rect, conv_viewbox ----

  /** `conv_transform`: the transform is written only when it is not the identity. */
  function ConvTransform(aid: AId, ts: Transform, n: Node): Node
  {
    if ts.IsDefault() then n else n.Set(aid, AValue.Transform(ts))
  }

  /**
   * The transform attribute is present exactly when the transform is not the
   * identity, and reading it with the identity as default gives the transform back.
   */
  lemma TransformRoundTrip(aid: AId, ts: Transform, n: Node)
    requires aid !in n.attrs
    ensures aid in ConvTransform(aid, ts, n).attrs <==> ts != Identity
    ensures CB.TransformOr(ConvTransform(aid, ts, n), aid) == ts
  {
  }

  function UnitsKeyword(u: T.Units): (r: ValueId)
    ensures r == ValueId.ObjectBoundingBox <==> u == T.ObjectBoundingBox
    ensures r == ValueId.UserSpaceOnUse <==> u == T.UserSpaceOnUse
  {
    match u
    case UserSpaceOnUse => ValueId.UserSpaceOnUse
    case ObjectBoundingBox => ValueId.ObjectBoundingBox
  }

  /** `conv_units`: the units as a keyword. */
  function ConvUnits(aid: AId, u: T.Units, n: Node): Node
  {
    n.Set(aid, AValue.PredefValue(UnitsKeyword(u)))
  }

  /** `conv_rect`: `x`, `y`, `width` and `height` as numbers. */
  function ConvRect(r: Geom.Rect, n: Node): Node
  {
    n.Set(AId.X, AValue.Number(r.x)).Set(AId.Y, AValue.Number(r.y))
     .Set(AId.Width, AValue.Number(r.w)).Set(AId.Height, AValue.Number(r.h))
  }

  /** Reading a written rectangle back gives the rectangle. */
  lemma RectRoundTrip(r: Geom.Rect, n: Node)
    ensures CB.ConvertRect(ConvRect(r, n)) == r
  {
  }

  /** `conv_viewbox`: the `viewBox` rectangle and the `preserveAspectRatio`. */
  function ConvViewBox(vb: T.ViewBox, n: Node): Node
  {
    n.Set(AId.ViewBox, AValue.ViewBox(VbRect(vb.rect.x, vb.rect.y, vb.rect.w, vb.rect.h)))
     .Set(AId.PreserveAspectRatio, AValue.AspectRatio(vb.aspect))
  }

  /** `conv_viewbox2`: the view box as `x`, `y`, `width`, `height` and the aspect ratio. */
  function ConvViewBox2(vb: T.ViewBox, n: Node): Node
  {
    ConvRect(vb.rect, n).Set(AId.PreserveAspectRatio, AValue.AspectRatio(vb.aspect))
  }

  /** Both forms of the view box read back as the view box. */
  lemma ViewBoxRoundTrip(vb: T.ViewBox, n: Node, size: Geom.Size)
    ensures CB.ViewBoxRect(ConvViewBox(vb, n), size) == vb.rect
    ensures CB.ConvertAspect(ConvViewBox(vb, n)) == vb.aspect
    ensures CB.ConvertRect(ConvViewBox2(vb, n)) == vb.rect
    ensures CB.ConvertAspect(ConvViewBox2(vb, n)) == vb.aspect
  {
  }

  // ---- links into defs ----

  /**
   * `defs.children().find(|n| n.id() == id)`: the position of the first
   * written `defs` entry with the id.
   */
  function EntryIndex(entries: seq<Node>, id: string): (r: Option<nat>)
    ensures r.None? <==> forall x :: 0 <= x < |entries| ==> entries[x].id != id
    ensures r.Some? ==> r.value < |entries| && entries[r.value].id == id
                        && forall x :: 0 <= x < r.value ==> entries[x].id != id
  {
    if entries == [] then Option.None
    else if entries[0].id == id then Some(0)
    else
      match EntryIndex(entries[1..], id)
      case Some(x) => Some(x + 1)
      case None => Option.None
  }

  /**
   * A link to the `Defs` node with `id`: the tree's `defs_by_id` has to find
   * it, then the first written entry with that node's id is the target. The
   * source unwraps the second lookup; here a failed one writes no link.
   */
  function LinkTo(a: R.Arena, entries: seq<Node>, id: string): (r: Option<UId>)
    requires R.WellFormed(a)
  {
    match R.DefsById(a, id)
    case None => Option.None
    case Some(j) =>
      match EntryIndex(entries, a.kinds[j].Id())
      case Some(x) => Some(entries[x].uid)
      case None => Option.None
  }

  /** A link resolves exactly when `Defs` and the written entries both have the id, and then it names the first such entry. */
  lemma LinkToFirstEntry(a: R.Arena, entries: seq<Node>, id: string)
    requires R.WellFormed(a)
    ensures LinkTo(a, entries, id).Some? <==> R.DefsById(a, id).Some? && EntryIndex(entries, id).Some?
    ensures LinkTo(a, entries, id).Some? ==> LinkTo(a, entries, id).value == entries[EntryIndex(entries, id).value].uid
  {
  }

  /** The value a paint is written as, None when a link does not resolve. */
  function PaintValue(a: R.Arena, entries: seq<Node>, p: T.Paint): (r: Option<AValue>)
    requires R.WellFormed(a)
  {
    match p
    case PaintColor(c) => Some(AValue.Color(c))
    case PaintLink(id) =>
      match LinkTo(a, entries, id)
      case Some(u) => Some(AValue.FuncLink(u))
      case None => Option.None
  }

  function SetPaint(n: Node, aid: AId, v: Option<AValue>): Node
  {
    if v.Some? then n.Set(aid, v.value) else n
  }

  // ---- conv_fill ----

  function RuleKeyword(rule: T.FillRule): (r: ValueId)
    ensures r == ValueId.Evenodd <==> rule == T.EvenOdd
  {
    match rule
    case NonZero => ValueId.Nonzero
    case EvenOdd => ValueId.Evenodd
  }

  /** The paint, the opacity and the rule keyword `rule`, as `clip-rule` under a clip path and `fill-rule` elsewhere. */
  function FillAttrs(a: R.Arena, entries: seq<Node>, f: T.Fill, clip: bool, rule: ValueId, n: Node): Node
    requires R.WellFormed(a)
  {
    var n1 := SetPaint(n, AId.Fill, PaintValue(a, entries, f.paint));
    var n2 := n1.Set(AId.FillOpacity, AValue.Number(f.opacity));
    n2.Set(if clip then AId.ClipRule else AId.FillRule, AValue.PredefValue(rule))
  }

  /** `conv_fill` as written: the rule is always `evenodd`, whatever the fill's rule is. */
  function ConvFillAsWritten(a: R.Arena, entries: seq<Node>, fill: Option<T.Fill>, clip: bool, n: Node): Node
    requires R.WellFormed(a)
  {
    match fill
    case None => n.Set(AId.Fill, AValue.PredefValue(ValueId.None))
    case Some(f) => FillAttrs(a, entries, f, clip, ValueId.Evenodd, n)
  }

  /** `conv_fill` writing the fill's own rule. */
  function ConvFill(a: R.Arena, entries: seq<Node>, fill: Option<T.Fill>, clip: bool, n: Node): Node
    requires R.WellFormed(a)
  {
    match fill
    case None => n.Set(AId.Fill, AValue.PredefValue(ValueId.None))
    case Some(f) => FillAttrs(a, entries, f, clip, RuleKeyword(f.rule), n)
  }

  /** A non-zero colour fill written as the source writes it reads back as even-odd. */
  lemma NonZeroReadsEvenOdd(a: R.Arena, entries: seq<Node>, f: T.Fill, n: Node, doc: Node, ids: seq<string>)
    requires R.WellFormed(a) && f.paint.PaintColor? && f.rule == T.NonZero
    ensures FillConv.Convert(doc, ids, ConvFillAsWritten(a, entries, Some(f), false, n)) == Some(f.(rule := T.EvenOdd))
    ensures FillConv.Convert(doc, ids, ConvFillAsWritten(a, entries, Some(f), false, n)) != Some(f)
  {
  }

  /** A colour fill, written with its rule outside a clip path, reads back as itself; no fill reads back as none. */
  lemma FillRoundTrip(a: R.Arena, entries: seq<Node>, fill: Option<T.Fill>, n: Node, doc: Node, ids: seq<string>)
    requires R.WellFormed(a) && (fill.Some? ==> fill.value.paint.PaintColor?)
    ensures FillConv.Convert(doc, ids, ConvFill(a, entries, fill, false, n)) == fill
  {
    if fill.Some? {
      assert RuleKeyword(fill.value.rule) == ValueId.Evenodd <==> fill.value.rule == T.EvenOdd;
    }
  }

  /**
   * A linked fill is written as a link to the first `defs` entry with the
   * id, and only when the link resolves; under a clip path the rule goes to
   * `clip-rule` and `fill-rule` is left alone.
   */
  lemma FillLink(a: R.Arena, entries: seq<Node>, f: T.Fill, clip: bool, n: Node)
    requires R.WellFormed(a) && f.paint.PaintLink? && AId.Fill !in n.attrs
    ensures var r := ConvFill(a, entries, Some(f), clip, n);
            (AId.Fill in r.attrs <==> LinkTo(a, entries, f.paint.id).Some?)
            && (AId.Fill in r.attrs ==> r.attrs[AId.Fill] == AValue.FuncLink(LinkTo(a, entries, f.paint.id).value))
    ensures clip ==> ConvFill(a, entries, Some(f), clip, n).attrs[AId.ClipRule] == AValue.PredefValue(RuleKeyword(f.rule))
    ensures clip && AId.FillRule !in n.attrs ==> AId.FillRule !in ConvFill(a, entries, Some(f), clip, n).attrs
  {
  }

  // ---- conv_stroke ----

  function CapKeyword(c: T.LineCap): ValueId
  {
    match c
    case CapButt => ValueId.Butt
    case CapRound => ValueId.Round
    case CapSquare => ValueId.Square
  }

  function JoinKeyword(j: T.LineJoin): ValueId
  {
    match j
    case JoinMiter => ValueId.Miter
    case JoinRound => ValueId.Round
    case JoinBevel => ValueId.Bevel
  }

  /** The dash array as a number list, or the keyword `none`. */
  function DashValue(d: Option<seq<real>>): AValue
  {
    match d
    case Some(list) => AValue.NumberList(list)
    case None => AValue.PredefValue(ValueId.None)
  }

  function StrokeAttrs(a: R.Arena, entries: seq<Node>, s: T.Stroke, n: Node): Node
    requires R.WellFormed(a)
  {
    var n1 := SetPaint(n, AId.Stroke, PaintValue(a, entries, s.paint));
    var n2 := n1.Set(AId.StrokeOpacity, AValue.Number(s.opacity))
                .Set(AId.StrokeDashoffset, AValue.Number(s.dashoffset))
                .Set(AId.StrokeMiterlimit, AValue.Number(s.miterlimit))
                .Set(AId.StrokeWidth, AValue.Number(s.width));
    n2.Set(AId.StrokeLinecap, AValue.PredefValue(CapKeyword(s.linecap)))
      .Set(AId.StrokeLinejoin, AValue.PredefValue(JoinKeyword(s.linejoin)))
      .Set(AId.StrokeDasharray, DashValue(s.dasharray))
  }

  /** `conv_stroke`. */
  function ConvStroke(a: R.Arena, entries: seq<Node>, stroke: Option<T.Stroke>, n: Node): Node
    requires R.WellFormed(a)
  {
    match stroke
    case None => n.Set(AId.Stroke, AValue.PredefValue(ValueId.None))
    case Some(s) => StrokeAttrs(a, entries, s, n)
  }

  /**
   * A stroke as the conversion makes it: a positive width, a miter limit of
   * at least 1, and a dash array that the dash-array reading keeps as it is.
   */
  predicate CanonicalStroke(s: T.Stroke)
  {
    s.width > 0.0 && s.miterlimit >= 1.0
    && (s.dasharray.Some? ==> StrokeConv.Dasharray(Some(AValue.NumberList(s.dasharray.value))) == s.dasharray)
  }

  /** Every stroke the conversion makes is canonical. */
  lemma ConvertedStrokeCanonical(doc: Node, ids: seq<string>, n: Node)
    requires StrokeConv.Convert(doc, ids, n).Some?
    ensures CanonicalStroke(StrokeConv.Convert(doc, ids, n).value)
  {
    var s := StrokeConv.Convert(doc, ids, n).value;
    if s.dasharray.Some? {
      StrokeConv.DasharrayIdempotent(n.Get(AId.StrokeDasharray).value.nums);
    }
  }

  /** What the stroke readers find on a written stroke. */
  lemma StrokeAttrsRead(a: R.Arena, entries: seq<Node>, s: T.Stroke, n: Node, doc: Node, ids: seq<string>)
    requires R.WellFormed(a) && s.paint.PaintColor?
    ensures var r := StrokeAttrs(a, entries, s, n);
            StrokeConv.StrokePaint(doc, ids, r) == Some(s.paint)
            && StrokeConv.Width(r) == s.width
            && NumberOr(r, AId.StrokeMiterlimit, 4.0) == s.miterlimit
            && NumberOr(r, AId.StrokeOpacity, 1.0) == s.opacity
            && NumberOr(r, AId.StrokeDashoffset, 0.0) == s.dashoffset
            && GetPredef(r, AId.StrokeLinecap) == Some(CapKeyword(s.linecap))
            && GetPredef(r, AId.StrokeLinejoin) == Some(JoinKeyword(s.linejoin))
            && r.Get(AId.StrokeDasharray) == Some(DashValue(s.dasharray))
  {
  }

  /** A canonical colour stroke reads back as itself; no stroke reads back as none. */
  lemma StrokeRoundTrip(a: R.Arena, entries: seq<Node>, stroke: Option<T.Stroke>, n: Node, doc: Node, ids: seq<string>)
    requires R.WellFormed(a)
    requires stroke.Some? ==> stroke.value.paint.PaintColor? && CanonicalStroke(stroke.value)
    ensures StrokeConv.Convert(doc, ids, ConvStroke(a, entries, stroke, n)) == stroke
  {
    var r := ConvStroke(a, entries, stroke, n);
    if stroke.Some? {
      var s := stroke.value;
      StrokeAttrsRead(a, entries, s, n, doc, ids);
      var c := StrokeConv.Convert(doc, ids, r);
      assert c.Some?;
      assert StrokeConv.ConvertLineCap(CapKeyword(s.linecap)) == s.linecap;
      assert StrokeConv.ConvertLineJoin(JoinKeyword(s.linejoin)) == s.linejoin;
      assert StrokeConv.Dasharray(Some(DashValue(s.dasharray))) == s.dasharray;
      assert c.value == s;
    } else {
      assert StrokeConv.StrokePaint(doc, ids, r).None?;
    }
  }

  // ---- path data ----

  /** One render-tree segment as an svgdom path segment. */
  function DumpSegment(s: T.PathSegment): (r: PathSeg)
    ensures PathConv.IsCopied(r) && PathConv.Copy(r) == s
  {
    match s
    case MoveTo(x, y) => PathSeg.MoveTo(x, y)
    case LineTo(x, y) => PathSeg.LineTo(x, y)
    case CurveTo(x1, y1, x2, y2, x, y) => PathSeg.CurveTo(x1, y1, x2, y2, x, y)
    case ClosePath => PathSeg.ClosePath
  }

  /** The path data: one segment per segment, in order. */
  function Segments(segs: seq<T.PathSegment>): (r: seq<PathSeg>)
    ensures |r| == |segs|
  {
    seq(|segs|, i requires 0 <= i < |segs| => DumpSegment(segs[i]))
  }

  /** Converting the written path data again gives the segments back. */
  lemma SegmentsRoundTrip(segs: seq<T.PathSegment>, arc: PathConv.ArcFlattener)
    ensures PathConv.Run(Segments(segs), arc).out == segs
  {
    PathConv.CopiedOneToOne(Segments(segs), arc);
  }

  /** The loop of `conv_elements` that fills the `SvgDomPath`. */
  method PathData(segs: seq<T.PathSegment>) returns (path: seq<PathSeg>)
    ensures path == Segments(segs)
  {
    path := [];
    for i := 0 to |segs|
      invariant path == Segments(segs[..i])
    {
      assert segs[..i + 1] == segs[..i] + [segs[i]];
      path := path + [DumpSegment(segs[i])];
    }
    assert segs[..|segs|] == segs;
  }

  // ---- gradients: conv_base_grad ----

  function SpreadKeyword(m: T.SpreadMethod): ValueId
  {
    match m
    case Pad => ValueId.Pad
    case Reflect => ValueId.Reflect
    case Repeat => ValueId.Repeat
  }

  /** A `stop` element: offset, colour and opacity. */
  function StopElement(k: R.NodeId, s: T.Stop): Node
  {
    NewElement(EId.Stop, Uid(k)).Set(AId.Offset, AValue.Number(s.offset))
      .Set(AId.StopColor, AValue.Color(s.color)).Set(AId.StopOpacity, AValue.Number(s.opacity))
  }

  /** Reading a written stop gives the stop back. */
  lemma StopRoundTrip(k: R.NodeId, s: T.Stop)
    ensures StopElement(k, s).Is(EId.Stop)
    ensures GradientConv.StopOf(StopElement(k, s)) == s
  {
  }

  /** The loop of `conv_base_grad` over the gradient's children from position `i`: one `stop` per `Stop` node. */
  function Stops(a: R.Arena, g: R.NodeId, i: nat): (r: seq<Node>)
    requires R.WellFormed(a) && g < |a.kinds|
    ensures forall x :: 0 <= x < |r| ==> r[x].Is(EId.Stop)
    decreases |a.kids[g]| - i
  {
    if i >= |a.kids[g]| then []
    else
      R.KidsAfter(a, g);
      var k := a.kids[g][i];
      (if a.kinds[k].StopKind? then [StopElement(k, a.kinds[k].stop)] else []) + Stops(a, g, i + 1)
  }

  /** The `Stop` children of node `g` from position `i`, in order. */
  function StopChildren(a: R.Arena, g: R.NodeId, i: nat): (r: seq<T.NodeKind>)
    requires R.WellFormed(a) && g < |a.kinds|
    decreases |a.kids[g]| - i
  {
    if i >= |a.kids[g]| then []
    else
      R.KidsAfter(a, g);
      var k := a.kids[g][i];
      (if a.kinds[k].StopKind? then [a.kinds[k]] else []) + StopChildren(a, g, i + 1)
  }

  /** Reading the written stops gives the gradient's `Stop` children back, in order. */
  lemma {:induction false} StopsRoundTrip(a: R.Arena, g: R.NodeId, i: nat)
    requires R.WellFormed(a) && g < |a.kinds|
    ensures GradientConv.StopKinds(Stops(a, g, i)) == StopChildren(a, g, i)
    decreases |a.kids[g]| - i
  {
    if i < |a.kids[g]| {
      StopsRoundTrip(a, g, i + 1);
      R.KidsAfter(a, g);
      var k := a.kids[g][i];
      var head := if a.kinds[k].StopKind? then [StopElement(k, a.kinds[k].stop)] else [];
      GradientConv.StopKindsAppend(head, Stops(a, g, i + 1));
      if a.kinds[k].StopKind? {
        StopRoundTrip(k, a.kinds[k].stop);
        assert head[..0] == [];
        assert GradientConv.StopKinds(head) == [a.kinds[k]];
      }
    }
  }

  /** `conv_base_grad` without its loop: units, spread method and transform. */
  function BaseAttrs(b: T.BaseGradient, n: Node): Node
  {
    ConvTransform(AId.GradientTransform, b.transform,
      ConvUnits(AId.GradientUnits, b.units, n).Set(AId.SpreadMethod, AValue.PredefValue(SpreadKeyword(b.spreadMethod))))
  }

  /** The `linearGradient` element for node `k`, before its stops. */
  function LinearAttrs(k: R.NodeId, lg: T.LinearGradient): Node
  {
    var e := NewElement(EId.LinearGradient, Uid(k)).(id := lg.id)
      .Set(AId.X1, AValue.Number(lg.x1)).Set(AId.Y1, AValue.Number(lg.y1))
      .Set(AId.X2, AValue.Number(lg.x2)).Set(AId.Y2, AValue.Number(lg.y2));
    BaseAttrs(lg.base, e)
  }

  /** The `radialGradient` element for node `k`, before its stops. */
  function RadialAttrs(k: R.NodeId, rg: T.RadialGradient): Node
  {
    var e := NewElement(EId.RadialGradient, Uid(k)).(id := rg.id)
      .Set(AId.Cx, AValue.Number(rg.cx)).Set(AId.Cy, AValue.Number(rg.cy)).Set(AId.R, AValue.Number(rg.r))
      .Set(AId.Fx, AValue.Number(rg.fx)).Set(AId.Fy, AValue.Number(rg.fy));
    BaseAttrs(rg.base, e)
  }

  /** The spread method, the transform and every coordinate of a written gradient read back; the units are written as a keyword. */
  lemma BaseRoundTrip(b: T.BaseGradient, n: Node)
    requires AId.GradientTransform !in n.attrs
    ensures GradientConv.SpreadMethodOf(BaseAttrs(b, n)) == b.spreadMethod
    ensures CB.TransformOr(BaseAttrs(b, n), AId.GradientTransform) == b.transform
    ensures BaseAttrs(b, n).attrs[AId.GradientUnits] == AValue.PredefValue(UnitsKeyword(b.units))
  {
  }

  lemma LinearFields(k: R.NodeId, lg: T.LinearGradient)
    ensures var g := GradientConv.LinearOf(LinearAttrs(k, lg));
            g.id == lg.id && g.x1 == lg.x1 && g.y1 == lg.y1 && g.x2 == lg.x2 && g.y2 == lg.y2
    ensures GradientConv.LinearOf(LinearAttrs(k, lg)).base.(units := lg.base.units) == lg.base
  {
  }

  lemma RadialFields(k: R.NodeId, rg: T.RadialGradient)
    ensures var g := GradientConv.RadialOf(RadialAttrs(k, rg));
            g.id == rg.id && g.cx == rg.cx && g.cy == rg.cy && g.r == rg.r && g.fx == rg.fx && g.fy == rg.fy
    ensures GradientConv.RadialOf(RadialAttrs(k, rg)).base.(units := rg.base.units) == rg.base
  {
  }

  /** A written linear gradient reads back as itself in every field but the units. */
  lemma LinearRoundTrip(k: R.NodeId, lg: T.LinearGradient, stops: seq<Node>)
    ensures var g := GradientConv.LinearOf(LinearAttrs(k, lg).(children := stops));
            g.(base := g.base.(units := lg.base.units)) == lg
  {
    LinearFields(k, lg);
    assert GradientConv.LinearOf(LinearAttrs(k, lg).(children := stops)) == GradientConv.LinearOf(LinearAttrs(k, lg));
  }

  /** A written radial gradient reads back as itself in every field but the units. */
  lemma RadialRoundTrip(k: R.NodeId, rg: T.RadialGradient, stops: seq<Node>)
    ensures var g := GradientConv.RadialOf(RadialAttrs(k, rg).(children := stops));
            g.(base := g.base.(units := rg.base.units)) == rg
  {
    RadialFields(k, rg);
    assert GradientConv.RadialOf(RadialAttrs(k, rg).(children := stops)) == GradientConv.RadialOf(RadialAttrs(k, rg));
  }

  /** The loop of `conv_base_grad`. */
  method ConvStops(t: R.Tree, g: R.NodeId) returns (stops: seq<Node>)
    requires R.WellFormed(t.State()) && g < |t.kinds|
    ensures stops == Stops(t.State(), g, 0)
  {
    ghost var a := t.State();
    R.KidsAfter(a, g);
    stops := [];
    for i := 0 to |t.kids[g]|
      invariant stops + Stops(a, g, i) == Stops(a, g, 0)
    {
      var k := t.kids[g][i];
      var more := if t.kinds[k].StopKind? then [StopElement(k, t.kinds[k].stop)] else [];
      assert stops + Stops(a, g, i) == (stops + more) + Stops(a, g, i + 1);
      stops := stops + more;
    }
    assert stops + [] == stops;
  }

  // ---- clip paths and patterns ----

  /** The `clipPath` element for node `k`, before its children are written. */
  function ClipElement(k: R.NodeId, c: T.ClipPath): Node
  {
    ConvTransform(AId.Transform, c.transform,
      ConvUnits(AId.ClipPathUnits, c.units, NewElement(EId.ClipPath, Uid(k)).(id := c.id)))
  }

  /** A written clip path reads back as itself but for the units. */
  lemma ClipRoundTrip(k: R.NodeId, c: T.ClipPath)
    ensures ClipPathConv.ClipOf(ClipElement(k, c)).(units := c.units) == c
  {
    TransformRoundTrip(AId.Transform, c.transform,
      ConvUnits(AId.ClipPathUnits, c.units, NewElement(EId.ClipPath, Uid(k)).(id := c.id)));
  }

  /** The `pattern` element for node `k`, before its children are written. */
  function PatternElement(k: R.NodeId, p: T.Pattern): Node
  {
    var e := ConvRect(p.rect, NewElement(EId.Pattern, Uid(k)).(id := p.id));
    var e := if p.viewBox.Some? then ConvViewBox(p.viewBox.value, e) else e;
    ConvTransform(AId.PatternTransform, p.transform,
      ConvUnits(AId.PatternContentUnits, p.contentUnits, ConvUnits(AId.PatternUnits, p.units, e)))
  }

  /** A written pattern has its rectangle and its transform. */
  lemma PatternWritten(k: R.NodeId, p: T.Pattern)
    ensures CB.ConvertRect(PatternElement(k, p)) == p.rect
    ensures CB.TransformOr(PatternElement(k, p), AId.PatternTransform) == p.transform
  {
    var e := ConvRect(p.rect, NewElement(EId.Pattern, Uid(k)).(id := p.id));
    RectRoundTrip(p.rect, NewElement(EId.Pattern, Uid(k)).(id := p.id));
    var e2 := if p.viewBox.Some? then ConvViewBox(p.viewBox.value, e) else e;
    assert CB.ConvertRect(e2) == p.rect;
    assert AId.PatternTransform !in e2.attrs;
  }

  /** A written pattern has a view box exactly when it has one, and then it reads back. */
  lemma PatternViewBox(k: R.NodeId, p: T.Pattern)
    ensures AId.ViewBox in PatternElement(k, p).attrs <==> p.viewBox.Some?
    ensures p.viewBox.Some? ==> (GetViewbox(PatternElement(k, p)) == Some(p.viewBox.value.rect)
                                 && CB.ConvertAspect(PatternElement(k, p)) == p.viewBox.value.aspect)
  {
  }

  // ---- text ----

  function AnchorKeyword(an: T.TextAnchor): ValueId
  {
    match an
    case AnchorStart => ValueId.Start
    case AnchorMiddle => ValueId.Middle
    case AnchorEnd => ValueId.End
  }

  /** `conv_font`: the family and the size. */
  function ConvFont(f: T.Font, n: Node): Node
  {
    n.Set(AId.FontFamily, AValue.String(f.family)).Set(AId.FontSize, AValue.Number(f.size))
  }

  /** A span: a `tspan` holding the text, with the span's fill, stroke and font. */
  function SpanElement(a: R.Arena, entries: seq<Node>, k: R.NodeId, s: T.TextSpan, clip: bool): Node
    requires R.WellFormed(a)
  {
    var e := NewElement(EId.Tspan, Uid(k)).(children := [Node(TextUid(k), Kind.TextNode(s.text), "", map[], [])]);
    ConvFont(s.font, ConvStroke(a, entries, s.stroke, ConvFill(a, entries, s.fill, clip, e)))
  }

  /** The span at position `i` of a chunk's children, when it is one. */
  function SpanAt(a: R.Arena, entries: seq<Node>, c: R.NodeId, i: nat, clip: bool): (r: seq<Node>)
    requires R.WellFormed(a) && c < |a.kinds| && i < |a.kids[c]|
    ensures forall x :: 0 <= x < |r| ==> r[x].Is(EId.Tspan) && |r[x].children| == 1 && r[x].children[0].kind.TextNode?
  {
    R.KidsAfter(a, c);
    var k := a.kids[c][i];
    if a.kinds[k].TSpanKind? then [SpanElement(a, entries, k, a.kinds[k].tspan, clip)] else []
  }

  /** The inner loop over a chunk's children from position `i`: one `tspan` per span. */
  function Spans(a: R.Arena, entries: seq<Node>, c: R.NodeId, i: nat, clip: bool): (r: seq<Node>)
    requires R.WellFormed(a) && c < |a.kinds|
    ensures forall x :: 0 <= x < |r| ==> r[x].Is(EId.Tspan) && |r[x].children| == 1 && r[x].children[0].kind.TextNode?
    decreases |a.kids[c]| - i
  {
    if i >= |a.kids[c]| then []
    else SpanAt(a, entries, c, i, clip) + Spans(a, entries, c, i + 1, clip)
  }

  /** A chunk: a `tspan` with the positions, the anchor when it is not `start`, and the spans. */
  function ChunkElement(a: R.Arena, entries: seq<Node>, k: R.NodeId, ch: T.TextChunk, clip: bool): Node
    requires R.WellFormed(a) && k < |a.kinds|
  {
    var e := NewElement(EId.Tspan, Uid(k));
    var e := if ch.x.Some? then e.Set(AId.X, AValue.NumberList(ch.x.value)) else e;
    var e := if ch.y.Some? then e.Set(AId.Y, AValue.NumberList(ch.y.value)) else e;
    var e := if ch.anchor != T.AnchorStart then e.Set(AId.TextAnchor, AValue.PredefValue(AnchorKeyword(ch.anchor))) else e;
    e.(children := Spans(a, entries, k, 0, clip))
  }

  /** `text-anchor` is written exactly when the anchor is not `start`, as a keyword that names the anchor. */
  lemma AnchorWritten(a: R.Arena, entries: seq<Node>, k: R.NodeId, ch: T.TextChunk, clip: bool)
    requires R.WellFormed(a) && k < |a.kinds|
    ensures var e := ChunkElement(a, entries, k, ch, clip);
            (AId.TextAnchor in e.attrs <==> ch.anchor != T.AnchorStart)
            && (ch.anchor == T.AnchorMiddle ==> GetPredef(e, AId.TextAnchor) == Some(ValueId.Middle))
            && (ch.anchor == T.AnchorEnd ==> GetPredef(e, AId.TextAnchor) == Some(ValueId.End))
  {
  }

  /** The outer loop over a text node's children from position `i`: one `tspan` per chunk. */
  function Chunks(a: R.Arena, entries: seq<Node>, j: R.NodeId, i: nat, clip: bool): (r: seq<Node>)
    requires R.WellFormed(a) && j < |a.kinds|
    ensures forall x :: 0 <= x < |r| ==> r[x].Is(EId.Tspan)
    decreases |a.kids[j]| - i
  {
    if i >= |a.kids[j]| then []
    else
      R.KidsAfter(a, j);
      var k := a.kids[j][i];
      (if a.kinds[k].TextChunkKind? then [ChunkElement(a, entries, k, a.kinds[k].chunk, clip)] else [])
      + Chunks(a, entries, j, i + 1, clip)
  }

  /** The `text` element for node `j`. */
  function TextElement(a: R.Arena, entries: seq<Node>, j: R.NodeId, text: T.Text, clip: bool): Node
    requires R.WellFormed(a) && j < |a.kinds|
  {
    ConvTransform(AId.Transform, text.transform, NewElement(EId.Text, Uid(j))).(id := text.id)
      .(children := Chunks(a, entries, j, 0, clip))
  }

  /** One step of the inner loop. */
  method ConvSpanAt(t: R.Tree, entries: seq<Node>, c: R.NodeId, i: nat, clip: bool) returns (more: seq<Node>)
    requires R.WellFormed(t.State()) && c < |t.kinds| && i < |t.kids[c]|
    ensures more == SpanAt(t.State(), entries, c, i, clip)
  {
    R.KidsAfter(t.State(), c);
    var k := t.kids[c][i];
    more := [];
    if t.kinds[k].TSpanKind? {
      more := [SpanElement(t.State(), entries, k, t.kinds[k].tspan, clip)];
    }
  }

  /** The inner loop of the text branch. */
  method ConvSpans(t: R.Tree, entries: seq<Node>, c: R.NodeId, clip: bool) returns (spans: seq<Node>)
    requires R.WellFormed(t.State()) && c < |t.kinds|
    ensures spans == Spans(t.State(), entries, c, 0, clip)
  {
    ghost var a := t.State();
    R.KidsAfter(a, c);
    spans := [];
    for i := 0 to |t.kids[c]|
      invariant spans + Spans(a, entries, c, i, clip) == Spans(a, entries, c, 0, clip)
    {
      var more := ConvSpanAt(t, entries, c, i, clip);
      AppendAssoc(spans, more, Spans(a, entries, c, i + 1, clip));
      spans := spans + more;
    }
    assert spans + [] == spans;
  }

  /** One chunk of the outer loop: the positions, the anchor, then the spans. */
  method ConvChunk(t: R.Tree, entries: seq<Node>, k: R.NodeId, ch: T.TextChunk, clip: bool) returns (e: Node)
    requires R.WellFormed(t.State()) && k < |t.kinds|
    ensures e == ChunkElement(t.State(), entries, k, ch, clip)
  {
    var spans := ConvSpans(t, entries, k, clip);
    e := NewElement(EId.Tspan, Uid(k));
    if ch.x.Some? {
      e := e.Set(AId.X, AValue.NumberList(ch.x.value));
    }
    if ch.y.Some? {
      e := e.Set(AId.Y, AValue.NumberList(ch.y.value));
    }
    if ch.anchor != T.AnchorStart {
      e := e.Set(AId.TextAnchor, AValue.PredefValue(AnchorKeyword(ch.anchor)));
    }
    e := e.(children := spans);
  }

  /** One step of `Chunks`. */
  lemma ChunksStep(a: R.Arena, entries: seq<Node>, j: R.NodeId, i: nat, clip: bool)
    requires R.WellFormed(a) && j < |a.kinds| && i < |a.kids[j]|
    ensures a.kids[j][i] < |a.kinds|
    ensures var k := a.kids[j][i];
            Chunks(a, entries, j, i, clip)
            == (if a.kinds[k].TextChunkKind? then [ChunkElement(a, entries, k, a.kinds[k].chunk, clip)] else [])
               + Chunks(a, entries, j, i + 1, clip)
  {
    R.KidsAfter(a, j);
  }

  /** The outer loop of the text branch. */
  method ConvChunks(t: R.Tree, entries: seq<Node>, j: R.NodeId, clip: bool) returns (chunks: seq<Node>)
    requires R.WellFormed(t.State()) && j < |t.kinds|
    ensures chunks == Chunks(t.State(), entries, j, 0, clip)
  {
    ghost var a := t.State();
    R.KidsAfter(a, j);
    chunks := [];
    for i := 0 to |t.kids[j]|
      invariant chunks + Chunks(a, entries, j, i, clip) == Chunks(a, entries, j, 0, clip)
    {
      var k := t.kids[j][i];
      var more := [];
      if t.kinds[k].TextChunkKind? {
        var e := ConvChunk(t, entries, k, t.kinds[k].chunk, clip);
        more := [e];
      }
      ChunksStep(a, entries, j, i, clip);
      AppendAssoc(chunks, more, Chunks(a, entries, j, i + 1, clip));
      chunks := chunks + more;
    }
    assert chunks + [] == chunks;
  }

  // ---- images ----

  function KindName(k: T.ImageDataKind): string
  {
    match k
    case PNG => "png"
    case JPEG => "jpg"
  }

  /**
   * The `xlink:href` of an image: a path as it is, raw data as a
   * `data:image/<kind>;base64,` URL whose payload is a line feed followed by
   * `encode` of the data (the base64 encoder, which is not part of this model).
   */
  function HrefOf(d: T.ImageData, encode: seq<bv8> -> string): string
  {
    match d
    case ImagePath(p) => p
    case Raw(data, kind) => ImageConv.DataPrefix + KindName(kind) + ";base64,\n" + encode(data)
  }

  /** The `image` element for node `j`. */
  function ImageElement(j: R.NodeId, img: T.Image, encode: seq<bv8> -> string): Node
  {
    ConvViewBox2(img.viewBox, ConvTransform(AId.Transform, img.transform, NewElement(EId.Image, Uid(j))).(id := img.id))
      .Set(AId.Href, AValue.String(HrefOf(img.data, encode)))
  }

  /** The media type and encoding of a written data URL hold no comma. */
  lemma NoCommaTag(kind: T.ImageDataKind)
    ensures ',' !in KindName(kind) + ";base64"
  {
    if kind == T.PNG {
      assert KindName(kind) + ";base64" == "png;base64";
    } else {
      assert KindName(kind) + ";base64" == "jpg;base64";
    }
  }

  /** Raw data written as a data URL reads back as the same data and kind, given a decoder that undoes the encoder. */
  lemma RawHrefRoundTrip(data: seq<bv8>, kind: T.ImageDataKind, encode: seq<bv8> -> string, env: CB.Env)
    requires env.decode("\n" + encode(data)) == Some(data)
    ensures ImageConv.HrefData(HrefOf(T.Raw(data, kind), encode), env) == Some(T.Raw(data, kind))
  {
    var tag := KindName(kind) + ";base64";
    var payload := "\n" + encode(data);
    NoCommaTag(kind);
    RawHrefSplit(kind, encode(data));
    ImageConv.DataUrl(tag, payload, env);
  }

  /** The written data URL is the prefix, the tag, a comma and the payload. */
  lemma RawHrefSplit(kind: T.ImageDataKind, text: string)
    ensures ImageConv.DataPrefix + KindName(kind) + ";base64,\n" + text
            == ImageConv.DataPrefix + (KindName(kind) + ";base64") + "," + ("\n" + text)
    ensures ImageConv.KindOf(KindName(kind) + ";base64") == Some(kind)
  {
    assert KindName(kind) + ";base64,\n" == (KindName(kind) + ";base64") + "," + "\n";
  }

  /** A written image has the href of its data, and its id, transform and view box read back. */
  lemma ImageRoundTrip(j: R.NodeId, img: T.Image, encode: seq<bv8> -> string)
    ensures ImageConv.Href(ImageElement(j, img, encode)) == Some(HrefOf(img.data, encode))
    ensures ImageConv.ImageOf(ImageElement(j, img, encode), img.data) == img
  {
    var e := ConvTransform(AId.Transform, img.transform, NewElement(EId.Image, Uid(j))).(id := img.id);
    TransformRoundTrip(AId.Transform, img.transform, NewElement(EId.Image, Uid(j)));
    ViewBoxRoundTrip(img.viewBox, e, Geom.Size(0.0, 0.0));
  }

  // ---- groups ----

  /**
   * The `g` element for group `g` of node `j`, before its children: the
   * transform, the id, a `clip-path` link when the clip path's link
   * resolves, and the opacity when there is one. No mask is written.
   */
  function GroupAttrs(a: R.Arena, entries: seq<Node>, j: R.NodeId, g: T.Group): Node
    requires R.WellFormed(a)
  {
    var e := ConvTransform(AId.Transform, g.transform, NewElement(EId.G, Uid(j))).(id := g.id);
    var link := if g.clipPath.Some? then LinkTo(a, entries, g.clipPath.value) else Option.None;
    var e := if link.Some? then e.Set(AId.ClipPath, AValue.FuncLink(link.value)) else e;
    if g.opacity.Some? then e.Set(AId.Opacity, AValue.Number(g.opacity.value)) else e
  }

  /**
   * A written group reads back as itself, given its clip path and mask; the
   * `clip-path` attribute is there exactly when the link resolves, and there
   * is never a `mask` attribute.
   */
  lemma GroupRoundTrip(a: R.Arena, entries: seq<Node>, j: R.NodeId, g: T.Group, kids: seq<Node>)
    requires R.WellFormed(a)
    ensures Conv.GroupOf(GroupAttrs(a, entries, j, g).(children := kids), g.clipPath, g.mask) == g
    ensures AId.ClipPath in GroupAttrs(a, entries, j, g).attrs
            <==> g.clipPath.Some? && LinkTo(a, entries, g.clipPath.value).Some?
    ensures AId.Mask !in GroupAttrs(a, entries, j, g).attrs
  {
    TransformRoundTrip(AId.Transform, g.transform, NewElement(EId.G, Uid(j)));
  }

  // ---- paths ----

  /** The `path` element for path `p` of node `j`: transform, id, path data, fill and stroke. */
  function PathElement(a: R.Arena, entries: seq<Node>, j: R.NodeId, p: T.Path, clip: bool): Node
    requires R.WellFormed(a)
  {
    var e := ConvTransform(AId.Transform, p.transform, NewElement(EId.Path, Uid(j))).(id := p.id)
               .Set(AId.D, AValue.Path(Segments(p.segments)));
    ConvStroke(a, entries, p.stroke, ConvFill(a, entries, p.fill, clip, e))
  }

  /** Writing a stroke does not change what the fill reader finds. */
  lemma StrokeKeepsFill(a: R.Arena, entries: seq<Node>, stroke: Option<T.Stroke>, n: Node, doc: Node, ids: seq<string>)
    requires R.WellFormed(a)
    ensures FillConv.Convert(doc, ids, ConvStroke(a, entries, stroke, n)) == FillConv.Convert(doc, ids, n)
  {
    var r := ConvStroke(a, entries, stroke, n);
    assert r.id == n.id;
    assert forall aid :: aid in {AId.Fill, AId.FillOpacity, AId.FillRule} ==> r.Get(aid) == n.Get(aid);
  }

  /** Fill and stroke leave the id, the transform and the path data alone. */
  lemma PaintKeeps(a: R.Arena, entries: seq<Node>, p: T.Path, clip: bool, e: Node)
    requires R.WellFormed(a)
    ensures var r := ConvStroke(a, entries, p.stroke, ConvFill(a, entries, p.fill, clip, e));
            r.id == e.id && r.Get(AId.Transform) == e.Get(AId.Transform) && r.Get(AId.D) == e.Get(AId.D)
  {
    var f := ConvFill(a, entries, p.fill, clip, e);
    FillKeeps(a, entries, p.fill, clip, e);
    StrokeKeeps(a, entries, p.stroke, f);
  }

  /** The fill leaves the id, the transform and the path data alone. */
  lemma FillKeeps(a: R.Arena, entries: seq<Node>, fill: Option<T.Fill>, clip: bool, e: Node)
    requires R.WellFormed(a)
    ensures var r := ConvFill(a, entries, fill, clip, e);
            r.id == e.id && r.Get(AId.Transform) == e.Get(AId.Transform) && r.Get(AId.D) == e.Get(AId.D)
  {
  }

  /** The stroke leaves the id, the transform and the path data alone. */
  lemma StrokeKeeps(a: R.Arena, entries: seq<Node>, stroke: Option<T.Stroke>, e: Node)
    requires R.WellFormed(a)
    ensures var r := ConvStroke(a, entries, stroke, e);
            r.id == e.id && r.Get(AId.Transform) == e.Get(AId.Transform) && r.Get(AId.D) == e.Get(AId.D)
  {
  }

  /** What the readers of `PathOf` find on a written path. */
  lemma PathAttrsRead(a: R.Arena, entries: seq<Node>, j: R.NodeId, p: T.Path, doc: Node, ids: seq<string>)
    requires R.WellFormed(a)
    requires p.fill.Some? ==> p.fill.value.paint.PaintColor?
    requires p.stroke.Some? ==> p.stroke.value.paint.PaintColor? && CanonicalStroke(p.stroke.value)
    ensures var r := PathElement(a, entries, j, p, false);
            r.id == p.id && r.Get(AId.D) == Some(AValue.Path(Segments(p.segments)))
            && CB.TransformOr(r, AId.Transform) == p.transform
            && FillConv.Convert(doc, ids, r) == p.fill && StrokeConv.Convert(doc, ids, r) == p.stroke
  {
    var e0 := NewElement(EId.Path, Uid(j));
    TransformRoundTrip(AId.Transform, p.transform, e0);
    var e := ConvTransform(AId.Transform, p.transform, e0).(id := p.id).Set(AId.D, AValue.Path(Segments(p.segments)));
    assert CB.TransformOr(e, AId.Transform) == p.transform;
    PaintKeeps(a, entries, p, false, e);
    var f := ConvFill(a, entries, p.fill, false, e);
    FillRoundTrip(a, entries, p.fill, e, doc, ids);
    StrokeKeepsFill(a, entries, p.stroke, f, doc, ids);
    StrokeRoundTrip(a, entries, p.stroke, f, doc, ids);
  }

  /**
   * A written path with colour paints and a canonical stroke, outside a clip
   * path, reads back as itself, its segments snapped when it is stroked.
   */
  lemma PathRoundTrip(a: R.Arena, entries: seq<Node>, j: R.NodeId, p: T.Path, b: R.Arena, doc: Node, arc: PathConv.ArcFlattener)
    requires R.WellFormed(a) && R.WellFormed(b)
    requires p.fill.Some? ==> p.fill.value.paint.PaintColor?
    requires p.stroke.Some? ==> p.stroke.value.paint.PaintColor? && CanonicalStroke(p.stroke.value)
    ensures PathConv.PathOf(b, doc, PathElement(a, entries, j, p, false), Segments(p.segments), arc)
            == p.(segments := if p.stroke.Some? then PathConv.SnapAll(p.segments) else p.segments)
  {
    PathAttrsRead(a, entries, j, p, doc, R.DefsIds(b));
    SegmentsRoundTrip(p.segments, arc);
  }

  // ---- conv_elements ----

  /** The kinds `conv_elements` writes an element for. */
  predicate Drawable(k: T.NodeKind)
  {
    k.PathKind? || k.TextKind? || k.ImageKind? || k.GroupKind?
  }

  /**
   * The element written for node `k`, if any, under a parent that is a clip
   * path when `clip` holds. A group's children are written under the `g`,
   * which is not a clip path.
   */
  function ElementOf(a: R.Arena, entries: seq<Node>, k: R.NodeId, clip: bool, encode: seq<bv8> -> string): (r: seq<Node>)
    requires R.WellFormed(a) && k < |a.kinds|
    ensures |r| == (if Drawable(a.kinds[k]) then 1 else 0)
    ensures forall x :: 0 <= x < |r| ==> r[x].uid == Uid(k)
    decreases |a.kinds| - k, 1, 0
  {
    match a.kinds[k]
    case PathKind(p) => [PathElement(a, entries, k, p, clip)]
    case TextKind(text) => [TextElement(a, entries, k, text, clip)]
    case ImageKind(img) => [ImageElement(k, img, encode)]
    case GroupKind(g) => [GroupAttrs(a, entries, k, g).(children := KidElements(a, entries, k, 0, false, encode))]
    case _ => []
  }

  /** `conv_elements` over the children of node `j` from position `i`. */
  function KidElements(a: R.Arena, entries: seq<Node>, j: R.NodeId, i: nat, clip: bool, encode: seq<bv8> -> string): (r: seq<Node>)
    requires R.WellFormed(a) && j < |a.kinds|
    decreases |a.kinds| - j, 0, |a.kids[j]| - i
  {
    if i >= |a.kids[j]| then []
    else
      R.KidsAfter(a, j);
      ElementOf(a, entries, a.kids[j][i], clip, encode) + KidElements(a, entries, j, i + 1, clip, encode)
  }

  /** The children of node `j` from position `i` that get an element, in order. */
  function DrawableKids(a: R.Arena, j: R.NodeId, i: nat): seq<R.NodeId>
    requires R.WellFormed(a) && j < |a.kinds|
    decreases |a.kids[j]| - i
  {
    if i >= |a.kids[j]| then []
    else
      R.KidsAfter(a, j);
      var k := a.kids[j][i];
      (if Drawable(a.kinds[k]) then [k] else []) + DrawableKids(a, j, i + 1)
  }

  /** One element per drawable child, in the children's order, and nothing for the rest. */
  lemma {:induction false} KidElementsInOrder(a: R.Arena, entries: seq<Node>, j: R.NodeId, i: nat, clip: bool, encode: seq<bv8> -> string)
    requires R.WellFormed(a) && j < |a.kinds|
    ensures var r := KidElements(a, entries, j, i, clip, encode);
            |r| == |DrawableKids(a, j, i)|
            && forall x :: 0 <= x < |r| ==> r[x].uid == Uid(DrawableKids(a, j, i)[x])
    decreases |a.kids[j]| - i
  {
    if i < |a.kids[j]| {
      R.KidsAfter(a, j);
      KidElementsInOrder(a, entries, j, i + 1, clip, encode);
      var k := a.kids[j][i];
      var head: seq<Node> := ElementOf(a, entries, k, clip, encode);
      var rest: seq<Node> := KidElements(a, entries, j, i + 1, clip, encode);
      var dhead: seq<R.NodeId> := if Drawable(a.kinds[k]) then [k] else [];
      assert KidElements(a, entries, j, i, clip, encode) == head + rest;
      assert DrawableKids(a, j, i) == dhead + DrawableKids(a, j, i + 1);
      assert |head| == |dhead|;
      forall x | 0 <= x < |head + rest|
        ensures (head + rest)[x].uid == Uid((dhead + DrawableKids(a, j, i + 1))[x])
      {
        if x >= |head| {
          assert (head + rest)[x] == rest[x - |head|];
          assert (dhead + DrawableKids(a, j, i + 1))[x] == DrawableKids(a, j, i + 1)[x - |head|];
        }
      }
    }
  }

  // ---- conv_defs ----

  /**
   * The `defs` entry written for node `k` in the first pass: gradients with
   * their stops, clip paths and patterns without their children yet. Masks
   * and every other kind get no entry.
   */
  function DefsEntry(a: R.Arena, k: R.NodeId): (r: Option<Node>)
    requires R.WellFormed(a) && k < |a.kinds|
    ensures r.Some? <==> (a.kinds[k].LinearGradientKind? || a.kinds[k].RadialGradientKind?
                          || a.kinds[k].ClipPathKind? || a.kinds[k].PatternKind?)
    ensures r.Some? ==> r.value.uid == Uid(k) && r.value.id == a.kinds[k].Id()
    ensures r.Some? && (a.kinds[k].ClipPathKind? || a.kinds[k].PatternKind?) ==> r.value.children == []
  {
    match a.kinds[k]
    case LinearGradientKind(lg) => Some(LinearAttrs(k, lg).(children := Stops(a, k, 0)))
    case RadialGradientKind(rg) => Some(RadialAttrs(k, rg).(children := Stops(a, k, 0)))
    case ClipPathKind(c) => Some(ClipElement(k, c))
    case PatternKind(p) => Some(PatternElement(k, p))
    case _ => Option.None
  }

  /** A clip path or a pattern whose children are still to be written, and the position of its entry. */
  datatype Pending = Pending(node: R.NodeId, at: nat)

  /** Pending entries that name a node and an entry of `entries`. */
  predicate PendingIn(a: R.Arena, entries: seq<Node>, ps: seq<Pending>)
  {
    forall x :: 0 <= x < |ps| ==> ps[x].node < |a.kinds| && ps[x].at < |entries|
  }

  /** The first pass of `conv_defs` over the first `i` children of `Defs`: the entries, and the clip paths and patterns left for later. */
  function DefsPass(a: R.Arena, i: nat): (r: (seq<Node>, seq<Pending>))
    requires R.WellFormed(a) && i <= |a.kids[R.DefsOf(a)]|
    ensures PendingIn(a, r.0, r.1)
    ensures forall x :: 0 <= x < |r.1| ==>
              (a.kinds[r.1[x].node].ClipPathKind? || a.kinds[r.1[x].node].PatternKind?)
              && r.0[r.1[x].at].uid == Uid(r.1[x].node)
  {
    if i == 0 then ([], [])
    else
      var prev := DefsPass(a, i - 1);
      R.KidsAfter(a, R.DefsOf(a));
      var k := a.kids[R.DefsOf(a)][i - 1];
      match DefsEntry(a, k)
      case None => prev
      case Some(e) =>
        if a.kinds[k].ClipPathKind? || a.kinds[k].PatternKind? then (prev.0 + [e], prev.1 + [Pending(k, |prev.0|)])
        else (prev.0 + [e], prev.1)
  }

  /** The elements written for the children of a pending node appended to its entry. */
  function Filled(a: R.Arena, entries: seq<Node>, es: seq<Node>, p: Pending, encode: seq<bv8> -> string): (r: seq<Node>)
    requires R.WellFormed(a) && p.node < |a.kinds| && p.at < |es|
  {
    es[p.at := es[p.at].(children := es[p.at].children
                                      + KidElements(a, entries, p.node, 0, es[p.at].Is(EId.ClipPath), encode))]
  }

  /**
   * The second pass of `conv_defs`: the children of every pending clip path
   * and pattern, written in order under their entries, with links looked up
   * among `entries`. Only children change.
   */
  function LaterPass(a: R.Arena, entries: seq<Node>, es: seq<Node>, ps: seq<Pending>, encode: seq<bv8> -> string): (r: seq<Node>)
    requires R.WellFormed(a) && PendingIn(a, es, ps)
    ensures |r| == |es|
    ensures forall x :: 0 <= x < |r| ==>
              r[x].uid == es[x].uid && r[x].id == es[x].id && r[x].kind == es[x].kind && r[x].attrs == es[x].attrs
    decreases |ps|
  {
    if ps == [] then es
    else
      var prev := LaterPass(a, entries, es, ps[..|ps| - 1], encode);
      Filled(a, entries, prev, ps[|ps| - 1], encode)
  }

  /** Entries with the same ids in the same positions have the same first entry for every id. */
  lemma {:induction false} EntryIndexSameIds(e1: seq<Node>, e2: seq<Node>, id: string)
    requires |e1| == |e2| && forall x :: 0 <= x < |e1| ==> e1[x].id == e2[x].id
    ensures EntryIndex(e1, id) == EntryIndex(e2, id)
  {
    if e1 != [] && e1[0].id != id {
      EntryIndexSameIds(e1[1..], e2[1..], id);
    }
  }

  /**
   * Links resolve the same against the entries of the first pass and against
   * the filled ones, so it does not matter how far the second pass has got
   * when a link is looked up.
   */
  lemma LaterPassKeepsLinks(a: R.Arena, entries: seq<Node>, es: seq<Node>, ps: seq<Pending>, encode: seq<bv8> -> string, id: string)
    requires R.WellFormed(a) && PendingIn(a, es, ps)
    ensures LinkTo(a, LaterPass(a, entries, es, ps, encode), id) == LinkTo(a, es, id)
  {
    var r := LaterPass(a, entries, es, ps, encode);
    match R.DefsById(a, id)
    case None =>
    case Some(j) =>
      EntryIndexSameIds(r, es, a.kinds[j].Id());
  }

  /**
   * `conv_defs`: the `defs` element, each entry written in the first pass
   * and the children of clip paths and patterns added in the second.
   */
  function DefsElementOf(a: R.Arena, encode: seq<bv8> -> string): Node
    requires R.WellFormed(a)
  {
    var first := DefsPass(a, |a.kids[R.DefsOf(a)]|);
    Node(Uid(R.DefsOf(a)), Kind.Element(EId.Defs), "", map[], LaterPass(a, first.0, first.0, first.1, encode))
  }

  // ---- conv_doc ----

  const SvgNs: string := "http://www.w3.org/2000/svg"
  const XlinkNs: string := "http://www.w3.org/1999/xlink"
  const UsvgNs: string := "https://github.com/RazrFalcon/usvg"

  /**
   * The `svg` element before its children: the namespace, the size, the view
   * box, the `xlink` and `usvg` namespaces and usvg's `version`. The
   * namespace declarations are kept as custom attributes.
   */
  function SvgAttrs(svg: T.Svg, version: string): Node
  {
    var e := NewElement(EId.Svg, Uid(R.RootId)).Set(AId.Custom("xmlns"), AValue.String(SvgNs))
      .Set(AId.Width, AValue.Number(svg.size.w)).Set(AId.Height, AValue.Number(svg.size.h));
    ConvViewBox(svg.viewBox, e).Set(AId.Custom("xmlns:xlink"), AValue.String(XlinkNs))
      .Set(AId.Custom("xmlns:usvg"), AValue.String(UsvgNs)).Set(AId.Custom("usvg:version"), AValue.String(version))
  }

  /** `conv_doc`: the document whose `svg` holds the `defs` and then the elements of the root's children. */
  function DumpedDoc(a: R.Arena, encode: seq<bv8> -> string, version: string): Node
    requires R.WellFormed(a)
  {
    var defs := DefsElementOf(a, encode);
    var svg := SvgAttrs(R.SvgOf(a), version)
                 .(children := [defs] + KidElements(a, defs.children, R.RootId, 0, false, encode));
    Node(0, Kind.Root, "", map[], [svg])
  }

  /** The dumped document has the `svg` element and the `defs` as its first child, where the conversion looks for them. */
  lemma DumpedShape(a: R.Arena, encode: seq<bv8> -> string, version: string)
    requires R.WellFormed(a)
    ensures SvgElement(DumpedDoc(a, encode, version)).Some?
    ensures DefsElement(DumpedDoc(a, encode, version)) == Some(DefsElementOf(a, encode))
  {
    var doc := DumpedDoc(a, encode, version);
    assert doc.children[0].Is(EId.Svg);
    assert SvgElement(doc) == Some(doc.children[0]);
  }

  /** A whole number is its own rounding. */
  lemma RoundWhole(x: real)
    requires x == x.Floor as real
    ensures CB.Round(x) as real == x
  {
    var r := CB.Round(x);
    var d := x.Floor - r;
    assert d as real == x - r as real;
    assert -1 < d < 1;
  }

  /** An image size of whole numbers and the view box read back from the written `svg` element. */
  lemma SvgRoundTrip(svg: T.Svg, version: string, kids: seq<Node>)
    requires svg.size.w == svg.size.w.Floor as real && svg.size.h == svg.size.h.Floor as real
    ensures Conv.SvgOf(SvgAttrs(svg, version).(children := kids)) == svg
  {
    var e := SvgAttrs(svg, version).(children := kids);
    RoundWhole(svg.size.w);
    RoundWhole(svg.size.h);
    assert GetNumber(e, AId.Width) == Some(svg.size.w);
    assert GetNumber(e, AId.Height) == Some(svg.size.h);
    assert CB.ImgSize(e) == svg.size;
    var n := NewElement(EId.Svg, Uid(R.RootId)).Set(AId.Custom("xmlns"), AValue.String(SvgNs))
      .Set(AId.Width, AValue.Number(svg.size.w)).Set(AId.Height, AValue.Number(svg.size.h));
    ViewBoxRoundTrip(svg.viewBox, n, svg.size);
    assert GetViewbox(e) == GetViewbox(ConvViewBox(svg.viewBox, n));
    assert CB.ConvertAspect(e) == CB.ConvertAspect(ConvViewBox(svg.viewBox, n));
  }

  // ---- the writer ----

  /** The path branch of `conv_elements`. */
  method ConvPath(t: R.Tree, entries: seq<Node>, j: R.NodeId, p: T.Path, clip: bool) returns (e: Node)
    requires R.WellFormed(t.State())
    ensures e == PathElement(t.State(), entries, j, p, clip)
  {
    e := ConvTransform(AId.Transform, p.transform, NewElement(EId.Path, Uid(j))).(id := p.id);
    var d := PathData(p.segments);
    e := e.Set(AId.D, AValue.Path(d));
    e := ConvFill(t.State(), entries, p.fill, clip, e);
    e := ConvStroke(t.State(), entries, p.stroke, e);
  }

  /** The element for node `k`, as one branch of the loop of `conv_elements`. */
  method ConvElement(t: R.Tree, entries: seq<Node>, k: R.NodeId, clip: bool, encode: seq<bv8> -> string)
    returns (out: seq<Node>)
    requires R.WellFormed(t.State()) && k < |t.kinds|
    ensures out == ElementOf(t.State(), entries, k, clip, encode)
    decreases |t.kinds| - k, 1, 0
  {
    match t.kinds[k]
    case PathKind(p) =>
      var e := ConvPath(t, entries, k, p, clip);
      out := [e];
    case TextKind(text) =>
      var chunks := ConvChunks(t, entries, k, clip);
      out := [ConvTransform(AId.Transform, text.transform, NewElement(EId.Text, Uid(k))).(id := text.id)
                .(children := chunks)];
    case ImageKind(img) =>
      out := [ImageElement(k, img, encode)];
    case GroupKind(g) =>
      var kids := ConvElements(t, entries, k, false, encode);
      out := [GroupAttrs(t.State(), entries, k, g).(children := kids)];
    case _ =>
      out := [];
  }

  /** `(x + y) + z == x + (y + z)`, for the loops that build a list piece by piece. */
  lemma AppendAssoc(x: seq<Node>, y: seq<Node>, z: seq<Node>)
    ensures (x + y) + z == x + (y + z)
  {
  }

  /** One step of `KidElements`. */
  lemma KidElementsStep(a: R.Arena, entries: seq<Node>, j: R.NodeId, i: nat, clip: bool, encode: seq<bv8> -> string)
    requires R.WellFormed(a) && j < |a.kinds| && i < |a.kids[j]|
    ensures a.kids[j][i] < |a.kinds|
    ensures KidElements(a, entries, j, i, clip, encode)
            == ElementOf(a, entries, a.kids[j][i], clip, encode) + KidElements(a, entries, j, i + 1, clip, encode)
  {
    R.KidsAfter(a, j);
  }

  /** `conv_elements` on the children of node `j`. */
  method ConvElements(t: R.Tree, entries: seq<Node>, j: R.NodeId, clip: bool, encode: seq<bv8> -> string)
    returns (out: seq<Node>)
    requires R.WellFormed(t.State()) && j < |t.kinds|
    ensures out == KidElements(t.State(), entries, j, 0, clip, encode)
    decreases |t.kinds| - j, 0, 0
  {
    ghost var a := t.State();
    R.KidsAfter(a, j);
    out := [];
    for i := 0 to |t.kids[j]|
      invariant out + KidElements(a, entries, j, i, clip, encode) == KidElements(a, entries, j, 0, clip, encode)
    {
      var more := ConvElement(t, entries, t.kids[j][i], clip, encode);
      KidElementsStep(a, entries, j, i, clip, encode);
      AppendAssoc(out, more, KidElements(a, entries, j, i + 1, clip, encode));
      out := out + more;
    }
    assert out + [] == out;
  }

  /** One branch of the first loop of `conv_defs`: the entry for node `k`. */
  method ConvEntry(t: R.Tree, k: R.NodeId) returns (entry: Option<Node>)
    requires R.WellFormed(t.State()) && k < |t.kinds|
    ensures entry == DefsEntry(t.State(), k)
  {
    match t.kinds[k]
    case LinearGradientKind(lg) =>
      var stops := ConvStops(t, k);
      entry := Some(LinearAttrs(k, lg).(children := stops));
    case RadialGradientKind(rg) =>
      var stops := ConvStops(t, k);
      entry := Some(RadialAttrs(k, rg).(children := stops));
    case ClipPathKind(c) =>
      entry := Some(ClipElement(k, c));
    case PatternKind(p) =>
      entry := Some(PatternElement(k, p));
    case _ =>
      entry := Option.None;
  }

  /** The first pass of `conv_defs`, one child of `Defs` at a time. */
  method ConvDefsFirst(t: R.Tree) returns (es: seq<Node>, ps: seq<Pending>)
    requires R.WellFormed(t.State())
    ensures (es, ps) == DefsPass(t.State(), |t.kids[R.DefsOf(t.State())]|)
  {
    ghost var a := t.State();
    var d := t.kids[0][0];
    R.KidsAfter(a, d);
    es, ps := [], [];
    for i := 0 to |t.kids[d]|
      invariant (es, ps) == DefsPass(a, i)
    {
      var k := t.kids[d][i];
      var entry := ConvEntry(t, k);
      if entry.Some? {
        if t.kinds[k].ClipPathKind? || t.kinds[k].PatternKind? {
          ps := ps + [Pending(k, |es|)];
        }
        es := es + [entry.value];
      }
    }
  }

  /** The second pass of `conv_defs`, one pending clip path or pattern at a time. */
  method ConvDefsLater(t: R.Tree, es: seq<Node>, ps: seq<Pending>, encode: seq<bv8> -> string) returns (filled: seq<Node>)
    requires R.WellFormed(t.State()) && PendingIn(t.State(), es, ps)
    ensures filled == LaterPass(t.State(), es, es, ps, encode)
  {
    ghost var a := t.State();
    filled := es;
    for i := 0 to |ps|
      invariant filled == LaterPass(a, es, es, ps[..i], encode)
    {
      assert ps[..i + 1][..i] == ps[..i];
      var p := ps[i];
      var kids := ConvElements(t, es, p.node, filled[p.at].Is(EId.ClipPath), encode);
      filled := filled[p.at := filled[p.at].(children := filled[p.at].children + kids)];
    }
    assert ps[..|ps|] == ps;
  }

  /** `conv_defs`. */
  method ConvDefs(t: R.Tree, encode: seq<bv8> -> string) returns (defs: Node)
    requires R.WellFormed(t.State())
    ensures defs == DefsElementOf(t.State(), encode)
  {
    var es, ps := ConvDefsFirst(t);
    var filled := ConvDefsLater(t, es, ps, encode);
    defs := Node(Uid(t.kids[0][0]), Kind.Element(EId.Defs), "", map[], filled);
  }

  /** `conv_doc`. */
  method ConvDoc(t: R.Tree, encode: seq<bv8> -> string, version: string) returns (doc: Node)
    requires R.WellFormed(t.State())
    ensures doc == DumpedDoc(t.State(), encode, version)
  {
    var defs := ConvDefs(t, encode);
    var kids := ConvElements(t, defs.children, R.RootId, false, encode);
    var svg := SvgAttrs(t.kinds[0].svg, version).(children := [defs] + kids);
    doc := Node(0, Kind.Root, "", map[], [svg]);
  }
}
