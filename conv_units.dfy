/**
 * `conv_units`: every Length attribute becomes a Number and every LengthList
 * a NumberList, following section 7.10 of SVG 1.1 (units) at 96 dpi.
 * Font sizes are converted first, top-down, because `em` and `ex` are
 * relative to them; then the root's viewBox is resolved, since percentages
 * are relative to it. Where the library panics (a percentage reaching
 * `convert`, a missing font size or size attribute) the pass gives None.
 */
module ConvUnits {
  import opened Wrappers
  import opened SvgTypes
  import opened Dom
  import opened Traits
  import Geom

  /** `Options::dpi`'s default. */
  const Dpi: real := 96.0

  const DefaultFontSize: real := 12.0

  /** `convert`: an absolute or font-relative length in user units. */
  function Convert(len: Length, fontSize: real, dpi: real): (r: real)
    requires len.unit != Percent
    ensures len.unit == NoUnit || len.unit == Px ==> r == len.num
    ensures len.unit == Em ==> r == len.num * fontSize
    ensures len.unit == Ex ==> r == len.num * fontSize / 2.0
    ensures len.unit == In ==> r == len.num * dpi
    ensures len.unit == Cm ==> r == len.num * dpi / 2.54
    ensures len.unit == Mm ==> r == len.num * dpi / 25.4
    ensures len.unit == Pt ==> r == len.num * dpi / 72.0
    ensures len.unit == Pc ==> r == len.num * dpi / 6.0
  {
    var n := len.num;
    match len.unit
    case NoUnit => n
    case Px => n
    case Em => n * fontSize
    case Ex => n * fontSize / 2.0
    case In => n * dpi
    case Cm => n * dpi / 2.54
    case Mm => n * dpi / 25.4
    case Pt => n * dpi / 72.0
    case Pc => n * dpi / 6.0
  }

  /** The absolute units agree with each other: 1in = 2.54cm = 25.4mm = 72pt = 6pc, and 1in = 96px. */
  lemma AbsoluteUnitsAgree(fontSize: real)
    ensures Convert(Len(1.0, In), fontSize, Dpi) == Convert(Len(2.54, Cm), fontSize, Dpi)
    ensures Convert(Len(1.0, In), fontSize, Dpi) == Convert(Len(25.4, Mm), fontSize, Dpi)
    ensures Convert(Len(1.0, In), fontSize, Dpi) == Convert(Len(72.0, Pt), fontSize, Dpi)
    ensures Convert(Len(1.0, In), fontSize, Dpi) == Convert(Len(6.0, Pc), fontSize, Dpi)
    ensures Convert(Len(1.0, In), fontSize, Dpi) == Convert(Len(96.0, Px), fontSize, Dpi)
  {
  }

  /** An ex is half an em, as in the font-size resolution. */
  lemma ExIsHalfEm(num: real, fontSize: real)
    ensures Convert(Len(num, Ex), fontSize, Dpi) * 2.0 == Convert(Len(num, Em), fontSize, Dpi)
  {
  }

  /** Conversion is linear in the number. */
  lemma ConvertLinear(a: real, b: real, u: Unit, fontSize: real, dpi: real)
    requires u != Percent
    ensures Convert(Len(a + b, u), fontSize, dpi) == Convert(Len(a, u), fontSize, dpi) + Convert(Len(b, u), fontSize, dpi)
  {
  }

  /** `convert_percent`: the percentage of a base length. */
  function ConvertPercent(len: Length, base: real): real
  {
    base * len.num / 100.0
  }

  /**
   * The `convert_len` closure: a percentage of the viewBox width for x, cx
   * and width, of its height for y, cy and height, and of `vbLen` (the
   * viewBox diagonal over √2) for anything else; other units by `convert`.
   */
  function ConvertLen(len: Length, aid: AId, fontSize: real, vb: Geom.Rect, vbLen: real): (r: real)
    ensures len.unit == Percent && (aid == AId.X || aid == AId.Cx || aid == AId.Width) ==> r == vb.w * len.num / 100.0
    ensures len.unit == Percent && (aid == AId.Y || aid == AId.Cy || aid == AId.Height) ==> r == vb.h * len.num / 100.0
    ensures len.unit == Percent && !(aid in {AId.X, AId.Cx, AId.Width, AId.Y, AId.Cy, AId.Height})
            ==> r == vbLen * len.num / 100.0
    ensures len.unit != Percent ==> r == Convert(len, fontSize, Dpi)
  {
    if len.unit == Percent then
      match aid
      case X => ConvertPercent(len, vb.w)
      case Cx => ConvertPercent(len, vb.w)
      case Width => ConvertPercent(len, vb.w)
      case Y => ConvertPercent(len, vb.h)
      case Cy => ConvertPercent(len, vb.h)
      case Height => ConvertPercent(len, vb.h)
      case _ => ConvertPercent(len, vbLen)
    else Convert(len, fontSize, Dpi)
  }

  /**
   * The number a Length attribute becomes: zero stays zero whatever the unit;
   * a percentage in a bounding-box paint server, or on `offset`, is a plain
   * fraction; anything else goes through `convert_len`.
   */
  function LengthValue(len: Length, aid: AId, fontSize: real, bbox: bool, vb: Geom.Rect, vbLen: real): (r: real)
    ensures len.num == 0.0 ==> r == 0.0
    ensures len.num != 0.0 && len.unit == Percent && (bbox || aid == AId.Offset) ==> r == len.num / 100.0
    ensures len.num != 0.0 && !(len.unit == Percent && (bbox || aid == AId.Offset))
            ==> r == ConvertLen(len, aid, fontSize, vb, vbLen)
  {
    if len.num == 0.0 then 0.0
    else if bbox && len.unit == Percent then len.num / 100.0
    else if aid == AId.Offset && len.unit == Percent then len.num / 100.0
    else ConvertLen(len, aid, fontSize, vb, vbLen)
  }

  /** A fraction-valued percentage does not depend on the viewBox. */
  lemma FractionIgnoresViewBox(len: Length, aid: AId, fontSize: real, bbox: bool,
                               vb1: Geom.Rect, l1: real, vb2: Geom.Rect, l2: real)
    requires len.unit == Percent && (bbox || aid == AId.Offset)
    ensures LengthValue(len, aid, fontSize, bbox, vb1, l1) == LengthValue(len, aid, fontSize, bbox, vb2, l2)
  {
  }

  /** The list conversion: each length through `convert_len`, with no zero or bounding-box rule. */
  function LengthListValue(lens: seq<Length>, aid: AId, fontSize: real, vb: Geom.Rect, vbLen: real): (r: seq<real>)
    ensures |r| == |lens|
    ensures forall j :: 0 <= j < |lens| ==> r[j] == ConvertLen(lens[j], aid, fontSize, vb, vbLen)
  {
    seq(|lens|, j requires 0 <= j < |lens| => ConvertLen(lens[j], aid, fontSize, vb, vbLen))
  }

  /** One attribute after both loops of `convert_units`. */
  function ConvertValue(aid: AId, v: AValue, fontSize: real, bbox: bool, vb: Geom.Rect, vbLen: real): AValue
  {
    if !IsSvgAttr(aid) then v
    else match v
      case Length(len) => AValue.Number(LengthValue(len, aid, fontSize, bbox, vb, vbLen))
      case LengthList(lens) => AValue.NumberList(LengthListValue(lens, aid, fontSize, vb, vbLen))
      case _ => v
  }

  predicate IsLengthValue(v: AValue) { v.Length? || v.LengthList? }

  /** The attributes of one element after both loops. */
  function ConvertAttrs(attrs: map<AId, AValue>, fontSize: real, bbox: bool, vb: Geom.Rect, vbLen: real)
    : (r: map<AId, AValue>)
    ensures r.Keys == attrs.Keys
    ensures forall a :: a in r && IsSvgAttr(a) ==> !IsLengthValue(r[a])
    ensures forall a :: a in attrs && (!IsSvgAttr(a) || !IsLengthValue(attrs[a])) ==> r[a] == attrs[a]
    ensures forall a :: a in attrs && IsSvgAttr(a) && attrs[a].LengthList? ==>
              r[a].NumberList? && |r[a].nums| == |attrs[a].lens|
  {
    map a | a in attrs :: ConvertValue(a, attrs[a], fontSize, bbox, vb, vbLen)
  }

  /** Converting twice converts no more than once. */
  lemma ConvertAttrsIdempotent(attrs: map<AId, AValue>, fontSize: real, bbox: bool, vb: Geom.Rect, vbLen: real)
    ensures var once := ConvertAttrs(attrs, fontSize, bbox, vb, vbLen);
            ConvertAttrs(once, fontSize, bbox, vb, vbLen) == once
  {
  }

  /** The first loop's result: every SVG Length attribute as a Number. */
  function LengthsConverted(attrs: map<AId, AValue>, fontSize: real, bbox: bool, vb: Geom.Rect, vbLen: real)
    : map<AId, AValue>
  {
    map a | a in attrs :: if IsSvgAttr(a) && attrs[a].Length?
                          then AValue.Number(LengthValue(attrs[a].len, a, fontSize, bbox, vb, vbLen))
                          else attrs[a]
  }

  /** The first attribute loop: Lengths to Numbers. */
  method ConvertLengths(attrs: map<AId, AValue>, fontSize: real, bbox: bool, vb: Geom.Rect, vbLen: real)
    returns (out: map<AId, AValue>)
    ensures out == LengthsConverted(attrs, fontSize, bbox, vb, vbLen)
  {
    out := attrs;
    var todo := attrs.Keys;
    while todo != {}
      invariant todo <= attrs.Keys && out.Keys == attrs.Keys
      invariant forall a :: a in todo ==> out[a] == attrs[a]
      invariant forall a :: a in attrs && a !in todo ==> out[a] == LengthsConverted(attrs, fontSize, bbox, vb, vbLen)[a]
      decreases |todo|
    {
      var a :| a in todo;
      if IsSvgAttr(a) && out[a].Length? {
        out := out[a := AValue.Number(LengthValue(out[a].len, a, fontSize, bbox, vb, vbLen))];
      }
      todo := todo - {a};
    }
  }

  /** The second attribute loop: LengthLists to NumberLists. */
  method ConvertLengthLists(attrs: map<AId, AValue>, fontSize: real, vb: Geom.Rect, vbLen: real)
    returns (out: map<AId, AValue>)
    ensures out.Keys == attrs.Keys
    ensures forall a :: a in attrs ==>
              out[a] == (if IsSvgAttr(a) && attrs[a].LengthList?
                         then AValue.NumberList(LengthListValue(attrs[a].lens, a, fontSize, vb, vbLen))
                         else attrs[a])
  {
    out := attrs;
    var todo := attrs.Keys;
    while todo != {}
      invariant todo <= attrs.Keys && out.Keys == attrs.Keys
      invariant forall a :: a in todo ==> out[a] == attrs[a]
      invariant forall a :: a in attrs && a !in todo ==>
                  out[a] == (if IsSvgAttr(a) && attrs[a].LengthList?
                             then AValue.NumberList(LengthListValue(attrs[a].lens, a, fontSize, vb, vbLen))
                             else attrs[a])
      decreases |todo|
    {
      var a :| a in todo;
      if IsSvgAttr(a) && out[a].LengthList? {
        out := out[a := AValue.NumberList(LengthListValue(out[a].lens, a, fontSize, vb, vbLen))];
      }
      todo := todo - {a};
    }
  }

  /** The two attribute loops of `convert_units` on one element. */
  method ConvertNodeUnits(attrs: map<AId, AValue>, fontSize: real, bbox: bool, vb: Geom.Rect, vbLen: real)
    returns (out: map<AId, AValue>)
    ensures out == ConvertAttrs(attrs, fontSize, bbox, vb, vbLen)
  {
    var numbers := ConvertLengths(attrs, fontSize, bbox, vb, vbLen);
    out := ConvertLengthLists(numbers, fontSize, vb, vbLen);
  }

  /** A paint server counts as bounding-box unless its `gradientUnits` is the string userSpaceOnUse. */
  predicate IsBBoxPaintServer(n: Node)
  {
    n.kind.Element? && IsPaintServer(n.kind.eid)
    && GetStr(n, AId.GradientUnits) != Some("userSpaceOnUse")
  }

  // ---- font sizes ----

  /** A font size the conversion cannot take: a percentage reaches `convert`. */
  predicate PercentFontSize(n: Node)
  {
    n.IsSvgElement() && AId.FontSize in n.attrs && n.attrs[AId.FontSize].Length?
    && n.attrs[AId.FontSize].len.unit == Percent
  }

  predicate AnyPercentFontSize(ns: seq<Node>)
  {
    ns != [] && (PercentFontSize(ns[0]) || AnyPercentFontSize(ns[0].children) || AnyPercentFontSize(ns[1..]))
  }

  /** Every element's font size, where it has one, is a Number. */
  predicate FontSizesAreNumbers(ns: seq<Node>)
  {
    ns == [] ||
    ((ns[0].IsSvgElement() && AId.FontSize in ns[0].attrs ==> ns[0].attrs[AId.FontSize].Number?)
     && FontSizesAreNumbers(ns[0].children) && FontSizesAreNumbers(ns[1..]))
  }

  /** One element's font size against its parent's: a Length is converted, anything else is 12. */
  function FontSizeValue(v: AValue, parentSize: real): (r: AValue)
    requires !(v.Length? && v.len.unit == Percent)
    ensures v.Length? ==> r == AValue.Number(Convert(v.len, parentSize, Dpi))
    ensures !v.Length? ==> r == AValue.Number(DefaultFontSize)
  {
    if v.Length? then AValue.Number(Convert(v.len, parentSize, Dpi)) else AValue.Number(DefaultFontSize)
  }

  /**
   * `convert_font_size` over a forest whose parent has the numeric font size
   * `parentSize` (12 below the root). Parents come first, so each child sees
   * its parent's converted value.
   */
  function FontSizeWalk(ns: seq<Node>, parentSize: real): (r: Option<seq<Node>>)
    ensures r.None? <==> AnyPercentFontSize(ns)
    ensures r.Some? ==> |r.value| == |ns| && FontSizesAreNumbers(r.value)
    ensures r.Some? ==> forall i :: 0 <= i < |ns| ==> r.value[i].uid == ns[i].uid && r.value[i].kind == ns[i].kind
  {
    if ns == [] then Some([])
    else
      var n := ns[0];
      if PercentFontSize(n) then Option.None
      else
        var n1 := if n.IsSvgElement() && AId.FontSize in n.attrs
                  then n.Set(AId.FontSize, FontSizeValue(n.attrs[AId.FontSize], parentSize))
                  else n;
        var kids := FontSizeWalk(n.children, NumberOr(n1, AId.FontSize, DefaultFontSize));
        var rest := FontSizeWalk(ns[1..], parentSize);
        if kids.None? || rest.None? then Option.None
        else Some([n1.(children := kids.value)] + rest.value)
  }

  /** A converted element's font size depends only on its own value and its parent's. */
  lemma FontSizeFromParent(n: Node, parentSize: real)
    requires n.IsSvgElement() && AId.FontSize in n.attrs && !PercentFontSize(n)
    requires !AnyPercentFontSize(n.children)
    ensures var r := FontSizeWalk([n], parentSize);
            r.Some? && r.value[0].attrs[AId.FontSize]
                         == (if n.attrs[AId.FontSize].Length?
                             then AValue.Number(Convert(n.attrs[AId.FontSize].len, parentSize, Dpi))
                             else AValue.Number(DefaultFontSize))
  {
    assert [n][1..] == [];
    assert !AnyPercentFontSize([n]);
  }

  // ---- the view box ----

  /**
   * `resolve_view_box`: the root's viewBox, or, without one, 0 0 w h from
   * the converted width and height, which is then stored on the root.
   */
  function ResolveViewBox(svg: Node): (r: Option<(Node, Geom.Rect)>)
    ensures GetViewbox(svg).Some? ==> r == Some((svg, GetViewbox(svg).value))
    ensures GetViewbox(svg).None? ==>
              (r.Some? <==> GetNumber(svg, AId.FontSize).Some?
                            && GetLength(svg, AId.Width).Some? && GetLength(svg, AId.Width).value.unit != Percent
                            && GetLength(svg, AId.Height).Some? && GetLength(svg, AId.Height).value.unit != Percent)
    ensures GetViewbox(svg).None? && r.Some? ==>
              var w := Convert(GetLength(svg, AId.Width).value, GetNumber(svg, AId.FontSize).value, Dpi);
              var h := Convert(GetLength(svg, AId.Height).value, GetNumber(svg, AId.FontSize).value, Dpi);
              r.value.1 == Geom.Rect(0.0, 0.0, w, h)
              && r.value.0 == svg.Set(AId.ViewBox, AValue.ViewBox(VbRect(0.0, 0.0, w, h)))
  {
    match GetViewbox(svg)
    case Some(vb) => Some((svg, vb))
    case None =>
      var fs := GetNumber(svg, AId.FontSize);
      var width := GetLength(svg, AId.Width);
      var height := GetLength(svg, AId.Height);
      if fs.None? || width.None? || height.None? || width.value.unit == Percent || height.value.unit == Percent
      then Option.None
      else
        var w := Convert(width.value, fs.value, Dpi);
        var h := Convert(height.value, fs.value, Dpi);
        Some((svg.Set(AId.ViewBox, AValue.ViewBox(VbRect(0.0, 0.0, w, h))), Geom.Rect(0.0, 0.0, w, h)))
  }

  // ---- the pass ----

  /** No element of the forest holds a Length or LengthList in an SVG attribute. */
  predicate NoLengths(ns: seq<Node>)
  {
    ns == [] ||
    ((ns[0].IsSvgElement() ==> forall a :: a in ns[0].attrs && IsSvgAttr(a) ==> !IsLengthValue(ns[0].attrs[a]))
     && NoLengths(ns[0].children) && NoLengths(ns[1..]))
  }

  /**
   * The descendant loop of `convert_units`; `chain` holds the ancestors,
   * nearest first, for the `font-size` lookup, whose failure is a panic.
   */
  function UnitsWalk(ns: seq<Node>, chain: seq<Node>, vb: Geom.Rect, vbLen: real): (r: Option<seq<Node>>)
    ensures r.Some? ==> |r.value| == |ns| && NoLengths(r.value)
    ensures r.Some? ==> forall i :: 0 <= i < |ns| ==> r.value[i].uid == ns[i].uid && r.value[i].kind == ns[i].kind
  {
    if ns == [] then Some([])
    else
      var n := ns[0];
      var fontSize := FindAttribute([n] + chain, AId.FontSize, KNumber);
      if n.IsSvgElement() && fontSize.None? then Option.None
      else
        var n1 := if n.IsSvgElement()
                  then n.(attrs := ConvertAttrs(n.attrs, fontSize.value.n, IsBBoxPaintServer(n), vb, vbLen))
                  else n;
        var kids := UnitsWalk(n.children, [n] + chain, vb, vbLen);
        var rest := UnitsWalk(ns[1..], chain, vb, vbLen);
        if kids.None? || rest.None? then Option.None
        else Some([n1.(children := kids.value)] + rest.value)
  }

  /**
   * `convert_units` on the root svg element, with `diag(w, h)` standing for
   * sqrt(w*w + h*h) / sqrt(2).
   */
  function ConvertUnits(svg: Node, diag: (real, real) -> real): (r: Option<Node>)
    ensures r.Some? ==> NoLengths([r.value]) && r.value.uid == svg.uid && r.value.kind == svg.kind
    ensures AnyPercentFontSize([svg]) ==> r.None?
  {
    match FontSizeWalk([svg], DefaultFontSize)
    case None => Option.None
    case Some(sized) =>
      match ResolveViewBox(sized[0])
      case None => Option.None
      case Some(p) =>
        var vb := p.1;
        match UnitsWalk([p.0], [], vb, diag(vb.w, vb.h))
        case None => Option.None
        case Some(done) => Some(done[0])
  }
}
