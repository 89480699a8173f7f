/**
 * The attribute-level vocabulary of an svgdom document: element kinds,
 * attribute kinds, the typed attribute values and the value types they hold.
 * Element and attribute kinds are always written qualified (`EId.Rect`,
 * `AId.Width`) because several names occur in both.
 */
module SvgTypes {
  import opened Wrappers

  /** A stable node identity inside one document; links refer to nodes by it. */
  type UId = nat

  /** SVG element kinds known to the parser. */
  datatype EId =
    | A | AltGlyph | AltGlyphDef | Circle | ClipPath | ColorProfile | Cursor
    | Defs | Desc | Ellipse | Filter | G | Image | Line | LinearGradient
    | Marker | Mask | Metadata | Path | Pattern | Polygon | Polyline
    | RadialGradient | Rect | Stop | Style | Svg | Switch | Symbol | Text
    | TextPath | Title | Tref | Tspan | Use | View
    | OtherElement  // every other SVG element (filter primitives, fonts, ...)

  /** Elements that are only rendered through a reference to them. */
  predicate IsReferenced(e: EId)
  {
    e.AltGlyphDef? || e.ClipPath? || e.ColorProfile? || e.Cursor? || e.Filter?
    || e.LinearGradient? || e.Marker? || e.Mask? || e.Pattern?
    || e.RadialGradient? || e.Symbol?
  }

  predicate IsGradient(e: EId) { e.LinearGradient? || e.RadialGradient? }

  predicate IsPaintServer(e: EId) { IsGradient(e) || e.Pattern? }

  predicate IsShape(e: EId)
  {
    e.Rect? || e.Circle? || e.Ellipse? || e.Line? || e.Polyline? || e.Polygon? || e.Path?
  }

  predicate IsTextContent(e: EId)
  {
    e.AltGlyph? || e.TextPath? || e.Text? || e.Tref? || e.Tspan?
  }

  predicate IsGraphic(e: EId)
  {
    e.Circle? || e.Ellipse? || e.Image? || e.Line? || e.Path? || e.Polygon?
    || e.Polyline? || e.Rect? || e.Text? || e.Use?
  }

  /** Attribute kinds. `Custom` names a non-SVG attribute, among them usvg's own markers. */
  datatype AId =
    | X | Y | Width | Height | Rx | Ry | Cx | Cy | R | Fx | Fy | X1 | Y1 | X2 | Y2
    | Points | D | Transform | GradientTransform | PatternTransform
    | GradientUnits | PatternUnits | PatternContentUnits | ClipPathUnits
    | MaskUnits | MaskContentUnits | SpreadMethod | Offset | StopColor | StopOpacity
    | Fill | FillOpacity | FillRule | Stroke | StrokeWidth | StrokeMiterlimit
    | StrokeOpacity | StrokeDasharray | StrokeDashoffset | StrokeLinecap
    | StrokeLinejoin | Opacity | Display | Visibility | ClipPath | ClipRule | Mask
    | ViewBox | PreserveAspectRatio | Href | FontSize | FontFamily | FontStretch
    | FontStyle | FontVariant | FontWeight | TextAnchor | RequiredFeatures
    | RequiredExtensions | Overflow | Color
    | OtherAttr  // every other SVG attribute
    | Custom(name: string)

  predicate IsSvgAttr(a: AId) { !a.Custom? }

  /** The marker usvg sets on nodes whose font-size was inherited rather than given. */
  const ResolvedFontSize: AId := AId.Custom("resolved-font-size")
  /** The marker that keeps a group made from a `switch`. */
  const UsvgGroup: AId := AId.Custom("usvg-group")
  /** The marker that a group was made from a `use`. */
  const FromUse: AId := AId.Custom("from-use")

  datatype Unit = NoUnit | Em | Ex | Px | In | Cm | Mm | Pt | Pc | Percent

  datatype Length = Len(num: real, unit: Unit)

  /** An RGB colour with 8-bit channels. */
  datatype Color = Rgb(red: int, green: int, blue: int)

  const Black: Color := Rgb(0, 0, 0)

  /** The affine matrix [a c e; b d f; 0 0 1]. */
  datatype Transform = Ts(a: real, b: real, c: real, d: real, e: real, f: real)
  {
    /** `self.append(t)`: the product self * t. */
    function Append(t: Transform): Transform
    {
      Ts(a * t.a + c * t.b, b * t.a + d * t.b,
         a * t.c + c * t.d, b * t.c + d * t.d,
         a * t.e + c * t.f + e, b * t.e + d * t.f + f)
    }

    /** `self.translate(x, y)`: append a translation. */
    function Translate(x: real, y: real): Transform
    {
      Append(Ts(1.0, 0.0, 0.0, 1.0, x, y))
    }

    predicate IsDefault() { this == Identity }
  }

  const Identity: Transform := Ts(1.0, 0.0, 0.0, 1.0, 0.0, 0.0)

  datatype ViewBoxRect = VbRect(x: real, y: real, w: real, h: real)

  datatype Align =
    | AlignNone | XMinYMin | XMidYMin | XMaxYMin | XMinYMid | XMidYMid
    | XMaxYMid | XMinYMax | XMidYMax | XMaxYMax

  datatype AspectRatio = AspectRatio(defer: bool, align: Align, slice: bool)

  /** Absolute path segments as the parser delivers them. */
  datatype PathSeg =
    | MoveTo(x: real, y: real)
    | LineTo(x: real, y: real)
    | HorizontalLineTo(x: real)
    | VerticalLineTo(y: real)
    | CurveTo(x1: real, y1: real, x2: real, y2: real, x: real, y: real)
    | SmoothCurveTo(x2: real, y2: real, x: real, y: real)
    | Quadratic(x1: real, y1: real, x: real, y: real)
    | SmoothQuadratic(x: real, y: real)
    | EllipticalArc(rx: real, ry: real, xAxisRotation: real, largeArc: bool, sweep: bool, x: real, y: real)
    | ClosePath

  /** Keyword values. */
  datatype ValueId =
    | None | CurrentColor | Butt | Round | Square | Miter | Bevel | Nonzero | Evenodd
    | Pad | Reflect | Repeat | Visible | Hidden | Collapse | Inline | Normal
    | Start | Middle | End | Auto | UserSpaceOnUse | ObjectBoundingBox | OtherKeyword

  /** A paint's fallback after the url. */
  datatype PaintFallback = FallbackNone | FallbackCurrentColor | FallbackColor(c: Color)

  /** Typed attribute values. Link, FuncLink and Paint carry the uid of the node they point at. */
  datatype AValue =
    | None
    | Inherit
    | Number(n: real)
    | Length(len: Length)
    | NumberList(nums: seq<real>)
    | LengthList(lens: seq<Length>)
    | Color(color: Color)
    | Transform(ts: Transform)
    | ViewBox(vb: ViewBoxRect)
    | AspectRatio(ar: AspectRatio)
    | Points(pts: seq<(real, real)>)
    | Path(segs: seq<PathSeg>)
    | Link(target: UId)
    | FuncLink(target: UId)
    | Paint(target: UId, fallback: Option<PaintFallback>)
    | PredefValue(kw: ValueId)
    | String(s: string)

  /** The uid a link-valued attribute points at. */
  function LinkTarget(v: AValue): (r: Option<UId>)
  {
    match v
    case Link(u) => Some(u)
    case FuncLink(u) => Some(u)
    case Paint(u, _) => Some(u)
    case _ => Option.None
  }

  /**
   * The initial value svgdom knows for a presentation attribute, following the
   * property index of SVG 1.1 (appendix N); None for attributes without one.
   */
  function DefaultValue(a: AId): (r: Option<AValue>)
  {
    match a
    case Fill => Some(AValue.Color(Black))
    case FillOpacity => Some(AValue.Number(1.0))
    case FillRule => Some(AValue.PredefValue(ValueId.Nonzero))
    case Stroke => Some(AValue.None)
    case StrokeWidth => Some(AValue.Length(Len(1.0, NoUnit)))
    case StrokeMiterlimit => Some(AValue.Number(4.0))
    case StrokeOpacity => Some(AValue.Number(1.0))
    case StrokeDasharray => Some(AValue.None)
    case StrokeDashoffset => Some(AValue.Length(Len(0.0, NoUnit)))
    case StrokeLinecap => Some(AValue.PredefValue(ValueId.Butt))
    case StrokeLinejoin => Some(AValue.PredefValue(ValueId.Miter))
    case Opacity => Some(AValue.Number(1.0))
    case StopColor => Some(AValue.Color(Black))
    case StopOpacity => Some(AValue.Number(1.0))
    case Display => Some(AValue.PredefValue(ValueId.Inline))
    case Visibility => Some(AValue.PredefValue(ValueId.Visible))
    case ClipPath => Some(AValue.None)
    case ClipRule => Some(AValue.PredefValue(ValueId.Nonzero))
    case Mask => Some(AValue.None)
    case Overflow => Some(AValue.PredefValue(ValueId.Visible))
    case FontStretch => Some(AValue.PredefValue(ValueId.Normal))
    case FontStyle => Some(AValue.PredefValue(ValueId.Normal))
    case FontVariant => Some(AValue.PredefValue(ValueId.Normal))
    case FontWeight => Some(AValue.PredefValue(ValueId.Normal))
    case TextAnchor => Some(AValue.PredefValue(ValueId.Start))
    case _ => Option.None
  }
}
