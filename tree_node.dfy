/**
 * The typed render tree's node kinds. Struct and enum names follow the
 * library; a constructor whose name would collide with an svgdom name gets a
 * suffix (`SvgKind`, `PaintColor`). One datatype covers every field that the
 * conversion and the dump read: gradients keep their stops as `Stop` child
 * nodes, text keeps chunks and spans as child nodes, raw image data carries
 * its format.
 */
module TreeNode {
  import opened Wrappers
  import S = SvgTypes
  import opened Geom

  datatype Units = UserSpaceOnUse | ObjectBoundingBox

  datatype SpreadMethod = Pad | Reflect | Repeat

  /** A paint: a colour, or the id of a paint server in Defs. */
  datatype Paint = PaintColor(color: S.Color) | PaintLink(id: string)

  datatype FillRule = NonZero | EvenOdd

  datatype Fill = Fill(paint: Paint, opacity: real, rule: FillRule)

  datatype LineCap = CapButt | CapRound | CapSquare

  datatype LineJoin = JoinMiter | JoinRound | JoinBevel

  datatype Stroke = Stroke(
    paint: Paint,
    dasharray: Option<seq<real>>,
    dashoffset: real,
    miterlimit: real,
    opacity: real,
    width: real,
    linecap: LineCap,
    linejoin: LineJoin)

  /** The four segment kinds a converted path is made of, in absolute coordinates. */
  datatype PathSegment =
    | MoveTo(x: real, y: real)
    | LineTo(x: real, y: real)
    | CurveTo(x1: real, y1: real, x2: real, y2: real, x: real, y: real)
    | ClosePath

  datatype ViewBox = ViewBox(rect: Rect, aspect: S.AspectRatio)

  datatype Svg = Svg(size: Size, viewBox: ViewBox)

  datatype BaseGradient = BaseGradient(units: Units, transform: S.Transform, spreadMethod: SpreadMethod)

  datatype LinearGradient = LinearGradient(id: string, x1: real, y1: real, x2: real, y2: real, base: BaseGradient)

  datatype RadialGradient = RadialGradient(id: string, cx: real, cy: real, r: real, fx: real, fy: real, base: BaseGradient)

  datatype Stop = Stop(offset: real, color: S.Color, opacity: real)

  datatype ClipPath = ClipPath(id: string, units: Units, transform: S.Transform)

  datatype Mask = Mask(id: string, units: Units, contentUnits: Units, rect: Rect)

  datatype Pattern = Pattern(
    id: string,
    units: Units,
    contentUnits: Units,
    transform: S.Transform,
    rect: Rect,
    viewBox: Option<ViewBox>)

  datatype Path = Path(
    id: string,
    transform: S.Transform,
    fill: Option<Fill>,
    stroke: Option<Stroke>,
    segments: seq<PathSegment>)

  datatype Text = Text(id: string, transform: S.Transform, rotate: Option<seq<real>>)

  datatype TextAnchor = AnchorStart | AnchorMiddle | AnchorEnd

  datatype TextChunk = TextChunk(x: Option<seq<real>>, y: Option<seq<real>>, anchor: TextAnchor)

  /** The font of a span; only the fields the model reads. */
  datatype Font = Font(family: string, size: real)

  datatype TextSpan = TextSpan(fill: Option<Fill>, stroke: Option<Stroke>, font: Font, text: string)

  datatype ImageDataKind = PNG | JPEG

  datatype ImageData = ImagePath(path: string) | Raw(data: seq<bv8>, kind: ImageDataKind)

  datatype Image = Image(id: string, transform: S.Transform, viewBox: ViewBox, data: ImageData)

  datatype Group = Group(
    id: string,
    transform: S.Transform,
    opacity: Option<real>,
    clipPath: Option<string>,
    mask: Option<string>)

  datatype NodeKind =
    | SvgKind(svg: Svg)
    | DefsKind
    | LinearGradientKind(lg: LinearGradient)
    | RadialGradientKind(rg: RadialGradient)
    | StopKind(stop: Stop)
    | ClipPathKind(clip: ClipPath)
    | MaskKind(mask: Mask)
    | PatternKind(pattern: Pattern)
    | PathKind(path: Path)
    | TextKind(text: Text)
    | TextChunkKind(chunk: TextChunk)
    | TSpanKind(tspan: TextSpan)
    | ImageKind(image: Image)
    | GroupKind(group: Group)
  {
    /** The kinds that carry an id of their own. */
    predicate HasId()
    {
      LinearGradientKind? || RadialGradientKind? || ClipPathKind? || MaskKind?
      || PatternKind? || PathKind? || TextKind? || ImageKind? || GroupKind?
    }

    /** `id()`: the stored id, or "" for a kind without one. */
    function Id(): (r: string)
      ensures !HasId() ==> r == ""
    {
      match this
      case LinearGradientKind(e) => e.id
      case RadialGradientKind(e) => e.id
      case ClipPathKind(e) => e.id
      case MaskKind(e) => e.id
      case PatternKind(e) => e.id
      case PathKind(e) => e.id
      case TextKind(e) => e.id
      case ImageKind(e) => e.id
      case GroupKind(e) => e.id
      case _ => ""
    }

    /** The kinds that carry a transform of their own; a mask does not. */
    predicate HasTransform()
    {
      LinearGradientKind? || RadialGradientKind? || ClipPathKind? || PatternKind?
      || PathKind? || TextKind? || ImageKind? || GroupKind?
    }

    /** `transform()`: the stored transform, or the identity for a kind without one. */
    function Transform(): (r: S.Transform)
      ensures !HasTransform() ==> r == S.Identity
    {
      match this
      case LinearGradientKind(e) => e.base.transform
      case RadialGradientKind(e) => e.base.transform
      case ClipPathKind(e) => e.transform
      case PatternKind(e) => e.transform
      case PathKind(e) => e.transform
      case TextKind(e) => e.transform
      case ImageKind(e) => e.transform
      case GroupKind(e) => e.transform
      case _ => S.Identity
    }

    /** The `Deref` of both gradient kinds: their base gradient. */
    function Base(): (r: Option<BaseGradient>)
      ensures r.Some? <==> LinearGradientKind? || RadialGradientKind?
    {
      match this
      case LinearGradientKind(e) => Some(e.base)
      case RadialGradientKind(e) => Some(e.base)
      case _ => None
    }
  }
}
