/**
 * The attribute readers of the conversion to the render tree: the image
 * size, the view box, the units keywords, a rectangle and the aspect ratio,
 * each with the default used when the attribute is missing or of another type.
 */
module ConvertBase {
  import opened Wrappers
  import opened SvgTypes
  import opened Dom
  import opened Traits
  import Geom
  import T = TreeNode
  import PathConv
  import R = RenderTree

  /**
   * What the conversion takes from outside this model: the arc flattener,
   * the converters of `text` and `pattern` elements, base64 decoding, the
   * contents of the files an image may name (None for a file that does not
   * exist or cannot be opened), the document's own path, and
   * `parent().join(href)` on paths.
   */
  datatype Env = Env(
    arc: PathConv.ArcFlattener,
    text: Node -> Option<T.Text>,
    pattern: Node -> Option<T.Pattern>,
    decode: string -> Option<seq<bv8>>,
    files: string -> Option<seq<bv8>>,
    docPath: Option<string>,
    joinParent: (string, string) -> string)

  /** `f64::round`: the nearest whole number, with halves rounded away from zero. */
  function Round(x: real): (r: int)
    ensures -0.5 <= x - r as real <= 0.5
    ensures x - r as real == 0.5 ==> x < 0.0
    ensures x - r as real == -0.5 ==> x > 0.0
  {
    if x >= 0.0 then
      var k := (x + 0.5).Floor;
      FloorBounds(x + 0.5);
      k
    else
      var k := (0.5 - x).Floor;
      FloorBounds(0.5 - x);
      -k
  }

  lemma FloorBounds(y: real)
    ensures y.Floor as real <= y < y.Floor as real + 1.0
  {
  }

  /** The size used when either `width` or `height` is not a number. */
  const DefaultSize: Geom.Size := Geom.Size(100.0, 100.0)

  /** `get_img_size`: the rounded `width` and `height`, or 100×100 when either is missing. */
  function ImgSize(svg: Node): (r: Geom.Size)
    ensures GetNumber(svg, AId.Width).None? || GetNumber(svg, AId.Height).None? ==> r == DefaultSize
    ensures GetNumber(svg, AId.Width).Some? && GetNumber(svg, AId.Height).Some? ==>
              r == Geom.Size(Round(GetNumber(svg, AId.Width).value) as real, Round(GetNumber(svg, AId.Height).value) as real)
  {
    match (GetNumber(svg, AId.Width), GetNumber(svg, AId.Height))
    case (Some(w), Some(h)) => Geom.Size(Round(w) as real, Round(h) as real)
    case _ => DefaultSize
  }

  /** Both sides of the image size are within a half of the given ones. */
  lemma ImgSizeNear(svg: Node)
    ensures var r := ImgSize(svg);
            GetNumber(svg, AId.Width).Some? && GetNumber(svg, AId.Height).Some? ==>
              -0.5 <= GetNumber(svg, AId.Width).value - r.w <= 0.5
              && -0.5 <= GetNumber(svg, AId.Height).value - r.h <= 0.5
  {
  }

  /** `get_view_box`: the `viewBox`, or the rectangle 0 0 W H of the image size. */
  function ViewBoxRect(svg: Node, size: Geom.Size): (r: Geom.Rect)
    ensures GetViewbox(svg).Some? ==> r == GetViewbox(svg).value
    ensures GetViewbox(svg).None? ==> r == Geom.Rect(0.0, 0.0, size.w, size.h)
  {
    match GetViewbox(svg)
    case Some(vb) => vb
    case None => Geom.Rect(0.0, 0.0, size.w, size.h)
  }

  /**
   * `convert_element_units`: the string keyword; anything else, missing or
   * not a string, is `userSpaceOnUse`.
   */
  function ElementUnits(n: Node, aid: AId): (r: T.Units)
    ensures r == T.ObjectBoundingBox <==> GetStr(n, aid) == Some("objectBoundingBox")
  {
    match GetStr(n, aid)
    case Some(s) =>
      if s == "userSpaceOnUse" then T.UserSpaceOnUse
      else if s == "objectBoundingBox" then T.ObjectBoundingBox
      else T.UserSpaceOnUse
    case None => T.UserSpaceOnUse
  }

  /** `convert_rect`: `x`, `y`, `width` and `height`, each 0 when not a number. */
  function ConvertRect(n: Node): (r: Geom.Rect)
    ensures r.x == NumberOr(n, AId.X, 0.0) && r.y == NumberOr(n, AId.Y, 0.0)
    ensures r.w == NumberOr(n, AId.Width, 0.0) && r.h == NumberOr(n, AId.Height, 0.0)
  {
    Geom.Rect(NumberOr(n, AId.X, 0.0), NumberOr(n, AId.Y, 0.0),
              NumberOr(n, AId.Width, 0.0), NumberOr(n, AId.Height, 0.0))
  }

  /** The aspect ratio used when `preserveAspectRatio` is missing. */
  const DefaultAspect: AspectRatio := AspectRatio.AspectRatio(false, Align.XMidYMid, false)

  /** `convert_aspect`: the stored aspect ratio, or xMidYMid without defer or slice. */
  function ConvertAspect(n: Node): (r: AspectRatio)
    ensures GetType(n.attrs, AId.PreserveAspectRatio, KAspectRatio).Some? ==>
              r == n.attrs[AId.PreserveAspectRatio].ar
    ensures GetType(n.attrs, AId.PreserveAspectRatio, KAspectRatio).None? ==> r == DefaultAspect
  {
    match GetType(n.attrs, AId.PreserveAspectRatio, KAspectRatio)
    case Some(v) => v.ar
    case None => DefaultAspect
  }

  /** `unwrap_or_default` on a transform: the identity when missing. */
  function TransformOr(n: Node, aid: AId): (r: Transform)
    ensures GetTransform(n, aid).None? ==> r == Identity
    ensures GetTransform(n, aid).Some? ==> r == GetTransform(n, aid).value
  {
    GetTransform(n, aid).UnwrapOr(Identity)
  }

  /**
   * `text::convert(node, parent, tree)`: the text node the `text` converter
   * gives, appended under `p`; no node when it gives none.
   */
  function TextConverted(a: R.Arena, n: Node, p: R.NodeId, env: Env): (r: R.Arena)
    requires R.Sound(a) && p < |a.kinds|
    ensures R.Sound(r) && R.Below(a, r, p) && R.NoNewDefinitions(a, r)
    ensures env.text(n).None? ==> r == a
    ensures env.text(n).Some? ==> r.kinds == a.kinds + [T.TextKind(env.text(n).value)] && r.parent[|a.kinds|] == Some(p)
  {
    match env.text(n)
    case Some(text) =>
      R.AppendedSound(a, p, T.TextKind(text));
      R.AppendedBelow(a, p, T.TextKind(text));
      R.Appended(a, p, T.TextKind(text))
    case None =>
      R.BelowRefl(a, p);
      a
  }

  method ConvertText(t: R.Tree, n: Node, p: R.NodeId, env: Env)
    requires R.Sound(t.State()) && p < |t.kinds|
    modifies t
    ensures t.State() == TextConverted(old(t.State()), n, p, env)
  {
    var text := env.text(n);
    if text.Some? {
      var _ := t.AppendChild(p, T.TextKind(text.value));
    }
  }
}
