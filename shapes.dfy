/**
 * Basic shapes to path data (section 9 of SVG 1.1): rect, line, polyline,
 * polygon, circle and ellipse become lists of absolute path segments.
 */
module Shapes {
  import opened Wrappers
  import opened SvgTypes
  import opened Dom
  import opened Traits

  predicate IsBasicShape(n: Node)
  {
    n.Is(EId.Rect) || n.Is(EId.Line) || n.Is(EId.Polyline) || n.Is(EId.Polygon)
    || n.Is(EId.Circle) || n.Is(EId.Ellipse)
  }

  /** `shapes::convert`: dispatch on the element kind; no other kind reaches it. */
  function Convert(n: Node): (r: Option<seq<PathSeg>>)
    requires IsBasicShape(n)
    ensures n.Is(EId.Line) ==> r.Some?
    ensures r.Some? ==> |r.value| >= 2 && r.value[0].MoveTo?
  {
    if n.Is(EId.Rect) then ConvertRect(n)
    else if n.Is(EId.Line) then Some(ConvertLine(n))
    else if n.Is(EId.Polyline) then PointsToPath(n)
    else if n.Is(EId.Polygon) then ConvertPolygon(n)
    else if n.Is(EId.Circle) then ConvertCircle(n)
    else ConvertEllipse(n)
  }

  // ---- rect ----

  /** A radius given with a negative sign counts as not given. */
  function NonNegative(v: Option<real>): (r: Option<real>)
    ensures r.Some? ==> r.value >= 0.0
    ensures v.Some? && v.value >= 0.0 ==> r == v
  {
    if v.Some? && v.value < 0.0 then Option.None else v
  }

  /** Both radii from whichever are given: a missing one copies the other, none gives zero. */
  function ResolveRadii(rx: Option<real>, ry: Option<real>): (r: (real, real))
    ensures rx.None? && ry.None? ==> r == (0.0, 0.0)
    ensures rx.Some? ==> r.0 == rx.value
    ensures ry.Some? ==> r.1 == ry.value
    ensures rx.None? && ry.Some? ==> r.0 == ry.value
    ensures rx.Some? && ry.None? ==> r.1 == rx.value
  {
    match (rx, ry)
    case (None, None) => (0.0, 0.0)
    case (Some(a), None) => (a, a)
    case (None, Some(b)) => (b, b)
    case (Some(a), Some(b)) => (a, b)
  }

  /** The corner radii of a `w`×`h` rect, clamped to half its sides. */
  function RectRadii(n: Node, w: real, h: real): (r: (real, real))
    requires w > 0.0 && h > 0.0
    ensures 0.0 <= r.0 <= w / 2.0 && 0.0 <= r.1 <= h / 2.0
  {
    var (rx, ry) := ResolveRadii(NonNegative(GetNumber(n, AId.Rx)), NonNegative(GetNumber(n, AId.Ry)));
    (if rx > w / 2.0 then w / 2.0 else rx, if ry > h / 2.0 then h / 2.0 else ry)
  }

  /** The outline of a rect, straight when rx is zero and with four corner arcs otherwise. */
  function RectPath(x: real, y: real, w: real, h: real, rx: real, ry: real): seq<PathSeg>
  {
    if rx == 0.0 then
      [MoveTo(x, y), HorizontalLineTo(x + w), VerticalLineTo(y + h), HorizontalLineTo(x), ClosePath]
    else
      [MoveTo(x + rx, y),
       LineTo(x + w - rx, y),
       EllipticalArc(rx, ry, 0.0, false, true, x + w, y + ry),
       LineTo(x + w, y + h - ry),
       EllipticalArc(rx, ry, 0.0, false, true, x + w - rx, y + h),
       LineTo(x + rx, y + h),
       EllipticalArc(rx, ry, 0.0, false, true, x, y + h - ry),
       LineTo(x, y + ry),
       EllipticalArc(rx, ry, 0.0, false, true, x + rx, y)]
  }

  /** `convert_rect`: None exactly when width or height (missing = 0) is not positive. */
  function ConvertRect(n: Node): (r: Option<seq<PathSeg>>)
    ensures r.None? <==> !(NumberOr(n, AId.Width, 0.0) > 0.0) || !(NumberOr(n, AId.Height, 0.0) > 0.0)
    ensures r.Some? ==> |r.value| >= 5 && r.value[0].MoveTo?
  {
    var w := NumberOr(n, AId.Width, 0.0);
    var h := NumberOr(n, AId.Height, 0.0);
    if !(w > 0.0) || !(h > 0.0) then Option.None
    else
      var (rx, ry) := RectRadii(n, w, h);
      Some(RectPath(NumberOr(n, AId.X, 0.0), NumberOr(n, AId.Y, 0.0), w, h, rx, ry))
  }

  /** The end point of a segment, for those that have one in both coordinates. */
  function EndPoint(s: PathSeg): Option<(real, real)>
  {
    match s
    case MoveTo(x, y) => Some((x, y))
    case LineTo(x, y) => Some((x, y))
    case CurveTo(_, _, _, _, x, y) => Some((x, y))
    case SmoothCurveTo(_, _, x, y) => Some((x, y))
    case Quadratic(_, _, x, y) => Some((x, y))
    case SmoothQuadratic(x, y) => Some((x, y))
    case EllipticalArc(_, _, _, _, _, x, y) => Some((x, y))
    case _ => Option.None
  }

  /**
   * A square-cornered rect is the five segments M H V H Z whatever ry is.
   * A rounded one is nine segments: a move to (x+rx, y), then four
   * line/arc pairs with large-arc false and sweep true, the last arc ending
   * at the start point, and no ClosePath.
   */
  lemma RectPathShape(x: real, y: real, w: real, h: real, rx: real, ry: real)
    ensures var p := RectPath(x, y, w, h, rx, ry);
            (rx == 0.0 ==> p == [MoveTo(x, y), HorizontalLineTo(x + w), VerticalLineTo(y + h),
                                 HorizontalLineTo(x), ClosePath])
            && (rx != 0.0 ==>
                  |p| == 9 && p[0] == MoveTo(x + rx, y)
                  && (forall i :: 1 <= i < 9 && i % 2 == 1 ==> p[i].LineTo?)
                  && (forall i :: 1 <= i < 9 && i % 2 == 0 ==>
                        p[i].EllipticalArc? && p[i].rx == rx && p[i].ry == ry
                        && !p[i].largeArc && p[i].sweep)
                  && EndPoint(p[8]) == EndPoint(p[0])
                  && forall i :: 0 <= i < 9 ==> !p[i].ClosePath?)
  {
  }

  // ---- line ----

  /** `convert_line`: always a move to (x1, y1) and a line to (x2, y2), missing values 0. */
  function ConvertLine(n: Node): (r: seq<PathSeg>)
    ensures |r| == 2
    ensures r[0] == MoveTo(NumberOr(n, AId.X1, 0.0), NumberOr(n, AId.Y1, 0.0))
    ensures r[1] == LineTo(NumberOr(n, AId.X2, 0.0), NumberOr(n, AId.Y2, 0.0))
  {
    [MoveTo(NumberOr(n, AId.X1, 0.0), NumberOr(n, AId.Y1, 0.0)),
     LineTo(NumberOr(n, AId.X2, 0.0), NumberOr(n, AId.Y2, 0.0))]
  }

  // ---- polyline, polygon ----

  /** The segments for a point list: a move to the first point, a line to each later one. */
  function PointsPath(pts: seq<(real, real)>): (r: seq<PathSeg>)
    ensures |r| == |pts|
    ensures forall i :: 0 <= i < |pts| ==>
              r[i] == if i == 0 then MoveTo(pts[i].0, pts[i].1) else LineTo(pts[i].0, pts[i].1)
  {
    seq(|pts|, i requires 0 <= i < |pts| =>
      if i == 0 then MoveTo(pts[i].0, pts[i].1) else LineTo(pts[i].0, pts[i].1))
  }

  /** `points_to_path`: None when `points` is missing or has fewer than two entries. */
  function PointsToPath(n: Node): (r: Option<seq<PathSeg>>)
    ensures r.None? <==> GetPoints(n, AId.Points).None? || |GetPoints(n, AId.Points).value| < 2
    ensures r.Some? ==> r.value == PointsPath(GetPoints(n, AId.Points).value)
  {
    match GetPoints(n, AId.Points)
    case None => Option.None
    case Some(pts) => if |pts| < 2 then Option.None else Some(PointsPath(pts))
  }

  /** The loop of `points_to_path`, pushing one segment per point. */
  method PointsToPathLoop(pts: seq<(real, real)>) returns (path: seq<PathSeg>)
    ensures path == PointsPath(pts)
  {
    path := [];
    var i := 0;
    while i < |pts|
      invariant 0 <= i <= |pts|
      invariant path == PointsPath(pts[..i])
    {
      var seg := if i == 0 then MoveTo(pts[i].0, pts[i].1) else LineTo(pts[i].0, pts[i].1);
      path := path + [seg];
      i := i + 1;
      assert pts[..i][..i - 1] == pts[..i - 1];
    }
    assert pts[..i] == pts;
  }

  /** `convert_polygon`: the polyline path followed by exactly one ClosePath. */
  function ConvertPolygon(n: Node): (r: Option<seq<PathSeg>>)
    ensures r.None? <==> PointsToPath(n).None?
    ensures r.Some? ==> r.value == PointsToPath(n).value + [ClosePath]
  {
    match PointsToPath(n)
    case Some(p) => Some(p + [ClosePath])
    case None => Option.None
  }

  // ---- circle, ellipse ----

  /** `ellipse_to_path`: four quarter arcs through the axis points, then ClosePath. */
  function EllipseToPath(cx: real, cy: real, rx: real, ry: real): seq<PathSeg>
  {
    [MoveTo(cx + rx, cy),
     EllipticalArc(rx, ry, 0.0, false, true, cx, cy + ry),
     EllipticalArc(rx, ry, 0.0, false, true, cx - rx, cy),
     EllipticalArc(rx, ry, 0.0, false, true, cx, cy - ry),
     EllipticalArc(rx, ry, 0.0, false, true, cx + rx, cy),
     ClosePath]
  }

  predicate OnEllipse(p: (real, real), cx: real, cy: real, rx: real, ry: real)
  {
    (p.0 - cx) * (p.0 - cx) * ry * ry + (p.1 - cy) * (p.1 - cy) * rx * rx == rx * rx * ry * ry
  }

  /** Six segments, starting at (cx+rx, cy), every end point on the ellipse, back to the start. */
  lemma EllipsePathShape(cx: real, cy: real, rx: real, ry: real)
    ensures var p := EllipseToPath(cx, cy, rx, ry);
            |p| == 6 && p[0] == MoveTo(cx + rx, cy) && p[5] == ClosePath
            && EndPoint(p[4]) == EndPoint(p[0])
            && (forall i :: 1 <= i < 5 ==> p[i].EllipticalArc? && p[i].rx == rx && p[i].ry == ry)
            && forall i :: 0 <= i < 5 ==> OnEllipse(EndPoint(p[i]).value, cx, cy, rx, ry)
  {
    var p := EllipseToPath(cx, cy, rx, ry);
    forall i | 0 <= i < 5
      ensures OnEllipse(EndPoint(p[i]).value, cx, cy, rx, ry)
    {
      if i == 0 || i == 4 {
        assert EndPoint(p[i]).value == (cx + rx, cy);
        assert (cx + rx - cx) * (cx + rx - cx) == rx * rx;
      } else if i == 2 {
        assert EndPoint(p[i]).value == (cx - rx, cy);
        assert (cx - rx - cx) * (cx - rx - cx) == rx * rx;
      } else if i == 1 {
        assert EndPoint(p[i]).value == (cx, cy + ry);
        assert (cy + ry - cy) * (cy + ry - cy) == ry * ry;
      } else {
        assert EndPoint(p[i]).value == (cx, cy - ry);
        assert (cy - ry - cy) * (cy - ry - cy) == ry * ry;
      }
    }
  }

  /** `convert_circle`: None exactly when r (missing = 0) is not positive. */
  function ConvertCircle(n: Node): (r: Option<seq<PathSeg>>)
    ensures r.None? <==> !(NumberOr(n, AId.R, 0.0) > 0.0)
    ensures r.Some? ==> var rad := NumberOr(n, AId.R, 0.0);
                        r.value == EllipseToPath(NumberOr(n, AId.Cx, 0.0), NumberOr(n, AId.Cy, 0.0), rad, rad)
  {
    var rad := NumberOr(n, AId.R, 0.0);
    if !(rad > 0.0) then Option.None
    else Some(EllipseToPath(NumberOr(n, AId.Cx, 0.0), NumberOr(n, AId.Cy, 0.0), rad, rad))
  }

  /** `convert_ellipse`: None exactly when rx or ry (missing = 0) is not positive. */
  function ConvertEllipse(n: Node): (r: Option<seq<PathSeg>>)
    ensures r.None? <==> !(NumberOr(n, AId.Rx, 0.0) > 0.0) || !(NumberOr(n, AId.Ry, 0.0) > 0.0)
    ensures r.Some? ==> r.value == EllipseToPath(NumberOr(n, AId.Cx, 0.0), NumberOr(n, AId.Cy, 0.0),
                                                 NumberOr(n, AId.Rx, 0.0), NumberOr(n, AId.Ry, 0.0))
  {
    var rx := NumberOr(n, AId.Rx, 0.0);
    var ry := NumberOr(n, AId.Ry, 0.0);
    if !(rx > 0.0) || !(ry > 0.0) then Option.None
    else Some(EllipseToPath(NumberOr(n, AId.Cx, 0.0), NumberOr(n, AId.Cy, 0.0), rx, ry))
  }
}
