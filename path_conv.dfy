/**
 * Path data canonicalisation: absolute svgdom segments become the render
 * tree's MoveTo/LineTo/CurveTo/ClosePath. Horizontal and vertical lines take
 * the missing coordinate from the current point, smooth curves reflect the
 * previous control point (sections 8.3.6 and 8.3.7 of SVG 1.1), quadratics are
 * raised to cubics, and arcs are flattened by a curve approximator that the
 * model takes as a parameter. A stroked path then has control points that lie
 * very close to their end point snapped onto it.
 */
module PathConv {
  import opened Wrappers
  import S = SvgTypes
  import T = TreeNode
  import D = Dom
  import Traits
  import FillConv
  import StrokeConv
  import R = RenderTree

  /** One cubic Bézier piece: two control points and the end point. */
  datatype Cubic = Cubic(x1: real, y1: real, x2: real, y2: real, x: real, y: real)

  /**
   * The arc approximator: given the current point and the arc segment, the
   * cubics it emits in order.
   */
  type ArcFlattener = (real, real, S.PathSeg) -> seq<Cubic>

  /** The snapping distance used for stroked paths. */
  const SnapDistance: real := 0.25

  function Abs(v: real): real { if v < 0.0 then -v else v }

  /**
   * `quad_to_curve`: the quadratic from (px, py) with control (x1, y1) to
   * (x, y), raised to a cubic whose controls lie two thirds of the way from
   * each end point towards the quadratic's control.
   */
  function QuadToCurve(px: real, py: real, x1: real, y1: real, x: real, y: real): (r: T.PathSegment)
    ensures r.CurveTo? && r.x == x && r.y == y
    ensures 3.0 * (r.x1 - px) == 2.0 * (x1 - px) && 3.0 * (r.y1 - py) == 2.0 * (y1 - py)
    ensures 3.0 * (r.x2 - x) == 2.0 * (x1 - x) && 3.0 * (r.y2 - y) == 2.0 * (y1 - y)
  {
    T.CurveTo(px + (x1 - px) * (2.0 / 3.0), py + (y1 - py) * (2.0 / 3.0),
              x + (x1 - x) * (2.0 / 3.0), y + (y1 - y) * (2.0 / 3.0), x, y)
  }

  function CubicsToSegments(cs: seq<Cubic>): (r: seq<T.PathSegment>)
    ensures |r| == |cs|
    ensures forall i :: 0 <= i < |cs| ==> r[i] == T.CurveTo(cs[i].x1, cs[i].y1, cs[i].x2, cs[i].y2, cs[i].x, cs[i].y)
  {
    seq(|cs|, i requires 0 <= i < |cs| => T.CurveTo(cs[i].x1, cs[i].y1, cs[i].x2, cs[i].y2, cs[i].x, cs[i].y))
  }

  /**
   * The conversion state after some input segments: the output so far, the
   * current point (px, py), the last MoveTo point (pmx, pmy) and the control
   * point remembered for a following SmoothQuadratic (ptx, pty).
   */
  datatype State = State(
    out: seq<T.PathSegment>,
    px: real, py: real,
    pmx: real, pmy: real,
    ptx: Option<real>, pty: Option<real>)

  const Init: State := State([], 0.0, 0.0, 0.0, 0.0, Option.None, Option.None)

  /** The segments one input segment pushes onto the output. */
  function Emit(st: State, seg: S.PathSeg, arc: ArcFlattener): seq<T.PathSegment>
  {
    match seg
    case MoveTo(x, y) => [T.MoveTo(x, y)]
    case LineTo(x, y) => [T.LineTo(x, y)]
    case HorizontalLineTo(x) => [T.LineTo(x, st.py)]
    case VerticalLineTo(y) => [T.LineTo(st.px, y)]
    case CurveTo(x1, y1, x2, y2, x, y) => [T.CurveTo(x1, y1, x2, y2, x, y)]
    case SmoothCurveTo(x2, y2, x, y) =>
      if st.out == [] then []
      else
        var last := st.out[|st.out| - 1];
        if last.CurveTo? then [T.CurveTo(last.x * 2.0 - last.x2, last.y * 2.0 - last.y2, x2, y2, x, y)]
        else [T.CurveTo(st.px, st.py, x2, y2, x, y)]
    case Quadratic(x1, y1, x, y) => [QuadToCurve(st.px, st.py, x1, y1, x, y)]
    case SmoothQuadratic(x, y) =>
      if st.ptx.Some? && st.pty.Some? then [QuadToCurve(st.px, st.py, st.ptx.value, st.pty.value, x, y)]
      else [QuadToCurve(st.px, st.py, st.px, st.py, x, y)]
    case EllipticalArc(_, _, _, _, _, _, _) => CubicsToSegments(arc(st.px, st.py, seg))
    case ClosePath => [T.ClosePath]
  }

  /** The control point remembered after one input segment; only Q and T change it. */
  function NextControl(st: State, seg: S.PathSeg): (Option<real>, Option<real>)
  {
    match seg
    case Quadratic(x1, y1, x, y) => (Some(x * 2.0 - x1), Some(y * 2.0 - y1))
    case SmoothQuadratic(x, y) =>
      if st.ptx.Some? && st.pty.Some? then (Some(x * 2.0 - st.ptx.value), Some(y * 2.0 - st.pty.value))
      else (st.ptx, st.pty)
    case _ => (st.ptx, st.pty)
  }

  /** "Remember last position": the current and MoveTo points after the output grew to `out`. */
  function Remember(out: seq<T.PathSegment>, px: real, py: real, pmx: real, pmy: real): (real, real, real, real)
  {
    if out == [] then (px, py, pmx, pmy)
    else
      match out[|out| - 1]
      case MoveTo(x, y) => (x, y, x, y)
      case LineTo(x, y) => (x, y, pmx, pmy)
      case CurveTo(_, _, _, _, x, y) => (x, y, pmx, pmy)
      case ClosePath => (pmx, pmy, pmx, pmy)
  }

  function Step(st: State, seg: S.PathSeg, arc: ArcFlattener): State
  {
    var out := st.out + Emit(st, seg, arc);
    var (tx, ty) := NextControl(st, seg);
    var (px, py, pmx, pmy) := Remember(out, st.px, st.py, st.pmx, st.pmy);
    State(out, px, py, pmx, pmy, tx, ty)
  }

  /** The state after converting `segs` from the start. */
  function Run(segs: seq<S.PathSeg>, arc: ArcFlattener): State
  {
    if segs == [] then Init
    else Step(Run(segs[..|segs| - 1], arc), segs[|segs| - 1], arc)
  }

  lemma RunSnoc(segs: seq<S.PathSeg>, seg: S.PathSeg, arc: ArcFlattener)
    ensures Run(segs + [seg], arc) == Step(Run(segs, arc), seg, arc)
  {
    assert (segs + [seg])[..|segs|] == segs;
  }

  lemma RunPrefix(segs: seq<S.PathSeg>, i: nat, arc: ArcFlattener)
    requires i < |segs|
    ensures Run(segs[..i + 1], arc) == Step(Run(segs[..i], arc), segs[i], arc)
  {
    assert segs[..i + 1][..i] == segs[..i];
  }

  lemma StepIs(st: State, seg: S.PathSeg, arc: ArcFlattener, out: seq<T.PathSegment>,
               px: real, py: real, pmx: real, pmy: real, ptx: Option<real>, pty: Option<real>)
    requires out == st.out + Emit(st, seg, arc)
    requires (ptx, pty) == NextControl(st, seg)
    requires (px, py, pmx, pmy) == Remember(out, st.px, st.py, st.pmx, st.pmy)
    ensures Step(st, seg, arc) == State(out, px, py, pmx, pmy, ptx, pty)
  {
  }

  /** What a segment emits does not depend on the last MoveTo point. */
  lemma EmitIgnoresMoveToPoint(st: State, seg: S.PathSeg, arc: ArcFlattener)
    ensures Emit(st, seg, arc) == Emit(st.(pmx := 0.0, pmy := 0.0), seg, arc)
    ensures NextControl(st, seg) == NextControl(st.(pmx := 0.0, pmy := 0.0), seg)
  {
  }

  // ---- snapping ----

  /** One coordinate snapped onto the end point coordinate when closer than the snapping distance. */
  function SnapCoord(c: real, end: real): (r: real)
    ensures Abs(end - c) < SnapDistance ==> r == end
    ensures Abs(end - c) >= SnapDistance ==> r == c
  {
    if Abs(end - c) < SnapDistance then end else c
  }

  /** The snap of one segment: only a CurveTo's control coordinates can move. */
  function SnapSegment(s: T.PathSegment): (r: T.PathSegment)
    ensures !s.CurveTo? ==> r == s
    ensures s.CurveTo? ==> r.CurveTo? && r.x == s.x && r.y == s.y
    ensures s.CurveTo? ==> r.x1 == SnapCoord(s.x1, s.x) && r.y1 == SnapCoord(s.y1, s.y)
    ensures s.CurveTo? ==> r.x2 == SnapCoord(s.x2, s.x) && r.y2 == SnapCoord(s.y2, s.y)
  {
    match s
    case CurveTo(x1, y1, x2, y2, x, y) =>
      T.CurveTo(SnapCoord(x1, x), SnapCoord(y1, y), SnapCoord(x2, x), SnapCoord(y2, y), x, y)
    case _ => s
  }

  function SnapAll(p: seq<T.PathSegment>): (r: seq<T.PathSegment>)
    ensures |r| == |p|
    ensures forall i :: 0 <= i < |p| ==> r[i] == SnapSegment(p[i])
  {
    seq(|p|, i requires 0 <= i < |p| => SnapSegment(p[i]))
  }

  /** `convert_path` as a value: the converted segments, snapped when the path is stroked. */
  function ConvertPathSpec(segs: seq<S.PathSeg>, stroked: bool, arc: ArcFlattener): seq<T.PathSegment>
  {
    var out := Run(segs, arc).out;
    if stroked then SnapAll(out) else out
  }

  /**
   * The match at the head of `convert_path`'s loop: what one input segment
   * pushes onto the output, and the quadratic control it leaves remembered.
   */
  method PushSegment(newPath: seq<T.PathSegment>, px: real, py: real, ptx: Option<real>, pty: Option<real>,
                     seg: S.PathSeg, arc: ArcFlattener)
    returns (path': seq<T.PathSegment>, ptx': Option<real>, pty': Option<real>)
    ensures var st := State(newPath, px, py, 0.0, 0.0, ptx, pty);
            path' == newPath + Emit(st, seg, arc) && (ptx', pty') == NextControl(st, seg)
  {
    path', ptx', pty' := newPath, ptx, pty;
    match seg {
      case MoveTo(x, y) =>
        path' := path' + [T.MoveTo(x, y)];
      case LineTo(x, y) =>
        path' := path' + [T.LineTo(x, y)];
      case HorizontalLineTo(x) =>
        path' := path' + [T.LineTo(x, py)];
      case VerticalLineTo(y) =>
        path' := path' + [T.LineTo(px, y)];
      case CurveTo(x1, y1, x2, y2, x, y) =>
        path' := path' + [T.CurveTo(x1, y1, x2, y2, x, y)];
      case SmoothCurveTo(x2, y2, x, y) =>
        if path' != [] {
          var last := path'[|path'| - 1];
          var newX1, newY1;
          if last.CurveTo? {
            newX1 := last.x * 2.0 - last.x2;
            newY1 := last.y * 2.0 - last.y2;
          } else {
            newX1 := px;
            newY1 := py;
          }
          path' := path' + [T.CurveTo(newX1, newY1, x2, y2, x, y)];
        }
      case Quadratic(x1, y1, x, y) =>
        ptx' := Some(x * 2.0 - x1);
        pty' := Some(y * 2.0 - y1);
        path' := path' + [QuadToCurve(px, py, x1, y1, x, y)];
      case SmoothQuadratic(x, y) =>
        var newX1, newY1;
        if ptx'.Some? && pty'.Some? {
          newX1 := ptx'.value;
          newY1 := pty'.value;
          ptx' := Some(x * 2.0 - newX1);
          pty' := Some(y * 2.0 - newY1);
        } else {
          newX1 := px;
          newY1 := py;
        }
        path' := path' + [QuadToCurve(px, py, newX1, newY1, x, y)];
      case EllipticalArc(_, _, _, _, _, _, _) =>
        var cubics := arc(px, py, seg);
        for j := 0 to |cubics|
          invariant path' == newPath + CubicsToSegments(cubics[..j])
        {
          var c := cubics[j];
          assert cubics[..j + 1] == cubics[..j] + [c];
          path' := path' + [T.CurveTo(c.x1, c.y1, c.x2, c.y2, c.x, c.y)];
        }
        assert cubics[..|cubics|] == cubics;
      case ClosePath =>
        path' := path' + [T.ClosePath];
    }
  }

  /** The snapping pass of `convert_path`, rewriting the segments in place. */
  method SnapControlPoints(p: seq<T.PathSegment>) returns (newPath: seq<T.PathSegment>)
    ensures newPath == SnapAll(p)
  {
    newPath := p;
    for i := 0 to |newPath|
      invariant |newPath| == |p|
      invariant forall k :: 0 <= k < i ==> newPath[k] == SnapSegment(p[k])
      invariant forall k :: i <= k < |newPath| ==> newPath[k] == p[k]
    {
      match newPath[i] {
        case CurveTo(x1, y1, x2, y2, x, y) =>
          var nx1, ny1, nx2, ny2 := x1, y1, x2, y2;
          if Abs(x - nx1) < SnapDistance { nx1 := x; }
          if Abs(y - ny1) < SnapDistance { ny1 := y; }
          if Abs(x - nx2) < SnapDistance { nx2 := x; }
          if Abs(y - ny2) < SnapDistance { ny2 := y; }
          newPath := newPath[i := T.CurveTo(nx1, ny1, nx2, ny2, x, y)];
        case _ =>
      }
    }
  }

  /** "Remember last position": the current and MoveTo points after the output grew to `out`. */
  method RememberLast(out: seq<T.PathSegment>, px: real, py: real, pmx: real, pmy: real)
    returns (px': real, py': real, pmx': real, pmy': real)
    ensures (px', py', pmx', pmy') == Remember(out, px, py, pmx, pmy)
  {
    px', py', pmx', pmy' := px, py, pmx, pmy;
    if out != [] {
      match out[|out| - 1] {
        case MoveTo(x, y) =>
          px', py' := x, y;
          pmx', pmy' := x, y;
        case LineTo(x, y) =>
          px', py' := x, y;
        case CurveTo(_, _, _, _, x, y) =>
          px', py' := x, y;
        case ClosePath =>
          px', py' := pmx, pmy;
      }
    }
  }

  /**
   * `convert_path`: one pass over the segments that pushes onto the output
   * and updates the current point, the last MoveTo point and the remembered
   * quadratic control, then, for a stroked path, the snapping pass.
   */
  method ConvertPath(path: seq<S.PathSeg>, stroked: bool, arc: ArcFlattener) returns (newPath: seq<T.PathSegment>)
    ensures newPath == ConvertPathSpec(path, stroked, arc)
  {
    newPath := [];
    var pmx, pmy := 0.0, 0.0;
    var px, py := 0.0, 0.0;
    var ptx: Option<real>, pty: Option<real> := Option.None, Option.None;

    for i := 0 to |path|
      invariant Run(path[..i], arc) == State(newPath, px, py, pmx, pmy, ptx, pty)
    {
      ghost var before := State(newPath, px, py, pmx, pmy, ptx, pty);
      RunPrefix(path, i, arc);
      newPath, ptx, pty := PushSegment(newPath, px, py, ptx, pty, path[i], arc);
      EmitIgnoresMoveToPoint(before, path[i], arc);
      ghost var emitted := Emit(before, path[i], arc);
      ghost var ctl := NextControl(before, path[i]);
      assert newPath == before.out + emitted;
      assert (ptx, pty) == ctl;

      px, py, pmx, pmy := RememberLast(newPath, px, py, pmx, pmy);
      assert (px, py, pmx, pmy) == Remember(newPath, before.px, before.py, before.pmx, before.pmy);
      StepIs(before, path[i], arc, newPath, px, py, pmx, pmy, ptx, pty);
    }
    assert path[..|path|] == path;

    if stroked {
      newPath := SnapControlPoints(newPath);
    }
  }

  // ---- what the conversion promises ----

  /** The point of the last MoveTo in an output, or the origin when there is none. */
  function LastMovePoint(out: seq<T.PathSegment>): (real, real)
  {
    if out == [] then (0.0, 0.0)
    else if out[|out| - 1].MoveTo? then (out[|out| - 1].x, out[|out| - 1].y)
    else LastMovePoint(out[..|out| - 1])
  }

  /**
   * The current point of an output: the end of its last segment, and after a
   * ClosePath the point of the last MoveTo.
   */
  function CurrentPoint(out: seq<T.PathSegment>): (real, real)
  {
    if out == [] then (0.0, 0.0)
    else
      match out[|out| - 1]
      case MoveTo(x, y) => (x, y)
      case LineTo(x, y) => (x, y)
      case CurveTo(_, _, _, _, x, y) => (x, y)
      case ClosePath => LastMovePoint(out)
  }

  lemma {:induction false} LastMoveAppend(out: seq<T.PathSegment>, e: seq<T.PathSegment>)
    requires forall k :: 0 <= k < |e| ==> !e[k].MoveTo?
    ensures LastMovePoint(out + e) == LastMovePoint(out)
  {
    if e != [] {
      assert (out + e)[..|out + e| - 1] == out + e[..|e| - 1];
      LastMoveAppend(out, e[..|e| - 1]);
    } else {
      assert out + e == out;
    }
  }

  /** Only a MoveTo input emits a MoveTo, and then exactly one. */
  lemma EmitMoveTo(st: State, seg: S.PathSeg, arc: ArcFlattener)
    ensures seg.MoveTo? ==> Emit(st, seg, arc) == [T.MoveTo(seg.x, seg.y)]
    ensures !seg.MoveTo? ==> forall k :: 0 <= k < |Emit(st, seg, arc)| ==> !Emit(st, seg, arc)[k].MoveTo?
  {
  }

  /**
   * The tracked current point is the current point of the output so far, and
   * the tracked MoveTo point is the output's last MoveTo.
   */
  lemma {:induction false} RunTracksCurrentPoint(segs: seq<S.PathSeg>, arc: ArcFlattener)
    ensures Tracks(Run(segs, arc))
  {
    if segs != [] {
      RunTracksCurrentPoint(segs[..|segs| - 1], arc);
      StepTracks(Run(segs[..|segs| - 1], arc), segs[|segs| - 1], arc);
    }
  }

  /** The tracked points of a state agree with its output. */
  predicate Tracks(st: State)
  {
    (st.px, st.py) == CurrentPoint(st.out) && (st.pmx, st.pmy) == LastMovePoint(st.out)
  }

  /** One step keeps the tracked points in agreement with the output. */
  lemma StepTracks(st: State, seg: S.PathSeg, arc: ArcFlattener)
    requires Tracks(st)
    ensures Tracks(Step(st, seg, arc))
  {
    var e := Emit(st, seg, arc);
    var out := st.out + e;
    EmitMoveTo(st, seg, arc);
    if e == [] {
      assert out == st.out;
    } else {
      assert out[|out| - 1] == e[|e| - 1];
      if !seg.MoveTo? {
        assert out[..|out| - 1] == st.out + e[..|e| - 1];
        LastMoveAppend(st.out, e[..|e| - 1]);
        LastMoveAppend(st.out, e);
      }
    }
  }

  /** The segment that a MoveTo, LineTo, CurveTo or ClosePath input is copied to. */
  predicate IsCopied(seg: S.PathSeg)
  {
    seg.MoveTo? || seg.LineTo? || seg.CurveTo? || seg.ClosePath?
  }

  function Copy(seg: S.PathSeg): T.PathSegment
    requires IsCopied(seg)
  {
    match seg
    case MoveTo(x, y) => T.MoveTo(x, y)
    case LineTo(x, y) => T.LineTo(x, y)
    case CurveTo(x1, y1, x2, y2, x, y) => T.CurveTo(x1, y1, x2, y2, x, y)
    case ClosePath => T.ClosePath
  }

  lemma CopyStep(st: State, seg: S.PathSeg, arc: ArcFlattener)
    requires IsCopied(seg)
    ensures Step(st, seg, arc).out == st.out + [Copy(seg)]
  {
  }

  /** MoveTo, LineTo, CurveTo and ClosePath inputs give one output each, with the same coordinates. */
  lemma {:induction false} CopiedOneToOne(segs: seq<S.PathSeg>, arc: ArcFlattener)
    requires forall i :: 0 <= i < |segs| ==> IsCopied(segs[i])
    ensures |Run(segs, arc).out| == |segs|
    ensures forall i :: 0 <= i < |segs| ==> Run(segs, arc).out[i] == Copy(segs[i])
  {
    if segs != [] {
      var prefix := segs[..|segs| - 1];
      CopiedOneToOne(prefix, arc);
      CopyStep(Run(prefix, arc), segs[|segs| - 1], arc);
      assert Run(segs, arc).out == Run(prefix, arc).out + [Copy(segs[|segs| - 1])];
    }
  }

  /** H takes the current y and V the current x. */
  lemma HorizontalVertical(segs: seq<S.PathSeg>, v: real, arc: ArcFlattener)
    ensures var out := Run(segs, arc).out;
            Run(segs + [S.HorizontalLineTo(v)], arc).out == out + [T.LineTo(v, CurrentPoint(out).1)]
    ensures var out := Run(segs, arc).out;
            Run(segs + [S.VerticalLineTo(v)], arc).out == out + [T.LineTo(CurrentPoint(out).0, v)]
  {
    RunSnoc(segs, S.HorizontalLineTo(v), arc);
    RunSnoc(segs, S.VerticalLineTo(v), arc);
    RunTracksCurrentPoint(segs, arc);
  }

  /**
   * S reflects the second control point of an output CurveTo about its end
   * point, takes the current point after any other output segment, and emits
   * nothing on an empty output.
   */
  lemma SmoothCurveReflects(segs: seq<S.PathSeg>, x2: real, y2: real, x: real, y: real, arc: ArcFlattener)
    ensures SmoothCurveOutput(Run(segs, arc).out, Run(segs + [S.SmoothCurveTo(x2, y2, x, y)], arc).out, x2, y2, x, y)
  {
    RunSnoc(segs, S.SmoothCurveTo(x2, y2, x, y), arc);
    RunTracksCurrentPoint(segs, arc);
    SmoothCurveStep(Run(segs, arc), x2, y2, x, y, arc);
  }

  /**
   * What an S segment (control x2, y2, end x, y) adds to the output `out`,
   * giving `after`: nothing on an empty output, a cubic whose first control
   * point reflects the last cubic's second one about its end point, or the
   * current point after any other segment.
   */
  predicate SmoothCurveOutput(out: seq<T.PathSegment>, after: seq<T.PathSegment>, x2: real, y2: real, x: real, y: real)
  {
    && (out == [] ==> after == [])
    && (out != [] && out[|out| - 1].CurveTo? ==>
          var c := out[|out| - 1];
          after == out + [T.CurveTo(2.0 * c.x - c.x2, 2.0 * c.y - c.y2, x2, y2, x, y)])
    && (out != [] && !out[|out| - 1].CurveTo? ==>
          after == out + [T.CurveTo(CurrentPoint(out).0, CurrentPoint(out).1, x2, y2, x, y)])
  }

  /** `SmoothCurveReflects` for one step from a state that tracks its current point. */
  lemma SmoothCurveStep(st: State, x2: real, y2: real, x: real, y: real, arc: ArcFlattener)
    requires (st.px, st.py) == CurrentPoint(st.out)
    ensures SmoothCurveOutput(st.out, Step(st, S.SmoothCurveTo(x2, y2, x, y), arc).out, x2, y2, x, y)
  {
    if st.out == [] {
      assert st.out + [] == st.out;
    }
  }

  /** Q records the reflection of its control point about its end point. */
  lemma QuadraticRecordsControl(segs: seq<S.PathSeg>, x1: real, y1: real, x: real, y: real, arc: ArcFlattener)
    ensures var st := Run(segs + [S.Quadratic(x1, y1, x, y)], arc);
            st.ptx == Some(2.0 * x - x1) && st.pty == Some(2.0 * y - y1)
  {
    RunSnoc(segs, S.Quadratic(x1, y1, x, y), arc);
  }

  /**
   * T uses the recorded control point, or the current point when none was
   * recorded, and re-records the reflection only in the first case.
   */
  lemma SmoothQuadraticUsesControl(segs: seq<S.PathSeg>, x: real, y: real, arc: ArcFlattener)
    ensures SmoothQuadraticOutput(Run(segs, arc), Run(segs + [S.SmoothQuadratic(x, y)], arc), x, y)
  {
    RunSnoc(segs, S.SmoothQuadratic(x, y), arc);
    RunTracksCurrentPoint(segs, arc);
    SmoothQuadraticStep(Run(segs, arc), x, y, arc);
  }

  /**
   * What a T segment to (x, y) does from state `st`, giving `after`: with a
   * recorded control point it emits the quadratic through it and records its
   * reflection about (x, y); without one it uses the current point as the
   * control point and leaves the record as it was.
   */
  predicate SmoothQuadraticOutput(st: State, after: State, x: real, y: real)
  {
    var cp := CurrentPoint(st.out);
    && (st.ptx.Some? && st.pty.Some? ==>
          after.out == st.out + [QuadToCurve(cp.0, cp.1, st.ptx.value, st.pty.value, x, y)]
          && after.ptx == Some(2.0 * x - st.ptx.value) && after.pty == Some(2.0 * y - st.pty.value))
    && (!(st.ptx.Some? && st.pty.Some?) ==>
          after.out == st.out + [QuadToCurve(cp.0, cp.1, cp.0, cp.1, x, y)]
          && after.ptx == st.ptx && after.pty == st.pty)
  }

  /** `SmoothQuadraticUsesControl` for one step from a state that tracks its current point. */
  lemma SmoothQuadraticStep(st: State, x: real, y: real, arc: ArcFlattener)
    requires (st.px, st.py) == CurrentPoint(st.out)
    ensures SmoothQuadraticOutput(st, Step(st, S.SmoothQuadratic(x, y), arc), x, y)
  {
  }

  /** No segment kind other than Q and T touches the recorded control point. */
  lemma ControlNeverCleared(segs: seq<S.PathSeg>, seg: S.PathSeg, arc: ArcFlattener)
    requires !seg.Quadratic? && !seg.SmoothQuadratic?
    ensures Run(segs + [seg], arc).ptx == Run(segs, arc).ptx
    ensures Run(segs + [seg], arc).pty == Run(segs, arc).pty
  {
    RunSnoc(segs, seg, arc);
  }

  /**
   * When the approximator's last cubic ends at the arc's end point, the
   * current point after an arc is that end point.
   */
  lemma ArcEndsAtTarget(segs: seq<S.PathSeg>, seg: S.PathSeg, arc: ArcFlattener)
    requires seg.EllipticalArc?
    requires var st := Run(segs, arc);
             var cs := arc(st.px, st.py, seg);
             cs != [] && cs[|cs| - 1].x == seg.x && cs[|cs| - 1].y == seg.y
    ensures CurrentPoint(Run(segs + [seg], arc).out) == (seg.x, seg.y)
  {
    RunSnoc(segs, seg, arc);
    ArcStep(Run(segs, arc), seg, arc);
  }

  /** `ArcEndsAtTarget` for one step. */
  lemma ArcStep(st: State, seg: S.PathSeg, arc: ArcFlattener)
    requires seg.EllipticalArc?
    requires var cs := arc(st.px, st.py, seg);
             cs != [] && cs[|cs| - 1].x == seg.x && cs[|cs| - 1].y == seg.y
    ensures CurrentPoint(Step(st, seg, arc).out) == (seg.x, seg.y)
  {
    var e := Emit(st, seg, arc);
    var out := st.out + e;
    assert out[|out| - 1] == e[|e| - 1];
  }

  /** Snapping twice is snapping once. */
  lemma {:induction false} SnapIdempotent(p: seq<T.PathSegment>)
    ensures SnapAll(SnapAll(p)) == SnapAll(p)
  {
    forall i | 0 <= i < |p|
      ensures SnapSegment(SnapSegment(p[i])) == SnapSegment(p[i])
    {
      var s := p[i];
      if s.CurveTo? {
        assert Abs(s.x - s.x) == 0.0 && Abs(s.y - s.y) == 0.0;
      }
    }
  }

  /** Without a stroke nothing is snapped; with one, end points and segment kinds are kept. */
  lemma SnapOnlyControls(segs: seq<S.PathSeg>, arc: ArcFlattener)
    ensures ConvertPathSpec(segs, false, arc) == Run(segs, arc).out
    ensures var out := Run(segs, arc).out;
            var snapped := ConvertPathSpec(segs, true, arc);
            |snapped| == |out|
            && forall i :: 0 <= i < |out| ==>
                 (out[i].CurveTo? <==> snapped[i].CurveTo?)
                 && (!out[i].CurveTo? ==> snapped[i] == out[i])
                 && (out[i].CurveTo? ==> snapped[i].x == out[i].x && snapped[i].y == out[i].y)
  {
  }

  // ---- `convert`: the path as a node of the render tree ----

  /** The node `convert` builds: fill, stroke, the converted segments and the transform. */
  function PathOf(a: R.Arena, doc: D.Node, n: D.Node, d: seq<S.PathSeg>, arc: ArcFlattener): T.Path
    requires R.WellFormed(a)
  {
    var fill := FillConv.Convert(doc, R.DefsIds(a), n);
    var stroke := StrokeConv.Convert(doc, R.DefsIds(a), n);
    T.Path(n.id, Traits.GetTransform(n, S.AId.Transform).UnwrapOr(S.Identity), fill, stroke,
           ConvertPathSpec(d, stroke.Some?, arc))
  }

  /** `convert` on the tree: the path is appended under `p` unless it has fewer than two segments. */
  function Converted(a: R.Arena, doc: D.Node, n: D.Node, d: seq<S.PathSeg>, p: R.NodeId, arc: ArcFlattener): (r: R.Arena)
    requires R.Sound(a) && p < |a.kinds|
    ensures R.Sound(r) && R.Below(a, r, p) && R.NoNewDefinitions(a, r)
  {
    var path := PathOf(a, doc, n, d, arc);
    if |path.segments| < 2 then
      R.BelowRefl(a, p);
      a
    else
      R.AppendedSound(a, p, T.PathKind(path));
      R.AppendedBelow(a, p, T.PathKind(path));
      R.Appended(a, p, T.PathKind(path))
  }

  /**
   * A path node is appended, as the last child of `p`, exactly when the
   * converted segments number at least two. It carries the element's id,
   * its fill and stroke as `fill::convert` and `stroke::convert` give them,
   * its transform (the identity when missing) and its segments, snapped
   * exactly when there is a stroke. Otherwise the tree is unchanged.
   */
  lemma ConvertedAppendsIffLong(a: R.Arena, doc: D.Node, n: D.Node, d: seq<S.PathSeg>, p: R.NodeId, arc: ArcFlattener)
    requires R.Sound(a) && p < |a.kinds|
    ensures var r := Converted(a, doc, n, d, p, arc);
            var stroke := StrokeConv.Convert(doc, R.DefsIds(a), n);
            var segs := ConvertPathSpec(d, stroke.Some?, arc);
            (|r.kinds| > |a.kinds| <==> |segs| >= 2)
            && (|segs| < 2 ==> r == a)
            && (|segs| >= 2 ==>
                  r.kids[p] == a.kids[p] + [|a.kinds|]
                  && r.kinds[|a.kinds|] == T.PathKind(T.Path(n.id, Traits.GetTransform(n, S.AId.Transform).UnwrapOr(S.Identity),
                                                               FillConv.Convert(doc, R.DefsIds(a), n), stroke, segs)))
  {
  }

  /** `Converted` for a node already built as `PathOf` builds it. */
  lemma ConvertedIs(a: R.Arena, doc: D.Node, n: D.Node, d: seq<S.PathSeg>, p: R.NodeId, arc: ArcFlattener, path: T.Path)
    requires R.Sound(a) && p < |a.kinds| && path == PathOf(a, doc, n, d, arc)
    ensures Converted(a, doc, n, d, p, arc) == if |path.segments| < 2 then a else R.Appended(a, p, T.PathKind(path))
  {
  }

  /** `convert`: the method that appends to the tree in place. */
  method Convert(t: R.Tree, doc: D.Node, n: D.Node, d: seq<S.PathSeg>, p: R.NodeId, arc: ArcFlattener)
    requires R.Sound(t.State()) && p < |t.kinds|
    modifies t
    ensures R.Sound(t.State()) && t.State() == Converted(old(t.State()), doc, n, d, p, arc)
  {
    var defsIds := R.DefsIds(t.State());
    var fill := FillConv.Convert(doc, defsIds, n);
    var stroke := StrokeConv.Convert(doc, defsIds, n);
    var segs := ConvertPath(d, stroke.Some?, arc);
    var transform := Traits.GetTransform(n, S.AId.Transform).UnwrapOr(S.Identity);
    var path := T.Path(n.id, transform, fill, stroke, segs);
    ConvertedIs(t.State(), doc, n, d, p, arc, path);
    if |segs| < 2 {
      return;
    }
    var _ := t.AppendChild(p, T.PathKind(path));
  }
}
