/**
 * `clippath::convert` and `convert_children`: a `clipPath` becomes a
 * `ClipPath` node in `Defs`, and its shapes, paths and texts become its
 * children. A `line` adds nothing (its stroke is never drawn inside a clip
 * path) and neither does any other element.
 */
module ClipPathConv {
  import opened Wrappers
  import opened SvgTypes
  import opened Dom
  import opened Traits
  import T = TreeNode
  import R = RenderTree
  import CB = ConvertBase
  import Shapes
  import PathConv

  /** The `ClipPath` node of `n`: its id, `clipPathUnits` and `transform`. */
  function ClipOf(n: Node): T.ClipPath
  {
    T.ClipPath(n.id, CB.ElementUnits(n, AId.ClipPathUnits), CB.TransformOr(n, AId.Transform))
  }

  /** `convert`: the clip path appended to `Defs`; returns its id. */
  method Convert(t: R.Tree, n: Node) returns (id: R.NodeId)
    requires R.Sound(t.State())
    modifies t
    ensures R.Sound(t.State()) && id == old(|t.kinds|)
    ensures t.State() == R.Appended(old(t.State()), R.DefsOf(old(t.State())), T.ClipPathKind(ClipOf(n)))
  {
    ghost var a := t.State();
    R.AppendedSound(a, R.DefsOf(a), T.ClipPathKind(ClipOf(n)));
    id := t.AppendToDefs(T.ClipPathKind(ClipOf(n)));
  }

  /** The shapes `convert_children` turns into paths; `line` is not one of them. */
  predicate IsClipShape(n: Node)
  {
    n.Is(EId.Rect) || n.Is(EId.Polyline) || n.Is(EId.Polygon) || n.Is(EId.Circle) || n.Is(EId.Ellipse)
  }

  /** The nodes made between `a` and `r` are all paths or texts, directly under `p`. */
  predicate OnlyDrawnUnder(a: R.Arena, r: R.Arena, p: R.NodeId)
    requires |a.kinds| <= |r.kinds| == |r.parent|
  {
    forall j :: |a.kinds| <= j < |r.kinds| ==> r.parent[j] == Some(p) && (r.kinds[j].PathKind? || r.kinds[j].TextKind?)
  }

  /** One child of the clip path, converted under `p`. */
  function ConvertedChild(a: R.Arena, doc: Node, n: Node, p: R.NodeId, env: CB.Env): (r: R.Arena)
    requires R.Sound(a) && p < |a.kinds|
    ensures R.Sound(r) && R.Below(a, r, p) && R.NoNewDefinitions(a, r) && OnlyDrawnUnder(a, r, p)
  {
    if IsClipShape(n) then
      match Shapes.Convert(n)
      case Some(d) => PathDrawnUnder(a, doc, n, d, p, env.arc);
                      PathConv.Converted(a, doc, n, d, p, env.arc)
      case None => R.BelowRefl(a, p); a
    else if n.Is(EId.Path) then
      match GetPath(n, AId.D)
      case Some(d) => PathDrawnUnder(a, doc, n, d, p, env.arc);
                      PathConv.Converted(a, doc, n, d, p, env.arc)
      case None => R.BelowRefl(a, p); a
    else if n.Is(EId.Text) then
      TextDrawnUnder(a, n, p, env);
      CB.TextConverted(a, n, p, env)
    else
      R.BelowRefl(a, p);
      a
  }

  /** A converted path is at most one path node, under `p`. */
  lemma PathDrawnUnder(a: R.Arena, doc: Node, n: Node, d: seq<PathSeg>, p: R.NodeId, arc: PathConv.ArcFlattener)
    requires R.Sound(a) && p < |a.kinds|
    ensures OnlyDrawnUnder(a, PathConv.Converted(a, doc, n, d, p, arc), p)
  {
    var path := PathConv.PathOf(a, doc, n, d, arc);
    if |path.segments| >= 2 {
      assert PathConv.Converted(a, doc, n, d, p, arc) == R.Appended(a, p, T.PathKind(path));
    }
  }

  /** A converted text is at most one text node, under `p`. */
  lemma TextDrawnUnder(a: R.Arena, n: Node, p: R.NodeId, env: CB.Env)
    requires R.Sound(a) && p < |a.kinds|
    ensures OnlyDrawnUnder(a, CB.TextConverted(a, n, p, env), p)
  {
  }

  /** `convert_children`: the children in order, each converted under `p`. */
  function ConvertedChildren(a: R.Arena, doc: Node, ns: seq<Node>, p: R.NodeId, env: CB.Env): (r: R.Arena)
    requires R.Sound(a) && p < |a.kinds|
    ensures R.Sound(r) && R.Below(a, r, p) && R.NoNewDefinitions(a, r) && OnlyDrawnUnder(a, r, p)
    decreases |ns|
  {
    if ns == [] then
      R.BelowRefl(a, p);
      a
    else
      var b := ConvertedChildren(a, doc, ns[..|ns| - 1], p, env);
      var r := ConvertedChild(b, doc, ns[|ns| - 1], p, env);
      ChildrenStep(a, b, r, p);
      r
  }

  lemma ChildrenStep(a: R.Arena, b: R.Arena, r: R.Arena, p: R.NodeId)
    requires R.Below(a, b, p) && R.NoNewDefinitions(a, b) && OnlyDrawnUnder(a, b, p)
    requires R.Below(b, r, p) && R.NoNewDefinitions(b, r) && OnlyDrawnUnder(b, r, p)
    ensures R.Below(a, r, p) && R.NoNewDefinitions(a, r) && OnlyDrawnUnder(a, r, p)
  {
    R.BelowTrans(a, b, r, p);
    R.NoNewDefinitionsTrans(a, b, r, p, p);
    forall j | |a.kinds| <= j < |r.kinds|
      ensures r.parent[j] == Some(p) && (r.kinds[j].PathKind? || r.kinds[j].TextKind?)
    {
      if j < |b.kinds| {
        assert r.parent[j] == b.parent[j] && r.kinds[j] == b.kinds[j];
      }
    }
  }

  /** A `line`, and any element that is not a shape, `path` or `text`, adds nothing. */
  lemma ChildIgnored(a: R.Arena, doc: Node, n: Node, p: R.NodeId, env: CB.Env)
    requires R.Sound(a) && p < |a.kinds|
    requires !IsClipShape(n) && !n.Is(EId.Path) && !n.Is(EId.Text)
    ensures ConvertedChild(a, doc, n, p, env) == a
  {
  }

  /** A `path` child with at least two converted segments becomes a path node, the last child of `p`. */
  lemma PathChildAppended(a: R.Arena, doc: Node, n: Node, p: R.NodeId, env: CB.Env)
    requires R.Sound(a) && p < |a.kinds| && n.Is(EId.Path) && GetPath(n, AId.D).Some?
    requires |PathConv.PathOf(a, doc, n, GetPath(n, AId.D).value, env.arc).segments| >= 2
    ensures var r := ConvertedChild(a, doc, n, p, env);
            r.kinds == a.kinds + [T.PathKind(PathConv.PathOf(a, doc, n, GetPath(n, AId.D).value, env.arc))]
            && r.kids[p] == a.kids[p] + [|a.kinds|]
  {
    assert !IsClipShape(n);
  }

  lemma ChildrenSnoc(a: R.Arena, doc: Node, ns: seq<Node>, i: nat, p: R.NodeId, env: CB.Env)
    requires R.Sound(a) && p < |a.kinds| && i < |ns|
    ensures ConvertedChildren(a, doc, ns[..i + 1], p, env)
            == ConvertedChild(ConvertedChildren(a, doc, ns[..i], p, env), doc, ns[i], p, env)
  {
    assert ns[..i + 1][..i] == ns[..i];
  }

  /** One child, on the tree in place. */
  method ConvertChild(t: R.Tree, doc: Node, n: Node, p: R.NodeId, env: CB.Env)
    requires R.Sound(t.State()) && p < |t.kinds|
    modifies t
    ensures t.State() == ConvertedChild(old(t.State()), doc, n, p, env)
  {
    if IsClipShape(n) {
      var d := Shapes.Convert(n);
      if d.Some? {
        PathConv.Convert(t, doc, n, d.value, p, env.arc);
      }
    } else if n.Is(EId.Path) {
      var d := GetPath(n, AId.D);
      if d.Some? {
        PathConv.Convert(t, doc, n, d.value, p, env.arc);
      }
    } else if n.Is(EId.Text) {
      CB.ConvertText(t, n, p, env);
    }
  }

  /** `convert_children`: the loop over the children of `n`. */
  method ConvertChildren(t: R.Tree, doc: Node, n: Node, p: R.NodeId, env: CB.Env)
    requires R.Sound(t.State()) && p < |t.kinds|
    modifies t
    ensures t.State() == ConvertedChildren(old(t.State()), doc, n.children, p, env)
  {
    ghost var a := t.State();
    var ns := n.children;
    for i := 0 to |ns|
      invariant t.State() == ConvertedChildren(a, doc, ns[..i], p, env)
    {
      ChildrenSnoc(a, doc, ns, i, p, env);
      ConvertChild(t, doc, ns[i], p, env);
    }
    assert ns[..|ns|] == ns;
  }
}
