/**
 * `convert_linear`, `convert_radial` and `convert_stops`: a gradient
 * element becomes a gradient node in `Defs`, with one `Stop` child per
 * `stop` child of the element, in document order.
 */
module GradientConv {
  import opened Wrappers
  import opened SvgTypes
  import opened Dom
  import opened Traits
  import T = TreeNode
  import R = RenderTree
  import CB = ConvertBase

  /** `convert_spread_method`: the keyword, with anything else (or nothing) read as `pad`. */
  function SpreadMethodOf(n: Node): (r: T.SpreadMethod)
    ensures r == T.Reflect <==> GetPredef(n, AId.SpreadMethod) == Some(ValueId.Reflect)
    ensures r == T.Repeat <==> GetPredef(n, AId.SpreadMethod) == Some(ValueId.Repeat)
  {
    match GetPredef(n, AId.SpreadMethod).UnwrapOr(ValueId.Pad)
    case Pad => T.Pad
    case Reflect => T.Reflect
    case Repeat => T.Repeat
    case _ => T.Pad
  }

  /** The part both gradient kinds share. */
  function BaseOf(n: Node): T.BaseGradient
  {
    T.BaseGradient(CB.ElementUnits(n, AId.GradientUnits), CB.TransformOr(n, AId.GradientTransform),
                   SpreadMethodOf(n))
  }

  function LinearOf(n: Node): T.LinearGradient
  {
    T.LinearGradient(n.id, NumberOr(n, AId.X1, 0.0), NumberOr(n, AId.Y1, 0.0),
                     NumberOr(n, AId.X2, 1.0), NumberOr(n, AId.Y2, 0.0), BaseOf(n))
  }

  function RadialOf(n: Node): T.RadialGradient
  {
    T.RadialGradient(n.id, NumberOr(n, AId.Cx, 0.5), NumberOr(n, AId.Cy, 0.5), NumberOr(n, AId.R, 0.5),
                     NumberOr(n, AId.Fx, 0.5), NumberOr(n, AId.Fy, 0.5), BaseOf(n))
  }

  /** The attributes a gradient reads and defaults. */
  const BaseAttrs: set<AId> := {AId.GradientUnits, AId.GradientTransform, AId.SpreadMethod}

  /**
   * A `linearGradient` with none of its attributes runs from (0, 0) to
   * (1, 0) in user space, untransformed, padded.
   */
  lemma LinearDefaults(n: Node)
    requires forall a :: a in n.attrs ==> a !in BaseAttrs + {AId.X1, AId.Y1, AId.X2, AId.Y2}
    ensures LinearOf(n) == T.LinearGradient(n.id, 0.0, 0.0, 1.0, 0.0,
                                            T.BaseGradient(T.UserSpaceOnUse, Identity, T.Pad))
  {
    assert AId.GradientUnits !in n.attrs;
  }

  /** A `radialGradient` with none of its attributes is centred at (0.5, 0.5) with radius 0.5. */
  lemma RadialDefaults(n: Node)
    requires forall a :: a in n.attrs ==> a !in BaseAttrs + {AId.Cx, AId.Cy, AId.R, AId.Fx, AId.Fy}
    ensures RadialOf(n) == T.RadialGradient(n.id, 0.5, 0.5, 0.5, 0.5, 0.5,
                                            T.BaseGradient(T.UserSpaceOnUse, Identity, T.Pad))
  {
    assert AId.GradientUnits !in n.attrs;
  }

  /** One stop: `offset` 0, `stop-color` black and `stop-opacity` 1 when missing. */
  function StopOf(s: Node): T.Stop
  {
    T.Stop(NumberOr(s, AId.Offset, 0.0), GetColor(s, AId.StopColor).UnwrapOr(Black),
           NumberOr(s, AId.StopOpacity, 1.0))
  }

  /** The stop nodes `convert_stops` appends for the children `ns`: non-stops are skipped. */
  function StopKinds(ns: seq<Node>): (r: seq<T.NodeKind>)
    ensures |r| <= |ns|
    ensures forall i :: 0 <= i < |r| ==> r[i].StopKind?
  {
    if ns == [] then []
    else
      var s := ns[|ns| - 1];
      StopKinds(ns[..|ns| - 1]) + (if s.Is(EId.Stop) then [T.StopKind(StopOf(s))] else [])
  }

  /** The stops of two runs of children are those of the first, then those of the second. */
  lemma {:induction false} StopKindsAppend(ns: seq<Node>, ms: seq<Node>)
    ensures StopKinds(ns + ms) == StopKinds(ns) + StopKinds(ms)
    decreases |ms|
  {
    if ms == [] {
      assert ns + ms == ns;
    } else {
      var m := ms[..|ms| - 1];
      StopKindsAppend(ns, m);
      assert (ns + ms)[..|ns + ms| - 1] == ns + m;
      assert (ns + ms)[|ns + ms| - 1] == ms[|ms| - 1];
    }
  }

  /** When every child is a `stop`, each one gives a stop, in order. */
  lemma {:induction false} AllStops(ns: seq<Node>)
    requires forall i :: 0 <= i < |ns| ==> ns[i].Is(EId.Stop)
    ensures |StopKinds(ns)| == |ns|
    ensures forall i :: 0 <= i < |ns| ==> StopKinds(ns)[i] == T.StopKind(StopOf(ns[i]))
    decreases |ns|
  {
    if ns != [] {
      AllStops(ns[..|ns| - 1]);
    }
  }

  /** Children none of which is a `stop` give no stop. */
  lemma {:induction false} NoStops(ns: seq<Node>)
    requires forall i :: 0 <= i < |ns| ==> !ns[i].Is(EId.Stop)
    ensures StopKinds(ns) == []
    decreases |ns|
  {
    if ns != [] {
      NoStops(ns[..|ns| - 1]);
    }
  }

  /** Stops fit under a gradient. */
  lemma StopsFit(a: R.Arena, g: R.NodeId, ns: seq<Node>)
    requires R.WellFormed(a) && g < |a.kinds| && R.IsGradientKind(a.kinds[g])
    ensures forall i :: 0 <= i < |StopKinds(ns)| ==> R.Fits(a, g, StopKinds(ns)[i])
  {
  }

  /**
   * A gradient of kind `gk` appended to `Defs`, followed by the stops of
   * `ns` as its children. Nothing but `Defs` gains a child among the old nodes.
   */
  function ConvertedGradient(a: R.Arena, gk: T.NodeKind, ns: seq<Node>): (r: R.Arena)
    requires R.Sound(a) && R.IsGradientKind(gk)
    ensures R.Sound(r) && R.Below(a, r, R.DefsOf(a))
    ensures r.kinds == a.kinds + [gk] + StopKinds(ns)
    ensures r.parent[|a.kinds|] == Some(R.DefsOf(a))
    ensures r.kids[R.DefsOf(a)] == a.kids[R.DefsOf(a)] + [|a.kinds|]
    ensures r.kids[|a.kinds|] == R.Range(|a.kinds| + 1, |r.kinds|)
  {
    var defs := R.DefsOf(a);
    R.AppendedSound(a, defs, gk);
    R.AppendedBelow(a, defs, gk);
    var a1 := R.Appended(a, defs, gk);
    var g := |a.kinds|;
    StopsFit(a1, g, ns);
    var r := R.AppendedAll(a1, g, StopKinds(ns));
    R.BelowNested(a, a1, r, defs, g);
    r
  }

  /** `convert_linear`. */
  function ConvertedLinear(a: R.Arena, n: Node): (r: R.Arena)
    requires R.Sound(a)
    ensures R.Sound(r)
  {
    ConvertedGradient(a, T.LinearGradientKind(LinearOf(n)), n.children)
  }

  /** `convert_radial`. */
  function ConvertedRadial(a: R.Arena, n: Node): (r: R.Arena)
    requires R.Sound(a)
    ensures R.Sound(r)
  {
    ConvertedGradient(a, T.RadialGradientKind(RadialOf(n)), n.children)
  }

  /** Appending one more kind to a run of appends is one more `Appended`. */
  lemma AppendedAllSnoc(a: R.Arena, p: R.NodeId, ks: seq<T.NodeKind>, k: T.NodeKind)
    requires R.Sound(a) && p < |a.kinds| && forall i :: 0 <= i < |ks| ==> R.Fits(a, p, ks[i])
    requires R.Fits(a, p, k)
    ensures var b := R.AppendedAll(a, p, ks);
            R.AppendedAll(a, p, ks + [k]) == R.Appended(b, p, k)
  {
    assert (ks + [k])[..|ks|] == ks;
  }

  /** One turn of the loop of `convert_stops`: the child `children[i]` is appended if it is a stop. */
  lemma StopStep(a: R.Arena, g: R.NodeId, children: seq<Node>, i: nat)
    requires R.Sound(a) && g < |a.kinds| && R.IsGradientKind(a.kinds[g]) && i < |children|
    ensures (StopsFit(a, g, children[..i]); StopsFit(a, g, children[..i + 1]);
             var b := R.AppendedAll(a, g, StopKinds(children[..i]));
             R.Sound(b) && g < |b.kinds| && b.kinds[g] == a.kinds[g]
             && R.AppendedAll(a, g, StopKinds(children[..i + 1]))
                == if children[i].Is(EId.Stop) then R.Appended(b, g, T.StopKind(StopOf(children[i]))) else b)
  {
    StopsFit(a, g, children[..i]);
    StopsFit(a, g, children[..i + 1]);
    var ks := StopKinds(children[..i]);
    StopKindsSnoc(children, i);
    if children[i].Is(EId.Stop) {
      AppendedAllSnoc(a, g, ks, T.StopKind(StopOf(children[i])));
    } else {
      assert StopKinds(children[..i + 1]) == ks;
    }
  }

  lemma StopKindsSnoc(children: seq<Node>, i: nat)
    requires i < |children|
    ensures StopKinds(children[..i + 1])
            == StopKinds(children[..i]) + (if children[i].Is(EId.Stop) then [T.StopKind(StopOf(children[i]))] else [])
  {
    assert children[..i + 1][..i] == children[..i];
  }

  /** `convert_stops`: the loop over the children of the gradient element. */
  method ConvertStops(t: R.Tree, children: seq<Node>, g: R.NodeId)
    requires R.Sound(t.State()) && g < |t.kinds| && R.IsGradientKind(t.kinds[g])
    modifies t
    ensures (StopsFit(old(t.State()), g, children);
             t.State() == R.AppendedAll(old(t.State()), g, StopKinds(children)))
  {
    ghost var a := t.State();
    StopsFit(a, g, children[..0]);
    for i := 0 to |children|
      invariant (StopsFit(a, g, children[..i]); t.State() == R.AppendedAll(a, g, StopKinds(children[..i])))
    {
      var s := children[i];
      StopStep(a, g, children, i);
      if s.Is(EId.Stop) {
        var _ := t.AppendChild(g, T.StopKind(StopOf(s)));
      }
    }
    assert children[..|children|] == children;
  }

  /** `convert_linear` on the tree in place; returns the gradient's id. */
  method ConvertLinear(t: R.Tree, n: Node) returns (g: R.NodeId)
    requires R.Sound(t.State())
    modifies t
    ensures g == old(|t.kinds|) && t.State() == ConvertedLinear(old(t.State()), n)
  {
    ghost var a := t.State();
    var kind := T.LinearGradientKind(LinearOf(n));
    R.AppendedSound(a, R.DefsOf(a), kind);
    g := t.AppendToDefs(kind);
    ConvertStops(t, n.children, g);
  }

  /** `convert_radial` on the tree in place; returns the gradient's id. */
  method ConvertRadial(t: R.Tree, n: Node) returns (g: R.NodeId)
    requires R.Sound(t.State())
    modifies t
    ensures g == old(|t.kinds|) && t.State() == ConvertedRadial(old(t.State()), n)
  {
    ghost var a := t.State();
    var kind := T.RadialGradientKind(RadialOf(n));
    R.AppendedSound(a, R.DefsOf(a), kind);
    g := t.AppendToDefs(kind);
    ConvertStops(t, n.children, g);
  }
}
