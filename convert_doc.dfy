/**
 * `convert_doc`, `convert_ref_nodes` and `convert_nodes`: the preprocessed
 * svgdom document becomes a render tree. The referenced children of `defs`
 * are converted first, into `Defs`; the content of clip paths, masks and
 * patterns is converted once every definition exists, and a container left
 * without children is detached. Then the children of the `svg` element are
 * converted under the root, and a group whose clip path or mask does not
 * resolve in `Defs` is dropped with its whole subtree.
 */
module Convert {
  import opened Wrappers
  import opened SvgTypes
  import opened Dom
  import opened Traits
  import Geom
  import T = TreeNode
  import R = RenderTree
  import CB = ConvertBase
  import Shapes
  import PathConv
  import GradientConv
  import ClipPathConv
  import MaskConv
  import ImageConv

  // ---- convert_nodes ----

  /** The id of the element a FuncLink points at, when that element is of `tag`. */
  function LinkedId(doc: Node, v: AValue, tag: EId): (r: Option<string>)
    ensures r.Some? <==> v.FuncLink? && TargetTag(doc, v.target) == Some(tag)
    ensures r.Some? ==> r.value == Find([doc], v.target).value.id
  {
    if v.FuncLink? && TargetTag(doc, v.target) == Some(tag) then Some(Find([doc], v.target).value.id)
    else Option.None
  }

  /** A group's `clip-path` or `mask` resolves: a FuncLink to an element of `tag` whose id names a child of `Defs`. */
  predicate LinkResolves(a: R.Arena, doc: Node, v: AValue, tag: EId)
    requires R.WellFormed(a)
  {
    LinkedId(doc, v, tag).Some? && R.DefsById(a, LinkedId(doc, v, tag).value).Some?
  }

  /**
   * The `clip-path` or `mask` of a group: `Some(None)` when the attribute is
   * missing, `Some(Some(id))` when it resolves, and None when the group has
   * to be skipped.
   */
  function GroupLink(a: R.Arena, doc: Node, n: Node, aid: AId, tag: EId): (r: Option<Option<string>>)
    requires R.WellFormed(a)
    ensures aid !in n.attrs ==> r == Some(Option.None)
    ensures aid in n.attrs ==> (r.Some? <==> LinkResolves(a, doc, n.attrs[aid], tag))
    ensures aid in n.attrs && r.Some? ==> r.value == LinkedId(doc, n.attrs[aid], tag)
  {
    if aid !in n.attrs then Some(Option.None)
    else
      match LinkedId(doc, n.attrs[aid], tag)
      case None => Option.None
      case Some(id) =>
        match R.DefsById(a, id)
        case Some(j) => Some(Some(a.kinds[j].Id()))
        case None => Option.None
  }

  /** The elements `convert_nodes` passes over: referenced ones, and the tags it skips or does not support. */
  predicate Passed(n: Node)
  {
    !n.kind.Element? || IsReferenced(n.kind.eid)
    || !(n.Is(EId.G) || Shapes.IsBasicShape(n) || n.Is(EId.Path) || n.Is(EId.Text) || n.Is(EId.Image))
  }

  /** The leaves: a shape or `path` becomes a path, a `text` a text, an `image` an image. */
  function ConvertedLeaf(a: R.Arena, doc: Node, n: Node, p: R.NodeId, env: CB.Env): (r: R.Arena)
    requires R.Sound(a) && p < |a.kinds|
    ensures R.Sound(r) && R.Below(a, r, p) && R.NoNewDefinitions(a, r)
  {
    if Shapes.IsBasicShape(n) then
      match Shapes.Convert(n)
      case Some(d) => PathConv.Converted(a, doc, n, d, p, env.arc)
      case None => R.BelowRefl(a, p); a
    else if n.Is(EId.Path) then
      match GetPath(n, AId.D)
      case Some(d) => PathConv.Converted(a, doc, n, d, p, env.arc)
      case None => R.BelowRefl(a, p); a
    else if n.Is(EId.Text) then
      CB.TextConverted(a, n, p, env)
    else if n.Is(EId.Image) then
      ImageConv.Converted(a, n, p, env)
    else
      R.BelowRefl(a, p);
      a
  }

  /** The `Group` node of a `g` whose links resolved. */
  function GroupOf(n: Node, clip: Option<string>, mask: Option<string>): T.Group
  {
    T.Group(n.id, CB.TransformOr(n, AId.Transform), GetNumber(n, AId.Opacity), clip, mask)
  }

  /** A `g`: skipped when a link does not resolve, otherwise a group with the converted children. */
  function ConvertedGroup(a: R.Arena, doc: Node, n: Node, p: R.NodeId, env: CB.Env): (r: R.Arena)
    requires R.Sound(a) && p < |a.kinds|
    ensures R.Sound(r) && R.Below(a, r, p) && R.NoNewDefinitions(a, r)
    decreases n, 1
  {
    GroupWith(a, doc, n, p, env, GroupLink(a, doc, n, AId.ClipPath, EId.ClipPath), GroupLink(a, doc, n, AId.Mask, EId.Mask))
  }

  /**
   * The group branch once its clip path and mask links are looked up: the
   * tree unchanged when either does not resolve, otherwise a group node
   * appended as the last child of `p`, with the converted children below it.
   */
  function GroupWith(a: R.Arena, doc: Node, n: Node, p: R.NodeId, env: CB.Env,
                     clip: Option<Option<string>>, mask: Option<Option<string>>): (r: R.Arena)
    requires R.Sound(a) && p < |a.kinds|
    ensures R.Sound(r) && R.Below(a, r, p) && R.NoNewDefinitions(a, r)
    ensures clip.None? || mask.None? ==> r == a
    ensures clip.Some? && mask.Some? ==>
              |r.kinds| > |a.kinds| && r.kinds[|a.kinds|] == T.GroupKind(GroupOf(n, clip.value, mask.value))
              && r.parent[|a.kinds|] == Some(p) && r.kids[p] == a.kids[p] + [|a.kinds|]
    decreases n, 0
  {
    if clip.None? || mask.None? then
      R.BelowRefl(a, p);
      a
    else
      var k := T.GroupKind(GroupOf(n, clip.value, mask.value));
      R.AppendedSound(a, p, k);
      R.AppendedBelow(a, p, k);
      var a1 := R.Appended(a, p, k);
      var r := ConvertedNodes(a1, doc, n.children, |a.kinds|, env);
      R.BelowNested(a, a1, r, p, |a.kinds|);
      R.NoNewDefinitionsTrans(a, a1, r, p, |a.kinds|);
      AppendedThenBelow(a, p, k, r);
      r
  }

  /** One child of `convert_nodes`'s loop. */
  function ConvertedNode(a: R.Arena, doc: Node, n: Node, p: R.NodeId, env: CB.Env): (r: R.Arena)
    requires R.Sound(a) && p < |a.kinds|
    ensures R.Sound(r) && R.Below(a, r, p) && R.NoNewDefinitions(a, r)
    decreases n, 2
  {
    if Passed(n) then
      R.BelowRefl(a, p);
      a
    else if n.Is(EId.G) then ConvertedGroup(a, doc, n, p, env)
    else ConvertedLeaf(a, doc, n, p, env)
  }

  /** `convert_nodes(parent, p)`: the children of `parent`, in order, each under `p`. */
  function ConvertedNodes(a: R.Arena, doc: Node, ns: seq<Node>, p: R.NodeId, env: CB.Env): (r: R.Arena)
    requires R.Sound(a) && p < |a.kinds|
    ensures R.Sound(r) && R.Below(a, r, p) && R.NoNewDefinitions(a, r)
    decreases ns, 0
  {
    if ns == [] then
      R.BelowRefl(a, p);
      a
    else
      var b := ConvertedNode(a, doc, ns[0], p, env);
      var r := ConvertedNodes(b, doc, ns[1..], p, env);
      R.BelowTrans(a, b, r, p);
      R.NoNewDefinitionsTrans(a, b, r, p, p);
      r
  }

  // ---- convert_ref_nodes ----

  /** A definition whose content is converted once every definition exists: the element and its node. */
  datatype Later = Later(node: Node, id: R.NodeId)

  /** The element of a later entry is a clip path, mask or pattern, and its node is a container. */
  predicate LaterOk(kinds: seq<T.NodeKind>, l: Later)
  {
    2 <= l.id < |kinds| && R.IsContainer(kinds[l.id])
    && (l.node.Is(EId.ClipPath) || l.node.Is(EId.Mask) || l.node.Is(EId.Pattern))
  }

  predicate AllLaterOk(kinds: seq<T.NodeKind>, ls: seq<Later>)
  {
    forall i :: 0 <= i < |ls| ==> LaterOk(kinds, ls[i])
  }

  lemma AllLaterOkGrown(kinds: seq<T.NodeKind>, more: seq<T.NodeKind>, ls: seq<Later>)
    requires AllLaterOk(kinds, ls) && kinds <= more
    ensures AllLaterOk(more, ls)
  {
    forall i | 0 <= i < |ls|
      ensures LaterOk(more, ls[i])
    {
      assert more[ls[i].id] == kinds[ls[i].id];
    }
  }

  function LaterIds(ls: seq<Later>): (r: set<R.NodeId>)
    ensures forall i :: 0 <= i < |ls| ==> ls[i].id in r
  {
    if ls == [] then {} else {ls[0].id} + LaterIds(ls[1..])
  }

  lemma {:induction false} LaterIdsAppend(l1: seq<Later>, l2: seq<Later>)
    ensures LaterIds(l1 + l2) == LaterIds(l1) + LaterIds(l2)
  {
    if l1 != [] {
      assert (l1 + l2)[1..] == l1[1..] + l2;
      LaterIdsAppend(l1[1..], l2);
    } else {
      assert l1 + l2 == l2;
    }
  }

  /** Every container made between `a` and `r` has its later entry among `ids`. */
  predicate NewContainersIn(a: R.Arena, r: R.Arena, ids: set<R.NodeId>)
  {
    forall j :: |a.kinds| <= j < |r.kinds| && R.IsContainer(r.kinds[j]) ==> j in ids
  }

  /** A gradient with its stops: no container among them. */
  function RefGradient(a: R.Arena, n: Node): (r: R.Arena)
    requires R.Sound(a) && (n.Is(EId.LinearGradient) || n.Is(EId.RadialGradient))
    ensures R.Sound(r) && R.Below(a, r, R.DefsOf(a)) && NewContainersIn(a, r, {})
  {
    var gk := if n.Is(EId.LinearGradient) then T.LinearGradientKind(GradientConv.LinearOf(n))
              else T.RadialGradientKind(GradientConv.RadialOf(n));
    var r := GradientConv.ConvertedGradient(a, gk, n.children);
    NoContainersAppended(a.kinds, gk, GradientConv.StopKinds(n.children), r.kinds);
    r
  }

  lemma NoContainersAppended(before: seq<T.NodeKind>, gk: T.NodeKind, ks: seq<T.NodeKind>, all: seq<T.NodeKind>)
    requires all == before + [gk] + ks && R.IsGradientKind(gk) && forall i :: 0 <= i < |ks| ==> ks[i].StopKind?
    ensures forall j :: |before| <= j < |all| ==> !R.IsContainer(all[j])
  {
    forall j | |before| < j < |all|
      ensures !R.IsContainer(all[j])
    {
      assert all[j] == ks[j - |before| - 1];
    }
  }

  /** A clip path, or a pattern, appended to `Defs` with its later entry. */
  function RefContainer(a: R.Arena, n: Node, k: T.NodeKind): (r: (R.Arena, seq<Later>))
    requires R.Sound(a) && R.IsContainer(k) && !k.MaskKind?
    requires n.Is(EId.ClipPath) || n.Is(EId.Pattern)
    ensures R.Sound(r.0) && R.Below(a, r.0, R.DefsOf(a)) && AllLaterOk(r.0.kinds, r.1)
    ensures NewContainersIn(a, r.0, LaterIds(r.1))
  {
    var defs := R.DefsOf(a);
    R.AppendedSound(a, defs, k);
    R.AppendedBelow(a, defs, k);
    var id: R.NodeId := |a.kinds|;
    (R.Appended(a, defs, k), [Later(n, id)])
  }

  /** A mask, appended when its size is positive, with its later entry. */
  function RefMask(a: R.Arena, n: Node): (r: (R.Arena, seq<Later>))
    requires R.Sound(a) && n.Is(EId.Mask)
    ensures R.Sound(r.0) && R.Below(a, r.0, R.DefsOf(a)) && AllLaterOk(r.0.kinds, r.1)
    ensures NewContainersIn(a, r.0, LaterIds(r.1))
  {
    var (b, m) := MaskConv.Converted(a, n);
    if m.Some? then (b, [Later(n, m.value)]) else (b, [])
  }

  /** One child of `defs`: its node in `Defs`, and the later entry when it is a container. */
  function ConvertedRefNode(a: R.Arena, doc: Node, n: Node, env: CB.Env): (r: (R.Arena, seq<Later>))
    requires R.Sound(a)
    ensures R.Sound(r.0) && R.Below(a, r.0, R.DefsOf(a)) && AllLaterOk(r.0.kinds, r.1)
    ensures NewContainersIn(a, r.0, LaterIds(r.1))
  {
    if !n.kind.Element? || !IsReferenced(n.kind.eid) then
      R.BelowRefl(a, R.DefsOf(a));
      (a, [])
    else if n.Is(EId.LinearGradient) || n.Is(EId.RadialGradient) then
      (RefGradient(a, n), [])
    else if n.Is(EId.ClipPath) then
      RefContainer(a, n, T.ClipPathKind(ClipPathConv.ClipOf(n)))
    else if n.Is(EId.Mask) then
      RefMask(a, n)
    else if n.Is(EId.Pattern) && env.pattern(n).Some? then
      RefContainer(a, n, T.PatternKind(env.pattern(n).value))
    else
      R.BelowRefl(a, R.DefsOf(a));
      (a, [])
  }

  /** The loop of `convert_ref_nodes` over the children of `defs`, collecting the later entries in order. */
  function ConvertedRefNodes(a: R.Arena, doc: Node, ns: seq<Node>, env: CB.Env): (r: (R.Arena, seq<Later>))
    requires R.Sound(a)
    ensures R.Sound(r.0) && R.Below(a, r.0, R.DefsOf(a)) && AllLaterOk(r.0.kinds, r.1)
    decreases |ns|
  {
    if ns == [] then
      R.BelowRefl(a, R.DefsOf(a));
      (a, [])
    else
      var (b, l1) := ConvertedRefNode(a, doc, ns[0], env);
      var (c, l2) := ConvertedRefNodes(b, doc, ns[1..], env);
      R.BelowDefs(a, b, R.DefsOf(a));
      R.BelowTrans(a, b, c, R.DefsOf(a));
      AllLaterOkGrown(b.kinds, c.kinds, l1);
      (c, l1 + l2)
  }

  /**
   * The second loop for one entry: the content of the clip path, or of the
   * mask or pattern, under its node, which is detached when it got no child.
   */
  function ConvertedLater(a: R.Arena, doc: Node, l: Later, env: CB.Env): (r: R.Arena)
    requires R.Sound(a) && LaterOk(a.kinds, l)
    ensures R.Sound(r) && a.kinds <= r.kinds
  {
    var b := LaterContent(a, doc, l, env);
    if b.kids[l.id] == [] then
      R.DetachedSound(b, l.id);
      R.Detached(b, l.id)
    else b
  }

  /** The content of a later entry, converted under its node: nothing outside that node changes and no definition is added. */
  function LaterContent(a: R.Arena, doc: Node, l: Later, env: CB.Env): (r: R.Arena)
    requires R.Sound(a) && LaterOk(a.kinds, l)
    ensures R.Sound(r) && R.Below(a, r, l.id) && R.NoNewDefinitions(a, r)
  {
    if l.node.Is(EId.ClipPath) then ClipPathConv.ConvertedChildren(a, doc, l.node.children, l.id, env)
    else ConvertedNodes(a, doc, l.node.children, l.id, env)
  }

  /** The second loop of `convert_ref_nodes`, over the later entries in order. */
  function ConvertedLaters(a: R.Arena, doc: Node, ls: seq<Later>, env: CB.Env): (r: R.Arena)
    requires R.Sound(a) && AllLaterOk(a.kinds, ls)
    ensures R.Sound(r) && a.kinds <= r.kinds
    decreases |ls|
  {
    if ls == [] then a
    else
      var b := ConvertedLater(a, doc, ls[0], env);
      AllLaterOkGrown(a.kinds, b.kinds, ls[1..]);
      ConvertedLaters(b, doc, ls[1..], env)
  }

  /** `convert_ref_nodes`: nothing when the document has no `defs` as the `svg` element's first child. */
  function ConvertedRefs(a: R.Arena, doc: Node, env: CB.Env): (r: R.Arena)
    requires R.Sound(a)
    ensures R.Sound(r)
  {
    match DefsElement(doc)
    case None => a
    case Some(defs) =>
      var (b, ls) := ConvertedRefNodes(a, doc, defs.children, env);
      ConvertedLaters(b, doc, ls, env)
  }

  // ---- convert_doc ----

  /** The tree made when the document has no `svg` element: 100 by 100, default aspect. */
  const EmptySvg: T.Svg := T.Svg(Geom.Size(100.0, 100.0), T.ViewBox(Geom.Rect(0.0, 0.0, 100.0, 100.0), CB.DefaultAspect))

  /** The root's data: the image size and the view box of the `svg` element. */
  function SvgOf(svg: Node): T.Svg
  {
    var size := CB.ImgSize(svg);
    T.Svg(size, T.ViewBox(CB.ViewBoxRect(svg, size), CB.ConvertAspect(svg)))
  }

  /** `convert_doc`. */
  function ConvertedDoc(doc: Node, env: CB.Env): (r: R.Arena)
    ensures R.Sound(r)
  {
    match SvgElement(doc)
    case None =>
      R.CreatedSound(EmptySvg);
      R.Created(EmptySvg)
    case Some(svg) =>
      var a := R.Created(SvgOf(svg));
      R.CreatedSound(SvgOf(svg));
      var b := ConvertedRefs(a, doc, env);
      ConvertedNodes(b, doc, svg.children, R.RootId, env)
  }

  // ---- no container is left empty ----

  /** Every attached container past the first two nodes that has no child is in `s`. */
  predicate Settled(a: R.Arena, s: set<R.NodeId>)
    requires R.WellFormed(a)
  {
    forall j :: 2 <= j < |a.kinds| && a.parent[j].Some? && R.IsContainer(a.kinds[j]) && a.kids[j] == [] ==> j in s
  }

  /** Every clip path, mask and pattern in the tree has at least one child. */
  predicate NoEmptyContainers(a: R.Arena)
    requires R.WellFormed(a)
  {
    Settled(a, {})
  }

  lemma SettledMore(a: R.Arena, s: set<R.NodeId>, t: set<R.NodeId>)
    requires R.WellFormed(a) && Settled(a, s) && s <= t
    ensures Settled(a, t)
  {
  }

  /**
   * Changes under `p` can leave only `p` and the new containers empty:
   * every other old node keeps its kind, its parent and its children.
   */
  lemma SettledBelow(a: R.Arena, r: R.Arena, p: R.NodeId, s: set<R.NodeId>)
    requires R.WellFormed(a) && R.WellFormed(r) && R.Below(a, r, p) && Settled(a, s)
    requires forall j :: |a.kinds| <= j < |r.kinds| && R.IsContainer(r.kinds[j]) ==> j in s
    ensures Settled(r, s + {p})
  {
    forall j | 2 <= j < |r.kinds| && r.parent[j].Some? && R.IsContainer(r.kinds[j]) && r.kids[j] == []
      ensures j in s + {p}
    {
      if j < |a.kinds| && j != p {
        assert a.kinds[j] == r.kinds[j] && a.parent[j] == r.parent[j] && a.kids[j] == r.kids[j];
      }
    }
  }

  /** A node that is not a container is never counted. */
  lemma SettledDrop(a: R.Arena, s: set<R.NodeId>, p: R.NodeId)
    requires R.WellFormed(a) && Settled(a, s + {p}) && p < |a.kinds| && !R.IsContainer(a.kinds[p])
    ensures Settled(a, s)
  {
  }

  /** The same, for a change that makes no definition at all. */
  lemma SettledBelowNoNew(a: R.Arena, r: R.Arena, p: R.NodeId, s: set<R.NodeId>)
    requires R.WellFormed(a) && R.WellFormed(r) && R.Below(a, r, p) && R.NoNewDefinitions(a, r) && Settled(a, s)
    ensures Settled(r, s + {p})
  {
    SettledBelow(a, r, p, s);
  }

  /** After one child of `defs`, the empty containers are the old ones and those of the new later entries. */
  lemma RefNodeSettles(a: R.Arena, doc: Node, n: Node, env: CB.Env, s: set<R.NodeId>)
    requires R.Sound(a) && Settled(a, s)
    ensures var r := ConvertedRefNode(a, doc, n, env);
            Settled(r.0, s + LaterIds(r.1))
  {
    var r := ConvertedRefNode(a, doc, n, env);
    var t := s + LaterIds(r.1);
    SettledMore(a, s, t);
    SettledBelow(a, r.0, R.DefsOf(a), t);
    SettledDrop(r.0, t, R.DefsOf(a));
  }

  lemma {:induction false} RefNodesSettle(a: R.Arena, doc: Node, ns: seq<Node>, env: CB.Env, s: set<R.NodeId>)
    requires R.Sound(a) && Settled(a, s)
    ensures var r := ConvertedRefNodes(a, doc, ns, env);
            Settled(r.0, s + LaterIds(r.1))
    decreases |ns|
  {
    if ns != [] {
      var (b, l1) := ConvertedRefNode(a, doc, ns[0], env);
      RefNodeSettles(a, doc, ns[0], env, s);
      RefNodesSettle(b, doc, ns[1..], env, s + LaterIds(l1));
      var (c, l2) := ConvertedRefNodes(b, doc, ns[1..], env);
      LaterIdsAppend(l1, l2);
      assert s + LaterIds(l1) + LaterIds(l2) == s + LaterIds(l1 + l2);
    }
  }

  /** After its entry, a container is either detached or has a child; nothing else can become empty. */
  lemma LaterSettles(a: R.Arena, doc: Node, l: Later, env: CB.Env, s: set<R.NodeId>)
    requires R.Sound(a) && LaterOk(a.kinds, l) && Settled(a, s)
    ensures Settled(ConvertedLater(a, doc, l, env), s - {l.id})
  {
    var b := LaterContent(a, doc, l, env);
    SettledBelowNoNew(a, b, l.id, s);
    if b.kids[l.id] == [] {
      DetachedSettles(b, l.id, s + {l.id});
      assert (s + {l.id}) - {l.id} == s - {l.id};
    } else {
      SettledFilled(b, s + {l.id}, l.id);
    }
  }

  /** A container that got a child no longer needs to be in the set. */
  lemma SettledFilled(b: R.Arena, t: set<R.NodeId>, j: R.NodeId)
    requires R.WellFormed(b) && j < |b.kinds| && b.kids[j] != [] && Settled(b, t)
    ensures Settled(b, t - {j})
  {
  }

  /** Detaching a container, which sits in `Defs`, only changes the children of `Defs`. */
  lemma DetachedSettles(b: R.Arena, j: R.NodeId, t: set<R.NodeId>)
    requires R.Sound(b) && 2 <= j < |b.kinds| && R.IsContainer(b.kinds[j]) && Settled(b, t)
    ensures Settled(R.Detached(b, j), t - {j})
  {
    var r := R.Detached(b, j);
    if b.parent[j].Some? {
      var q := b.parent[j].value;
      assert R.Fits(b, q, b.kinds[j]);
      forall i | 2 <= i < |r.kinds| && r.parent[i].Some? && R.IsContainer(r.kinds[i]) && r.kids[i] == []
        ensures i in t - {j}
      {
        assert i != q;
        assert r.kids[i] == b.kids[i];
      }
    }
  }

  lemma {:induction false} LatersSettle(a: R.Arena, doc: Node, ls: seq<Later>, env: CB.Env, s: set<R.NodeId>)
    requires R.Sound(a) && AllLaterOk(a.kinds, ls) && Settled(a, s + LaterIds(ls))
    ensures Settled(ConvertedLaters(a, doc, ls, env), s)
    decreases |ls|
  {
    if ls == [] {
      assert s + LaterIds(ls) == s;
    } else {
      var l := ls[0];
      LaterSettles(a, doc, l, env, s + LaterIds(ls));
      var b := ConvertedLater(a, doc, l, env);
      AllLaterOkGrown(a.kinds, b.kinds, ls[1..]);
      SettledMore(b, (s + LaterIds(ls)) - {l.id}, s + LaterIds(ls[1..]));
      LatersSettle(b, doc, ls[1..], env, s);
    }
  }

  /** `convert_ref_nodes` leaves no empty container behind. */
  lemma RefsSettle(a: R.Arena, doc: Node, env: CB.Env)
    requires R.Sound(a) && NoEmptyContainers(a)
    ensures NoEmptyContainers(ConvertedRefs(a, doc, env))
  {
    if DefsElement(doc).Some? {
      var defs := DefsElement(doc).value;
      RefNodesSettle(a, doc, defs.children, env, {});
      var (b, ls) := ConvertedRefNodes(a, doc, defs.children, env);
      assert {} + LaterIds(ls) == LaterIds(ls);
      LatersSettle(b, doc, ls, env, {});
    }
  }

  /**
   * The converted tree is sound, and in it every clip path, mask and
   * pattern that is still attached has at least one child.
   */
  lemma ConvertedDocSettled(doc: Node, env: CB.Env)
    ensures NoEmptyContainers(ConvertedDoc(doc, env))
  {
    if SvgElement(doc).Some? {
      var svg := SvgElement(doc).value;
      var a := R.Created(SvgOf(svg));
      R.CreatedSound(SvgOf(svg));
      RefsSettle(a, doc, env);
      var b := ConvertedRefs(a, doc, env);
      var r := ConvertedNodes(b, doc, svg.children, R.RootId, env);
      SettledBelowNoNew(b, r, R.RootId, {});
      SettledDrop(r, {}, R.RootId);
    }
  }

  // ---- what the conversion keeps and drops ----

  /** A `g` whose `clip-path` or `mask` is present but does not resolve is dropped with everything in it. */
  lemma GroupDropped(a: R.Arena, doc: Node, n: Node, p: R.NodeId, env: CB.Env)
    requires R.Sound(a) && p < |a.kinds| && n.Is(EId.G)
    requires (AId.ClipPath in n.attrs && !LinkResolves(a, doc, n.attrs[AId.ClipPath], EId.ClipPath))
             || (AId.Mask in n.attrs && !LinkResolves(a, doc, n.attrs[AId.Mask], EId.Mask))
    ensures ConvertedNode(a, doc, n, p, env) == a
  {
  }

  /**
   * A `g` whose links resolve, or are missing, becomes a group node that is
   * the last child of `p`, carrying the ids of the clip path and mask it
   * links to (`GroupLink`); its content goes below it.
   */
  lemma GroupKept(a: R.Arena, doc: Node, n: Node, p: R.NodeId, env: CB.Env)
    requires R.Sound(a) && p < |a.kinds| && n.Is(EId.G)
    requires GroupLink(a, doc, n, AId.ClipPath, EId.ClipPath).Some? && GroupLink(a, doc, n, AId.Mask, EId.Mask).Some?
    ensures var r := ConvertedNode(a, doc, n, p, env);
            var clip := GroupLink(a, doc, n, AId.ClipPath, EId.ClipPath).value;
            var mask := GroupLink(a, doc, n, AId.Mask, EId.Mask).value;
            |r.kinds| > |a.kinds| && r.kinds[|a.kinds|] == T.GroupKind(GroupOf(n, clip, mask))
            && r.parent[|a.kinds|] == Some(p) && r.kids[p] == a.kids[p] + [|a.kinds|]
  {
    assert !Passed(n);
  }

  /** A node appended under `p`, and then only changes below it, stays where it was put. */
  lemma AppendedThenBelow(a: R.Arena, p: R.NodeId, k: T.NodeKind, r: R.Arena)
    requires R.WellFormed(a) && p < |a.kinds| && R.Below(R.Appended(a, p, k), r, |a.kinds|)
    ensures |r.kinds| > |a.kinds| && r.kinds[|a.kinds|] == k
    ensures r.parent[|a.kinds|] == Some(p) && r.kids[p] == a.kids[p] + [|a.kinds|]
  {
    var a1 := R.Appended(a, p, k);
    assert r.kids[p] == a1.kids[p];
    assert r.kinds[|a.kinds|] == a1.kinds[|a.kinds|];
  }

  /** Referenced elements outside `defs`, and the tags that are skipped or unsupported, add nothing. */
  lemma PassedUnchanged(a: R.Arena, doc: Node, ns: seq<Node>, p: R.NodeId, env: CB.Env)
    requires R.Sound(a) && p < |a.kinds| && forall i :: 0 <= i < |ns| ==> Passed(ns[i])
    ensures ConvertedNodes(a, doc, ns, p, env) == a
    decreases |ns|
  {
    if ns != [] {
      PassedUnchanged(a, doc, ns[1..], p, env);
    }
  }

  /** A child of `defs` that nothing references adds nothing and no later entry. */
  lemma UnreferencedDefsChild(a: R.Arena, doc: Node, n: Node, env: CB.Env)
    requires R.Sound(a) && n.kind.Element? && !IsReferenced(n.kind.eid)
    ensures ConvertedRefNode(a, doc, n, env) == (a, [])
  {
  }

  /** Without an `svg` element the tree is the empty 100 by 100 one. */
  lemma NoSvgElement(doc: Node, env: CB.Env)
    requires SvgElement(doc).None?
    ensures ConvertedDoc(doc, env) == R.Created(EmptySvg)
  {
  }

  /** With one, the root carries its size and view box, and everything else was added after `Defs`. */
  lemma ConvertedDocRoot(doc: Node, env: CB.Env)
    requires SvgElement(doc).Some?
    ensures var r := ConvertedDoc(doc, env);
            R.SvgOf(r) == SvgOf(SvgElement(doc).value) && R.DefsOf(r) == 1
  {
    var svg := SvgElement(doc).value;
    var a := R.Created(SvgOf(svg));
    R.CreatedSound(SvgOf(svg));
    var b := ConvertedRefs(a, doc, env);
    RefsKeepRoot(a, doc, env);
    var r := ConvertedNodes(b, doc, svg.children, R.RootId, env);
    R.BelowDefs(b, r, R.RootId);
  }

  lemma RefsKeepRoot(a: R.Arena, doc: Node, env: CB.Env)
    requires R.Sound(a)
    ensures var r := ConvertedRefs(a, doc, env);
            r.kinds[0] == a.kinds[0] && R.DefsOf(r) == R.DefsOf(a)
  {
    if DefsElement(doc).Some? {
      var (b, ls) := ConvertedRefNodes(a, doc, DefsElement(doc).value.children, env);
      R.BelowDefs(a, b, R.DefsOf(a));
      LatersKeepDefs(b, doc, ls, env);
    }
  }

  lemma {:induction false} LatersKeepDefs(a: R.Arena, doc: Node, ls: seq<Later>, env: CB.Env)
    requires R.Sound(a) && AllLaterOk(a.kinds, ls)
    ensures R.DefsOf(ConvertedLaters(a, doc, ls, env)) == R.DefsOf(a)
    decreases |ls|
  {
    if ls != [] {
      var l := ls[0];
      var b := if l.node.Is(EId.ClipPath) then ClipPathConv.ConvertedChildren(a, doc, l.node.children, l.id, env)
               else ConvertedNodes(a, doc, l.node.children, l.id, env);
      R.BelowDefs(a, b, l.id);
      var c := ConvertedLater(a, doc, l, env);
      AllLaterOkGrown(a.kinds, c.kinds, ls[1..]);
      LatersKeepDefs(c, doc, ls[1..], env);
    }
  }

  // ---- the conversion on the tree in place ----

  /** The link check of a group, with the lookup in `Defs` done by `defs_by_svg_id`. */
  method ResolveLink(t: R.Tree, doc: Node, n: Node, aid: AId, tag: EId) returns (r: Option<Option<string>>)
    requires R.WellFormed(t.State())
    ensures r == GroupLink(t.State(), doc, n, aid, tag)
  {
    ghost var a := t.State();
    if aid !in n.attrs {
      return Some(Option.None);
    }
    var id := LinkedId(doc, n.attrs[aid], tag);
    if id.None? {
      return Option.None;
    }
    var found := t.DefsBySvgId(id.value);
    assert found == R.DefsById(a, id.value);
    if found.None? {
      return Option.None;
    }
    r := Some(Some(t.kinds[found.value].Id()));
    assert r == GroupLink(a, doc, n, aid, tag);
  }

  /** A leaf of `convert_nodes`. */
  method ConvertLeaf(t: R.Tree, doc: Node, n: Node, p: R.NodeId, env: CB.Env)
    requires R.Sound(t.State()) && p < |t.kinds|
    modifies t
    ensures t.State() == ConvertedLeaf(old(t.State()), doc, n, p, env)
  {
    if Shapes.IsBasicShape(n) {
      var d := Shapes.Convert(n);
      if d.Some? {
        PathConv.Convert(t, doc, n, d.value, p, env.arc);
      }
    } else if n.Is(EId.Path) {
      var d := GetPath(n, AId.D);
      if d.Some? {
        PathConv.Convert(t, doc, n, d.value, p, env.arc);
      }
    } else if n.Is(EId.Text) {
      CB.ConvertText(t, n, p, env);
    } else if n.Is(EId.Image) {
      ImageConv.Convert(t, n, p, env);
    }
  }

  /** The `g` branch of `convert_nodes`. */
  method ConvertGroup(t: R.Tree, doc: Node, n: Node, p: R.NodeId, env: CB.Env)
    requires R.Sound(t.State()) && p < |t.kinds|
    modifies t
    ensures t.State() == ConvertedGroup(old(t.State()), doc, n, p, env)
    decreases n, 1
  {
    ghost var a := t.State();
    var clip := ResolveLink(t, doc, n, AId.ClipPath, EId.ClipPath);
    if clip.None? {
      return;
    }
    var mask := ResolveLink(t, doc, n, AId.Mask, EId.Mask);
    if mask.None? {
      return;
    }
    var k := T.GroupKind(GroupOf(n, clip.value, mask.value));
    R.AppendedSound(a, p, k);
    var g := t.AppendChild(p, k);
    ConvertNodes(t, doc, n, g, env);
  }

  /** One child of `convert_nodes`'s loop. */
  method ConvertNode(t: R.Tree, doc: Node, n: Node, p: R.NodeId, env: CB.Env)
    requires R.Sound(t.State()) && p < |t.kinds|
    modifies t
    ensures t.State() == ConvertedNode(old(t.State()), doc, n, p, env)
    decreases n, 2
  {
    if Passed(n) {
      return;
    }
    if n.Is(EId.G) {
      ConvertGroup(t, doc, n, p, env);
    } else {
      ConvertLeaf(t, doc, n, p, env);
    }
  }

  /** `convert_nodes`: the loop over the children of `parent`. */
  method ConvertNodes(t: R.Tree, doc: Node, parent: Node, p: R.NodeId, env: CB.Env)
    requires R.Sound(t.State()) && p < |t.kinds|
    modifies t
    ensures t.State() == ConvertedNodes(old(t.State()), doc, parent.children, p, env)
    decreases parent, 0
  {
    ghost var a := t.State();
    var ns := parent.children;
    for i := 0 to |ns|
      invariant R.Sound(t.State()) && p < |t.kinds|
      invariant ConvertedNodes(a, doc, ns, p, env) == ConvertedNodes(t.State(), doc, ns[i..], p, env)
    {
      assert ns[i..][1..] == ns[i + 1..];
      ConvertNode(t, doc, ns[i], p, env);
    }
  }

  /** One child of `defs` in the first loop of `convert_ref_nodes`; returns its later entries. */
  method ConvertRefNode(t: R.Tree, doc: Node, n: Node, env: CB.Env) returns (later: seq<Later>)
    requires R.Sound(t.State())
    modifies t
    ensures (t.State(), later) == ConvertedRefNode(old(t.State()), doc, n, env)
  {
    ghost var a := t.State();
    if !n.kind.Element? || !IsReferenced(n.kind.eid) {
      return [];
    }
    if n.Is(EId.LinearGradient) {
      var _ := GradientConv.ConvertLinear(t, n);
      return [];
    } else if n.Is(EId.RadialGradient) {
      var _ := GradientConv.ConvertRadial(t, n);
      return [];
    } else if n.Is(EId.ClipPath) {
      var id := ClipPathConv.Convert(t, n);
      return [Later(n, id)];
    } else if n.Is(EId.Mask) {
      var m := MaskConv.Convert(t, n);
      if m.Some? {
        return [Later(n, m.value)];
      }
      return [];
    } else if n.Is(EId.Pattern) {
      var pattern := env.pattern(n);
      if pattern.Some? {
        R.AppendedSound(a, R.DefsOf(a), T.PatternKind(pattern.value));
        var id := t.AppendToDefs(T.PatternKind(pattern.value));
        return [Later(n, id)];
      }
    }
    return [];
  }

  /** One later entry: convert its content, then detach the container if it got no child. */
  method ConvertLater(t: R.Tree, doc: Node, l: Later, env: CB.Env)
    requires R.Sound(t.State()) && LaterOk(t.kinds, l)
    modifies t
    ensures t.State() == ConvertedLater(old(t.State()), doc, l, env)
  {
    if l.node.Is(EId.ClipPath) {
      ClipPathConv.ConvertChildren(t, doc, l.node, l.id, env);
    } else {
      ConvertNodes(t, doc, l.node, l.id, env);
    }
    if t.kids[l.id] == [] {
      t.Detach(l.id);
    }
  }

  lemma RefNodesUnfold(a: R.Arena, doc: Node, ns: seq<Node>, i: nat, env: CB.Env)
    requires R.Sound(a) && i < |ns|
    ensures var (b, l1) := ConvertedRefNode(a, doc, ns[i], env);
            var (c, l2) := ConvertedRefNodes(b, doc, ns[i + 1..], env);
            ConvertedRefNodes(a, doc, ns[i..], env) == (c, l1 + l2)
  {
    assert ns[i..][1..] == ns[i + 1..];
  }

  /** The first loop of `convert_ref_nodes`, over the children `ns` of `defs`; returns the later entries. */
  method ConvertDefsChildren(t: R.Tree, doc: Node, ns: seq<Node>, env: CB.Env) returns (laters: seq<Later>)
    requires R.Sound(t.State())
    modifies t
    ensures (t.State(), laters) == ConvertedRefNodes(old(t.State()), doc, ns, env)
  {
    ghost var full := ConvertedRefNodes(t.State(), doc, ns, env);
    laters := [];
    assert ns[0..] == ns;
    for i := 0 to |ns|
      invariant R.Sound(t.State())
      invariant ConvertedRefNodes(t.State(), doc, ns[i..], env).0 == full.0
      invariant laters + ConvertedRefNodes(t.State(), doc, ns[i..], env).1 == full.1
    {
      ghost var before := t.State();
      RefNodesUnfold(before, doc, ns, i, env);
      var more := ConvertRefNode(t, doc, ns[i], env);
      ghost var rest := ConvertedRefNodes(t.State(), doc, ns[i + 1..], env).1;
      assert laters + (more + rest) == (laters + more) + rest;
      laters := laters + more;
    }
    assert ns[|ns|..] == [];
    assert laters + [] == laters;
  }

  /** The second loop of `convert_ref_nodes`, over the later entries. */
  method ConvertLaters(t: R.Tree, doc: Node, laters: seq<Later>, env: CB.Env)
    requires R.Sound(t.State()) && AllLaterOk(t.kinds, laters)
    modifies t
    ensures t.State() == ConvertedLaters(old(t.State()), doc, laters, env)
  {
    ghost var b := t.State();
    assert laters[0..] == laters;
    for i := 0 to |laters|
      invariant R.Sound(t.State()) && AllLaterOk(t.kinds, laters[i..])
      invariant ConvertedLaters(b, doc, laters, env) == ConvertedLaters(t.State(), doc, laters[i..], env)
    {
      LatersStep(t.State(), doc, laters, i, env);
      ConvertLater(t, doc, laters[i], env);
    }
  }

  /** One entry of the second loop, then the rest. */
  lemma LatersStep(a: R.Arena, doc: Node, ls: seq<Later>, i: nat, env: CB.Env)
    requires i < |ls| && R.Sound(a) && AllLaterOk(a.kinds, ls[i..])
    ensures LaterOk(a.kinds, ls[i])
    ensures AllLaterOk(ConvertedLater(a, doc, ls[i], env).kinds, ls[i + 1..])
    ensures ConvertedLaters(a, doc, ls[i..], env) == ConvertedLaters(ConvertedLater(a, doc, ls[i], env), doc, ls[i + 1..], env)
  {
    assert ls[i..][1..] == ls[i + 1..];
    assert ls[i..][0] == ls[i];
    AllLaterOkGrown(a.kinds, ConvertedLater(a, doc, ls[i], env).kinds, ls[i + 1..]);
  }

  /** `convert_ref_nodes`: both loops, or nothing when there is no `defs` element. */
  method ConvertRefNodes(t: R.Tree, doc: Node, env: CB.Env)
    requires R.Sound(t.State())
    modifies t
    ensures t.State() == ConvertedRefs(old(t.State()), doc, env)
  {
    var defs := DefsElement(doc);
    if defs.None? {
      return;
    }
    var laters := ConvertDefsChildren(t, doc, defs.value.children, env);
    ConvertLaters(t, doc, laters, env);
  }

  /** `convert_doc`: the new tree. */
  method ConvertDoc(doc: Node, env: CB.Env) returns (t: R.Tree)
    ensures t.State() == ConvertedDoc(doc, env)
  {
    var svg := SvgElement(doc);
    if svg.None? {
      t := new R.Tree.Create(EmptySvg);
      return;
    }
    t := new R.Tree.Create(SvgOf(svg.value));
    R.CreatedSound(SvgOf(svg.value));
    ConvertRefNodes(t, doc, env);
    ConvertNodes(t, doc, svg.value, R.RootId, env);
  }
}
