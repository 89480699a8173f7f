/**
 * `ungroup_groups`: a `g` that renders like its children standing in its
 * place is taken apart. A scan of the svg element's subtree picks such
 * groups; each one passes its presentation attributes down to its element
 * children, its children move up into its place, and the empty group is
 * removed. Scans are repeated until one picks nothing.
 */
module UngroupGroups {
  import opened Wrappers
  import opened SvgTypes
  import opened Dom

  // ---- the scan ----

  /** A `clip-path` or `mask` that is a `url(#...)` link. */
  predicate HasFuncLink(n: Node, a: AId)
  {
    a in n.attrs && n.attrs[a].FuncLink?
  }

  /**
   * The tests `_ungroup_groups` makes of one node. An empty `g` always goes.
   * A non-empty one stays when it is named and named groups are kept, when
   * it lies inside a clipPath and does not come from a `use`, when its
   * clip-path or mask is a link, or when it has an opacity and more than
   * one child. `inClip` says that the node's parent or one of its ancestors
   * is a clipPath.
   */
  predicate Selects(n: Node, inClip: bool, keepNamed: bool)
  {
    n.Is(EId.G)
    && (n.children == []
        || (!(keepNamed && n.id != "")
            && (inClip ==> n.Has(FromUse))
            && !HasFuncLink(n, AId.ClipPath)
            && !HasFuncLink(n, AId.Mask)
            && (n.Has(AId.Opacity) ==> |n.children| == 1)))
  }

  /** The groups the scan pushes, in push order: a node's subtree comes before the node. */
  function Selection(ns: seq<Node>, inClip: bool, keepNamed: bool): seq<UId>
  {
    if ns == [] then []
    else
      Selection(ns[0].children, inClip || ns[0].Is(EId.ClipPath), keepNamed)
      + (if Selects(ns[0], inClip, keepNamed) then [ns[0].uid] else [])
      + Selection(ns[1..], inClip, keepNamed)
  }

  lemma {:induction false} SelectionAppend(a: seq<Node>, b: seq<Node>, inClip: bool, keepNamed: bool)
    ensures Selection(a + b, inClip, keepNamed) == Selection(a, inClip, keepNamed) + Selection(b, inClip, keepNamed)
  {
    if a == [] {
      assert a + b == b;
    } else {
      assert (a + b)[0] == a[0];
      assert (a + b)[1..] == a[1..] + b;
      SelectionAppend(a[1..], b, inClip, keepNamed);
    }
  }

  lemma SelectionSnoc(cs: seq<Node>, i: nat, inClip: bool, keepNamed: bool)
    requires i < |cs|
    ensures Selection(cs[..i + 1], inClip, keepNamed)
            == Selection(cs[..i], inClip, keepNamed)
               + Selection(cs[i].children, inClip || cs[i].Is(EId.ClipPath), keepNamed)
               + (if Selects(cs[i], inClip, keepNamed) then [cs[i].uid] else [])
  {
    assert [cs[i]][1..] == [];
    assert cs[..i + 1] == cs[..i] + [cs[i]];
    SelectionAppend(cs[..i], [cs[i]], inClip, keepNamed);
  }

  lemma ScanStep(groups: seq<UId>, before: seq<UId>, r: seq<UId>, cs: seq<Node>, i: nat, inClip: bool, keepNamed: bool)
    requires i < |cs|
    requires before == groups + Selection(cs[..i], inClip, keepNamed)
    requires r == before + Selection(cs[i].children, inClip || cs[i].Is(EId.ClipPath), keepNamed)
                 + (if Selects(cs[i], inClip, keepNamed) then [cs[i].uid] else [])
    ensures r == groups + Selection(cs[..i + 1], inClip, keepNamed)
  {
    SelectionSnoc(cs, i, inClip, keepNamed);
  }

  /**
   * `_ungroup_groups(parent, opt, groups)`: for each child, first the
   * child's own subtree, then the child itself, are appended to `groups`.
   */
  method Scan(parent: Node, inClip: bool, keepNamed: bool, groups: seq<UId>) returns (r: seq<UId>)
    ensures r == groups + Selection(parent.children, inClip, keepNamed)
    decreases parent
  {
    r := groups;
    var cs := parent.children;
    var i := 0;
    while i < |cs|
      invariant 0 <= i <= |cs|
      invariant r == groups + Selection(cs[..i], inClip, keepNamed)
    {
      var node := cs[i];
      var below := Selection(node.children, inClip || node.Is(EId.ClipPath), keepNamed);
      var here := if Selects(node, inClip, keepNamed) then [node.uid] else [];
      ghost var before := r;
      if node.children != [] {
        r := Scan(node, inClip || node.Is(EId.ClipPath), keepNamed, r);
      }
      assert r == before + below;
      if Selects(node, inClip, keepNamed) {
        r := r + [node.uid];
      }
      ScanStep(groups, before, r, cs, i, inClip, keepNamed);
      i := i + 1;
    }
    assert cs[..i] == cs;
  }

  /** The uids of the groups of a forest. */
  function GroupUids(ns: seq<Node>): set<UId>
  {
    set n | n in Flat(ns) && n.Is(EId.G) :: n.uid
  }

  /**
   * The scan pushes only groups, and it pushes every empty group whatever
   * its position, name or attributes.
   */
  lemma {:induction false} SelectionGroups(ns: seq<Node>, inClip: bool, keepNamed: bool)
    ensures forall u :: u in Selection(ns, inClip, keepNamed) ==> u in GroupUids(ns)
    ensures forall n :: n in Flat(ns) && n.Is(EId.G) && n.children == [] ==> n.uid in Selection(ns, inClip, keepNamed)
  {
    if ns != [] {
      var c, rest := ns[0].children, ns[1..];
      var inner := inClip || ns[0].Is(EId.ClipPath);
      SelectionGroups(c, inner, keepNamed);
      SelectionGroups(rest, inClip, keepNamed);
      assert Flat(ns) == [ns[0]] + Flat(c) + Flat(rest);
      assert forall n :: n in Flat(ns) <==> n == ns[0] || n in Flat(c) || n in Flat(rest);
    }
  }

  /** When the scan picks nothing, no empty group is left, and no node at the top is one it could pick. */
  lemma NothingSelected(ns: seq<Node>, inClip: bool, keepNamed: bool)
    requires Selection(ns, inClip, keepNamed) == []
    ensures forall n :: n in Flat(ns) && n.Is(EId.G) ==> n.children != []
    ensures forall i :: 0 <= i < |ns| ==> !Selects(ns[i], inClip, keepNamed)
  {
    SelectionGroups(ns, inClip, keepNamed);
    forall i | 0 <= i < |ns|
      ensures !Selects(ns[i], inClip, keepNamed)
    {
      assert ns == ns[..i] + [ns[i]] + ns[i + 1..];
      SelectionAppend(ns[..i] + [ns[i]], ns[i + 1..], inClip, keepNamed);
      SelectionAppend(ns[..i], [ns[i]], inClip, keepNamed);
      assert [ns[i]][1..] == [];
    }
  }

  // ---- what a removed group passes to its children ----

  /** The group's opacity as `prepare_attribute` reads it: a number, otherwise 1. */
  function OpacityOf(v: AValue): real { if v.Number? then v.n else 1.0 }

  /** A transform value, otherwise the identity. */
  function TransformOf(v: AValue): Transform { if v.Transform? then v.ts else Identity }

  /** The product of two opacities. */
  function Times(x: real, y: real): real { x * y }

  /** `t1.append(&t2)`: the group's transform followed by the child's. */
  function Compose(t1: Transform, t2: Transform): Transform { t1.Append(t2) }

  /**
   * `prepare_attribute(child, a, v)`: the child's new value for the group's
   * attribute `a`, or None when it declines and `set_attribute_if_none`
   * takes over.
   */
  function PrepareAttribute(child: map<AId, AValue>, a: AId, v: AValue): (r: Option<AValue>)
    ensures r.None? <==> a != AId.Display && !(a in child && (a == AId.Opacity || a == AId.Transform))
  {
    if a == AId.Transform && a in child then Some(AValue.Transform(Compose(TransformOf(v), TransformOf(child[a]))))
    else if a == AId.Opacity && a in child then Some(AValue.Number(Times(OpacityOf(v), OpacityOf(child[a]))))
    else if a == AId.Display then Some(v)
    else Option.None
  }

  /** The child's value after the group's attribute `a` of value `v` has been passed to it. */
  function Passed(child: map<AId, AValue>, a: AId, v: AValue): AValue
  {
    match PrepareAttribute(child, a, v)
    case Some(w) => w
    case None => if a in child then child[a] else v
  }

  /** An element child's attributes once every SVG attribute of the group has been passed to it. */
  function PushedAttrs(group: map<AId, AValue>, child: map<AId, AValue>): map<AId, AValue>
  {
    map a | a in child.Keys + group.Keys && (a in child || IsSvgAttr(a)) ::
      if a in group && IsSvgAttr(a) then Passed(child, a, group[a]) else child[a]
  }

  /**
   * One child of a group that is taken apart, as it stands after the group
   * is gone: an element has the group's attributes passed to it, and an
   * only child without an id takes the group's id.
   */
  function Lift(g: Node, c: Node, single: bool): (r: Node)
    ensures r.uid == c.uid && r.kind == c.kind && r.children == c.children
  {
    var c1 := if c.IsSvgElement() then c.(attrs := PushedAttrs(g.attrs, c.attrs)) else c;
    if single && c1.id == "" then c1.(id := g.id) else c1
  }

  /**
   * What an element child ends with: it gains every SVG attribute of the
   * group that it lacks; an opacity it has is multiplied by the group's, a
   * transform it has is composed after the group's, a display it has is
   * overwritten; every other attribute of its own is kept.
   */
  lemma LiftAttrs(g: Node, c: Node, single: bool)
    requires c.IsSvgElement()
    ensures var r := Lift(g, c, single);
      && (forall a :: a in r.attrs <==> a in c.attrs || (a in g.attrs && IsSvgAttr(a)))
      && (forall a :: a in g.attrs && IsSvgAttr(a) && a !in c.attrs ==> r.attrs[a] == g.attrs[a])
      && (forall a :: a in c.attrs && a != AId.Opacity && a != AId.Transform && a != AId.Display
                      ==> r.attrs[a] == c.attrs[a])
      && (AId.Opacity in g.attrs && AId.Opacity in c.attrs
          ==> r.attrs[AId.Opacity] == AValue.Number(Times(OpacityOf(g.attrs[AId.Opacity]), OpacityOf(c.attrs[AId.Opacity]))))
      && (AId.Transform in g.attrs && AId.Transform in c.attrs
          ==> r.attrs[AId.Transform]
              == AValue.Transform(Compose(TransformOf(g.attrs[AId.Transform]), TransformOf(c.attrs[AId.Transform]))))
      && (AId.Display in g.attrs ==> r.attrs[AId.Display] == g.attrs[AId.Display])
  {
    PushedKeys(g.attrs, c.attrs);
    PushedKept(g.attrs, c.attrs);
    PushedGained(g.attrs, c.attrs);
    if AId.Opacity in g.attrs && AId.Opacity in c.attrs {
      PushedOpacity(g.attrs, c.attrs);
    }
    if AId.Transform in g.attrs && AId.Transform in c.attrs {
      PushedTransform(g.attrs, c.attrs);
    }
    if AId.Display in g.attrs {
      PushedDisplay(g.attrs, c.attrs);
    }
  }

  lemma PushedKeys(group: map<AId, AValue>, child: map<AId, AValue>)
    ensures forall a :: a in PushedAttrs(group, child) <==> a in child || (a in group && IsSvgAttr(a))
  {
  }

  lemma PushedKept(group: map<AId, AValue>, child: map<AId, AValue>)
    ensures forall a :: a in child && a != AId.Opacity && a != AId.Transform && a != AId.Display
                        ==> PushedAttrs(group, child)[a] == child[a]
  {
    forall a | a in child && a != AId.Opacity && a != AId.Transform && a != AId.Display
      ensures PushedAttrs(group, child)[a] == child[a]
    {
      if a in group && IsSvgAttr(a) {
        assert PrepareAttribute(child, a, group[a]).None?;
      }
    }
  }

  lemma PushedGained(group: map<AId, AValue>, child: map<AId, AValue>)
    ensures forall a :: a in group && IsSvgAttr(a) && a !in child ==> PushedAttrs(group, child)[a] == group[a]
  {
    forall a | a in group && IsSvgAttr(a) && a !in child
      ensures PushedAttrs(group, child)[a] == group[a]
    {
      assert Passed(child, a, group[a]) == group[a];
    }
  }

  lemma PushedOpacity(group: map<AId, AValue>, child: map<AId, AValue>)
    requires AId.Opacity in group && AId.Opacity in child
    ensures PushedAttrs(group, child)[AId.Opacity]
            == AValue.Number(Times(OpacityOf(group[AId.Opacity]), OpacityOf(child[AId.Opacity])))
  {
    assert IsSvgAttr(AId.Opacity);
  }

  lemma PushedTransform(group: map<AId, AValue>, child: map<AId, AValue>)
    requires AId.Transform in group && AId.Transform in child
    ensures PushedAttrs(group, child)[AId.Transform]
            == AValue.Transform(Compose(TransformOf(group[AId.Transform]), TransformOf(child[AId.Transform])))
  {
    var v := group[AId.Transform];
    var t := Compose(TransformOf(v), TransformOf(child[AId.Transform]));
    assert PrepareAttribute(child, AId.Transform, v) == Some(AValue.Transform(t));
    assert Passed(child, AId.Transform, v) == AValue.Transform(t);
    assert IsSvgAttr(AId.Transform);
  }

  lemma PushedDisplay(group: map<AId, AValue>, child: map<AId, AValue>)
    requires AId.Display in group
    ensures PushedAttrs(group, child)[AId.Display] == group[AId.Display]
  {
    assert IsSvgAttr(AId.Display);
  }

  /** A group without SVG attributes passes nothing: each child only moves, and the only child may take the id. */
  lemma LiftBare(g: Node, c: Node, single: bool)
    requires forall a :: a in g.attrs ==> !IsSvgAttr(a)
    ensures Lift(g, c, single) == (if single && c.id == "" then c.(id := g.id) else c)
  {
    if c.IsSvgElement() {
      assert PushedAttrs(g.attrs, c.attrs) == c.attrs;
    }
  }

  /**
   * Opacity through two nested groups taken apart one after the other: the
   * element ends with the product of the three opacities, a missing one
   * counting as 1 (the outer group's must be a number).
   */
  lemma OpacityThroughTwo(outer: Node, inner: Node, c: Node, s1: bool, s2: bool)
    requires inner.IsSvgElement() && c.IsSvgElement()
    requires AId.Opacity in outer.attrs && outer.attrs[AId.Opacity].Number?
    ensures var r := Lift(Lift(outer, inner, s1), c, s2);
      AId.Opacity in r.attrs && r.attrs[AId.Opacity].Number?
      && OpacityOf(r.attrs[AId.Opacity])
         == Times(Times(OpacityOf(outer.attrs[AId.Opacity]), OwnOpacity(inner)), OwnOpacity(c))
  {
    var m := Lift(outer, inner, s1);
    var r := Lift(m, c, s2);
    assert m.attrs == PushedAttrs(outer.attrs, inner.attrs);
    assert r.attrs == PushedAttrs(m.attrs, c.attrs);
    var o := OpacityOf(outer.attrs[AId.Opacity]);
    PushedOpacityOne(outer.attrs, inner.attrs);
    assert m.attrs[AId.Opacity] == AValue.Number(Times(o, OwnOpacity(inner)));
    PushedOpacityOne(m.attrs, c.attrs);
  }

  /** A node's own opacity the way `prepare_attribute` multiplies it: 1 when it has none. */
  function OwnOpacity(n: Node): real
  {
    if AId.Opacity in n.attrs then OpacityOf(n.attrs[AId.Opacity]) else 1.0
  }

  /** The opacity an element child ends with, whether or not it had one. */
  lemma PushedOpacityOne(group: map<AId, AValue>, child: map<AId, AValue>)
    requires AId.Opacity in group
    ensures AId.Opacity in PushedAttrs(group, child)
    ensures PushedAttrs(group, child)[AId.Opacity]
            == if AId.Opacity in child then AValue.Number(Times(OpacityOf(group[AId.Opacity]), OpacityOf(child[AId.Opacity])))
               else group[AId.Opacity]
  {
    assert IsSvgAttr(AId.Opacity);
    if AId.Opacity in child {
      PushedOpacity(group, child);
    } else {
      assert Passed(child, AId.Opacity, group[AId.Opacity]) == group[AId.Opacity];
    }
  }


  // ---- one round ----

  /**
   * A node the round takes apart: a `g` the scan pushed that, when
   * `recheck` is set, still passes the opacity test as it stands when its
   * turn comes (see the finding about nested groups).
   */
  predicate Dissolves(m: Node, s: set<UId>, recheck: bool)
  {
    m.Is(EId.G) && m.uid in s
    && (recheck ==> m.children == [] || (m.Has(AId.Opacity) ==> |m.children| == 1))
  }

  /** A node as it stands when its turn comes: lifted out of the group `from` when there is one. */
  function Moved(from: Option<Node>, n: Node, single: bool): (r: Node)
    ensures r.uid == n.uid && r.kind == n.kind && r.children == n.children
  {
    if from.Some? then Lift(from.value, n, single) else n
  }

  /**
   * The pop loop over the pushed groups. A group is popped before the
   * groups inside it, so this is a rewrite from the top: when `from` holds
   * the group, as its own removal left it, that `ns` are the children of,
   * each of them is lifted out of it first; `single` says that group had
   * only one child.
   */
  function Splice(ns: seq<Node>, s: set<UId>, from: Option<Node>, single: bool, recheck: bool): seq<Node>
  {
    if ns == [] then []
    else
      var m := Moved(from, ns[0], single);
      (if Dissolves(m, s, recheck) then Splice(ns[0].children, s, Some(m), |ns[0].children| == 1, recheck)
       else [m.(children := Splice(ns[0].children, s, Option.None, false, recheck))])
      + Splice(ns[1..], s, from, single, recheck)
  }

  lemma SpliceUnfold(ns: seq<Node>, s: set<UId>, from: Option<Node>, single: bool, recheck: bool)
    requires ns != []
    ensures var m := Moved(from, ns[0], single);
      Splice(ns, s, from, single, recheck)
      == (if Dissolves(m, s, recheck) then Splice(ns[0].children, s, Some(m), |ns[0].children| == 1, recheck)
          else [m.(children := Splice(ns[0].children, s, Option.None, false, recheck))])
         + Splice(ns[1..], s, from, single, recheck)
  {
  }

  /** The groups the round takes apart, each as it stands when its turn comes. */
  function Dissolved(ns: seq<Node>, s: set<UId>, from: Option<Node>, single: bool, recheck: bool): seq<Node>
  {
    if ns == [] then []
    else
      var m := Moved(from, ns[0], single);
      (if Dissolves(m, s, recheck) then [m] + Dissolved(ns[0].children, s, Some(m), |ns[0].children| == 1, recheck)
       else Dissolved(ns[0].children, s, Option.None, false, recheck))
      + Dissolved(ns[1..], s, from, single, recheck)
  }

  function DissolvedUids(ns: seq<Node>, s: set<UId>, recheck: bool): set<UId>
  {
    set m | m in Dissolved(ns, s, Option.None, false, recheck) :: m.uid
  }

  /** One round over the svg element: the groups are taken apart and `remove_node` drops the links into them. */
  function Round(svg: Node, s: set<UId>, recheck: bool): (r: Node)
    ensures r.uid == svg.uid && r.kind == svg.kind && r.id == svg.id
  {
    var gone := DissolvedUids(svg.children, s, recheck);
    svg.(attrs := Unlinked(svg.attrs, gone), children := UnlinkAll(Splice(svg.children, s, Option.None, false, recheck), gone))
  }

  /** With the recheck, a group that carries an opacity when it is taken apart passes it to one child at most. */
  lemma {:induction false} CheckedOpacity(ns: seq<Node>, s: set<UId>, from: Option<Node>, single: bool)
    ensures forall m :: m in Dissolved(ns, s, from, single, true) && m.Has(AId.Opacity) ==> |m.children| <= 1
  {
    if ns != [] {
      var m := Moved(from, ns[0], single);
      CheckedOpacity(ns[0].children, s, Some(m), |ns[0].children| == 1);
      CheckedOpacity(ns[0].children, s, Option.None, false);
      CheckedOpacity(ns[1..], s, from, single);
    }
  }

  // ---- what a round keeps ----

  /** The uid and kind of each node, in order. */
  function Skeleton(ns: seq<Node>): (r: seq<(UId, Kind)>)
    ensures |r| == |ns|
    ensures forall i :: 0 <= i < |ns| ==> r[i] == (ns[i].uid, ns[i].kind)
  {
    if ns == [] then [] else [(ns[0].uid, ns[0].kind)] + Skeleton(ns[1..])
  }

  function NonGroups(sk: seq<(UId, Kind)>): seq<(UId, Kind)>
  {
    if sk == [] then [] else (if sk[0].1 == Element(EId.G) then [] else [sk[0]]) + NonGroups(sk[1..])
  }

  function GroupCount(sk: seq<(UId, Kind)>): nat
  {
    if sk == [] then 0 else (if sk[0].1 == Element(EId.G) then 1 else 0) + GroupCount(sk[1..])
  }

  /** Every node of a forest that is not a `g`, in document order. */
  function Kept(ns: seq<Node>): seq<(UId, Kind)> { NonGroups(Skeleton(Flat(ns))) }

  /** How many nodes of a forest are `g`s. */
  function Groups(ns: seq<Node>): nat { GroupCount(Skeleton(Flat(ns))) }

  lemma {:induction false} SkeletonAppend(a: seq<Node>, b: seq<Node>)
    ensures Skeleton(a + b) == Skeleton(a) + Skeleton(b)
  {
  }

  lemma {:induction false} NonGroupsAppend(a: seq<(UId, Kind)>, b: seq<(UId, Kind)>)
    ensures NonGroups(a + b) == NonGroups(a) + NonGroups(b)
  {
    if a == [] {
      assert a + b == b;
    } else {
      assert (a + b)[0] == a[0];
      assert (a + b)[1..] == a[1..] + b;
      NonGroupsAppend(a[1..], b);
    }
  }

  lemma {:induction false} GroupCountAppend(a: seq<(UId, Kind)>, b: seq<(UId, Kind)>)
    ensures GroupCount(a + b) == GroupCount(a) + GroupCount(b)
  {
    if a == [] {
      assert a + b == b;
    } else {
      assert (a + b)[0] == a[0];
      assert (a + b)[1..] == a[1..] + b;
      GroupCountAppend(a[1..], b);
    }
  }

  lemma ForestAppend(a: seq<Node>, b: seq<Node>)
    ensures Kept(a + b) == Kept(a) + Kept(b)
    ensures Groups(a + b) == Groups(a) + Groups(b)
  {
    FlatAppend(a, b);
    SkeletonAppend(Flat(a), Flat(b));
    NonGroupsAppend(Skeleton(Flat(a)), Skeleton(Flat(b)));
    GroupCountAppend(Skeleton(Flat(a)), Skeleton(Flat(b)));
  }

  /** A node, then its subtree. */
  lemma ForestSingle(n: Node)
    ensures Kept([n]) == (if n.Is(EId.G) then [] else [(n.uid, n.kind)]) + Kept(n.children)
    ensures Groups([n]) == (if n.Is(EId.G) then 1 else 0) + Groups(n.children)
  {
    FlatSingle(n);
    assert Flat([n]) == [n] + Flat(n.children);
    SkeletonAppend([n], Flat(n.children));
    NonGroupsAppend(Skeleton([n]), Skeleton(Flat(n.children)));
    GroupCountAppend(Skeleton([n]), Skeleton(Flat(n.children)));
    assert Skeleton([n]) == [(n.uid, n.kind)];
  }

  lemma ForestCons(ns: seq<Node>)
    requires ns != []
    ensures Kept(ns) == Kept([ns[0]]) + Kept(ns[1..])
    ensures Groups(ns) == Groups([ns[0]]) + Groups(ns[1..])
  {
    assert ns == [ns[0]] + ns[1..];
    ForestAppend([ns[0]], ns[1..]);
  }

  /**
   * A round keeps every node that is not a `g`, in document order, and
   * removes groups only.
   */
  lemma {:induction false} SpliceKeeps(ns: seq<Node>, s: set<UId>, from: Option<Node>, single: bool, recheck: bool)
    ensures Kept(Splice(ns, s, from, single, recheck)) == Kept(ns)
  {
    if ns != [] {
      var n := ns[0];
      var m := Moved(from, n, single);
      var tail := Splice(ns[1..], s, from, single, recheck);
      SpliceKeeps(ns[1..], s, from, single, recheck);
      ForestCons(ns);
      ForestSingle(n);
      SpliceUnfold(ns, s, from, single, recheck);
      if Dissolves(m, s, recheck) {
        var inner := Splice(n.children, s, Some(m), |n.children| == 1, recheck);
        SpliceKeeps(n.children, s, Some(m), |n.children| == 1, recheck);
        ForestAppend(inner, tail);
      } else {
        var top := m.(children := Splice(n.children, s, Option.None, false, recheck));
        SpliceKeeps(n.children, s, Option.None, false, recheck);
        ForestAppend([top], tail);
        ForestSingle(top);
      }
    }
  }

  /** ... and adds no group. */
  lemma {:induction false} SpliceGroups(ns: seq<Node>, s: set<UId>, from: Option<Node>, single: bool, recheck: bool)
    ensures Groups(Splice(ns, s, from, single, recheck)) <= Groups(ns)
  {
    if ns != [] {
      var n := ns[0];
      var m := Moved(from, n, single);
      var tail := Splice(ns[1..], s, from, single, recheck);
      SpliceGroups(ns[1..], s, from, single, recheck);
      ForestCons(ns);
      ForestSingle(n);
      SpliceUnfold(ns, s, from, single, recheck);
      if Dissolves(m, s, recheck) {
        var inner := Splice(n.children, s, Some(m), |n.children| == 1, recheck);
        SpliceGroups(n.children, s, Some(m), |n.children| == 1, recheck);
        ForestAppend(inner, tail);
      } else {
        var top := m.(children := Splice(n.children, s, Option.None, false, recheck));
        SpliceGroups(n.children, s, Option.None, false, recheck);
        ForestAppend([top], tail);
        ForestSingle(top);
      }
    }
  }

  /** A round that is given every group the scan picks takes at least one group apart. */
  lemma {:induction false} SpliceShrinks(ns: seq<Node>, s: set<UId>, inClip: bool, keepNamed: bool)
    requires Selection(ns, inClip, keepNamed) != []
    requires forall u :: u in Selection(ns, inClip, keepNamed) ==> u in s
    ensures Groups(Splice(ns, s, Option.None, false, true)) < Groups(ns)
  {
    var n := ns[0];
    var inner := inClip || n.Is(EId.ClipPath);
    var tail := Splice(ns[1..], s, Option.None, false, true);
    SpliceGroups(ns[1..], s, Option.None, false, true);
    ForestCons(ns);
    ForestSingle(n);
    SpliceUnfold(ns, s, Option.None, false, true);
    if Dissolves(n, s, true) {
      var lifted := Splice(n.children, s, Some(n), |n.children| == 1, true);
      SpliceGroups(n.children, s, Some(n), |n.children| == 1, true);
      ForestAppend(lifted, tail);
    } else {
      var top := n.(children := Splice(n.children, s, Option.None, false, true));
      ForestAppend([top], tail);
      ForestSingle(top);
      assert !Selects(n, inClip, keepNamed);
      if Selection(n.children, inner, keepNamed) != [] {
        SpliceShrinks(n.children, s, inner, keepNamed);
      } else {
        SpliceGroups(n.children, s, Option.None, false, true);
        SpliceShrinks(ns[1..], s, inClip, keepNamed);
      }
      if Selection(ns[1..], inClip, keepNamed) != [] {
        SpliceShrinks(ns[1..], s, inClip, keepNamed);
      }
    }
  }

  lemma UnlinkSkeleton(ns: seq<Node>, gone: set<UId>)
    ensures Skeleton(Flat(UnlinkAll(ns, gone))) == Skeleton(Flat(ns))
  {
    UnlinkAllHeads(ns, gone);
    var a, b := Flat(UnlinkAll(ns, gone)), Flat(ns);
    assert |HeadSeq(a)| == |HeadSeq(b)|;
    forall i | 0 <= i < |a|
      ensures a[i].uid == b[i].uid && a[i].kind == b[i].kind
    {
      assert HeadSeq(a)[i] == HeadSeq(b)[i].(attrs := Unlinked(HeadSeq(b)[i].attrs, gone));
    }
  }

  /** A round keeps the svg element and every node below it that is not a `g`, in document order. */
  lemma RoundKeeps(svg: Node, s: set<UId>, recheck: bool)
    ensures Kept(Round(svg, s, recheck).children) == Kept(svg.children)
    ensures Groups(Round(svg, s, recheck).children) <= Groups(svg.children)
  {
    var gone := DissolvedUids(svg.children, s, recheck);
    var spliced := Splice(svg.children, s, Option.None, false, recheck);
    UnlinkSkeleton(spliced, gone);
    SpliceKeeps(svg.children, s, Option.None, false, recheck);
    SpliceGroups(svg.children, s, Option.None, false, recheck);
  }

  /** The fixpoint's progress: while the scan picks something, each round removes a group. */
  lemma RoundShrinks(svg: Node, s: set<UId>, inClip: bool, keepNamed: bool)
    requires Selection(svg.children, inClip, keepNamed) != []
    requires forall u :: u in Selection(svg.children, inClip, keepNamed) ==> u in s
    ensures Groups(Round(svg, s, true).children) < Groups(svg.children)
  {
    var gone := DissolvedUids(svg.children, s, true);
    var spliced := Splice(svg.children, s, Option.None, false, true);
    UnlinkSkeleton(spliced, gone);
    SpliceShrinks(svg.children, s, inClip, keepNamed);
  }

  /** With nothing picked a round changes nothing below the svg element. */
  lemma {:induction false} SpliceNothing(ns: seq<Node>, recheck: bool)
    ensures Splice(ns, {}, Option.None, false, recheck) == ns
    ensures Dissolved(ns, {}, Option.None, false, recheck) == []
  {
    if ns != [] {
      SpliceNothing(ns[0].children, recheck);
      SpliceNothing(ns[1..], recheck);
      assert ns == [ns[0].(children := ns[0].children)] + ns[1..];
    }
  }

  // ---- the pass ----

  /**
   * `ungroup_groups`: scan, and while the scan picks something take those
   * groups apart. When it stops the scan picks nothing, and every node that
   * is not a group is still there, in document order.
   */
  method UngroupGroupsPass(svg: Node, keepNamed: bool) returns (r: Node)
    ensures r.uid == svg.uid && r.kind == svg.kind && r.id == svg.id
    ensures Selection(r.children, svg.Is(EId.ClipPath), keepNamed) == []
    ensures Kept(r.children) == Kept(svg.children)
  {
    r := svg;
    while true
      invariant r.uid == svg.uid && r.kind == svg.kind && r.id == svg.id
      invariant Kept(r.children) == Kept(svg.children)
      decreases Groups(r.children)
    {
      var groups := Scan(r, r.Is(EId.ClipPath), keepNamed, []);
      if groups == [] {
        break;
      }
      var s := set u | u in groups;
      RoundKeeps(r, s, true);
      RoundShrinks(r, s, r.Is(EId.ClipPath), keepNamed);
      r := Round(r, s, true);
    }
  }

  // ---- nested groups and opacity ----

  /** Two leaf elements without opacity below a group, below a group with opacity 0.5. */
  predicate NestedOpacity(outer: Node, inner: Node, x: Node, y: Node)
  {
    && x.IsSvgElement() && !x.Is(EId.G) && x.children == [] && AId.Opacity !in x.attrs
    && y.IsSvgElement() && !y.Is(EId.G) && y.children == [] && AId.Opacity !in y.attrs
    && inner.Is(EId.G) && inner.children == [x, y] && inner.attrs == map[] && inner.id == ""
    && outer.Is(EId.G) && outer.children == [inner] && outer.attrs == map[AId.Opacity := AValue.Number(0.5)]
    && inner.uid != outer.uid && x.uid != inner.uid && x.uid != outer.uid && y.uid != inner.uid && y.uid != outer.uid
  }

  /** The scan picks both groups: the inner one has no opacity, the outer one has one child. */
  lemma NestedOpacityPicked(outer: Node, inner: Node, x: Node, y: Node)
    requires NestedOpacity(outer, inner, x, y)
    ensures Selection([outer], false, false) == [inner.uid, outer.uid]
  {
    assert [outer][1..] == [] && [inner][1..] == [] && [x, y][1..] == [y] && [y][1..] == [];
    assert Selection([y], false, false) == [];
    assert Selection([x, y], false, false) == [];
    assert Selection([inner], false, false) == [inner.uid];
  }

  /**
   * As written: the outer group passes its opacity to the inner one, which
   * is then taken apart as well, so each element is drawn at opacity 0.5 on
   * its own instead of the pair being drawn at 0.5 together.
   */
  lemma NestedOpacitySpreads(outer: Node, inner: Node, x: Node, y: Node)
    requires NestedOpacity(outer, inner, x, y)
    ensures var r := Splice([outer], {inner.uid, outer.uid}, Option.None, false, false);
      |r| == 2 && r[0].uid == x.uid && r[1].uid == y.uid
      && AId.Opacity in r[0].attrs && AId.Opacity in r[1].attrs
      && r[0].attrs[AId.Opacity] == AValue.Number(0.5) && r[1].attrs[AId.Opacity] == AValue.Number(0.5)
  {
    var s := {inner.uid, outer.uid};
    var m := Lift(outer, inner, true);
    assert Dissolves(m, s, false);
    var x1, y1 := Lift(m, x, false), Lift(m, y, false);
    PushedOpacityOne(outer.attrs, inner.attrs);
    PushedOpacityOne(m.attrs, x.attrs);
    PushedOpacityOne(m.attrs, y.attrs);
    assert [x, y][1..] == [y] && [y][1..] == [] && [outer][1..] == [] && [inner][1..] == [];
    assert Splice([y], s, Some(m), false, false) == [y1.(children := [])];
    assert Splice([x, y], s, Some(m), false, false) == [x1.(children := [])] + [y1.(children := [])];
    assert Splice([inner], s, Some(outer), true, false) == Splice([x, y], s, Some(m), false, false);
  }

  /** With the recheck the inner group keeps the opacity over both elements. */
  lemma NestedOpacityKept(outer: Node, inner: Node, x: Node, y: Node)
    requires NestedOpacity(outer, inner, x, y)
    ensures var r := Splice([outer], {inner.uid, outer.uid}, Option.None, false, true);
      |r| == 1 && r[0].uid == inner.uid && r[0].children == [x, y]
      && AId.Opacity in r[0].attrs && r[0].attrs[AId.Opacity] == AValue.Number(0.5)
  {
    var s := {inner.uid, outer.uid};
    var m := Lift(outer, inner, true);
    LiftAttrs(outer, inner, true);
    assert !Dissolves(m, s, true);
    assert [x, y][1..] == [y] && [y][1..] == [] && [outer][1..] == [] && [inner][1..] == [];
    assert Dissolves(outer, s, true);
    assert x.(children := []) == x && y.(children := []) == y;
    assert Splice([y], s, Option.None, false, true) == [y];
    assert Splice([x, y], s, Option.None, false, true) == [x] + [y];
    assert Moved(Some(outer), inner, true) == m;
    assert Splice(inner.children, s, Option.None, false, true) == [x, y];
    SpliceUnfold([inner], s, Some(outer), true, true);
    assert [inner][0] == inner;
    assert Splice([inner], s, Some(outer), true, true)
           == [m.(children := Splice(inner.children, s, Option.None, false, true))] + Splice([], s, Some(outer), true, true);
    assert Splice([inner], s, Some(outer), true, true) == [m.(children := [x, y])];
    SpliceUnfold([outer], s, Option.None, false, true);
  }
}
