/**
 * The render tree: an arena of `NodeKind`s in which a node's `NodeId` is the
 * order it was created in. The arena lists each node's parent and its
 * children in order. A detached node keeps its place and its subtree but has
 * no parent, so no walk from the root reaches it. `Tree` is the tree the
 * conversion builds; the functions on `Arena` state what each of its
 * operations does.
 */
module RenderTree {
  import opened Wrappers
  import opened TreeNode

  type NodeId = nat

  /** The root is created first. */
  const RootId: NodeId := 0

  datatype Arena = Arena(kinds: seq<NodeKind>, parent: seq<Option<NodeId>>, kids: seq<seq<NodeId>>)

  /**
   * What `create` and the appends keep: one entry per node. The root is the
   * `Svg` node and has no parent. Its first child is the `Defs` node, created
   * second. A child is created after its parent, and the parent and child
   * lists agree.
   */
  predicate WellFormed(a: Arena)
  {
    Shaped(a) && KidsPointBack(a) && ParentsList(a)
  }

  /** The lists have one entry per node; the root and `Defs` come first. */
  predicate Shaped(a: Arena)
  {
    |a.kinds| >= 2 && |a.parent| == |a.kinds| && |a.kids| == |a.kinds|
    && a.kinds[0].SvgKind? && a.kinds[1] == DefsKind
    && a.parent[0] == None && a.parent[1] == Some(0)
    && |a.kids[0]| > 0 && a.kids[0][0] == 1
  }

  /** Each child comes after its parent and names it as its parent. */
  predicate KidsPointBack(a: Arena)
    requires |a.parent| == |a.kinds| && |a.kids| == |a.kinds|
  {
    forall i, k :: 0 <= i < |a.kids| && 0 <= k < |a.kids[i]| ==>
      i < a.kids[i][k] < |a.kinds| && a.parent[a.kids[i][k]] == Some(i)
  }

  /** Each node with a parent comes after it and is among its children. */
  predicate ParentsList(a: Arena)
    requires |a.parent| == |a.kinds| && |a.kids| == |a.kinds|
  {
    forall j :: 0 <= j < |a.parent| && a.parent[j].Some? ==>
      a.parent[j].value < j && j in a.kids[a.parent[j].value]
  }

  /** The children of a node come after it and name it as their parent. */
  lemma KidsAfter(a: Arena, i: NodeId)
    requires WellFormed(a) && i < |a.kinds|
    ensures forall k :: k in a.kids[i] ==> i < k < |a.kinds| && a.parent[k] == Some(i)
    ensures forall x :: 0 <= x < |a.kids[i]| ==> i < a.kids[i][x] < |a.kinds|
  {
    forall k | k in a.kids[i]
      ensures i < k < |a.kinds| && a.parent[k] == Some(i)
    {
      var x :| 0 <= x < |a.kids[i]| && a.kids[i][x] == k;
    }
  }

  /** `Tree::create`: the root `Svg` node with one child, an empty `Defs`. */
  function Created(svg: Svg): (r: Arena)
    ensures WellFormed(r)
    ensures r.kinds[RootId] == SvgKind(svg) && r.kids[RootId] == [DefsOf(r)] && r.kids[DefsOf(r)] == []
  {
    Arena([SvgKind(svg), DefsKind], [None, Some(0)], [[1], []])
  }

  /** `defs()`: the root's first child, which is the `Defs` node. */
  function DefsOf(a: Arena): (r: NodeId)
    requires WellFormed(a)
    ensures r < |a.kinds| && a.kinds[r] == DefsKind && a.parent[r] == Some(RootId)
  {
    a.kids[0][0]
  }

  /** `svg_node()`: the root's `Svg` data. */
  function SvgOf(a: Arena): (r: Svg)
    requires WellFormed(a)
    ensures a.kinds[RootId] == SvgKind(r)
  {
    a.kinds[0].svg
  }

  /**
   * `append_child(parent, kind)`: a new node, created last and with no
   * children, becomes the last child of `p`; no other node changes.
   */
  function Appended(a: Arena, p: NodeId, kind: NodeKind): (r: Arena)
    requires WellFormed(a) && p < |a.kinds|
    ensures WellFormed(r) && DefsOf(r) == DefsOf(a)
    ensures r.kinds == a.kinds + [kind] && r.kids[|a.kinds|] == []
    ensures r.parent[|a.kinds|] == Some(p) && r.kids[p] == a.kids[p] + [|a.kinds|]
    ensures forall j :: 0 <= j < |a.kinds| ==> r.kinds[j] == a.kinds[j] && r.parent[j] == a.parent[j]
    ensures forall j :: 0 <= j < |a.kinds| && j != p ==> r.kids[j] == a.kids[j]
  {
    var n := |a.kinds|;
    var r := Arena(a.kinds + [kind], a.parent + [Some(p)], a.kids[p := a.kids[p] + [n]] + [[]]);
    AppendedPointsBack(a, p, r);
    AppendedListed(a, p, r);
    r
  }

  lemma AppendedPointsBack(a: Arena, p: NodeId, r: Arena)
    requires WellFormed(a) && p < |a.kinds|
    requires r.parent == a.parent + [Some(p)] && |r.kinds| == |a.kinds| + 1
    requires r.kids == a.kids[p := a.kids[p] + [|a.kinds|]] + [[]]
    ensures KidsPointBack(r)
  {
    forall i, k | 0 <= i < |r.kids| && 0 <= k < |r.kids[i]|
      ensures i < r.kids[i][k] < |r.kinds| && r.parent[r.kids[i][k]] == Some(i)
    {
      if i == p && k == |a.kids[p]| {
        assert r.kids[i][k] == |a.kinds|;
      } else {
        assert r.kids[i][k] == a.kids[i][k];
      }
    }
  }

  lemma AppendedListed(a: Arena, p: NodeId, r: Arena)
    requires WellFormed(a) && p < |a.kinds|
    requires r.parent == a.parent + [Some(p)] && |r.kinds| == |a.kinds| + 1
    requires r.kids == a.kids[p := a.kids[p] + [|a.kinds|]] + [[]]
    ensures ParentsList(r)
  {
    forall j | 0 <= j < |r.parent| && r.parent[j].Some?
      ensures r.parent[j].value < j && j in r.kids[r.parent[j].value]
    {
      if j < |a.kinds| {
        assert r.parent[j] == a.parent[j];
        assert j in a.kids[a.parent[j].value];
      } else {
        assert r.kids[p] == a.kids[p] + [j];
      }
    }
  }

  /** `ks` without `j`, in order. */
  function Without(ks: seq<NodeId>, j: NodeId): (r: seq<NodeId>)
    ensures forall k :: k in r <==> k in ks && k != j
  {
    if ks == [] then [] else (if ks[0] == j then [] else [ks[0]]) + Without(ks[1..], j)
  }

  /**
   * `detach`: the node leaves its parent's children and has no parent; it
   * and its subtree stay in the arena, and nothing else changes.
   */
  function Detached(a: Arena, j: NodeId): (r: Arena)
    requires WellFormed(a) && 2 <= j < |a.kinds|
    ensures WellFormed(r) && DefsOf(r) == DefsOf(a)
    ensures r.kinds == a.kinds && r.parent[j] == None
    ensures forall i :: 0 <= i < |a.kinds| && i != j ==> r.parent[i] == a.parent[i]
    ensures a.parent[j].Some? ==> r.kids == a.kids[a.parent[j].value := Without(a.kids[a.parent[j].value], j)]
    ensures a.parent[j].None? ==> r == a
  {
    match a.parent[j]
    case None => a
    case Some(p) =>
      var r := Arena(a.kinds, a.parent[j := None], a.kids[p := Without(a.kids[p], j)]);
      assert p == 0 ==> r.kids[0] == [1] + Without(a.kids[0][1..], j);
      DetachedPointsBack(a, j, p, r);
      DetachedListed(a, j, p, r);
      r
  }

  lemma DetachedPointsBack(a: Arena, j: NodeId, p: NodeId, r: Arena)
    requires WellFormed(a) && 2 <= j < |a.kinds| && a.parent[j] == Some(p)
    requires r == Arena(a.kinds, a.parent[j := None], a.kids[p := Without(a.kids[p], j)])
    ensures KidsPointBack(r)
  {
    KidsAfter(a, p);
    forall i, k | 0 <= i < |r.kids| && 0 <= k < |r.kids[i]|
      ensures i < r.kids[i][k] < |r.kinds| && r.parent[r.kids[i][k]] == Some(i)
    {
      var c := r.kids[i][k];
      if i == p {
        assert c in Without(a.kids[p], j);
      } else {
        assert c == a.kids[i][k];
      }
    }
  }

  lemma DetachedListed(a: Arena, j: NodeId, p: NodeId, r: Arena)
    requires WellFormed(a) && 2 <= j < |a.kinds| && a.parent[j] == Some(p)
    requires r == Arena(a.kinds, a.parent[j := None], a.kids[p := Without(a.kids[p], j)])
    ensures ParentsList(r)
  {
    forall i | 0 <= i < |r.parent| && r.parent[i].Some?
      ensures r.parent[i].value < i && i in r.kids[r.parent[i].value]
    {
      assert r.parent[i] == a.parent[i];
      assert i in a.kids[a.parent[i].value];
    }
  }

  // ---- ancestors and the walk from the root ----

  /** `ancestors()` of ego_tree: the strict ancestors, nearest first. */
  function Ancestors(a: Arena, j: NodeId): (r: seq<NodeId>)
    requires WellFormed(a) && j < |a.kinds|
    ensures forall k :: k in r ==> k < j
    decreases j
  {
    match a.parent[j]
    case None => []
    case Some(p) => [p] + Ancestors(a, p)
  }

  /** `is_in_defs`: the `Defs` node is one of the node's strict ancestors. */
  predicate InDefs(a: Arena, j: NodeId)
    requires WellFormed(a) && j < |a.kinds|
  {
    DefsOf(a) in Ancestors(a, j)
  }

  /** Neither the root nor `Defs` itself is in `Defs`. */
  lemma RootAndDefsOutside(a: Arena)
    requires WellFormed(a)
    ensures !InDefs(a, RootId) && !InDefs(a, DefsOf(a))
  {
    assert Ancestors(a, DefsOf(a)) == [RootId] + Ancestors(a, RootId);
  }

  /** An append leaves the ancestors of every existing node as they were. */
  lemma {:induction false} AncestorsAppended(a: Arena, p: NodeId, kind: NodeKind, j: NodeId)
    requires WellFormed(a) && p < |a.kinds| && j < |a.kinds|
    ensures Ancestors(Appended(a, p, kind), j) == Ancestors(a, j)
    decreases j
  {
    match a.parent[j]
    case None =>
    case Some(q) => AncestorsAppended(a, p, kind, q);
  }

  /**
   * After an append, the new node is in `Defs` exactly when its parent is
   * `Defs` or in it, and every other node is in `Defs` exactly when it was.
   */
  lemma AppendedInDefs(a: Arena, p: NodeId, kind: NodeKind)
    requires WellFormed(a) && p < |a.kinds|
    ensures InDefs(Appended(a, p, kind), |a.kinds|) <==> p == DefsOf(a) || InDefs(a, p)
    ensures forall j :: 0 <= j < |a.kinds| ==> (InDefs(Appended(a, p, kind), j) <==> InDefs(a, j))
  {
    var r := Appended(a, p, kind);
    AncestorsAppended(a, p, kind, p);
    assert Ancestors(r, |a.kinds|) == [p] + Ancestors(r, p);
    forall j | 0 <= j < |a.kinds|
      ensures InDefs(r, j) <==> InDefs(a, j)
    {
      AncestorsAppended(a, p, kind, j);
    }
  }

  /** `descendants()` of node `i`: the node, then each child's subtree in order. */
  function Pre(a: Arena, i: NodeId): (r: seq<NodeId>)
    requires WellFormed(a) && i < |a.kinds|
    ensures |r| > 0 && r[0] == i
    ensures forall x :: 0 <= x < |r| ==> i <= r[x] < |a.kinds|
    decreases |a.kinds| - i, |a.kids[i]| + 1
  {
    KidsAfter(a, i);
    [i] + PreAll(a, a.kids[i], i)
  }

  function PreAll(a: Arena, ks: seq<NodeId>, lo: NodeId): (r: seq<NodeId>)
    requires WellFormed(a) && lo < |a.kinds| && forall i :: 0 <= i < |ks| ==> lo < ks[i] < |a.kinds|
    ensures forall x :: 0 <= x < |r| ==> lo < r[x] < |a.kinds|
    decreases |a.kinds| - lo, |ks|
  {
    if ks == [] then [] else Pre(a, ks[0]) + PreAll(a, ks[1..], lo)
  }

  // ---- the lookups ----

  /**
   * The first node of `ks` whose own id is `id`: it has the id, and every
   * node before it does not.
   */
  function FirstById(a: Arena, ks: seq<NodeId>, id: string): (r: Option<NodeId>)
    requires forall i :: 0 <= i < |ks| ==> ks[i] < |a.kinds|
    ensures r.Some? ==> r.value in ks && a.kinds[r.value].Id() == id
    ensures r.None? <==> forall k :: k in ks ==> a.kinds[k].Id() != id
    ensures forall i :: (0 <= i < |ks| && a.kinds[ks[i]].Id() == id
                         && forall h :: 0 <= h < i ==> a.kinds[ks[h]].Id() != id) ==> r == Some(ks[i])
  {
    if ks == [] then None
    else if a.kinds[ks[0]].Id() == id then Some(ks[0])
    else
      var rest := FirstById(a, ks[1..], id);
      assert forall i :: 1 <= i < |ks| ==> ks[1..][i - 1] == ks[i];
      rest
  }

  /** `defs_by_svg_id`: the first child of `Defs` whose id is `id`. */
  function DefsById(a: Arena, id: string): (r: Option<NodeId>)
    requires WellFormed(a)
    ensures r.Some? ==> r.value < |a.kinds| && r.value in a.kids[DefsOf(a)] && a.kinds[r.value].Id() == id
  {
    KidsAfter(a, DefsOf(a));
    FirstById(a, a.kids[DefsOf(a)], id)
  }

  /** The ids of the children of `Defs`, in order: what a paint or clip link is checked against. */
  function DefsIds(a: Arena): (r: seq<string>)
    requires WellFormed(a)
    ensures |r| == |a.kids[DefsOf(a)]|
  {
    KidsAfter(a, DefsOf(a));
    seq(|a.kids[DefsOf(a)]|, i requires 0 <= i < |a.kids[DefsOf(a)]| => a.kinds[a.kids[DefsOf(a)][i]].Id())
  }

  /** A lookup by id in `Defs` succeeds exactly when the id is among `DefsIds`. */
  lemma DefsByIdIff(a: Arena, id: string)
    requires WellFormed(a)
    ensures DefsById(a, id).Some? <==> id in DefsIds(a)
  {
    var cs := a.kids[DefsOf(a)];
    KidsAfter(a, DefsOf(a));
    if id in DefsIds(a) {
      var i :| 0 <= i < |cs| && DefsIds(a)[i] == id;
      assert a.kinds[cs[i]].Id() == id;
    }
    if DefsById(a, id).Some? {
      var i :| 0 <= i < |cs| && cs[i] == DefsById(a, id).value;
      assert DefsIds(a)[i] == id;
    }
  }

  /**
   * A node appended to `Defs` comes after every earlier child: a lookup that
   * found something still finds it, and one that found nothing finds the new
   * node exactly when it has the id.
   */
  lemma AppendedDefsLookup(a: Arena, kind: NodeKind, id: string)
    requires WellFormed(a)
    ensures var r := Appended(a, DefsOf(a), kind);
            DefsById(r, id) == if DefsById(a, id).Some? then DefsById(a, id)
                               else if kind.Id() == id then Some(|a.kinds|) else None
  {
    var r := Appended(a, DefsOf(a), kind);
    var cs := a.kids[DefsOf(a)];
    KidsAfter(a, DefsOf(a));
    KidsAfter(r, DefsOf(r));
    FirstByIdSnoc(a, r, cs, |a.kinds|, id);
  }

  /** The search over a list with one more node at the end, in an arena that keeps the old kinds. */
  lemma {:induction false} FirstByIdSnoc(a: Arena, r: Arena, ks: seq<NodeId>, n: NodeId, id: string)
    requires forall i :: 0 <= i < |ks| ==> ks[i] < |a.kinds|
    requires n < |r.kinds| && |a.kinds| <= |r.kinds| && forall j :: 0 <= j < |a.kinds| ==> r.kinds[j] == a.kinds[j]
    ensures FirstById(r, ks + [n], id) == if FirstById(a, ks, id).Some? then FirstById(a, ks, id)
                                         else if r.kinds[n].Id() == id then Some(n) else None
  {
    if ks != [] {
      assert (ks + [n])[1..] == ks[1..] + [n];
      FirstByIdSnoc(a, r, ks[1..], n, id);
    }
  }

  /** `defs_at(id)`: `j` itself when it is a child of `Defs`, None otherwise. */
  function DefsChild(a: Arena, j: NodeId): (r: Option<NodeId>)
    requires WellFormed(a)
  {
    if j in a.kids[DefsOf(a)] then Some(j) else None
  }

  /** `defs_at` finds only direct children of `Defs`, and finds the node it is given. */
  lemma DefsChildIff(a: Arena, j: NodeId)
    requires WellFormed(a)
    ensures DefsChild(a, j).Some? <==> j in a.kids[DefsOf(a)]
    ensures DefsChild(a, j).Some? ==> DefsChild(a, j).value == j && a.parent[j] == Some(DefsOf(a))
  {
    KidsAfter(a, DefsOf(a));
  }

  /** The first node of `ks` that is outside `Defs` and has the id. */
  function FirstOutside(a: Arena, ks: seq<NodeId>, id: string): (r: Option<NodeId>)
    requires WellFormed(a) && forall i :: 0 <= i < |ks| ==> ks[i] < |a.kinds|
    ensures r.Some? ==> r.value in ks && !InDefs(a, r.value) && a.kinds[r.value].Id() == id
    ensures r.None? <==> forall k :: k in ks ==> InDefs(a, k) || a.kinds[k].Id() != id
  {
    if ks == [] then None
    else if !InDefs(a, ks[0]) && a.kinds[ks[0]].Id() == id then Some(ks[0])
    else FirstOutside(a, ks[1..], id)
  }

  /**
   * `node_by_svg_id`: None for the empty id; otherwise the first node, in the
   * order of the walk from the root, that is outside `Defs` and has the id.
   */
  function NodeById(a: Arena, id: string): (r: Option<NodeId>)
    requires WellFormed(a)
    ensures id == "" ==> r.None?
    ensures r.Some? ==> r.value in Pre(a, RootId) && !InDefs(a, r.value) && a.kinds[r.value].Id() == id
    ensures id != "" && r.None? ==> forall k :: k in Pre(a, RootId) ==> InDefs(a, k) || a.kinds[k].Id() != id
  {
    if id == "" then None else FirstOutside(a, Pre(a, RootId), id)
  }

  // ---- the shape every converted tree has ----

  /** The kinds that only ever live as children of `Defs`. */
  predicate IsDefinition(k: NodeKind)
  {
    k.LinearGradientKind? || k.RadialGradientKind? || k.ClipPathKind? || k.MaskKind? || k.PatternKind?
  }

  /** The definitions whose content is converted once every definition exists. */
  predicate IsContainer(k: NodeKind)
  {
    k.ClipPathKind? || k.MaskKind? || k.PatternKind?
  }

  predicate IsGradientKind(k: NodeKind)
  {
    k.LinearGradientKind? || k.RadialGradientKind?
  }

  /**
   * What a node of kind `k` under parent `p` satisfies: a path has at least
   * two segments, a mask a positive size, a definition sits in `Defs`, a
   * stop in a gradient, and no node but the first two is an `Svg` or `Defs`.
   */
  predicate Fits(a: Arena, p: NodeId, k: NodeKind)
    requires WellFormed(a) && p < |a.kinds|
  {
    (k.PathKind? ==> |k.path.segments| >= 2)
    && (k.MaskKind? ==> k.mask.rect.w > 0.0 && k.mask.rect.h > 0.0)
    && (IsDefinition(k) ==> p == DefsOf(a))
    && (k.StopKind? ==> IsGradientKind(a.kinds[p]))
    && !k.SvgKind? && !k.DefsKind?
  }

  /** Every attached node past the first two fits where it is. */
  predicate Sound(a: Arena)
  {
    WellFormed(a)
    && forall j :: 2 <= j < |a.kinds| && a.parent[j].Some? ==> Fits(a, a.parent[j].value, a.kinds[j])
  }

  lemma CreatedSound(svg: Svg)
    ensures Sound(Created(svg))
  {
  }

  /** Appending a node that fits keeps the tree sound. */
  lemma AppendedSound(a: Arena, p: NodeId, k: NodeKind)
    requires Sound(a) && p < |a.kinds| && Fits(a, p, k)
    ensures Sound(Appended(a, p, k))
  {
    var r := Appended(a, p, k);
    forall j | 2 <= j < |r.kinds| && r.parent[j].Some?
      ensures Fits(r, r.parent[j].value, r.kinds[j])
    {
      if j < |a.kinds| {
        var q := a.parent[j].value;
        assert Fits(a, q, a.kinds[j]);
        assert r.kinds[q] == a.kinds[q];
      }
    }
  }

  /** Detaching keeps the tree sound. */
  lemma DetachedSound(a: Arena, j: NodeId)
    requires Sound(a) && 2 <= j < |a.kinds|
    ensures Sound(Detached(a, j))
  {
    var r := Detached(a, j);
    forall i | 2 <= i < |r.kinds| && r.parent[i].Some?
      ensures Fits(r, r.parent[i].value, r.kinds[i])
    {
      assert r.parent[i] == a.parent[i];
    }
  }

  /**
   * `r` came from `a` by changes under `p` only: every old node keeps its
   * kind and parent, and of the old nodes only `p` gained children, after
   * the ones it had.
   */
  predicate Below(a: Arena, r: Arena, p: NodeId)
  {
    p < |a.kinds| <= |r.kinds|
    && |a.parent| == |a.kinds| && |a.kids| == |a.kinds| && |r.parent| == |r.kinds| && |r.kids| == |r.kinds|
    && (forall j :: 0 <= j < |a.kinds| ==> r.kinds[j] == a.kinds[j] && r.parent[j] == a.parent[j])
    && (forall j :: 0 <= j < |a.kinds| && j != p ==> r.kids[j] == a.kids[j])
    && a.kids[p] <= r.kids[p]
  }

  lemma AppendedBelow(a: Arena, p: NodeId, k: NodeKind)
    requires WellFormed(a) && p < |a.kinds|
    ensures Below(a, Appended(a, p, k), p)
  {
  }

  lemma BelowRefl(a: Arena, p: NodeId)
    requires WellFormed(a) && p < |a.kinds|
    ensures Below(a, a, p)
  {
  }

  lemma BelowTrans(a: Arena, b: Arena, c: Arena, p: NodeId)
    requires Below(a, b, p) && Below(b, c, p)
    ensures Below(a, c, p)
  {
    assert c.kids[p][..|b.kids[p]|] == b.kids[p];
    assert c.kids[p][..|a.kids[p]|] == b.kids[p][..|a.kids[p]|];
  }

  /** Changes under a node created after `a` are, seen from `a`, changes under nothing old. */
  lemma BelowNested(a: Arena, b: Arena, c: Arena, p: NodeId, g: NodeId)
    requires Below(a, b, p) && Below(b, c, g) && g >= |a.kinds|
    ensures Below(a, c, p)
  {
  }

  /** Changes below any node keep `Defs` where it was. */
  lemma BelowDefs(a: Arena, r: Arena, p: NodeId)
    requires WellFormed(a) && WellFormed(r) && Below(a, r, p)
    ensures DefsOf(r) == DefsOf(a)
  {
    assert r.kids[0][0] == a.kids[0][0];
  }

  /** No definition was created between `a` and `r`. */
  predicate NoNewDefinitions(a: Arena, r: Arena)
  {
    forall j :: |a.kinds| <= j < |r.kinds| ==> !IsDefinition(r.kinds[j])
  }

  lemma NoNewDefinitionsTrans(a: Arena, b: Arena, c: Arena, p: NodeId, q: NodeId)
    requires Below(a, b, p) && Below(b, c, q) && NoNewDefinitions(a, b) && NoNewDefinitions(b, c)
    ensures NoNewDefinitions(a, c)
  {
    forall j | |a.kinds| <= j < |c.kinds|
      ensures !IsDefinition(c.kinds[j])
    {
      if j < |b.kinds| {
        assert c.kinds[j] == b.kinds[j];
      }
    }
  }

  /** A node that fits under `p` still fits after changes under `p`. */
  lemma FitsBelow(a: Arena, r: Arena, p: NodeId, q: NodeId, k: NodeKind)
    requires WellFormed(a) && WellFormed(r) && Below(a, r, p) && q < |a.kinds| && Fits(a, q, k)
    ensures Fits(r, q, k)
  {
    assert r.kids[0][0] == a.kids[0][0];
  }

  /** The ids lo, lo + 1, ..., hi - 1. */
  function Range(lo: nat, hi: nat): (r: seq<NodeId>)
    requires lo <= hi
    ensures |r| == hi - lo && forall i :: 0 <= i < |r| ==> r[i] == lo + i
  {
    seq(hi - lo, i requires 0 <= i < hi - lo => lo + i)
  }

  /**
   * Appending each of `ks` in turn under `p`: the new nodes come last in the
   * arena and as the last children of `p`, in the order of `ks`.
   */
  function AppendedAll(a: Arena, p: NodeId, ks: seq<NodeKind>): (r: Arena)
    requires Sound(a) && p < |a.kinds| && forall i :: 0 <= i < |ks| ==> Fits(a, p, ks[i])
    ensures Sound(r) && Below(a, r, p)
    ensures r.kinds == a.kinds + ks
    ensures r.kids[p] == a.kids[p] + Range(|a.kinds|, |r.kinds|)
    decreases |ks|
  {
    if ks == [] then
      assert a.kids[p] + Range(|a.kinds|, |a.kinds|) == a.kids[p];
      a
    else
      var init, k := ks[..|ks| - 1], ks[|ks| - 1];
      assert forall i :: 0 <= i < |init| ==> init[i] == ks[i];
      var b := AppendedAll(a, p, init);
      AppendedAllStep(a, b, p, init, k);
      SnocSplit(ks);
      Appended(b, p, k)
  }

  lemma SnocSplit(ks: seq<NodeKind>)
    requires ks != []
    ensures ks == ks[..|ks| - 1] + [ks[|ks| - 1]]
  {
  }

  lemma AppendedAllStep(a: Arena, b: Arena, p: NodeId, init: seq<NodeKind>, k: NodeKind)
    requires Sound(a) && Sound(b) && p < |a.kinds| && Below(a, b, p) && Fits(a, p, k)
    requires b.kinds == a.kinds + init
    requires b.kids[p] == a.kids[p] + Range(|a.kinds|, |b.kinds|)
    ensures Sound(Appended(b, p, k)) && Below(a, Appended(b, p, k), p)
    ensures Appended(b, p, k).kinds == a.kinds + (init + [k])
    ensures Appended(b, p, k).kids[p] == a.kids[p] + Range(|a.kinds|, |b.kinds| + 1)
  {
    FitsBelow(a, b, p, p, k);
    AppendedSound(b, p, k);
    var r := Appended(b, p, k);
    AppendedBelow(b, p, k);
    BelowTrans(a, b, r, p);
    assert Range(|a.kinds|, |r.kinds|) == Range(|a.kinds|, |b.kinds|) + [|b.kinds|];
  }

  /** The `Tree` the conversion builds, and its in-place operations. */
  class Tree {
    var kinds: seq<NodeKind>
    var parent: seq<Option<NodeId>>
    var kids: seq<seq<NodeId>>

    /** The arena the three fields make up. */
    function State(): Arena
      reads this
    {
      Arena(kinds, parent, kids)
    }

    ghost predicate Valid()
      reads this
    {
      WellFormed(State())
    }

    /** `Tree::create`. */
    constructor Create(svg: Svg)
      ensures Valid() && State() == Created(svg)
    {
      kinds := [SvgKind(svg), DefsKind];
      parent := [None, Some(0)];
      kids := [[1], []];
    }

    /** `append_child`: returns the new node's id. */
    method AppendChild(p: NodeId, kind: NodeKind) returns (id: NodeId)
      requires Valid() && p < |kinds|
      modifies this
      ensures Valid() && id == old(|kinds|)
      ensures State() == Appended(old(State()), p, kind)
    {
      id := |kinds|;
      kinds := kinds + [kind];
      parent := parent + [Some(p)];
      kids := kids[p := kids[p] + [id]] + [[]];
    }

    /** `append_to_defs`. */
    method AppendToDefs(kind: NodeKind) returns (id: NodeId)
      requires Valid()
      modifies this
      ensures Valid() && id == old(|kinds|)
      ensures State() == Appended(old(State()), DefsOf(old(State())), kind)
    {
      id := AppendChild(kids[0][0], kind);
    }

    /** `detach`. */
    method Detach(j: NodeId)
      requires Valid() && 2 <= j < |kinds|
      modifies this
      ensures Valid() && State() == Detached(old(State()), j)
    {
      ghost var a := State();
      assert Shaped(a);
      if parent[j].Some? {
        var p := parent[j].value;
        kids := kids[p := Without(kids[p], j)];
        parent := parent[j := None];
        assert State() == Arena(a.kinds, a.parent[j := None], a.kids[p := Without(a.kids[p], j)]);
        assert State() == Detached(a, j);
      }
      assert State() == Detached(a, j);
    }

    /** `is_in_defs`: the walk up the ancestors, stopping at `Defs`. */
    method IsInDefs(j: NodeId) returns (b: bool)
      requires Valid() && j < |kinds|
      ensures b == InDefs(State(), j)
    {
      var a := State();
      assert Shaped(a);
      var defs := kids[0][0];
      var cur: NodeId := j;
      b := false;
      while !b && a.parent[cur].Some?
        invariant cur < |a.kinds|
        invariant InDefs(a, j) <==> b || defs in Ancestors(a, cur)
        decreases cur
      {
        var p := a.parent[cur].value;
        b := p == defs;
        cur := p;
      }
    }

    /** `defs_at`: the loop over the children of `Defs`. */
    method DefsAt(j: NodeId) returns (r: Option<NodeId>)
      requires Valid()
      ensures r == DefsChild(State(), j)
    {
      var cs := kids[kids[0][0]];
      for i := 0 to |cs|
        invariant j !in cs[..i]
      {
        if cs[i] == j {
          return Some(j);
        }
      }
      assert cs[..|cs|] == cs;
      return None;
    }

    /** `defs_by_svg_id`: the loop over the children of `Defs`. */
    method DefsBySvgId(id: string) returns (r: Option<NodeId>)
      requires Valid()
      ensures r == DefsById(State(), id)
    {
      var cs := kids[kids[0][0]];
      KidsAfter(State(), kids[0][0]);
      for i := 0 to |cs|
        invariant FirstById(State(), cs, id) == FirstById(State(), cs[i..], id)
      {
        assert cs[i..][1..] == cs[i + 1..];
        if kinds[cs[i]].Id() == id {
          return Some(cs[i]);
        }
      }
      return None;
    }

    /** `node_by_svg_id`: the walk from the root, skipping what is in `Defs`. */
    method NodeBySvgId(id: string) returns (r: Option<NodeId>)
      requires Valid()
      ensures r == NodeById(State(), id)
    {
      if id == "" {
        return None;
      }
      var nodes := Pre(State(), RootId);
      for i := 0 to |nodes|
        invariant FirstOutside(State(), nodes, id) == FirstOutside(State(), nodes[i..], id)
      {
        assert nodes[i..][1..] == nodes[i + 1..];
        var inDefs := IsInDefs(nodes[i]);
        if !inDefs && kinds[nodes[i]].Id() == id {
          return Some(nodes[i]);
        }
      }
      return None;
    }
  }
}
