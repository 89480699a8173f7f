/**
 * `resolve_visibility`: a hidden element other than a `g` is removed; a
 * hidden `g` loses its `visibility` and every child of it that does not say
 * `visible` itself is removed (visibility is not inherited). The walk
 * collects the nodes first, children before parents, and removes them
 * afterwards.
 */
module ResolveVisibility {
  import opened Wrappers
  import opened SvgTypes
  import opened Dom
  import opened Traits

  /** `is_hidden`: a string visibility other than `visible`. */
  predicate IsHidden(n: Node)
  {
    GetStr(n, AId.Visibility) != Some("visible") && GetStr(n, AId.Visibility) != Option.None
  }

  /** The test a hidden group applies to each of its children. */
  predicate NotVisible(n: Node)
  {
    GetStr(n, AId.Visibility) != Some("visible")
  }

  /** The attribute edit of the walk: a hidden group drops its `visibility`. */
  function Clear(n: Node): (r: Node)
    ensures HeadOf(r) == HeadOf(n) || (n.Is(EId.G) && IsHidden(n))
    ensures n.Is(EId.G) && IsHidden(n) ==> r.attrs == n.attrs - {AId.Visibility} && !IsHidden(r) && r.uid == n.uid
  {
    if n.Is(EId.G) && IsHidden(n) then n.Remove(AId.Visibility) else n
  }

  /** The uids, in order, of the children a hidden group pushes. */
  function ChildMarks(cs: seq<Node>): (r: seq<UId>)
    ensures forall u :: u in r <==> exists c :: c in cs && NotVisible(c) && c.uid == u
  {
    if cs == [] then []
    else (if NotVisible(cs[0]) then [cs[0].uid] else []) + ChildMarks(cs[1..])
  }

  /** What the walk leaves of a forest and the nodes it pushed, in push order. */
  datatype Pass = Pass(nodes: seq<Node>, pushed: seq<UId>)

  /** What one node pushes once its children `cs` are walked. */
  function Own(n: Node, cs: seq<Node>): seq<UId>
  {
    if n.Is(EId.G) then (if IsHidden(n) then ChildMarks(cs) else [])
    else if IsHidden(n) then [n.uid] else []
  }

  /**
   * `_resolve` over a list of siblings: each node's subtree first, then the
   * node itself against its already walked children.
   */
  function Resolve(ns: seq<Node>): (r: Pass)
    ensures |r.nodes| == |ns|
  {
    if ns == [] then Pass([], [])
    else
      var n := ns[0];
      var sub := Resolve(n.children);
      var rest := Resolve(ns[1..]);
      Pass([Clear(n).(children := sub.nodes)] + rest.nodes, sub.pushed + Own(n, sub.nodes) + rest.pushed)
  }

  /** The walk's attribute edits are a node-by-node rewrite: hidden groups lose `visibility`. */
  lemma {:induction false} ResolveEdits(ns: seq<Node>)
    ensures Resolve(ns).nodes == MapNodes(ns, Clear)
  {
    if ns != [] {
      ResolveEdits(ns[0].children);
      ResolveEdits(ns[1..]);
      var m := MapNodes(ns, Clear);
      assert m[1..] == MapNodes(ns[1..], Clear);
      assert m == [m[0]] + m[1..];
    }
  }

  /** The child test sees a cleared group exactly as it saw the original. */
  lemma {:induction false} ChildMarksClear(cs: seq<Node>)
    ensures ChildMarks(MapNodes(cs, Clear)) == ChildMarks(cs)
  {
    if cs != [] {
      var m := MapNodes(cs, Clear);
      assert m[1..] == MapNodes(cs[1..], Clear);
      assert NotVisible(m[0]) <==> NotVisible(cs[0]);
      ChildMarksClear(cs[1..]);
    }
  }

  function Elems(s: seq<UId>): set<UId> { set u | u in s }

  /** The uids one node of the original tree gets pushed for. */
  function NodeMarks(n: Node): (r: set<UId>)
    ensures !n.Is(EId.G) ==> (r == if IsHidden(n) then {n.uid} else {})
    ensures n.Is(EId.G) ==> forall u :: u in r <==> IsHidden(n) && exists c :: c in n.children && NotVisible(c) && c.uid == u
  {
    if n.Is(EId.G) then (if IsHidden(n) then Elems(ChildMarks(n.children)) else {})
    else if IsHidden(n) then {n.uid} else {}
  }

  /** The marks of every node of a sequence. */
  function MarksOf(s: seq<Node>): (r: set<UId>)
  {
    if s == [] then {} else NodeMarks(s[0]) + MarksOf(s[1..])
  }

  lemma {:induction false} MarksOfAppend(a: seq<Node>, b: seq<Node>)
    ensures MarksOf(a + b) == MarksOf(a) + MarksOf(b)
  {
    if a != [] {
      assert (a + b)[1..] == a[1..] + b;
      MarksOfAppend(a[1..], b);
    } else {
      assert a + b == b;
    }
  }

  lemma {:induction false} MarksOfMember(s: seq<Node>, u: UId)
    ensures u in MarksOf(s) <==> exists n :: n in s && u in NodeMarks(n)
  {
    if s != [] {
      MarksOfMember(s[1..], u);
      assert forall n :: n in s <==> n == s[0] || n in s[1..];
    }
  }

  lemma ElemsAppend(a: seq<UId>, b: seq<UId>)
    ensures Elems(a + b) == Elems(a) + Elems(b)
  {
  }

  /** A node's own pushes, against its walked children, are its marks. */
  lemma OwnMarks(n: Node)
    ensures Elems(Own(n, MapNodes(n.children, Clear))) == NodeMarks(n)
  {
    ChildMarksClear(n.children);
  }

  /** What the walk pushes for a forest: the first subtree's, the first node's own, the rest's. */
  lemma PushedStep(ns: seq<Node>)
    requires ns != []
    ensures Elems(Resolve(ns).pushed)
            == Elems(Resolve(ns[0].children).pushed) + NodeMarks(ns[0]) + Elems(Resolve(ns[1..]).pushed)
  {
    var n := ns[0];
    var sub := Resolve(n.children);
    var rest := Resolve(ns[1..]);
    ResolveEdits(n.children);
    OwnMarks(n);
    ElemsAppend(sub.pushed, Own(n, sub.nodes));
    ElemsAppend(sub.pushed + Own(n, sub.nodes), rest.pushed);
  }

  /** The walk pushes exactly the marks of the nodes of the forest, at any depth. */
  lemma {:induction false} PushedMarks(ns: seq<Node>)
    ensures Elems(Resolve(ns).pushed) == MarksOf(Flat(ns))
  {
    if ns != [] {
      var n := ns[0];
      PushedMarks(n.children);
      PushedMarks(ns[1..]);
      PushedStep(ns);
      assert Flat(ns) == [n] + Flat(n.children) + Flat(ns[1..]);
      MarksOfAppend([n] + Flat(n.children), Flat(ns[1..]));
      MarksOfAppend([n], Flat(n.children));
      assert MarksOf([n]) == NodeMarks(n);
    }
  }

  /** The nodes to remove: every node pushed by the walk. */
  function Drops(svg: Node): set<UId>
  {
    Elems(Resolve(svg.children).pushed)
  }

  /**
   * `resolve_visibility` from the `svg` element, with each pushed node
   * removed once: the walked tree with the collected subtrees taken out.
   */
  function ResolveVisibility(svg: Node): (r: Node)
    ensures r.uid == svg.uid && r.kind == svg.kind
  {
    RemoveNodes(svg.(children := Resolve(svg.children).nodes), Drops(svg))
  }

  /** The pass is the removal of the pushed nodes from the cleared tree. */
  lemma ResolveVisibilityIs(svg: Node)
    ensures ResolveVisibility(svg) == RemoveNodes(svg.(children := MapNodes(svg.children, Clear)), Drops(svg))
  {
    ResolveEdits(svg.children);
  }

  /** Every node of the walked forest is the cleared form of the original node at its place. */
  lemma ClearedOrigin(ns: seq<Node>, w: Node) returns (o: Node)
    requires w in Flat(MapNodes(ns, Clear))
    ensures o in Flat(ns) && HeadOf(w) == HeadOf(Clear(o))
  {
    MapNodesFlat(ns, Clear);
    var s := Flat(MapNodes(ns, Clear));
    var k :| 0 <= k < |s| && s[k] == w;
    o := Flat(ns)[k];
  }

  /** Dropping links leaves a string `visibility` as it was. */
  lemma UnlinkedVisibility(w: Node, m: Node, gone: set<UId>)
    requires HeadOf(m) == HeadOf(w).(attrs := Unlinked(w.attrs, gone))
    ensures m.uid == w.uid && m.kind == w.kind && GetStr(m, AId.Visibility) == GetStr(w, AId.Visibility)
  {
    assert m.attrs == Unlinked(w.attrs, gone);
  }

  /** A survivor of a removal keeps the uid, kind and string `visibility` of the node it was. */
  lemma RemovalOrigin(doc: Node, drop: set<UId>, m: Node) returns (w: Node)
    requires m in Flat(RemoveNodes(doc, drop).children)
    ensures w in Flat(doc.children) && w.uid !in drop && m.uid == w.uid && m.kind == w.kind
            && GetStr(m, AId.Visibility) == GetStr(w, AId.Visibility)
  {
    RemoveNodesHeads(doc, drop);
    var gone := DroppedUids(doc.children, drop);
    w :| w in Flat(doc.children) && w.uid !in drop && HeadOf(m) == HeadOf(w).(attrs := Unlinked(w.attrs, gone));
    UnlinkedVisibility(w, m, gone);
  }

  /** A node that survives the removal is the cleared node of the original that was there. */
  lemma SurvivorOrigin(svg: Node, m: Node) returns (o: Node)
    requires m in Flat(ResolveVisibility(svg).children)
    ensures o in Flat(svg.children) && m.uid == o.uid && m.uid !in Drops(svg)
            && m.kind == o.kind && GetStr(m, AId.Visibility) == GetStr(Clear(o), AId.Visibility)
  {
    var walked := svg.(children := MapNodes(svg.children, Clear));
    ResolveVisibilityIs(svg);
    var w := RemovalOrigin(walked, Drops(svg), m);
    o := ClearedOrigin(svg.children, w);
    assert GetStr(w, AId.Visibility) == GetStr(Clear(o), AId.Visibility);
  }

  /** No hidden element is left below the `svg` element. */
  lemma NoHiddenLeft(svg: Node)
    ensures forall m :: m in Flat(ResolveVisibility(svg).children) ==> !IsHidden(m)
  {
    PushedMarks(svg.children);
    forall m | m in Flat(ResolveVisibility(svg).children)
      ensures !IsHidden(m)
    {
      var o := SurvivorOrigin(svg, m);
      if !o.Is(EId.G) && IsHidden(o) {
        MarksOfMember(Flat(svg.children), o.uid);
        assert false;
      }
    }
  }

  /** The children of a hidden group that do not say `visible` themselves are gone. */
  lemma HiddenGroupChildrenGone(svg: Node, g: Node, c: Node)
    requires g in Flat(svg.children) && g.Is(EId.G) && IsHidden(g)
    requires c in g.children && NotVisible(c)
    ensures forall m :: m in Flat(ResolveVisibility(svg).children) ==> m.uid != c.uid
  {
    PushedMarks(svg.children);
    MarksOfMember(Flat(svg.children), c.uid);
    assert c.uid in NodeMarks(g);
    RemoveNodesHeads(svg.(children := Resolve(svg.children).nodes), Drops(svg));
  }

  /**
   * Exactly what remains: the nodes of the walked tree that are outside every
   * removed subtree, in document order, links into removed nodes dropped.
   */
  lemma KeepsTheRest(svg: Node)
    ensures var walked := svg.(children := MapNodes(svg.children, Clear));
            HeadSeq(Flat(ResolveVisibility(svg).children))
            == UnlinkHeadSeq(HeadSeq(Outside(walked.children, Drops(svg))), DroppedUids(walked.children, Drops(svg)))
  {
    ResolveVisibilityIs(svg);
    RemoveNodesOutside(svg.(children := MapNodes(svg.children, Clear)), Drops(svg));
  }

  // ---- the removal loop as written ----

  /** `Vec::dedup`: collapses runs of equal neighbours only. */
  function Dedup(us: seq<UId>): (r: seq<UId>)
    ensures forall u :: u in r <==> u in us
    ensures forall i :: 0 <= i < |r| - 1 ==> r[i] != r[i + 1]
    ensures |r| <= |us|
    ensures us != [] ==> r != [] && r[0] == us[0]
  {
    if |us| <= 1 then us
    else if us[0] == us[1] then Dedup(us[1..])
    else [us[0]] + Dedup(us[1..])
  }

  /** `doc.remove_node` for each collected node in turn; removing a node already gone panics. */
  function RemoveEach(doc: Node, us: seq<UId>): (r: Option<Node>)
    decreases |us|
  {
    if us == [] then Some(doc)
    else if us[0] in UidSet(Flat(doc.children)) then RemoveEach(RemoveNodes(doc, {us[0]}), us[1..])
    else Option.None
  }

  /** `resolve_visibility` as written: collect, `dedup`, remove one by one. */
  function ResolveVisibilityAsWritten(svg: Node): Option<Node>
  {
    var p := Resolve(svg.children);
    RemoveEach(svg.(children := p.nodes), Dedup(p.pushed))
  }

  /** A removal never brings a uid back. */
  lemma AbsentStays(doc: Node, drop: set<UId>, u: UId)
    requires u !in UidSet(Flat(doc.children))
    ensures u !in UidSet(Flat(RemoveNodes(doc, drop).children))
  {
    RemoveNodesHeads(doc, drop);
  }

  /** Once a uid is gone, a later removal of it fails. */
  lemma {:induction false} RemoveAbsentFails(doc: Node, us: seq<UId>, j: nat)
    requires j < |us| && us[j] !in UidSet(Flat(doc.children))
    ensures RemoveEach(doc, us).None?
    decreases j
  {
    if j > 0 && us[0] in UidSet(Flat(doc.children)) {
      var next := RemoveNodes(doc, {us[0]});
      assert RemoveEach(doc, us) == RemoveEach(next, us[1..]);
      assert us[1..][j - 1] == us[j];
      AbsentStays(doc, {us[0]}, us[j]);
      RemoveAbsentFails(next, us[1..], j - 1);
    }
  }

  /** A uid listed twice makes the removal loop fail. */
  lemma {:induction false} RemoveTwiceFails(doc: Node, us: seq<UId>, i: nat, j: nat)
    requires i < j < |us| && us[i] == us[j]
    ensures RemoveEach(doc, us).None?
    decreases i
  {
    if us[0] in UidSet(Flat(doc.children)) {
      var next := RemoveNodes(doc, {us[0]});
      if i == 0 {
        RemoveNodesHeads(doc, {us[0]});
        RemoveAbsentFails(next, us[1..], j - 1);
      } else {
        RemoveTwiceFails(next, us[1..], i - 1, j - 1);
      }
    }
  }

  /** Two hidden rectangles, uids 2 and 3, inside a hidden group, uid 1. */
  function HiddenPair(): seq<Node>
  {
    var hidden := map[AId.Visibility := AValue.String("hidden")];
    [Node(2, Element(EId.Rect), "", hidden, []), Node(3, Element(EId.Rect), "", hidden, [])]
  }

  function HiddenGroupSvg(): Node
  {
    var hidden := map[AId.Visibility := AValue.String("hidden")];
    Node(0, Element(EId.Svg), "", map[], [Node(1, Element(EId.G), "", hidden, HiddenPair())])
  }

  /** The walk pushes each rectangle once for itself and once for the group. */
  lemma HiddenGroupPushes()
    ensures Resolve(HiddenGroupSvg().children).pushed == [2, 3, 2, 3]
  {
    var cs := HiddenPair();
    assert cs[1..] == [cs[1]];
    assert Resolve([cs[1]]) == Pass([cs[1]], [3]);
    assert Resolve(cs) == Pass(cs, [2, 3]);
    assert ChildMarks([cs[1]]) == [3];
    assert ChildMarks(cs) == [2, 3];
  }

  /**
   * A hidden group with two hidden children: `dedup` keeps all four entries,
   * and the second removal of the first child fails.
   */
  lemma HiddenGroupExample()
    ensures Dedup(Resolve(HiddenGroupSvg().children).pushed) == [2, 3, 2, 3]
    ensures ResolveVisibilityAsWritten(HiddenGroupSvg()).None?
  {
    HiddenGroupPushes();
    assert Dedup([2, 3]) == [2, 3];
    assert Dedup([3, 2, 3]) == [3, 2, 3];
    assert Dedup([2, 3, 2, 3]) == [2, 3, 2, 3];
    var svg := HiddenGroupSvg();
    RemoveTwiceFails(svg.(children := Resolve(svg.children).nodes), [2, 3, 2, 3], 0, 2);
  }

  // ---- the pass again ----

  /** A forest with no hidden node is walked without change and pushes nothing. */
  lemma {:induction false} NothingHidden(ns: seq<Node>)
    requires forall m :: m in Flat(ns) ==> !IsHidden(m)
    ensures MapNodes(ns, Clear) == ns
    ensures MarksOf(Flat(ns)) == {}
  {
    if ns != [] {
      FlatContains(ns, 0);
      assert forall m :: m in Flat(ns[1..]) ==> m in Flat(ns);
      NothingHidden(ns[0].children);
      NothingHidden(ns[1..]);
      var m := MapNodes(ns, Clear);
      assert m[1..] == MapNodes(ns[1..], Clear);
      assert m == [m[0]] + m[1..];
      assert ns == [ns[0]] + ns[1..];
      assert Flat(ns) == [ns[0]] + Flat(ns[0].children) + Flat(ns[1..]);
      MarksOfAppend([ns[0]] + Flat(ns[0].children), Flat(ns[1..]));
      MarksOfAppend([ns[0]], Flat(ns[0].children));
      assert MarksOf([ns[0]]) == NodeMarks(ns[0]);
    }
  }

  /** Running the pass twice gives what running it once does. */
  lemma Idempotent(svg: Node)
    ensures ResolveVisibility(ResolveVisibility(svg)) == ResolveVisibility(svg)
  {
    var r := ResolveVisibility(svg);
    NoHiddenLeft(svg);
    NothingHidden(r.children);
    ResolveEdits(r.children);
    PushedMarks(r.children);
    RemoveNothing(r);
  }
}
