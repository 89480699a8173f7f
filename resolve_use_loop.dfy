/**
 * `resolve_use`: sweeps over the document's `use` elements until a sweep
 * expands none. Each expansion puts a copy of the linked node right after
 * the `use` (inside a new `g`, and clipped, for a `symbol`), gives it the
 * `use`'s attributes and id, points every link to the `use` at the copy,
 * and removes the `use`. A rejected `use` is removed at the end of its
 * sweep.
 *
 * Nodes are values; a node the source creates gets a uid from the counter
 * `next`, which starts past every uid of the document.
 */
module ResolveUseLoop {
  import opened Wrappers
  import opened SvgTypes
  import opened Dom
  import opened Traits
  import Geom
  import opened ResolveUse
  import ResolvePatternChildren
  import RmUnusedDefs
  import DocDrain

  // ---- heads of a forest ----

  /** No two heads of the set share a uid. */
  predicate UidFunctional(hs: set<Head>)
  {
    forall a, b :: a in hs && b in hs && a.uid == b.uid ==> a == b
  }

  lemma HeadUniqueIff(ns: seq<Node>)
    ensures DocDrain.HeadUnique(ns) <==> UidFunctional(Heads(ns))
  {
    if UidFunctional(Heads(ns)) {
      forall a, b | a in Flat(ns) && b in Flat(ns) && a.uid == b.uid
        ensures HeadOf(a) == HeadOf(b)
      {
        assert HeadOf(a) in Heads(ns) && HeadOf(b) in Heads(ns);
      }
    }
  }

  lemma HeadsAppend(a: seq<Node>, b: seq<Node>)
    ensures Heads(a + b) == Heads(a) + Heads(b)
  {
    FlatAppend(a, b);
  }

  lemma HeadsCons(ns: seq<Node>)
    requires ns != []
    ensures Heads(ns) == {HeadOf(ns[0])} + Heads(ns[0].children) + Heads(ns[1..])
  {
    assert Flat(ns) == [ns[0]] + Flat(ns[0].children) + Flat(ns[1..]);
    assert Heads([ns[0]]) == {HeadOf(ns[0])} + Heads(ns[0].children) by {
      assert Flat([ns[0]]) == [ns[0]] + Flat(ns[0].children);
    }
    assert ns == [ns[0]] + ns[1..];
    HeadsAppend([ns[0]], ns[1..]);
  }

  /** Some node of the forest has uid `u`. */
  predicate Present(ns: seq<Node>, u: UId)
  {
    exists h :: h in Heads(ns) && h.uid == u
  }

  // ---- insert_after ----

  /** `insert_after`: `x` becomes the next sibling of each node with uid `u`. */
  function InsertAfter(ns: seq<Node>, u: UId, x: Node): seq<Node>
  {
    if ns == [] then []
    else
      [ns[0].(children := InsertAfter(ns[0].children, u, x))]
      + (if ns[0].uid == u then [x] else [])
      + InsertAfter(ns[1..], u, x)
  }

  /**
   * An insertion changes no node and adds exactly the nodes of `x`, and
   * does so exactly when a node with uid `u` is there.
   */
  lemma {:induction false} InsertAfterHeads(ns: seq<Node>, u: UId, x: Node)
    ensures Heads(InsertAfter(ns, u, x)) == Heads(ns) + (if Present(ns, u) then Heads([x]) else {})
  {
    if ns != [] {
      var h := ns[0].(children := InsertAfter(ns[0].children, u, x));
      var mid := if ns[0].uid == u then [x] else [];
      var rest := InsertAfter(ns[1..], u, x);
      InsertAfterHeads(ns[0].children, u, x);
      InsertAfterHeads(ns[1..], u, x);
      var r := [h] + mid + rest;
      assert r[0] == h && r[1..] == mid + rest;
      HeadsCons(r);
      HeadsAppend(mid, rest);
      HeadsCons(ns);
      PresentCons(ns, u);
      assert HeadOf(h) == HeadOf(ns[0]);
      assert Heads(mid) == if ns[0].uid == u then Heads([x]) else {};
      Union4(HeadOf(ns[0]), Heads(ns[0].children), Heads(ns[1..]), Heads([x]),
             ns[0].uid == u, Present(ns[0].children, u), Present(ns[1..], u));
    }
  }

  lemma PresentCons(ns: seq<Node>, u: UId)
    requires ns != []
    ensures Present(ns, u) <==> ns[0].uid == u || Present(ns[0].children, u) || Present(ns[1..], u)
  {
    HeadsCons(ns);
    if ns[0].uid == u {
      assert HeadOf(ns[0]) in Heads(ns);
    }
  }

  /** The set algebra of one step of the two lemmas above. */
  lemma Union4(h: Head, a: set<Head>, b: set<Head>, x: set<Head>, p0: bool, p1: bool, p2: bool)
    ensures {h} + (a + (if p1 then x else {})) + ((if p0 then x else {}) + (b + (if p2 then x else {})))
            == {h} + a + b + (if p0 || p1 || p2 then x else {})
    ensures {h} + ((a + (if p1 then x else {})) + (if p0 then x else {})) + (b + (if p2 then x else {}))
            == {h} + a + b + (if p0 || p1 || p2 then x else {})
  {
  }

  // ---- append, for the new clipPath in defs ----

  /** An append changes no node and adds exactly the nodes of `x`, when the parent is there. */
  lemma {:induction false} AppendToHeads(ns: seq<Node>, p: UId, x: Node)
    ensures Heads(RmUnusedDefs.AppendTo(ns, p, x)) == Heads(ns) + (if Present(ns, p) then Heads([x]) else {})
  {
    if ns != [] {
      var r := RmUnusedDefs.AppendTo(ns, p, x);
      var kids := RmUnusedDefs.AppendTo(ns[0].children, p, x);
      var tail := if ns[0].uid == p then [x] else [];
      AppendToHeads(ns[0].children, p, x);
      AppendToHeads(ns[1..], p, x);
      assert r[0].children == kids + tail;
      assert r[1..] == RmUnusedDefs.AppendTo(ns[1..], p, x);
      HeadsCons(r);
      HeadsAppend(kids, tail);
      HeadsCons(ns);
      PresentCons(ns, p);
      assert HeadOf(r[0]) == HeadOf(ns[0]);
      assert Heads(tail) == if ns[0].uid == p then Heads([x]) else {};
      Union4(HeadOf(ns[0]), Heads(ns[0].children), Heads(ns[1..]), Heads([x]),
             ns[0].uid == p, Present(ns[0].children, p), Present(ns[1..], p));
    }
  }

  // ---- relinking to the copy ----

  /** Some attribute of the head links to `u`. */
  predicate HeadLinksTo(h: Head, u: UId)
  {
    exists a :: a in h.attrs && LinksTo(h.attrs[a], u)
  }

  /** `n.set_attribute(xlink:href, new_node)` on a node that links to `from`, read on its head. */
  function RelinkHead(h: Head, from: UId, to: UId): Head
  {
    if HeadLinksTo(h, from) then h.(attrs := h.attrs[AId.Href := AValue.Link(to)]) else h
  }

  /** The loop over the `use`'s `linked_nodes()`: every node linking to `from` gets an href to `to`. */
  function RelinkAll(ns: seq<Node>, from: UId, to: UId): seq<Node>
  {
    if ns == [] then []
    else
      var h := RelinkHead(HeadOf(ns[0]), from, to);
      [ns[0].(attrs := h.attrs, children := RelinkAll(ns[0].children, from, to))] + RelinkAll(ns[1..], from, to)
  }

  function Relink(doc: Node, from: UId, to: UId): Node
  {
    doc.(children := RelinkAll(doc.children, from, to))
  }

  /** The heads of the relinked forest are exactly the relinks of the heads before. */
  lemma {:induction false} RelinkHeads(ns: seq<Node>, from: UId, to: UId)
    ensures Heads(RelinkAll(ns, from, to)) == Image(Heads(ns), from, to)
  {
    if ns != [] {
      var r := RelinkAll(ns, from, to);
      RelinkHeads(ns[0].children, from, to);
      RelinkHeads(ns[1..], from, to);
      assert r[1..] == RelinkAll(ns[1..], from, to);
      assert HeadOf(r[0]) == RelinkHead(HeadOf(ns[0]), from, to);
      HeadsCons(r);
      HeadsCons(ns);
      ImageUnion3(HeadOf(ns[0]), Heads(ns[0].children), Heads(ns[1..]), from, to);
    }
  }

  function Image(hs: set<Head>, from: UId, to: UId): set<Head>
  {
    set h | h in hs :: RelinkHead(h, from, to)
  }

  lemma ImageUnion3(h: Head, a: set<Head>, b: set<Head>, from: UId, to: UId)
    ensures Image({h} + a + b, from, to) == {RelinkHead(h, from, to)} + Image(a, from, to) + Image(b, from, to)
  {
  }

  /** A relink keeps uids unique, and every uid that was there is there after it. */
  lemma RelinkUnique(doc: Node, from: UId, to: UId)
    ensures UidFunctional(Heads(doc.children)) ==> UidFunctional(Heads(Relink(doc, from, to).children))
    ensures forall x :: Present(doc.children, x) ==> Present(Relink(doc, from, to).children, x)
  {
    RelinkHeads(doc.children, from, to);
    var hs := Heads(doc.children);
    forall x | Present(doc.children, x)
      ensures Present(Relink(doc, from, to).children, x)
    {
      var h :| h in hs && h.uid == x;
      assert RelinkHead(h, from, to) in Image(hs, from, to);
    }
    if UidFunctional(hs) {
      forall a, b | a in Image(hs, from, to) && b in Image(hs, from, to) && a.uid == b.uid
        ensures a == b
      {
        var oa :| oa in hs && a == RelinkHead(oa, from, to);
        var ob :| ob in hs && b == RelinkHead(ob, from, to);
      }
    }
  }

  // ---- the nodes one expansion creates ----

  /** `view_box_to_transform`, which is not part of this model. */
  type Fit = (Geom.Rect, AspectRatio, real, real) -> Transform

  /** `copy_node_deep(t)`: the copy of `t` and its subtree, no ids, uids from `first` in document order. */
  function CopyOf(t: Node, first: nat): Node
  {
    Node(first, t.kind, "", t.attrs, ResolvePatternChildren.DeepCopies(t.children, first + 1))
  }

  /** The new node gets the `use`'s attributes, merged, and the `use`'s id. */
  function TakeUse(u: Node, c: Node): Node
  {
    c.(attrs := MergedAttrs(PreparedUseAttrs(u), c.attrs), id := u.id)
  }

  /** `resolve_symbol`'s `g`: the viewBox transform, if any, over copies of the symbol's children. */
  function SymbolGroup(u: Node, t: Node, next: nat, fit: Fit): Node
  {
    var attrs := match ViewBoxTransform(u, t, fit)
                 case Some(ts) => map[AId.Transform := AValue.Transform(ts)]
                 case None => map[];
    Node(next, Element(EId.G), "", attrs, ResolvePatternChildren.DeepCopies(t.children, next + 4))
  }

  /** The new `clipPath` with its one `rect`. */
  function ClipNode(rc: Geom.Rect, id: string, next: nat): Node
  {
    var rect := Node(next + 3, Element(EId.Rect), "",
                     map[AId.X := AValue.Number(rc.x), AId.Y := AValue.Number(rc.y),
                         AId.Width := AValue.Number(rc.w), AId.Height := AValue.Number(rc.h)], []);
    Node(next + 2, Element(EId.ClipPath), id, map[], [rect])
  }

  /**
   * What an expansion inserts after the `use` (`outer`), the node that takes
   * the `use`'s attributes and id (`inner`), the `clipPath` and the `defs`
   * it goes to, and the clip-path counter afterwards.
   */
  datatype Placed = Placed(outer: Node, inner: Node, clip: Option<(UId, Node)>, idx: nat)

  /** `resolve_symbol` with a clip: `g` inside a new `g` that links to a new `clipPath`. */
  function Clipped(g: Node, defs: UId, rc: Geom.Rect, k: nat, next: nat): Placed
  {
    Placed(Node(next + 1, Element(EId.G), "", map[AId.ClipPath := AValue.FuncLink(next + 2)], [g]),
           g, Some((defs, ClipNode(rc, ClipId(k), next))), k)
  }

  function Place(doc: Node, u: Node, t: Node, next: nat, idx: nat, fit: Fit): Placed
  {
    if t.Is(EId.Symbol) then
      var g := TakeUse(u, SymbolGroup(u, t, next, fit));
      match (ClipRect(doc, u), DefsElement(doc))
      case (Some(rc), Some(defs)) =>
        Clipped(g, defs.uid, rc, FreeIndex(Ids(doc), idx), next)
      case _ => Placed(g, g, Option.None, idx)
    else
      var c := TakeUse(u, CopyOf(t, next + 4));
      Placed(c, c, Option.None, idx)
  }

  /**
   * The copy of anything but a `symbol` copies it node by node, below its
   * top: same kinds and attributes, no ids, new uids. The top has the
   * linked node's kind, the `use`'s id and the merge of the `use`'s
   * attributes into the linked node's own, and is both what is inserted
   * and what links are moved to.
   */
  lemma PlaceCopy(doc: Node, u: Node, t: Node, next: nat, idx: nat, fit: Fit)
    requires !t.Is(EId.Symbol)
    ensures var p := Place(doc, u, t, next, idx, fit);
            p.outer == p.inner && p.clip.None? && p.idx == idx
            && p.inner.kind == t.kind && p.inner.id == u.id
            && p.inner.attrs == MergedAttrs(PreparedUseAttrs(u), t.attrs)
            && ResolvePatternChildren.CopiesOf(Flat(p.inner.children), Flat(t.children), next + 5)
  {
    ResolvePatternChildren.DeepCopiesFlat(t.children, next + 5);
  }

  /**
   * A `symbol` becomes a `g` with the `use`'s id, the merge of the `use`'s
   * attributes into the viewBox transform, and copies of the symbol's
   * children; it is wrapped, for a clip, exactly when the `use` asks for a
   * clip and there is a `defs`.
   */
  lemma PlaceSymbol(doc: Node, u: Node, t: Node, next: nat, idx: nat, fit: Fit)
    requires t.Is(EId.Symbol)
    ensures var p := Place(doc, u, t, next, idx, fit);
            p.inner.Is(EId.G) && p.inner.id == u.id
            && p.inner.attrs == MergedAttrs(PreparedUseAttrs(u), SymbolGroup(u, t, next, fit).attrs)
            && ResolvePatternChildren.CopiesOf(Flat(p.inner.children), Flat(t.children), next + 4)
            && (p.clip.Some? <==> ClipRect(doc, u).Some? && DefsElement(doc).Some?)
            && (p.clip.None? ==> p.outer == p.inner && p.idx == idx)
  {
    ResolvePatternChildren.DeepCopiesFlat(t.children, next + 4);
    var g := TakeUse(u, SymbolGroup(u, t, next, fit));
    var p := Place(doc, u, t, next, idx, fit);
    assert p.inner == g;
    assert p.clip.Some? <==> ClipRect(doc, u).Some? && DefsElement(doc).Some?;
  }

  /**
   * The clipped case: the `g` inside a second `g` whose clip-path links to a
   * new `clipPath` for `defs`, whose id no node of the document has.
   */
  lemma PlaceClip(doc: Node, u: Node, t: Node, next: nat, idx: nat, fit: Fit)
    requires t.Is(EId.Symbol) && ClipRect(doc, u).Some? && DefsElement(doc).Some?
    ensures Place(doc, u, t, next, idx, fit)
            == Clipped(TakeUse(u, SymbolGroup(u, t, next, fit)), DefsElement(doc).value.uid,
                       ClipRect(doc, u).value, FreeIndex(Ids(doc), idx), next)
    ensures FreeIndex(Ids(doc), idx) >= idx
    ensures forall n :: n in Descendants(doc) ==> n.id != ClipId(FreeIndex(Ids(doc), idx))
  {
    FreeIdUnused(doc, idx);
  }

  /**
   * The second `g` holds only the first and links, by clip-path, to the
   * `clipPath`, whose one `rect` is the clip rectangle; the counter keeps
   * the value whose id was taken.
   */
  lemma ClippedShape(g: Node, defs: UId, rc: Geom.Rect, k: nat, next: nat)
    ensures var p := Clipped(g, defs, rc, k, next);
            p.inner == g && p.outer.Is(EId.G) && p.outer.children == [g]
            && p.outer.attrs == map[AId.ClipPath := AValue.FuncLink(p.clip.value.1.uid)]
            && p.clip.Some? && p.clip.value.0 == defs && p.idx == k
            && p.clip.value.1.Is(EId.ClipPath) && p.clip.value.1.id == ClipId(k)
            && |p.clip.value.1.children| == 1 && p.clip.value.1.children[0].Is(EId.Rect)
            && p.clip.value.1.children[0].attrs
               == map[AId.X := AValue.Number(rc.x), AId.Y := AValue.Number(rc.y),
                      AId.Width := AValue.Number(rc.w), AId.Height := AValue.Number(rc.h)]
  {
  }

  /** The id the counter stops at belongs to no node of the document. */
  lemma FreeIdUnused(doc: Node, idx: nat)
    ensures FreeIndex(Ids(doc), idx) >= idx
    ensures forall n :: n in Descendants(doc) ==> n.id != ClipId(FreeIndex(Ids(doc), idx))
  {
    FreeIndexLeast(Ids(doc), idx);
    var r := FreeIndex(Ids(doc), idx);
    forall n | n in Descendants(doc)
      ensures n.id != ClipId(r)
    {
      assert n.id in Ids(doc);
    }
  }

  // ---- fresh uids ----

  /** Every uid of the document, root included, is below `next`. */
  predicate Below(doc: Node, next: nat)
  {
    doc.uid < next && forall h :: h in Heads(doc.children) ==> h.uid < next
  }

  /** What the sweep keeps: uids unique below the root, and the counter past all of them. */
  predicate Inv(doc: Node, next: nat)
  {
    UidFunctional(Heads(doc.children)) && Below(doc, next)
  }

  lemma SingleHeads(n: Node)
    ensures Heads([n]) == {HeadOf(n)} + Heads(n.children)
  {
    HeadsCons([n]);
    assert [n][1..] == [];
  }

  /** Copies are numbered in document order from `first`, one uid each. */
  lemma CopiesNumbered(ns: seq<Node>, first: nat)
    ensures UidFunctional(Heads(ResolvePatternChildren.DeepCopies(ns, first)))
    ensures forall h :: h in Heads(ResolvePatternChildren.DeepCopies(ns, first)) ==> first <= h.uid < first + Size(ns)
  {
    var cs := Flat(ResolvePatternChildren.DeepCopies(ns, first));
    ResolvePatternChildren.DeepCopiesFlat(ns, first);
    assert forall k :: 0 <= k < |cs| ==> cs[k].uid == first + k;
    Numbered(cs, first);
  }

  /** Nodes numbered by position have distinct uids in one range. */
  lemma Numbered(cs: seq<Node>, first: nat)
    requires forall k :: 0 <= k < |cs| ==> cs[k].uid == first + k
    ensures UidFunctional(set m | m in cs :: HeadOf(m))
    ensures forall h :: h in (set m | m in cs :: HeadOf(m)) ==> first <= h.uid < first + |cs|
  {
    var hs := set m | m in cs :: HeadOf(m);
    forall a, b | a in hs && b in hs && a.uid == b.uid
      ensures a == b
    {
      var ma :| ma in cs && HeadOf(ma) == a;
      var i :| 0 <= i < |cs| && cs[i] == ma;
      var mb :| mb in cs && HeadOf(mb) == b;
      var j :| 0 <= j < |cs| && cs[j] == mb;
    }
    forall h | h in hs
      ensures first <= h.uid < first + |cs|
    {
      var m :| m in cs && HeadOf(m) == h;
      var k :| 0 <= k < |cs| && cs[k] == m;
    }
  }

  /** A head whose uid no head of the set has can join it. */
  lemma AddFresh(h: Head, hs: set<Head>)
    requires UidFunctional(hs) && forall x :: x in hs ==> x.uid != h.uid
    ensures UidFunctional({h} + hs)
  {
  }

  /** Two sets with no uid in common. */
  lemma JoinApart(a: set<Head>, b: set<Head>)
    requires UidFunctional(a) && UidFunctional(b)
    requires forall x, y :: x in a && y in b ==> x.uid != y.uid
    ensures UidFunctional(a + b)
  {
  }

  /** A node with the new node's top uid `top` over copies numbered from `first`, past `top`. */
  lemma NodeOverCopies(n: Node, ns: seq<Node>, top: nat, first: nat)
    requires n.uid == top && top < first && n.children == ResolvePatternChildren.DeepCopies(ns, first)
    ensures UidFunctional(Heads([n]))
    ensures forall h :: h in Heads([n]) ==> h.uid == top || first <= h.uid < first + Size(ns)
  {
    SingleHeads(n);
    CopiesNumbered(ns, first);
    AddFresh(HeadOf(n), Heads(n.children));
  }

  /** The heads an expansion adds: its inserted node and, with a clip, the `clipPath`. */
  function NewHeads(p: Placed): set<Head>
  {
    Heads([p.outer]) + (if p.clip.Some? then Heads([p.clip.value.1]) else {})
  }

  /** The uids and children of what `Place` builds, case by case. */
  predicate Shaped(p: Placed, t: Node, next: nat)
  {
    if !t.Is(EId.Symbol) then
      p.clip.None? && p.outer.uid == next + 4
      && p.outer.children == ResolvePatternChildren.DeepCopies(t.children, next + 5)
    else
      p.inner.uid == next && p.inner.children == ResolvePatternChildren.DeepCopies(t.children, next + 4)
      && (p.clip.None? ==> p.outer == p.inner)
      && (p.clip.Some? ==>
            p.outer.uid == next + 1 && p.outer.children == [p.inner]
            && p.clip.value.1.uid == next + 2 && |p.clip.value.1.children| == 1
            && p.clip.value.1.children[0].uid == next + 3 && p.clip.value.1.children[0].children == [])
  }

  lemma PlaceParts(doc: Node, u: Node, t: Node, next: nat, idx: nat, fit: Fit)
    ensures Shaped(Place(doc, u, t, next, idx, fit), t, next)
  {
  }

  /** A node over nothing has only its own head. */
  lemma LeafHeads(n: Node)
    requires n.children == []
    ensures Heads([n]) == {HeadOf(n)}
  {
    SingleHeads(n);
  }

  /** With a clip: the outer `g`, the `g` over the copies, the `clipPath` and its `rect`. */
  lemma ClippedFresh(p: Placed, ns: seq<Node>, next: nat)
    requires p.inner.uid == next && p.inner.children == ResolvePatternChildren.DeepCopies(ns, next + 4)
    requires p.clip.Some? && p.outer.uid == next + 1 && p.outer.children == [p.inner]
    requires p.clip.value.1.uid == next + 2 && |p.clip.value.1.children| == 1
    requires p.clip.value.1.children[0].uid == next + 3 && p.clip.value.1.children[0].children == []
    ensures UidFunctional(NewHeads(p))
    ensures forall h :: h in NewHeads(p) ==> next <= h.uid < next + 4 + Size(ns)
  {
    var c := p.clip.value.1;
    NodeOverCopies(p.inner, ns, next, next + 4);
    SingleHeads(p.outer);
    AddFresh(HeadOf(p.outer), Heads([p.inner]));
    SingleHeads(c);
    assert c.children == [c.children[0]];
    LeafHeads(c.children[0]);
    JoinApart(Heads([p.outer]), Heads([c]));
  }

  /** Without a clip: one new node over the copies. */
  lemma UnclippedFresh(p: Placed, ns: seq<Node>, top: nat, first: nat)
    requires p.clip.None? && p.outer.uid == top && top < first
    requires p.outer.children == ResolvePatternChildren.DeepCopies(ns, first)
    ensures UidFunctional(NewHeads(p))
    ensures forall h :: h in NewHeads(p) ==> h.uid == top || first <= h.uid < first + Size(ns)
  {
    NodeOverCopies(p.outer, ns, top, first);
  }

  /** The new nodes have distinct uids, all from `next` up to the counter's next value. */
  lemma PlacedFresh(p: Placed, t: Node, next: nat)
    requires Shaped(p, t, next)
    ensures UidFunctional(NewHeads(p))
    ensures forall h :: h in NewHeads(p) ==> next <= h.uid < next + 4 + Size([t])
  {
    ResolvePatternChildren.SizeSplit([t]);
    assert [t][0] == t && [t][1..] == [];
    if !t.Is(EId.Symbol) {
      UnclippedFresh(p, t.children, next + 4, next + 5);
    } else if p.clip.None? {
      UnclippedFresh(p, t.children, next, next + 4);
    } else {
      ClippedFresh(p, t.children, next);
    }
  }

  // ---- one expansion ----

  /** What the sweeps carry: the document, the next free uid and `clip_path_idx`. */
  datatype State = State(doc: Node, next: nat, idx: nat)

  /** The `clipPath` appended to `defs`, when there is one. */
  function Appended(doc: Node, p: Placed): (r: Node)
    ensures r.uid == doc.uid && r.attrs == doc.attrs
  {
    match p.clip
    case Some((defs, c)) => RmUnusedDefs.AppendChild(doc, defs, c)
    case None => doc
  }

  /** Then the new node inserted after the `use`. */
  function Inserted(doc: Node, u: UId, p: Placed): (r: Node)
    ensures r.uid == doc.uid && r.attrs == doc.attrs
  {
    var d := Appended(doc, p);
    d.(children := InsertAfter(d.children, u, p.outer))
  }

  /**
   * `_resolve_use(doc, use, link, clip_path_idx)`: place the copy, relink
   * every node that linked to the `use` to the node that took its attributes,
   * and remove the `use`.
   */
  function ExpandUse(s: State, u: Node, t: Node, fit: Fit): State
  {
    Applied(s, u, t, Place(s.doc, u, t, s.next, s.idx, fit))
  }

  /** The expansion once the new nodes are built. */
  function Applied(s: State, u: Node, t: Node, p: Placed): State
  {
    var d := Relink(Inserted(s.doc, u.uid, p), u.uid, p.inner.uid);
    State(RemoveNodes(d, {u.uid}), s.next + 4 + Size([t]), p.idx)
  }

  /** The heads of the new `clipPath` and its `rect`, when there is one. */
  function ClipHeads(p: Placed): set<Head>
  {
    if p.clip.Some? then Heads([p.clip.value.1]) else {}
  }

  lemma AppendedHeads(doc: Node, p: Placed)
    ensures Heads(doc.children) <= Heads(Appended(doc, p).children) <= Heads(doc.children) + ClipHeads(p)
  {
    if p.clip.Some? {
      var defs := p.clip.value.0;
      var c := p.clip.value.1;
      var tail := if doc.uid == defs then [c] else [];
      assert Appended(doc, p).children == RmUnusedDefs.AppendTo(doc.children, defs, c) + tail;
      AppendToHeads(doc.children, defs, c);
      HeadsAppend(RmUnusedDefs.AppendTo(doc.children, defs, c), tail);
    }
  }

  /** Placing changes no node: every node before is there after, and the only others are the new ones. */
  lemma InsertedHeads(doc: Node, u: UId, p: Placed)
    ensures Heads(doc.children) <= Heads(Inserted(doc, u, p).children)
    ensures Heads(Inserted(doc, u, p).children) <= Heads(doc.children) + NewHeads(p)
  {
    var d := Appended(doc, p);
    AppendedHeads(doc, p);
    InsertAfterHeads(d.children, u, p.outer);
    assert NewHeads(p) == Heads([p.outer]) + ClipHeads(p);
  }

  /** A relink keeps uids: it only ever changes attributes. */
  lemma RelinkBelow(doc: Node, from: UId, to: UId, next: nat)
    requires Below(doc, next)
    ensures Below(Relink(doc, from, to), next)
  {
    RelinkHeads(doc.children, from, to);
  }

  /** A removal keeps what the sweeps keep. */
  lemma RemoveInv(doc: Node, drop: set<UId>, next: nat)
    requires Inv(doc, next)
    ensures Inv(RemoveNodes(doc, drop), next)
  {
    var r := RemoveNodes(doc, drop);
    HeadUniqueIff(doc.children);
    DocDrain.RemoveUnique(doc, drop);
    HeadUniqueIff(r.children);
    forall h | h in Heads(r.children)
      ensures h.uid < next
    {
      var m :| m in Flat(r.children) && HeadOf(m) == h;
      var o := DocDrain.RemovedOrigin(doc, drop, m);
      assert HeadOf(o) in Heads(doc.children);
    }
  }

  /** `remove_node` on each rejected `use` in turn keeps it too. */
  lemma {:induction false} RemoveAllInv(doc: Node, us: seq<UId>, next: nat)
    requires Inv(doc, next)
    ensures Inv(RmUnusedDefs.RemoveAll(doc, us), next)
    decreases |us|
  {
    if us != [] {
      RemoveInv(doc, {us[0]}, next);
      RemoveAllInv(RemoveNodes(doc, {us[0]}), us[1..], next);
    }
  }

  /** After placement, uids are still unique and below the advanced counter. */
  lemma InsertedInv(s: State, u: Node, t: Node, fit: Fit)
    requires Inv(s.doc, s.next)
    ensures Inv(Inserted(s.doc, u.uid, Place(s.doc, u, t, s.next, s.idx, fit)), s.next + 4 + Size([t]))
  {
    var p := Place(s.doc, u, t, s.next, s.idx, fit);
    PlaceParts(s.doc, u, t, s.next, s.idx, fit);
    PlacedFresh(p, t, s.next);
    var h0 := Heads(s.doc.children);
    JoinApart(h0, NewHeads(p));
    InsertedHeads(s.doc, u.uid, p);
  }

  /** One expansion keeps uids unique and the counter past all of them. */
  lemma ExpandInv(s: State, u: Node, t: Node, fit: Fit)
    requires Inv(s.doc, s.next)
    ensures Inv(ExpandUse(s, u, t, fit).doc, ExpandUse(s, u, t, fit).next)
  {
    var p := Place(s.doc, u, t, s.next, s.idx, fit);
    var d := Inserted(s.doc, u.uid, p);
    var next := s.next + 4 + Size([t]);
    InsertedInv(s, u, t, fit);
    RelinkUnique(d, u.uid, p.inner.uid);
    RelinkBelow(d, u.uid, p.inner.uid, next);
    RemoveInv(Relink(d, u.uid, p.inner.uid), {u.uid}, next);
  }

  /** The expanded `use` is gone from the document. */
  lemma ExpandRemovesUse(s: State, u: Node, t: Node, fit: Fit)
    ensures forall m :: m in Flat(ExpandUse(s, u, t, fit).doc.children) ==> m.uid != u.uid
  {
    var p := Place(s.doc, u, t, s.next, s.idx, fit);
    RemoveNodesHeads(Relink(Inserted(s.doc, u.uid, p), u.uid, p.inner.uid), {u.uid});
  }

  /** Nothing is left linking to a `use` that was in the document and has been expanded. */
  lemma ExpandUnlinksUse(s: State, u: Node, t: Node, fit: Fit)
    requires Present(s.doc.children, u.uid)
    ensures forall m, a :: m in Flat(ExpandUse(s, u, t, fit).doc.children) && a in m.attrs
                           ==> !LinksTo(m.attrs[a], u.uid)
  {
    var p := Place(s.doc, u, t, s.next, s.idx, fit);
    var d1 := Inserted(s.doc, u.uid, p);
    var d := Relink(d1, u.uid, p.inner.uid);
    InsertedHeads(s.doc, u.uid, p);
    RelinkUnique(d1, u.uid, p.inner.uid);
    assert Present(d.children, u.uid);
    var h :| h in Heads(d.children) && h.uid == u.uid;
    var n :| n in Flat(d.children) && HeadOf(n) == h;
    DroppedContains(d.children, {u.uid}, u.uid);
    var gone := DroppedUids(d.children, {u.uid});
    forall m, a | m in Flat(RemoveNodes(d, {u.uid}).children) && a in m.attrs
      ensures !LinksTo(m.attrs[a], u.uid)
    {
      var o := DocDrain.RemovedOrigin(d, {u.uid}, m);
      assert m.attrs == Unlinked(o.attrs, gone);
    }
  }

  // ---- the sweeps ----

  /** The uids of the `use` elements among `ns`, in order: the list one sweep walks. */
  function UseUids(ns: seq<Node>): (r: seq<UId>)
    ensures forall m :: m in ns && m.Is(EId.Use) ==> m.uid in r
  {
    if ns == [] then []
    else
      assert ns == [ns[0]] + ns[1..];
      (if ns[0].Is(EId.Use) then [ns[0].uid] else []) + UseUids(ns[1..])
  }

  /** Where one sweep has got to: the state, `is_any_resolved` and the `use`s set aside for removal. */
  datatype Swept = Swept(s: State, resolved: bool, rejected: seq<UId>)

  /** One turn of the inner loop, on the `use` with uid `u`, read from the document as it is now. */
  function Visit(w: Swept, u: UId, fit: Fit): Swept
  {
    match Find(w.s.doc.children, u)
    case None => w
    case Some(n) =>
      if !n.Is(EId.Use) then w
      else
        match Classify(w.s.doc, n)
        case Skip => w
        case Reject => w.(rejected := w.rejected + [n.uid])
        case Expand(t) => Swept(ExpandUse(w.s, n, t, fit), true, w.rejected)
  }

  /**
   * The inner loop over the snapshot `us`. The visit is taken one call
   * further down, in `SweepNext`, so that unfolding a sweep does not unfold
   * an expansion.
   */
  function Sweep(w: Swept, us: seq<UId>, fit: Fit): Swept
    decreases |us|, 1
  {
    if us == [] then w else SweepNext(w, us, fit)
  }

  function SweepNext(w: Swept, us: seq<UId>, fit: Fit): Swept
    requires us != []
    decreases |us|, 0
  {
    Sweep(Visit(w, us[0], fit), us[1..], fit)
  }

  /** A sweep visits its first `use`, then sweeps the rest. */
  lemma SweepCons(w: Swept, us: seq<UId>, fit: Fit)
    requires us != []
    ensures Sweep(w, us, fit) == Sweep(Visit(w, us[0], fit), us[1..], fit)
  {
  }

  /** One sweep from a fresh start, over the `use`s the document has when it begins. */
  function SweepOnce(s: State, fit: Fit): Swept
  {
    Sweep(Swept(s, false, []), UseUids(Flat(s.doc.children)), fit)
  }

  /** The state after the sweep's rejected `use`s are removed. */
  function AfterSweep(w: Swept): State
  {
    w.s.(doc := RmUnusedDefs.RemoveAll(w.s.doc, w.rejected))
  }

  /**
   * `resolve_use`: sweep, remove the rejected `use`s, and sweep again while
   * a sweep expanded something. The flag is true when the loop stopped by
   * itself, false when `fuel` sweeps were not enough.
   */
  function Resolve(s: State, fit: Fit, fuel: nat): (r: (Node, bool))
    decreases fuel, 1
  {
    if fuel == 0 then (s.doc, false) else ResolveRound(s, fit, fuel - 1)
  }

  /** One turn of the loop: a sweep, the removal, and the loop again if the sweep expanded something. */
  function ResolveRound(s: State, fit: Fit, fuel: nat): (r: (Node, bool))
    decreases fuel, 3
  {
    Continue(SweepOnce(s, fit), fit, fuel)
  }

  function Continue(w: Swept, fit: Fit, fuel: nat): (r: (Node, bool))
    decreases fuel, 2
  {
    if !w.resolved then (AfterSweep(w).doc, true) else Resolve(AfterSweep(w), fit, fuel)
  }

  /** The pass on a document: new uids from past every uid it has, `clip_path_idx` from 1. */
  function ResolveUseIn(doc: Node, fit: Fit, fuel: nat): (Node, bool)
  {
    Resolve(State(doc, FreshBase(doc), 1), fit, fuel)
  }

  // ---- the loops ----

  /** `resolve_symbol` or `copy_node_deep`, with `gen_clip_path_id`'s search for the clip id. */
  method PlaceUse(doc: Node, u: Node, t: Node, next: nat, idx: nat, fit: Fit) returns (p: Placed)
    ensures p == Place(doc, u, t, next, idx, fit)
  {
    if t.Is(EId.Symbol) {
      p := ResolveSymbol(doc, u, t, next, idx, fit);
    } else {
      var c := TakeUse(u, CopyOf(t, next + 4));
      p := Placed(c, c, Option.None, idx);
    }
  }

  /** `resolve_symbol`, with `gen_clip_path_id`'s search for the clip id. */
  method ResolveSymbol(doc: Node, u: Node, t: Node, next: nat, idx: nat, fit: Fit) returns (p: Placed)
    requires t.Is(EId.Symbol)
    ensures p == Place(doc, u, t, next, idx, fit)
  {
    var g := TakeUse(u, SymbolGroup(u, t, next, fit));
    var rc := ClipRect(doc, u);
    var defs := DefsElement(doc);
    if rc.Some? && defs.Some? {
      var id, k := GenClipPathId(doc, idx);
      PlaceClip(doc, u, t, next, idx, fit);
      p := Clipped(g, defs.value.uid, rc.value, k, next);
    } else {
      p := Placed(g, g, Option.None, idx);
    }
  }

  /** `_resolve_use`. */
  method ExpandStep(s: State, u: Node, t: Node, fit: Fit) returns (r: State)
    ensures r == ExpandUse(s, u, t, fit)
  {
    var p := PlaceUse(s.doc, u, t, s.next, s.idx, fit);
    r := Applied(s, u, t, p);
  }

  /** The body of the inner loop, with the recursion test as a loop of its own. */
  method VisitUse(w: Swept, u: UId, fit: Fit) returns (r: Swept)
    ensures r == Visit(w, u, fit)
  {
    r := w;
    var found := Find(w.s.doc.children, u);
    if found.None? || !found.value.Is(EId.Use) {
      return;
    }
    var n := found.value;
    var link := HrefLink(n);
    if link.None? {
      return;
    }
    var target := Find([w.s.doc], link.value);
    if target.None? {
      return;
    }
    var t := target.value;
    if t.Is(EId.Use) {
      return;
    }
    if t.Is(EId.Svg) {
      r := w.(rejected := w.rejected + [n.uid]);
      return;
    }
    var recursive := CheckRecursive(t, n.uid);
    if recursive {
      r := w.(rejected := w.rejected + [n.uid]);
      return;
    }
    var s := ExpandStep(w.s, n, t, fit);
    r := Swept(s, true, w.rejected);
  }

  /** One sweep over the snapshot of the document's `use` elements. */
  method SweepUses(s: State, fit: Fit) returns (w: Swept)
    ensures w == SweepOnce(s, fit)
  {
    var us := UseUids(Flat(s.doc.children));
    w := Swept(s, false, []);
    var i := 0;
    assert us[i..] == us;
    while i < |us|
      invariant 0 <= i <= |us|
      invariant Sweep(w, us[i..], fit) == Sweep(Swept(s, false, []), us, fit)
    {
      assert us[i..][1..] == us[i + 1..];
      SweepCons(w, us[i..], fit);
      w := VisitUse(w, us[i], fit);
      i := i + 1;
    }
  }

  /** `for node in &mut nodes { doc.remove_node(node) }`. */
  method RemoveRejected(doc: Node, us: seq<UId>) returns (r: Node)
    ensures r == RmUnusedDefs.RemoveAll(doc, us)
  {
    r := doc;
    var i := 0;
    assert us[i..] == us;
    while i < |us|
      invariant 0 <= i <= |us|
      invariant RmUnusedDefs.RemoveAll(r, us[i..]) == RmUnusedDefs.RemoveAll(doc, us)
    {
      assert us[i..][1..] == us[i + 1..];
      r := RemoveNodes(r, {us[i]});
      i := i + 1;
    }
  }

  /** `resolve_use`, with at most `fuel` sweeps. */
  method ResolveUseDoc(doc: Node, fit: Fit, fuel: nat) returns (r: Node, done: bool)
    ensures (r, done) == ResolveUseIn(doc, fit, fuel)
  {
    var s := State(doc, FreshBase(doc), 1);
    ghost var goal := Resolve(s, fit, fuel);
    var f := fuel;
    var anyResolved := true;
    while anyResolved && f > 0
      invariant anyResolved ==> Resolve(s, fit, f) == goal
      invariant !anyResolved ==> (s.doc, true) == goal
      decreases f
    {
      s, anyResolved := Round(s, fit, f);
      f := f - 1;
    }
    r, done := s.doc, !anyResolved;
  }

  /** One turn of the outer loop: a sweep, then the removal of what it rejected. */
  method Round(s: State, fit: Fit, ghost f: nat) returns (s2: State, resolved: bool)
    requires f > 0
    ensures resolved ==> Resolve(s, fit, f) == Resolve(s2, fit, f - 1)
    ensures !resolved ==> Resolve(s, fit, f) == (s2.doc, true)
  {
    var w := SweepUses(s, fit);
    var d := RemoveRejected(w.s.doc, w.rejected);
    s2 := w.s.(doc := d);
    resolved := w.resolved;
    ResolveStep(s, fit, f, w, s2);
  }

  /** One turn of the outer loop. */
  lemma ResolveStep(s: State, fit: Fit, f: nat, w: Swept, s2: State)
    requires f > 0 && w == SweepOnce(s, fit) && s2 == AfterSweep(w)
    ensures w.resolved ==> Resolve(s, fit, f) == Resolve(s2, fit, f - 1)
    ensures !w.resolved ==> Resolve(s, fit, f) == (s2.doc, true)
  {
    assert Resolve(s, fit, f) == ResolveRound(s, fit, f - 1) == Continue(w, fit, f - 1);
  }

  // ---- what the sweeps keep ----

  lemma VisitInv(w: Swept, u: UId, fit: Fit)
    requires Inv(w.s.doc, w.s.next)
    ensures Inv(Visit(w, u, fit).s.doc, Visit(w, u, fit).s.next)
  {
    match Find(w.s.doc.children, u)
    case None =>
    case Some(n) =>
      if n.Is(EId.Use) {
        match Classify(w.s.doc, n)
        case Skip =>
        case Reject =>
        case Expand(t) => ExpandInv(w.s, n, t, fit);
      }
  }

  lemma {:induction false} SweepInv(w: Swept, us: seq<UId>, fit: Fit)
    requires Inv(w.s.doc, w.s.next)
    ensures Inv(Sweep(w, us, fit).s.doc, Sweep(w, us, fit).s.next)
    decreases |us|
  {
    if us != [] {
      SweepCons(w, us, fit);
      VisitInv(w, us[0], fit);
      SweepInv(Visit(w, us[0], fit), us[1..], fit);
    }
  }

  /** One turn of the outer loop keeps uids unique and the counter past them. */
  lemma RoundInv(s: State, fit: Fit)
    requires Inv(s.doc, s.next)
    ensures Inv(AfterSweep(SweepOnce(s, fit)).doc, AfterSweep(SweepOnce(s, fit)).next)
  {
    var w := SweepOnce(s, fit);
    SweepInv(Swept(s, false, []), UseUids(Flat(s.doc.children)), fit);
    RemoveAllInv(w.s.doc, w.rejected, w.s.next);
  }

  /** The pass never gives two different nodes the same uid. */
  lemma {:induction false} ResolveUnique(s: State, fit: Fit, fuel: nat)
    requires Inv(s.doc, s.next)
    ensures UidFunctional(Heads(Resolve(s, fit, fuel).0.children))
    decreases fuel
  {
    if fuel > 0 {
      var w := SweepOnce(s, fit);
      ResolveStep(s, fit, fuel, w, AfterSweep(w));
      RoundInv(s, fit);
      if w.resolved {
        ResolveUnique(AfterSweep(w), fit, fuel - 1);
      }
    }
  }

  /** A document whose uids are unique starts the pass with the invariant. */
  lemma FreshInv(doc: Node)
    requires UidFunctional(Heads(doc.children))
    ensures Inv(doc, FreshBase(doc))
  {
    forall h | h in Heads(doc.children)
      ensures h.uid < FreshBase(doc)
    {
      var m :| m in Flat(doc.children) && HeadOf(m) == h;
      assert m in Descendants(doc);
    }
    assert doc in Descendants(doc);
  }

  // ---- when the loop stops by itself ----

  lemma {:induction false} SweepStaysResolved(w: Swept, us: seq<UId>, fit: Fit)
    requires w.resolved
    ensures Sweep(w, us, fit).resolved
    decreases |us|
  {
    if us != [] {
      SweepCons(w, us, fit);
      SweepStaysResolved(Visit(w, us[0], fit), us[1..], fit);
    }
  }

  lemma {:induction false} SweepKeepsRejected(w: Swept, us: seq<UId>, fit: Fit)
    ensures forall x :: x in w.rejected ==> x in Sweep(w, us, fit).rejected
    decreases |us|
  {
    if us != [] {
      SweepCons(w, us, fit);
      SweepKeepsRejected(Visit(w, us[0], fit), us[1..], fit);
    }
  }

  /**
   * A sweep that expands nothing leaves the document as it was, and sets
   * aside every `use` of its list that is not skipped.
   */
  lemma {:induction false} SweepUnresolved(w: Swept, us: seq<UId>, fit: Fit)
    requires !Sweep(w, us, fit).resolved
    ensures Sweep(w, us, fit).s == w.s
    ensures forall k :: 0 <= k < |us| && Find(w.s.doc.children, us[k]).Some?
                        && Find(w.s.doc.children, us[k]).value.Is(EId.Use)
                        ==> Classify(w.s.doc, Find(w.s.doc.children, us[k]).value) == Skip
                            || us[k] in Sweep(w, us, fit).rejected
    decreases |us|
  {
    if us != [] {
      var v := Visit(w, us[0], fit);
      SweepCons(w, us, fit);
      if v.resolved {
        SweepStaysResolved(v, us[1..], fit);
      }
      assert v.s == w.s;
      SweepUnresolved(v, us[1..], fit);
      SweepKeepsRejected(v, us[1..], fit);
      forall k | 0 <= k < |us| && Find(w.s.doc.children, us[k]).Some?
                 && Find(w.s.doc.children, us[k]).value.Is(EId.Use)
        ensures Classify(w.s.doc, Find(w.s.doc.children, us[k]).value) == Skip
                || us[k] in Sweep(w, us, fit).rejected
      {
        if k > 0 {
          assert us[k] == us[1..][k - 1];
        }
      }
    }
  }

  /** Each node after removals comes from a node before them that was not removed. */
  lemma {:induction false} RemoveAllOrigin(doc: Node, us: seq<UId>, m: Node) returns (o: Node)
    requires m in Flat(RmUnusedDefs.RemoveAll(doc, us).children)
    ensures o in Flat(doc.children) && o.uid !in us && DocDrain.Derived(HeadOf(m), HeadOf(o))
    decreases |us|
  {
    if us == [] {
      o := m;
    } else {
      var d := RemoveNodes(doc, {us[0]});
      var k := RemoveAllOrigin(d, us[1..], m);
      o := DocDrain.RemovedOrigin(doc, {us[0]}, k);
      DocDrain.DerivedTrans(HeadOf(m), HeadOf(k), HeadOf(o));
    }
  }

  lemma {:induction false} RemoveAllRoot(doc: Node, us: seq<UId>)
    ensures RmUnusedDefs.RemoveAll(doc, us).uid == doc.uid && RmUnusedDefs.RemoveAll(doc, us).kind == doc.kind
    decreases |us|
  {
    if us != [] {
      RemoveAllRoot(RemoveNodes(doc, {us[0]}), us[1..]);
    }
  }

  /** Every node of `r` comes from a node of `doc` (same uid, tag and id, attributes kept or link-dropped). */
  predicate DerivedFrom(r: Node, doc: Node)
  {
    forall x :: x in Flat(r.children) ==> exists y :: y in Flat(doc.children) && DocDrain.Derived(HeadOf(x), HeadOf(y))
  }

  lemma FindRoot(doc: Node, l: UId)
    ensures Find([doc], l) == if doc.uid == l then Some(doc) else Find(doc.children, l)
  {
    FlatSingle(doc);
    assert Flat([doc])[1..] == Flat(doc.children);
  }

  /** Under unique uids, `Find` returns the head of any node with that uid. */
  lemma FindHead(ns: seq<Node>, m: Node)
    requires UidFunctional(Heads(ns)) && m in Flat(ns)
    ensures Find(ns, m.uid).Some? && HeadOf(Find(ns, m.uid).value) == HeadOf(m)
  {
    var x := Find(ns, m.uid).value;
    assert HeadOf(x) in Heads(ns) && HeadOf(m) in Heads(ns);
  }

  /**
   * A `use` that was skipped is still skipped once nodes are removed: its
   * link is gone, still dangling, or still names a `use`.
   */
  lemma SkipStable(doc: Node, r: Node, m: Node, o: Node)
    requires UidFunctional(Heads(doc.children))
    requires r.uid == doc.uid && r.kind == doc.kind && DerivedFrom(r, doc)
    requires DocDrain.Derived(HeadOf(m), HeadOf(o)) && Classify(doc, o) == Skip
    ensures Classify(r, m) == Skip
  {
    if HrefLink(m).Some? {
      var l := HrefLink(m).value;
      assert HrefLink(o) == Some(l);
      FindRoot(doc, l);
      FindRoot(r, l);
      if l != doc.uid && Find(r.children, l).Some? {
        var x := Find(r.children, l).value;
        var y :| y in Flat(doc.children) && DocDrain.Derived(HeadOf(x), HeadOf(y));
        FindHead(doc.children, y);
      }
    }
  }

  lemma RemoveAllDerived(doc: Node, us: seq<UId>)
    ensures DerivedFrom(RmUnusedDefs.RemoveAll(doc, us), doc)
  {
    forall x | x in Flat(RmUnusedDefs.RemoveAll(doc, us).children)
      ensures exists y :: y in Flat(doc.children) && DocDrain.Derived(HeadOf(x), HeadOf(y))
    {
      var y := RemoveAllOrigin(doc, us, x);
    }
  }

  /** After a sweep that expands nothing and the removal of what it rejected, every `use` left is skipped. */
  lemma LastSweepSettles(s: State, fit: Fit)
    requires Inv(s.doc, s.next) && !SweepOnce(s, fit).resolved
    ensures UsesSkipped(AfterSweep(SweepOnce(s, fit)).doc)
  {
    var w := SweepOnce(s, fit);
    var us := UseUids(Flat(s.doc.children));
    SweepUnresolved(Swept(s, false, []), us, fit);
    var r := RmUnusedDefs.RemoveAll(s.doc, w.rejected);
    RemoveAllRoot(s.doc, w.rejected);
    RemoveAllDerived(s.doc, w.rejected);
    forall m | m in Flat(r.children) && m.Is(EId.Use)
      ensures Classify(r, m) == Skip
    {
      LeftUseSkipped(s.doc, us, w.rejected, m);
    }
  }

  /** One `use` left after the removal: it comes from a `use` the sweep saw and did not set aside. */
  lemma LeftUseSkipped(doc: Node, us: seq<UId>, rejected: seq<UId>, m: Node)
    requires UidFunctional(Heads(doc.children)) && us == UseUids(Flat(doc.children))
    requires forall k :: 0 <= k < |us| && Find(doc.children, us[k]).Some? && Find(doc.children, us[k]).value.Is(EId.Use)
                         ==> Classify(doc, Find(doc.children, us[k]).value) == Skip || us[k] in rejected
    requires m in Flat(RmUnusedDefs.RemoveAll(doc, rejected).children) && m.Is(EId.Use)
    requires RmUnusedDefs.RemoveAll(doc, rejected).uid == doc.uid && RmUnusedDefs.RemoveAll(doc, rejected).kind == doc.kind
    requires DerivedFrom(RmUnusedDefs.RemoveAll(doc, rejected), doc)
    ensures Classify(RmUnusedDefs.RemoveAll(doc, rejected), m) == Skip
  {
    var o := RemoveAllOrigin(doc, rejected, m);
    var k :| 0 <= k < |us| && us[k] == o.uid;
    FindHead(doc.children, o);
    SkipStable(doc, RmUnusedDefs.RemoveAll(doc, rejected), m, o);
  }

  /**
   * When the loop stops by itself, every `use` left in the document is one
   * the loop skips: it has no link, its link is dangling, or it links to
   * another `use`. In particular none is left to expand or to reject.
   */
  predicate UsesSkipped(r: Node)
  {
    forall m :: m in Flat(r.children) && m.Is(EId.Use) ==> Classify(r, m) == Skip
  }

  lemma {:induction false} ResolveSettles(s: State, fit: Fit, fuel: nat)
    requires Inv(s.doc, s.next)
    ensures Resolve(s, fit, fuel).1 ==> UsesSkipped(Resolve(s, fit, fuel).0)
    decreases fuel
  {
    if fuel > 0 {
      var w := SweepOnce(s, fit);
      ResolveStep(s, fit, fuel, w, AfterSweep(w));
      if w.resolved {
        RoundInv(s, fit);
        ResolveSettles(AfterSweep(w), fit, fuel - 1);
      } else {
        LastSweepSettles(s, fit);
      }
    }
  }

  /** The same two facts for the pass on a whole document. */
  lemma ResolveUseSettles(doc: Node, fit: Fit, fuel: nat)
    requires UidFunctional(Heads(doc.children))
    ensures UidFunctional(Heads(ResolveUseIn(doc, fit, fuel).0.children))
    ensures ResolveUseIn(doc, fit, fuel).1 ==> UsesSkipped(ResolveUseIn(doc, fit, fuel).0)
  {
    FreshInv(doc);
    ResolveUnique(State(doc, FreshBase(doc), 1), fit, fuel);
    ResolveSettles(State(doc, FreshBase(doc), 1), fit, fuel);
  }
}
