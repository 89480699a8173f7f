/**
 * `remove_unused_defs`: below the root svg, every element of a referenced
 * kind (gradient, pattern, clipPath, mask, ...) that nothing links to is
 * removed. Its own used children are first moved to the end of its
 * parent; deeper used descendants are not rescued. The walk descends
 * only into the nodes it keeps, and each decision sees the document as
 * the earlier ones left it.
 */
module RmUnusedDefs {
  import opened Wrappers
  import opened SvgTypes
  import opened Dom

  /** `is_referenced() && !is_used()`, against the current document. */
  predicate Unused(doc: Node, n: Node)
  {
    n.kind.Element? && IsReferenced(n.kind.eid) && !IsUsed(doc, n.uid)
  }

  /** The uids of the used nodes among `cs`, in order. */
  function UsedUids(doc: Node, cs: seq<Node>): (r: seq<UId>)
    ensures |r| <= |cs|
    ensures forall u :: u in r <==> exists c :: c in cs && c.uid == u && IsUsed(doc, u)
  {
    if cs == [] then []
    else
      (if IsUsed(doc, cs[0].uid) then [cs[0].uid] else []) + UsedUids(doc, cs[1..])
  }

  /** `ungroup_children`: queue `n`'s used children for moving, and `n` for removal. */
  method UngroupChildren(doc: Node, n: Node, mv: seq<UId>, rm: seq<UId>) returns (mv': seq<UId>, rm': seq<UId>)
    ensures mv' == mv + UsedUids(doc, n.children)
    ensures rm' == rm + [n.uid]
  {
    mv' := mv;
    var i := 0;
    while i < |n.children|
      invariant 0 <= i <= |n.children|
      invariant mv' == mv + UsedUids(doc, n.children[..i])
    {
      var c := n.children[i];
      UsedUidsPrefix(doc, n.children, i);
      if IsUsed(doc, c.uid) {
        AppendAssoc(mv, UsedUids(doc, n.children[..i]), [c.uid]);
        mv' := mv' + [c.uid];
      } else {
        assert UsedUids(doc, n.children[..i]) + [] == UsedUids(doc, n.children[..i]);
      }
      i := i + 1;
    }
    assert n.children[..i] == n.children;
    rm' := rm + [n.uid];
  }

  lemma UsedUidsPrefix(doc: Node, cs: seq<Node>, i: nat)
    requires i < |cs|
    ensures UsedUids(doc, cs[..i + 1]) == UsedUids(doc, cs[..i]) + (if IsUsed(doc, cs[i].uid) then [cs[i].uid] else [])
  {
    assert cs[..i + 1] == cs[..i] + [cs[i]];
    UsedUidsSnoc(doc, cs[..i], cs[i]);
  }

  lemma {:induction false} UsedUidsSnoc(doc: Node, cs: seq<Node>, c: Node)
    ensures UsedUids(doc, cs + [c]) == UsedUids(doc, cs) + (if IsUsed(doc, c.uid) then [c.uid] else [])
  {
    if cs == [] {
      assert [c][1..] == [];
    } else {
      assert (cs + [c])[0] == cs[0];
      assert (cs + [c])[1..] == cs[1..] + [c];
      UsedUidsSnoc(doc, cs[1..], c);
      AppendAssoc(if IsUsed(doc, cs[0].uid) then [cs[0].uid] else [], UsedUids(doc, cs[1..]),
                  if IsUsed(doc, c.uid) then [c.uid] else []);
    }
  }

  // ---- document edits ----

  /** The uids of the children of the node with uid `p`. */
  function ChildUids(doc: Node, p: UId): seq<UId>
  {
    match Find([doc], p)
    case Some(n) => Uids(n.children)
    case None => []
  }

  /** `append` of `n` to every node of the forest with uid `p`. */
  function AppendTo(ns: seq<Node>, p: UId, n: Node): (r: seq<Node>)
    ensures |r| == |ns|
    ensures forall i :: 0 <= i < |ns| ==>
              r[i] == ns[i].(children := AppendTo(ns[i].children, p, n) + (if ns[i].uid == p then [n] else []))
  {
    if ns == [] then []
    else
      var head := ns[0].(children := AppendTo(ns[0].children, p, n) + (if ns[0].uid == p then [n] else []));
      var rest := AppendTo(ns[1..], p, n);
      ConsIndex(head, rest);
      ConsIndex(ns[0], ns[1..]);
      assert [ns[0]] + ns[1..] == ns;
      [head] + rest
  }

  function AppendChild(doc: Node, p: UId, n: Node): Node
  {
    AppendTo([doc], p, n)[0]
  }

  /** `parent.append(node)`: the node leaves its old place and becomes the parent's last child. */
  function MoveNode(doc: Node, u: UId, p: UId): Node
  {
    match Find(doc.children, u)
    case Some(n) => AppendChild(doc.(children := Prune(doc.children, {u})), p, n)
    case None => doc
  }

  /** `for node in mv_nodes { parent.append(node) }`. */
  function MoveAll(doc: Node, us: seq<UId>, p: UId): Node
    decreases |us|
  {
    if us == [] then doc else MoveAll(MoveNode(doc, us[0], p), us[1..], p)
  }

  /** `for node in rm_nodes { doc.remove_node(node) }`. */
  function RemoveAll(doc: Node, us: seq<UId>): Node
    decreases |us|
  {
    if us == [] then doc else RemoveAll(RemoveNodes(doc, {us[0]}), us[1..])
  }

  // ---- the walk ----

  /** The state the loop over a parent's children carries. */
  datatype Sweep = Sweep(doc: Node, mv: seq<UId>, rm: seq<UId>)

  /** One child: queue it when unused, else descend into it when it has children. */
  function Visit(s: Sweep, c: UId, fuel: nat): (r: Sweep)
    ensures Find([s.doc], c).Some? && Unused(s.doc, Find([s.doc], c).value) ==>
              r.doc == s.doc && r.rm == s.rm + [c] && r.mv == s.mv + UsedUids(s.doc, Find([s.doc], c).value.children)
    ensures !(Find([s.doc], c).Some? && Unused(s.doc, Find([s.doc], c).value)) ==> r.rm == s.rm && r.mv == s.mv
    ensures Find([s.doc], c).Some? && Find([s.doc], c).value.children == [] ==> r.doc == s.doc
    decreases fuel, 0, 0
  {
    match Find([s.doc], c)
    case None => s
    case Some(n) =>
      if Unused(s.doc, n) then Sweep(s.doc, s.mv + UsedUids(s.doc, n.children), s.rm + [c])
      else if n.children != [] && fuel > 0 then s.(doc := Impl(s.doc, c, fuel - 1))
      else s
  }

  function Loop(s: Sweep, cs: seq<UId>, fuel: nat): Sweep
    decreases fuel, 1, |cs|
  {
    if cs == [] then s else Loop(Visit(s, cs[0], fuel), cs[1..], fuel)
  }

  /** `remove_unused_defs_impl` on the node with uid `p`. */
  function Impl(doc: Node, p: UId, fuel: nat): Node
    decreases fuel, 2, 0
  {
    var s := Loop(Sweep(doc, [], []), ChildUids(doc, p), fuel);
    RemoveAll(MoveAll(s.doc, s.mv, p), s.rm)
  }

  /** The pass on the root svg `svg`; the walk is never deeper than the document is large. */
  function RemoveUnusedDefs(doc: Node, svg: UId): Node
  {
    Impl(doc, svg, Size([doc]))
  }

  // ---- what the walk achieves ----

  /** Removal queues only ever grow by children of the parent being swept. */
  lemma {:induction false} LoopQueuesChildren(s: Sweep, cs: seq<UId>, fuel: nat)
    ensures var r := Loop(s, cs, fuel);
            |s.rm| <= |r.rm| && r.rm[..|s.rm|] == s.rm && forall i :: |s.rm| <= i < |r.rm| ==> r.rm[i] in cs
    decreases |cs|
  {
    if cs != [] {
      var v := Visit(s, cs[0], fuel);
      LoopQueuesChildren(v, cs[1..], fuel);
      var r := Loop(v, cs[1..], fuel);
      assert r.rm[..|v.rm|] == v.rm;
      assert r.rm[..|s.rm|] == v.rm[..|s.rm|];
      forall i | |s.rm| <= i < |r.rm|
        ensures r.rm[i] in cs
      {
        if i < |v.rm| {
          assert r.rm[i] == v.rm[i] == cs[0];
        } else {
          assert r.rm[i] in cs[1..];
        }
      }
    }
  }

  /** Every node `remove_node` was given is gone afterwards, subtree and all. */
  lemma {:induction false} RemoveAllGone(doc: Node, us: seq<UId>)
    ensures forall u, m :: u in us && m in Flat(RemoveAll(doc, us).children) ==> m.uid != u
    decreases |us|
  {
    if us != [] {
      var d := RemoveNodes(doc, {us[0]});
      RemoveNodesHeads(doc, {us[0]});
      RemoveAllGone(d, us[1..]);
      RemoveAllKeepsAbsent(d, us[1..], us[0]);
      assert RemoveAll(doc, us) == RemoveAll(d, us[1..]);
      forall u, m | u in us && m in Flat(RemoveAll(doc, us).children)
        ensures m.uid != u
      {
        if u != us[0] {
          assert u in us[1..];
        }
      }
    }
  }

  /** Removing nodes never brings back a uid that was absent. */
  lemma {:induction false} RemoveAllKeepsAbsent(doc: Node, us: seq<UId>, u: UId)
    requires forall m :: m in Flat(doc.children) ==> m.uid != u
    ensures forall m :: m in Flat(RemoveAll(doc, us).children) ==> m.uid != u
    decreases |us|
  {
    if us != [] {
      var d := RemoveNodes(doc, {us[0]});
      RemoveNodesHeads(doc, {us[0]});
      assert forall m :: m in Flat(d.children) ==> m.uid != u;
      RemoveAllKeepsAbsent(d, us[1..], u);
    }
  }

  /**
   * A sweep of `p`'s children removes, subtree and all, every child it found
   * unused at its turn; such a child is never descended into.
   */
  lemma QueuedAreRemoved(doc: Node, p: UId, fuel: nat)
    ensures var s := Loop(Sweep(doc, [], []), ChildUids(doc, p), fuel);
            (forall c :: c in s.rm ==> c in ChildUids(doc, p))
            && forall c, m :: c in s.rm && m in Flat(Impl(doc, p, fuel).children) ==> m.uid != c
  {
    var s := Loop(Sweep(doc, [], []), ChildUids(doc, p), fuel);
    LoopQueuesChildren(Sweep(doc, [], []), ChildUids(doc, p), fuel);
    forall c | c in s.rm
      ensures c in ChildUids(doc, p)
    {
      var i :| 0 <= i < |s.rm| && s.rm[i] == c;
    }
    RemoveAllGone(MoveAll(s.doc, s.mv, p), s.rm);
  }

  /** The pass leaves below the root no child of the svg that it found unused. */
  lemma UnusedChildrenGone(doc: Node, svg: UId)
    ensures var s := Loop(Sweep(doc, [], []), ChildUids(doc, svg), Size([doc]));
            forall c, m :: c in s.rm && m in Flat(RemoveUnusedDefs(doc, svg).children) ==> m.uid != c
  {
    QueuedAreRemoved(doc, svg, Size([doc]));
  }

  /** After `append`, every node with the parent's uid has the appended node as its last child. */
  lemma {:induction false} AppendToLast(ns: seq<Node>, p: UId, n: Node)
    requires forall x :: x in Descendants(n) ==> x.uid != p
    ensures forall m :: m in Flat(AppendTo(ns, p, n)) && m.uid == p ==>
              |m.children| > 0 && m.children[|m.children| - 1] == n
  {
    if ns != [] {
      var r := AppendTo(ns, p, n);
      var h := r[0];
      AppendToLast(ns[0].children, p, n);
      AppendToLast(ns[1..], p, n);
      assert r[1..] == AppendTo(ns[1..], p, n);
      assert Flat(r) == [h] + Flat(h.children) + Flat(r[1..]);
      var kids := AppendTo(ns[0].children, p, n);
      if ns[0].uid == p {
        FlatAppend(kids, [n]);
        FlatSingle(n);
        assert Flat(h.children) == Flat(kids) + Descendants(n);
      } else {
        assert h.children == kids;
      }
      forall m | m in Flat(r) && m.uid == p
        ensures |m.children| > 0 && m.children[|m.children| - 1] == n
      {
        if m == h {
        } else if m in Flat(h.children) {
          assert m in Flat(kids);
        } else {
          assert m in Flat(r[1..]);
        }
      }
    }
  }

  /** A moved node, once none of its subtree has the parent's uid, ends as the parent's last child. */
  lemma MovedIsLast(doc: Node, u: UId, p: UId)
    requires Find(doc.children, u).Some?
    requires forall x :: x in Descendants(Find(doc.children, u).value) ==> x.uid != p
    ensures forall m :: m in Descendants(MoveNode(doc, u, p)) && m.uid == p ==>
              |m.children| > 0 && m.children[|m.children| - 1] == Find(doc.children, u).value
  {
    var n := Find(doc.children, u).value;
    var d := doc.(children := Prune(doc.children, {u}));
    AppendToLast([d], p, n);
    FlatSingle(AppendChild(d, p, n));
  }

  // ---- what the walk leaves in place ----

  /** The uids the walk below `c` queues for moving or removal, at any depth. */
  function TouchedVisit(s: Sweep, c: UId, fuel: nat): set<UId>
    decreases fuel, 0, 0
  {
    match Find([s.doc], c)
    case None => {}
    case Some(n) =>
      if Unused(s.doc, n) then {}
      else if n.children != [] && fuel > 0 then Touched(s.doc, c, fuel - 1)
      else {}
  }

  function TouchedLoop(s: Sweep, cs: seq<UId>, fuel: nat): set<UId>
    decreases fuel, 1, |cs|
  {
    if cs == [] then {} else TouchedVisit(s, cs[0], fuel) + TouchedLoop(Visit(s, cs[0], fuel), cs[1..], fuel)
  }

  /** Every uid `Impl` on `p` queues for moving or removal, on `p`'s own sweep and on the nested ones. */
  function Touched(doc: Node, p: UId, fuel: nat): set<UId>
    decreases fuel, 2, 0
  {
    var s := Loop(Sweep(doc, [], []), ChildUids(doc, p), fuel);
    TouchedLoop(Sweep(doc, [], []), ChildUids(doc, p), fuel) + (set u | u in s.mv) + (set u | u in s.rm)
  }

  /** The uids, in document order, of the nodes with no ancestor-or-self in `x`. */
  function KeptUids(ns: seq<Node>, x: set<UId>): seq<UId>
  {
    Uids(Flat(Prune(ns, x)))
  }

  lemma {:induction false} PruneConcat(a: seq<Node>, b: seq<Node>, x: set<UId>)
    ensures Prune(a + b, x) == Prune(a, x) + Prune(b, x)
  {
    if a != [] {
      assert (a + b)[0] == a[0];
      assert (a + b)[1..] == a[1..] + b;
      PruneConcat(a[1..], b, x);
    } else {
      assert a + b == b;
    }
  }

  /** One step of `Prune` on a forest given by its first tree and the rest. */
  lemma PruneCons(h: Node, rest: seq<Node>, x: set<UId>)
    ensures Prune([h] + rest, x) == (if h.uid in x then [] else [h.(children := Prune(h.children, x))]) + Prune(rest, x)
  {
    assert ([h] + rest)[0] == h && ([h] + rest)[1..] == rest;
  }

  /** Pruning a set after a smaller one is pruning the larger one. */
  lemma {:induction false} PruneTwice(ns: seq<Node>, a: set<UId>, b: set<UId>)
    requires a <= b
    ensures Prune(Prune(ns, a), b) == Prune(ns, b)
  {
    if ns != [] {
      assert ns == [ns[0]] + ns[1..];
      PruneCons(ns[0], ns[1..], a);
      PruneCons(ns[0], ns[1..], b);
      PruneTwice(ns[1..], a, b);
      if ns[0].uid !in a {
        PruneTwice(ns[0].children, a, b);
        var h := ns[0].(children := Prune(ns[0].children, a));
        PruneCons(h, Prune(ns[1..], a), b);
        assert h.(children := Prune(h.children, b)) == ns[0].(children := Prune(ns[0].children, b));
      } else {
        assert Prune(ns, a) == Prune(ns[1..], a);
      }
    }
  }

  lemma AppendToCons(ns: seq<Node>, p: UId, n: Node)
    requires ns != []
    ensures AppendTo(ns, p, n)
            == [ns[0].(children := AppendTo(ns[0].children, p, n) + (if ns[0].uid == p then [n] else []))]
               + AppendTo(ns[1..], p, n)
  {
    var r := AppendTo(ns, p, n);
    var r' := AppendTo(ns[1..], p, n);
    assert forall i :: 1 <= i < |r| ==> r[i] == r'[i - 1];
  }

  /** Appending a node that is pruned anyway changes nothing the prune keeps. */
  lemma {:induction false} PruneAppended(ns: seq<Node>, p: UId, n: Node, x: set<UId>)
    requires n.uid in x
    ensures Prune(AppendTo(ns, p, n), x) == Prune(ns, x)
    decreases ns, 0
  {
    if ns != [] {
      var h := ns[0].(children := AppendTo(ns[0].children, p, n) + (if ns[0].uid == p then [n] else []));
      var t := AppendTo(ns[1..], p, n);
      AppendToCons(ns, p, n);
      PruneCons(h, t, x);
      PruneCons(ns[0], ns[1..], x);
      assert [ns[0]] + ns[1..] == ns;
      PruneAppended(ns[1..], p, n, x);
      PruneAppendedKids(ns[0].children, p, n, x, ns[0].uid == p);
      assert h.(children := Prune(h.children, x)) == ns[0].(children := Prune(ns[0].children, x));
    }
  }

  lemma {:induction false} PruneAppendedKids(ch: seq<Node>, p: UId, n: Node, x: set<UId>, last: bool)
    requires n.uid in x
    ensures Prune(AppendTo(ch, p, n) + (if last then [n] else []), x) == Prune(ch, x)
    decreases ch, 1
  {
    var tail := if last then [n] else [];
    PruneAppended(ch, p, n, x);
    PruneConcat(AppendTo(ch, p, n), tail, x);
    if last {
      assert tail == [n] + [];
      PruneCons(n, [], x);
    }
  }

  /** Dropping links and pruning commute. */
  lemma {:induction false} PruneUnlinked(ns: seq<Node>, g: set<UId>, x: set<UId>)
    ensures Prune(UnlinkAll(ns, g), x) == UnlinkAll(Prune(ns, x), g)
  {
    if ns != [] {
      var r := UnlinkAll(ns, g);
      assert r == [r[0]] + UnlinkAll(ns[1..], g);
      assert ns == [ns[0]] + ns[1..];
      PruneCons(r[0], UnlinkAll(ns[1..], g), x);
      PruneCons(ns[0], ns[1..], x);
      PruneUnlinked(ns[1..], g, x);
      if ns[0].uid !in x {
        PruneUnlinked(ns[0].children, g, x);
        var h := ns[0].(children := Prune(ns[0].children, x));
        var t := [h] + Prune(ns[1..], x);
        assert t[0] == h && t[1..] == Prune(ns[1..], x);
        assert UnlinkAll(t, g) == [UnlinkAll(t, g)[0]] + UnlinkAll(Prune(ns[1..], x), g);
        assert r[0].children == UnlinkAll(ns[0].children, g);
        assert r[0].(children := Prune(r[0].children, x)) == UnlinkAll(t, g)[0];
      } else {
        assert Prune(r, x) == Prune(UnlinkAll(ns[1..], g), x);
        assert Prune(ns, x) == Prune(ns[1..], x);
      }
    }
  }

  /** Dropping links keeps every uid in its place. */
  lemma UnlinkedUids(ns: seq<Node>, g: set<UId>)
    ensures Uids(Flat(UnlinkAll(ns, g))) == Uids(Flat(ns))
  {
    UnlinkAllHeads(ns, g);
    var a, b := Flat(UnlinkAll(ns, g)), Flat(ns);
    assert |HeadSeq(a)| == |HeadSeq(b)|;
    assert forall i :: 0 <= i < |a| ==> a[i].uid == HeadSeq(a)[i].uid == HeadSeq(b)[i].uid == b[i].uid;
  }

  /** `append` of a node in `x` leaves what a prune of `x` keeps exactly as it was. */
  lemma MoveNodeKeeps(doc: Node, u: UId, p: UId, x: set<UId>)
    requires u in x
    ensures Prune(MoveNode(doc, u, p).children, x) == Prune(doc.children, x)
  {
    match Find(doc.children, u)
    case Some(n) =>
      var d := doc.(children := Prune(doc.children, {u}));
      var tail := if d.uid == p then [n] else [];
      assert AppendTo([d], p, n)[0].children == AppendTo(d.children, p, n) + tail;
      PruneConcat(AppendTo(d.children, p, n), tail, x);
      assert Prune(tail, x) == [];
      PruneAppended(d.children, p, n, x);
      PruneTwice(doc.children, {u}, x);
    case None =>
  }

  lemma {:induction false} MoveAllKeeps(doc: Node, us: seq<UId>, p: UId, x: set<UId>)
    requires forall i :: 0 <= i < |us| ==> us[i] in x
    ensures Prune(MoveAll(doc, us, p).children, x) == Prune(doc.children, x)
    decreases |us|
  {
    if us != [] {
      MoveNodeKeeps(doc, us[0], p, x);
      MoveAllKeeps(MoveNode(doc, us[0], p), us[1..], p, x);
    }
  }

  /** `remove_node` of a node in `x` leaves the uids a prune of `x` keeps as they were. */
  lemma RemoveNodeKeeps(doc: Node, u: UId, x: set<UId>)
    requires u in x
    ensures KeptUids(RemoveNodes(doc, {u}).children, x) == KeptUids(doc.children, x)
  {
    var g := DroppedUids(doc.children, {u});
    PruneUnlinked(Prune(doc.children, {u}), g, x);
    PruneTwice(doc.children, {u}, x);
    UnlinkedUids(Prune(doc.children, x), g);
  }

  lemma {:induction false} RemoveAllKeeps(doc: Node, us: seq<UId>, x: set<UId>)
    requires forall i :: 0 <= i < |us| ==> us[i] in x
    ensures KeptUids(RemoveAll(doc, us).children, x) == KeptUids(doc.children, x)
    decreases |us|
  {
    if us != [] {
      RemoveNodeKeeps(doc, us[0], x);
      RemoveAllKeeps(RemoveNodes(doc, {us[0]}), us[1..], x);
    }
  }

  /**
   * `remove_unused_defs_impl` on `p` keeps, uid by uid and in document order,
   * every node that has no ancestor-or-self it queued for moving or removal.
   */
  lemma {:induction false} ImplKeeps(doc: Node, p: UId, fuel: nat, x: set<UId>)
    requires Touched(doc, p, fuel) <= x
    ensures KeptUids(Impl(doc, p, fuel).children, x) == KeptUids(doc.children, x)
    decreases fuel, 2, 0
  {
    var s := Loop(Sweep(doc, [], []), ChildUids(doc, p), fuel);
    LoopKeeps(Sweep(doc, [], []), ChildUids(doc, p), fuel, x);
    MoveAllKeeps(s.doc, s.mv, p, x);
    RemoveAllKeeps(MoveAll(s.doc, s.mv, p), s.rm, x);
  }

  lemma {:induction false} LoopKeeps(s: Sweep, cs: seq<UId>, fuel: nat, x: set<UId>)
    requires TouchedLoop(s, cs, fuel) <= x
    ensures KeptUids(Loop(s, cs, fuel).doc.children, x) == KeptUids(s.doc.children, x)
    decreases fuel, 1, |cs|
  {
    if cs != [] {
      VisitKeeps(s, cs[0], fuel, x);
      LoopKeeps(Visit(s, cs[0], fuel), cs[1..], fuel, x);
    }
  }

  lemma {:induction false} VisitKeeps(s: Sweep, c: UId, fuel: nat, x: set<UId>)
    requires TouchedVisit(s, c, fuel) <= x
    ensures KeptUids(Visit(s, c, fuel).doc.children, x) == KeptUids(s.doc.children, x)
    decreases fuel, 0, 0
  {
    match Find([s.doc], c)
    case None =>
    case Some(n) =>
      if !Unused(s.doc, n) && n.children != [] && fuel > 0 {
        ImplKeeps(s.doc, c, fuel - 1, x);
      }
  }

  /**
   * The pass leaves every node below the svg that lies outside the subtrees
   * it moved or removed: the same uids remain there, in the same order.
   */
  lemma RemoveUnusedDefsKeeps(doc: Node, svg: UId)
    ensures var t := Touched(doc, svg, Size([doc]));
            Uids(Outside(RemoveUnusedDefs(doc, svg).children, t)) == Uids(Outside(doc.children, t))
  {
    var t := Touched(doc, svg, Size([doc]));
    var r := RemoveUnusedDefs(doc, svg);
    ImplKeeps(doc, svg, Size([doc]), t);
    PruneOutside(r.children, t);
    PruneOutside(doc.children, t);
    HeadUids(Flat(Prune(r.children, t)), Outside(r.children, t));
    HeadUids(Flat(Prune(doc.children, t)), Outside(doc.children, t));
  }

  lemma HeadUids(a: seq<Node>, b: seq<Node>)
    requires HeadSeq(a) == HeadSeq(b)
    ensures Uids(a) == Uids(b)
  {
    assert |a| == |HeadSeq(a)| == |b|;
    assert forall i :: 0 <= i < |a| ==> a[i].uid == HeadSeq(a)[i].uid == b[i].uid;
  }
}
