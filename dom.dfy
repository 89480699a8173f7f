/**
 * The svgdom document as a tree of node values. Every node carries a stable
 * uid; Link, FuncLink and Paint values point at nodes by uid, so following a
 * link is a lookup. A node's parent and ancestors are given by its position:
 * walks pass the chain of ancestors down as they descend.
 */
module Dom {
  import opened Wrappers
  import opened SvgTypes

  /** What a node is: the document root, an element, or character data. */
  datatype Kind =
    | Root
    | Element(eid: EId)
    | NonSvgElement(name: string)
    | TextNode(text: string)
    | Comment(text: string)

  datatype Node = Node(uid: UId, kind: Kind, id: string, attrs: map<AId, AValue>, children: seq<Node>)
  {
    predicate Is(e: EId) { kind == Element(e) }

    predicate IsSvgElement() { kind.Element? }

    predicate Has(a: AId) { a in attrs }

    function Get(a: AId): Option<AValue>
    {
      if a in attrs then Some(attrs[a]) else Option.None
    }

    /** `set_attribute`: add or overwrite one attribute. */
    function Set(a: AId, v: AValue): (r: Node)
      ensures r.attrs == attrs[a := v] && r.children == children
    {
      this.(attrs := attrs[a := v])
    }

    /** `remove_attribute`. */
    function Remove(a: AId): (r: Node)
      ensures r.attrs == attrs - {a} && r.children == children
    {
      this.(attrs := attrs - {a})
    }

    /** `set_attribute_if_none`. */
    function SetIfNone(a: AId, v: AValue): (r: Node)
      ensures a in r.attrs
      ensures a in attrs ==> r == this
      ensures a !in attrs ==> r.attrs == attrs[a := v]
    {
      if a in attrs then this else Set(a, v)
    }
  }

  /** The pre-order sequence of a forest: each node, then its subtree, then its later siblings. */
  function Flat(ns: seq<Node>): seq<Node>
  {
    if ns == [] then [] else [ns[0]] + Flat(ns[0].children) + Flat(ns[1..])
  }

  /** `descendants()`: the node itself first, then every node below it in document order. */
  function Descendants(n: Node): seq<Node>
  {
    [n] + Flat(n.children)
  }

  /** The uids of a sequence of nodes, in order. */
  function Uids(ns: seq<Node>): (r: seq<UId>)
    ensures |r| == |ns| && forall i :: 0 <= i < |ns| ==> r[i] == ns[i].uid
  {
    if ns == [] then [] else [ns[0].uid] + Uids(ns[1..])
  }

  function UidSet(ns: seq<Node>): set<UId>
  {
    set n | n in ns :: n.uid
  }

  /** The number of nodes in a forest; every removal makes it smaller. */
  function Size(ns: seq<Node>): nat
  {
    |Flat(ns)|
  }

  /** The node with that uid, the first in document order. */
  function Find(ns: seq<Node>, u: UId): (r: Option<Node>)
    ensures r.Some? ==> r.value in Flat(ns) && r.value.uid == u
    ensures r.None? ==> forall n :: n in Flat(ns) ==> n.uid != u
  {
    FirstWithUid(Flat(ns), u)
  }

  function FirstWithUid(ns: seq<Node>, u: UId): (r: Option<Node>)
    ensures r.Some? ==> r.value in ns && r.value.uid == u
    ensures r.None? ==> forall n :: n in ns ==> n.uid != u
  {
    if ns == [] then Option.None
    else if ns[0].uid == u then Some(ns[0])
    else FirstWithUid(ns[1..], u)
  }

  /** The element kind of the node a link points at, if that node is an element. */
  function TargetTag(doc: Node, u: UId): Option<EId>
  {
    match Find([doc], u)
    case Some(n) => if n.kind.Element? then Some(n.kind.eid) else Option.None
    case None => Option.None
  }

  predicate LinksTo(v: AValue, u: UId) { LinkTarget(v) == Some(u) }

  predicate LinksInto(v: AValue, gone: set<UId>)
  {
    LinkTarget(v).Some? && LinkTarget(v).value in gone
  }

  /** `is_used`: some node of the document has an attribute linking to `u`. */
  predicate IsUsed(doc: Node, u: UId)
  {
    exists n, a :: n in Descendants(doc) && a in n.attrs && LinksTo(n.attrs[a], u)
  }

  predicate HasLinkTo(n: Node, u: UId)
  {
    exists a :: a in n.attrs && LinksTo(n.attrs[a], u)
  }

  /** `linked_nodes`: the nodes, in document order, that link to `u`. */
  function LinkedNodes(doc: Node, u: UId): (r: seq<Node>)
    ensures forall n :: n in r <==> n in Descendants(doc) && HasLinkTo(n, u)
  {
    FilterLinking(Descendants(doc), u)
  }

  function FilterLinking(ns: seq<Node>, u: UId): (r: seq<Node>)
    ensures forall n :: n in r <==> n in ns && HasLinkTo(n, u)
  {
    if ns == [] then []
    else (if HasLinkTo(ns[0], u) then [ns[0]] else []) + FilterLinking(ns[1..], u)
  }

  /** Cut out, at any depth, every subtree whose root uid is in `drop`. */
  function Prune(ns: seq<Node>, drop: set<UId>): (r: seq<Node>)
    ensures forall n :: n in r ==> n.uid !in drop
  {
    if ns == [] then []
    else
      (if ns[0].uid in drop then [] else [ns[0].(children := Prune(ns[0].children, drop))])
      + Prune(ns[1..], drop)
  }

  /** The attributes that do not link into `gone`. */
  function Unlinked(attrs: map<AId, AValue>, gone: set<UId>): (r: map<AId, AValue>)
    ensures forall a :: a in r <==> a in attrs && !LinksInto(attrs[a], gone)
    ensures forall a :: a in r ==> r[a] == attrs[a]
  {
    map a | a in attrs && !LinksInto(attrs[a], gone) :: attrs[a]
  }

  /** Drop, everywhere in the forest, the attributes that link into `gone`. */
  function UnlinkAll(ns: seq<Node>, gone: set<UId>): (r: seq<Node>)
    ensures |r| == |ns|
    ensures forall i :: 0 <= i < |ns| ==> r[i].uid == ns[i].uid && r[i].kind == ns[i].kind
  {
    if ns == [] then []
    else
      [ns[0].(attrs := Unlinked(ns[0].attrs, gone), children := UnlinkAll(ns[0].children, gone))]
      + UnlinkAll(ns[1..], gone)
  }

  /** The uids of the nodes that a prune of `drop` takes out of the forest. */
  function DroppedUids(ns: seq<Node>, drop: set<UId>): set<UId>
  {
    UidSet(Flat(ns)) - UidSet(Flat(Prune(ns, drop)))
  }

  /**
   * `remove_node` applied to every node of `drop` below the root: the subtrees
   * go, and so does every attribute elsewhere that linked into them.
   */
  function RemoveNodes(doc: Node, drop: set<UId>): (r: Node)
    ensures r.uid == doc.uid && r.kind == doc.kind
  {
    var kept := Prune(doc.children, drop);
    var gone := DroppedUids(doc.children, drop);
    doc.(attrs := Unlinked(doc.attrs, gone), children := UnlinkAll(kept, gone))
  }

  // ---- basic facts about the pre-order ----

  lemma {:induction false} FlatAppend(a: seq<Node>, b: seq<Node>)
    ensures Flat(a + b) == Flat(a) + Flat(b)
  {
    if a == [] {
      assert a + b == b;
    } else {
      assert (a + b)[0] == a[0];
      assert (a + b)[1..] == a[1..] + b;
      FlatAppend(a[1..], b);
    }
  }

  lemma {:induction false} FlatSingle(n: Node)
    ensures Flat([n]) == Descendants(n)
  {
    assert [n][1..] == [];
  }

  lemma {:induction false} FlatLength(ns: seq<Node>)
    ensures |Flat(ns)| >= |ns|
  {
    if ns != [] { FlatLength(ns[1..]); }
  }

  /** Every node of the forest is in the pre-order, and so is everything below it. */
  lemma {:induction false} FlatContains(ns: seq<Node>, i: nat)
    requires i < |ns|
    ensures ns[i] in Flat(ns)
    ensures forall m :: m in Flat(ns[i].children) ==> m in Flat(ns)
  {
    if i > 0 { FlatContains(ns[1..], i - 1); }
  }

  lemma {:induction false} UnlinkSize(ns: seq<Node>, gone: set<UId>)
    ensures Size(UnlinkAll(ns, gone)) == Size(ns)
  {
    if ns != [] {
      UnlinkSize(ns[0].children, gone);
      UnlinkSize(ns[1..], gone);
    }
  }

  /** Pruning never adds nodes, and pruning a node that is present removes at least one. */
  lemma {:induction false} PruneSize(ns: seq<Node>, drop: set<UId>)
    ensures Size(Prune(ns, drop)) <= Size(ns)
    ensures (exists n :: n in Flat(ns) && n.uid in drop) ==> Size(Prune(ns, drop)) < Size(ns)
  {
    if ns != [] {
      PruneSize(ns[0].children, drop);
      PruneSize(ns[1..], drop);
      var rest := Prune(ns[1..], drop);
      if ns[0].uid in drop {
        assert Prune(ns, drop) == [] + rest;
        assert Prune(ns, drop) == rest;
      } else {
        var head := ns[0].(children := Prune(ns[0].children, drop));
        assert Prune(ns, drop) == [head] + rest;
        FlatAppend([head], rest);
        FlatSingle(head);
      }
    }
  }

  lemma {:induction false} RemoveNodesSize(doc: Node, drop: set<UId>)
    ensures Size(RemoveNodes(doc, drop).children) <= Size(doc.children)
    ensures (exists n :: n in Flat(doc.children) && n.uid in drop)
            ==> Size(RemoveNodes(doc, drop).children) < Size(doc.children)
  {
    var kept := Prune(doc.children, drop);
    PruneSize(doc.children, drop);
    UnlinkSize(kept, DroppedUids(doc.children, drop));
  }

  // ---- what a node is apart from its children ----

  /** A node without its children: what a rewrite of one node can change. */
  datatype Head = Head(uid: UId, kind: Kind, id: string, attrs: map<AId, AValue>)

  function HeadOf(n: Node): Head { Head(n.uid, n.kind, n.id, n.attrs) }

  /** The heads of every node of a forest, at any depth. */
  function Heads(ns: seq<Node>): set<Head>
  {
    set n | n in Flat(ns) :: HeadOf(n)
  }

  lemma {:induction false} FlatMembers(ns: seq<Node>, m: Node)
    requires m in Flat(ns)
    ensures exists i :: 0 <= i < |ns| && (m == ns[i] || m in Flat(ns[i].children))
  {
    if ns != [] {
      if m != ns[0] && m !in Flat(ns[0].children) {
        assert m in Flat(ns[1..]);
        FlatMembers(ns[1..], m);
        var i :| 0 <= i < |ns[1..]| && (m == ns[1..][i] || m in Flat(ns[1..][i].children));
        assert ns[1..][i] == ns[i + 1];
      }
    }
  }

  /** Pruning keeps only nodes outside `drop`, each one unchanged apart from its children. */
  lemma {:induction false} PruneHeads(ns: seq<Node>, drop: set<UId>)
    ensures forall m :: m in Flat(Prune(ns, drop)) ==> m.uid !in drop && HeadOf(m) in Heads(ns)
  {
    if ns != [] {
      PruneHeads(ns[0].children, drop);
      PruneHeads(ns[1..], drop);
      FlatContains(ns, 0);
      var rest := Prune(ns[1..], drop);
      assert forall m :: m in Flat(ns[1..]) ==> m in Flat(ns);
      if ns[0].uid in drop {
        assert Prune(ns, drop) == rest;
      } else {
        var head := ns[0].(children := Prune(ns[0].children, drop));
        assert Prune(ns, drop) == [head] + rest;
        FlatAppend([head], rest);
        FlatSingle(head);
      }
    }
  }

  /** Pruning nothing changes nothing. */
  lemma {:induction false} PruneNothing(ns: seq<Node>)
    ensures Prune(ns, {}) == ns
  {
    if ns != [] {
      PruneNothing(ns[0].children);
      PruneNothing(ns[1..]);
      assert [ns[0]] + ns[1..] == ns;
    }
  }

  /** Unlinking nothing changes nothing. */
  lemma {:induction false} UnlinkNothing(ns: seq<Node>)
    ensures UnlinkAll(ns, {}) == ns
  {
    if ns != [] {
      UnlinkNothing(ns[0].children);
      UnlinkNothing(ns[1..]);
      assert Unlinked(ns[0].attrs, {}) == ns[0].attrs;
      assert [ns[0]] + ns[1..] == ns;
    }
  }

  /** Removing no node leaves the document as it is. */
  lemma RemoveNothing(doc: Node)
    ensures RemoveNodes(doc, {}) == doc
  {
    PruneNothing(doc.children);
    assert DroppedUids(doc.children, {}) == {};
    UnlinkNothing(doc.children);
    assert Unlinked(doc.attrs, {}) == doc.attrs;
  }

  /** Unlinking keeps every node's uid, kind and id, and drops only link attributes into `gone`. */
  lemma {:induction false} UnlinkHeads(ns: seq<Node>, gone: set<UId>)
    ensures forall m :: m in Flat(UnlinkAll(ns, gone)) ==>
              exists o :: o in Flat(ns) && HeadOf(m) == HeadOf(o).(attrs := Unlinked(o.attrs, gone))
  {
    if ns != [] {
      UnlinkHeads(ns[0].children, gone);
      UnlinkHeads(ns[1..], gone);
      FlatContains(ns, 0);
      assert forall m :: m in Flat(ns[1..]) ==> m in Flat(ns);
      var head := ns[0].(attrs := Unlinked(ns[0].attrs, gone), children := UnlinkAll(ns[0].children, gone));
      var rest := UnlinkAll(ns[1..], gone);
      assert UnlinkAll(ns, gone) == [head] + rest;
      FlatAppend([head], rest);
      FlatSingle(head);
    }
  }

  /**
   * After `RemoveNodes` every node below the root comes from a node of the
   * original document outside `drop`, with the same uid, kind and id, and with
   * its attributes minus the links into removed nodes.
   */
  lemma RemoveNodesHeads(doc: Node, drop: set<UId>)
    ensures forall m :: m in Flat(RemoveNodes(doc, drop).children) ==>
              m.uid !in drop
              && exists o :: o in Flat(doc.children) && o.uid !in drop
                             && HeadOf(m) == HeadOf(o).(attrs := Unlinked(o.attrs, DroppedUids(doc.children, drop)))
  {
    var kept := Prune(doc.children, drop);
    var gone := DroppedUids(doc.children, drop);
    PruneHeads(doc.children, drop);
    UnlinkHeads(kept, gone);
    forall m | m in Flat(RemoveNodes(doc, drop).children)
      ensures m.uid !in drop
      ensures exists o :: o in Flat(doc.children) && o.uid !in drop
                          && HeadOf(m) == HeadOf(o).(attrs := Unlinked(o.attrs, gone))
    {
      var k :| k in Flat(kept) && HeadOf(m) == HeadOf(k).(attrs := Unlinked(k.attrs, gone));
      assert HeadOf(k) in Heads(doc.children);
      var o :| o in Flat(doc.children) && HeadOf(o) == HeadOf(k);
    }
  }

  /** A removal takes out every node of the forest whose uid it names. */
  lemma DroppedContains(ns: seq<Node>, drop: set<UId>, u: UId)
    requires u in drop && u in UidSet(Flat(ns))
    ensures u in DroppedUids(ns, drop)
  {
    PruneHeads(ns, drop);
  }

  // ---- exactly which nodes a removal keeps ----

  /**
   * The nodes of a forest, in document order, that have no ancestor-or-self
   * in `drop`: the ones a removal of `drop` should keep.
   */
  function Outside(ns: seq<Node>, drop: set<UId>): (r: seq<Node>)
    ensures forall n :: n in r ==> n.uid !in drop && n in Flat(ns)
  {
    if ns == [] then []
    else
      (if ns[0].uid in drop then [] else [ns[0]] + Outside(ns[0].children, drop))
      + Outside(ns[1..], drop)
  }

  /** The heads of a sequence of nodes, in order. */
  function HeadSeq(ns: seq<Node>): (r: seq<Head>)
    ensures |r| == |ns|
    ensures forall i :: 0 <= i < |ns| ==> r[i] == HeadOf(ns[i])
  {
    if ns == [] then [] else [HeadOf(ns[0])] + HeadSeq(ns[1..])
  }

  /** Heads with their links into `gone` dropped. */
  function UnlinkHeadSeq(hs: seq<Head>, gone: set<UId>): (r: seq<Head>)
    ensures |r| == |hs|
    ensures forall i :: 0 <= i < |hs| ==> r[i] == hs[i].(attrs := Unlinked(hs[i].attrs, gone))
  {
    if hs == [] then [] else [hs[0].(attrs := Unlinked(hs[0].attrs, gone))] + UnlinkHeadSeq(hs[1..], gone)
  }

  /** Pruning keeps exactly the nodes outside `drop`, in order, each unchanged apart from its children. */
  lemma {:induction false} PruneOutside(ns: seq<Node>, drop: set<UId>)
    ensures HeadSeq(Flat(Prune(ns, drop))) == HeadSeq(Outside(ns, drop))
  {
    if ns != [] {
      PruneOutside(ns[0].children, drop);
      PruneOutside(ns[1..], drop);
      var rest := Prune(ns[1..], drop);
      if ns[0].uid in drop {
        assert Prune(ns, drop) == rest;
        assert Outside(ns, drop) == Outside(ns[1..], drop);
      } else {
        var head := ns[0].(children := Prune(ns[0].children, drop));
        assert Prune(ns, drop) == [head] + rest;
        FlatAppend([head], rest);
        FlatSingle(head);
        var a := [head] + Flat(head.children);
        var b := [ns[0]] + Outside(ns[0].children, drop);
        assert HeadSeq(a) == HeadSeq(b) by {
          assert forall k :: 0 < k < |a| ==> a[k] == Flat(head.children)[k - 1];
          assert forall k :: 0 < k < |b| ==> b[k] == Outside(ns[0].children, drop)[k - 1];
        }
        HeadSeqAppend(a, Flat(rest));
        HeadSeqAppend(b, Outside(ns[1..], drop));
      }
    }
  }

  lemma HeadSeqAppend(a: seq<Node>, b: seq<Node>)
    ensures HeadSeq(a + b) == HeadSeq(a) + HeadSeq(b)
  {
    assert forall k :: 0 <= k < |a + b| ==> HeadSeq(a + b)[k] == (HeadSeq(a) + HeadSeq(b))[k];
  }

  lemma UnlinkHeadSeqAppend(a: seq<Head>, b: seq<Head>, gone: set<UId>)
    ensures UnlinkHeadSeq(a + b, gone) == UnlinkHeadSeq(a, gone) + UnlinkHeadSeq(b, gone)
  {
    assert forall k :: 0 <= k < |a + b| ==>
      UnlinkHeadSeq(a + b, gone)[k] == (UnlinkHeadSeq(a, gone) + UnlinkHeadSeq(b, gone))[k];
  }

  /** Unlinking drops, node by node and in order, only the links into `gone`. */
  lemma {:induction false} UnlinkAllHeads(ns: seq<Node>, gone: set<UId>)
    ensures HeadSeq(Flat(UnlinkAll(ns, gone))) == UnlinkHeadSeq(HeadSeq(Flat(ns)), gone)
  {
    if ns != [] {
      UnlinkAllHeads(ns[0].children, gone);
      UnlinkAllHeads(ns[1..], gone);
      var head := ns[0].(attrs := Unlinked(ns[0].attrs, gone), children := UnlinkAll(ns[0].children, gone));
      var rest := UnlinkAll(ns[1..], gone);
      assert UnlinkAll(ns, gone) == [head] + rest;
      FlatAppend([head], rest);
      FlatSingle(head);
      var l := Flat(UnlinkAll(ns, gone));
      assert l == [head] + Flat(head.children) + Flat(rest);
      HeadSeqAppend([head], Flat(head.children));
      HeadSeqAppend([head] + Flat(head.children), Flat(rest));
      var o1, o2, o3 := HeadSeq([ns[0]]), HeadSeq(Flat(ns[0].children)), HeadSeq(Flat(ns[1..]));
      assert Flat(ns) == [ns[0]] + Flat(ns[0].children) + Flat(ns[1..]);
      HeadSeqAppend([ns[0]], Flat(ns[0].children));
      HeadSeqAppend([ns[0]] + Flat(ns[0].children), Flat(ns[1..]));
      assert HeadSeq(Flat(ns)) == o1 + o2 + o3;
      UnlinkHeadSeqAppend(o1, o2, gone);
      UnlinkHeadSeqAppend(o1 + o2, o3, gone);
      assert HeadSeq([head]) == UnlinkHeadSeq(o1, gone);
    }
  }

  /**
   * `remove_node` over `drop`: what remains below the root is exactly the
   * nodes outside `drop`, in document order, each with its links into the
   * removed nodes dropped and nothing else changed.
   */
  lemma RemoveNodesOutside(doc: Node, drop: set<UId>)
    ensures HeadSeq(Flat(RemoveNodes(doc, drop).children))
            == UnlinkHeadSeq(HeadSeq(Outside(doc.children, drop)), DroppedUids(doc.children, drop))
  {
    var kept := Prune(doc.children, drop);
    var gone := DroppedUids(doc.children, drop);
    UnlinkAllHeads(kept, gone);
    PruneOutside(doc.children, drop);
  }

  // ---- node-by-node rewrites ----

  /**
   * A loop over `descendants()` that rewrites each node on its own: `f` sees
   * the node as it was, children included, and its result keeps the
   * rewritten children.
   */
  function MapNodes(ns: seq<Node>, f: Node -> Node): (r: seq<Node>)
    ensures |r| == |ns|
    ensures forall i :: 0 <= i < |ns| ==> r[i] == f(ns[i]).(children := MapNodes(ns[i].children, f))
  {
    if ns == [] then []
    else
      var head := f(ns[0]).(children := MapNodes(ns[0].children, f));
      var rest := MapNodes(ns[1..], f);
      assert forall i :: 1 <= i < |ns| ==> ([head] + rest)[i] == rest[i - 1] && ns[i] == ns[1..][i - 1];
      [head] + rest
  }

  /** Indexing into a sequence built from its first element and the rest. */
  lemma ConsIndex<T>(h: T, rest: seq<T>)
    ensures |[h] + rest| == |rest| + 1 && ([h] + rest)[0] == h && ([h] + rest)[1..] == rest
    ensures forall i :: 1 <= i <= |rest| ==> ([h] + rest)[i] == rest[i - 1]
  {
  }

  lemma AppendAssoc<T>(x: seq<T>, y: seq<T>, z: seq<T>)
    ensures x + (y + z) == (x + y) + z
  {
  }

  /** Two sequences of nodes of the same length, related position by position. */
  predicate Pairwise(os: seq<Node>, ms: seq<Node>, rel: (Node, Node) -> bool)
  {
    |os| == |ms| && forall k :: 0 <= k < |os| ==> rel(os[k], ms[k])
  }

  lemma PairwiseAppend(o1: seq<Node>, m1: seq<Node>, o2: seq<Node>, m2: seq<Node>, rel: (Node, Node) -> bool)
    requires Pairwise(o1, m1, rel) && Pairwise(o2, m2, rel)
    ensures Pairwise(o1 + o2, m1 + m2, rel)
  {
    forall k | 0 <= k < |o1 + o2|
      ensures rel((o1 + o2)[k], (m1 + m2)[k])
    {
      if k < |o1| {
        assert (o1 + o2)[k] == o1[k] && (m1 + m2)[k] == m1[k];
      } else {
        assert (o1 + o2)[k] == o2[k - |o1|] && (m1 + m2)[k] == m2[k - |o1|];
      }
    }
  }

  /** The same loop over the root and everything below it. */
  function MapDoc(doc: Node, f: Node -> Node): (r: Node)
    ensures [r] == MapNodes([doc], f)
  {
    f(doc).(children := MapNodes(doc.children, f))
  }

  /** Each node of `s` rewritten by `f`, children rewritten below it. */
  function Rewritten(s: seq<Node>, f: Node -> Node): (r: seq<Node>)
    ensures |r| == |s|
    ensures forall k :: 0 <= k < |s| ==> r[k] == f(s[k]).(children := MapNodes(s[k].children, f))
  {
    seq(|s|, k requires 0 <= k < |s| => f(s[k]).(children := MapNodes(s[k].children, f)))
  }

  lemma RewrittenAppend(a: seq<Node>, b: seq<Node>, f: Node -> Node)
    ensures Rewritten(a + b, f) == Rewritten(a, f) + Rewritten(b, f)
  {
    var l := Rewritten(a + b, f);
    var r := Rewritten(a, f) + Rewritten(b, f);
    forall k | 0 <= k < |a + b|
      ensures l[k] == r[k]
    {
      if k < |a| {
        assert (a + b)[k] == a[k];
      } else {
        assert (a + b)[k] == b[k - |a|];
      }
    }
  }

  lemma {:induction false} MapNodesFlatEq(ns: seq<Node>, f: Node -> Node)
    ensures Flat(MapNodes(ns, f)) == Rewritten(Flat(ns), f)
  {
    if ns != [] {
      MapNodesFlatEq(ns[0].children, f);
      MapNodesFlatEq(ns[1..], f);
      var r := MapNodes(ns, f);
      assert r[1..] == MapNodes(ns[1..], f);
      assert Flat(r) == [r[0]] + Flat(r[0].children) + Flat(r[1..]);
      assert Flat(ns) == [ns[0]] + Flat(ns[0].children) + Flat(ns[1..]);
      RewrittenAppend([ns[0]], Flat(ns[0].children), f);
      RewrittenAppend([ns[0]] + Flat(ns[0].children), Flat(ns[1..]), f);
      assert Rewritten([ns[0]], f) == [r[0]];
    }
  }

  /** A node-by-node rewrite keeps the pre-order: position k holds the rewrite of what was there. */
  lemma MapNodesFlat(ns: seq<Node>, f: Node -> Node)
    ensures |Flat(MapNodes(ns, f))| == |Flat(ns)|
    ensures forall k :: 0 <= k < |Flat(ns)| ==> HeadOf(Flat(MapNodes(ns, f))[k]) == HeadOf(f(Flat(ns)[k]))
    ensures forall k :: 0 <= k < |Flat(ns)| ==>
              Flat(MapNodes(ns, f))[k] == f(Flat(ns)[k]).(children := MapNodes(Flat(ns)[k].children, f))
  {
    MapNodesFlatEq(ns, f);
  }

  /** The same for a whole document, root first. */
  lemma MapDocFlat(doc: Node, f: Node -> Node)
    ensures |Descendants(MapDoc(doc, f))| == |Descendants(doc)|
    ensures forall k :: 0 <= k < |Descendants(doc)| ==>
              HeadOf(Descendants(MapDoc(doc, f))[k]) == HeadOf(f(Descendants(doc)[k]))
  {
    MapNodesFlat([doc], f);
    FlatSingle(doc);
    FlatSingle(MapDoc(doc, f));
  }

  /** The same, node for node: position k holds the rewrite of the subtree that was there. */
  lemma MapDocNodes(doc: Node, f: Node -> Node)
    ensures |Descendants(MapDoc(doc, f))| == |Descendants(doc)|
    ensures forall k :: 0 <= k < |Descendants(doc)| ==>
              Descendants(MapDoc(doc, f))[k]
              == f(Descendants(doc)[k]).(children := MapNodes(Descendants(doc)[k].children, f))
  {
    MapNodesFlat([doc], f);
    FlatSingle(doc);
    FlatSingle(MapDoc(doc, f));
  }

  // ---- fresh identities ----

  /** The largest uid in a forest (0 when empty). */
  function MaxUid(ns: seq<Node>): (r: nat)
    ensures forall n :: n in Flat(ns) ==> n.uid <= r
  {
    if ns == [] then 0
    else
      var a := MaxUid(ns[0].children);
      var b := MaxUid(ns[1..]);
      var m := if a > b then a else b;
      if ns[0].uid > m then ns[0].uid else m
  }

  /** The first uid no node of the document uses. */
  function FreshBase(doc: Node): (r: nat)
    ensures forall m :: m in Descendants(doc) ==> m.uid < r
  {
    FlatSingle(doc);
    MaxUid([doc]) + 1
  }

  /**
   * The first uid of the copies made for node `g`: past every uid of the
   * document, and apart for distinct nodes, since no node has more children
   * than the document has nodes.
   */
  function CopyBase(doc: Node, g: Node): (r: nat)
    ensures r > MaxUid([doc])
  {
    var m := MaxUid([doc]);
    PastMax(m, g.uid, Fuel(doc));
    m + 1 + g.uid * Fuel(doc)
  }

  lemma PastMax(m: nat, u: nat, stride: nat)
    ensures m + 1 + u * stride > m
  {
  }

  // ---- filling nodes from elsewhere ----

  /**
   * A walk over a forest that replaces each node `fillable` picks by `fill`
   * of it, and descends into every other node.
   */
  function FillWalk(ns: seq<Node>, fillable: Node -> bool, fill: Node -> Node): (r: seq<Node>)
    ensures |r| == |ns|
    ensures forall i :: 0 <= i < |ns| ==>
              r[i] == if fillable(ns[i]) then fill(ns[i]) else ns[i].(children := FillWalk(ns[i].children, fillable, fill))
  {
    if ns == [] then []
    else
      var head := if fillable(ns[0]) then fill(ns[0]) else ns[0].(children := FillWalk(ns[0].children, fillable, fill));
      var rest := FillWalk(ns[1..], fillable, fill);
      ConsIndex(head, rest);
      [head] + rest
  }

  // ---- href chains ----

  /** A chain longer than the document's node count repeats a node; it would never end. */
  function Fuel(doc: Node): nat { Size([doc]) }

  /**
   * Follows `xlink:href` from `n` to the first node without one. None when a
   * node of the chain fails `ok`, an href is not a Link to a node of the
   * document, or the chain is longer than `fuel` (it then loops).
   */
  function ChainEnd(doc: Node, n: Node, ok: Node -> bool, fuel: nat): (r: Option<Node>)
    ensures r.Some? ==> AId.Href !in r.value.attrs && ok(r.value)
    ensures r.Some? ==> r.value == n || r.value in Descendants(doc)
    ensures !ok(n) ==> r.None?
    ensures ok(n) && AId.Href !in n.attrs ==> r == Some(n)
    decreases fuel
  {
    if !ok(n) then Option.None
    else if AId.Href !in n.attrs then Some(n)
    else if fuel == 0 then Option.None
    else
      match n.attrs[AId.Href]
      case Link(u) =>
        (match Find([doc], u)
         case Some(t) => FlatSingle(doc); ChainEnd(doc, t, ok, fuel - 1)
         case None => Option.None)
      case _ => Option.None
  }

  /** The next node of a chain: the target of a Link href, when it is in the document. */
  function HrefTarget(doc: Node, n: Node): Option<Node>
  {
    if AId.Href in n.attrs && n.attrs[AId.Href].Link? then Find([doc], n.attrs[AId.Href].target)
    else Option.None
  }

  /** One step of the walk: from a node with a Link href, the chain's end is its target's. */
  lemma ChainEndStep(doc: Node, n: Node, ok: Node -> bool, fuel: nat)
    requires ok(n) && HrefTarget(doc, n).Some? && fuel > 0
    ensures ChainEnd(doc, n, ok, fuel) == ChainEnd(doc, HrefTarget(doc, n).value, ok, fuel - 1)
  {
  }

  /** A chain that reaches a node failing `ok` before its end yields nothing. */
  lemma ChainEndFails(doc: Node, n: Node, ok: Node -> bool, fuel: nat)
    requires ok(n) && HrefTarget(doc, n).Some? && fuel > 0 && !ok(HrefTarget(doc, n).value)
    ensures ChainEnd(doc, n, ok, fuel).None?
  {
  }
}
