/**
 * svgdom's `drain(root, f)`: a walk over the nodes below the root in document
 * order that removes each node `f` matches, with its subtree, at the moment
 * its turn comes. `f` sees the document as the earlier removals left it, so
 * a node can match only because of a removal before it. Nodes never move, so
 * the walk is the original pre-order's uids visited in turn, and a uid whose
 * node has already gone with an ancestor is skipped.
 */
module DocDrain {
  import opened Wrappers
  import opened SvgTypes
  import opened Dom

  /**
   * Visit `us` in turn; the second component lists, in order, the uids that
   * matched, so its length is the count `drain` returns.
   */
  function Drain(doc: Node, us: seq<UId>, f: (Node, Node) -> bool): (r: (Node, seq<UId>))
    ensures r.0.uid == doc.uid && r.0.kind == doc.kind
    ensures r.1 == [] ==> r.0 == doc
    ensures Size(r.0.children) <= Size(doc.children)
    ensures r.1 != [] ==> Size(r.0.children) < Size(doc.children)
    decreases |us|
  {
    if us == [] then (doc, [])
    else
      match Find(doc.children, us[0])
      case Some(n) =>
        if f(doc, n) then
          RemoveNodesSize(doc, {us[0]});
          var rest := Drain(RemoveNodes(doc, {us[0]}), us[1..], f);
          (rest.0, [us[0]] + rest.1)
        else Drain(doc, us[1..], f)
      case None => Drain(doc, us[1..], f)
  }

  /** `doc.drain(root, f)`: every node below the root in document order. */
  function DrainAll(doc: Node, f: (Node, Node) -> bool): (r: (Node, seq<UId>))
    ensures r.0.uid == doc.uid && r.0.kind == doc.kind
    ensures r.1 == [] ==> r.0 == doc
    ensures r.1 != [] ==> Size(r.0.children) < Size(doc.children)
  {
    Drain(doc, Uids(Flat(doc.children)), f)
  }

  /**
   * What a later document holds of a node: the same uid, kind and id, and its
   * attributes with at most some link-valued ones gone.
   */
  predicate Derived(m: Head, o: Head)
  {
    m.uid == o.uid && m.kind == o.kind && m.id == o.id
    && (forall a :: a in m.attrs ==> a in o.attrs && m.attrs[a] == o.attrs[a])
    && (forall a :: a in o.attrs && a !in m.attrs ==> LinkTarget(o.attrs[a]).Some?)
  }

  lemma DerivedTrans(m: Head, k: Head, o: Head)
    requires Derived(m, k) && Derived(k, o)
    ensures Derived(m, o)
  {
  }

  /** No two nodes of the forest share a uid unless they agree apart from their children. */
  predicate HeadUnique(ns: seq<Node>)
  {
    forall a, b :: a in Flat(ns) && b in Flat(ns) && a.uid == b.uid ==> HeadOf(a) == HeadOf(b)
  }

  /** A node left by one removal, and the node of the document before it that it comes from. */
  lemma RemovedOrigin(doc: Node, drop: set<UId>, m: Node) returns (o: Node)
    requires m in Flat(RemoveNodes(doc, drop).children)
    ensures o in Flat(doc.children) && o.uid !in drop && Derived(HeadOf(m), HeadOf(o))
    ensures HeadOf(m) == HeadOf(o).(attrs := Unlinked(o.attrs, DroppedUids(doc.children, drop)))
  {
    RemoveNodesHeads(doc, drop);
    o :| o in Flat(doc.children) && o.uid !in drop
         && HeadOf(m) == HeadOf(o).(attrs := Unlinked(o.attrs, DroppedUids(doc.children, drop)));
  }

  /** A removal keeps uids unique. */
  lemma RemoveUnique(doc: Node, drop: set<UId>)
    requires HeadUnique(doc.children)
    ensures HeadUnique(RemoveNodes(doc, drop).children)
  {
    var r := RemoveNodes(doc, drop);
    forall a, b | a in Flat(r.children) && b in Flat(r.children) && a.uid == b.uid
      ensures HeadOf(a) == HeadOf(b)
    {
      var oa := RemovedOrigin(doc, drop, a);
      var ob := RemovedOrigin(doc, drop, b);
    }
  }

  /** Every node the drain leaves comes from a node of the document it started from. */
  lemma {:induction false} DrainOrigin(doc: Node, us: seq<UId>, f: (Node, Node) -> bool, m: Node) returns (o: Node)
    requires m in Flat(Drain(doc, us, f).0.children)
    ensures o in Flat(doc.children) && Derived(HeadOf(m), HeadOf(o))
    decreases |us|
  {
    if us == [] {
      o := m;
    } else {
      match Find(doc.children, us[0])
      case Some(n) =>
        if f(doc, n) {
          var next := RemoveNodes(doc, {us[0]});
          var k := DrainOrigin(next, us[1..], f, m);
          o := RemovedOrigin(doc, {us[0]}, k);
          DerivedTrans(HeadOf(m), HeadOf(k), HeadOf(o));
        } else {
          o := DrainOrigin(doc, us[1..], f, m);
        }
      case None =>
        o := DrainOrigin(doc, us[1..], f, m);
    }
  }

  /** The drain keeps uids unique. */
  lemma {:induction false} DrainUnique(doc: Node, us: seq<UId>, f: (Node, Node) -> bool)
    requires HeadUnique(doc.children)
    ensures HeadUnique(Drain(doc, us, f).0.children)
    decreases |us|
  {
    if us != [] {
      match Find(doc.children, us[0])
      case Some(n) =>
        if f(doc, n) {
          RemoveUnique(doc, {us[0]});
          DrainUnique(RemoveNodes(doc, {us[0]}), us[1..], f);
        } else {
          DrainUnique(doc, us[1..], f);
        }
      case None =>
        DrainUnique(doc, us[1..], f);
    }
  }

  /**
   * A property of a node alone that losing link attributes cannot create:
   * when `f` tests it, no node still has it after the walk, provided every
   * node that had it before was due a visit.
   */
  lemma {:induction false} DrainClean(doc: Node, us: seq<UId>, f: (Node, Node) -> bool, p: Head -> bool)
    requires HeadUnique(doc.children)
    requires forall d, n :: f(d, n) == p(HeadOf(n))
    requires forall m, o :: Derived(m, o) && p(m) ==> p(o)
    requires forall m :: m in Flat(doc.children) && p(HeadOf(m)) ==> m.uid in us
    ensures forall m :: m in Flat(Drain(doc, us, f).0.children) ==> !p(HeadOf(m))
    decreases |us|
  {
    if us != [] {
      var u := us[0];
      match Find(doc.children, u)
      case Some(n) =>
        if f(doc, n) {
          var next := RemoveNodes(doc, {u});
          RemoveUnique(doc, {u});
          forall m | m in Flat(next.children) && p(HeadOf(m))
            ensures m.uid in us[1..]
          {
            var o := RemovedOrigin(doc, {u}, m);
          }
          DrainClean(next, us[1..], f, p);
        } else {
          forall m | m in Flat(doc.children) && p(HeadOf(m))
            ensures m.uid in us[1..]
          {
          }
          DrainClean(doc, us[1..], f, p);
        }
      case None =>
        DrainClean(doc, us[1..], f, p);
    }
  }

  /** A property that losing link attributes cannot create stays absent through a drain. */
  lemma DrainKeepsAbsent(doc: Node, us: seq<UId>, f: (Node, Node) -> bool, p: Head -> bool)
    requires forall m, o :: Derived(m, o) && p(m) ==> p(o)
    requires forall m :: m in Flat(doc.children) ==> !p(HeadOf(m))
    ensures forall m :: m in Flat(Drain(doc, us, f).0.children) ==> !p(HeadOf(m))
  {
    forall m | m in Flat(Drain(doc, us, f).0.children)
      ensures !p(HeadOf(m))
    {
      var o := DrainOrigin(doc, us, f, m);
    }
  }

  /**
   * Every node the drain matched was, in the document it started from, a node
   * with `p`, when `f` implies `p` and losing links cannot create `p`.
   */
  lemma {:induction false} MatchedOrigin(doc: Node, us: seq<UId>, f: (Node, Node) -> bool, p: Head -> bool, u: UId)
    returns (o: Node)
    requires forall d, n :: f(d, n) ==> p(HeadOf(n))
    requires forall m, o :: Derived(m, o) && p(m) ==> p(o)
    requires u in Drain(doc, us, f).1
    ensures o in Flat(doc.children) && o.uid == u && p(HeadOf(o))
    decreases |us|
  {
    match Find(doc.children, us[0])
    case Some(n) =>
      if f(doc, n) {
        if u == us[0] {
          o := n;
        } else {
          var next := RemoveNodes(doc, {us[0]});
          var k := MatchedOrigin(next, us[1..], f, p, u);
          o := RemovedOrigin(doc, {us[0]}, k);
        }
      } else {
        o := MatchedOrigin(doc, us[1..], f, p, u);
      }
    case None =>
      o := MatchedOrigin(doc, us[1..], f, p, u);
  }

  /** One visit of the drain: a uid that names no node, or a node `f` rejects, is passed over. */
  lemma DrainPass(doc: Node, us: seq<UId>, f: (Node, Node) -> bool)
    requires us != [] && (Find(doc.children, us[0]).None? || !f(doc, Find(doc.children, us[0]).value))
    ensures Drain(doc, us, f) == Drain(doc, us[1..], f)
  {
  }

  /** One visit of the drain that removes the node. */
  lemma DrainTake(doc: Node, us: seq<UId>, f: (Node, Node) -> bool)
    requires us != [] && Find(doc.children, us[0]).Some? && f(doc, Find(doc.children, us[0]).value)
    ensures Drain(doc, us, f).0 == Drain(RemoveNodes(doc, {us[0]}), us[1..], f).0
    ensures Drain(doc, us, f).1 != []
  {
  }

  /**
   * A drain that removes nothing found nothing to match: every uid it visited
   * names no node, or a node `f` rejects.
   */
  lemma {:induction false} DrainNone(doc: Node, us: seq<UId>, f: (Node, Node) -> bool)
    requires Drain(doc, us, f).1 == []
    ensures forall k :: 0 <= k < |us| && Find(doc.children, us[k]).Some? ==> !f(doc, Find(doc.children, us[k]).value)
    decreases |us|
  {
    if us != [] {
      DrainNone(doc, us[1..], f);
      assert forall k :: 1 <= k < |us| ==> us[k] == us[1..][k - 1];
    }
  }

  /** With unique uids, a whole-document drain that removes nothing leaves no node `f` matches. */
  lemma DrainAllNone(doc: Node, f: (Node, Node) -> bool)
    requires HeadUnique(doc.children)
    requires forall d, n, m :: HeadOf(n) == HeadOf(m) ==> f(d, n) == f(d, m)
    requires DrainAll(doc, f).1 == []
    ensures forall m :: m in Flat(doc.children) ==> !f(doc, m)
  {
    var us := Uids(Flat(doc.children));
    DrainNone(doc, us, f);
    forall m | m in Flat(doc.children)
      ensures !f(doc, m)
    {
      var k :| 0 <= k < |Flat(doc.children)| && Flat(doc.children)[k] == m;
      assert us[k] == m.uid;
      var n := Find(doc.children, m.uid).value;
      assert HeadOf(n) == HeadOf(m);
    }
  }
}
