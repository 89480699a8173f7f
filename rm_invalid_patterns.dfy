/**
 * `remove_invalid_patterns`: a pattern without a positive width and height,
 * or without children, cannot be painted. Every `Link` or `FuncLink` SVG
 * attribute pointing at such a pattern is set to `none`, and once the scan is
 * over the patterns themselves are removed.
 */
module RmInvalidPatterns {
  import opened Wrappers
  import opened SvgTypes
  import opened Dom
  import opened Traits

  /** The scan's test: a pattern whose width or height (missing taken as 0) is not positive, or that has no children. */
  predicate InvalidPattern(n: Node)
  {
    n.Is(EId.Pattern)
    && !(NumberOr(n, AId.Width, 0.0) > 0.0 && NumberOr(n, AId.Height, 0.0) > 0.0 && n.children != [])
  }

  /** An SVG attribute whose value is a `Link` or `FuncLink` to one of `bad`. */
  predicate PointsInto(a: AId, v: AValue, bad: set<UId>)
  {
    IsSvgAttr(a) && (v.Link? || v.FuncLink?) && v.target in bad
  }

  /** One node's attributes with every link of theirs into `bad` set to `none`. */
  function Nulled(attrs: map<AId, AValue>, bad: set<UId>): (r: map<AId, AValue>)
    ensures r.Keys == attrs.Keys
  {
    map a | a in attrs :: if PointsInto(a, attrs[a], bad) then AValue.PredefValue(ValueId.None) else attrs[a]
  }

  /** The same for every node of a forest. */
  function NullAll(ns: seq<Node>, bad: set<UId>): (r: seq<Node>)
    ensures |r| == |ns|
  {
    if ns == [] then []
    else [ns[0].(attrs := Nulled(ns[0].attrs, bad), children := NullAll(ns[0].children, bad))] + NullAll(ns[1..], bad)
  }

  /** The same for a whole document, root included. */
  function NullDoc(doc: Node, bad: set<UId>): (r: Node)
    ensures r.uid == doc.uid && r.kind == doc.kind
  {
    doc.(attrs := Nulled(doc.attrs, bad), children := NullAll(doc.children, bad))
  }

  function NullOne(bad: set<UId>): Node -> Node
  {
    (n: Node) => n.(attrs := Nulled(n.attrs, bad))
  }

  /** The uids of the invalid patterns among `ns`. */
  function BadIn(ns: seq<Node>): set<UId>
  {
    set n | n in ns && InvalidPattern(n) :: n.uid
  }

  /** The patterns the scan over `descendants()` collects. */
  function Bad(doc: Node): set<UId>
  {
    BadIn(Descendants(doc))
  }

  /** The pass: the links into invalid patterns set to `none`, then the patterns removed. */
  function WithoutInvalidPatterns(doc: Node): (r: Node)
    ensures r.uid == doc.uid && r.kind == doc.kind
  {
    RemoveNodes(NullDoc(doc, Bad(doc)), Bad(doc))
  }

  // ---- the rewrite, node by node ----

  /** Setting links to `none` never creates a link, so doing it for `s` and then for `t` is doing it for both. */
  lemma NulledTwice(attrs: map<AId, AValue>, s: set<UId>, t: set<UId>)
    ensures Nulled(Nulled(attrs, s), t) == Nulled(attrs, s + t)
  {
  }

  lemma {:induction false} NullAllTwice(ns: seq<Node>, s: set<UId>, t: set<UId>)
    ensures NullAll(NullAll(ns, s), t) == NullAll(ns, s + t)
  {
    if ns != [] {
      NulledTwice(ns[0].attrs, s, t);
      NullAllTwice(ns[0].children, s, t);
      NullAllTwice(ns[1..], s, t);
      var once := NullAll(ns, s);
      assert once[0] == ns[0].(attrs := Nulled(ns[0].attrs, s), children := NullAll(ns[0].children, s));
      assert once[1..] == NullAll(ns[1..], s);
    }
  }

  lemma NullDocTwice(doc: Node, s: set<UId>, t: set<UId>)
    ensures NullDoc(NullDoc(doc, s), t) == NullDoc(doc, s + t)
  {
    NulledTwice(doc.attrs, s, t);
    NullAllTwice(doc.children, s, t);
  }

  /** The forest rewrite is the node-by-node rewrite `NullOne`. */
  lemma {:induction false} NullAllIsMap(ns: seq<Node>, bad: set<UId>)
    ensures NullAll(ns, bad) == MapNodes(ns, NullOne(bad))
  {
    if ns != [] {
      NullAllIsMap(ns[0].children, bad);
      NullAllIsMap(ns[1..], bad);
      var m := MapNodes(ns, NullOne(bad));
      assert m[0] == NullOne(bad)(ns[0]).(children := MapNodes(ns[0].children, NullOne(bad)));
      assert m == [m[0]] + m[1..];
      assert m[1..] == MapNodes(ns[1..], NullOne(bad));
    }
  }

  /** The rewrite does not change what the width, height and children test sees. */
  lemma NullKeepsTest(n: Node, bad: set<UId>, c: seq<Node>)
    requires |c| == |n.children|
    ensures InvalidPattern(n.(attrs := Nulled(n.attrs, bad), children := c)) == InvalidPattern(n)
  {
    var m := n.(attrs := Nulled(n.attrs, bad), children := c);
    assert GetNumber(m, AId.Width) == GetNumber(n, AId.Width);
    assert GetNumber(m, AId.Height) == GetNumber(n, AId.Height);
  }

  /** Position `i` of the rewritten document's pre-order holds the rewrite of the node that was there. */
  lemma LiveNode(doc: Node, bad: set<UId>, i: nat)
    requires i < |Descendants(doc)|
    ensures |Descendants(NullDoc(doc, bad))| == |Descendants(doc)|
    ensures Descendants(NullDoc(doc, bad))[i].uid == Descendants(doc)[i].uid
    ensures InvalidPattern(Descendants(NullDoc(doc, bad))[i]) == InvalidPattern(Descendants(doc)[i])
  {
    NullAllIsMap(doc.children, bad);
    assert NullDoc(doc, bad) == MapDoc(doc, NullOne(bad));
    MapDocNodes(doc, NullOne(bad));
    var o := Descendants(doc)[i];
    NullKeepsTest(o, bad, MapNodes(o.children, NullOne(bad)));
  }

  lemma BadInSnoc(ns: seq<Node>, i: nat)
    requires i < |ns|
    ensures BadIn(ns[..i + 1]) == BadIn(ns[..i]) + (if InvalidPattern(ns[i]) then {ns[i].uid} else {})
  {
    assert ns[..i + 1] == ns[..i] + [ns[i]];
    assert forall n :: n in ns[..i + 1] <==> n in ns[..i] || n == ns[i];
  }

  /**
   * `remove_invalid_patterns`: the scan over the live document's pre-order,
   * each invalid pattern's users rewritten as it is found, and the collected
   * patterns removed after the scan.
   */
  method RemoveInvalidPatterns(doc: Node) returns (r: Node)
    ensures r == WithoutInvalidPatterns(doc)
  {
    var ns := Descendants(doc);
    var cur := doc;
    var nodes: seq<UId> := [];
    var i := 0;
    NullNothing(doc.children);
    assert Nulled(doc.attrs, {}) == doc.attrs;
    assert BadIn(ns[..0]) == {};
    while i < |ns|
      invariant 0 <= i <= |ns|
      invariant cur == NullDoc(doc, BadIn(ns[..i]))
      invariant forall u :: u in nodes <==> u in BadIn(ns[..i])
    {
      ghost var before := BadIn(ns[..i]);
      LiveNode(doc, before, i);
      var node := Descendants(cur)[i];
      assert node.uid == ns[i].uid && InvalidPattern(node) == InvalidPattern(ns[i]);
      BadInSnoc(ns, i);
      if InvalidPattern(node) {
        NullDocTwice(doc, before, {node.uid});
        cur := NullDoc(cur, {node.uid});
        nodes := nodes + [node.uid];
        assert BadIn(ns[..i + 1]) == before + {node.uid};
      } else {
        assert BadIn(ns[..i + 1]) == before;
      }
      i := i + 1;
    }
    assert ns[..i] == ns;
    var drop := set u | u in nodes;
    assert drop == Bad(doc);
    r := RemoveNodes(cur, drop);
  }

  lemma {:induction false} NullNothing(ns: seq<Node>)
    ensures NullAll(ns, {}) == ns
  {
    if ns != [] {
      NullNothing(ns[0].children);
      NullNothing(ns[1..]);
      assert Nulled(ns[0].attrs, {}) == ns[0].attrs;
      assert [ns[0]] + ns[1..] == ns;
    }
  }

  // ---- what the pass leaves ----

  /** Heads with their links into `bad` set to `none`. */
  function NullHeadSeq(hs: seq<Head>, bad: set<UId>): (r: seq<Head>)
    ensures |r| == |hs|
    ensures forall i :: 0 <= i < |hs| ==> r[i] == hs[i].(attrs := Nulled(hs[i].attrs, bad))
  {
    if hs == [] then [] else [hs[0].(attrs := Nulled(hs[0].attrs, bad))] + NullHeadSeq(hs[1..], bad)
  }

  lemma NullHeadSeqAppend(a: seq<Head>, b: seq<Head>, bad: set<UId>)
    ensures NullHeadSeq(a + b, bad) == NullHeadSeq(a, bad) + NullHeadSeq(b, bad)
  {
    var l := NullHeadSeq(a + b, bad);
    var r := NullHeadSeq(a, bad) + NullHeadSeq(b, bad);
    forall k | 0 <= k < |a + b|
      ensures l[k] == r[k]
    {
      if k < |a| {
        assert (a + b)[k] == a[k];
      } else {
        assert (a + b)[k] == b[k - |a|];
      }
    }
  }

  /** The rewrite keeps the pre-order, node for node. */
  lemma NullFlat(ns: seq<Node>, bad: set<UId>)
    ensures HeadSeq(Flat(NullAll(ns, bad))) == NullHeadSeq(HeadSeq(Flat(ns)), bad)
  {
    NullAllIsMap(ns, bad);
    MapNodesFlat(ns, NullOne(bad));
  }

  /** The rewrite keeps the nodes a removal keeps, node for node. */
  lemma {:induction false} NullOutside(ns: seq<Node>, bad: set<UId>, drop: set<UId>)
    ensures HeadSeq(Outside(NullAll(ns, bad), drop)) == NullHeadSeq(HeadSeq(Outside(ns, drop)), bad)
  {
    if ns != [] {
      NullOutside(ns[0].children, bad, drop);
      NullOutside(ns[1..], bad, drop);
      var m := NullAll(ns, bad);
      var head := ns[0].(attrs := Nulled(ns[0].attrs, bad), children := NullAll(ns[0].children, bad));
      assert m[0] == head && m[1..] == NullAll(ns[1..], bad);
      if ns[0].uid !in drop {
        var a := [head] + Outside(head.children, drop);
        var b := [ns[0]] + Outside(ns[0].children, drop);
        HeadSeqAppend([head], Outside(head.children, drop));
        HeadSeqAppend([ns[0]], Outside(ns[0].children, drop));
        NullHeadSeqAppend(HeadSeq([ns[0]]), HeadSeq(Outside(ns[0].children, drop)), bad);
        assert HeadSeq(a) == NullHeadSeq(HeadSeq(b), bad);
        HeadSeqAppend(a, Outside(m[1..], drop));
        HeadSeqAppend(b, Outside(ns[1..], drop));
        NullHeadSeqAppend(HeadSeq(b), HeadSeq(Outside(ns[1..], drop)), bad);
      }
    }
  }

  /** Two sequences of nodes holding the same uids position by position hold the same set of uids. */
  lemma SameUidSet(a: seq<Node>, b: seq<Node>)
    requires |a| == |b| && forall k :: 0 <= k < |a| ==> a[k].uid == b[k].uid
    ensures UidSet(a) == UidSet(b)
  {
    forall u | u in UidSet(a) ensures u in UidSet(b) {
      var n :| n in a && n.uid == u;
      var k :| 0 <= k < |a| && a[k] == n;
      assert b[k] in b;
    }
    forall u | u in UidSet(b) ensures u in UidSet(a) {
      var n :| n in b && n.uid == u;
      var k :| 0 <= k < |b| && b[k] == n;
      assert a[k] in a;
    }
  }

  /** Nodes whose heads are the rewrite of other nodes' heads hold the same uids. */
  lemma NulledSameUids(a: seq<Node>, b: seq<Node>, bad: set<UId>)
    requires HeadSeq(a) == NullHeadSeq(HeadSeq(b), bad)
    ensures UidSet(a) == UidSet(b)
  {
    assert |a| == |HeadSeq(a)| && |b| == |HeadSeq(b)|;
    forall k | 0 <= k < |a| ensures a[k].uid == b[k].uid {
      assert HeadSeq(a)[k] == HeadOf(a[k]);
    }
    SameUidSet(a, b);
  }

  /** The rewrite does not change which uids a removal takes out. */
  lemma NullDropped(ns: seq<Node>, bad: set<UId>, drop: set<UId>)
    ensures DroppedUids(NullAll(ns, bad), drop) == DroppedUids(ns, drop)
  {
    var m := NullAll(ns, bad);
    NullFlat(ns, bad);
    NulledSameUids(Flat(m), Flat(ns), bad);
    PruneOutside(m, drop);
    PruneOutside(ns, drop);
    NullOutside(ns, bad, drop);
    NulledSameUids(Flat(Prune(m, drop)), Flat(Prune(ns, drop)), bad);
  }

  /**
   * What remains below the root is exactly the nodes outside the removed
   * patterns, in document order, each with its links into invalid patterns
   * set to `none` and then its other links into removed nodes dropped.
   */
  lemma KeepsTheRest(doc: Node)
    ensures HeadSeq(Flat(WithoutInvalidPatterns(doc).children))
            == UnlinkHeadSeq(NullHeadSeq(HeadSeq(Outside(doc.children, Bad(doc))), Bad(doc)),
                             DroppedUids(doc.children, Bad(doc)))
  {
    var b := Bad(doc);
    RemoveNodesOutside(NullDoc(doc, b), b);
    NullOutside(doc.children, b, b);
    NullDropped(doc.children, b, b);
  }

  /** The root of a document is not a pattern, so every invalid pattern sits below it. */
  lemma BadBelowRoot(doc: Node)
    requires doc.kind == Root
    ensures forall u :: u in Bad(doc) ==> u in DroppedUids(doc.children, Bad(doc))
  {
    forall u | u in Bad(doc) ensures u in DroppedUids(doc.children, Bad(doc)) {
      var n :| n in Descendants(doc) && InvalidPattern(n) && n.uid == u;
      assert n in Flat(doc.children);
      DroppedContains(doc.children, Bad(doc), u);
    }
  }

  /** The attributes of a kept node after both steps, in terms of the attributes it had. */
  lemma AttrsAfter(oa: map<AId, AValue>, bad: set<UId>, gone: set<UId>)
    requires bad <= gone
    ensures var ma := Unlinked(Nulled(oa, bad), gone);
      && (forall a :: a in oa && PointsInto(a, oa[a], bad) ==> a in ma && ma[a] == AValue.PredefValue(ValueId.None))
      && (forall a :: a in oa && !PointsInto(a, oa[a], bad) && LinksInto(oa[a], bad) ==> a !in ma)
      && (forall a :: a in oa && !LinksInto(oa[a], gone) ==> a in ma && ma[a] == oa[a])
  {
  }

  /**
   * Node by node: a kept node is not an invalid pattern; its `Link` and
   * `FuncLink` SVG attributes into invalid patterns now hold `none`; its other
   * links into invalid patterns (paint, custom attributes) are gone with the
   * patterns; and an attribute that links to no removed node is untouched.
   */
  lemma LinksSetToNone(doc: Node, k: nat)
    requires doc.kind == Root
    requires k < |Outside(doc.children, Bad(doc))|
    ensures k < |Flat(WithoutInvalidPatterns(doc).children)|
    ensures
      var o := Outside(doc.children, Bad(doc))[k];
      var m := Flat(WithoutInvalidPatterns(doc).children)[k];
      && m.uid == o.uid && m.kind == o.kind && !InvalidPattern(o)
      && (forall a :: a in o.attrs && PointsInto(a, o.attrs[a], Bad(doc)) ==>
            a in m.attrs && m.attrs[a] == AValue.PredefValue(ValueId.None))
      && (forall a :: a in o.attrs && !PointsInto(a, o.attrs[a], Bad(doc)) && LinksInto(o.attrs[a], Bad(doc)) ==>
            a !in m.attrs)
      && (forall a :: a in o.attrs && !LinksInto(o.attrs[a], DroppedUids(doc.children, Bad(doc))) ==>
            a in m.attrs && m.attrs[a] == o.attrs[a])
  {
    var b := Bad(doc);
    var gone := DroppedUids(doc.children, b);
    var kept := Outside(doc.children, b);
    var res := Flat(WithoutInvalidPatterns(doc).children);
    KeepsTheRest(doc);
    BadBelowRoot(doc);
    assert |res| == |HeadSeq(res)|;
    var o := kept[k];
    var m := res[k];
    assert HeadSeq(res)[k] == HeadOf(m);
    assert HeadOf(m) == HeadOf(o).(attrs := Unlinked(Nulled(o.attrs, b), gone));
    AttrsAfter(o.attrs, b, gone);
    assert o in Flat(doc.children) && o.uid !in b;
    assert o in Descendants(doc);
  }

  /** No invalid pattern is left, and no attribute links into one. */
  lemma NoInvalidPatternLeft(doc: Node)
    requires doc.kind == Root
    ensures forall m :: m in Flat(WithoutInvalidPatterns(doc).children) ==>
              m.uid !in Bad(doc) && forall a :: a in m.attrs ==> !LinksInto(m.attrs[a], Bad(doc))
  {
    var b := Bad(doc);
    var n := NullDoc(doc, b);
    RemoveNodesHeads(n, b);
    BadBelowRoot(doc);
    NullDropped(doc.children, b, b);
    forall m | m in Flat(WithoutInvalidPatterns(doc).children)
      ensures m.uid !in b && forall a :: a in m.attrs ==> !LinksInto(m.attrs[a], b)
    {
      var o :| o in Flat(n.children) && o.uid !in b
               && HeadOf(m) == HeadOf(o).(attrs := Unlinked(o.attrs, DroppedUids(n.children, b)));
    }
  }

  // ---- a pattern emptied by the pass ----

  function Pat(u: UId, attrs: map<AId, AValue>, children: seq<Node>): Node
  {
    Node(u, Element(EId.Pattern), "", attrs, children)
  }

  /** A 1x1 pattern whose only child is a pattern without a size. */
  function Nested(): Node
  {
    Node(0, Root, "", map[], [Pat(1, map[AId.Width := AValue.Number(1.0), AId.Height := AValue.Number(1.0)],
                                  [Pat(2, map[], [])])])
  }

  lemma NestedBad()
    ensures Bad(Nested()) == {2}
  {
    var d := Nested();
    var outer := d.children[0];
    var inner := outer.children[0];
    assert Flat([inner]) == [inner];
    assert Flat(outer.children) == [inner];
    assert Flat(d.children) == [outer, inner];
    assert Descendants(d) == [d, outer, inner];
    assert !InvalidPattern(d) && !InvalidPattern(outer) && InvalidPattern(inner);
  }

  /** What one run leaves: the outer pattern, now without children. */
  function Emptied(): Node
  {
    Node(0, Root, "", map[], [Pat(1, map[AId.Width := AValue.Number(1.0), AId.Height := AValue.Number(1.0)], [])])
  }

  lemma NestedNull()
    ensures NullDoc(Nested(), {2}) == Nested()
  {
    var d := Nested();
    var outer := d.children[0];
    var inner := outer.children[0];
    assert Nulled(inner.attrs, {2}) == inner.attrs;
    assert NullAll(outer.children, {2}) == outer.children;
    assert Nulled(outer.attrs, {2}) == outer.attrs;
    assert NullAll(d.children, {2}) == d.children;
    assert Nulled(d.attrs, {2}) == d.attrs;
  }

  lemma NestedRemove()
    ensures RemoveNodes(Nested(), {2}) == Emptied()
  {
    var d := Nested();
    var outer := d.children[0];
    assert Prune(outer.children, {2}) == [];
    var kept := [outer.(children := [])];
    assert Prune(d.children, {2}) == kept;
    var gone := DroppedUids(d.children, {2});
    assert Unlinked(outer.attrs, gone) == outer.attrs;
    assert UnlinkAll(kept, gone) == kept;
    assert Unlinked(d.attrs, gone) == d.attrs;
  }

  /** One run removes the inner pattern and leaves the outer one empty. */
  lemma NestedFirst()
    ensures WithoutInvalidPatterns(Nested()) == Emptied()
  {
    NestedBad();
    NestedNull();
    NestedRemove();
  }

  lemma EmptiedBad()
    ensures Bad(Emptied()) == {1}
  {
    var d := Emptied();
    var outer := d.children[0];
    assert Flat(d.children) == [outer];
    assert Descendants(d) == [d, outer];
    assert InvalidPattern(outer) && !InvalidPattern(d);
  }

  /** The pass is not idempotent: the pattern it emptied goes on a second run. */
  lemma NestedSecond()
    ensures WithoutInvalidPatterns(WithoutInvalidPatterns(Nested())).children == []
  {
    NestedFirst();
    EmptiedBad();
    var d := Emptied();
    assert Prune(NullDoc(d, {1}).children, {1}) == [];
  }
}
