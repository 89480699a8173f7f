/**
 * `fix_recursive_pattern`: inside every pattern P (P included), a `fill` or
 * `stroke` paint that links to P, or to an element some node below which
 * paints the same attribute with P, is replaced by `none`, so that rendering
 * a pattern never recurses into itself. Patterns are handled in document
 * order and each sees the values the earlier ones left.
 */
module FixRecursivePattern {
  import opened Wrappers
  import opened SvgTypes
  import opened Dom

  predicate PaintsTo(n: Node, a: AId, p: UId)
  {
    a in n.attrs && n.attrs[a].Paint? && n.attrs[a].target == p
  }

  /** `check_attr`'s condition on node `n` of `doc`, for attribute `a` and pattern `p`. */
  predicate LoopsBack(doc: Node, n: Node, a: AId, p: UId)
  {
    a in n.attrs && n.attrs[a].Paint?
    && (n.attrs[a].target == p
        || (Find([doc], n.attrs[a].target).Some?
            && exists d :: d in Descendants(Find([doc], n.attrs[a].target).value) && PaintsTo(d, a, p)))
  }

  /** `set_attribute` on the node with uid `u`. */
  function SetAt(doc: Node, u: UId, a: AId, v: AValue): (r: Node)
  {
    MapDoc(doc, (n: Node) => if n.uid == u then n.Set(a, v) else n)
  }

  /** `check_attr(a)` on the node with uid `u`, inside pattern `p`. */
  function CheckAttr(doc: Node, p: UId, u: UId, a: AId): (r: Node)
    ensures Find([doc], u).None? ==> r == doc
    ensures Find([doc], u).Some? && LoopsBack(doc, Find([doc], u).value, a, p) ==> r == SetAt(doc, u, a, AValue.None)
    ensures Find([doc], u).Some? && !LoopsBack(doc, Find([doc], u).value, a, p) ==> r == doc
  {
    match Find([doc], u)
    case Some(n) => if LoopsBack(doc, n, a, p) then SetAt(doc, u, a, AValue.None) else doc
    case None => doc
  }

  function CheckNode(doc: Node, p: UId, u: UId): Node
  {
    CheckAttr(CheckAttr(doc, p, u, AId.Fill), p, u, AId.Stroke)
  }

  /** The inner loop over the given nodes, in order. */
  function CheckNodes(doc: Node, p: UId, us: seq<UId>): Node
  {
    if us == [] then doc else CheckNode(CheckNodes(doc, p, us[..|us| - 1]), p, us[|us| - 1])
  }

  /** `pattern_node.descendants()`, as uids. */
  function DescendantUids(doc: Node, p: UId): seq<UId>
  {
    match Find([doc], p)
    case Some(n) => Uids(Descendants(n))
    case None => []
  }

  function CheckPattern(doc: Node, p: UId): Node
  {
    CheckNodes(doc, p, DescendantUids(doc, p))
  }

  /** The outer loop over the given patterns, in order. */
  function CheckPatterns(doc: Node, ps: seq<UId>): Node
  {
    if ps == [] then doc else CheckPattern(CheckPatterns(doc, ps[..|ps| - 1]), ps[|ps| - 1])
  }

  function PatternUids(ns: seq<Node>): seq<UId>
  {
    if ns == [] then []
    else (if ns[0].Is(EId.Pattern) then [ns[0].uid] else []) + PatternUids(ns[1..])
  }

  function FixRecursivePatternDoc(doc: Node): Node
  {
    CheckPatterns(doc, PatternUids(Descendants(doc)))
  }

  lemma CheckNodesSnoc(doc: Node, p: UId, us: seq<UId>, j: nat)
    requires j < |us|
    ensures CheckNodes(doc, p, us[..j + 1]) == CheckNode(CheckNodes(doc, p, us[..j]), p, us[j])
  {
    assert us[..j + 1][..j] == us[..j];
  }

  /** The inner loop: every node of pattern `p`, fill then stroke. */
  method CheckPatternLoop(doc: Node, p: UId) returns (r: Node)
    ensures r == CheckPattern(doc, p)
  {
    var us := DescendantUids(doc, p);
    r := doc;
    var j := 0;
    while j < |us|
      invariant 0 <= j <= |us|
      invariant r == CheckNodes(doc, p, us[..j])
    {
      CheckNodesSnoc(doc, p, us, j);
      r := CheckNode(r, p, us[j]);
      j := j + 1;
    }
    assert us[..j] == us;
  }

  /** The outer loop over every pattern, in document order. */
  method FixRecursivePatternLoop(doc: Node) returns (r: Node)
    ensures r == FixRecursivePatternDoc(doc)
  {
    var ps := PatternUids(Descendants(doc));
    r := doc;
    var i := 0;
    while i < |ps|
      invariant 0 <= i <= |ps|
      invariant r == CheckPatterns(doc, ps[..i])
    {
      r := CheckPatternLoop(r, ps[i]);
      assert ps[..i + 1][..i] == ps[..i];
      i := i + 1;
    }
    assert ps[..i] == ps;
  }

  // ---- what the pass may change ----

  /** `m` is `o` with, at most, some Paint-valued fill or stroke set to none. */
  predicate Weakens(o: Node, m: Node)
  {
    m.uid == o.uid && m.kind == o.kind && m.id == o.id && m.attrs.Keys == o.attrs.Keys
    && forall a :: a in o.attrs ==>
         m.attrs[a] == o.attrs[a]
         || ((a == AId.Fill || a == AId.Stroke) && o.attrs[a].Paint? && m.attrs[a] == AValue.None)
  }

  /** Node by node in document order, `d1` weakens `d0`. */
  predicate Aligned(d0: Node, d1: Node)
  {
    |Descendants(d1)| == |Descendants(d0)|
    && forall k :: 0 <= k < |Descendants(d0)| ==> Weakens(Descendants(d0)[k], Descendants(d1)[k])
  }

  /** No two nodes of the document share a uid. */
  predicate UniqueUids(doc: Node)
  {
    forall i, j :: 0 <= i < j < |Descendants(doc)| ==> Descendants(doc)[i].uid != Descendants(doc)[j].uid
  }

  lemma AlignedTrans(d0: Node, d1: Node, d2: Node)
    requires Aligned(d0, d1) && Aligned(d1, d2)
    ensures Aligned(d0, d2)
  {
    forall k | 0 <= k < |Descendants(d0)|
      ensures Weakens(Descendants(d0)[k], Descendants(d2)[k])
    {
      var o, m, q := Descendants(d0)[k], Descendants(d1)[k], Descendants(d2)[k];
      assert Weakens(o, m) && Weakens(m, q);
    }
  }

  lemma AlignedRefl(d: Node)
    ensures Aligned(d, d)
  {
  }

  lemma AlignedKeepsUnique(d0: Node, d1: Node)
    requires Aligned(d0, d1) && UniqueUids(d0)
    ensures UniqueUids(d1)
  {
    forall i, j | 0 <= i < j < |Descendants(d1)|
      ensures Descendants(d1)[i].uid != Descendants(d1)[j].uid
    {
      assert Weakens(Descendants(d0)[i], Descendants(d1)[i]);
      assert Weakens(Descendants(d0)[j], Descendants(d1)[j]);
    }
  }

  /** With unique uids, the node `Find` returns is the only one with its uid. */
  lemma FindIsOnly(doc: Node, u: UId, m: Node)
    requires UniqueUids(doc) && Find([doc], u).Some?
    requires m in Descendants(doc) && m.uid == u
    ensures m == Find([doc], u).value
  {
    FlatSingle(doc);
    var n := Find([doc], u).value;
    var i :| 0 <= i < |Descendants(doc)| && Descendants(doc)[i] == m;
    var j :| 0 <= j < |Descendants(doc)| && Descendants(doc)[j] == n;
    assert i == j;
  }

  /** One check either changes nothing or turns that node's Paint into none. */
  /** Setting `a` to none on the only node with uid `u`, which paints `a`, weakens it. */
  lemma SetOneWeakens(o: Node, u: UId, a: AId)
    requires (a == AId.Fill || a == AId.Stroke)
    requires o.uid == u ==> a in o.attrs && o.attrs[a].Paint?
    ensures Weakens(o, if o.uid == u then o.Set(a, AValue.None) else o)
  {
  }

  lemma CheckAttrAligned(doc: Node, p: UId, u: UId, a: AId)
    requires UniqueUids(doc) && (a == AId.Fill || a == AId.Stroke)
    ensures Aligned(doc, CheckAttr(doc, p, u, a))
  {
    var f := Find([doc], u);
    if f.Some? && LoopsBack(doc, f.value, a, p) {
      var g := (n: Node) => if n.uid == u then n.Set(a, AValue.None) else n;
      var r := SetAt(doc, u, a, AValue.None);
      MapDocFlat(doc, g);
      forall k | 0 <= k < |Descendants(doc)|
        ensures Weakens(Descendants(doc)[k], Descendants(r)[k])
      {
        var o := Descendants(doc)[k];
        assert HeadOf(Descendants(r)[k]) == HeadOf(g(o));
        if o.uid == u {
          FindIsOnly(doc, u, o);
        }
        SetOneWeakens(o, u, a);
      }
    }
  }

  lemma CheckNodesAligned(doc: Node, p: UId, us: seq<UId>)
    requires UniqueUids(doc)
    ensures Aligned(doc, CheckNodes(doc, p, us))
    decreases |us|
  {
    if us == [] {
    } else {
      var d := CheckNodes(doc, p, us[..|us| - 1]);
      CheckNodesAligned(doc, p, us[..|us| - 1]);
      AlignedKeepsUnique(doc, d);
      var u := us[|us| - 1];
      var d1 := CheckAttr(d, p, u, AId.Fill);
      CheckAttrAligned(d, p, u, AId.Fill);
      AlignedTrans(doc, d, d1);
      AlignedKeepsUnique(doc, d1);
      CheckAttrAligned(d1, p, u, AId.Stroke);
      AlignedTrans(doc, d1, CheckAttr(d1, p, u, AId.Stroke));
    }
  }

  lemma CheckPatternsAligned(doc: Node, ps: seq<UId>)
    requires UniqueUids(doc)
    ensures Aligned(doc, CheckPatterns(doc, ps))
    decreases |ps|
  {
    if ps != [] {
      var d := CheckPatterns(doc, ps[..|ps| - 1]);
      CheckPatternsAligned(doc, ps[..|ps| - 1]);
      AlignedKeepsUnique(doc, d);
      CheckNodesAligned(d, ps[|ps| - 1], DescendantUids(d, ps[|ps| - 1]));
      AlignedTrans(doc, d, CheckPatterns(doc, ps));
    }
  }

  /**
   * The pass keeps every node, in order, with its uid, kind, id and set of
   * attributes; only fill and stroke values change, and only from a Paint to
   * none.
   */
  lemma OnlyPaintsBecomeNone(doc: Node)
    requires UniqueUids(doc)
    ensures Aligned(doc, FixRecursivePatternDoc(doc))
  {
    CheckPatternsAligned(doc, PatternUids(Descendants(doc)));
  }

  /** After a check whose condition held, every node with that uid paints `a` with none. */
  lemma CheckedCleared(doc: Node, p: UId, u: UId, a: AId)
    requires Find([doc], u).Some? && LoopsBack(doc, Find([doc], u).value, a, p)
    ensures var r := CheckAttr(doc, p, u, a);
            forall m :: m in Descendants(r) && m.uid == u ==> a in m.attrs && m.attrs[a] == AValue.None
  {
    var g := (n: Node) => if n.uid == u then n.Set(a, AValue.None) else n;
    var r := SetAt(doc, u, a, AValue.None);
    MapDocFlat(doc, g);
    forall m | m in Descendants(r) && m.uid == u
      ensures a in m.attrs && m.attrs[a] == AValue.None
    {
      var k :| 0 <= k < |Descendants(r)| && Descendants(r)[k] == m;
      assert HeadOf(m) == HeadOf(g(Descendants(doc)[k]));
    }
  }

  // ---- the pass's promise: no pattern content paints with its own pattern ----

  /** No node with uid `u` paints `a` with pattern `p`. */
  predicate Clear(doc: Node, u: UId, p: UId, a: AId)
  {
    forall m :: m in Descendants(doc) && m.uid == u ==> !PaintsTo(m, a, p)
  }

  lemma AlignedKeepsClear(d1: Node, d2: Node, u: UId, p: UId, a: AId)
    requires Aligned(d1, d2) && Clear(d1, u, p, a)
    ensures Clear(d2, u, p, a)
  {
    forall m | m in Descendants(d2) && m.uid == u
      ensures !PaintsTo(m, a, p)
    {
      var k :| 0 <= k < |Descendants(d2)| && Descendants(d2)[k] == m;
      assert Weakens(Descendants(d1)[k], m);
    }
  }

  /** A check of `a` on `u` inside `p` leaves `u` not painting `a` with `p`. */
  lemma CheckAttrClears(doc: Node, p: UId, u: UId, a: AId)
    requires UniqueUids(doc)
    ensures Clear(CheckAttr(doc, p, u, a), u, p, a)
  {
    var f := Find([doc], u);
    if f.Some? {
      if LoopsBack(doc, f.value, a, p) {
        CheckedCleared(doc, p, u, a);
      } else {
        forall m | m in Descendants(doc) && m.uid == u
          ensures !PaintsTo(m, a, p)
        {
          FindIsOnly(doc, u, m);
        }
      }
    } else {
      FlatSingle(doc);
    }
  }

  lemma CheckNodeClears(doc: Node, p: UId, u: UId)
    requires UniqueUids(doc)
    ensures Clear(CheckNode(doc, p, u), u, p, AId.Fill) && Clear(CheckNode(doc, p, u), u, p, AId.Stroke)
  {
    var d1 := CheckAttr(doc, p, u, AId.Fill);
    CheckAttrClears(doc, p, u, AId.Fill);
    CheckAttrAligned(doc, p, u, AId.Fill);
    AlignedKeepsUnique(doc, d1);
    CheckAttrClears(d1, p, u, AId.Stroke);
    CheckAttrAligned(d1, p, u, AId.Stroke);
    AlignedKeepsClear(d1, CheckNode(doc, p, u), u, p, AId.Fill);
  }

  lemma {:induction false} CheckNodesClear(doc: Node, p: UId, us: seq<UId>)
    requires UniqueUids(doc)
    ensures forall u :: u in us ==>
              Clear(CheckNodes(doc, p, us), u, p, AId.Fill) && Clear(CheckNodes(doc, p, us), u, p, AId.Stroke)
    decreases |us|
  {
    if us != [] {
      var init := us[..|us| - 1];
      var d := CheckNodes(doc, p, init);
      var last := us[|us| - 1];
      CheckNodesClear(doc, p, init);
      CheckNodesAligned(doc, p, init);
      AlignedKeepsUnique(doc, d);
      CheckNodeClears(d, p, last);
      CheckNodesAligned(d, p, [last]);
      assert CheckNodes(d, p, [last]) == CheckNodes(doc, p, us) by {
        assert [last][..0] == [];
      }
      forall u | u in us
        ensures Clear(CheckNodes(doc, p, us), u, p, AId.Fill) && Clear(CheckNodes(doc, p, us), u, p, AId.Stroke)
      {
        if u != last {
          assert u in init;
          AlignedKeepsClear(d, CheckNodes(doc, p, us), u, p, AId.Fill);
          AlignedKeepsClear(d, CheckNodes(doc, p, us), u, p, AId.Stroke);
        }
      }
    }
  }

  lemma UidsOfMapped(n: Node, f: Node -> Node)
    requires forall n :: f(n).uid == n.uid
    ensures Uids(Descendants(f(n).(children := MapNodes(n.children, f)))) == Uids(Descendants(n))
  {
    var m := f(n).(children := MapNodes(n.children, f));
    MapNodesFlat(n.children, f);
    var a, b := Uids(Descendants(m)), Uids(Descendants(n));
    assert |a| == |b|;
    forall k | 0 <= k < |a|
      ensures a[k] == b[k]
    {
      if k > 0 {
        assert Descendants(m)[k] == Flat(m.children)[k - 1];
        assert Descendants(n)[k] == Flat(n.children)[k - 1];
        assert HeadOf(Flat(m.children)[k - 1]) == HeadOf(f(Flat(n.children)[k - 1]));
      }
    }
  }

  /** The node a uid-keeping rewrite leaves at the place of `Find`'s node. */
  lemma FindMapped(doc: Node, p: UId, f: Node -> Node)
    requires UniqueUids(doc)
    requires forall n :: f(n).uid == n.uid
    ensures Find([MapDoc(doc, f)], p).Some? <==> Find([doc], p).Some?
    ensures Find([doc], p).Some? ==>
              Find([MapDoc(doc, f)], p).value
              == f(Find([doc], p).value).(children := MapNodes(Find([doc], p).value.children, f))
  {
    var r := MapDoc(doc, f);
    MapDocNodes(doc, f);
    FlatSingle(doc);
    FlatSingle(r);
    if Find([r], p).Some? {
      var m := Find([r], p).value;
      var k :| 0 <= k < |Descendants(r)| && Descendants(r)[k] == m;
      var o := Descendants(doc)[k];
      assert o.uid == p;
      FindIsOnly(doc, p, o);
    }
  }

  /** A rewrite that keeps every uid leaves the subtree of every node the same uids, in order. */
  lemma DescendantUidsMapped(doc: Node, p: UId, f: Node -> Node)
    requires UniqueUids(doc)
    requires forall n :: f(n).uid == n.uid
    ensures DescendantUids(MapDoc(doc, f), p) == DescendantUids(doc, p)
  {
    FindMapped(doc, p, f);
    if Find([doc], p).Some? {
      UidsOfMapped(Find([doc], p).value, f);
    }
  }

  lemma CheckAttrKeepsShape(doc: Node, p: UId, u: UId, a: AId, q: UId)
    requires UniqueUids(doc)
    ensures DescendantUids(CheckAttr(doc, p, u, a), q) == DescendantUids(doc, q)
  {
    var f := Find([doc], u);
    if f.Some? && LoopsBack(doc, f.value, a, p) {
      DescendantUidsMapped(doc, q, (n: Node) => if n.uid == u then n.Set(a, AValue.None) else n);
    }
  }

  lemma CheckNodesKeepShape(doc: Node, p: UId, us: seq<UId>, q: UId)
    requires UniqueUids(doc)
    ensures DescendantUids(CheckNodes(doc, p, us), q) == DescendantUids(doc, q)
    decreases |us|
  {
    if us != [] {
      var d := CheckNodes(doc, p, us[..|us| - 1]);
      var u := us[|us| - 1];
      CheckNodesKeepShape(doc, p, us[..|us| - 1], q);
      CheckNodesAligned(doc, p, us[..|us| - 1]);
      AlignedKeepsUnique(doc, d);
      CheckAttrKeepsShape(d, p, u, AId.Fill, q);
      CheckAttrAligned(d, p, u, AId.Fill);
      AlignedKeepsUnique(d, CheckAttr(d, p, u, AId.Fill));
      CheckAttrKeepsShape(CheckAttr(d, p, u, AId.Fill), p, u, AId.Stroke, q);
    }
  }

  lemma CheckPatternsKeepShape(doc: Node, ps: seq<UId>, q: UId)
    requires UniqueUids(doc)
    ensures DescendantUids(CheckPatterns(doc, ps), q) == DescendantUids(doc, q)
    decreases |ps|
  {
    if ps != [] {
      var d := CheckPatterns(doc, ps[..|ps| - 1]);
      CheckPatternsKeepShape(doc, ps[..|ps| - 1], q);
      CheckPatternsAligned(doc, ps[..|ps| - 1]);
      AlignedKeepsUnique(doc, d);
      CheckNodesKeepShape(d, ps[|ps| - 1], DescendantUids(d, ps[|ps| - 1]), q);
    }
  }

  lemma {:induction false} CheckPatternsClear(doc: Node, ps: seq<UId>)
    requires UniqueUids(doc)
    ensures forall p, u :: p in ps && u in DescendantUids(doc, p) ==>
              Clear(CheckPatterns(doc, ps), u, p, AId.Fill) && Clear(CheckPatterns(doc, ps), u, p, AId.Stroke)
    decreases |ps|
  {
    if ps != [] {
      var init := ps[..|ps| - 1];
      var last := ps[|ps| - 1];
      var d := CheckPatterns(doc, init);
      var r := CheckPatterns(doc, ps);
      CheckPatternsClear(doc, init);
      CheckPatternsAligned(doc, init);
      AlignedKeepsUnique(doc, d);
      CheckPatternsKeepShape(doc, init, last);
      CheckNodesClear(d, last, DescendantUids(d, last));
      CheckNodesAligned(d, last, DescendantUids(d, last));
      forall p, u | p in ps && u in DescendantUids(doc, p)
        ensures Clear(r, u, p, AId.Fill) && Clear(r, u, p, AId.Stroke)
      {
        if p != last {
          assert p in init;
          AlignedKeepsClear(d, r, u, p, AId.Fill);
          AlignedKeepsClear(d, r, u, p, AId.Stroke);
        }
      }
    }
  }

  /**
   * Once the pass is done, no node of a pattern (the pattern included)
   * paints its fill or its stroke with that pattern.
   */
  lemma NoPatternPaintsItself(doc: Node)
    requires UniqueUids(doc)
    ensures var r := FixRecursivePatternDoc(doc);
            forall p, u :: p in PatternUids(Descendants(doc)) && u in DescendantUids(doc, p) ==>
              forall m :: m in Descendants(r) && m.uid == u ==>
                !PaintsTo(m, AId.Fill, p) && !PaintsTo(m, AId.Stroke, p)
  {
    CheckPatternsClear(doc, PatternUids(Descendants(doc)));
  }
}
