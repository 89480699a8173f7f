/**
 * `resolve_pattern_children`: a pattern with an href and no children gets
 * deep copies of the children of the pattern its href chain ends at;
 * afterwards no pattern keeps an href. Unlike the gradient walk, the chain
 * is followed whatever kind of element it passes through.
 */
module ResolvePatternChildren {
  import opened Wrappers
  import opened SvgTypes
  import opened Dom

  predicate Fillable(n: Node) { n.Is(EId.Pattern) && AId.Href in n.attrs && n.children == [] }

  /** `resolve`: the end of the href chain, with no check on the kinds along it. */
  function Source(doc: Node, n: Node): (r: Option<Node>)
    ensures r.Some? ==> AId.Href !in r.value.attrs
  {
    ChainEnd(doc, n, _ => true, Fuel(doc))
  }

  /**
   * `copy_node_deep` of a forest: every node copied with its kind and
   * attributes but no id, uids numbered from `first` in document order.
   */
  function DeepCopies(ns: seq<Node>, first: nat): (r: seq<Node>)
    ensures |r| == |ns|
  {
    if ns == [] then []
    else
      var kids := DeepCopies(ns[0].children, first + 1);
      [Node(first, ns[0].kind, "", ns[0].attrs, kids)] + DeepCopies(ns[1..], first + 1 + Size(ns[0].children))
  }

  lemma SizeSplit(ns: seq<Node>)
    requires ns != []
    ensures Size(ns) == 1 + Size(ns[0].children) + Size(ns[1..])
  {
  }

  /** `cs` copies `os` position by position: same kinds and attributes, no ids, uids from `first` on. */
  predicate CopiesOf(cs: seq<Node>, os: seq<Node>, first: nat)
  {
    |cs| == |os|
    && forall k :: 0 <= k < |os| ==>
         cs[k].uid == first + k && cs[k].kind == os[k].kind && cs[k].attrs == os[k].attrs && cs[k].id == ""
  }

  lemma CopiesOfAppend(c1: seq<Node>, o1: seq<Node>, c2: seq<Node>, o2: seq<Node>, first: nat)
    requires CopiesOf(c1, o1, first) && CopiesOf(c2, o2, first + |o1|)
    ensures CopiesOf(c1 + c2, o1 + o2, first)
  {
    forall k | 0 <= k < |o1 + o2|
      ensures (c1 + c2)[k].uid == first + k && (c1 + c2)[k].kind == (o1 + o2)[k].kind
              && (c1 + c2)[k].attrs == (o1 + o2)[k].attrs && (c1 + c2)[k].id == ""
    {
      if k >= |o1| {
        assert (c1 + c2)[k] == c2[k - |o1|] && (o1 + o2)[k] == o2[k - |o1|];
      }
    }
  }

  /** Node by node in document order, a copy has the original's kind and attributes, no id, and uid first + k. */
  lemma {:induction false} DeepCopiesFlat(ns: seq<Node>, first: nat)
    ensures Size(DeepCopies(ns, first)) == Size(ns)
    ensures CopiesOf(Flat(DeepCopies(ns, first)), Flat(ns), first)
  {
    if ns != [] {
      var m := Size(ns[0].children);
      DeepCopiesFlat(ns[0].children, first + 1);
      DeepCopiesFlat(ns[1..], first + 1 + m);
      var r := DeepCopies(ns, first);
      var kids := DeepCopies(ns[0].children, first + 1);
      var rest := DeepCopies(ns[1..], first + 1 + m);
      assert r[0] == Node(first, ns[0].kind, "", ns[0].attrs, kids);
      assert r[1..] == rest;
      assert Flat(r) == [r[0]] + Flat(kids) + Flat(rest);
      assert Flat(ns) == [ns[0]] + Flat(ns[0].children) + Flat(ns[1..]);
      assert CopiesOf([r[0]], [ns[0]], first);
      CopiesOfAppend([r[0]], [ns[0]], Flat(kids), Flat(ns[0].children), first);
      CopiesOfAppend([r[0]] + Flat(kids), [ns[0]] + Flat(ns[0].children), Flat(rest), Flat(ns[1..]), first);
    }
  }

  /** The copy loop: each deep copy is appended in order. */
  method AppendDeepCopies(p: Node, src: seq<Node>, first: nat) returns (r: Node)
    ensures r == p.(children := p.children + DeepCopies(src, first))
  {
    r := p;
    var j := 0;
    var next := first;
    while j < |src|
      invariant 0 <= j <= |src|
      invariant next == first + Size(src[..j])
      invariant r == p.(children := p.children + DeepCopies(src[..j], first))
    {
      var copy := DeepCopies([src[j]], next);
      DeepCopiesAppend(src[..j], [src[j]], first);
      assert src[..j] + [src[j]] == src[..j + 1];
      SizeAppend(src[..j], [src[j]]);
      r := r.(children := r.children + copy);
      next := next + Size([src[j]]);
      j := j + 1;
    }
    assert src[..j] == src;
  }

  lemma SizeAppend(a: seq<Node>, b: seq<Node>)
    ensures Size(a + b) == Size(a) + Size(b)
  {
    FlatAppend(a, b);
  }

  lemma DeepCopiesCons(h: Node, t: seq<Node>, first: nat)
    ensures DeepCopies([h] + t, first)
            == [Node(first, h.kind, "", h.attrs, DeepCopies(h.children, first + 1))] + DeepCopies(t, first + 1 + Size(h.children))
  {
    assert ([h] + t)[0] == h;
    assert ([h] + t)[1..] == t;
  }

  /** Copying a forest in two parts numbers the second part after the first. */
  lemma {:induction false} DeepCopiesAppend(a: seq<Node>, b: seq<Node>, first: nat)
    ensures DeepCopies(a + b, first) == DeepCopies(a, first) + DeepCopies(b, first + Size(a))
    decreases |a|
  {
    if a == [] {
      assert a + b == b;
    } else {
      var t := a[1..];
      var next := first + 1 + Size(a[0].children);
      assert a == [a[0]] + t;
      AppendAssoc([a[0]], t, b);
      DeepCopiesCons(a[0], t, first);
      DeepCopiesCons(a[0], t + b, first);
      SizeSplit(a);
      DeepCopiesAppend(t, b, next);
      var h := Node(first, a[0].kind, "", a[0].attrs, DeepCopies(a[0].children, first + 1));
      AppendAssoc([h], DeepCopies(t, next), DeepCopies(b, first + Size(a)));
    }
  }

  function Fill(doc: Node, n: Node): (r: Node)
    ensures r.uid == n.uid && r.kind == n.kind && r.id == n.id && r.attrs == n.attrs
    ensures Source(doc, n).Some? ==> r.children == n.children + DeepCopies(Source(doc, n).value.children, CopyBase(doc, n))
    ensures Source(doc, n).None? ==> r.children == n.children
  {
    match Source(doc, n)
    case Some(src) => n.(children := n.children + DeepCopies(src.children, CopyBase(doc, n)))
    case None => n
  }

  function DropPatternHref(n: Node): (r: Node)
    ensures r.uid == n.uid && r.kind == n.kind && r.id == n.id
    ensures r.attrs == if n.Is(EId.Pattern) then n.attrs - {AId.Href} else n.attrs
  {
    if n.Is(EId.Pattern) && AId.Href in n.attrs then n.Remove(AId.Href) else n
  }

  /** The patterns the first loop picks, by uid, in document order. */
  function FillableUids(ns: seq<Node>): (r: seq<UId>)
    ensures forall u :: u in r ==> exists k :: 0 <= k < |ns| && ns[k].uid == u && Fillable(ns[k])
  {
    if ns == [] then []
    else
      var rest := FillableUids(ns[1..]);
      assert forall u :: u in rest ==> exists k :: 0 <= k < |ns| && ns[k].uid == u && Fillable(ns[k]) by {
        forall u | u in rest ensures exists k :: 0 <= k < |ns| && ns[k].uid == u && Fillable(ns[k]) {
          var k :| 0 <= k < |ns[1..]| && ns[1..][k].uid == u && Fillable(ns[1..][k]);
          assert ns[k + 1] == ns[1..][k];
        }
      }
      (if Fillable(ns[0]) then [ns[0].uid] else []) + rest
  }

  /** Every pattern with an href and no children is picked. */
  lemma {:induction false} FillableUidsComplete(ns: seq<Node>)
    ensures forall k :: 0 <= k < |ns| && Fillable(ns[k]) ==> ns[k].uid in FillableUids(ns)
  {
    if ns != [] {
      FillableUidsComplete(ns[1..]);
      assert forall k :: 1 <= k < |ns| ==> ns[k] == ns[1..][k - 1];
    }
  }

  /**
   * One turn of the first loop: the pattern with uid `u`, when it is still
   * childless with an href, is filled from its source in the document as it
   * now stands, so a source filled by an earlier turn is copied filled.
   */
  function FillOne(doc: Node, u: UId): (r: Node)
    ensures r.uid == doc.uid && r.kind == doc.kind && r.id == doc.id && r.attrs == doc.attrs
  {
    doc.(children := FillWalk(doc.children, (m: Node) => m.uid == u && Fillable(m), (n: Node) => Fill(doc, n)))
  }

  /** The first loop over the given patterns, each turn on what the earlier ones left. */
  function FillAll(doc: Node, us: seq<UId>): Node
  {
    if us == [] then doc else FillOne(FillAll(doc, us[..|us| - 1]), us[|us| - 1])
  }

  /**
   * The pass: the fillable patterns, taken in document order before the
   * loop starts, filled one after another; then every pattern's href dropped.
   */
  function ResolvePatternChildrenDoc(doc: Node): (r: Node)
  {
    MapDoc(FillAll(doc, FillableUids(Descendants(doc))), DropPatternHref)
  }

  /** The fold over the first `i + 1` picks is turn `i` on the fold over the first `i`. */
  lemma FillAllStep(doc: Node, us: seq<UId>, i: nat)
    requires i < |us|
    ensures FillAll(doc, us[..i + 1]) == FillOne(FillAll(doc, us[..i]), us[i])
  {
    assert us[..i + 1][..i] == us[..i];
  }

  /** The first loop of `resolve_pattern_children`. */
  method FillPatterns(doc: Node) returns (r: Node)
    ensures r == FillAll(doc, FillableUids(Descendants(doc)))
  {
    var us := FillableUids(Descendants(doc));
    r := doc;
    var i := 0;
    while i < |us|
      invariant 0 <= i <= |us|
      invariant r == FillAll(doc, us[..i])
    {
      FillAllStep(doc, us, i);
      r := FillOne(r, us[i]);
      i := i + 1;
    }
    assert us[..i] == us;
  }

  /** Afterwards no pattern carries `xlink:href`, whatever the fills appended. */
  lemma NoPatternHref(doc: Node)
    ensures forall m :: m in Descendants(ResolvePatternChildrenDoc(doc)) && m.Is(EId.Pattern) ==> AId.Href !in m.attrs
  {
    var filled := FillAll(doc, FillableUids(Descendants(doc)));
    MapDocFlat(filled, DropPatternHref);
    forall m | m in Descendants(ResolvePatternChildrenDoc(doc)) && m.Is(EId.Pattern)
      ensures AId.Href !in m.attrs
    {
      var k :| 0 <= k < |Descendants(ResolvePatternChildrenDoc(doc))| && Descendants(ResolvePatternChildrenDoc(doc))[k] == m;
      assert HeadOf(m) == HeadOf(DropPatternHref(Descendants(filled)[k]));
    }
  }

  /**
   * A filled pattern's subtree is a copy of its source's subtrees, node by
   * node in document order: same kinds and attributes, no ids, and uids no
   * node of the document has.
   */
  lemma CopiesAreFresh(doc: Node, n: Node)
    requires Fillable(n) && Source(doc, n).Some?
    ensures var src := Source(doc, n).value;
            var r := Fill(doc, n);
            Size(r.children) == Size(src.children)
            && forall k :: 0 <= k < Size(src.children) ==>
                 Flat(r.children)[k].kind == Flat(src.children)[k].kind
                 && Flat(r.children)[k].attrs == Flat(src.children)[k].attrs
                 && Flat(r.children)[k].id == ""
                 && forall m :: m in Descendants(doc) ==> m.uid != Flat(r.children)[k].uid
  {
    FlatSingle(doc);
    var src := Source(doc, n).value;
    var r := Fill(doc, n);
    var base := CopyBase(doc, n);
    assert r.children == DeepCopies(src.children, base);
    DeepCopiesFlat(src.children, base);
    forall k | 0 <= k < Size(src.children)
      ensures forall m :: m in Descendants(doc) ==> m.uid != Flat(r.children)[k].uid
    {
      assert Flat(r.children)[k].uid == base + k;
    }
  }

  /**
   * Turn `i` of the first loop reads the document the earlier turns left:
   * the pattern it picks is filled with copies of its source's subtrees as
   * they stand then, earlier fills included, with uids no node of that
   * document has.
   */
  lemma TurnCopiesAreFresh(doc: Node, us: seq<UId>, i: nat, n: Node)
    requires i < |us| && n.uid == us[i] && Fillable(n) && Source(FillAll(doc, us[..i]), n).Some?
    ensures FillAll(doc, us[..i + 1]) == FillOne(FillAll(doc, us[..i]), us[i])
    ensures var cur := FillAll(doc, us[..i]);
            var src := Source(cur, n).value;
            var r := Fill(cur, n);
            Size(r.children) == Size(src.children)
            && forall k :: 0 <= k < Size(src.children) ==>
                 Flat(r.children)[k].kind == Flat(src.children)[k].kind
                 && Flat(r.children)[k].attrs == Flat(src.children)[k].attrs
                 && Flat(r.children)[k].id == ""
                 && forall m :: m in Descendants(cur) ==> m.uid != Flat(r.children)[k].uid
  {
    FillAllStep(doc, us, i);
    CopiesAreFresh(FillAll(doc, us[..i]), n);
  }

  // ---- a source filled by an earlier turn ----

  /** Pattern 1, without an href, holding the childless pattern 2. */
  function NestedB(): Node { Node(1, Element(EId.Pattern), "", map[], [NestedC()]) }

  /** Pattern 2, linking to pattern 3. */
  function NestedC(): Node { Node(2, Element(EId.Pattern), "", map[AId.Href := AValue.Link(3)], []) }

  /** Pattern 3, holding rect 4. */
  function NestedD(): Node { Node(3, Element(EId.Pattern), "", map[], [NestedRect()]) }

  function NestedRect(): Node { Node(4, Element(EId.Rect), "", map[], []) }

  /** Pattern 5, childless, linking to pattern 1. */
  function NestedA(): Node { Node(5, Element(EId.Pattern), "", map[AId.Href := AValue.Link(1)], []) }

  function NestedSource(): Node { Node(0, Root, "", map[], [NestedB(), NestedD(), NestedA()]) }

  /** The first loop fills pattern 2, then pattern 5. */
  lemma NestedSourceOrder()
    ensures Descendants(NestedSource()) == [NestedSource(), NestedB(), NestedC(), NestedD(), NestedRect(), NestedA()]
    ensures FillableUids(Descendants(NestedSource())) == [2, 5]
  {
    var doc := NestedSource();
    assert Flat(doc.children[2..]) == [NestedA()];
    assert Flat(doc.children[1..]) == [NestedD(), NestedRect(), NestedA()];
    assert Flat(NestedB().children) == [NestedC()];
  }

  lemma DeepCopiesOne(x: Node, first: nat)
    ensures DeepCopies([x], first) == [Node(first, x.kind, "", x.attrs, DeepCopies(x.children, first + 1))]
  {
    assert [x][1..] == [];
  }

  lemma FindFirstChild(doc: Node)
    requires |doc.children| > 0 && doc.uid != doc.children[0].uid
    ensures Find([doc], doc.children[0].uid) == Some(doc.children[0])
  {
    assert Flat([doc]) == [doc] + Flat(doc.children) + Flat([]);
    assert Flat(doc.children)[0] == doc.children[0];
    var s := Flat([doc]);
    assert s[0] == doc && s[1..][0] == doc.children[0];
    assert FirstWithUid(s[1..], doc.children[0].uid) == Some(doc.children[0]);
  }

  /** A link straight to a node without an href: that node is the source. */
  lemma SourceOneHop(doc: Node, n: Node, t: Node)
    requires AId.Href in n.attrs && n.attrs[AId.Href] == AValue.Link(t.uid)
    requires Find([doc], t.uid) == Some(t) && AId.Href !in t.attrs
    ensures Source(doc, n) == Some(t)
  {
    assert Flat([doc])[0] == doc;
  }

  /** Pattern 2 starts with pattern 3 as its source. */
  lemma NestedSourceFirstSource()
    ensures Source(NestedSource(), NestedC()) == Some(NestedD())
  {
    NestedSourceOrder();
    var s := Descendants(NestedSource());
    assert Flat([NestedSource()]) == s;
    assert s[3..][0] == NestedD();
    assert FirstWithUid(s[3..], 3) == Some(NestedD());
    assert s[1..][2..] == s[3..] && s[2..][1..] == s[3..];
    SourceOneHop(NestedSource(), NestedC(), NestedD());
  }

  /** The first turn fills pattern 2, inside pattern 1, from pattern 3; pattern 5 is left alone. */
  lemma NestedSourceFirstTurn()
    ensures var d1 := FillOne(NestedSource(), 2);
            |d1.children| == 3
            && d1.children[0] == NestedB().(children := [Fill(NestedSource(), NestedC())])
            && d1.children[2] == NestedA()
  {
    var doc := NestedSource();
    var fillable := (m: Node) => m.uid == 2 && Fillable(m);
    var fill := (m: Node) => Fill(doc, m);
    var top := FillWalk(doc.children, fillable, fill);
    assert top[0] == NestedB().(children := FillWalk([NestedC()], fillable, fill));
    assert FillWalk([NestedC()], fillable, fill)[0] == Fill(doc, NestedC());
    assert top[2] == NestedA().(children := FillWalk([], fillable, fill));
  }

  /** Pattern 2 as the first turn leaves it: one copy of the rect. */
  lemma NestedSourceRectCopy()
    ensures var c1 := Fill(NestedSource(), NestedC());
            c1.Is(EId.Pattern) && |c1.children| == 1 && c1.children[0].Is(EId.Rect)
  {
    NestedSourceFirstSource();
    DeepCopiesOne(NestedRect(), CopyBase(NestedSource(), NestedC()));
  }

  /** The second turn follows pattern 5's href to pattern 1 as the first turn left it. */
  lemma NestedSourceSecondSource()
    ensures var d1 := FillOne(NestedSource(), 2);
            |d1.children| == 3 && Source(d1, d1.children[2]) == Some(d1.children[0])
  {
    NestedSourceFirstTurn();
    var d1 := FillOne(NestedSource(), 2);
    FindFirstChild(d1);
    SourceOneHop(d1, d1.children[2], d1.children[0]);
  }

  lemma FillOneThirdChild(d: Node, u: UId)
    requires |d.children| == 3 && d.children[2].uid == u && Fillable(d.children[2])
    ensures |FillOne(d, u).children| == 3 && FillOne(d, u).children[2] == Fill(d, d.children[2])
  {
    var top := FillWalk(d.children, (m: Node) => m.uid == u && Fillable(m), (m: Node) => Fill(d, m));
    assert top[2] == Fill(d, d.children[2]);
  }

  /** A childless pattern filled from a source with one child, which has one child. */
  lemma FillFromSingle(d: Node, n: Node, src: Node)
    requires n.children == [] && Source(d, n) == Some(src)
    requires |src.children| == 1 && |src.children[0].children| == 1
    ensures var r := Fill(d, n);
            r.uid == n.uid && |r.children| == 1 && r.children[0].kind == src.children[0].kind
            && |r.children[0].children| == 1 && r.children[0].children[0].kind == src.children[0].children[0].kind
  {
    var base := CopyBase(d, n);
    assert Fill(d, n).children == DeepCopies(src.children, base);
    DeepCopiesOne(src.children[0], base);
    DeepCopiesOne(src.children[0].children[0], base + 1);
  }

  /** The second turn fills pattern 5 with a copy of the filled pattern 2. */
  lemma NestedSourceSecondTurn()
    ensures var d2 := FillOne(FillOne(NestedSource(), 2), 5);
            |d2.children| == 3 && d2.children[2].uid == 5
            && |d2.children[2].children| == 1 && d2.children[2].children[0].Is(EId.Pattern)
            && |d2.children[2].children[0].children| == 1 && d2.children[2].children[0].children[0].Is(EId.Rect)
  {
    NestedSourceFirstTurn();
    NestedSourceRectCopy();
    NestedSourceSecondSource();
    var d1 := FillOne(NestedSource(), 2);
    FillOneThirdChild(d1, 5);
    FillFromSingle(d1, d1.children[2], d1.children[0]);
  }

  lemma FillAllTwo(doc: Node, u: UId, v: UId)
    ensures FillAll(doc, [u, v]) == FillOne(FillOne(doc, u), v)
  {
    assert [u, v][..1] == [u] && [u][..0] == [];
    assert FillAll(doc, [u]) == FillOne(FillAll(doc, []), u);
  }

  /** Dropping pattern hrefs keeps the shape of a third child's subtree. */
  lemma DropKeepsThirdChild(d: Node)
    requires |d.children| == 3 && |d.children[2].children| == 1 && |d.children[2].children[0].children| == 1
    ensures var r := MapDoc(d, DropPatternHref);
            |r.children| == 3 && r.children[2].uid == d.children[2].uid
            && |r.children[2].children| == 1 && r.children[2].children[0].kind == d.children[2].children[0].kind
            && (r.children[2].children[0].Is(EId.Pattern) ==> AId.Href !in r.children[2].children[0].attrs)
            && |r.children[2].children[0].children| == 1
            && r.children[2].children[0].children[0].kind == d.children[2].children[0].children[0].kind
  {
    var a := d.children[2];
    var r := MapDoc(d, DropPatternHref);
    assert r.children[2] == DropPatternHref(a).(children := MapNodes(a.children, DropPatternHref));
    assert r.children[2].children[0] == DropPatternHref(a.children[0]).(children := MapNodes(a.children[0].children, DropPatternHref));
  }

  /**
   * The second turn reads the document the first left, so pattern 5 gets a
   * copy of pattern 2 that holds a copy of the rect; after the pass that
   * copy has no href.
   */
  lemma NestedSourceCopied()
    ensures var r := ResolvePatternChildrenDoc(NestedSource());
            |r.children| == 3 && r.children[2].uid == 5
            && |r.children[2].children| == 1 && r.children[2].children[0].Is(EId.Pattern)
            && AId.Href !in r.children[2].children[0].attrs
            && |r.children[2].children[0].children| == 1 && r.children[2].children[0].children[0].Is(EId.Rect)
  {
    NestedSourceOrder();
    NestedSourceSecondTurn();
    FillAllTwo(NestedSource(), 2, 5);
    DropKeepsThirdChild(FillOne(FillOne(NestedSource(), 2), 5));
  }

  /** There is no kind check: the chain runs through any element to the first without an href. */
  lemma SourceFollowsAnyHref(doc: Node, n: Node)
    requires HrefTarget(doc, n).Some?
    ensures Source(doc, n) == ChainEnd(doc, HrefTarget(doc, n).value, _ => true, Fuel(doc) - 1)
  {
    FlatLength([doc]);
    ChainEndStep(doc, n, _ => true, Fuel(doc));
  }
}
