/**
 * `remove_invisible_elements`: three drains in a fixed order. Elements with
 * `display="none"` go first (a clipPath stays, since display does not apply
 * to it), then unused elements with `opacity="0"` outside `defs`, and last
 * every `use` without a Link `xlink:href`, swept again until a sweep removes
 * nothing, because removing a node drops the links into it and so can leave
 * another `use` without its href.
 */
module RmInvisibleElems {
  import opened Wrappers
  import opened SvgTypes
  import opened Dom
  import opened DocDrain

  // ---- rm_display_none ----

  /** `display="none"` on a node that is not a clipPath. */
  predicate DisplayNone(h: Head)
  {
    AId.Display in h.attrs && h.attrs[AId.Display] == AValue.None && h.kind != Element(EId.ClipPath)
  }

  predicate DisplayMatch(d: Node, n: Node) { DisplayNone(HeadOf(n)) }

  function RmDisplayNone(doc: Node): Node
  {
    DrainAll(doc, DisplayMatch).0
  }

  /** Losing link attributes cannot give a node `display="none"`. */
  lemma DisplayNoneStable()
    ensures forall m, o :: Derived(m, o) && DisplayNone(m) ==> DisplayNone(o)
  {
  }

  /** Every node below the root is due a visit of a whole-document drain. */
  lemma AllVisited(doc: Node)
    ensures forall m :: m in Flat(doc.children) ==> m.uid in Uids(Flat(doc.children))
  {
    var us := Uids(Flat(doc.children));
    forall m | m in Flat(doc.children)
      ensures m.uid in us
    {
      var k :| 0 <= k < |Flat(doc.children)| && Flat(doc.children)[k] == m;
      assert us[k] == m.uid;
    }
  }

  /** No node below the root is left with `display="none"`, unless it is a clipPath. */
  lemma NoDisplayNoneLeft(doc: Node)
    requires HeadUnique(doc.children)
    ensures forall m :: m in Flat(RmDisplayNone(doc).children) ==> !DisplayNone(HeadOf(m))
  {
    AllVisited(doc);
    DisplayNoneStable();
    DrainClean(doc, Uids(Flat(doc.children)), DisplayMatch, DisplayNone);
  }

  /** The display drain removes, with their subtrees, only nodes with `display="none"` that are not clipPaths. */
  lemma DisplayRemovesOnlyHidden(doc: Node, u: UId) returns (o: Node)
    requires u in DrainAll(doc, DisplayMatch).1
    ensures o in Flat(doc.children) && o.uid == u && DisplayNone(HeadOf(o))
  {
    DisplayNoneStable();
    o := MatchedOrigin(doc, Uids(Flat(doc.children)), DisplayMatch, DisplayNone, u);
  }

  // ---- rm_zero_opacity ----

  /** Some `defs` element of the forest holds the node `u` somewhere below it. */
  predicate InDefs(ns: seq<Node>, u: UId)
  {
    ns != [] && ((ns[0].Is(EId.Defs) && Find(ns[0].children, u).Some?) || InDefs(ns[0].children, u) || InDefs(ns[1..], u))
  }

  /** `ancestors()` starts at the node itself, so a `defs` counts for its own test. */
  predicate DefsAncestor(doc: Node, n: Node)
  {
    n.Is(EId.Defs) || InDefs(doc.children, n.uid)
  }

  /** Not used, `opacity` the number zero, and no `defs` among the node and its ancestors. */
  predicate ZeroOpacityMatch(d: Node, n: Node)
  {
    !IsUsed(d, n.uid) && AId.Opacity in n.attrs && n.attrs[AId.Opacity] == AValue.Number(0.0) && !DefsAncestor(d, n)
  }

  predicate ZeroOpacity(h: Head)
  {
    AId.Opacity in h.attrs && h.attrs[AId.Opacity] == AValue.Number(0.0)
  }

  /** The opacity drain removes, with their subtrees, only nodes whose opacity is zero. */
  lemma ZeroOpacityRemovesOnlyZero(doc: Node, u: UId) returns (o: Node)
    requires u in DrainAll(doc, ZeroOpacityMatch).1
    ensures o in Flat(doc.children) && o.uid == u && ZeroOpacity(HeadOf(o))
  {
    o := MatchedOrigin(doc, Uids(Flat(doc.children)), ZeroOpacityMatch, ZeroOpacity, u);
  }

  function RmZeroOpacity(doc: Node): Node
  {
    DrainAll(doc, ZeroOpacityMatch).0
  }

  // ---- rm_use ----

  /** A `use` without `xlink:href`, or whose href is not a Link (an external file, say). */
  predicate UseMatch(d: Node, n: Node)
  {
    n.Is(EId.Use) && (AId.Href !in n.attrs || !n.attrs[AId.Href].Link?)
  }

  predicate IsUseHead(h: Head) { h.kind == Element(EId.Use) }

  /** A sweep removes, with their subtrees, only `use` elements. */
  lemma SweepRemovesOnlyUse(doc: Node, u: UId) returns (o: Node)
    requires u in DrainAll(doc, UseMatch).1
    ensures o in Flat(doc.children) && o.uid == u && o.Is(EId.Use)
  {
    o := MatchedOrigin(doc, Uids(Flat(doc.children)), UseMatch, IsUseHead, u);
  }

  /** `while _rm(doc) > 0 {}`: sweep until a sweep removes nothing. */
  function UseSweeps(doc: Node): Node
    decreases Size(doc.children)
  {
    var s := DrainAll(doc, UseMatch);
    if s.1 == [] then doc else UseSweeps(s.0)
  }

  method RmUse(doc: Node) returns (r: Node)
    ensures r == UseSweeps(doc)
    ensures HeadUnique(doc.children) ==> forall m :: m in Flat(r.children) ==> !UseMatch(r, m)
  {
    r := doc;
    var drained: nat := 1;
    while drained > 0
      invariant UseSweeps(r) == UseSweeps(doc)
      invariant drained == 0 ==> DrainAll(r, UseMatch).1 == []
      decreases Size(r.children), drained
    {
      var s := DrainAll(r, UseMatch);
      drained := |s.1|;
      r := s.0;
    }
    assert UseSweeps(r) == r;
    if HeadUnique(doc.children) {
      NoDanglingUse(doc);
    }
  }

  /** After the sweeps, no `use` lacks a Link href. */
  lemma {:induction false} NoDanglingUse(doc: Node)
    requires HeadUnique(doc.children)
    ensures forall m :: m in Flat(UseSweeps(doc).children) ==> !UseMatch(UseSweeps(doc), m)
    decreases Size(doc.children)
  {
    var s := DrainAll(doc, UseMatch);
    if s.1 == [] {
      DrainAllNone(doc, UseMatch);
    } else {
      DrainUnique(doc, Uids(Flat(doc.children)), UseMatch);
      NoDanglingUse(s.0);
    }
  }

  /** A property that losing links cannot create stays absent through the sweeps. */
  lemma {:induction false} SweepsKeepAbsent(doc: Node, p: Head -> bool)
    requires forall m, o :: Derived(m, o) && p(m) ==> p(o)
    requires forall m :: m in Flat(doc.children) ==> !p(HeadOf(m))
    ensures forall m :: m in Flat(UseSweeps(doc).children) ==> !p(HeadOf(m))
    decreases Size(doc.children)
  {
    var s := DrainAll(doc, UseMatch);
    if s.1 != [] {
      DrainKeepsAbsent(doc, Uids(Flat(doc.children)), UseMatch, p);
      SweepsKeepAbsent(s.0, p);
    }
  }

  // ---- the pass ----

  function RemoveInvisibleElements(doc: Node): Node
  {
    UseSweeps(RmZeroOpacity(RmDisplayNone(doc)))
  }

  /** Neither a `display="none"` non-clipPath nor a `use` without a Link href is left. */
  lemma InvisibleGone(doc: Node)
    requires HeadUnique(doc.children)
    ensures var r := RemoveInvisibleElements(doc);
            forall m :: m in Flat(r.children) ==> !DisplayNone(HeadOf(m)) && !UseMatch(r, m)
  {
    var a := RmDisplayNone(doc);
    var b := RmZeroOpacity(a);
    NoDisplayNoneLeft(doc);
    DisplayNoneStable();
    DrainUnique(doc, Uids(Flat(doc.children)), DisplayMatch);
    DrainKeepsAbsent(a, Uids(Flat(a.children)), ZeroOpacityMatch, DisplayNone);
    DrainUnique(a, Uids(Flat(a.children)), ZeroOpacityMatch);
    SweepsKeepAbsent(b, DisplayNone);
    NoDanglingUse(b);
  }

  // ---- examples ----

  function El(u: UId, e: EId, attrs: map<AId, AValue>, children: seq<Node>): Node
  {
    Node(u, Element(e), "", attrs, children)
  }

  /** A clipPath and a rect, both with `display="none"`. */
  function HiddenPair(): Node
  {
    Node(0, Root, "", map[], [El(1, EId.ClipPath, map[AId.Display := AValue.None], []),
                              El(2, EId.Rect, map[AId.Display := AValue.None], [])])
  }

  lemma HiddenPairFlat()
    ensures Flat(HiddenPair().children) == [HiddenPair().children[0], HiddenPair().children[1]]
  {
    var doc := HiddenPair();
    assert Flat([doc.children[1]]) == [doc.children[1]];
  }

  lemma HiddenPairRemove()
    ensures RemoveNodes(HiddenPair(), {2}).children == [HiddenPair().children[0]]
  {
    var doc := HiddenPair();
    var c := doc.children[0];
    HiddenPairFlat();
    assert Prune(doc.children, {2}) == [c];
    assert Flat([c]) == [c];
    assert DroppedUids(doc.children, {2}) == {2};
    assert Unlinked(c.attrs, {2}) == c.attrs;
    assert UnlinkAll([c], {2}) == [c];
  }

  /** The rect goes; the clipPath stays available for reference. */
  lemma ClipPathStays()
    ensures RmDisplayNone(HiddenPair()).children == [HiddenPair().children[0]]
  {
    var doc := HiddenPair();
    var c, r := doc.children[0], doc.children[1];
    HiddenPairFlat();
    assert Uids(Flat(doc.children)) == [1, 2];
    assert Find(doc.children, 1) == Some(c);
    DrainPass(doc, [1, 2], DisplayMatch);
    assert Find(doc.children, 2) == Some(r);
    DrainTake(doc, [2], DisplayMatch);
    HiddenPairRemove();
  }

  /** A rect with `opacity="0"` on its own. */
  function ZeroAlone(): Node
  {
    Node(0, Root, "", map[], [El(1, EId.Rect, map[AId.Opacity := AValue.Number(0.0)], [])])
  }

  /** The rect goes. */
  lemma ZeroAloneGoes()
    ensures RmZeroOpacity(ZeroAlone()).children == []
  {
    var doc := ZeroAlone();
    var r := doc.children[0];
    assert Flat(doc.children) == [r];
    assert Uids(Flat(doc.children)) == [1];
    assert Find(doc.children, 1) == Some(r);
    assert !IsUsed(doc, 1) by {
      assert Descendants(doc) == [doc, r];
    }
    assert !DefsAncestor(doc, r);
    DrainTake(doc, [1], ZeroOpacityMatch);
    assert Prune(doc.children, {1}) == [];
  }

  /** The same rect inside `defs`. */
  function ZeroInDefs(): Node
  {
    Node(0, Root, "", map[], [El(1, EId.Defs, map[], [El(2, EId.Rect, map[AId.Opacity := AValue.Number(0.0)], [])])])
  }

  /** The rect under `defs` stays. */
  lemma ZeroInDefsStays()
    ensures RmZeroOpacity(ZeroInDefs()) == ZeroInDefs()
  {
    var doc := ZeroInDefs();
    var d := doc.children[0];
    var r := d.children[0];
    assert Flat(d.children) == [r];
    assert Flat(doc.children) == [d, r];
    assert Uids(Flat(doc.children)) == [1, 2];
    assert Find(doc.children, 1) == Some(d);
    DrainPass(doc, [1, 2], ZeroOpacityMatch);
    assert Find(doc.children, 2) == Some(r);
    assert Find(d.children, 2).Some?;
    assert DefsAncestor(doc, r);
    DrainPass(doc, [2], ZeroOpacityMatch);
  }

  /** The same rect, used by a `use`. */
  function ZeroUsed(): Node
  {
    Node(0, Root, "", map[], [El(1, EId.Rect, map[AId.Opacity := AValue.Number(0.0)], []),
                              El(2, EId.Use, map[AId.Href := AValue.Link(1)], [])])
  }

  lemma ZeroUsedIsUsed()
    ensures IsUsed(ZeroUsed(), 1)
  {
    var doc := ZeroUsed();
    var u := doc.children[1];
    assert Flat([u]) == [u];
    assert u in Descendants(doc) && AId.Href in u.attrs && LinksTo(u.attrs[AId.Href], 1);
  }

  /** The used rect stays. */
  lemma ZeroUsedStays()
    ensures RmZeroOpacity(ZeroUsed()) == ZeroUsed()
  {
    var doc := ZeroUsed();
    var r, u := doc.children[0], doc.children[1];
    assert Flat([u]) == [u];
    assert Flat(doc.children) == [r, u];
    assert Uids(Flat(doc.children)) == [1, 2];
    assert Find(doc.children, 1) == Some(r);
    ZeroUsedIsUsed();
    DrainPass(doc, [1, 2], ZeroOpacityMatch);
    assert Find(doc.children, 2) == Some(u);
    DrainPass(doc, [2], ZeroOpacityMatch);
  }

  /** A `use` whose target is a `use` without an href. */
  function UseChain(): Node
  {
    Node(0, Root, "", map[], [El(1, EId.Use, map[AId.Href := AValue.Link(2)], []), El(2, EId.Use, map[], [])])
  }

  lemma UseChainRemove()
    ensures RemoveNodes(UseChain(), {2}).children == [El(1, EId.Use, map[], [])]
  {
    var doc := UseChain();
    var a, b := doc.children[0], doc.children[1];
    assert Flat([b]) == [b];
    assert Flat(doc.children) == [a, b];
    assert Prune(doc.children, {2}) == [a];
    assert Flat([a]) == [a];
    assert DroppedUids(doc.children, {2}) == {2};
    assert Unlinked(a.attrs, {2}) == map[] by {
      assert LinksInto(a.attrs[AId.Href], {2});
    }
    assert UnlinkAll([a], {2}) == [El(1, EId.Use, map[], [])];
  }

  /** A sweep removes the inner `use`, which leaves the outer one without its href. */
  lemma UseChainFirstSweep()
    ensures DrainAll(UseChain(), UseMatch).0.children == [El(1, EId.Use, map[], [])]
  {
    var doc := UseChain();
    var a, b := doc.children[0], doc.children[1];
    assert Flat([b]) == [b];
    assert Flat(doc.children) == [a, b];
    assert Uids(Flat(doc.children)) == [1, 2];
    assert Find(doc.children, 1) == Some(a);
    DrainPass(doc, [1, 2], UseMatch);
    assert Find(doc.children, 2) == Some(b);
    DrainTake(doc, [2], UseMatch);
    UseChainRemove();
  }

  /** The outer `use` is left without an href, so a second sweep removes it: one sweep is not enough. */
  lemma UseChainSweeps()
    ensures UseSweeps(UseChain()).children == []
  {
    var doc := UseChain();
    var s1 := DrainAll(doc, UseMatch);
    UseChainFirstSweep();
    var a := El(1, EId.Use, map[], []);
    assert s1.0.children == [a];
    assert Flat(s1.0.children) == [a];
    assert Uids(Flat(s1.0.children)) == [1];
    assert Find(s1.0.children, 1) == Some(a);
    DrainTake(s1.0, [1], UseMatch);
    var s2 := DrainAll(s1.0, UseMatch);
    assert Prune(s1.0.children, {1}) == [];
    assert s2.0.children == [];
    assert UseSweeps(s2.0) == s2.0;
  }

  /** A rect with `display="none"` and a `use` of it. */
  function HiddenTarget(): Node
  {
    Node(0, Root, "", map[], [El(1, EId.Rect, map[AId.Display := AValue.None], []),
                              El(2, EId.Use, map[AId.Href := AValue.Link(1)], [])])
  }

  lemma HiddenTargetRemove()
    ensures RemoveNodes(HiddenTarget(), {1}).children == [El(2, EId.Use, map[], [])]
  {
    var doc := HiddenTarget();
    var a, b := doc.children[0], doc.children[1];
    assert Flat([b]) == [b];
    assert Flat(doc.children) == [a, b];
    assert Prune(doc.children, {1}) == [b];
    assert DroppedUids(doc.children, {1}) == {1};
    assert Unlinked(b.attrs, {1}) == map[] by {
      assert LinksInto(b.attrs[AId.Href], {1});
    }
    assert UnlinkAll([b], {1}) == [El(2, EId.Use, map[], [])];
  }

  /** The display drain removes the rect, and with it the `use`'s href. */
  lemma HiddenTargetDisplay()
    ensures RmDisplayNone(HiddenTarget()).children == [El(2, EId.Use, map[], [])]
  {
    var doc := HiddenTarget();
    var a, b := doc.children[0], doc.children[1];
    assert Flat([b]) == [b];
    assert Flat(doc.children) == [a, b];
    assert Uids(Flat(doc.children)) == [1, 2];
    assert Find(doc.children, 1) == Some(a);
    DrainTake(doc, [1, 2], DisplayMatch);
    var next := RemoveNodes(doc, {1});
    HiddenTargetRemove();
    var u := El(2, EId.Use, map[], []);
    assert Find(next.children, 2) == Some(u);
    DrainPass(next, [2], DisplayMatch);
  }

  /**
   * The `use` of a hidden element goes too, because the `use` drain runs
   * after the display drain has dropped its href.
   */
  lemma HiddenTargetGone()
    ensures RemoveInvisibleElements(HiddenTarget()).children == []
  {
    var a := RmDisplayNone(HiddenTarget());
    HiddenTargetDisplay();
    var u := El(2, EId.Use, map[], []);
    assert Flat(a.children) == [u];
    assert Uids(Flat(a.children)) == [2];
    assert Find(a.children, 2) == Some(u);
    DrainPass(a, [2], ZeroOpacityMatch);
    assert RmZeroOpacity(a) == a;
    DrainTake(a, [2], UseMatch);
    var s := DrainAll(a, UseMatch);
    assert Prune(a.children, {2}) == [];
    assert s.0.children == [];
    assert UseSweeps(s.0) == s.0;
  }
}
