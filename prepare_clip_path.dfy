/**
 * `prepare_clip_path`: a clipPath is drawn as a one-bit mask, so every
 * element in it, the clipPath itself included, gets a black fill, no
 * stroke, full opacity and its clip-rule as its fill-rule; a clipPath
 * without a string clipPathUnits gets `userSpaceOnUse`.
 */
module PrepareClipPath {
  import opened Wrappers
  import opened SvgTypes
  import opened Dom
  import opened Traits

  /** The units line: the clipPath's own string value, `userSpaceOnUse` when there is none. */
  function SetUnits(n: Node): (r: Node)
    ensures r.uid == n.uid && r.kind == n.kind && r.id == n.id && r.children == n.children
  {
    var units := GetStr(n, AId.ClipPathUnits).UnwrapOr("userSpaceOnUse");
    n.Set(AId.ClipPathUnits, AValue.String(units))
  }

  /** A string clipPathUnits is kept, anything else becomes `userSpaceOnUse`; nothing else changes. */
  lemma SetUnitsAttrs(n: Node)
    ensures GetStr(n, AId.ClipPathUnits).Some? ==> SetUnits(n).attrs == n.attrs
    ensures GetStr(n, AId.ClipPathUnits).None? ==>
              SetUnits(n).attrs == n.attrs[AId.ClipPathUnits := AValue.String("userSpaceOnUse")]
  {
  }

  /** The four writes to an element of a clipPath; a non-element is left as it is. */
  function Blacken(n: Node): (r: Node)
    ensures r.uid == n.uid && r.kind == n.kind && r.id == n.id && r.children == n.children
    ensures !n.IsSvgElement() ==> r == n
  {
    if !n.IsSvgElement() then n
    else
      var rule := GetStr(n, AId.ClipRule).UnwrapOr("nonzero");
      n.Set(AId.Fill, AValue.Color(Black))
       .Set(AId.Stroke, AValue.None)
       .Set(AId.Opacity, AValue.Number(1.0))
       .Set(AId.FillRule, AValue.String(rule))
  }

  /**
   * An element gets a black fill, stroke `none`, opacity 1 and its string
   * clip-rule, or `nonzero`, as fill-rule; every other attribute is kept.
   */
  lemma BlackenAttrs(n: Node)
    requires n.IsSvgElement()
    ensures var r := Blacken(n).attrs;
            r.Keys == n.attrs.Keys + {AId.Fill, AId.Stroke, AId.Opacity, AId.FillRule}
            && r[AId.Fill] == AValue.Color(Black) && r[AId.Stroke] == AValue.None
            && r[AId.Opacity] == AValue.Number(1.0)
            && r[AId.FillRule] == AValue.String(GetStr(n, AId.ClipRule).UnwrapOr("nonzero"))
            && forall a :: a in n.attrs && a !in {AId.Fill, AId.Stroke, AId.Opacity, AId.FillRule} ==> r[a] == n.attrs[a]
  {
  }

  /** A clipPath that the outer loop has reached: one with its uid in `s`. */
  predicate Selected(n: Node, s: set<UId>)
  {
    n.Is(EId.ClipPath) && n.uid in s
  }

  /**
   * One node after the outer loop has handled the clipPaths in `s`;
   * `inClip` says whether a strict ancestor is one of them.
   */
  function Step(n: Node, s: set<UId>, inClip: bool): (r: Node)
    ensures r.uid == n.uid && r.kind == n.kind && r.children == n.children
  {
    var u := if Selected(n, s) then SetUnits(n) else n;
    if inClip || Selected(n, s) then Blacken(u) else u
  }

  function WalkNode(n: Node, s: set<UId>, inClip: bool): (r: Node)
  {
    Step(n, s, inClip).(children := Walk(n.children, s, inClip || Selected(n, s)))
  }

  function Walk(ns: seq<Node>, s: set<UId>, inClip: bool): (r: seq<Node>)
    ensures |r| == |ns|
  {
    if ns == [] then [] else [WalkNode(ns[0], s, inClip)] + Walk(ns[1..], s, inClip)
  }

  /** The first node of a walked forest, and the rest. */
  lemma WalkCons(ns: seq<Node>, s: set<UId>, inClip: bool)
    requires ns != []
    ensures var r := Walk(ns, s, inClip);
            r[0] == WalkNode(ns[0], s, inClip) && r[1..] == Walk(ns[1..], s, inClip)
            && HeadOf(r[0]) == HeadOf(Step(ns[0], s, inClip))
            && r[0].children == Walk(ns[0].children, s, inClip || Selected(ns[0], s))
  {
  }

  /** The uids of the clipPaths among `ns`. */
  function ClipUidsOf(ns: seq<Node>): set<UId>
  {
    set n | n in ns && n.Is(EId.ClipPath) :: n.uid
  }

  /** The whole pass: every clipPath of the document handled. */
  function Prepared(doc: Node): (r: Node)
    ensures r.uid == doc.uid && r.kind == doc.kind
  {
    WalkNode(doc, ClipUidsOf(Descendants(doc)), false)
  }

  // ---- the outer loop ----

  lemma UpdateSame(m: map<AId, AValue>, k: AId, v: AValue)
    requires k in m && m[k] == v
    ensures m[k := v] == m
  {
  }

  lemma SetUnitsTwice(n: Node)
    ensures SetUnits(SetUnits(n)) == SetUnits(n)
  {
    var u := SetUnits(n);
    UpdateSame(u.attrs, AId.ClipPathUnits, u.attrs[AId.ClipPathUnits]);
  }

  lemma BlackenTwice(n: Node)
    ensures Blacken(Blacken(n)) == Blacken(n)
  {
    if n.IsSvgElement() {
      var b := Blacken(n);
      var m := b.attrs;
      assert GetStr(b, AId.ClipRule) == GetStr(n, AId.ClipRule);
      UpdateSame(m, AId.Fill, AValue.Color(Black));
      UpdateSame(m, AId.Stroke, AValue.None);
      UpdateSame(m, AId.Opacity, AValue.Number(1.0));
      UpdateSame(m, AId.FillRule, m[AId.FillRule]);
    }
  }

  lemma UnitsBlackenCommute(n: Node)
    ensures SetUnits(Blacken(n)) == Blacken(SetUnits(n))
  {
    if n.IsSvgElement() {
      assert GetStr(Blacken(n), AId.ClipPathUnits) == GetStr(n, AId.ClipPathUnits);
      assert GetStr(SetUnits(n), AId.ClipRule) == GetStr(n, AId.ClipRule);
    }
  }

  /** Handling the clipPaths `s` and then those of `t` is handling both, on one node. */
  lemma StepCompose(n: Node, s: set<UId>, t: set<UId>, f: bool, g: bool)
    ensures Step(Step(n, s, f), t, g) == Step(n, s + t, f || g)
  {
    SetUnitsTwice(n);
    BlackenTwice(n);
    BlackenTwice(SetUnits(n));
    UnitsBlackenCommute(n);
    SetUnitsTwice(Blacken(n));
  }

  /** A node's step does not look at its children. */
  lemma StepChildren(n: Node, c: seq<Node>, s: set<UId>, f: bool)
    ensures Step(n.(children := c), s, f) == Step(n, s, f).(children := c)
  {
  }

  /** The same for a whole forest: the passes of the outer loop compose. */
  lemma {:induction false} WalkCompose(ns: seq<Node>, s: set<UId>, t: set<UId>, f: bool, g: bool)
    ensures Walk(Walk(ns, s, f), t, g) == Walk(ns, s + t, f || g)
  {
    if ns != [] {
      var n := ns[0];
      var f1 := f || Selected(n, s);
      var g1 := g || Selected(n, t);
      var kids := Walk(n.children, s, f1);
      var m := Step(n, s, f).(children := kids);
      assert WalkNode(n, s, f) == m;
      WalkCompose(n.children, s, t, f1, g1);
      WalkCompose(ns[1..], s, t, f, g);
      StepCompose(n, s, t, f, g);
      StepChildren(Step(n, s, f), kids, t, g);
      assert Selected(m, t) == Selected(n, t);
      assert WalkNode(m, t, g) == Step(m, t, g).(children := Walk(kids, t, g1));
      assert WalkNode(m, t, g) == WalkNode(n, s + t, f || g);
      var w := Walk(ns, s, f);
      var l := Walk(w, t, g);
      var r := Walk(ns, s + t, f || g);
      assert w[1..] == Walk(ns[1..], s, f);
      assert l[1..] == Walk(w[1..], t, g);
      assert l == [l[0]] + l[1..] && r == [r[0]] + r[1..];
    }
  }

  lemma {:induction false} WalkNone(ns: seq<Node>)
    ensures Walk(ns, {}, false) == ns
  {
    if ns != [] {
      WalkNone(ns[0].children);
      WalkNone(ns[1..]);
      var r := Walk(ns, {}, false);
      assert r == [r[0]] + r[1..] && ns == [ns[0]] + ns[1..];
    }
  }

  lemma ClipUidsStep(ns: seq<Node>, i: nat)
    requires i < |ns|
    ensures ClipUidsOf(ns[..i + 1]) == ClipUidsOf(ns[..i]) + (if ns[i].Is(EId.ClipPath) then {ns[i].uid} else {})
  {
    assert ns[..i + 1] == ns[..i] + [ns[i]];
    assert forall m :: m in ns[..i + 1] <==> m in ns[..i] || m == ns[i];
  }

  /** On a whole document: handling nothing changes nothing, and rounds compose. */
  lemma DocWalk(doc: Node, s: set<UId>, t: set<UId>)
    ensures WalkNode(doc, {}, false) == doc
    ensures WalkNode(WalkNode(doc, s, false), t, false) == WalkNode(doc, s + t, false)
  {
    WalkNone([doc]);
    WalkCons([doc], {}, false);
    WalkCompose([doc], s, t, false, false);
    var w := Walk([doc], s, false);
    WalkCons([doc], s, false);
    WalkCons([doc], s + t, false);
    WalkCons(w, t, false);
  }

  /**
   * `prepare_clip_path`: the outer loop over the live document's pre-order;
   * each clipPath it reaches gets its units and has every element of its
   * subtree, itself included, rewritten.
   */
  method PrepareClipPaths(doc: Node) returns (r: Node)
    ensures r == Prepared(doc)
  {
    var ns := Descendants(doc);
    r := doc;
    ghost var s: set<UId> := {};
    DocWalk(doc, {}, {});
    var i := 0;
    while i < |ns|
      invariant 0 <= i <= |ns|
      invariant s == ClipUidsOf(ns[..i])
      invariant r == WalkNode(doc, s, false)
    {
      ClipUidsStep(ns, i);
      var n := ns[i];
      if n.Is(EId.ClipPath) {
        DocWalk(doc, s, {n.uid});
        r := WalkNode(r, {n.uid}, false);
        s := s + {n.uid};
      }
      i := i + 1;
    }
    assert ns[..i] == ns;
  }

  // ---- what the pass does to each node ----

  /** Every clipPath of the forest is among the handled ones. */
  predicate Covers(ns: seq<Node>, s: set<UId>)
  {
    forall m :: m in Flat(ns) && m.Is(EId.ClipPath) ==> m.uid in s
  }

  /** An element of a clipPath after the pass: its writes, and the units on a clipPath. */
  function Prepare(o: Node): (r: Node)
    ensures r.uid == o.uid && r.kind == o.kind && r.id == o.id
  {
    Blacken(if o.Is(EId.ClipPath) then SetUnits(o) else o)
  }

  predicate Prepares(o: Node, m: Node)
  {
    HeadOf(m) == HeadOf(Prepare(o))
  }

  /** The nodes of a forest with a clipPath at or above them, in document order. */
  function Clipped(ns: seq<Node>): seq<Node>
  {
    if ns == [] then []
    else (if ns[0].Is(EId.ClipPath) then [ns[0]] + Flat(ns[0].children) else Clipped(ns[0].children))
         + Clipped(ns[1..])
  }

  /** The nodes of a forest with no clipPath at or above them, in document order. */
  function Unclipped(ns: seq<Node>): (r: seq<Node>)
    ensures forall m :: m in r ==> !m.Is(EId.ClipPath)
  {
    if ns == [] then []
    else (if ns[0].Is(EId.ClipPath) then [] else [ns[0]] + Unclipped(ns[0].children))
         + Unclipped(ns[1..])
  }

  lemma CoversParts(ns: seq<Node>, s: set<UId>)
    requires ns != [] && Covers(ns, s)
    ensures Covers(ns[0].children, s) && Covers(ns[1..], s)
    ensures ns[0].Is(EId.ClipPath) ==> ns[0].uid in s
  {
    FlatContains(ns, 0);
    assert Flat(ns) == [ns[0]] + Flat(ns[0].children) + Flat(ns[1..]);
  }

  /** Inside a clipPath, every node becomes its prepared form, in order. */
  lemma {:induction false} InsidePrepared(ns: seq<Node>, s: set<UId>)
    requires Covers(ns, s)
    ensures Pairwise(Flat(ns), Flat(Walk(ns, s, true)), Prepares)
  {
    if ns != [] {
      CoversParts(ns, s);
      var r := Walk(ns, s, true);
      WalkCons(ns, s, true);
      InsidePrepared(ns[0].children, s);
      InsidePrepared(ns[1..], s);
      assert Flat(r) == [r[0]] + Flat(r[0].children) + Flat(r[1..]);
      assert Flat(ns) == [ns[0]] + Flat(ns[0].children) + Flat(ns[1..]);
      assert Pairwise([ns[0]], [r[0]], Prepares);
      PairwiseAppend([ns[0]], [r[0]], Flat(ns[0].children), Flat(r[0].children), Prepares);
      PairwiseAppend([ns[0]] + Flat(ns[0].children), [r[0]] + Flat(r[0].children),
                     Flat(ns[1..]), Flat(r[1..]), Prepares);
    }
  }

  /** Outside every clipPath nothing changes, in document order. */
  lemma {:induction false} OutsideUntouched(ns: seq<Node>, s: set<UId>)
    requires Covers(ns, s)
    ensures HeadSeq(Unclipped(Walk(ns, s, false))) == HeadSeq(Unclipped(ns))
  {
    if ns != [] {
      CoversParts(ns, s);
      var n := ns[0];
      var r := Walk(ns, s, false);
      var rest := Walk(ns[1..], s, false);
      WalkCons(ns, s, false);
      OutsideUntouched(ns[1..], s);
      if !n.Is(EId.ClipPath) {
        OutsideUntouched(n.children, s);
        var h := r[0];
        assert HeadOf(h) == HeadOf(n);
        assert h.children == Walk(n.children, s, false);
        assert Unclipped(r) == [h] + Unclipped(h.children) + Unclipped(rest);
        assert Unclipped(ns) == [n] + Unclipped(n.children) + Unclipped(ns[1..]);
        HeadSeqAppend([h] + Unclipped(h.children), Unclipped(rest));
        HeadSeqAppend([n] + Unclipped(n.children), Unclipped(ns[1..]));
        HeadSeqAppend([h], Unclipped(h.children));
        HeadSeqAppend([n], Unclipped(n.children));
      }
    }
  }

  /** The nodes at or below a clipPath become their prepared forms, in document order. */
  lemma {:induction false} ClipsPrepared(ns: seq<Node>, s: set<UId>)
    requires Covers(ns, s)
    ensures Pairwise(Clipped(ns), Clipped(Walk(ns, s, false)), Prepares)
  {
    if ns != [] {
      CoversParts(ns, s);
      var n := ns[0];
      var r := Walk(ns, s, false);
      var rest := Walk(ns[1..], s, false);
      WalkCons(ns, s, false);
      ClipsPrepared(ns[1..], s);
      var h := r[0];
      if n.Is(EId.ClipPath) {
        InsidePrepared(n.children, s);
        assert h.children == Walk(n.children, s, true);
        assert Prepares(n, h);
        assert Clipped(r) == [h] + Flat(h.children) + Clipped(rest);
        assert Clipped(ns) == [n] + Flat(n.children) + Clipped(ns[1..]);
        PairwiseAppend([n], [h], Flat(n.children), Flat(h.children), Prepares);
        PairwiseAppend([n] + Flat(n.children), [h] + Flat(h.children), Clipped(ns[1..]), Clipped(rest), Prepares);
      } else {
        ClipsPrepared(n.children, s);
        assert h.children == Walk(n.children, s, false);
        assert Clipped(r) == Clipped(h.children) + Clipped(rest);
        PairwiseAppend(Clipped(n.children), Clipped(h.children), Clipped(ns[1..]), Clipped(rest), Prepares);
      }
    }
  }

  /** Every clipPath of a document is among the uids the pass collects. */
  lemma CoversDoc(doc: Node)
    ensures Covers([doc], ClipUidsOf(Descendants(doc)))
    ensures Covers(doc.children, ClipUidsOf(Descendants(doc)))
  {
    var s := ClipUidsOf(Descendants(doc));
    FlatSingle(doc);
    forall m | m in Flat([doc]) && m.Is(EId.ClipPath)
      ensures m.uid in s
    {
      assert m in Descendants(doc);
    }
    CoversParts([doc], s);
  }

  /**
   * The pass on a document: below the root, outside clipPaths nothing
   * changes, and inside them every node is prepared.
   */
  lemma PreparedNodes(doc: Node)
    requires doc.kind == Root
    ensures HeadSeq(Unclipped(Prepared(doc).children)) == HeadSeq(Unclipped(doc.children))
    ensures Pairwise(Clipped(doc.children), Clipped(Prepared(doc).children), Prepares)
  {
    var s := ClipUidsOf(Descendants(doc));
    CoversDoc(doc);
    assert Prepared(doc).children == Walk(doc.children, s, false);
    OutsideUntouched(doc.children, s);
    ClipsPrepared(doc.children, s);
  }

  // ---- running it twice ----

  /** Two sets that cover a forest give the same walk. */
  lemma {:induction false} WalkCovers(ns: seq<Node>, s: set<UId>, t: set<UId>, f: bool)
    requires Covers(ns, s) && Covers(ns, t)
    ensures Walk(ns, s, f) == Walk(ns, t, f)
  {
    if ns != [] {
      CoversParts(ns, s);
      CoversParts(ns, t);
      WalkCovers(ns[0].children, s, t, f || Selected(ns[0], s));
      WalkCovers(ns[1..], s, t, f);
      var l := Walk(ns, s, f);
      var r := Walk(ns, t, f);
      assert l == [l[0]] + l[1..] && r == [r[0]] + r[1..];
    }
  }

  /** Running the pass twice gives what running it once does. */
  lemma Idempotent(doc: Node)
    ensures Prepared(Prepared(doc)) == Prepared(doc)
  {
    var s := ClipUidsOf(Descendants(doc));
    var t := ClipUidsOf(Descendants(Prepared(doc)));
    CoversDoc(doc);
    WalkCompose([doc], s, t, false, false);
    WalkCovers([doc], s, s + t, false);
  }
}
