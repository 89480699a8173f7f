/**
 * `fix_gradient_stops`: the stop list of every gradient is normalised in five
 * sweeps. Non-stop children go, Number offsets are clamped into [0, 1], the
 * middle of each run of three equal offsets is removed, offsets that do not
 * grow are shifted apart by EPSILON, and two leading zero offsets are split.
 * Each sweep over one gradient's children is a method proved against the
 * function that specifies it; the document-level pass composes the functions.
 */
module GradientStops {
  import opened Wrappers
  import opened SvgTypes
  import opened Dom
  import opened Traits
  import Geom

  /** `f64::EPSILON`, 2^-52. */
  const Epsilon: real := 1.0 / 4503599627370496.0

  /** A stop's offset as the sweeps read it: `get_number_or(AId::Offset, 0.0)`. */
  function Off(n: Node): real
  {
    NumberOr(n, AId.Offset, 0.0)
  }

  /** The node with at most its `offset` attribute rewritten. */
  predicate SameButOffset(a: Node, b: Node)
  {
    a.uid == b.uid && a.kind == b.kind && a.id == b.id && a.children == b.children
    && a.attrs - {AId.Offset} == b.attrs - {AId.Offset}
  }

  /** `set_attribute((AId::Offset, v))`. */
  function WithOffset(n: Node, v: real): (r: Node)
    ensures Off(r) == v && SameButOffset(n, r)
    ensures AId.Offset in r.attrs && r.attrs[AId.Offset] == AValue.Number(v)
  {
    n.Set(AId.Offset, AValue.Number(v))
  }

  predicate IsGradientNode(n: Node)
  {
    n.kind.Element? && IsGradient(n.kind.eid)
  }

  predicate DistinctUids(s: seq<Node>)
  {
    forall j, k :: 0 <= j < k < |s| ==> s[j].uid != s[k].uid
  }

  // ---- sweep 1: non-stop children ----

  /** The children the first sweep removes from one gradient. */
  function NonStops(children: seq<Node>): set<UId>
  {
    set c | c in children && !c.Is(EId.Stop) :: c.uid
  }

  /** The sibling walk of the first sweep: it collects the children that are not stops. */
  method NonStopChildren(children: seq<Node>) returns (drop: set<UId>)
    ensures drop == NonStops(children)
  {
    drop := {};
    var k := 0;
    while k < |children|
      invariant 0 <= k <= |children|
      invariant drop == NonStops(children[..k])
    {
      assert children[..k + 1] == children[..k] + [children[k]];
      if !children[k].Is(EId.Stop) {
        drop := drop + {children[k].uid};
      }
      k := k + 1;
    }
    assert children[..k] == children;
  }

  /** Every non-stop child of every gradient, at any depth. */
  function NonStopDrops(doc: Node): set<UId>
  {
    set g, c | g in Flat(doc.children) && IsGradientNode(g) && c in g.children && !c.Is(EId.Stop) :: c.uid
  }

  /** Every gradient of the forest has only stop children. */
  predicate GradientsHoldStops(ns: seq<Node>)
  {
    forall i :: 0 <= i < |ns| ==>
      (IsGradientNode(ns[i]) ==> forall c :: c in ns[i].children ==> c.Is(EId.Stop))
      && GradientsHoldStops(ns[i].children)
  }

  lemma {:induction false} HoldStopsCons(n: Node, rest: seq<Node>)
    requires IsGradientNode(n) ==> forall c :: c in n.children ==> c.Is(EId.Stop)
    requires GradientsHoldStops(n.children) && GradientsHoldStops(rest)
    ensures GradientsHoldStops([n] + rest)
  {
    var s := [n] + rest;
    forall i | 0 <= i < |s|
      ensures (IsGradientNode(s[i]) ==> forall c :: c in s[i].children ==> c.Is(EId.Stop))
              && GradientsHoldStops(s[i].children)
    {
      if i > 0 {
        assert s[i] == rest[i - 1];
      }
    }
  }

  lemma {:induction false} HoldStopsTail(ns: seq<Node>)
    requires ns != [] && GradientsHoldStops(ns)
    ensures GradientsHoldStops(ns[1..])
  {
    forall i | 0 <= i < |ns[1..]|
      ensures (IsGradientNode(ns[1..][i]) ==> forall c :: c in ns[1..][i].children ==> c.Is(EId.Stop))
              && GradientsHoldStops(ns[1..][i].children)
    {
      assert ns[1..][i] == ns[i + 1];
    }
  }

  /** A node kept by a prune is an original node outside `drop`, with the same kind. */
  lemma {:induction false} PruneOrigin(ns: seq<Node>, drop: set<UId>, n: Node)
    requires n in Prune(ns, drop)
    ensures exists m :: m in ns && m.uid == n.uid && m.kind == n.kind && m.uid !in drop
  {
    var rest := Prune(ns[1..], drop);
    if ns[0].uid in drop || n != ns[0].(children := Prune(ns[0].children, drop)) {
      assert n in rest;
      PruneOrigin(ns[1..], drop, n);
      var m :| m in ns[1..] && m.uid == n.uid && m.kind == n.kind && m.uid !in drop;
      assert m in ns;
    }
  }

  /** Pruning every non-stop child of every gradient leaves gradients holding only stops. */
  lemma {:induction false} PruneLeavesStops(ns: seq<Node>, drop: set<UId>)
    requires forall g, c :: g in Flat(ns) && IsGradientNode(g) && c in g.children && !c.Is(EId.Stop)
                            ==> c.uid in drop
    ensures GradientsHoldStops(Prune(ns, drop))
  {
    if ns != [] {
      FlatContains(ns, 0);
      assert forall m :: m in Flat(ns[0].children) ==> m in Flat(ns);
      assert forall m :: m in Flat(ns[1..]) ==> m in Flat(ns);
      PruneLeavesStops(ns[0].children, drop);
      PruneLeavesStops(ns[1..], drop);
      var rest := Prune(ns[1..], drop);
      if ns[0].uid !in drop {
        var head := ns[0].(children := Prune(ns[0].children, drop));
        forall c | c in head.children && IsGradientNode(head)
          ensures c.Is(EId.Stop)
        {
          PruneOrigin(ns[0].children, drop, c);
        }
        HoldStopsCons(head, rest);
        assert Prune(ns, drop) == [head] + rest;
      }
    }
  }

  /** Unlinking changes attributes only, so it keeps gradients holding only stops. */
  lemma {:induction false} UnlinkKeepsStops(ns: seq<Node>, gone: set<UId>)
    requires GradientsHoldStops(ns)
    ensures GradientsHoldStops(UnlinkAll(ns, gone))
  {
    if ns != [] {
      assert ns[0] == ns[0];
      HoldStopsTail(ns);
      UnlinkKeepsStops(ns[0].children, gone);
      UnlinkKeepsStops(ns[1..], gone);
      var head := ns[0].(attrs := Unlinked(ns[0].attrs, gone), children := UnlinkAll(ns[0].children, gone));
      forall c | c in head.children && IsGradientNode(head)
        ensures c.Is(EId.Stop)
      {
        var j :| 0 <= j < |head.children| && head.children[j] == c;
        assert ns[0].children[j] in ns[0].children;
      }
      HoldStopsCons(head, UnlinkAll(ns[1..], gone));
      assert UnlinkAll(ns, gone) == [head] + UnlinkAll(ns[1..], gone);
    }
  }

  /** After the first sweep every child of every gradient is a stop. */
  lemma FirstSweepLeavesStops(doc: Node)
    ensures GradientsHoldStops(RemoveNodes(doc, NonStopDrops(doc)).children)
  {
    var drop := NonStopDrops(doc);
    PruneLeavesStops(doc.children, drop);
    UnlinkKeepsStops(Prune(doc.children, drop), DroppedUids(doc.children, drop));
  }

  // ---- sweep 2: clamping ----

  /** A Number offset clamped into [0, 1]; any other offset value left alone. */
  function ClampOne(n: Node): (r: Node)
    ensures SameButOffset(n, r)
    ensures AId.Offset in n.attrs && n.attrs[AId.Offset].Number? ==>
              var v := n.attrs[AId.Offset].n;
              AId.Offset in r.attrs && r.attrs[AId.Offset].Number? && 0.0 <= Off(r) <= 1.0 && (0.0 <= v <= 1.0 ==> Off(r) == v)
    ensures !(AId.Offset in n.attrs && n.attrs[AId.Offset].Number?) ==> r == n
  {
    if AId.Offset in n.attrs && n.attrs[AId.Offset].Number? then
      WithOffset(n, Geom.F64Bound(0.0, n.attrs[AId.Offset].n, 1.0))
    else n
  }

  function Clamped(stops: seq<Node>): (r: seq<Node>)
    ensures |r| == |stops|
    ensures forall j :: 0 <= j < |stops| ==> r[j] == ClampOne(stops[j])
  {
    seq(|stops|, j requires 0 <= j < |stops| => ClampOne(stops[j]))
  }

  /** The clamping loop over one gradient's children. */
  method ClampOffsets(stops: seq<Node>) returns (out: seq<Node>)
    ensures out == Clamped(stops)
  {
    out := stops;
    for k := 0 to |stops|
      invariant |out| == |stops|
      invariant forall j :: 0 <= j < k ==> out[j] == ClampOne(stops[j])
      invariant forall j :: k <= j < |stops| ==> out[j] == stops[j]
    {
      var stop := out[k];
      if AId.Offset in stop.attrs && stop.attrs[AId.Offset].Number? {
        out := out[k := WithOffset(stop, Geom.F64Bound(0.0, stop.attrs[AId.Offset].n, 1.0))];
      }
    }
  }

  /** Clamping a clamped list changes nothing. */
  lemma {:induction false} ClampIdempotent(stops: seq<Node>)
    ensures Clamped(Clamped(stops)) == Clamped(stops)
  {
    forall j | 0 <= j < |stops|
      ensures ClampOne(ClampOne(stops[j])) == ClampOne(stops[j])
    {
      var n := ClampOne(stops[j]);
      if AId.Offset in n.attrs && n.attrs[AId.Offset].Number? {
        var v := n.attrs[AId.Offset].n;
        assert 0.0 <= v <= 1.0;
        assert WithOffset(n, v).attrs == n.attrs;
      }
    }
  }

  // ---- sweep 3: equal triples ----

  /** The offsets at j, j+1 and j+2 are equal. */
  predicate EqualAt(s: seq<Node>, j: nat)
    requires j + 2 < |s|
  {
    Off(s[j]) == Off(s[j + 1]) && Off(s[j + 1]) == Off(s[j + 2])
  }

  predicate NoEqualTriple(s: seq<Node>)
  {
    forall j :: 0 <= j && j + 2 < |s| ==> !EqualAt(s, j)
  }

  /**
   * The intended triple sweep from position i: at an equal triple the middle
   * stop is dropped and the same position is examined again, otherwise the
   * scan moves on.
   */
  function Collapse(s: seq<Node>, i: nat): (r: seq<Node>)
    requires i <= |s|
    ensures |r| <= |s|
    ensures |s| < 3 ==> r == s
    decreases 2 * |s| - i
  {
    if i + 2 >= |s| then s
    else if EqualAt(s, i) then Collapse(s[..i + 1] + s[i + 2..], i)
    else Collapse(s, i + 1)
  }

  /** The sweep only removes stops. */
  lemma {:induction false} CollapseSubset(s: seq<Node>, i: nat)
    requires i <= |s|
    ensures multiset(Collapse(s, i)) <= multiset(s)
    decreases 2 * |s| - i
  {
    if i + 2 < |s| {
      if EqualAt(s, i) {
        CollapseStep(s, i);
        CollapseSubset(s[..i + 1] + s[i + 2..], i);
      } else {
        CollapseSubset(s, i + 1);
      }
    }
  }

  /** The stops up to the scan position stay where they are. */
  lemma {:induction false} CollapseKeepsPrefix(s: seq<Node>, i: nat)
    requires i < |s|
    ensures i < |Collapse(s, i)| && Collapse(s, i)[..i + 1] == s[..i + 1]
    decreases 2 * |s| - i
  {
    if i + 2 < |s| {
      if EqualAt(s, i) {
        var t := s[..i + 1] + s[i + 2..];
        CollapseStep(s, i);
        CollapseKeepsPrefix(t, i);
      } else {
        CollapseKeepsPrefix(s, i + 1);
        assert Collapse(s, i + 1)[..i + 1] == Collapse(s, i + 1)[..i + 2][..i + 1];
      }
    }
  }

  /** The last stop is never removed. */
  lemma {:induction false} CollapseKeepsLast(s: seq<Node>, i: nat)
    requires i <= |s| && |s| > 0
    ensures |Collapse(s, i)| > 0 && Collapse(s, i)[|Collapse(s, i)| - 1] == s[|s| - 1]
    decreases 2 * |s| - i
  {
    if i + 2 < |s| {
      if EqualAt(s, i) {
        CollapseStep(s, i);
        CollapseKeepsLast(s[..i + 1] + s[i + 2..], i);
      } else {
        CollapseKeepsLast(s, i + 1);
      }
    }
  }

  /** Started where no triple lies before the scan position, the sweep leaves no equal triple. */
  lemma {:induction false} CollapseLeavesNoTriple(s: seq<Node>, i: nat)
    requires i <= |s|
    requires forall j :: 0 <= j < i && j + 2 < |s| ==> !EqualAt(s, j)
    ensures NoEqualTriple(Collapse(s, i))
    decreases 2 * |s| - i
  {
    if i + 2 >= |s| {
      forall j | 0 <= j && j + 2 < |s|
        ensures !EqualAt(s, j)
      {
      }
    } else if EqualAt(s, i) {
      CollapseStep(s, i);
      CollapseLeavesNoTriple(s[..i + 1] + s[i + 2..], i);
    } else {
      CollapseLeavesNoTriple(s, i + 1);
    }
  }

  /** Dropping the middle of an equal triple at i keeps the stops up to i and adds no triple before i. */
  lemma CollapseStep(s: seq<Node>, i: nat)
    requires i + 2 < |s| && EqualAt(s, i)
    ensures var t := s[..i + 1] + s[i + 2..];
            multiset(t) + multiset{s[i + 1]} == multiset(s)
            && t[..i + 1] == s[..i + 1] && t[|t| - 1] == s[|s| - 1]
            && ((forall j :: 0 <= j < i && j + 2 < |s| ==> !EqualAt(s, j))
                ==> forall j :: 0 <= j < i && j + 2 < |t| ==> !EqualAt(t, j))
  {
    var t := s[..i + 1] + s[i + 2..];
    assert s == s[..i + 1] + [s[i + 1]] + s[i + 2..];
    if forall j :: 0 <= j < i && j + 2 < |s| ==> !EqualAt(s, j) {
      forall j | 0 <= j < i && j + 2 < |t|
        ensures !EqualAt(t, j)
      {
        if j + 2 == i + 1 {
          assert t[j] == s[j] && t[j + 1] == s[j + 1] && t[j + 2] == s[i + 2];
          assert !EqualAt(s, j);
        } else {
          assert t[j] == s[j] && t[j + 1] == s[j + 1] && t[j + 2] == s[j + 2];
          assert !EqualAt(s, j);
        }
      }
    }
  }

  /**
   * The step of the library's working vector: dropping index 1 of `work`
   * while the intended vector drops i+1 keeps the two equal from i+1 on, and
   * equal in offset at i.
   */
  lemma StaleVectorStep(work: seq<Node>, c: seq<Node>, i: nat)
    requires |work| == |c| && i + 2 < |c| && EqualAt(c, i)
    requires forall k :: i < k < |c| ==> work[k] == c[k]
    requires Off(work[i]) == Off(c[i])
    ensures var w := work[..1] + work[2..];
            var d := c[..i + 1] + c[i + 2..];
            |w| == |d| && (forall k :: i < k < |d| ==> w[k] == d[k]) && Off(w[i]) == Off(d[i])
  {
    var w := work[..1] + work[2..];
    var d := c[..i + 1] + c[i + 2..];
    forall k | i < k < |d|
      ensures w[k] == d[k]
    {
      assert w[k] == work[k + 1] && d[k] == c[k + 1];
    }
    if i > 0 {
      assert w[i] == work[i + 1] && d[i] == c[i];
    }
  }

  lemma DistinctDrop(c: seq<Node>, k: nat)
    requires k < |c| && DistinctUids(c)
    ensures DistinctUids(c[..k] + c[k + 1..])
  {
    var d := c[..k] + c[k + 1..];
    forall a, b | 0 <= a < b < |d|
      ensures d[a].uid != d[b].uid
    {
      var oa := if a < k then a else a + 1;
      var ob := if b < k then b else b + 1;
      assert d[a] == c[oa] && d[b] == c[ob];
    }
  }

  /** Without an equal triple there is nothing to collapse. */
  lemma {:induction false} CollapseNoTriple(s: seq<Node>, i: nat)
    requires i <= |s| && NoEqualTriple(s)
    ensures Collapse(s, i) == s
    decreases |s| - i
  {
    if i + 2 < |s| {
      CollapseNoTriple(s, i + 1);
    }
  }

  /** The triple sweep is idempotent. */
  lemma CollapseIdempotent(s: seq<Node>)
    ensures Collapse(Collapse(s, 0), 0) == Collapse(s, 0)
  {
    CollapseLeavesNoTriple(s, 0);
    CollapseNoTriple(Collapse(s, 0), 0);
  }

  /** `remove_node` on one of the gradient's children, identified by uid. */
  function RemoveUid(s: seq<Node>, u: UId): (r: seq<Node>)
    ensures |r| <= |s|
  {
    if s == [] then []
    else (if s[0].uid == u then [] else [s[0]]) + RemoveUid(s[1..], u)
  }

  lemma {:induction false} RemoveUidAbsent(s: seq<Node>, u: UId)
    requires forall j :: 0 <= j < |s| ==> s[j].uid != u
    ensures RemoveUid(s, u) == s
  {
    if s != [] {
      RemoveUidAbsent(s[1..], u);
      assert [s[0]] + s[1..] == s;
    }
  }

  lemma {:induction false} RemoveUidAt(s: seq<Node>, k: nat)
    requires k < |s| && DistinctUids(s)
    ensures RemoveUid(s, s[k].uid) == s[..k] + s[k + 1..]
  {
    if k == 0 {
      RemoveUidAbsent(s[1..], s[0].uid);
    } else {
      assert s[1..][k - 1] == s[k];
      RemoveUidAt(s[1..], k - 1);
      assert s[..k] == [s[0]] + s[1..][..k - 1];
      assert s[k + 1..] == s[1..][k..];
    }
  }

  /**
   * The triple sweep as the library runs it: the working vector `work` loses
   * index 1 each time a middle stop is removed, not index i+1. The ghost list
   * `c` is the vector the sweep means; from position i on, `work` holds the
   * same stops as `c` (at i only the same offset), so the nodes it removes from
   * the gradient are exactly the intended ones.
   */
  method RemoveEqualOffsets(stops: seq<Node>) returns (kept: seq<Node>)
    requires DistinctUids(stops)
    ensures kept == Collapse(stops, 0)
  {
    kept := stops;
    if |stops| < 3 {
      return;
    }
    var work := stops;
    var i := 0;
    ghost var c := stops;
    while i < |work| - 2
      invariant |work| == |c| >= 2 && i <= |c| - 2
      invariant kept == c && DistinctUids(c)
      invariant forall k :: i < k < |c| ==> work[k] == c[k]
      invariant Off(work[i]) == Off(c[i])
      invariant Collapse(c, i) == Collapse(stops, 0)
      decreases 2 * |work| - i
    {
      var offset1 := Off(work[i]);
      var offset2 := Off(work[i + 1]);
      var offset3 := Off(work[i + 2]);
      if offset1 == offset2 && offset2 == offset3 {
        assert EqualAt(c, i);
        RemoveUidAt(kept, i + 1);
        StaleVectorStep(work, c, i);
        DistinctDrop(c, i + 1);
        kept := RemoveUid(kept, work[i + 1].uid);
        work := work[..1] + work[2..];
        c := c[..i + 1] + c[i + 2..];
      } else {
        i := i + 1;
      }
    }
  }

  // ---- sweep 4: shifting ----

  /** One stop of the shift sweep, at position k with the running previous offset. */
  function ShiftStep(out: seq<Node>, prev: real, k: nat): (r: (seq<Node>, real))
    requires k < |out|
    ensures |r.0| == |out|
    ensures forall j :: 0 <= j < |out| ==> SameButOffset(out[j], r.0[j])
    ensures forall j :: 0 <= j < |out| && j != k && j + 1 != k ==> r.0[j] == out[j]
    ensures Off(out[k]) == 0.0 ==> r == (out, 0.0)
    ensures Off(out[k]) != 0.0 && Off(out[k]) <= prev ==>
              r.1 == prev && Off(r.0[k]) == prev
              && (k > 0 ==> r.0[k - 1] == WithOffset(out[k - 1], prev - Epsilon))
              && (k == 0 ==> r.0 == out[k := WithOffset(out[k], prev)])
    ensures Off(out[k]) != 0.0 && Off(out[k]) > prev ==>
              r.1 == Off(out[k]) && r.0 == out[k := WithOffset(out[k], Off(out[k]))]
    ensures Off(out[k]) != 0.0 ==> AId.Offset in r.0[k].attrs && r.0[k].attrs[AId.Offset] == AValue.Number(r.1)
  {
    var offset := Off(out[k]);
    if offset == 0.0 then (out, 0.0)
    else if offset <= prev then
      var moved := if k > 0 then out[k - 1 := WithOffset(out[k - 1], prev - Epsilon)] else out;
      (moved[k := WithOffset(moved[k], prev)], prev)
    else (out[k := WithOffset(out[k], offset)], offset)
  }

  /** The shift sweep after its first k stops: the list so far and the running previous offset. */
  function Shifted(stops: seq<Node>, k: nat): (r: (seq<Node>, real))
    requires k <= |stops|
    ensures |r.0| == |stops|
    ensures forall j :: 0 <= j < |stops| ==> SameButOffset(stops[j], r.0[j])
    ensures forall j :: k <= j < |stops| ==> r.0[j] == stops[j]
    ensures k > 0 ==> Off(r.0[k - 1]) == r.1
    ensures k == 0 ==> r.1 == 0.0
    decreases k
  {
    if k == 0 then (stops, 0.0)
    else
      var p := Shifted(stops, k - 1);
      ShiftStep(p.0, p.1, k - 1)
  }

  /** The whole shift sweep over one gradient's children (the running previous ends unused). */
  function ShiftAll(stops: seq<Node>): seq<Node>
  {
    Shifted(stops, |stops|).0
  }

  /** The shift loop over one gradient's children. */
  method ShiftOffsets(stops: seq<Node>) returns (out: seq<Node>)
    ensures out == ShiftAll(stops)
  {
    out := stops;
    var prevOffset := 0.0;
    for k := 0 to |stops|
      invariant (out, prevOffset) == Shifted(stops, k)
    {
      var offset := Off(out[k]);
      if offset == 0.0 {
        prevOffset := 0.0;
        continue;
      }
      if offset <= prevOffset {
        if k > 0 {
          out := out[k - 1 := WithOffset(out[k - 1], prevOffset - Epsilon)];
        }
        offset := prevOffset;
      }
      out := out[k := WithOffset(out[k], offset)];
      prevOffset := offset;
    }
  }

  /**
   * Right after its step, a stop with a non-zero offset lies strictly above
   * its previous sibling: either it grew, or it caught up with the previous
   * offset and the sibling was moved EPSILON below.
   */
  lemma ShiftSeparates(stops: seq<Node>, k: nat)
    requires 2 <= k <= |stops| && Off(stops[k - 1]) != 0.0
    ensures Off(Shifted(stops, k).0[k - 1]) > Off(Shifted(stops, k).0[k - 2])
  {
    var p := Shifted(stops, k - 1);
    assert p.0[k - 1] == stops[k - 1];
    assert Off(p.0[k - 2]) == p.1;
  }

  /** Every stop the shift sweep has passed with a non-zero offset now holds a Number offset. */
  lemma {:induction false} ShiftWritesNumbers(stops: seq<Node>, k: nat)
    requires k <= |stops|
    ensures forall j :: 0 <= j < k && Off(stops[j]) != 0.0 ==>
              AId.Offset in Shifted(stops, k).0[j].attrs && Shifted(stops, k).0[j].attrs[AId.Offset].Number?
  {
    if k > 0 {
      ShiftWritesNumbers(stops, k - 1);
      var p := Shifted(stops, k - 1);
      assert p.0[k - 1] == stops[k - 1];
    }
  }

  /**
   * With no negative offset the running previous offset is never negative, so
   * a stop whose offset is zero is never rewritten.
   */
  lemma {:induction false} ShiftKeepsZeros(stops: seq<Node>, k: nat)
    requires k <= |stops|
    requires forall j :: 0 <= j < |stops| ==> Off(stops[j]) >= 0.0
    ensures Shifted(stops, k).1 >= 0.0
    ensures forall j :: 0 <= j < k && Off(stops[j]) == 0.0 ==> Shifted(stops, k).0[j] == stops[j]
  {
    if k > 0 {
      ShiftKeepsZeros(stops, k - 1);
      var p := Shifted(stops, k - 1);
      var r := Shifted(stops, k);
      assert r == ShiftStep(p.0, p.1, k - 1);
      assert p.0[k - 1] == stops[k - 1];
      forall j | 0 <= j < k && Off(stops[j]) == 0.0
        ensures r.0[j] == stops[j]
      {
        if j == k - 2 {
          assert p.0[k - 2] == stops[k - 2];
          assert p.1 == 0.0;
        } else if j < k - 2 {
          assert p.0[j] == stops[j];
        }
      }
    }
  }

  // ---- sweep 5: leading zeros ----

  predicate LeadingZeros(s: seq<Node>)
  {
    |s| >= 2 && Off(s[0]) == 0.0 && Off(s[1]) == 0.0
  }

  /** The zero sweep: two leading zero offsets make the second EPSILON. */
  function ZeroFixed(s: seq<Node>): (r: seq<Node>)
    ensures |r| == |s|
    ensures forall j :: 0 <= j < |s| && j != 1 ==> r[j] == s[j]
    ensures LeadingZeros(s) ==> Off(r[1]) == Epsilon && SameButOffset(s[1], r[1])
    ensures !LeadingZeros(s) ==> r == s
    ensures !LeadingZeros(r)
  {
    if LeadingZeros(s) then s[1 := WithOffset(s[1], Off(s[0]) + Epsilon)] else s
  }

  /**
   * The zero loop over one gradient's children. It runs while there are two
   * stops; after one rewrite the second offset is EPSILON and it stops.
   */
  method ZeroOffsets(stops: seq<Node>) returns (out: seq<Node>)
    ensures out == ZeroFixed(stops)
  {
    out := stops;
    while |out| >= 2
      invariant out == stops || out == ZeroFixed(stops)
      invariant LeadingZeros(out) ==> out == stops
      decreases if LeadingZeros(out) then 1 else 0
    {
      var offset1 := Off(out[0]);
      var offset2 := Off(out[1]);
      if offset1 == 0.0 && offset2 == 0.0 {
        out := out[1 := WithOffset(out[1], offset1 + Epsilon)];
      } else {
        break;
      }
    }
  }

  // ---- the pass ----

  /** Rewrite the children of every gradient of the forest with `f`. */
  function MapGradients(ns: seq<Node>, f: seq<Node> -> seq<Node>): (r: seq<Node>)
    ensures |r| == |ns|
    ensures forall i :: 0 <= i < |ns| ==> HeadOf(r[i]) == HeadOf(ns[i])
  {
    if ns == [] then []
    else
      var n := ns[0];
      [if IsGradientNode(n) then n.(children := f(n.children))
       else n.(children := MapGradients(n.children, f))]
      + MapGradients(ns[1..], f)
  }

  /** The stops the triple sweep removes, over every gradient. */
  function TripleDrops(doc: Node): set<UId>
  {
    set g, c | g in Flat(doc.children) && IsGradientNode(g) && c in g.children
                && c !in Collapse(g.children, 0) :: c.uid
  }

  /** `fix_gradient_stops`. */
  function FixGradientStops(doc: Node): (r: Node)
    ensures r.uid == doc.uid && r.kind == doc.kind
  {
    var swept := RemoveNodes(doc, NonStopDrops(doc));
    var clamped := swept.(children := MapGradients(swept.children, Clamped));
    var collapsed := RemoveNodes(clamped, TripleDrops(clamped));
    var shifted := collapsed.(children := MapGradients(collapsed.children, ShiftAll));
    shifted.(children := MapGradients(shifted.children, ZeroFixed))
  }

  /** No sweep over one gradient adds a stop, and each rewrites nothing but offsets. */
  lemma SweepsOnlyWriteOffsets(stops: seq<Node>)
    ensures |Clamped(stops)| == |stops| && |ShiftAll(stops)| == |stops| && |ZeroFixed(stops)| == |stops|
    ensures |Collapse(stops, 0)| <= |stops| && multiset(Collapse(stops, 0)) <= multiset(stops)
    ensures NoEqualTriple(Collapse(stops, 0))
    ensures forall j :: 0 <= j < |stops| ==>
              SameButOffset(stops[j], Clamped(stops)[j]) && SameButOffset(stops[j], ShiftAll(stops)[j])
              && SameButOffset(stops[j], ZeroFixed(stops)[j])
  {
    CollapseSubset(stops, 0);
    CollapseLeavesNoTriple(stops, 0);
    forall j | 0 <= j < |stops|
      ensures SameButOffset(stops[j], ZeroFixed(stops)[j])
    {
      if j != 1 {
        assert ZeroFixed(stops)[j] == stops[j];
      }
    }
  }
}
