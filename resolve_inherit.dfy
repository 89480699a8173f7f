/**
 * `resolve_inherit`: every SVG attribute whose value is `inherit` takes the
 * value of the nearest strict ancestor that has that attribute, or the
 * attribute's default, or is removed when there is no default. Nodes are
 * visited in document order, so ancestors are resolved first.
 */
module ResolveInherit {
  import opened Wrappers
  import opened SvgTypes
  import opened Dom
  import opened Traits

  predicate IsInherit(attrs: map<AId, AValue>, a: AId)
  {
    a in attrs && IsSvgAttr(a) && attrs[a] == AValue.Inherit
  }

  /**
   * `resolve_impl`'s choice for one attribute, from the strict ancestors
   * `anc` (nearest first); None means the attribute is removed.
   */
  function InheritedValue(anc: seq<Node>, a: AId): (r: Option<AValue>)
    ensures FirstHaving(anc, a).Some? ==> r == Some(anc[FirstHaving(anc, a).value].attrs[a])
    ensures FirstHaving(anc, a).None? ==> r == DefaultValue(a)
  {
    match FindNodeWithAttribute(anc, a)
    case Some(n) =>
      FindNodeWithAttributeIsFirst(anc, a, FirstHaving(anc, a).value);
      Some(n.attrs[a])
    case None => DefaultValue(a)
  }

  /** One node's attributes once every inherited one is resolved. */
  function ResolvedAttrs(attrs: map<AId, AValue>, anc: seq<Node>): (r: map<AId, AValue>)
    ensures r.Keys <= attrs.Keys
    ensures forall a :: a in attrs && !IsInherit(attrs, a) ==> a in r && r[a] == attrs[a]
    ensures forall a :: IsInherit(attrs, a) ==>
              (a in r <==> InheritedValue(anc, a).Some?)
              && (a in r ==> r[a] == InheritedValue(anc, a).value)
  {
    map a | a in attrs && !(IsInherit(attrs, a) && InheritedValue(anc, a).None?) ::
      if IsInherit(attrs, a) then InheritedValue(anc, a).value else attrs[a]
  }

  /** The first loop: the SVG attributes that hold `inherit`, collected into `ids`. */
  method InheritIds(attrs: map<AId, AValue>) returns (ids: seq<AId>)
    ensures forall a :: a in ids <==> IsInherit(attrs, a)
  {
    ids := [];
    var todo := attrs.Keys;
    while todo != {}
      invariant todo <= attrs.Keys
      invariant forall a :: a in ids <==> IsInherit(attrs, a) && a !in todo
      decreases |todo|
    {
      var a :| a in todo;
      if IsSvgAttr(a) && attrs[a] == AValue.Inherit {
        ids := ids + [a];
      }
      todo := todo - {a};
    }
  }

  /** `resolve_impl` on one attribute whose choice is `v`: set it, or remove it. */
  function Step(attrs: map<AId, AValue>, a: AId, v: Option<AValue>): map<AId, AValue>
  {
    if v.Some? then attrs[a := v.value] else attrs - {a}
  }

  /** `resolve_impl` applied to `ids` in order, each attribute's choice given by `val`. */
  function Apply(attrs: map<AId, AValue>, ids: seq<AId>, val: AId -> Option<AValue>): map<AId, AValue>
  {
    if ids == [] then attrs
    else Step(Apply(attrs, ids[..|ids| - 1], val), ids[|ids| - 1], val(ids[|ids| - 1]))
  }

  /** The attributes once the ids in `done` are resolved by `val` and the rest are not yet. */
  function Partial(orig: map<AId, AValue>, done: seq<AId>, val: AId -> Option<AValue>): map<AId, AValue>
  {
    map a | a in orig && !(a in done && val(a).None?) :: if a in done then val(a).value else orig[a]
  }

  lemma PartialStep(orig: map<AId, AValue>, done: seq<AId>, a: AId, val: AId -> Option<AValue>)
    requires a in orig
    ensures Partial(orig, done + [a], val) == Step(Partial(orig, done, val), a, val(a))
  {
  }

  /** Resolving the ids one by one gives every one of them its choice at once, whatever the order. */
  lemma {:induction false} ApplyIsPartial(orig: map<AId, AValue>, ids: seq<AId>, val: AId -> Option<AValue>)
    requires forall a :: a in ids ==> a in orig
    ensures Apply(orig, ids, val) == Partial(orig, ids, val)
  {
    if ids == [] {
      assert Partial(orig, ids, val) == orig;
    } else {
      var init := ids[..|ids| - 1];
      assert init + [ids[|ids| - 1]] == ids;
      ApplyIsPartial(orig, init, val);
      PartialStep(orig, init, ids[|ids| - 1], val);
    }
  }

  /** With the ids of exactly the inherited attributes, the choice is `ResolvedAttrs`'. */
  lemma PartialAll(orig: map<AId, AValue>, ids: seq<AId>, anc: seq<Node>, val: AId -> Option<AValue>)
    requires forall a :: a in ids <==> IsInherit(orig, a)
    requires forall a :: val(a) == InheritedValue(anc, a)
    ensures Partial(orig, ids, val) == ResolvedAttrs(orig, anc)
  {
  }

  /** The second loop: `resolve_impl` on each id of `ids` in order. */
  method ResolveIds(orig: map<AId, AValue>, ids: seq<AId>, val: AId -> Option<AValue>) returns (attrs: map<AId, AValue>)
    ensures attrs == Apply(orig, ids, val)
  {
    attrs := orig;
    var i := 0;
    while i < |ids|
      invariant i <= |ids|
      invariant attrs == Apply(orig, ids[..i], val)
    {
      assert ids[..i + 1][..i] == ids[..i];
      attrs := Step(attrs, ids[i], val(ids[i]));
      i := i + 1;
    }
    assert ids[..i] == ids;
  }

  /** Both loops over one node: collect the ids, then resolve each. */
  method ResolveNode(n: Node, anc: seq<Node>) returns (r: Node)
    ensures r == n.(attrs := ResolvedAttrs(n.attrs, anc))
  {
    var ids := InheritIds(n.attrs);
    var val := (a: AId) => InheritedValue(anc, a);
    var attrs := ResolveIds(n.attrs, ids, val);
    ApplyIsPartial(n.attrs, ids, val);
    PartialAll(n.attrs, ids, anc, val);
    r := n.(attrs := attrs);
  }

  /** One node as the walk leaves it, apart from its children. */
  function Visit(n: Node, anc: seq<Node>): (r: Node)
    ensures r.uid == n.uid && r.kind == n.kind && r.id == n.id && r.children == n.children
  {
    if n.IsSvgElement() then n.(attrs := ResolvedAttrs(n.attrs, anc)) else n
  }

  /**
   * The walk over the nodes below a node whose ancestors-or-self are `anc`:
   * SVG elements are resolved, and every node's children see it, resolved,
   * as their nearest ancestor.
   */
  function Walk(ns: seq<Node>, anc: seq<Node>): (r: seq<Node>)
    ensures |r| == |ns|
    ensures forall i :: 0 <= i < |ns| ==>
              r[i] == Visit(ns[i], anc).(children := Walk(ns[i].children, [Visit(ns[i], anc)] + anc))
  {
    if ns == [] then []
    else
      var n := Visit(ns[0], anc);
      var head := n.(children := Walk(ns[0].children, [n] + anc));
      var rest := Walk(ns[1..], anc);
      assert forall i :: 1 <= i < |ns| ==> ([head] + rest)[i] == rest[i - 1] && ns[i] == ns[1..][i - 1];
      [head] + rest
  }

  function ResolveInheritDoc(doc: Node): (r: Node)
    ensures r.uid == doc.uid && r.kind == doc.kind && r.attrs == doc.attrs
  {
    doc.(children := Walk(doc.children, [doc]))
  }

  /** No SVG attribute holds `inherit`. */
  predicate NoInherit(n: Node)
  {
    forall a :: a in n.attrs && IsSvgAttr(a) ==> n.attrs[a] != AValue.Inherit
  }

  predicate AllNoInherit(ns: seq<Node>)
  {
    ns == [] || (NoInherit(ns[0]) && AllNoInherit(ns[0].children) && AllNoInherit(ns[1..]))
  }

  /** Every node that is not an SVG element, at any depth, already holds no `inherit`. */
  predicate OthersNoInherit(ns: seq<Node>)
  {
    ns == [] || ((!ns[0].IsSvgElement() ==> NoInherit(ns[0])) && OthersNoInherit(ns[0].children) && OthersNoInherit(ns[1..]))
  }

  /** No default value is itself `inherit`. */
  lemma DefaultsAreNotInherit(a: AId)
    ensures DefaultValue(a) != Some(AValue.Inherit)
  {
  }

  /** A resolved element holds no `inherit` when its ancestors hold none. */
  lemma ResolvedHasNoInherit(n: Node, anc: seq<Node>)
    requires forall j :: 0 <= j < |anc| ==> NoInherit(anc[j])
    ensures NoInherit(n.(attrs := ResolvedAttrs(n.attrs, anc)))
  {
    var r := ResolvedAttrs(n.attrs, anc);
    forall a | a in r && IsSvgAttr(a)
      ensures r[a] != AValue.Inherit
    {
      if IsInherit(n.attrs, a) {
        var f := FirstHaving(anc, a);
        if f.Some? {
          assert NoInherit(anc[f.value]);
        } else {
          DefaultsAreNotInherit(a);
        }
      }
    }
  }

  /**
   * When only elements carried `inherit`, none is left anywhere after the
   * walk: each element resolves against ancestors that are already clean.
   */
  lemma {:induction false} WalkLeavesNoInherit(ns: seq<Node>, anc: seq<Node>)
    requires forall j :: 0 <= j < |anc| ==> NoInherit(anc[j])
    requires OthersNoInherit(ns)
    ensures AllNoInherit(Walk(ns, anc))
  {
    if ns != [] {
      var r := Walk(ns, anc);
      var n := Visit(ns[0], anc);
      if ns[0].IsSvgElement() {
        ResolvedHasNoInherit(ns[0], anc);
      }
      assert forall j :: 0 <= j < |[n] + anc| ==> NoInherit(([n] + anc)[j]);
      WalkLeavesNoInherit(ns[0].children, [n] + anc);
      WalkLeavesNoInherit(ns[1..], anc);
      assert r[1..] == Walk(ns[1..], anc);
    }
  }

  /** On the document: a clean root and clean non-elements leave no `inherit`. */
  lemma NoInheritLeft(doc: Node)
    requires NoInherit(doc) && OthersNoInherit(doc.children)
    ensures AllNoInherit(ResolveInheritDoc(doc).children)
  {
    WalkLeavesNoInherit(doc.children, [doc]);
  }
}
