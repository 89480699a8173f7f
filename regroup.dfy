/**
 * `regroup_elements`: an element drawn with a group opacity or a clip path
 * is moved into a new `g` that carries its `clip-path`, `opacity` and
 * `transform`, so that later stages only ever find these on groups.
 * Groups, `defs` and anything inside a `clipPath` are left alone.
 *
 * A new group is a new node; its uid is `base + uid` of the element it wraps,
 * with `base` past every uid of the document, so new groups are distinct from
 * every original node and from each other.
 */
module Regroup {
  import opened SvgTypes
  import opened Dom

  /** The attributes a new group takes over from its element. */
  const GroupAttrs: set<AId> := {AId.ClipPath, AId.Opacity, AId.Transform}

  /** `get_number(Opacity).unwrap_or(1.0)`: a non-Number opacity reads as 1. */
  function OpacityOf(n: Node): real
  {
    if AId.Opacity in n.attrs && n.attrs[AId.Opacity].Number? then n.attrs[AId.Opacity].n else 1.0
  }

  /**
   * The loop body's three `continue`s: a `g` or `defs`, an opaque element
   * without a clip path, and an element that is a `clipPath` or lies inside
   * one (`inClip`: some strict ancestor is a `clipPath`) are not wrapped.
   */
  predicate Wraps(n: Node, inClip: bool)
  {
    !n.Is(EId.G) && !n.Is(EId.Defs)
    && (OpacityOf(n) != 1.0 || n.Has(AId.ClipPath))
    && !inClip && !n.Is(EId.ClipPath)
  }

  /** The new group around `n`: it holds the three attributes and `n` without them. */
  function Wrap(n: Node, base: nat): (r: Node)
    ensures r.uid == base + n.uid && r.Is(EId.G) && r.id == ""
    ensures forall a :: a in r.attrs <==> a in n.attrs && a in GroupAttrs
    ensures forall a :: a in r.attrs ==> r.attrs[a] == n.attrs[a]
    ensures |r.children| == 1
    ensures HeadOf(r.children[0]) == HeadOf(n).(attrs := n.attrs - GroupAttrs)
    ensures r.children[0].children == n.children
  {
    Node(base + n.uid, Element(EId.G), "", map a | a in n.attrs && a in GroupAttrs :: n.attrs[a],
         [n.(attrs := n.attrs - GroupAttrs)])
  }

  /** One node: its children first, then the node itself. */
  function RegroupNode(n: Node, inClip: bool, base: nat): Node
  {
    var m := n.(children := Regroup(n.children, inClip || n.Is(EId.ClipPath), base));
    if Wraps(m, inClip) then Wrap(m, base) else m
  }

  /**
   * An element keeps its uid, and so is not wrapped, exactly when it is a
   * `g` or `defs`, is opaque without a clip path, or is or lies in a
   * `clipPath`; such an element keeps its tag, id and attributes.
   */
  lemma KeptIff(n: Node, inClip: bool, base: nat)
    requires n.uid < base
    ensures RegroupNode(n, inClip, base).uid == n.uid
            <==> n.Is(EId.G) || n.Is(EId.Defs) || (OpacityOf(n) == 1.0 && !n.Has(AId.ClipPath))
                 || inClip || n.Is(EId.ClipPath)
    ensures RegroupNode(n, inClip, base).uid == n.uid ==> HeadOf(RegroupNode(n, inClip, base)) == HeadOf(n)
  {
  }

  /**
   * A wrapped element is replaced, in its place, by a new `g` whose one child
   * is the element: the group has the element's `clip-path`, `opacity` and
   * `transform` with the same values and nothing else, and the element has
   * lost exactly those three.
   */
  lemma WrappedShape(n: Node, inClip: bool, base: nat)
    requires Wraps(n, inClip)
    ensures var r := RegroupNode(n, inClip, base);
            r.Is(EId.G) && r.id == "" && r.uid == base + n.uid
            && r.attrs == (map a | a in n.attrs && a in GroupAttrs :: n.attrs[a])
            && |r.children| == 1
            && HeadOf(r.children[0]) == HeadOf(n).(attrs := n.attrs - GroupAttrs)
            && r.children[0].children == Regroup(n.children, false, base)
  {
  }

  /** A list of siblings; each keeps its place, wrapped or not. */
  function Regroup(ns: seq<Node>, inClip: bool, base: nat): (r: seq<Node>)
    ensures |r| == |ns|
    ensures forall i :: 0 <= i < |ns| ==> r[i] == RegroupNode(ns[i], inClip, base)
  {
    if ns == [] then []
    else
      var head := RegroupNode(ns[0], inClip, base);
      var rest := Regroup(ns[1..], inClip, base);
      ConsIndex(head, rest);
      [head] + rest
  }

  /**
   * `regroup_elements(doc, parent)`: the sibling walk over `parent`'s
   * children; `inClip` says whether a strict ancestor of `parent` is a
   * `clipPath`. Each new group takes its element's place, so the next
   * sibling, read before the change, is the next one in the list.
   */
  method RegroupElements(parent: Node, inClip: bool, base: nat) returns (r: seq<Node>)
    ensures r == Regroup(parent.children, inClip || parent.Is(EId.ClipPath), base)
    decreases parent
  {
    var below := inClip || parent.Is(EId.ClipPath);
    var ns := parent.children;
    r := [];
    var i := 0;
    while i < |ns|
      invariant 0 <= i <= |ns|
      invariant |r| == i
      invariant forall k :: 0 <= k < i ==> r[k] == RegroupNode(ns[k], below, base)
    {
      var node := ns[i];
      if node.children != [] {
        var kids := RegroupElements(node, below, base);
        node := node.(children := kids);
      } else {
        assert node == node.(children := Regroup([], below || node.Is(EId.ClipPath), base));
      }
      if Wraps(node, below) {
        node := Wrap(node, base);
      }
      r := r + [node];
      i := i + 1;
    }
  }

  /** The pass on the root `svg` element, with new uids past every uid of the document. */
  method RegroupDocument(svg: Node) returns (r: Node)
    ensures r == svg.(children := Regroup(svg.children, svg.Is(EId.ClipPath), FreshBase(svg)))
  {
    var base := FreshBase(svg);
    var kids := RegroupElements(svg, false, base);
    r := svg.(children := kids);
  }

  // ---- the inverse: dissolving the new groups ----

  /**
   * A new group is known by its uid, at or past `base`; dissolving it puts
   * its three attributes back on its one child.
   */
  function UnwrapNode(n: Node, base: nat): (r: Node)
  {
    if n.uid >= base && n.Is(EId.G) && |n.children| == 1 then
      var c := n.children[0];
      c.(attrs := c.attrs + n.attrs, children := Unwrap(c.children, base))
    else n.(children := Unwrap(n.children, base))
  }

  function Unwrap(ns: seq<Node>, base: nat): (r: seq<Node>)
    ensures |r| == |ns|
    ensures forall i :: 0 <= i < |ns| ==> r[i] == UnwrapNode(ns[i], base)
  {
    if ns == [] then []
    else
      var head := UnwrapNode(ns[0], base);
      var rest := Unwrap(ns[1..], base);
      ConsIndex(head, rest);
      [head] + rest
  }

  /** Splitting the attributes between group and element loses none and changes none. */
  lemma SplitAttrs(attrs: map<AId, AValue>)
    ensures (attrs - GroupAttrs) + (map a | a in attrs && a in GroupAttrs :: attrs[a]) == attrs
  {
  }

  /**
   * Regrouping loses nothing: dissolving every new group gives back the
   * original forest, with each element's attributes and place.
   */
  lemma {:induction false} UnwrapRegroup(ns: seq<Node>, inClip: bool, base: nat)
    requires forall m :: m in Flat(ns) ==> m.uid < base
    ensures Unwrap(Regroup(ns, inClip, base), base) == ns
  {
    if ns != [] {
      var n := ns[0];
      var t := inClip || n.Is(EId.ClipPath);
      assert Flat(ns) == [n] + Flat(n.children) + Flat(ns[1..]);
      UnwrapRegroup(n.children, t, base);
      UnwrapRegroup(ns[1..], inClip, base);
      var r := Regroup(ns, inClip, base);
      var u := Unwrap(r, base);
      assert r[1..] == Regroup(ns[1..], inClip, base);
      assert u[1..] == Unwrap(r[1..], base);
      UnwrapFirst(n, inClip, base);
      assert u == [u[0]] + u[1..];
      assert ns == [n] + ns[1..];
    }
  }

  /** One node: its own place, once its children are restored. */
  lemma UnwrapFirst(n: Node, inClip: bool, base: nat)
    requires n.uid < base
    requires Unwrap(Regroup(n.children, inClip || n.Is(EId.ClipPath), base), base) == n.children
    ensures UnwrapNode(RegroupNode(n, inClip, base), base) == n
  {
    if Wraps(n, inClip) {
      SplitAttrs(n.attrs);
    }
  }

  // ---- what is left for a second pass ----

  /** No node of the forest would be wrapped. */
  predicate Settled(ns: seq<Node>, inClip: bool)
    decreases ns
  {
    forall i :: 0 <= i < |ns| ==>
      !Wraps(ns[i], inClip) && Settled(ns[i].children, inClip || ns[i].Is(EId.ClipPath))
  }

  /**
   * After the pass nothing is left to wrap: each new group is a `g`, and
   * the element inside it has lost its opacity and clip path.
   */
  lemma {:induction false} RegroupSettles(ns: seq<Node>, inClip: bool, base: nat)
    ensures Settled(Regroup(ns, inClip, base), inClip)
  {
    var r := Regroup(ns, inClip, base);
    forall i | 0 <= i < |ns|
      ensures !Wraps(r[i], inClip) && Settled(r[i].children, inClip || r[i].Is(EId.ClipPath))
    {
      var n := ns[i];
      var t := inClip || n.Is(EId.ClipPath);
      RegroupSettles(n.children, t, base);
      var m := n.(children := Regroup(n.children, t, base));
      if Wraps(n, inClip) {
        var c := r[i].children[0];
        assert c == m.(attrs := m.attrs - GroupAttrs);
        assert !Wraps(c, inClip);
        assert Settled(r[i].children, inClip);
      }
    }
  }

  /** A forest with nothing to wrap is left as it is. */
  lemma {:induction false} SettledUnchanged(ns: seq<Node>, inClip: bool, base: nat)
    requires Settled(ns, inClip)
    ensures Regroup(ns, inClip, base) == ns
  {
    forall i | 0 <= i < |ns|
      ensures RegroupNode(ns[i], inClip, base) == ns[i]
    {
      SettledUnchanged(ns[i].children, inClip || ns[i].Is(EId.ClipPath), base);
    }
  }

  /** Running the pass twice gives what running it once does, whatever uids the second run would use. */
  lemma Idempotent(ns: seq<Node>, inClip: bool, base: nat, base2: nat)
    ensures Regroup(Regroup(ns, inClip, base), inClip, base2) == Regroup(ns, inClip, base)
  {
    RegroupSettles(ns, inClip, base);
    SettledUnchanged(Regroup(ns, inClip, base), inClip, base2);
  }

  /** Inside a `clipPath` nothing is wrapped, at any depth. */
  lemma {:induction false} InClipUnchanged(ns: seq<Node>, base: nat)
    ensures Regroup(ns, true, base) == ns
  {
    forall i | 0 <= i < |ns|
      ensures RegroupNode(ns[i], true, base) == ns[i]
    {
      InClipUnchanged(ns[i].children, base);
    }
  }

  /** A new group's uid is past every uid of the original forest. */
  lemma FreshGroup(ns: seq<Node>, n: Node, base: nat)
    requires forall m :: m in Flat(ns) ==> m.uid < base
    ensures forall m :: m in Flat(ns) ==> m.uid != Wrap(n, base).uid
  {
  }
}
