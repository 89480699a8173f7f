/**
 * `mask::convert`: a `mask` with a positive size becomes a `Mask` node in
 * `Defs`; one without is skipped and the tree is left as it was.
 */
module MaskConv {
  import opened Wrappers
  import opened SvgTypes
  import opened Dom
  import opened Traits
  import T = TreeNode
  import R = RenderTree
  import CB = ConvertBase

  /** The `Mask` node of `n`: its id, both units and its rectangle. */
  function MaskOf(n: Node): T.Mask
  {
    T.Mask(n.id, CB.ElementUnits(n, AId.MaskUnits), CB.ElementUnits(n, AId.MaskContentUnits), CB.ConvertRect(n))
  }

  /** The size test of `convert`: width and height both positive. */
  predicate Sized(n: Node)
  {
    CB.ConvertRect(n).w > 0.0 && CB.ConvertRect(n).h > 0.0
  }

  /**
   * `convert`: the tree after the call and the new mask's id. A mask is
   * added, as the last child of `Defs`, exactly when its size is positive.
   */
  function Converted(a: R.Arena, n: Node): (r: (R.Arena, Option<R.NodeId>))
    requires R.Sound(a)
    ensures R.Sound(r.0) && R.Below(a, r.0, R.DefsOf(a))
    ensures r.1.Some? <==> NumberOr(n, AId.Width, 0.0) > 0.0 && NumberOr(n, AId.Height, 0.0) > 0.0
    ensures r.1.None? ==> r.0 == a
    ensures r.1.Some? ==> r.1.value == |a.kinds| && r.0.kinds == a.kinds + [T.MaskKind(MaskOf(n))]
                          && r.0.kids[R.DefsOf(a)] == a.kids[R.DefsOf(a)] + [|a.kinds|]
  {
    var defs := R.DefsOf(a);
    if Sized(n) then
      R.AppendedSound(a, defs, T.MaskKind(MaskOf(n)));
      R.AppendedBelow(a, defs, T.MaskKind(MaskOf(n)));
      var id: R.NodeId := |a.kinds|;
      (R.Appended(a, defs, T.MaskKind(MaskOf(n))), Some(id))
    else
      R.BelowRefl(a, defs);
      (a, Option.None)
  }

  /** A mask with no `width` or no `height` is always skipped: the default of 0 is not positive. */
  lemma UnsizedSkipped(a: R.Arena, n: Node)
    requires R.Sound(a) && (AId.Width !in n.attrs || AId.Height !in n.attrs)
    ensures Converted(a, n) == (a, Option.None)
  {
  }

  /** `convert` on the tree in place. */
  method Convert(t: R.Tree, n: Node) returns (m: Option<R.NodeId>)
    requires R.Sound(t.State())
    modifies t
    ensures (t.State(), m) == Converted(old(t.State()), n)
  {
    var rect := CB.ConvertRect(n);
    if !(rect.w > 0.0 && rect.h > 0.0) {
      return Option.None;
    }
    ghost var a := t.State();
    R.AppendedSound(a, R.DefsOf(a), T.MaskKind(MaskOf(n)));
    var id := t.AppendToDefs(T.MaskKind(MaskOf(n)));
    return Some(id);
  }
}
