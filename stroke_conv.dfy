/**
 * `stroke` to the render tree's Stroke (section 11.4 of SVG 1.1): width,
 * miter limit, paint, line cap and join with their defaults, and the
 * stroke-dasharray rules.
 */
module StrokeConv {
  import opened Wrappers
  import opened SvgTypes
  import opened Dom
  import opened Traits
  import FillConv
  import T = TreeNode

  /** The sum of a list, adding from the front. */
  function Sum(list: seq<real>): real
  {
    if list == [] then 0.0 else Sum(list[..|list| - 1]) + list[|list| - 1]
  }

  predicate HasNegative(list: seq<real>)
  {
    exists i :: 0 <= i < |list| && list[i] < 0.0
  }

  /**
   * `conv_dasharray`: a NumberList with no negative entry and a non-zero sum,
   * doubled when its length is odd; anything else gives no dash array.
   */
  function Dasharray(av: Option<AValue>): (r: Option<seq<real>>)
    ensures r.Some? <==> av.Some? && av.value.NumberList? && !HasNegative(av.value.nums) && Sum(av.value.nums) != 0.0
    ensures r.Some? && |av.value.nums| % 2 == 1 ==> r.value == av.value.nums + av.value.nums
    ensures r.Some? && |av.value.nums| % 2 == 0 ==> r.value == av.value.nums
    ensures r.Some? ==> |r.value| % 2 == 0 && forall i :: 0 <= i < |r.value| ==> r.value[i] >= 0.0
  {
    if av.Some? && av.value.NumberList? then
      var list := av.value.nums;
      if HasNegative(list) then Option.None
      else if Sum(list) == 0.0 then Option.None
      else if |list| % 2 != 0 then Some(list + list)
      else Some(list)
    else Option.None
  }

  /** `conv_dasharray` as the source computes it, summing the list in a loop. */
  method ConvDasharray(av: Option<AValue>) returns (r: Option<seq<real>>)
    ensures r == Dasharray(av)
  {
    if av.Some? && av.value.NumberList? {
      var list := av.value.nums;
      if exists i :: 0 <= i < |list| && list[i] < 0.0 {
        return Option.None;
      }
      var sum := 0.0;
      for i := 0 to |list|
        invariant sum == Sum(list[..i])
      {
        assert list[..i + 1][..i] == list[..i];
        sum := sum + list[i];
      }
      assert list[..|list|] == list;
      if sum == 0.0 {
        return Option.None;
      }
      if |list| % 2 != 0 {
        var tmp := list;
        tmp := tmp + list;
        return Some(tmp);
      }
      return Some(list);
    }
    return Option.None;
  }

  function ConvertLineCap(kw: ValueId): (r: T.LineCap)
    ensures kw == ValueId.Round ==> r == T.CapRound
    ensures kw == ValueId.Square ==> r == T.CapSquare
    ensures kw != ValueId.Round && kw != ValueId.Square ==> r == T.CapButt
  {
    match kw
    case Butt => T.CapButt
    case Round => T.CapRound
    case Square => T.CapSquare
    case _ => T.CapButt
  }

  function ConvertLineJoin(kw: ValueId): (r: T.LineJoin)
    ensures kw == ValueId.Round ==> r == T.JoinRound
    ensures kw == ValueId.Bevel ==> r == T.JoinBevel
    ensures kw != ValueId.Round && kw != ValueId.Bevel ==> r == T.JoinMiter
  {
    match kw
    case Miter => T.JoinMiter
    case Round => T.JoinRound
    case Bevel => T.JoinBevel
    case _ => T.JoinMiter
  }

  /** The stroke width, 1 when not given as a number. */
  function Width(n: Node): real { NumberOr(n, AId.StrokeWidth, 1.0) }

  /** The paint of the `stroke` attribute, None when it is absent. */
  function StrokePaint(doc: Node, defsIds: seq<string>, n: Node): Option<T.Paint>
  {
    if AId.Stroke in n.attrs then FillConv.ConvertPaint(doc, defsIds, n.attrs[AId.Stroke]) else Option.None
  }

  /** `stroke::convert`. */
  function Convert(doc: Node, defsIds: seq<string>, n: Node): (r: Option<T.Stroke>)
    ensures r.Some? <==> Width(n) > 0.0 && StrokePaint(doc, defsIds, n).Some?
    ensures r.Some? ==> r.value.width == Width(n) > 0.0
    ensures r.Some? ==> r.value.paint == StrokePaint(doc, defsIds, n).value
    ensures r.Some? ==> r.value.miterlimit >= 1.0
    ensures r.Some? ==> var m := NumberOr(n, AId.StrokeMiterlimit, 4.0);
                        r.value.miterlimit == if m < 1.0 then 1.0 else m
    ensures r.Some? ==> r.value.opacity == NumberOr(n, AId.StrokeOpacity, 1.0)
    ensures r.Some? ==> r.value.dashoffset == NumberOr(n, AId.StrokeDashoffset, 0.0)
    ensures r.Some? ==> r.value.linecap == ConvertLineCap(GetPredef(n, AId.StrokeLinecap).UnwrapOr(ValueId.Butt))
    ensures r.Some? ==> r.value.linejoin == ConvertLineJoin(GetPredef(n, AId.StrokeLinejoin).UnwrapOr(ValueId.Miter))
    ensures r.Some? ==> r.value.dasharray == Dasharray(n.Get(AId.StrokeDasharray))
  {
    var dashoffset := NumberOr(n, AId.StrokeDashoffset, 0.0);
    var miterlimit := NumberOr(n, AId.StrokeMiterlimit, 4.0);
    var opacity := NumberOr(n, AId.StrokeOpacity, 1.0);
    var width := Width(n);
    if !(width > 0.0) then Option.None
    else
      var miterlimit := if miterlimit < 1.0 then 1.0 else miterlimit;
      var paint := StrokePaint(doc, defsIds, n);
      if paint.None? then Option.None
      else
        var linecap := ConvertLineCap(GetPredef(n, AId.StrokeLinecap).UnwrapOr(ValueId.Butt));
        var linejoin := ConvertLineJoin(GetPredef(n, AId.StrokeLinejoin).UnwrapOr(ValueId.Miter));
        Some(T.Stroke(paint.value, Dasharray(n.Get(AId.StrokeDasharray)), dashoffset, miterlimit,
                      opacity, width, linecap, linejoin))
  }

  /** A dash array that passes the checks is a fixed point: converting it again changes nothing. */
  lemma {:induction false} DasharrayIdempotent(list: seq<real>)
    requires Dasharray(Some(AValue.NumberList(list))).Some?
    ensures var d := Dasharray(Some(AValue.NumberList(list))).value;
            Dasharray(Some(AValue.NumberList(d))) == Some(d)
  {
    if |list| % 2 == 1 {
      SumAppend(list, list);
      assert !HasNegative(list + list) by {
        forall i | 0 <= i < |list + list| ensures (list + list)[i] >= 0.0 {
          if i >= |list| { assert (list + list)[i] == list[i - |list|]; }
        }
      }
      SumNonNegative(list);
    }
  }

  lemma {:induction false} SumAppend(a: seq<real>, b: seq<real>)
    ensures Sum(a + b) == Sum(a) + Sum(b)
  {
    if b != [] {
      assert (a + b)[..|a + b| - 1] == a + b[..|b| - 1];
      SumAppend(a, b[..|b| - 1]);
    } else {
      assert a + b == a;
    }
  }

  lemma {:induction false} SumNonNegative(a: seq<real>)
    requires !HasNegative(a)
    ensures Sum(a) >= 0.0
  {
    if a != [] {
      var init := a[..|a| - 1];
      assert !HasNegative(init) by {
        forall i | 0 <= i < |init| ensures init[i] >= 0.0 { assert init[i] == a[i]; }
      }
      SumNonNegative(init);
    }
  }
}
