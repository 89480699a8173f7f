/**
 * Typed attribute lookups: `FromValue`/`get_type` and its typed shorthands,
 * `get_viewbox`, `defs_element`, and the ancestor searches.
 */
module Traits {
  import opened Wrappers
  import opened SvgTypes
  import opened Dom
  import Geom

  /** The Rust type a lookup asks for; `KAny` is the `AValue` instance. */
  datatype ValueKind =
    | KColor | KNumber | KLength | KLengthList | KNumberList | KPath
    | KTransform | KViewBox | KPoints | KAspectRatio | KStr | KAny

  predicate Matches(v: AValue, k: ValueKind)
  {
    match k
    case KColor => v.Color?
    case KNumber => v.Number?
    case KLength => v.Length?
    case KLengthList => v.LengthList?
    case KNumberList => v.NumberList?
    case KPath => v.Path?
    case KTransform => v.Transform?
    case KViewBox => v.ViewBox?
    case KPoints => v.Points?
    case KAspectRatio => v.AspectRatio?
    case KStr => v.String?
    case KAny => true
  }

  /** `FromValue::get`: the value itself when it is of the asked-for variant. */
  function FromValue(v: AValue, k: ValueKind): (r: Option<AValue>)
    ensures r.Some? <==> Matches(v, k)
    ensures r.Some? ==> r.value == v
    ensures k == KAny ==> r == Some(v)
  {
    if Matches(v, k) then Some(v) else Option.None
  }

  /** `get_type`: None for an absent attribute and for a value of another variant. */
  function GetType(attrs: map<AId, AValue>, a: AId, k: ValueKind): (r: Option<AValue>)
    ensures r.Some? <==> a in attrs && Matches(attrs[a], k)
    ensures r.Some? ==> r.value == attrs[a]
  {
    if a in attrs then FromValue(attrs[a], k) else Option.None
  }

  function GetNumber(n: Node, a: AId): Option<real>
  {
    if a in n.attrs && n.attrs[a].Number? then Some(n.attrs[a].n) else Option.None
  }

  function NumberOr(n: Node, a: AId, default: real): real
  {
    GetNumber(n, a).UnwrapOr(default)
  }

  function GetLength(n: Node, a: AId): Option<Length>
  {
    if a in n.attrs && n.attrs[a].Length? then Some(n.attrs[a].len) else Option.None
  }

  function GetStr(n: Node, a: AId): Option<string>
  {
    if a in n.attrs && n.attrs[a].String? then Some(n.attrs[a].s) else Option.None
  }

  function GetColor(n: Node, a: AId): Option<Color>
  {
    if a in n.attrs && n.attrs[a].Color? then Some(n.attrs[a].color) else Option.None
  }

  function GetTransform(n: Node, a: AId): Option<Transform>
  {
    if a in n.attrs && n.attrs[a].Transform? then Some(n.attrs[a].ts) else Option.None
  }

  function GetNumberList(n: Node, a: AId): Option<seq<real>>
  {
    if a in n.attrs && n.attrs[a].NumberList? then Some(n.attrs[a].nums) else Option.None
  }

  function GetPath(n: Node, a: AId): Option<seq<PathSeg>>
  {
    if a in n.attrs && n.attrs[a].Path? then Some(n.attrs[a].segs) else Option.None
  }

  function GetPoints(n: Node, a: AId): Option<seq<(real, real)>>
  {
    if a in n.attrs && n.attrs[a].Points? then Some(n.attrs[a].pts) else Option.None
  }

  /** svgdom's `get_predef`: the keyword of a keyword-valued attribute. */
  function GetPredef(n: Node, a: AId): Option<ValueId>
  {
    if a in n.attrs && n.attrs[a].PredefValue? then Some(n.attrs[a].kw) else Option.None
  }

  lemma GetNumberIsGetType(n: Node, a: AId)
    ensures GetNumber(n, a).Some? <==> GetType(n.attrs, a, KNumber).Some?
    ensures GetNumber(n, a).Some? ==> GetType(n.attrs, a, KNumber) == Some(AValue.Number(GetNumber(n, a).value))
  {
  }

  /** `get_viewbox`: the viewBox rectangle, present exactly when a ViewBox value is. */
  function GetViewbox(n: Node): (r: Option<Geom.Rect>)
    ensures r.Some? <==> AId.ViewBox in n.attrs && n.attrs[AId.ViewBox].ViewBox?
    ensures r.Some? ==> var vb := n.attrs[AId.ViewBox].vb;
                        r.value == Geom.Rect(vb.x, vb.y, vb.w, vb.h)
  {
    match GetType(n.attrs, AId.ViewBox, KViewBox)
    case Some(v) => Some(Geom.Rect(v.vb.x, v.vb.y, v.vb.w, v.vb.h))
    case None => Option.None
  }

  /** svgdom's `svg_element`: the first child of the root that is an `svg` element. */
  function SvgElement(doc: Node): (r: Option<Node>)
    ensures r.Some? ==> r.value in doc.children && r.value.Is(EId.Svg)
    ensures r.Some? ==> exists i :: 0 <= i < |doc.children| && doc.children[i] == r.value
                                    && forall j :: 0 <= j < i ==> !doc.children[j].Is(EId.Svg)
    ensures r.None? ==> forall c :: c in doc.children ==> !c.Is(EId.Svg)
  {
    FirstSvg(doc.children)
  }

  function FirstSvg(ns: seq<Node>): (r: Option<Node>)
    ensures r.Some? ==> r.value in ns && r.value.Is(EId.Svg)
    ensures r.Some? ==> exists i :: 0 <= i < |ns| && ns[i] == r.value && forall j :: 0 <= j < i ==> !ns[j].Is(EId.Svg)
    ensures r.None? ==> forall c :: c in ns ==> !c.Is(EId.Svg)
  {
    if ns == [] then Option.None
    else if ns[0].Is(EId.Svg) then Some(ns[0])
    else
      var r := FirstSvg(ns[1..]);
      assert r.Some? ==> exists i :: 0 <= i < |ns| && ns[i] == r.value && forall j :: 0 <= j < i ==> !ns[j].Is(EId.Svg) by {
        if r.Some? {
          var i :| 0 <= i < |ns[1..]| && ns[1..][i] == r.value && forall j :: 0 <= j < i ==> !ns[1..][j].Is(EId.Svg);
          assert ns[i + 1] == r.value && forall j :: 0 <= j < i + 1 ==> !ns[j].Is(EId.Svg);
        }
      }
      r
  }

  /** `defs_element`: the svg element's first child, if that child is a `defs`. */
  function DefsElement(doc: Node): (r: Option<Node>)
    ensures r.Some? <==> SvgElement(doc).Some? && |SvgElement(doc).value.children| > 0
                         && SvgElement(doc).value.children[0].Is(EId.Defs)
    ensures r.Some? ==> r.value == SvgElement(doc).value.children[0]
  {
    match SvgElement(doc)
    case None => Option.None
    case Some(svg) =>
      if |svg.children| > 0 && svg.children[0].Is(EId.Defs) then Some(svg.children[0])
      else Option.None
  }

  /** The position of the first node of the chain that has the attribute. */
  function FirstHaving(chain: seq<Node>, a: AId): (r: Option<nat>)
    ensures r.Some? ==> r.value < |chain| && a in chain[r.value].attrs
                        && forall j :: 0 <= j < r.value ==> a !in chain[j].attrs
    ensures r.None? ==> forall j :: 0 <= j < |chain| ==> a !in chain[j].attrs
  {
    if chain == [] then Option.None
    else if a in chain[0].attrs then Some(0)
    else
      var rest := FirstHaving(chain[1..], a);
      if rest.Some? then Some(rest.value + 1) else Option.None
  }

  /** The first-having position is the one before which no node has the attribute. */
  lemma {:induction false} FirstHavingAt(chain: seq<Node>, a: AId, i: nat)
    requires i < |chain| && a in chain[i].attrs
    requires forall j :: 0 <= j < i ==> a !in chain[j].attrs
    ensures FirstHaving(chain, a) == Some(i)
  {
    if i > 0 {
      assert a !in chain[0].attrs;
      FirstHavingAt(chain[1..], a, i - 1);
    }
  }

  /**
   * `find_attribute_with_node` over the node's ancestors-or-self `chain`
   * (nearest first): the first node that has the attribute decides; a value
   * of the wrong variant there gives None without looking further.
   */
  function FindAttributeWithNode(chain: seq<Node>, a: AId, k: ValueKind): (r: Option<(Node, AValue)>)
    ensures r.Some? ==> Matches(r.value.1, k) && a in r.value.0.attrs && r.value.1 == r.value.0.attrs[a]
  {
    if chain == [] then Option.None
    else if a in chain[0].attrs then
      var v := FromValue(chain[0].attrs[a], k);
      if v.Some? then Some((chain[0], v.value)) else Option.None
    else FindAttributeWithNode(chain[1..], a, k)
  }

  /** `find_attribute`: the value part of `find_attribute_with_node`. */
  function FindAttribute(chain: seq<Node>, a: AId, k: ValueKind): (r: Option<AValue>)
    ensures r.Some? ==> Matches(r.value, k)
  {
    match FindAttributeWithNode(chain, a, k)
    case Some(p) => Some(p.1)
    case None => Option.None
  }

  /** `find_node_with_attribute`: the nearest node of the chain that has the attribute. */
  function FindNodeWithAttribute(chain: seq<Node>, a: AId): (r: Option<Node>)
    ensures r.Some? ==> r.value in chain && a in r.value.attrs
    ensures r.None? ==> forall j :: 0 <= j < |chain| ==> a !in chain[j].attrs
  {
    if chain == [] then Option.None
    else if a in chain[0].attrs then Some(chain[0])
    else FindNodeWithAttribute(chain[1..], a)
  }

  /** The search answers from the first node having the attribute, and only when its value matches. */
  lemma {:induction false} FindAttributeWithNodeIsFirst(chain: seq<Node>, a: AId, k: ValueKind, i: nat)
    requires FirstHaving(chain, a) == Some(i)
    ensures FindAttributeWithNode(chain, a, k).Some? <==> Matches(chain[i].attrs[a], k)
    ensures FindAttributeWithNode(chain, a, k).Some?
            ==> FindAttributeWithNode(chain, a, k).value == (chain[i], chain[i].attrs[a])
  {
    if a in chain[0].attrs {
      assert i == 0;
    } else {
      FindAttributeWithNodeIsFirst(chain[1..], a, k, i - 1);
    }
  }

  /** With no node having the attribute there is nothing to find. */
  lemma {:induction false} FindAttributeWithNodeNone(chain: seq<Node>, a: AId, k: ValueKind)
    requires FirstHaving(chain, a).None?
    ensures FindAttributeWithNode(chain, a, k).None?
    ensures FindNodeWithAttribute(chain, a).None?
  {
    if chain != [] {
      FindAttributeWithNodeNone(chain[1..], a, k);
    }
  }

  /** `find_node_with_attribute` finds the same node as the first-having search. */
  lemma {:induction false} FindNodeWithAttributeIsFirst(chain: seq<Node>, a: AId, i: nat)
    requires FirstHaving(chain, a) == Some(i)
    ensures FindNodeWithAttribute(chain, a) == Some(chain[i])
  {
    if a !in chain[0].attrs {
      FindNodeWithAttributeIsFirst(chain[1..], a, i - 1);
    }
  }

  /** A wrong-variant value at the nearest node hides matching values further up. */
  lemma {:induction false} FindAttributeStopsAtMismatch(chain: seq<Node>, a: AId, k: ValueKind, i: nat)
    requires i < |chain| && a in chain[i].attrs && !Matches(chain[i].attrs[a], k)
    requires forall j :: 0 <= j < i ==> a !in chain[j].attrs
    ensures FindAttributeWithNode(chain, a, k).None?
  {
    FirstHavingAt(chain, a, i);
    FindAttributeWithNodeIsFirst(chain, a, k, i);
  }
}
