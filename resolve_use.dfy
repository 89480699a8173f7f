/**
 * `use` expansion, the parts that are decided for one `use` at a time:
 * `prepare_use`'s defaults, the tests that skip or reject a `use`, the
 * attributes the copy takes from it, `get_clip_rect`, `gen_clip_path_id`
 * and `prepare_viewbox`. The sweep loop is in `ResolveUseLoop`.
 */
module ResolveUse {
  import opened Wrappers
  import opened SvgTypes
  import opened Dom
  import opened Traits
  import Geom
  import UngroupGroups

  // ---- prepare_use ----

  const FullSize: AValue := AValue.Length(Len(100.0, Percent))

  /** The four defaults `prepare_use` gives a `use` element. */
  const UseDefaultAttrs: map<AId, AValue> :=
    map[AId.X := AValue.Number(0.0), AId.Y := AValue.Number(0.0), AId.Width := FullSize, AId.Height := FullSize]

  /** The four `set_attribute_if_none` calls on one node. */
  function UseDefaults(n: Node): (r: Node)
    ensures r.uid == n.uid && r.kind == n.kind && r.id == n.id && r.children == n.children
    ensures n.Is(EId.Use) ==> r.attrs == UseDefaultAttrs + n.attrs
    ensures !n.Is(EId.Use) ==> r == n
  {
    if n.Is(EId.Use) then
      var r := n.SetIfNone(AId.X, AValue.Number(0.0)).SetIfNone(AId.Y, AValue.Number(0.0))
                .SetIfNone(AId.Width, FullSize).SetIfNone(AId.Height, FullSize);
      DefaultsMerge(n.attrs);
      r
    else n
  }

  /** Four merges under the node's own attributes are one merge of the four defaults. */
  lemma DefaultsMerge(attrs: map<AId, AValue>)
    ensures var n1 := if AId.X in attrs then attrs else attrs[AId.X := AValue.Number(0.0)];
            var n2 := if AId.Y in n1 then n1 else n1[AId.Y := AValue.Number(0.0)];
            var n3 := if AId.Width in n2 then n2 else n2[AId.Width := FullSize];
            var n4 := if AId.Height in n3 then n3 else n3[AId.Height := FullSize];
            n4 == UseDefaultAttrs + attrs
  {
  }

  /** `prepare_use` over the whole document. */
  function PrepareUse(doc: Node): Node
  {
    MapDoc(doc, UseDefaults)
  }

  /**
   * After `prepare_use`, node by node in document order: every `use` keeps
   * each attribute it had and gains x=0, y=0, width=100% and height=100%
   * exactly where it had none; every other node is as it was.
   */
  lemma PrepareUseEffect(doc: Node)
    ensures |Descendants(PrepareUse(doc))| == |Descendants(doc)|
    ensures forall k :: 0 <= k < |Descendants(doc)| ==>
              var m := Descendants(PrepareUse(doc))[k];
              var o := Descendants(doc)[k];
              m.uid == o.uid && m.kind == o.kind && m.id == o.id
              && (o.Is(EId.Use) ==> m.attrs == UseDefaultAttrs + o.attrs)
              && (!o.Is(EId.Use) ==> m.attrs == o.attrs)
  {
    MapDocFlat(doc, UseDefaults);
  }

  /** A second `prepare_use` adds nothing. */
  lemma UseDefaultsIdempotent(n: Node)
    ensures UseDefaults(UseDefaults(n)) == UseDefaults(n)
  {
    if n.Is(EId.Use) {
      var m := UseDefaults(n);
      assert UseDefaultAttrs + (UseDefaultAttrs + n.attrs) == UseDefaultAttrs + n.attrs;
      assert m.(attrs := m.attrs) == m;
    }
  }

  // ---- which `use` is skipped, rejected or expanded ----

  /** The `use`'s xlink:href when it is a Link value. */
  function HrefLink(n: Node): Option<UId>
  {
    if AId.Href in n.attrs && n.attrs[AId.Href].Link? then Some(n.attrs[AId.Href].target) else Option.None
  }

  /** A `use` whose href links to the node `u`. */
  predicate LinksBack(m: Node, u: UId)
  {
    m.Is(EId.Use) && HrefLink(m) == Some(u)
  }

  /** Some `use` strictly below the target links back to the `use` being expanded. */
  predicate IsRecursive(target: Node, u: UId)
  {
    exists m :: m in Flat(target.children) && LinksBack(m, u)
  }

  /**
   * The loop over `link.descendants().skip(1)` that stops at the first `use`
   * linking back.
   */
  method CheckRecursive(target: Node, u: UId) returns (b: bool)
    ensures b <==> IsRecursive(target, u)
  {
    var ns := Flat(target.children);
    var i := 0;
    while i < |ns|
      invariant 0 <= i <= |ns|
      invariant forall k :: 0 <= k < i ==> !LinksBack(ns[k], u)
    {
      if LinksBack(ns[i], u) {
        assert ns[i] in ns;
        return true;
      }
      i := i + 1;
    }
    b := false;
  }

  /** What one sweep does with a `use`. */
  datatype Verdict =
    | Skip             // no Link href, a link to another `use`, or (never in svgdom) a dangling link
    | Reject           // linked to an `svg`, or recursive: removed after the sweep
    | Expand(target: Node)

  /** The loop body's tests, in the source's order, against the document as it stands. */
  function Classify(doc: Node, n: Node): (r: Verdict)
    ensures r.Expand? ==> HrefLink(n).Some? && Find([doc], HrefLink(n).value) == Some(r.target)
  {
    match HrefLink(n)
    case None => Skip
    case Some(l) =>
      match Find([doc], l)
      case None => Skip
      case Some(t) =>
        if t.Is(EId.Use) then Skip
        else if t.Is(EId.Svg) then Reject
        else if IsRecursive(t, n.uid) then Reject
        else Expand(t)
  }

  /**
   * A `use` is expanded exactly when its href is a Link to a node that is
   * neither a `use` nor an `svg`, and no `use` below that node links back.
   */
  lemma ExpandIff(doc: Node, n: Node)
    ensures Classify(doc, n).Expand?
            <==> HrefLink(n).Some? && Find([doc], HrefLink(n).value).Some?
                 && var t := Find([doc], HrefLink(n).value).value;
                    !t.Is(EId.Use) && !t.Is(EId.Svg) && !IsRecursive(t, n.uid)
  {
  }

  /**
   * A `use` is rejected exactly when it links to an `svg`, or to a node that
   * is not a `use` and has a `use` below it linking back.
   */
  lemma RejectIff(doc: Node, n: Node)
    ensures Classify(doc, n) == Reject
            <==> HrefLink(n).Some? && Find([doc], HrefLink(n).value).Some?
                 && var t := Find([doc], HrefLink(n).value).value;
                    t.Is(EId.Svg) || (!t.Is(EId.Use) && IsRecursive(t, n.uid))
  {
  }

  /** A `use` linking to a `use` waits: it is neither expanded nor removed in this sweep. */
  lemma UseToUseSkipped(doc: Node, n: Node)
    requires HrefLink(n).Some? && Find([doc], HrefLink(n).value).Some?
    requires Find([doc], HrefLink(n).value).value.Is(EId.Use)
    ensures Classify(doc, n) == Skip
  {
  }

  /**
   * The example the source names: `g1` holds a `use` linking to `use1`, and
   * `use1` links to `g1`; `use1` is rejected.
   */
  lemma BackLinkRejected(doc: Node, use1: Node, g1: Node, use2: Node)
    requires HrefLink(use1) == Some(g1.uid) && Find([doc], g1.uid) == Some(g1)
    requires g1.Is(EId.G) && use2 in g1.children && use2.Is(EId.Use) && HrefLink(use2) == Some(use1.uid)
    ensures Classify(doc, use1) == Reject
  {
    FlatContains(g1.children, IndexOf(g1.children, use2));
  }

  function IndexOf(ns: seq<Node>, n: Node): (k: nat)
    requires n in ns
    ensures k < |ns| && ns[k] == n
  {
    if ns[0] == n then 0 else 1 + IndexOf(ns[1..], n)
  }

  // ---- the attributes of the `use` that reach the copy ----

  /**
   * The `use`'s attributes as `_resolve_use` leaves them before copying:
   * no href; a non-zero x or y folded into the transform as a translate
   * appended to it (or to the identity); no x, y, width or height.
   */
  function PreparedUseAttrs(u: Node): (r: map<AId, AValue>)
    ensures AId.Href !in r && AId.X !in r && AId.Y !in r && AId.Width !in r && AId.Height !in r
    ensures forall a :: a in r <==> ((a in u.attrs && a !in {AId.Href, AId.X, AId.Y, AId.Width, AId.Height})
                                    || (a == AId.Transform && Shifted(u)))
  {
    FoldShift(u.attrs, Shifted(u), ShiftedTransform(u))
  }

  /** Drop href, set the transform to `t` when `shifted`, drop x, y, width and height. */
  function FoldShift(attrs: map<AId, AValue>, shifted: bool, t: Transform): (r: map<AId, AValue>)
    ensures forall a :: a in r <==> ((a in attrs && a !in {AId.Href, AId.X, AId.Y, AId.Width, AId.Height})
                                    || (a == AId.Transform && shifted))
    ensures shifted ==> r[AId.Transform] == AValue.Transform(t)
    ensures forall a :: a in r && (a != AId.Transform || !shifted) ==> r[a] == attrs[a]
  {
    var base := attrs - {AId.Href};
    var folded := if shifted then base[AId.Transform := AValue.Transform(t)] else base;
    folded - {AId.X, AId.Y, AId.Width, AId.Height}
  }

  /** x or y, read as Numbers with 0 for anything else, is non-zero. */
  predicate Shifted(u: Node)
  {
    !(NumberOr(u, AId.X, 0.0) == 0.0 && NumberOr(u, AId.Y, 0.0) == 0.0)
  }

  /** The `use`'s transform (identity unless it holds a Transform) followed by translate(x, y). */
  function ShiftedTransform(u: Node): Transform
  {
    var ts := match GetTransform(u, AId.Transform) case Some(t) => t case None => Identity;
    ts.Translate(NumberOr(u, AId.X, 0.0), NumberOr(u, AId.Y, 0.0))
  }

  /**
   * The translate the source promises: with x or y non-zero the transform
   * that reaches the copy is the `use`'s own followed by translate(x, y).
   */
  lemma TranslateFolded(u: Node)
    requires Shifted(u)
    ensures PreparedUseAttrs(u)[AId.Transform] == AValue.Transform(ShiftedTransform(u))
  {
  }

  /** With x and y both zero the `use`'s transform, present or not, is passed on untouched. */
  lemma TransformUntouched(u: Node)
    requires !Shifted(u)
    ensures AId.Transform in PreparedUseAttrs(u) <==> AId.Transform in u.attrs
    ensures AId.Transform in u.attrs ==> PreparedUseAttrs(u)[AId.Transform] == u.attrs[AId.Transform]
  {
  }

  /** Every other attribute of the `use` that is kept keeps its value. */
  lemma PreparedKept(u: Node)
    ensures forall a :: a in PreparedUseAttrs(u) && a != AId.Transform ==> PreparedUseAttrs(u)[a] == u.attrs[a]
  {
  }

  /**
   * The copy's attributes once every SVG attribute of the `use` has been
   * passed to it: the rule a group's attributes follow onto a child
   * (`prepare_attribute`, then `set_attribute_if_none`), except that a
   * font-size the copy only inherited, marked by resolved-font-size, is
   * overwritten too.
   */
  function MergedAttrs(ua: map<AId, AValue>, c: map<AId, AValue>): map<AId, AValue>
  {
    var p := UngroupGroups.PushedAttrs(ua, c);
    if AId.FontSize in ua && AId.FontSize in c && ResolvedFontSize in c then p[AId.FontSize := ua[AId.FontSize]] else p
  }

  /** The copy ends with its own attributes and the `use`'s SVG attributes, and no others. */
  lemma MergedKeys(ua: map<AId, AValue>, c: map<AId, AValue>)
    ensures forall a :: a in MergedAttrs(ua, c) <==> a in c || (a in ua && IsSvgAttr(a))
  {
    UngroupGroups.PushedKeys(ua, c);
    MergedVsPushed(ua, c, UngroupGroups.PushedAttrs(ua, c), MergedAttrs(ua, c));
  }

  /** An SVG attribute of the `use` the copy lacks is set as it is. */
  lemma MergedGained(ua: map<AId, AValue>, c: map<AId, AValue>)
    ensures forall a :: a in ua && IsSvgAttr(a) && a !in c ==> MergedAttrs(ua, c)[a] == ua[a]
  {
    UngroupGroups.PushedKeys(ua, c);
    UngroupGroups.PushedGained(ua, c);
    MergedVsPushed(ua, c, UngroupGroups.PushedAttrs(ua, c), MergedAttrs(ua, c));
  }

  /** Any attribute of the copy other than opacity, transform, display and font-size is never replaced. */
  lemma MergedKept(ua: map<AId, AValue>, c: map<AId, AValue>)
    ensures forall a :: a in c && a !in {AId.Opacity, AId.Transform, AId.Display, AId.FontSize} ==>
              MergedAttrs(ua, c)[a] == c[a]
  {
    UngroupGroups.PushedKeys(ua, c);
    UngroupGroups.PushedKept(ua, c);
    MergedVsPushed(ua, c, UngroupGroups.PushedAttrs(ua, c), MergedAttrs(ua, c));
  }

  /** Group opacity multiplies into the copy's. */
  lemma MergedOpacity(ua: map<AId, AValue>, c: map<AId, AValue>)
    requires AId.Opacity in ua && AId.Opacity in c
    ensures MergedAttrs(ua, c)[AId.Opacity]
            == AValue.Number(UngroupGroups.Times(UngroupGroups.OpacityOf(ua[AId.Opacity]), UngroupGroups.OpacityOf(c[AId.Opacity])))
  {
    UngroupGroups.PushedKeys(ua, c);
    UngroupGroups.PushedOpacity(ua, c);
    MergedVsPushed(ua, c, UngroupGroups.PushedAttrs(ua, c), MergedAttrs(ua, c));
  }

  /** The `use`'s transform is applied first, then the copy's own. */
  lemma MergedTransform(ua: map<AId, AValue>, c: map<AId, AValue>)
    requires AId.Transform in ua && AId.Transform in c
    ensures MergedAttrs(ua, c)[AId.Transform]
            == AValue.Transform(UngroupGroups.Compose(UngroupGroups.TransformOf(ua[AId.Transform]),
                                                      UngroupGroups.TransformOf(c[AId.Transform])))
  {
    UngroupGroups.PushedKeys(ua, c);
    UngroupGroups.PushedTransform(ua, c);
    MergedVsPushed(ua, c, UngroupGroups.PushedAttrs(ua, c), MergedAttrs(ua, c));
  }

  /** The `use`'s display overwrites the copy's. */
  lemma MergedDisplay(ua: map<AId, AValue>, c: map<AId, AValue>)
    requires AId.Display in ua
    ensures MergedAttrs(ua, c)[AId.Display] == ua[AId.Display]
  {
    UngroupGroups.PushedKeys(ua, c);
    UngroupGroups.PushedDisplay(ua, c);
    MergedVsPushed(ua, c, UngroupGroups.PushedAttrs(ua, c), MergedAttrs(ua, c));
  }

  /** The copy's font-size is overwritten only when it was itself inherited. */
  lemma MergedFontSize(ua: map<AId, AValue>, c: map<AId, AValue>)
    requires AId.FontSize in c
    ensures MergedAttrs(ua, c)[AId.FontSize]
            == if AId.FontSize in ua && ResolvedFontSize in c then ua[AId.FontSize] else c[AId.FontSize]
  {
    UngroupGroups.PushedKeys(ua, c);
    UngroupGroups.PushedKept(ua, c);
    MergedVsPushed(ua, c, UngroupGroups.PushedAttrs(ua, c), MergedAttrs(ua, c));
  }

  /** The merge differs from the group rule at most in font-size. */
  lemma MergedVsPushed(ua: map<AId, AValue>, c: map<AId, AValue>, p: map<AId, AValue>, m: map<AId, AValue>)
    requires p == UngroupGroups.PushedAttrs(ua, c) && m == MergedAttrs(ua, c)
    ensures m.Keys == p.Keys
    ensures forall a :: a in m && a != AId.FontSize ==> m[a] == p[a]
    ensures AId.FontSize in ua && AId.FontSize in c && ResolvedFontSize in c ==> m[AId.FontSize] == ua[AId.FontSize]
    ensures !(AId.FontSize in ua && AId.FontSize in c && ResolvedFontSize in c) ==> m == p
  {
    if AId.FontSize in ua && AId.FontSize in c && ResolvedFontSize in c {
      assert AId.FontSize in p by { UngroupGroups.PushedKeys(ua, c); }
    }
  }

  // ---- get_clip_rect, gen_clip_path_id, prepare_viewbox ----

  /**
   * `get_clip_rect`: the `use`'s x, y, width and height as Numbers, unless
   * one is missing, the svg element's width or height is not a Number, or
   * width and height equal the image size.
   */
  function ClipRect(doc: Node, u: Node): (r: Option<Geom.Rect>)
    ensures r.Some? ==> GetNumber(u, AId.X).Some? && GetNumber(u, AId.Y).Some?
                        && GetNumber(u, AId.Width).Some? && GetNumber(u, AId.Height).Some?
    ensures r.Some? ==> r.value == Geom.Rect(GetNumber(u, AId.X).value, GetNumber(u, AId.Y).value,
                                             GetNumber(u, AId.Width).value, GetNumber(u, AId.Height).value)
  {
    match (GetNumber(u, AId.X), GetNumber(u, AId.Y), GetNumber(u, AId.Width), GetNumber(u, AId.Height))
    case (Some(x), Some(y), Some(w), Some(h)) =>
      (match SvgElement(doc)
       case None => Option.None
       case Some(svg) =>
         match (GetNumber(svg, AId.Width), GetNumber(svg, AId.Height))
         case (Some(sw), Some(sh)) => if w == sw && h == sh then Option.None else Some(Geom.Rect(x, y, w, h))
         case _ => Option.None)
    case _ => Option.None
  }

  /** With the four Numbers and the image size, the clip is skipped exactly when it covers the image. */
  lemma ClipRectFullSize(doc: Node, u: Node)
    requires GetNumber(u, AId.X).Some? && GetNumber(u, AId.Y).Some?
    requires GetNumber(u, AId.Width).Some? && GetNumber(u, AId.Height).Some?
    requires SvgElement(doc).Some?
    requires GetNumber(SvgElement(doc).value, AId.Width).Some? && GetNumber(SvgElement(doc).value, AId.Height).Some?
    ensures ClipRect(doc, u).None?
            <==> GetNumber(u, AId.Width) == GetNumber(SvgElement(doc).value, AId.Width)
                 && GetNumber(u, AId.Height) == GetNumber(SvgElement(doc).value, AId.Height)
  {
  }

  /** `format!("{}", k)`: the decimal digits of k. */
  function Decimal(k: nat): (s: string)
    ensures |s| >= 1
    ensures k < 10 <==> |s| == 1
  {
    if k < 10 then [Digit(k)] else Decimal(k / 10) + [Digit(k % 10)]
  }

  function Digit(d: nat): char
    requires d < 10
  {
    "0123456789"[d]
  }

  /** Distinct numbers have distinct decimal forms. */
  lemma {:induction false} DecimalInjective(a: nat, b: nat)
    requires Decimal(a) == Decimal(b)
    ensures a == b
    decreases a
  {
    if a >= 10 {
      assert b >= 10;
      var sa := Decimal(a / 10);
      var sb := Decimal(b / 10);
      assert Decimal(a) == sa + [Digit(a % 10)];
      assert Decimal(b) == sb + [Digit(b % 10)];
      assert Decimal(a)[..|Decimal(a)| - 1] == sa;
      assert Decimal(b)[..|Decimal(b)| - 1] == sb;
      DecimalInjective(a / 10, b / 10);
      assert Digit(a % 10) == Digit(b % 10);
    } else {
      assert b < 10;
    }
  }

  /** The id `gen_clip_path_id` tries for counter value k. */
  function ClipId(k: nat): string
  {
    "clipPath" + Decimal(k)
  }

  lemma ClipIdInjective(a: nat, b: nat)
    requires ClipId(a) == ClipId(b)
    ensures a == b
  {
    assert Decimal(a) == ClipId(a)[8..];
    assert Decimal(b) == ClipId(b)[8..];
    DecimalInjective(a, b);
  }

  /** The ids of every node of the document, root included. */
  function Ids(doc: Node): set<string>
  {
    set n | n in Descendants(doc) :: n.id
  }

  /**
   * The first counter value from k whose id is not in `ids`. Each taken id
   * is removed as it is passed: no later counter value can produce it again.
   */
  function FreeIndex(ids: set<string>, k: nat): nat
    decreases |ids|
  {
    if ClipId(k) in ids then FreeIndex(ids - {ClipId(k)}, k + 1) else k
  }

  /**
   * FreeIndex is the least counter value from k whose id nobody uses: at or
   * after k, free, and with every value between k and it taken.
   */
  lemma {:induction false} FreeIndexLeast(ids: set<string>, k: nat)
    ensures FreeIndex(ids, k) >= k
    ensures ClipId(FreeIndex(ids, k)) !in ids
    ensures forall j :: k <= j < FreeIndex(ids, k) ==> ClipId(j) in ids
    decreases |ids|
  {
    if ClipId(k) in ids {
      var rest := ids - {ClipId(k)};
      FreeIndexLeast(rest, k + 1);
      var r := FreeIndex(rest, k + 1);
      if ClipId(r) == ClipId(k) {
        ClipIdInjective(r, k);
        assert false;
      }
    }
  }

  /**
   * `gen_clip_path_id`: the counter is raised until its id is used by no
   * node; the counter is kept for the next call.
   */
  method GenClipPathId(doc: Node, idx: nat) returns (id: string, next: nat)
    ensures next == FreeIndex(Ids(doc), idx) && id == ClipId(next)
    ensures next >= idx
    ensures forall n :: n in Descendants(doc) ==> n.id != id
  {
    var ids := Ids(doc);
    ghost var rest := ids;
    next := idx;
    id := ClipId(next);
    while id in ids
      invariant id == ClipId(next) && next >= idx
      invariant rest <= ids
      invariant FreeIndex(rest, next) == FreeIndex(ids, idx)
      invariant forall j :: j >= next && ClipId(j) in ids ==> ClipId(j) in rest
      decreases |rest|
    {
      FreeIndexStep(ids, rest, next);
      assert FreeIndex(rest, next) == FreeIndex(rest - {ClipId(next)}, next + 1);
      rest := rest - {ClipId(next)};
      next := next + 1;
      id := ClipId(next);
    }
    assert ClipId(next) !in rest;
  }

  /** One step of the search: the taken id leaves `rest`, and no later counter value needs it. */
  lemma FreeIndexStep(ids: set<string>, rest: set<string>, k: nat)
    requires forall j :: j >= k && ClipId(j) in ids ==> ClipId(j) in rest
    requires ClipId(k) in ids
    ensures ClipId(k) in rest
    ensures forall j :: j >= k + 1 && ClipId(j) in ids ==> ClipId(j) in rest - {ClipId(k)}
  {
    forall j | j >= k + 1 && ClipId(j) in ids
      ensures ClipId(j) in rest - {ClipId(k)}
    {
      if ClipId(j) == ClipId(k) { ClipIdInjective(j, k); }
    }
  }

  /** The default `preserveAspectRatio`: xMidYMid meet, no defer. */
  const DefaultAspect: AspectRatio := AspectRatio.AspectRatio(false, XMidYMid, false)

  /**
   * `prepare_viewbox`: the transform the symbol's viewBox asks for at the
   * `use`'s width and height, when both are Numbers and the symbol's viewBox
   * is a ViewBox value. `fit` stands for `view_box_to_transform`.
   */
  function ViewBoxTransform(u: Node, symbol: Node, fit: (Geom.Rect, AspectRatio, real, real) -> Transform): (r: Option<Transform>)
    ensures r.Some? <==> GetNumber(u, AId.Width).Some? && GetNumber(u, AId.Height).Some? && GetViewbox(symbol).Some?
  {
    match (GetNumber(u, AId.Width), GetNumber(u, AId.Height), GetViewbox(symbol))
    case (Some(w), Some(h), Some(vb)) =>
      var aspect := if AId.PreserveAspectRatio in symbol.attrs && symbol.attrs[AId.PreserveAspectRatio].AspectRatio?
                    then symbol.attrs[AId.PreserveAspectRatio].ar else DefaultAspect;
      Some(fit(vb, aspect, w, h))
    case _ => Option.None
  }
}
