/**
 * `resolve_font_size`: every element reachable from the root through
 * elements gets a Length `font-size` (CSS 2, section 15.7). A missing size
 * inherits the parent's, a percentage or a named size is resolved against the
 * parent, and nodes that had no size of their own are marked with
 * `resolved-font-size`. Parents are resolved before their children.
 */
module ResolveFontSize {
  import opened Wrappers
  import opened SvgTypes
  import opened Dom
  import ConvUnits

  const DefaultFontSize: real := 12.0

  /** `Length::new_number(DEFAULT_FONT_SIZE)`. */
  const DefaultLength: Length := Len(DefaultFontSize, NoUnit)

  function Pow(b: real, e: nat): (r: real)
    ensures b > 0.0 ==> r > 0.0
  {
    if e == 0 then 1.0 else b * Pow(b, e - 1)
  }

  /** `powi`: an integer power, negative exponents giving the reciprocal. */
  function PowI(b: real, e: int): (r: real)
    requires b > 0.0
    ensures r > 0.0
    ensures e >= 0 ==> r == Pow(b, e)
    ensures e < 0 ==> r * Pow(b, -e) == 1.0
  {
    if e >= 0 then Pow(b, e) else 1.0 / Pow(b, -e)
  }

  /** The scaling step of the named sizes, medium being 0. */
  function NamedFactor(name: string): (r: int)
    ensures -3 <= r <= 3
    ensures name == "xx-small" ==> r == -3
    ensures name == "x-small" ==> r == -2
    ensures name == "small" || name == "smaller" ==> r == -1
    ensures name == "medium" ==> r == 0
    ensures name == "large" || name == "larger" ==> r == 1
    ensures name == "x-large" ==> r == 2
    ensures name == "xx-large" ==> r == 3
    ensures !(name in {"xx-small", "x-small", "small", "medium", "large", "x-large", "xx-large", "smaller", "larger"})
            ==> r == 0
  {
    match name
    case "xx-small" => -3
    case "x-small" => -2
    case "small" => -1
    case "medium" => 0
    case "large" => 1
    case "x-large" => 2
    case "xx-large" => 3
    case "smaller" => -1
    case "larger" => 1
    case _ => 0
  }

  /** Each step between adjacent named sizes scales by 1.2. */
  lemma NamedSizesStep()
    ensures PowI(1.2, NamedFactor("large")) == 1.2 * PowI(1.2, NamedFactor("medium"))
    ensures PowI(1.2, NamedFactor("xx-large")) == 1.2 * PowI(1.2, NamedFactor("x-large"))
    ensures PowI(1.2, NamedFactor("small")) * 1.2 == PowI(1.2, NamedFactor("medium"))
    ensures PowI(1.2, NamedFactor("xx-small")) * 1.2 == PowI(1.2, NamedFactor("x-small"))
  {
    assert Pow(1.2, 3) == 1.2 * Pow(1.2, 2);
    assert Pow(1.2, 2) == 1.2 * Pow(1.2, 1);
  }

  /**
   * `process_percent_font_size` as written: 12 below the root, otherwise the
   * percentage of the parent's number, as a plain number; the parent's unit is
   * dropped. `parent` is None when the parent is the root.
   */
  function PercentFontSizeAsWritten(parent: Option<Length>, len: Length): (r: Length)
    ensures parent.None? ==> r == DefaultLength
    ensures parent.Some? ==> r == Len(len.num * parent.value.num * 0.01, NoUnit)
  {
    if parent.None? then DefaultLength else Len(len.num * parent.value.num * 0.01, NoUnit)
  }

  /** `process_named_font_size` as written: the parent's number (12 at the root) times 1.2^factor. */
  function NamedFontSizeAsWritten(parent: Option<Length>, name: string): (r: Length)
    ensures r == Len(parent.UnwrapOr(DefaultLength).num * PowI(1.2, NamedFactor(name)), NoUnit)
  {
    Len(parent.UnwrapOr(DefaultLength).num * PowI(1.2, NamedFactor(name)), NoUnit)
  }

  /**
   * A percentage of a parent given in em: the library resolves 150% under a
   * 2em parent (itself under a 12 root) to 3 user units, where the parent's
   * size is 24 and 150% of it is 36.
   */
  lemma PercentDropsParentUnit()
    ensures var parent := Len(2.0, Em);
            var parentSize := ConvUnits.Convert(parent, 12.0, ConvUnits.Dpi);
            var child := PercentFontSizeAsWritten(Some(parent), Len(150.0, Percent));
            parentSize == 24.0 && ConvUnits.Convert(child, parentSize, ConvUnits.Dpi) == 3.0
            && 150.0 * parentSize / 100.0 == 36.0
  {
  }

  /** The same for a named size: `larger` under a 2em parent gives 2.4 user units instead of 28.8. */
  lemma NamedDropsParentUnit()
    ensures var parent := Len(2.0, Em);
            var parentSize := ConvUnits.Convert(parent, 12.0, ConvUnits.Dpi);
            var child := NamedFontSizeAsWritten(Some(parent), "larger");
            parentSize == 24.0 && ConvUnits.Convert(child, parentSize, ConvUnits.Dpi) == 2.4
            && parentSize * 1.2 == 28.8
  {
    assert Pow(1.2, 1) == 1.2;
  }

  /**
   * The percentage as CSS means it: relative to the parent's size, whatever
   * its unit. Below an element it is kept as a fraction of an em, which the
   * unit conversion scales by the parent's converted size.
   */
  function PercentFontSize(parent: Option<Length>, len: Length): (r: Length)
    ensures r.unit != Percent
    ensures parent.None? ==> r == DefaultLength
  {
    if parent.None? then DefaultLength else Len(len.num * 0.01, Em)
  }

  /** The named size relative to the parent's size: 12·1.2^factor at the root, 1.2^factor em below. */
  function NamedFontSize(parent: Option<Length>, name: string): (r: Length)
    ensures r.unit != Percent
    ensures parent.None? ==> r == Len(DefaultFontSize * PowI(1.2, NamedFactor(name)), NoUnit)
  {
    if parent.None? then Len(DefaultFontSize * PowI(1.2, NamedFactor(name)), NoUnit)
    else Len(PowI(1.2, NamedFactor(name)), Em)
  }

  /**
   * Below an element, the converted percentage and named sizes are that share
   * of the parent's converted size `parentSize`, whatever the parent's unit.
   */
  lemma RelativeSizesFollowParent(parent: Length, parentSize: real, len: Length, name: string)
    ensures ConvUnits.Convert(PercentFontSize(Some(parent), len), parentSize, ConvUnits.Dpi) == len.num * parentSize / 100.0
    ensures ConvUnits.Convert(NamedFontSize(Some(parent), name), parentSize, ConvUnits.Dpi)
            == parentSize * PowI(1.2, NamedFactor(name))
  {
    assert PercentFontSize(Some(parent), len) == Len(len.num * 0.01, Em);
    assert NamedFontSize(Some(parent), name) == Len(PowI(1.2, NamedFactor(name)), Em);
  }

  /** Under a plain-number parent the two readings agree, so 150% of 10 is 15. */
  lemma PercentUnderNumberParent(p: real, len: Length)
    ensures ConvUnits.Convert(PercentFontSize(Some(Len(p, NoUnit)), len), p, ConvUnits.Dpi)
            == ConvUnits.Convert(PercentFontSizeAsWritten(Some(Len(p, NoUnit)), len), p, ConvUnits.Dpi)
    ensures ConvUnits.Convert(PercentFontSize(Some(Len(10.0, NoUnit)), Len(150.0, Percent)), 10.0, ConvUnits.Dpi) == 15.0
  {
    assert len.num * 0.01 * p == len.num * p * 0.01;
  }

  /** Under a plain-number parent the two readings of a named size agree. */
  lemma NamedUnderNumberParent(p: real, name: string)
    ensures ConvUnits.Convert(NamedFontSize(Some(Len(p, NoUnit)), name), p, ConvUnits.Dpi)
            == ConvUnits.Convert(NamedFontSizeAsWritten(Some(Len(p, NoUnit)), name), p, ConvUnits.Dpi)
  {
  }

  /**
   * The size a node without one of its own inherits: the parent's (12 at the
   * root), except that an em becomes 1em and an ex 2ex, so the scaling is
   * not applied twice.
   */
  function Inherited(parent: Option<Length>): (r: Length)
    ensures parent.None? ==> r == DefaultLength
    ensures parent.Some? && parent.value.unit == Em ==> r == Len(1.0, Em)
    ensures parent.Some? && parent.value.unit == Ex ==> r == Len(2.0, Ex)
    ensures parent.Some? && parent.value.unit != Em && parent.value.unit != Ex ==> r == parent.value
  {
    var len := parent.UnwrapOr(DefaultLength);
    if len.unit == Em then Len(1.0, Em)
    else if len.unit == Ex then Len(2.0, Ex)
    else len
  }

  /** The font size one element is given, from its own value or its parent's. */
  function FontSizeOf(n: Node, parent: Option<Length>): (r: Length)
    requires parent.Some? ==> parent.value.unit != Percent
    ensures r.unit != Percent
    ensures AId.FontSize !in n.attrs ==> r == Inherited(parent)
    ensures AId.FontSize in n.attrs && n.attrs[AId.FontSize].Length? ==>
              var len := n.attrs[AId.FontSize].len;
              r == if len.unit == Percent then PercentFontSize(parent, len) else len
    ensures AId.FontSize in n.attrs && n.attrs[AId.FontSize].String? ==>
              r == NamedFontSize(parent, n.attrs[AId.FontSize].s)
    ensures AId.FontSize in n.attrs && !n.attrs[AId.FontSize].Length? && !n.attrs[AId.FontSize].String? ==>
              r == DefaultLength
  {
    var v := if AId.FontSize in n.attrs then n.attrs[AId.FontSize] else AValue.Length(Inherited(parent));
    match v
    case Length(len) => if len.unit == Percent then PercentFontSize(parent, len) else len
    case String(name) => NamedFontSize(parent, name)
    case _ => DefaultLength
  }

  /** One element after its step: marked if it had no size, then given its size. */
  function ResolveNode(n: Node, parent: Option<Length>): (r: Node)
    requires parent.Some? ==> parent.value.unit != Percent
    ensures r.uid == n.uid && r.kind == n.kind && r.id == n.id && r.children == n.children
    ensures r.attrs == (if AId.FontSize in n.attrs then n.attrs else n.attrs[ResolvedFontSize := AValue.Number(1.0)])
                       [AId.FontSize := AValue.Length(FontSizeOf(n, parent))]
    ensures AId.FontSize in r.attrs && r.attrs[AId.FontSize] == AValue.Length(FontSizeOf(n, parent))
    ensures ResolvedFontSize in r.attrs <==> AId.FontSize !in n.attrs || ResolvedFontSize in n.attrs
  {
    var marked := if AId.FontSize !in n.attrs then n.Set(ResolvedFontSize, AValue.Number(1.0)) else n;
    marked.Set(AId.FontSize, AValue.Length(FontSizeOf(n, parent)))
  }

  /** Every element reached through elements has a Length font-size that is not a percentage. */
  predicate FontSizesResolved(ns: seq<Node>)
  {
    ns == [] ||
    ((ns[0].IsSvgElement() ==>
        AId.FontSize in ns[0].attrs && ns[0].attrs[AId.FontSize].Length?
        && ns[0].attrs[AId.FontSize].len.unit != Percent && FontSizesResolved(ns[0].children))
     && FontSizesResolved(ns[1..]))
  }

  /**
   * `_resolve_font_size` at one node whose parent's resolved size is `parent`
   * (None for the root): an element resolves, then its children see its new
   * size; any other node is left as it is, children included.
   */
  function WalkNode(n: Node, parent: Option<Length>): (r: Node)
    requires parent.Some? ==> parent.value.unit != Percent
    ensures r.uid == n.uid && r.kind == n.kind
    ensures !n.IsSvgElement() ==> r == n
    ensures n.IsSvgElement() ==>
              AId.FontSize in r.attrs && r.attrs[AId.FontSize] == AValue.Length(FontSizeOf(n, parent))
              && (ResolvedFontSize in r.attrs <==> AId.FontSize !in n.attrs || ResolvedFontSize in n.attrs)
              && r.children == Walk(n.children, Some(FontSizeOf(n, parent)))
    ensures FontSizesResolved([r])
  {
    if n.IsSvgElement() then
      var r := ResolveNode(n, parent).(children := Walk(n.children, Some(FontSizeOf(n, parent))));
      ConsIndex(r, []);
      r
    else
      ConsIndex(n, []);
      n
  }

  /** `_resolve_font_size` over the children of a node whose resolved size is `parent`. */
  function Walk(ns: seq<Node>, parent: Option<Length>): (r: seq<Node>)
    requires parent.Some? ==> parent.value.unit != Percent
    ensures |r| == |ns| && FontSizesResolved(r)
    ensures forall i :: 0 <= i < |ns| ==> r[i] == WalkNode(ns[i], parent)
  {
    if ns == [] then []
    else
      var head := WalkNode(ns[0], parent);
      var rest := Walk(ns[1..], parent);
      ConsIndex(head, rest);
      ConsIndex(ns[0], ns[1..]);
      ConsIndex(head, []);
      assert [ns[0]] + ns[1..] == ns;
      [head] + rest
  }

  /** `resolve_font_size` on the document. */
  function ResolveFontSizes(doc: Node): (r: Node)
    ensures r.uid == doc.uid && r.kind == doc.kind && r.attrs == doc.attrs
    ensures FontSizesResolved(r.children)
  {
    doc.(children := Walk(doc.children, Option.None))
  }

  /** Following first children down from `ns`, the font sizes are `sizes`. */
  predicate SizesDownFirst(ns: seq<Node>, sizes: seq<real>)
    decreases |sizes|
  {
    sizes == [] ||
    (|ns| > 0 && AId.FontSize in ns[0].attrs && ns[0].attrs[AId.FontSize] == AValue.Number(sizes[0])
     && SizesDownFirst(ns[0].children, sizes[1..]))
  }

  /**
   * `ns` is one element with font-size `lens[0]`, whose only child is one
   * element with `lens[1]`, and so on; the last one has no children.
   */
  predicate SingleChain(ns: seq<Node>, lens: seq<Length>)
    decreases |lens|
  {
    |lens| > 0 && |ns| == 1 && ns[0].IsSvgElement()
    && AId.FontSize in ns[0].attrs && ns[0].attrs[AId.FontSize] == AValue.Length(lens[0]) && lens[0].unit != Percent
    && (if |lens| == 1 then ns[0].children == [] else SingleChain(ns[0].children, lens[1..]))
  }

  /** Each length of a chain converted against the one before it, the first against `parentSize`. */
  function ConvertedSizes(lens: seq<Length>, parentSize: real): (r: seq<real>)
    requires forall k :: 0 <= k < |lens| ==> lens[k].unit != Percent
    ensures |r| == |lens|
  {
    if lens == [] then []
    else
      var size := ConvUnits.Convert(lens[0], parentSize, ConvUnits.Dpi);
      [size] + ConvertedSizes(lens[1..], size)
  }

  lemma SingleChainUnits(ns: seq<Node>, lens: seq<Length>)
    requires SingleChain(ns, lens)
    ensures forall k :: 0 <= k < |lens| ==> lens[k].unit != Percent
    decreases |lens|
  {
    if |lens| > 1 {
      SingleChainUnits(ns[0].children, lens[1..]);
      assert forall k :: 1 <= k < |lens| ==> lens[k] == lens[1..][k - 1];
    }
  }

  /** The unit conversion turns a chain of lengths into the chain of their converted sizes. */
  lemma {:induction false} ConvertChain(ns: seq<Node>, lens: seq<Length>, parentSize: real)
    requires SingleChain(ns, lens)
    requires forall k :: 0 <= k < |lens| ==> lens[k].unit != Percent
    ensures var r := ConvUnits.FontSizeWalk(ns, parentSize);
            r.Some? && SizesDownFirst(r.value, ConvertedSizes(lens, parentSize))
    decreases |lens|
  {
    SingleChainUnits(ns, lens);
    var size := ConvUnits.Convert(lens[0], parentSize, ConvUnits.Dpi);
    var sizes := ConvertedSizes(lens, parentSize);
    assert sizes[0] == size;
    if |lens| == 1 {
      assert ConvUnits.FontSizeWalk([], size) == Some([]);
      ConvertSingle(ns, parentSize, size);
      assert sizes[1..] == [];
    } else {
      ConvertChain(ns[0].children, lens[1..], size);
      SingleChainUnits(ns[0].children, lens[1..]);
      assert sizes[1..] == ConvertedSizes(lens[1..], size);
      ConvertSingle(ns, parentSize, size);
    }
  }

  /**
   * The library's own example: sizes 12, 3em and none on three nested groups
   * resolve to 12, 3em and 1em, which the unit conversion turns into 12, 36
   * and 36 rather than 12, 36 and 108.
   */
  lemma EmInheritanceExample()
    ensures var g3 := Node(3, Element(EId.G), "", map[], []);
            var g2 := Node(2, Element(EId.G), "", map[AId.FontSize := AValue.Length(Len(3.0, Em))], [g3]);
            var g1 := Node(1, Element(EId.G), "", map[AId.FontSize := AValue.Length(Len(12.0, NoUnit))], [g2]);
            var converted := ConvUnits.FontSizeWalk(Walk([g1], Option.None), DefaultFontSize);
            converted.Some? && SizesDownFirst(converted.value, [12.0, 36.0, 36.0])
  {
    var lens := [Len(12.0, NoUnit), Len(3.0, Em), Len(1.0, Em)];
    EmExampleResolves();
    assert forall k :: 0 <= k < |lens| ==> lens[k].unit != Percent;
    var g3 := Node(3, Element(EId.G), "", map[], []);
    var g2 := Node(2, Element(EId.G), "", map[AId.FontSize := AValue.Length(Len(3.0, Em))], [g3]);
    var g1 := Node(1, Element(EId.G), "", map[AId.FontSize := AValue.Length(Len(12.0, NoUnit))], [g2]);
    ConvertChain(Walk([g1], Option.None), lens, DefaultFontSize);
    EmExampleSizes();
  }

  /** The example's sizes, converted: 12, then 3em of 12, then 1em of 36. */
  lemma EmExampleSizes()
    ensures ConvertedSizes([Len(12.0, NoUnit), Len(3.0, Em), Len(1.0, Em)], DefaultFontSize) == [12.0, 36.0, 36.0]
  {
    var lens := [Len(12.0, NoUnit), Len(3.0, Em), Len(1.0, Em)];
    assert lens[1..] == [Len(3.0, Em), Len(1.0, Em)];
    assert lens[1..][1..] == [Len(1.0, Em)];
    assert lens[1..][1..][1..] == [];
  }

  /** The example's groups resolve to the chain 12, 3em, 1em. */
  lemma EmExampleResolves()
    ensures var g3 := Node(3, Element(EId.G), "", map[], []);
            var g2 := Node(2, Element(EId.G), "", map[AId.FontSize := AValue.Length(Len(3.0, Em))], [g3]);
            var g1 := Node(1, Element(EId.G), "", map[AId.FontSize := AValue.Length(Len(12.0, NoUnit))], [g2]);
            SingleChain(Walk([g1], Option.None), [Len(12.0, NoUnit), Len(3.0, Em), Len(1.0, Em)])
  {
    var g3 := Node(3, Element(EId.G), "", map[], []);
    var g2 := Node(2, Element(EId.G), "", map[AId.FontSize := AValue.Length(Len(3.0, Em))], [g3]);
    var g1 := Node(1, Element(EId.G), "", map[AId.FontSize := AValue.Length(Len(12.0, NoUnit))], [g2]);
    assert FontSizeOf(g3, Some(Len(3.0, Em))) == Len(1.0, Em);
    ChainStep(g3, Some(Len(3.0, Em)), []);
    assert FontSizeOf(g2, Some(Len(12.0, NoUnit))) == Len(3.0, Em);
    ChainStep(g2, Some(Len(12.0, NoUnit)), [Len(1.0, Em)]);
    assert FontSizeOf(g1, Option.None) == Len(12.0, NoUnit);
    ChainStep(g1, Option.None, [Len(3.0, Em), Len(1.0, Em)]);
  }

  /** An element whose children's walk is a chain heads the chain one longer. */
  lemma ChainStep(n: Node, parent: Option<Length>, lens: seq<Length>)
    requires parent.Some? ==> parent.value.unit != Percent
    requires n.IsSvgElement()
    requires lens == [] ==> n.children == []
    requires lens != [] ==> SingleChain(Walk(n.children, Some(FontSizeOf(n, parent))), lens)
    ensures SingleChain(Walk([n], parent), [FontSizeOf(n, parent)] + lens)
  {
    WalkSingle(n, parent);
    var l := [FontSizeOf(n, parent)] + lens;
    assert l[1..] == lens;
    if lens == [] {
      assert Walk([], Some(FontSizeOf(n, parent))) == [];
    }
  }

  /** The walk over a single element. */
  lemma WalkSingle(n: Node, parent: Option<Length>)
    requires parent.Some? ==> parent.value.unit != Percent
    requires n.IsSvgElement()
    ensures var r := Walk([n], parent);
            |r| == 1 && r[0].IsSvgElement() && AId.FontSize in r[0].attrs
            && r[0].attrs[AId.FontSize] == AValue.Length(FontSizeOf(n, parent))
            && r[0].children == Walk(n.children, Some(FontSizeOf(n, parent)))
  {
  }

  /** The unit conversion of one resolved element whose size converts to `size`. */
  lemma ConvertSingle(ns: seq<Node>, parentSize: real, size: real)
    requires |ns| == 1
    requires ns[0].IsSvgElement() && AId.FontSize in ns[0].attrs && ns[0].attrs[AId.FontSize].Length?
    requires ns[0].attrs[AId.FontSize].len.unit != Percent
    requires ConvUnits.Convert(ns[0].attrs[AId.FontSize].len, parentSize, ConvUnits.Dpi) == size
    requires ConvUnits.FontSizeWalk(ns[0].children, size).Some?
    ensures var r := ConvUnits.FontSizeWalk(ns, parentSize);
            r.Some? && |r.value| == 1 && r.value[0].attrs[AId.FontSize] == AValue.Number(size)
            && r.value[0].children == ConvUnits.FontSizeWalk(ns[0].children, size).value
  {
    assert ns[1..] == [];
  }
}
