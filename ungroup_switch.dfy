/**
 * `ungroup_switch`: every `switch` element keeps only its first child that
 * passes the conditional-processing test, and becomes a group marked with
 * `usvg-group`.
 */
module UngroupSwitch {
  import opened Wrappers
  import opened SvgTypes
  import opened Dom

  const FeaturePrefix: string := "http://www.w3.org/TR/SVG11/feature#"

  /** The names, after the common prefix, of the SVG 1.1 feature strings the renderer claims to support. */
  const FeatureNames: seq<string> := [
    "SVGDOM-static",
    "CoreAttribute",
    "Structure",
    "BasicStructure",
    "ConditionalProcessing",
    "Image",
    "Style",
    "Shape",
    "Text",
    "BasicText",
    "PaintAttribute",
    "BasicPaintAttribute",
    "OpacityAttribute",
    "BasicGraphicsAttribute",
    "Gradient",
    "Pattern",
    "Clip",
    "Mask",
    "Hyperlinking",
    "XlinkAttribute"
  ]

  /** A supported feature string: the common prefix followed by one of the names. */
  predicate IsFeature(p: string)
  {
    |FeaturePrefix| <= |p| && p[..|FeaturePrefix|] == FeaturePrefix && p[|FeaturePrefix|..] in FeatureNames
  }

  /** A prefixed string is supported exactly when its name is in the table. */
  lemma FeatureByName(name: string)
    ensures IsFeature(FeaturePrefix + name) <==> name in FeatureNames
  {
    var p := FeaturePrefix + name;
    assert p[..|FeaturePrefix|] == FeaturePrefix && p[|FeaturePrefix|..] == name;
  }

  // ---- str::split(' ') ----

  /** The pieces between single spaces: `n` spaces give `n + 1` pieces, empty ones included. */
  function Split(s: string): (r: seq<string>)
    ensures |r| >= 1
    ensures forall k :: 0 <= k < |r| ==> ' ' !in r[k]
    decreases |s|
  {
    if s == [] then [""]
    else
      var rest := Split(s[1..]);
      if s[0] == ' ' then [""] + rest
      else
        ConsIndex([s[0]] + rest[0], rest[1..]);
        [[s[0]] + rest[0]] + rest[1..]
  }

  /** The pieces put back together with a space between each two. */
  function Join(ps: seq<string>): string
    requires |ps| >= 1
  {
    if |ps| == 1 then ps[0] else ps[0] + " " + Join(ps[1..])
  }

  /** Splitting loses nothing: joining the pieces gives the string back. */
  lemma {:induction false} JoinSplit(s: string)
    ensures Join(Split(s)) == s
    decreases |s|
  {
    if s != [] {
      JoinSplit(s[1..]);
      var rest := Split(s[1..]);
      if s[0] == ' ' {
        assert Split(s) == [""] + rest;
        assert Join(Split(s)) == "" + " " + Join(rest);
        assert s == [s[0]] + s[1..];
      } else {
        var p := [[s[0]] + rest[0]] + rest[1..];
        assert Split(s) == p;
        if |rest| == 1 {
          assert Join(p) == [s[0]] + rest[0];
          assert Join(rest) == rest[0];
        } else {
          assert p[1..] == rest[1..];
          assert Join(p) == [s[0]] + rest[0] + " " + Join(rest[1..]);
          assert Join(rest) == rest[0] + " " + Join(rest[1..]);
        }
        assert s == [s[0]] + s[1..];
      }
    }
  }

  /** A string without spaces is one piece. */
  lemma {:induction false} SplitWord(w: string)
    requires ' ' !in w
    ensures Split(w) == [w]
    decreases |w|
  {
    if w != [] {
      assert ' ' !in w[1..] by {
        forall k | 0 <= k < |w[1..]| ensures w[1..][k] != ' ' { assert w[1..][k] == w[k + 1]; }
      }
      SplitWord(w[1..]);
      assert [w[0]] + w[1..] == w;
    }
  }

  /** A word, a space and more: the word is the first piece and the rest is split on its own. */
  lemma {:induction false} SplitWordThen(w: string, tail: string)
    requires ' ' !in w
    ensures Split(w + " " + tail) == [w] + Split(tail)
    decreases |w|
  {
    var s := w + " " + tail;
    if w == [] {
      assert s == " " + tail;
      assert s[1..] == tail;
    } else {
      assert ' ' !in w[1..] by {
        forall k | 0 <= k < |w[1..]| ensures w[1..][k] != ' ' { assert w[1..][k] == w[k + 1]; }
      }
      SplitWordThen(w[1..], tail);
      assert s[1..] == w[1..] + " " + tail;
      assert s[0] == w[0] && s[0] != ' ';
      assert [w[0]] + w[1..] == w;
    }
  }

  /** Pieces without spaces come back out of their join, empty pieces included. */
  lemma {:induction false} SplitJoin(ps: seq<string>)
    requires |ps| >= 1
    requires forall k :: 0 <= k < |ps| ==> ' ' !in ps[k]
    ensures Split(Join(ps)) == ps
  {
    if |ps| == 1 {
      SplitWord(ps[0]);
    } else {
      SplitJoin(ps[1..]);
      SplitWordThen(ps[0], Join(ps[1..]));
      assert [ps[0]] + ps[1..] == ps;
    }
  }

  // ---- is_valid_child ----

  /** Every piece of the list is one of the supported feature strings. */
  predicate Supported(pieces: seq<string>)
  {
    forall k :: 0 <= k < |pieces| ==> IsFeature(pieces[k])
  }

  /**
   * The conditional-processing test: no `requiredExtensions` at all, and, when
   * `requiredFeatures` is a string, every space-separated piece of it supported.
   * `systemLanguage` is not looked at.
   */
  predicate Valid(n: Node)
  {
    AId.RequiredExtensions !in n.attrs
    && (AId.RequiredFeatures in n.attrs && n.attrs[AId.RequiredFeatures].String?
        ==> FeaturesPass(n.attrs[AId.RequiredFeatures].s))
  }

  /** The `requiredFeatures` part of the test, on the attribute's text. */
  predicate FeaturesPass(fs: string)
  {
    Supported(Split(fs))
  }

  /** `is_valid_child`, with its loop over the pieces and its early returns. */
  method IsValidChild(n: Node) returns (ok: bool)
    ensures ok == Valid(n)
  {
    if AId.RequiredExtensions in n.attrs {
      return false;
    }
    if AId.RequiredFeatures in n.attrs && n.attrs[AId.RequiredFeatures].String? {
      var pieces := Split(n.attrs[AId.RequiredFeatures].s);
      for i := 0 to |pieces|
        invariant forall k :: 0 <= k < i ==> IsFeature(pieces[k])
      {
        if !IsFeature(pieces[i]) {
          return false;
        }
      }
    }
    return true;
  }

  /** A list of named features passes exactly when each of them is supported. */
  lemma FeatureList(names: seq<string>)
    requires |names| >= 1 && forall k :: 0 <= k < |names| ==> ' ' !in names[k]
    ensures FeaturesPass(Join(names)) <==> Supported(names)
  {
    SplitJoin(names);
  }

  /** An empty `requiredFeatures` is one empty piece, which is not a feature. */
  lemma EmptyFeaturesFail()
    ensures !FeaturesPass("")
  {
    assert Split("") == [""];
    assert !IsFeature("");
    assert Split("")[0] == "";
  }

  /** A feature the table leaves out, such as filters, makes the child fail. */
  lemma UnlistedFeatureFails(name: string)
    requires ' ' !in name && name !in FeatureNames
    ensures !FeaturesPass(FeaturePrefix + name)
  {
    var f := FeaturePrefix + name;
    NoSpaceInPrefixed(name);
    SplitWord(f);
    FeatureByName(name);
    assert [f][0] == f;
  }

  lemma NoSpaceInPrefixed(name: string)
    requires ' ' !in name
    ensures ' ' !in FeaturePrefix + name
  {
    var p := FeaturePrefix;
    assert ' ' !in p;
    var f := p + name;
    forall k | 0 <= k < |f| ensures f[k] != ' ' {
      if k < |p| { assert f[k] == p[k]; } else { assert f[k] == name[k - |p|]; }
    }
  }

  /** Filters are among the features the table leaves out. */
  lemma FilterFeatureFails()
    ensures !FeaturesPass(FeaturePrefix + "Filter")
  {
    UnlistedFeatureFails("Filter");
  }

  // ---- the first valid child ----

  /** An SVG element that passes the test: what the `find first valid node` loop looks for. */
  predicate Eligible(c: Node) { c.IsSvgElement() && Valid(c) }

  /** The position of the first eligible child. */
  function FirstValidIndex(cs: seq<Node>): (r: Option<nat>)
    ensures r.Some? ==> r.value < |cs| && Eligible(cs[r.value])
                        && forall j :: 0 <= j < r.value ==> !Eligible(cs[j])
    ensures r.None? ==> forall j :: 0 <= j < |cs| ==> !Eligible(cs[j])
  {
    if cs == [] then Option.None
    else if Eligible(cs[0]) then Some(0)
    else match FirstValidIndex(cs[1..])
      case Some(i) => Some(i + 1)
      case None => Option.None
  }

  /** The first eligible child itself. */
  function FirstValid(cs: seq<Node>): Option<Node>
  {
    match FirstValidIndex(cs)
    case Some(i) => Some(cs[i])
    case None => Option.None
  }

  /** The loop over `children().svg()` that stops at the first valid one. */
  method FindValidChild(cs: seq<Node>) returns (v: Option<Node>)
    ensures v == FirstValid(cs)
  {
    v := Option.None;
    for i := 0 to |cs|
      invariant forall j :: 0 <= j < i ==> !Eligible(cs[j])
    {
      if cs[i].IsSvgElement() {
        var ok := IsValidChild(cs[i]);
        if ok {
          assert FirstValidIndex(cs) == Some(i) by { FirstValidAt(cs, i); }
          return Some(cs[i]);
        }
      }
    }
  }

  /** The first eligible position is the one `FirstValidIndex` finds. */
  lemma {:induction false} FirstValidAt(cs: seq<Node>, i: nat)
    requires i < |cs| && Eligible(cs[i]) && forall j :: 0 <= j < i ==> !Eligible(cs[j])
    ensures FirstValidIndex(cs) == Some(i)
  {
    if i > 0 {
      assert cs[1..][i - 1] == cs[i];
      FirstValidAt(cs[1..], i - 1);
    }
  }

  // ---- one switch ----

  /** The first `switch` of a sequence of nodes. */
  function FirstSwitch(s: seq<Node>): (r: Option<Node>)
    ensures r.Some? ==> r.value in s && r.value.Is(EId.Switch)
    ensures r.None? ==> forall m :: m in s ==> !m.Is(EId.Switch)
  {
    if s == [] then Option.None
    else if s[0].Is(EId.Switch) then Some(s[0])
    else FirstSwitch(s[1..])
  }

  /** The children of the switch that go: all but the kept one, text nodes included. */
  function Dropped(sw: Node, keep: Option<Node>): (r: set<UId>)
    ensures forall c :: c in sw.children && (keep.None? || c.uid != keep.value.uid) ==> c.uid in r
    ensures keep.Some? ==> keep.value.uid !in r
  {
    set c | c in sw.children && (keep.None? || c.uid != keep.value.uid) :: c.uid
  }

  /** `set_tag_name(EId::G)` and the `usvg-group` marker. */
  function ToGroup(n: Node): Node
  {
    n.Set(UsvgGroup, AValue.Number(1.0)).(kind := Element(EId.G))
  }

  /** The node with uid `u` turned into a group; any other node left alone. */
  function RetagNode(n: Node, u: UId): Node
  {
    if n.uid == u then ToGroup(n) else n
  }

  /** `RetagNode` everywhere in a forest. */
  function RetagAll(ns: seq<Node>, u: UId): seq<Node>
  {
    if ns == [] then []
    else [RetagNode(ns[0], u).(children := RetagAll(ns[0].children, u))] + RetagAll(ns[1..], u)
  }

  /** `RetagNode` on a document, root included. */
  function RetagDoc(d: Node, u: UId): Node
  {
    RetagNode(d, u).(children := RetagAll(d.children, u))
  }

  function Retag(u: UId): Node -> Node
  {
    (n: Node) => RetagNode(n, u)
  }

  /** The retag is the node-by-node rewrite by `RetagNode`. */
  lemma {:induction false} RetagAllMaps(ns: seq<Node>, u: UId)
    ensures RetagAll(ns, u) == MapNodes(ns, Retag(u))
  {
    if ns != [] {
      RetagAllMaps(ns[0].children, u);
      RetagAllMaps(ns[1..], u);
    }
  }

  /** One round of the loop: the other children removed, then the switch turned into a group. */
  function Step(doc: Node, sw: Node, keep: Option<Node>): Node
  {
    RetagDoc(RemoveNodes(doc, Dropped(sw, keep)), sw.uid)
  }

  /** The uids of the `switch` elements of a document. */
  function SwitchUids(doc: Node): set<UId>
  {
    set m | m in Descendants(doc) && m.Is(EId.Switch) :: m.uid
  }

  /** Every switch after a removal was a switch before. */
  lemma RemoveKeepsSwitches(doc: Node, drop: set<UId>)
    ensures SwitchUids(RemoveNodes(doc, drop)) <= SwitchUids(doc)
  {
    var d := RemoveNodes(doc, drop);
    RemoveNodesHeads(doc, drop);
    forall m | m in Descendants(d) && m.Is(EId.Switch)
      ensures m.uid in SwitchUids(doc)
    {
      if m != d {
        assert m in Flat(d.children);
        var o :| o in Flat(doc.children) && o.uid !in drop
                 && HeadOf(m) == HeadOf(o).(attrs := Unlinked(o.attrs, DroppedUids(doc.children, drop)));
        assert o in Descendants(doc) && o.Is(EId.Switch);
      } else {
        assert doc in Descendants(doc);
      }
    }
  }

  /** After the retag, the switches are those there were, minus the retagged one. */
  lemma RetagDropsSwitch(d: Node, u: UId)
    ensures SwitchUids(RetagDoc(d, u)) <= SwitchUids(d) - {u}
  {
    var r := MapDoc(d, Retag(u));
    RetagAllMaps(d.children, u);
    assert RetagDoc(d, u) == r;
    MapDocFlat(d, Retag(u));
    forall m | m in Descendants(r) && m.Is(EId.Switch)
      ensures m.uid in SwitchUids(d) && m.uid != u
    {
      var k :| 0 <= k < |Descendants(r)| && Descendants(r)[k] == m;
      var o := Descendants(d)[k];
      assert HeadOf(m) == HeadOf(Retag(u)(o));
      assert o.uid != u;
      assert o in Descendants(d) && o.Is(EId.Switch);
    }
  }

  /** Each round turns one switch into a group and creates none. */
  lemma StepFewer(doc: Node, sw: Node, keep: Option<Node>)
    requires sw in Descendants(doc) && sw.Is(EId.Switch)
    ensures SwitchUids(Step(doc, sw, keep)) < SwitchUids(doc)
  {
    RemoveKeepsSwitches(doc, Dropped(sw, keep));
    RetagDropsSwitch(RemoveNodes(doc, Dropped(sw, keep)), sw.uid);
    assert sw.uid in SwitchUids(doc);
  }

  // ---- the loop as written ----

  /**
   * The loop as written, run for at most `fuel` rounds; None when the rounds
   * run out. A switch with no valid child is met by `continue`, which finds the
   * same switch again.
   */
  function UngroupSwitchAsWritten(doc: Node, fuel: nat): Option<Node>
    decreases fuel
  {
    match FirstSwitch(Descendants(doc))
    case None => Some(doc)
    case Some(sw) =>
      if fuel == 0 then Option.None
      else match FirstValid(sw.children)
        case None => UngroupSwitchAsWritten(doc, fuel - 1)
        case Some(v) => UngroupSwitchAsWritten(Step(doc, sw, Some(v)), fuel - 1)
  }

  /** As written, a first switch without a valid child stops the pass from ever finishing. */
  lemma {:induction false} NoValidChildHangs(doc: Node, fuel: nat)
    requires FirstSwitch(Descendants(doc)).Some?
    requires FirstValid(FirstSwitch(Descendants(doc)).value.children).None?
    ensures UngroupSwitchAsWritten(doc, fuel).None?
    decreases fuel
  {
    if fuel > 0 {
      NoValidChildHangs(doc, fuel - 1);
    }
  }

  /** A document whose only switch holds one `rect` that asks for an extension. */
  function ExtensionOnlySwitch(): Node
  {
    var rect := Node(2, Element(EId.Rect), "", map[AId.RequiredExtensions := AValue.String("x")], []);
    var sw := Node(1, Element(EId.Switch), "", map[], [rect]);
    Node(0, Root, "", map[], [sw])
  }

  /** That document never comes out of the loop as written, however many rounds it is given. */
  lemma ExtensionOnlySwitchHangs(fuel: nat)
    ensures UngroupSwitchAsWritten(ExtensionOnlySwitch(), fuel).None?
  {
    var doc := ExtensionOnlySwitch();
    var sw := doc.children[0];
    var rect := sw.children[0];
    assert Flat(doc.children) == [sw] + Flat(sw.children) + Flat([]);
    assert Descendants(doc)[0] == doc && Descendants(doc)[1] == sw;
    assert FirstSwitch(Descendants(doc)) == Some(sw);
    assert !Valid(rect);
    assert FirstValidIndex(sw.children).None?;
    NoValidChildHangs(doc, fuel);
  }

  // ---- the loop, terminating ----

  /**
   * One round as intended: the first valid child stays, and a switch without
   * one loses all its children, as a switch renders nothing then.
   */
  function Next(doc: Node, sw: Node): Node
  {
    Step(doc, sw, FirstValid(sw.children))
  }

  /** `ungroup_switch` with every round making progress. */
  function Ungroup(doc: Node): (r: Node)
    ensures forall m :: m in Descendants(r) ==> !m.Is(EId.Switch)
    decreases SwitchUids(doc)
  {
    match FirstSwitch(Descendants(doc))
    case None => doc
    case Some(sw) =>
      StepFewer(doc, sw, FirstValid(sw.children));
      Ungroup(Next(doc, sw))
  }

  /** The loop: find the first switch, ungroup it, until none is left. */
  method UngroupSwitch(doc: Node) returns (r: Node)
    ensures r == Ungroup(doc)
    ensures forall m :: m in Descendants(r) ==> !m.Is(EId.Switch)
  {
    r := doc;
    var found := FirstSwitch(Descendants(r));
    while found.Some?
      invariant found == FirstSwitch(Descendants(r))
      invariant Ungroup(r) == Ungroup(doc)
      decreases SwitchUids(r)
    {
      var sw := found.value;
      var keep := FindValidChild(sw.children);
      StepFewer(r, sw, keep);
      r := Step(r, sw, keep);
      found := FirstSwitch(Descendants(r));
    }
  }

  /** A document without switches is left as it is. */
  lemma NoSwitchUnchanged(doc: Node)
    requires forall m :: m in Descendants(doc) ==> !m.Is(EId.Switch)
    ensures Ungroup(doc) == doc
  {
    assert FirstSwitch(Descendants(doc)).None?;
  }

  /** Running the pass twice gives what running it once does. */
  lemma Idempotent(doc: Node)
    ensures Ungroup(Ungroup(doc)) == Ungroup(doc)
  {
    NoSwitchUnchanged(Ungroup(doc));
  }
}
