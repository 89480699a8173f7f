/**
 * `remove_invalid_shapes`: a scan of the document collects every shape the
 * renderer could not draw (a rect, circle or ellipse without positive size,
 * a polyline or polygon with fewer than two points, a path with fewer than
 * two segments), and the collected nodes are removed after the scan.
 */
module RmInvalidShapes {
  import opened Wrappers
  import opened SvgTypes
  import opened Dom
  import opened Traits
  import opened Shapes

  /** `rm_rect`: width or height, missing taken as 0, is not positive. */
  predicate RmRect(n: Node)
  {
    !(NumberOr(n, AId.Width, 0.0) > 0.0) || !(NumberOr(n, AId.Height, 0.0) > 0.0)
  }

  /** `rm_poly`: no `points`, or fewer than two. */
  predicate RmPoly(n: Node)
  {
    GetPoints(n, AId.Points).None? || |GetPoints(n, AId.Points).value| < 2
  }

  /** `rm_circle`: r, missing taken as 0, is not positive. */
  predicate RmCircle(n: Node)
  {
    !(NumberOr(n, AId.R, 0.0) > 0.0)
  }

  /** `rm_ellipse`: rx or ry, missing taken as 0, is not positive. */
  predicate RmEllipse(n: Node)
  {
    !(NumberOr(n, AId.Rx, 0.0) > 0.0) || !(NumberOr(n, AId.Ry, 0.0) > 0.0)
  }

  /** `rm_path`: no `d`, or fewer than two segments. */
  predicate RmPath(n: Node)
  {
    GetPath(n, AId.D).None? || |GetPath(n, AId.D).value| < 2
  }

  /** The scan's test: dispatch on the element kind; every other kind is kept. */
  predicate Invalid(n: Node)
  {
    if n.Is(EId.Rect) then RmRect(n)
    else if n.Is(EId.Polyline) || n.Is(EId.Polygon) then RmPoly(n)
    else if n.Is(EId.Circle) then RmCircle(n)
    else if n.Is(EId.Ellipse) then RmEllipse(n)
    else if n.Is(EId.Path) then RmPath(n)
    else false
  }

  /** Only rects, polylines, polygons, circles, ellipses and paths are ever removed. */
  lemma OnlyShapes(n: Node)
    requires Invalid(n)
    ensures n.Is(EId.Rect) || n.Is(EId.Polyline) || n.Is(EId.Polygon) || n.Is(EId.Circle)
            || n.Is(EId.Ellipse) || n.Is(EId.Path)
  {
  }

  /**
   * A basic shape is removed exactly when its conversion to a path would
   * give nothing; a line is never removed, and always converts.
   */
  lemma InvalidIffNoPath(n: Node)
    requires IsBasicShape(n)
    ensures Invalid(n) <==> Convert(n).None?
  {
  }

  /** The uids the scan pushes, in document order. */
  function InvalidUids(ns: seq<Node>): (r: seq<UId>)
  {
    if ns == [] then [] else InvalidUids(ns[..|ns| - 1]) + (if Invalid(ns[|ns| - 1]) then [ns[|ns| - 1].uid] else [])
  }

  /** What the scan collects is exactly the uids of the invalid nodes. */
  lemma {:induction false} InvalidUidsMembers(ns: seq<Node>)
    ensures forall u :: u in InvalidUids(ns) <==> u in (set n | n in ns && Invalid(n) :: n.uid)
  {
    if ns != [] {
      var init := ns[..|ns| - 1];
      InvalidUidsMembers(init);
      assert ns == init + [ns[|ns| - 1]];
      assert forall n :: n in ns <==> n in init || n == ns[|ns| - 1];
    }
  }

  /** The nodes below the root that the scan finds invalid. */
  function Drops(doc: Node): set<UId>
  {
    set n | n in Flat(doc.children) && Invalid(n) :: n.uid
  }

  /** The scan over `descendants().svg()`: the root is not an element, so it never matches. */
  method CollectInvalid(doc: Node) returns (rm: seq<UId>)
    ensures rm == InvalidUids(Descendants(doc))
    ensures forall u :: u in rm <==> u in Drops(doc) || (doc.IsSvgElement() && Invalid(doc) && u == doc.uid)
  {
    var ns := Descendants(doc);
    rm := [];
    var i := 0;
    while i < |ns|
      invariant 0 <= i <= |ns|
      invariant rm == InvalidUids(ns[..i])
    {
      if Invalid(ns[i]) {
        rm := rm + [ns[i].uid];
      }
      i := i + 1;
      assert ns[..i][..i - 1] == ns[..i - 1];
    }
    assert ns[..i] == ns;
    CollectedAreDrops(doc);
  }

  lemma CollectedAreDrops(doc: Node)
    ensures forall u :: u in InvalidUids(Descendants(doc))
                        <==> u in Drops(doc) || (doc.IsSvgElement() && Invalid(doc) && u == doc.uid)
  {
    var ns := Descendants(doc);
    InvalidUidsMembers(ns);
    assert forall n :: n in ns <==> n == doc || n in Flat(doc.children);
  }

  /** The removal of everything collected. */
  function WithoutInvalidShapes(doc: Node): (r: Node)
    ensures r.uid == doc.uid && r.kind == doc.kind
  {
    RemoveNodes(doc, Drops(doc))
  }

  /** `remove_invalid_shapes` on a document whose root is not an element. */
  method RemoveInvalidShapes(doc: Node) returns (r: Node)
    requires doc.kind == Root
    ensures r == WithoutInvalidShapes(doc)
  {
    var rm := CollectInvalid(doc);
    var drop := set u | u in rm;
    assert drop == Drops(doc);
    r := RemoveNodes(doc, drop);
  }

  /** No invalid shape is left. */
  lemma NoInvalidLeft(doc: Node)
    ensures forall m :: m in Flat(WithoutInvalidShapes(doc).children) ==> !Invalid(m)
  {
    var gone := DroppedUids(doc.children, Drops(doc));
    RemoveNodesHeads(doc, Drops(doc));
    forall m | m in Flat(WithoutInvalidShapes(doc).children)
      ensures !Invalid(m)
    {
      var o :| o in Flat(doc.children) && o.uid !in Drops(doc)
               && HeadOf(m) == HeadOf(o).(attrs := Unlinked(o.attrs, gone));
      assert !Invalid(o);
      ShapeAttrsNoLinks(o, m, gone);
    }
  }

  /** The attributes the test reads hold no link, so dropping links does not change its answer. */
  lemma ShapeAttrsNoLinks(o: Node, m: Node, gone: set<UId>)
    requires HeadOf(m) == HeadOf(o).(attrs := Unlinked(o.attrs, gone))
    ensures Invalid(m) == Invalid(o)
  {
    forall a: AId
      ensures GetNumber(m, a) == GetNumber(o, a) && GetPoints(m, a) == GetPoints(o, a) && GetPath(m, a) == GetPath(o, a)
    {
    }
  }

  /**
   * What remains is exactly the nodes that are neither invalid nor below an
   * invalid one, in document order, with only their links into the removed
   * nodes dropped.
   */
  lemma KeepsTheRest(doc: Node)
    ensures HeadSeq(Flat(WithoutInvalidShapes(doc).children))
            == UnlinkHeadSeq(HeadSeq(Outside(doc.children, Drops(doc))), DroppedUids(doc.children, Drops(doc)))
    ensures forall n :: n in Outside(doc.children, Drops(doc)) ==> !Invalid(n)
  {
    RemoveNodesOutside(doc, Drops(doc));
  }

  /** Running the pass twice gives what running it once does. */
  lemma Idempotent(doc: Node)
    ensures WithoutInvalidShapes(WithoutInvalidShapes(doc)) == WithoutInvalidShapes(doc)
  {
    var r := WithoutInvalidShapes(doc);
    NoInvalidLeft(doc);
    assert Drops(r) == {};
    RemoveNothing(r);
  }
}
