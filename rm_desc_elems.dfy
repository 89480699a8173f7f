/**
 * `remove_desc_elements`: every `title`, `desc` and `metadata` element goes,
 * with its subtree, because it may appear anywhere.
 */
module RmDescElems {
  import opened SvgTypes
  import opened Dom

  predicate IsDescElement(n: Node)
  {
    n.Is(EId.Title) || n.Is(EId.Desc) || n.Is(EId.Metadata)
  }

  /** The uids the drain matches anywhere below the root. */
  function Drops(doc: Node): (r: set<UId>)
    ensures forall n :: n in Flat(doc.children) && IsDescElement(n) ==> n.uid in r
    ensures forall u :: u in r ==> exists n :: n in Flat(doc.children) && IsDescElement(n) && n.uid == u
  {
    set n | n in Flat(doc.children) && IsDescElement(n) :: n.uid
  }

  function RemoveDescElements(doc: Node): (r: Node)
    ensures r.uid == doc.uid && r.kind == doc.kind
  {
    RemoveNodes(doc, Drops(doc))
  }

  /** No title, desc or metadata element is left. */
  lemma NoDescLeft(doc: Node)
    ensures forall m :: m in Flat(RemoveDescElements(doc).children) ==> !IsDescElement(m)
  {
    RemoveNodesHeads(doc, Drops(doc));
    forall m | m in Flat(RemoveDescElements(doc).children)
      ensures !IsDescElement(m)
    {
      var o :| o in Flat(doc.children) && o.uid !in Drops(doc)
               && HeadOf(m) == HeadOf(o).(attrs := Unlinked(o.attrs, DroppedUids(doc.children, Drops(doc))));
      assert m.kind == o.kind;
    }
  }

  /**
   * What remains is exactly the nodes that are neither one of the three nor
   * below one, in document order, with their attributes as they were apart
   * from links into the removed subtrees.
   */
  lemma KeepsTheRest(doc: Node)
    ensures HeadSeq(Flat(RemoveDescElements(doc).children))
            == UnlinkHeadSeq(HeadSeq(Outside(doc.children, Drops(doc))), DroppedUids(doc.children, Drops(doc)))
    ensures forall n :: n in Outside(doc.children, Drops(doc)) ==> !IsDescElement(n)
  {
    RemoveNodesOutside(doc, Drops(doc));
  }

  /** Running the pass twice gives what running it once does. */
  lemma Idempotent(doc: Node)
    ensures RemoveDescElements(RemoveDescElements(doc)) == RemoveDescElements(doc)
  {
    var r := RemoveDescElements(doc);
    NoDescLeft(doc);
    assert Drops(r) == {};
    RemoveNothing(r);
  }
}
