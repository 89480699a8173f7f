/**
 * `remove_invalid_clip_path`: a clipPath with no shape or text among its
 * element children clips everything away, so the clipPath goes, and so does
 * every element that uses it.
 */
module RmInvalidClipPath {
  import opened Wrappers
  import opened SvgTypes
  import opened Dom

  /** The children that make a clipPath valid; a `line` is not one of them. */
  predicate Clips(c: Node)
  {
    c.Is(EId.Rect) || c.Is(EId.Polyline) || c.Is(EId.Polygon) || c.Is(EId.Circle)
    || c.Is(EId.Ellipse) || c.Is(EId.Path) || c.Is(EId.Text)
  }

  /** The number of such children among `cs`. */
  function ValidCount(cs: seq<Node>): nat
  {
    if cs == [] then 0 else ValidCount(cs[..|cs| - 1]) + (if Clips(cs[|cs| - 1]) then 1 else 0)
  }

  /** The count is zero exactly when no child clips. */
  lemma {:induction false} ValidCountZero(cs: seq<Node>)
    ensures ValidCount(cs) == 0 <==> forall c :: c in cs ==> !Clips(c)
  {
    if cs != [] {
      var init := cs[..|cs| - 1];
      ValidCountZero(init);
      assert cs == init + [cs[|cs| - 1]];
      assert forall c :: c in cs <==> c in init || c == cs[|cs| - 1];
    }
  }

  /** The `valid_children` loop over `node.children().svg()`. */
  method CountValidChildren(n: Node) returns (count: nat)
    ensures count == ValidCount(n.children)
    ensures count == 0 <==> forall c :: c in n.children ==> !Clips(c)
  {
    count := 0;
    var i := 0;
    while i < |n.children|
      invariant 0 <= i <= |n.children|
      invariant count == ValidCount(n.children[..i])
    {
      assert n.children[..i + 1][..i] == n.children[..i];
      if Clips(n.children[i]) {
        count := count + 1;
      }
      i := i + 1;
    }
    assert n.children[..i] == n.children;
    ValidCountZero(n.children);
  }

  predicate InvalidClip(n: Node)
  {
    n.Is(EId.ClipPath) && forall c :: c in n.children ==> !Clips(c)
  }

  /** The uids of the invalid clipPaths among `ns`, in order. */
  function ClipUids(ns: seq<Node>): (r: seq<UId>)
  {
    if ns == [] then [] else (if InvalidClip(ns[0]) then [ns[0].uid] else []) + ClipUids(ns[1..])
  }

  lemma {:induction false} ClipUidsSnoc(ns: seq<Node>, n: Node)
    ensures ClipUids(ns + [n]) == ClipUids(ns) + (if InvalidClip(n) then [n.uid] else [])
  {
    if ns != [] {
      assert (ns + [n])[1..] == ns[1..] + [n];
      ClipUidsSnoc(ns[1..], n);
      AppendAssoc(if InvalidClip(ns[0]) then [ns[0].uid] else [], ClipUids(ns[1..]), if InvalidClip(n) then [n.uid] else []);
    } else {
      assert [n][1..] == [];
    }
  }

  lemma {:induction false} ClipUidsMembers(ns: seq<Node>)
    ensures forall u :: u in ClipUids(ns) <==> exists n :: n in ns && InvalidClip(n) && n.uid == u
  {
    if ns != [] {
      ClipUidsMembers(ns[1..]);
      assert forall n :: n in ns <==> n == ns[0] || n in ns[1..];
    }
  }

  /** The scan collecting `rm_nodes`. */
  method CollectInvalid(doc: Node) returns (rm: seq<UId>)
    ensures rm == ClipUids(Descendants(doc))
    ensures forall u :: u in rm <==> exists n :: n in Descendants(doc) && InvalidClip(n) && n.uid == u
  {
    var ns := Descendants(doc);
    rm := [];
    var i := 0;
    while i < |ns|
      invariant 0 <= i <= |ns|
      invariant rm == ClipUids(ns[..i])
    {
      var count := CountValidChildren(ns[i]);
      if ns[i].Is(EId.ClipPath) && count == 0 {
        rm := rm + [ns[i].uid];
      }
      assert ns[..i + 1] == ns[..i] + [ns[i]];
      ClipUidsSnoc(ns[..i], ns[i]);
      i := i + 1;
    }
    assert ns[..i] == ns;
    ClipUidsMembers(ns);
  }

  /** The invalid clipPaths of the document. */
  function Invalid(doc: Node): set<UId>
  {
    set n | n in Descendants(doc) && InvalidClip(n) :: n.uid
  }

  /** `node.linked_nodes()` as a set of uids: every node of the document that links to `u`. */
  function Users(doc: Node, u: UId): set<UId>
  {
    UidSet(LinkedNodes(doc, u))
  }

  // ---- as written ----

  /**
   * The second loop as the source runs it: the users of each collected
   * clipPath are looked up in the document as the earlier removals left it.
   */
  function RemoveUsersInTurn(doc: Node, rm: seq<UId>): (r: Node)
    ensures r.uid == doc.uid && r.kind == doc.kind
    decreases |rm|
  {
    if rm == [] then doc else RemoveUsersInTurn(RemoveNodes(doc, Users(doc, rm[0])), rm[1..])
  }

  function AsWritten(doc: Node): (r: Node)
    ensures r.uid == doc.uid && r.kind == doc.kind
  {
    RemoveNodes(RemoveUsersInTurn(doc, ClipUids(Descendants(doc))), Invalid(doc))
  }

  // ---- corrected: the users looked up before anything is removed ----

  /** Every node of the document that uses an invalid clipPath. */
  function AllUsers(doc: Node): set<UId>
  {
    set n | n in Descendants(doc) && exists a :: a in n.attrs && LinksInto(n.attrs[a], Invalid(doc)) :: n.uid
  }

  function WithoutInvalidClipPaths(doc: Node): (r: Node)
    ensures r.uid == doc.uid && r.kind == doc.kind
  {
    RemoveNodes(doc, Invalid(doc) + AllUsers(doc))
  }

  /** The users of the clipPaths `rm`, all looked up in the same document. */
  function UsersOf(doc: Node, rm: seq<UId>): set<UId>
  {
    if rm == [] then {} else UsersOf(doc, rm[..|rm| - 1]) + Users(doc, rm[|rm| - 1])
  }

  /** The users of the collected clipPaths, all looked up in the document as it was. */
  method CollectUsers(doc: Node, rm: seq<UId>) returns (users: set<UId>)
    ensures users == UsersOf(doc, rm)
  {
    users := {};
    var j := 0;
    while j < |rm|
      invariant 0 <= j <= |rm|
      invariant users == UsersOf(doc, rm[..j])
    {
      assert rm[..j + 1][..j] == rm[..j];
      users := users + Users(doc, rm[j]);
      j := j + 1;
    }
    assert rm[..j] == rm;
  }

  /** A node is a user of one of `rm` exactly when it links to one of them. */
  lemma {:induction false} UsersOfMembers(doc: Node, rm: seq<UId>)
    ensures forall v :: v in UsersOf(doc, rm) <==>
              exists n :: n in Descendants(doc) && n.uid == v && exists a :: a in n.attrs && LinksInto(n.attrs[a], set u | u in rm)
  {
    if rm != [] {
      var init := rm[..|rm| - 1];
      var last := rm[|rm| - 1];
      UsersOfMembers(doc, init);
      assert rm == init + [last];
      assert (set u | u in rm) == (set u | u in init) + {last};
      forall v ensures v in Users(doc, last) <==>
                exists n :: n in Descendants(doc) && n.uid == v && exists a :: a in n.attrs && LinksTo(n.attrs[a], last)
      {
      }
    }
  }

  lemma UsersAreAllUsers(doc: Node, rm: seq<UId>)
    requires (set u | u in rm) == Invalid(doc)
    ensures UsersOf(doc, rm) == AllUsers(doc)
  {
    UsersOfMembers(doc, rm);
  }

  /**
   * `remove_invalid_clip_path` with the users of every invalid clipPath
   * collected from the document before any removal, and everything removed
   * at once.
   */
  method RemoveInvalidClipPaths(doc: Node) returns (r: Node)
    ensures r == WithoutInvalidClipPaths(doc)
  {
    var rm := CollectInvalid(doc);
    var clips := set u | u in rm;
    assert clips == Invalid(doc);
    var users := CollectUsers(doc, rm);
    UsersAreAllUsers(doc, rm);
    r := RemoveNodes(doc, clips + users);
  }

  /** No invalid clipPath and no node that used one is left. */
  lemma NoInvalidClipLeft(doc: Node)
    ensures forall m :: m in Flat(WithoutInvalidClipPaths(doc).children) ==>
              m.uid !in Invalid(doc) && m.uid !in AllUsers(doc)
  {
    RemoveNodesHeads(doc, Invalid(doc) + AllUsers(doc));
  }

  /**
   * What remains is exactly the nodes with no invalid clipPath and no user of
   * one at or above them, in document order, with only their links into
   * removed nodes dropped.
   */
  lemma KeepsTheRest(doc: Node)
    ensures HeadSeq(Flat(WithoutInvalidClipPaths(doc).children))
            == UnlinkHeadSeq(HeadSeq(Outside(doc.children, Invalid(doc) + AllUsers(doc))),
                             DroppedUids(doc.children, Invalid(doc) + AllUsers(doc)))
    ensures forall n :: n in Outside(doc.children, Invalid(doc) + AllUsers(doc)) ==>
              !InvalidClip(n) && forall a :: a in n.attrs ==> !LinksInto(n.attrs[a], Invalid(doc))
  {
    RemoveNodesOutside(doc, Invalid(doc) + AllUsers(doc));
    forall n | n in Outside(doc.children, Invalid(doc) + AllUsers(doc))
      ensures !InvalidClip(n) && forall a :: a in n.attrs ==> !LinksInto(n.attrs[a], Invalid(doc))
    {
      assert n in Descendants(doc);
    }
  }

  // ---- a user the source keeps ----

  function El(u: UId, e: EId, attrs: map<AId, AValue>, children: seq<Node>): Node
  {
    Node(u, Element(e), "", attrs, children)
  }

  /**
   * Two empty clipPaths, the second clipped by the first, and a rect clipped
   * by the second.
   */
  function ClipChain(): Node
  {
    Node(0, Root, "", map[], [El(1, EId.ClipPath, map[], []),
                              El(2, EId.ClipPath, map[AId.ClipPath := AValue.FuncLink(1)], []),
                              El(3, EId.Rect, map[AId.ClipPath := AValue.FuncLink(2)], [])])
  }

  // Facts about a root over three childless nodes, stated on abstract nodes so
  // that the concrete example only has to check each node on its own.

  lemma TrioFlat(d: Node, a: Node, b: Node, c: Node)
    requires d.children == [a, b, c] && a.children == [] && b.children == [] && c.children == []
    ensures Descendants(d) == [d, a, b, c]
    ensures Flat([a, c]) == [a, c]
  {
    assert Flat([c]) == [c];
    assert Flat([b, c]) == [b] + Flat([c]);
  }

  lemma TrioOrder(d: Node, a: Node, b: Node, c: Node)
    requires d.children == [a, b, c] && a.children == [] && b.children == [] && c.children == []
    ensures ClipUids(Descendants(d))
            == (if InvalidClip(d) then [d.uid] else []) + (if InvalidClip(a) then [a.uid] else [])
               + (if InvalidClip(b) then [b.uid] else []) + (if InvalidClip(c) then [c.uid] else [])
  {
    TrioFlat(d, a, b, c);
    assert ClipUids([c]) == (if InvalidClip(c) then [c.uid] else []) by { assert [c][1..] == []; }
    assert ClipUids([b, c]) == (if InvalidClip(b) then [b.uid] else []) + ClipUids([c]) by { assert [b, c][1..] == [c]; }
    assert ClipUids([a, b, c]) == (if InvalidClip(a) then [a.uid] else []) + ClipUids([b, c]) by { assert [a, b, c][1..] == [b, c]; }
    assert ClipUids([d, a, b, c]) == (if InvalidClip(d) then [d.uid] else []) + ClipUids([a, b, c]) by { assert [d, a, b, c][1..] == [a, b, c]; }
  }

  lemma TrioUsers(d: Node, a: Node, b: Node, c: Node, u: UId)
    requires d.children == [a, b, c] && a.children == [] && b.children == [] && c.children == []
    requires !HasLinkTo(d, u) && !HasLinkTo(a, u) && HasLinkTo(b, u) && !HasLinkTo(c, u)
    ensures Users(d, u) == {b.uid}
  {
    TrioFlat(d, a, b, c);
    assert FilterLinking([c], u) == [] by { assert [c][1..] == []; }
    assert FilterLinking([b, c], u) == [b] by { assert [b, c][1..] == [c]; }
    assert FilterLinking([a, b, c], u) == [b] by { assert [a, b, c][1..] == [b, c]; }
    assert FilterLinking([d, a, b, c], u) == [b] by { assert [d, a, b, c][1..] == [a, b, c]; }
  }

  lemma TrioPrune(a: Node, b: Node, c: Node, drop: set<UId>)
    requires a.children == [] && b.children == [] && c.children == []
    requires a.uid !in drop && b.uid in drop && c.uid !in drop
    ensures Prune([a, b, c], drop) == [a, c]
  {
    assert Prune([c], drop) == [c] by { assert [c][1..] == []; }
    assert Prune([b, c], drop) == [c] by { assert [b, c][1..] == [c]; }
    assert Prune([a, b, c], drop) == [a] + [c] by { assert [a, b, c][1..] == [b, c]; }
  }

  lemma PairUnlink(a: Node, c: Node, gone: set<UId>)
    requires a.children == [] && c.children == []
    ensures UnlinkAll([a, c], gone) == [a.(attrs := Unlinked(a.attrs, gone)), c.(attrs := Unlinked(c.attrs, gone))]
  {
    assert UnlinkAll([c], gone) == [c.(attrs := Unlinked(c.attrs, gone))] by { assert [c][1..] == []; }
    assert UnlinkAll([a, c], gone) == [a.(attrs := Unlinked(a.attrs, gone))] + UnlinkAll([c], gone) by { assert [a, c][1..] == [c]; }
  }

  lemma TrioRemoveMiddle(d: Node, a: Node, b: Node, c: Node)
    requires d.children == [a, b, c] && a.children == [] && b.children == [] && c.children == []
    requires a.uid != b.uid && c.uid != b.uid
    ensures b.uid in DroppedUids(d.children, {b.uid})
    ensures RemoveNodes(d, {b.uid}).children
            == [a.(attrs := Unlinked(a.attrs, DroppedUids(d.children, {b.uid}))),
                c.(attrs := Unlinked(c.attrs, DroppedUids(d.children, {b.uid})))]
  {
    var drop := {b.uid};
    TrioPrune(a, b, c, drop);
    TrioFlat(d, a, b, c);
    assert b.uid in UidSet(Flat(d.children));
    DroppedContains(d.children, drop, b.uid);
    PairUnlink(a, c, DroppedUids(d.children, drop));
  }

  lemma ClipChainOrder()
    ensures ClipUids(Descendants(ClipChain())) == [1, 2]
  {
    var d := ClipChain();
    TrioOrder(d, d.children[0], d.children[1], d.children[2]);
    assert InvalidClip(d.children[0]) && InvalidClip(d.children[1]) && !InvalidClip(d.children[2]) && !InvalidClip(d);
  }

  lemma ClipChainInvalid()
    ensures Invalid(ClipChain()) == {1, 2}
  {
    var d := ClipChain();
    TrioFlat(d, d.children[0], d.children[1], d.children[2]);
    assert forall n :: n in Descendants(d) <==> n == d || n == d.children[0] || n == d.children[1] || n == d.children[2];
    assert InvalidClip(d.children[0]) && InvalidClip(d.children[1]) && !InvalidClip(d.children[2]) && !InvalidClip(d);
  }

  /** The first clipPath's only user is the second one. */
  lemma ClipChainFirstUsers()
    ensures Users(ClipChain(), 1) == {2}
  {
    var d := ClipChain();
    var a, b, c := d.children[0], d.children[1], d.children[2];
    assert HasLinkTo(b, 1) by { assert LinksTo(b.attrs[AId.ClipPath], 1); }
    assert !HasLinkTo(c, 1) by { assert c.attrs.Keys == {AId.ClipPath}; }
    TrioUsers(d, a, b, c, 1);
  }

  /** What the first turn leaves: the second clipPath gone, and the rect's clip-path with it. */
  function AfterFirst(): Node
  {
    Node(0, Root, "", map[], [El(1, EId.ClipPath, map[], []), El(3, EId.Rect, map[], [])])
  }

  lemma ClipChainFirstTurn()
    ensures RemoveNodes(ClipChain(), {2}) == AfterFirst()
  {
    var d := ClipChain();
    var a, b, c := d.children[0], d.children[1], d.children[2];
    TrioRemoveMiddle(d, a, b, c);
    var gone := DroppedUids(d.children, {2});
    assert Unlinked(c.attrs, gone) == map[] by {
      assert LinksInto(c.attrs[AId.ClipPath], gone);
    }
    assert Unlinked(a.attrs, gone) == map[];
    assert Unlinked(d.attrs, gone) == map[];
  }

  /** In the second turn nothing links to the second clipPath any more. */
  lemma AfterFirstNoUsers()
    ensures Users(AfterFirst(), 2) == {}
  {
    var d := AfterFirst();
    assert Flat(d.children[1..]) == [d.children[1]];
    assert Flat(d.children) == d.children;
    assert !HasLinkTo(d, 2) && !HasLinkTo(d.children[0], 2) && !HasLinkTo(d.children[1], 2);
  }

  /** Two turns: the first clipPath's users removed, then the second's, found in what the first turn left. */
  lemma TwoTurns(d: Node, u1: UId, u2: UId)
    ensures RemoveUsersInTurn(d, [u1, u2])
            == RemoveNodes(RemoveNodes(d, Users(d, u1)), Users(RemoveNodes(d, Users(d, u1)), u2))
  {
    var d1 := RemoveNodes(d, Users(d, u1));
    var d2 := RemoveNodes(d1, Users(d1, u2));
    assert RemoveUsersInTurn(d1, [u2]) == RemoveUsersInTurn(d2, []) by { assert [u2][1..] == []; }
    assert RemoveUsersInTurn(d, [u1, u2]) == RemoveUsersInTurn(d1, [u2]) by { assert [u1, u2][1..] == [u2]; }
  }

  lemma TurnsInOrder()
    ensures RemoveUsersInTurn(ClipChain(), [1, 2]) == AfterFirst()
  {
    var c, af := ClipChain(), AfterFirst();
    TwoTurns(c, 1, 2);
    ClipChainFirstUsers();
    assert Users(c, 1) == {2};
    ClipChainFirstTurn();
    assert RemoveNodes(c, Users(c, 1)) == af;
    AfterFirstNoUsers();
    assert Users(af, 2) == {};
    RemoveNothing(af);
    assert RemoveNodes(af, {}) == af;
  }

  lemma AfterFirstRemove()
    ensures RemoveNodes(AfterFirst(), {1, 2}).children == [El(3, EId.Rect, map[], [])]
  {
    var cs := AfterFirst().children;
    assert Prune(cs[1..], {1, 2}) == [cs[1]];
    assert Prune(cs, {1, 2}) == [cs[1]];
    assert Unlinked(cs[1].attrs, DroppedUids(cs, {1, 2})) == map[];
  }

  /**
   * As written, the rect survives, without its clip-path: the first clipPath's
   * turn removes the second clipPath, which drops the rect's link to it, so
   * the second turn finds no user.
   */
  lemma ClipChainKeepsUser()
    ensures AsWritten(ClipChain()).children == [El(3, EId.Rect, map[], [])]
  {
    ClipChainOrder();
    ClipChainInvalid();
    TurnsInOrder();
    AfterFirstRemove();
  }

  /** With the users collected first, the rect goes too. */
  lemma ClipChainRemovesUser()
    ensures WithoutInvalidClipPaths(ClipChain()).children == []
  {
    ClipChainInvalid();
    var d := ClipChain();
    var cs := d.children;
    TrioFlat(d, cs[0], cs[1], cs[2]);
    assert 3 in AllUsers(d) by {
      assert cs[2] in Descendants(d);
      assert LinksInto(cs[2].attrs[AId.ClipPath], {1, 2});
    }
    var drop := Invalid(d) + AllUsers(d);
    assert 1 in drop && 2 in drop && 3 in drop;
    assert Prune(cs[2..], drop) == [] by { assert cs[2..][1..] == []; }
    assert Prune(cs[1..], drop) == [] by { assert cs[1..][1..] == cs[2..]; }
  }
}
