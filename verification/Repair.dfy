/** Taking a slot out of a leaf and repairing a leaf that ran empty (src/btree/btree.rs, deletion). */
module Repair {
  import opened Bytes
  import opened Disk
  import opened Nodes
  import opened Tree

  // removing a slot

  lemma RemoveSlots(caps: Caps, n: Node, r: Range, i: nat)
    requires n.Leaf? && SlotsOk(caps, n, r) && i < |n.keys|
    ensures SlotsOk(caps, Leaf(RemoveAt(n.keys, i), RemoveAt(n.docs, i), n.next), r)
  {
    hide Rank;
    var ks := RemoveAt(n.keys, i);
    assert forall j :: 0 <= j < |ks| ==> ks[j] == if j < i then n.keys[j] else n.keys[j + 1];
  }

  lemma RemoveHolds(contents: Contents, caps: Caps, n: Node, r: Range, i: nat)
    requires n.Leaf? && SlotsOk(caps, n, r) && Holds(contents, n, r) && i < |n.keys|
    ensures Holds(contents - {n.keys[i]}, Leaf(RemoveAt(n.keys, i), RemoveAt(n.docs, i), n.next), r)
  {
    hide Rank;
    var ks, ds, key := RemoveAt(n.keys, i), RemoveAt(n.docs, i), n.keys[i];
    forall j | 0 <= j < |ks|
      ensures ks[j] in contents && ks[j] != key && contents[ks[j]] == ds[j]
    {
      var j' := if j < i then j else j + 1;
      assert ks[j] == n.keys[j'] && ds[j] == n.docs[j'];
      assert Rank(n.keys[j']) != Rank(key);
    }
    forall k | k in contents && k != key && Covers(r, k)
      ensures k in ks
    {
      var j :| 0 <= j < |n.keys| && n.keys[j] == k;
      assert ks[if j < i then j else j - 1] == k;
    }
  }

  /** Removing a slot keeps the invariant, except that the leaf may be left empty. */
  lemma RemoveSlot(t: T, p: PageId, i: nat)
    requires Inv(t) && t.hole.None? && p in t.shape && p in t.nodes && t.nodes[p].Leaf? && Fits(t.nodes[p])
    requires i < |t.nodes[p].keys|
    ensures var n := t.nodes[p];
      Inv(WithLeaf(t, p, Leaf(RemoveAt(n.keys, i), RemoveAt(n.docs, i), n.next), t.contents - {n.keys[i]}).(hole := Some(p)))
  {
    hide Rank, Sorted, Disjoint, Holds;
    var n, r := t.nodes[p], t.shape[p];
    assert NodeOk(t, p);
    RemoveSlots(t.caps, n, r, i);
    RemoveHolds(t.contents, t.caps, n, r, i);
    assert Covers(r, n.keys[i]);
    OpenHole(t, p);
    LeafChange(t.(hole := Some(p)), p, Leaf(RemoveAt(n.keys, i), RemoveAt(n.docs, i), n.next), t.contents - {n.keys[i]});
  }

  lemma OpenHole(t: T, p: PageId)
    requires Inv(t) && t.hole.None?
    ensures Inv(t.(hole := Some(p)))
  {
    hide Rank, Sorted, Disjoint, Holds, SlotsOk, InternalOk;
    forall q | q in t.shape
      ensures NodeOk(t.(hole := Some(p)), q)
    {
      assert NodeOk(t, q);
    }
  }

  lemma CloseHole(t: T, p: PageId)
    requires Inv(t) && t.hole == Some(p) && p in t.shape && p in t.nodes && (p == t.root || |t.nodes[p].keys| > 0)
    ensures Inv(t.(hole := None))
  {
    hide Rank, Sorted, Disjoint, Holds, SlotsOk, InternalOk;
    forall q | q in t.shape
      ensures NodeOk(t.(hole := None), q)
    {
      assert NodeOk(t, q);
    }
  }

  // two neighbouring leaves, one of them empty

  function Joined(a: Node, b: Node): Node
    requires a.Leaf? && b.Leaf?
  {
    Leaf(a.keys + b.keys, a.docs + b.docs, b.next)
  }

  ghost predicate Neighbours(a: Node, ra: Range, b: Node, rb: Range) {
    && a.Leaf? && b.Leaf? && Fits(a) && Fits(b) && ra.lo < ra.hi == rb.lo < rb.hi
    && (|a.keys| == 0 || |b.keys| == 0)
  }

  lemma JoinedOk(contents: Contents, caps: Caps, a: Node, ra: Range, b: Node, rb: Range)
    requires Neighbours(a, ra, b, rb) && LeafOk(contents, caps, true, a, ra) && LeafOk(contents, caps, true, b, rb)
    ensures LeafOk(contents, caps, true, Joined(a, b), ra.(hi := rb.hi))
  {
    hide Rank;
    if |a.keys| == 0 {
      assert a.keys + b.keys == b.keys && a.docs + b.docs == b.docs;
    } else {
      assert a.keys + b.keys == a.keys && a.docs + b.docs == a.docs;
    }
    forall k | k in contents && Covers(ra.(hi := rb.hi), k)
      ensures k in Joined(a, b).keys
    {
      assert Covers(ra, k) || Covers(rb, k);
    }
  }

  /** The joined slots dealt out again at position c. */
  lemma DealtOk(contents: Contents, caps: Caps, u: Node, r: Range, c: nat, next: Option<PageId>)
    requires u.Leaf? && LeafOk(contents, caps, true, u, r) && 0 < c < |u.keys|
    ensures r.lo < Rank(u.keys[c]) < r.hi && |u.keys[c]| == caps.keyLen
    ensures LeafOk(contents, caps, false, Leaf(u.keys[..c], u.docs[..c], next), r.(hi := Rank(u.keys[c])))
    ensures LeafOk(contents, caps, false, Leaf(u.keys[c..], u.docs[c..], u.next), r.(lo := Rank(u.keys[c])))
  {
    hide Rank, Holds, Sorted;
    SliceSlots(caps, u, r, 0, c, next);
    SliceHolds(contents, caps, u, r, 0, c, next);
    SliceSlots(caps, u, r, c, |u.keys|, u.next);
    SliceHolds(contents, caps, u, r, c, |u.keys|, u.next);
    assert u.keys[c..|u.keys|] == u.keys[c..] && u.docs[c..|u.keys|] == u.docs[c..];
    assert Covers(r, u.keys[c]);
  }

  // the parent of the two leaves

  function Reseparated(n: Node, j: nat, sep: Key): Node
    requires n.Internal? && j < |n.keys|
  {
    n.(keys := n.keys[j := sep])
  }

  lemma ReseparatedSeps(caps: Caps, isRoot: bool, n: Node, r: Range, j: nat, sep: Key)
    requires n.Internal? && SepsOk(caps, isRoot, n, r) && j < |n.keys| && |sep| == caps.keyLen && r.lo < Rank(sep) < r.hi
    requires Bound(n, j, r) < Rank(sep) < Bound(n, j + 2, r)
    ensures SepsOk(caps, isRoot, Reseparated(n, j, sep), r)
  {
    hide Rank;
    assert j > 0 ==> Bound(n, j, r) == Rank(n.keys[j - 1]);
    assert j + 1 < |n.keys| ==> Bound(n, j + 2, r) == Rank(n.keys[j + 1]);
    assert forall i :: 0 <= i < j ==> Rank(n.keys[i]) < Rank(sep);
    assert forall i :: j < i < |n.keys| ==> Rank(sep) < Rank(n.keys[i]);
  }

  /** The cut between children j and j + 1 moves. */
  lemma MoveBound(shape: Shape, shape': Shape, caps: Caps, isRoot: bool, n: Node, r: Range, j: nat, sep: Key)
    requires n.Internal? && InternalOk(shape, caps, isRoot, n, r) && j < |n.keys| && |sep| == caps.keyLen
    requires r.lo < Rank(sep) < r.hi && Bound(n, j, r) < Rank(sep) < Bound(n, j + 2, r) && |n.children| == |n.keys| + 1
    requires forall i :: 0 <= i < |n.children| && i != j && i != j + 1 ==>
      n.children[i] in shape && n.children[i] in shape' && shape'[n.children[i]] == shape[n.children[i]]
    requires n.children[j] in shape && n.children[j + 1] in shape && n.children[j] in shape' && n.children[j + 1] in shape'
    requires shape'[n.children[j]] == shape[n.children[j]].(hi := Rank(sep))
    requires shape'[n.children[j + 1]] == shape[n.children[j + 1]].(lo := Rank(sep))
    ensures InternalOk(shape', caps, isRoot, Reseparated(n, j, sep), r)
  {
    hide Rank, Sorted;
    ReseparatedSeps(caps, isRoot, n, r, j, sep);
    forall i | 0 <= i < |n.children|
      ensures ChildOk(shape', Reseparated(n, j, sep), r, i)
    {
      assert ChildOk(shape, n, r, i);
    }
  }

  function Unlinked(n: Node, j: nat): Node
    requires n.Internal? && j < |n.keys| && |n.children| == |n.keys| + 1
  {
    Internal(RemoveAt(n.keys, j), RemoveAt(n.children, j + 1))
  }

  lemma UnlinkedSeps(caps: Caps, isRoot: bool, n: Node, r: Range, j: nat)
    requires n.Internal? && SepsOk(caps, isRoot, n, r) && j < |n.keys|
    ensures SepsOk(caps, false, Unlinked(n, j), r)
  {
    hide Rank;
    var ks := Unlinked(n, j).keys;
    assert forall i :: 0 <= i < |ks| ==> ks[i] == if i < j then n.keys[i] else n.keys[i + 1];
  }

  lemma UnlinkedBounds(n: Node, r: Range, j: nat, i: nat)
    requires n.Internal? && j < |n.keys| && |n.children| == |n.keys| + 1 && i <= |n.keys|
    ensures Bound(Unlinked(n, j), i, r) == Bound(n, if i <= j then i else i + 1, r)
    ensures i < |n.keys| ==> Unlinked(n, j).children[i] == n.children[if i <= j then i else i + 1]
  {
    hide Rank;
  }

  /** Child j takes over the range of child j + 1. */
  lemma MergeChildren(shape: Shape, shape': Shape, caps: Caps, isRoot: bool, n: Node, r: Range, j: nat)
    requires n.Internal? && InternalOk(shape, caps, isRoot, n, r) && j < |n.keys| && |n.children| == |n.keys| + 1
    requires forall i :: 0 <= i < |n.children| && i != j && i != j + 1 ==>
      n.children[i] in shape && n.children[i] in shape' && shape'[n.children[i]] == shape[n.children[i]]
    requires n.children[j] in shape && n.children[j + 1] in shape && n.children[j] in shape'
    requires shape'[n.children[j]] == shape[n.children[j]].(hi := shape[n.children[j + 1]].hi)
    ensures InternalOk(shape', caps, false, Unlinked(n, j), r)
  {
    hide Rank, Sorted;
    UnlinkedSeps(caps, isRoot, n, r, j);
    assert ChildOk(shape, n, r, j) && ChildOk(shape, n, r, j + 1);
    forall i | 0 <= i < |n.keys|
      ensures ChildOk(shape', Unlinked(n, j), r, i)
    {
      UnlinkedBounds(n, r, j, i);
      UnlinkedBounds(n, r, j, i + 1);
      assert ChildOk(shape, n, r, if i <= j then i else i + 1);
    }
  }

  // the two repairs, as steps of the whole tree

  /** Leaves a and b are children j and j + 1 of page q, and one of them is the hole, empty. */
  ghost predicate Siblings(t: T, q: PageId, j: nat, a: PageId, b: PageId) {
    && q in t.shape && q in t.nodes && t.nodes[q].Internal? && Fits(t.nodes[q]) && j < |t.nodes[q].keys|
    && t.nodes[q].children[j] == a && t.nodes[q].children[j + 1] == b && a in t.nodes && b in t.nodes
    && t.nodes[a].Leaf? && t.nodes[b].Leaf? && Fits(t.nodes[a]) && Fits(t.nodes[b])
    && ((t.hole == Some(a) && |t.nodes[a].keys| == 0) || (t.hole == Some(b) && |t.nodes[b].keys| == 0))
  }

  lemma SiblingFacts(t: T, q: PageId, j: nat, a: PageId, b: PageId)
    requires Inv(t) && Siblings(t, q, j, a, b)
    ensures a in t.shape && b in t.shape && t.shape[a].h == t.shape[b].h == 0 && t.shape[q].h == 1
    ensures a != b && a != q && b != q && a != t.root && b != t.root && NodeOk(t, q) && NodeOk(t, a) && NodeOk(t, b)
    ensures Neighbours(t.nodes[a], t.shape[a], t.nodes[b], t.shape[b])
    ensures t.shape[a].lo == Bound(t.nodes[q], j, t.shape[q]) && t.shape[b].hi == Bound(t.nodes[q], j + 2, t.shape[q])
    ensures t.shape[q].lo <= t.shape[a].lo && t.shape[b].hi <= t.shape[q].hi
    ensures t.nodes[a].next == Some(b)
  {
    hide Rank, Sorted, Holds, Bound;
    Descend(t, q, j);
    Descend(t, q, j + 1);
    assert NodeOk(t, q) && NodeOk(t, a) && NodeOk(t, b);
  }

  /** Only leaf a leads to leaf b, and only page q has either as a child. */
  lemma OthersApart(t: T, q: PageId, j: nat, a: PageId, b: PageId, x: PageId)
    requires Inv(t) && Siblings(t, q, j, a, b) && x in t.shape && x in t.nodes && x != q && x != a
    ensures t.nodes[x].Internal? ==> a !in t.nodes[x].children && b !in t.nodes[x].children
    ensures t.nodes[x].Leaf? ==> t.nodes[x].next != Some(b)
  {
    hide Rank, Sorted, Holds, Bound;
    SiblingFacts(t, q, j, a, b);
    assert NodeOk(t, x);
    if t.nodes[x].Internal? {
      forall i | 0 <= i < |t.nodes[x].children|
        ensures t.nodes[x].children[i] != a && t.nodes[x].children[i] != b
      {
        if t.nodes[x].children[i] == a { OneParent(t, x, i, q, j); }
        if t.nodes[x].children[i] == b { OneParent(t, x, i, q, j + 1); }
      }
    }
  }

  lemma OtherChildren(t: T, q: PageId, j: nat, a: PageId, b: PageId, i: nat)
    requires Inv(t) && Siblings(t, q, j, a, b) && i < |t.nodes[q].children| && i != j && i != j + 1
    ensures t.nodes[q].children[i] in t.shape && t.nodes[q].children[i] != a && t.nodes[q].children[i] != b
  {
    hide Rank, Sorted, Holds, Bound, NodeOk;
    Descend(t, q, i);
    if t.nodes[q].children[i] == a { OneParent(t, q, i, q, j); }
    if t.nodes[q].children[i] == b { OneParent(t, q, i, q, j + 1); }
  }

  ghost function MoveShape(shape: Shape, a: PageId, b: PageId, cut: real): Shape
    requires a in shape && b in shape
  {
    shape[a := shape[a].(hi := cut)][b := shape[b].(lo := cut)]
  }

  function DealtNodes(nodes: map<PageId, Node>, q: PageId, j: nat, a: PageId, b: PageId, c: nat): map<PageId, Node>
    requires q in nodes && nodes[q].Internal? && j < |nodes[q].keys| && a in nodes && b in nodes
    requires nodes[a].Leaf? && nodes[b].Leaf? && Fits(nodes[a]) && Fits(nodes[b]) && c < |nodes[a].keys| + |nodes[b].keys|
  {
    var u := Joined(nodes[a], nodes[b]);
    nodes[a := Leaf(u.keys[..c], u.docs[..c], nodes[a].next)][b := Leaf(u.keys[c..], u.docs[c..], u.next)]
         [q := Reseparated(nodes[q], j, u.keys[c])]
  }

  /** Redistribution: the slots of both leaves dealt out at position c. */
  ghost function Dealt(t: T, q: PageId, j: nat, a: PageId, b: PageId, c: nat): T
    requires Siblings(t, q, j, a, b) && a in t.shape && b in t.shape && c < |Joined(t.nodes[a], t.nodes[b]).keys|
  {
    t.(nodes := DealtNodes(t.nodes, q, j, a, b, c),
       shape := MoveShape(t.shape, a, b, Rank(Joined(t.nodes[a], t.nodes[b]).keys[c])), hole := None)
  }

  ghost predicate CanDeal(t: T, q: PageId, j: nat, a: PageId, b: PageId, c: nat) {
    && Inv(t) && Siblings(t, q, j, a, b) && a in t.shape && b in t.shape
    && 0 < c < |Joined(t.nodes[a], t.nodes[b]).keys|
  }

  lemma DealtFrame(t: T, q: PageId, j: nat, a: PageId, b: PageId, c: nat)
    requires CanDeal(t, q, j, a, b, c)
    ensures var t' := Dealt(t, q, j, a, b, c); ShapeOk(t'.nodes, t'.shape) && RootOk(t'.root, t'.shape)
  {
    hide Rank, Sorted, Holds, Bound, SlotsOk, Disjoint;
    SiblingFacts(t, q, j, a, b);
    var u := Joined(t.nodes[a], t.nodes[b]);
    JoinedOk(t.contents, t.caps, t.nodes[a], t.shape[a], t.nodes[b], t.shape[b]);
    DealtOk(t.contents, t.caps, u, t.shape[a].(hi := t.shape[b].hi), c, t.nodes[a].next);
    MoveDisjoint(t.shape, a, b, Rank(u.keys[c]));
  }

  lemma DealtLeaves(t: T, q: PageId, j: nat, a: PageId, b: PageId, c: nat)
    requires CanDeal(t, q, j, a, b, c)
    ensures NodeOk(Dealt(t, q, j, a, b, c), a) && NodeOk(Dealt(t, q, j, a, b, c), b)
  {
    hide Rank, Sorted, Holds, Bound, SlotsOk, Disjoint;
    SiblingFacts(t, q, j, a, b);
    var u := Joined(t.nodes[a], t.nodes[b]);
    JoinedOk(t.contents, t.caps, t.nodes[a], t.shape[a], t.nodes[b], t.shape[b]);
    DealtOk(t.contents, t.caps, u, t.shape[a].(hi := t.shape[b].hi), c, t.nodes[a].next);
  }

  lemma MoveDisjoint(shape: Shape, a: PageId, b: PageId, cut: real)
    requires Disjoint(shape) && a in shape && b in shape && a != b && shape[a].h == shape[b].h
    requires shape[a].lo < shape[a].hi == shape[b].lo < shape[b].hi && shape[a].lo < cut < shape[b].hi
    requires forall p :: p in shape ==> shape[p].lo < shape[p].hi
    ensures Disjoint(MoveShape(shape, a, b, cut))
  {
  }

  lemma DealtParent(t: T, q: PageId, j: nat, a: PageId, b: PageId, c: nat)
    requires CanDeal(t, q, j, a, b, c)
    ensures NodeOk(Dealt(t, q, j, a, b, c), q)
  {
    hide Rank, Sorted, Holds, Bound, SlotsOk, Disjoint;
    SiblingFacts(t, q, j, a, b);
    var n, r, u := t.nodes[q], t.shape[q], Joined(t.nodes[a], t.nodes[b]);
    JoinedOk(t.contents, t.caps, t.nodes[a], t.shape[a], t.nodes[b], t.shape[b]);
    DealtOk(t.contents, t.caps, u, t.shape[a].(hi := t.shape[b].hi), c, t.nodes[a].next);
    forall i | 0 <= i < |n.children| && i != j && i != j + 1
      ensures n.children[i] in t.shape && n.children[i] != a && n.children[i] != b
    {
      OtherChildren(t, q, j, a, b, i);
    }
    MoveBound(t.shape, MoveShape(t.shape, a, b, Rank(u.keys[c])), t.caps, q == t.root, n, r, j, u.keys[c]);
  }

  /** Redistribution repairs the tree and keeps what it represents. */
  lemma DealtInv(t: T, q: PageId, j: nat, a: PageId, b: PageId, c: nat)
    requires CanDeal(t, q, j, a, b, c)
    ensures Inv(Dealt(t, q, j, a, b, c))
  {
    hide Rank, Sorted, Holds, Bound, SlotsOk, Disjoint, SepsOk;
    var t' := Dealt(t, q, j, a, b, c);
    DealtFrame(t, q, j, a, b, c);
    DealtLeaves(t, q, j, a, b, c);
    DealtParent(t, q, j, a, b, c);
    forall x | x in t.shape && x != q && x != a && x != b
      ensures NodeOk(t', x)
    {
      assert NodeOk(t, x);
      OthersApart(t, q, j, a, b, x);
      if t.nodes[x].Internal? {
        LowerChildren(t.shape, t.caps, x == t.root, t.nodes[x], t.shape[x]);
        SameChildren(t.shape, t'.shape, t.caps, x == t.root, t.nodes[x], t.shape[x]);
      }
    }
  }

  ghost function MergeShape(shape: Shape, a: PageId, b: PageId): Shape
    requires a in shape && b in shape
  {
    (shape - {b})[a := shape[a].(hi := shape[b].hi)]
  }

  function MergedNodes(nodes: map<PageId, Node>, q: PageId, j: nat, a: PageId, b: PageId): map<PageId, Node>
    requires q in nodes && nodes[q].Internal? && j < |nodes[q].keys| && Fits(nodes[q])
    requires a in nodes && b in nodes && nodes[a].Leaf? && nodes[b].Leaf?
  {
    nodes[a := Joined(nodes[a], nodes[b])][q := Unlinked(nodes[q], j)]
  }

  /** Merge: leaf a takes the slots and the successor of leaf b, which drops out of the tree. */
  ghost function Merged(t: T, q: PageId, j: nat, a: PageId, b: PageId): T
    requires Siblings(t, q, j, a, b) && a in t.shape && b in t.shape
  {
    t.(nodes := MergedNodes(t.nodes, q, j, a, b),
       shape := MergeShape(t.shape, a, b), hole := None)
  }

  ghost predicate CanMerge(t: T, q: PageId, j: nat, a: PageId, b: PageId) {
    && Inv(t) && Siblings(t, q, j, a, b) && a in t.shape && b in t.shape
    && (|t.nodes[a].keys| > 0 || |t.nodes[b].keys| > 0)
  }

  lemma MergeDisjoint(shape: Shape, a: PageId, b: PageId)
    requires Disjoint(shape) && a in shape && b in shape && a != b && shape[a].h == shape[b].h
    requires shape[a].lo < shape[a].hi == shape[b].lo < shape[b].hi
    requires forall p :: p in shape ==> shape[p].lo < shape[p].hi
    ensures Disjoint(MergeShape(shape, a, b))
  {
  }

  lemma MergedFrame(t: T, q: PageId, j: nat, a: PageId, b: PageId)
    requires CanMerge(t, q, j, a, b)
    ensures var t' := Merged(t, q, j, a, b);
            ShapeOk(t'.nodes, t'.shape) && RootOk(t'.root, t'.shape) && NodeOk(t', a)
  {
    hide Rank, Sorted, Holds, Bound, SlotsOk;
    SiblingFacts(t, q, j, a, b);
    JoinedOk(t.contents, t.caps, t.nodes[a], t.shape[a], t.nodes[b], t.shape[b]);
    MergeDisjoint(t.shape, a, b);
    assert t.nodes[b].next != Some(b);
  }

  lemma MergedParent(t: T, q: PageId, j: nat, a: PageId, b: PageId)
    requires CanMerge(t, q, j, a, b)
    ensures InternalOk(Merged(t, q, j, a, b).shape, t.caps, false, Unlinked(t.nodes[q], j), t.shape[q])
  {
    hide Rank, Sorted, Holds, Bound, SlotsOk, Disjoint;
    SiblingFacts(t, q, j, a, b);
    var n, r := t.nodes[q], t.shape[q];
    forall i | 0 <= i < |n.children| && i != j && i != j + 1
      ensures n.children[i] in t.shape && n.children[i] != a && n.children[i] != b
    {
      OtherChildren(t, q, j, a, b, i);
    }
    MergeChildren(t.shape, MergeShape(t.shape, a, b), t.caps, q == t.root, n, r, j);
  }

  /** Merging repairs the tree and keeps what it represents, unless the root loses its only separator. */
  lemma MergedInv(t: T, q: PageId, j: nat, a: PageId, b: PageId)
    requires CanMerge(t, q, j, a, b) && (q == t.root ==> |t.nodes[q].keys| > 1)
    ensures Inv(Merged(t, q, j, a, b))
  {
    hide Rank, Sorted, Holds, Bound, SlotsOk, Disjoint;
    var t' := Merged(t, q, j, a, b);
    SiblingFacts(t, q, j, a, b);
    MergedFrame(t, q, j, a, b);
    MergedParent(t, q, j, a, b);
    forall x | x in t.shape && x != q && x != a && x != b
      ensures NodeOk(t', x)
    {
      assert NodeOk(t, x);
      OthersApart(t, q, j, a, b, x);
      if t.nodes[x].Internal? {
        LowerChildren(t.shape, t.caps, x == t.root, t.nodes[x], t.shape[x]);
        SameChildren(t.shape, t'.shape, t.caps, x == t.root, t.nodes[x], t.shape[x]);
      }
    }
  }

  /** When the root loses its only separator, the merged leaf is the whole tree and becomes the root. */
  ghost function Collapsed(t: T, q: PageId, j: nat, a: PageId, b: PageId): T
    requires Siblings(t, q, j, a, b) && a in t.shape && b in t.shape
  {
    Merged(t, q, j, a, b).(root := a, shape := map[a := Range(0, 0.0, 1.0)])
  }

  lemma CollapsedInv(t: T, q: PageId, j: nat, a: PageId, b: PageId)
    requires CanMerge(t, q, j, a, b) && q == t.root && |t.nodes[q].keys| == 1
    ensures Inv(Collapsed(t, q, j, a, b)) && Merged(t, q, j, a, b).nodes[q].children == [a]
  {
    hide Rank, Sorted, Holds, SlotsOk;
    SiblingFacts(t, q, j, a, b);
    JoinedOk(t.contents, t.caps, t.nodes[a], t.shape[a], t.nodes[b], t.shape[b]);
    assert j == 0;
    var t' := Collapsed(t, q, j, a, b);
    assert t.shape[a].(hi := t.shape[b].hi) == Range(0, 0.0, 1.0);
    assert NodeOk(t', a);
  }

  // which repair is chosen

  /** Page q has leaf children only, all of them well formed. */
  ghost predicate LeafFamily(nodes: map<PageId, Node>, q: PageId) {
    && q in nodes && nodes[q].Internal? && Fits(nodes[q])
    && forall j :: 0 <= j < |nodes[q].children| ==>
         nodes[q].children[j] in nodes && nodes[nodes[q].children[j]].Leaf? && Fits(nodes[nodes[q].children[j]])
  }

  /** Repairing child i of page q: borrow from the left, else from the right, else merge left, else merge right. */
  ghost function RepairNodes(nodes: map<PageId, Node>, q: PageId, i: nat): map<PageId, Node>
    requires LeafFamily(nodes, q) && i < |nodes[q].children|
  {
    var n := nodes[q];
    if i > 0 && |nodes[n.children[i - 1]].keys| > 1 then
      DealtNodes(nodes, q, i - 1, n.children[i - 1], n.children[i], |nodes[n.children[i - 1]].keys| - 1)
    else if i < |n.keys| && |nodes[n.children[i + 1]].keys| > 1 then
      DealtNodes(nodes, q, i, n.children[i], n.children[i + 1], |nodes[n.children[i]].keys| + 1)
    else if i > 0 then MergedNodes(nodes, q, i - 1, n.children[i - 1], n.children[i])
    else if i < |n.keys| then MergedNodes(nodes, q, i, n.children[i], n.children[i + 1])
    else nodes
  }

  /** Leaf p, child i of page q, has just run empty. */
  ghost predicate Emptied(t: T, p: PageId, q: PageId, i: nat) {
    && Inv(t) && t.hole == Some(p) && p in t.nodes && |t.nodes[p].keys| == 0
    && q in t.shape && LeafFamily(t.nodes, q) && i < |t.nodes[q].children| && t.nodes[q].children[i] == p
  }

  lemma SiblingNonempty(t: T, q: PageId, i: nat, k: nat)
    requires Inv(t) && q in t.shape && LeafFamily(t.nodes, q) && i < |t.nodes[q].children| && k < |t.nodes[q].children|
    requires t.hole == Some(t.nodes[q].children[i]) && i != k
    ensures |t.nodes[t.nodes[q].children[k]].keys| > 0 && t.nodes[q].children[k] in t.shape
  {
    hide Rank, Sorted, Holds, Bound, SlotsOk, Disjoint;
    Descend(t, q, k);
    if t.nodes[q].children[i] == t.nodes[q].children[k] { OneParent(t, q, i, q, k); }
    assert NodeOk(t, t.nodes[q].children[k]);
  }

  /** How many separators page q has after repairing its empty child i. */
  ghost function SepsAfter(nodes: map<PageId, Node>, q: PageId, i: nat): nat
    requires LeafFamily(nodes, q) && i < |nodes[q].children|
  {
    var n := nodes[q];
    if |n.keys| == 0 then 0
    else if (i > 0 && |nodes[n.children[i - 1]].keys| > 1) || (i < |n.keys| && |nodes[n.children[i + 1]].keys| > 1)
    then |n.keys| else |n.keys| - 1
  }

  /** Repairing an empty leaf that has a sibling gives a tree for the same map. Its root is the old one, unless the root
      has lost its last separator and gives way to its only child. */
  lemma RepairInv(t: T, p: PageId, q: PageId, i: nat) returns (t': T)
    requires Emptied(t, p, q, i) && |t.nodes[q].keys| > 0
    ensures Inv(t') && t'.nodes == RepairNodes(t.nodes, q, i) && t'.hole.None? && t'.contents == t.contents && t'.caps == t.caps
    ensures q in t'.nodes && t'.nodes[q].Internal? && Fits(t'.nodes[q]) && |t'.nodes[q].keys| == SepsAfter(t.nodes, q, i)
    ensures t'.shape.Keys <= t.shape.Keys
    ensures if q == t.root && SepsAfter(t.nodes, q, i) == 0 then t'.nodes[q].children == [t'.root] else t'.root == t.root
  {
    hide Inv, Rank, Sorted, Holds, Bound, NodeOk;
    var n := t.nodes[q];
    if i > 0 {
      SiblingNonempty(t, q, i, i - 1);
      SiblingFacts(t, q, i - 1, n.children[i - 1], p);
    }
    if i < |n.keys| {
      SiblingNonempty(t, q, i, i + 1);
      SiblingFacts(t, q, i, p, n.children[i + 1]);
    }
    if i > 0 && |t.nodes[n.children[i - 1]].keys| > 1 {
      t' := Dealt(t, q, i - 1, n.children[i - 1], p, |t.nodes[n.children[i - 1]].keys| - 1);
      DealtInv(t, q, i - 1, n.children[i - 1], p, |t.nodes[n.children[i - 1]].keys| - 1);
    } else if i < |n.keys| && |t.nodes[n.children[i + 1]].keys| > 1 {
      t' := Dealt(t, q, i, p, n.children[i + 1], 1);
      DealtInv(t, q, i, p, n.children[i + 1], 1);
    } else {
      var j := if i > 0 then i - 1 else i;
      t' := MergeStep(t, q, j, n.children[j], n.children[j + 1]);
    }
  }

  /** A repair touches page q and its children only. */
  lemma RepairTouches(nodes: map<PageId, Node>, q: PageId, i: nat, x: PageId)
    requires LeafFamily(nodes, q) && i < |nodes[q].children| && x in nodes && x != q && x !in nodes[q].children
    ensures x in RepairNodes(nodes, q, i) && RepairNodes(nodes, q, i)[x] == nodes[x]
  {
  }

  lemma MergeStep(t: T, q: PageId, j: nat, a: PageId, b: PageId) returns (t': T)
    requires CanMerge(t, q, j, a, b)
    ensures Inv(t') && t'.nodes == MergedNodes(t.nodes, q, j, a, b) && t'.hole.None? && t'.contents == t.contents && t'.caps == t.caps
    ensures t'.shape.Keys <= t.shape.Keys
    ensures if q == t.root && |t.nodes[q].keys| == 1 then t'.nodes[q].children == [t'.root] else t'.root == t.root
  {
    hide Inv, Rank, Sorted, Holds, Bound, NodeOk;
    if q == t.root && |t.nodes[q].keys| == 1 {
      t' := Collapsed(t, q, j, a, b);
      CollapsedInv(t, q, j, a, b);
    } else {
      t' := Merged(t, q, j, a, b);
      if q == t.root { RootHasSeps(t); }
      MergedInv(t, q, j, a, b);
    }
  }

  lemma RootHasSeps(t: T)
    requires Inv(t)
    ensures t.root in t.nodes && (t.nodes[t.root].Internal? ==> |t.nodes[t.root].keys| > 0)
  {
    InNodes(t, t.root);
  }
}
