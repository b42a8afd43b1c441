/** What a B+tree page holds, and the searches the node layer offers (src/btree/node.rs). */
module Nodes {
  import opened Bytes
  import opened Disk

  const PAGE_SIZE := 4096
  const HEADER_SIZE := 13
  const LEAF_SLOT := 14
  const INTERNAL_SLOT := 12

  type Key = Bytes
  type DocId = (PageId, nat)

  /** Slot i of a leaf is (keys[i], docs[i]). An internal page has its leftmost child, then one child per separator. */
  datatype Node =
    | Leaf(keys: seq<Key>, docs: seq<DocId>, next: Option<PageId>)
    | Internal(keys: seq<Key>, children: seq<PageId>)

  function KeyBytes(ks: seq<Key>): nat {
    if |ks| == 0 then 0 else |ks[0]| + KeyBytes(ks[1..])
  }

  /** Room between the slot array and the keys for one more slot with a key of the given length. */
  predicate HasSpace(n: Node, keyLen: nat) {
    var slot := if n.Leaf? then LEAF_SLOT else INTERNAL_SLOT;
    PAGE_SIZE - KeyBytes(n.keys) >= keyLen + HEADER_SIZE + (|n.keys| + 1) * slot
  }

  ghost predicate Sorted(ks: seq<Key>) {
    forall i, j :: 0 <= i < j < |ks| ==> Rank(ks[i]) < Rank(ks[j])
  }

  /** First position whose key is not below the given one. */
  function LowerBound(ks: seq<Key>, key: Key): (i: nat)
    ensures i <= |ks| && (forall j :: 0 <= j < i ==> Rank(ks[j]) < Rank(key))
    ensures i < |ks| ==> Rank(key) <= Rank(ks[i])
  {
    if |ks| == 0 then 0 else
      RankOrder(ks[0], key);
      if Lt(ks[0], key) then 1 + LowerBound(ks[1..], key) else 0
  }

  /** First position whose key is above the given one. */
  function UpperBound(ks: seq<Key>, key: Key): (i: nat)
    ensures i <= |ks| && (forall j :: 0 <= j < i ==> Rank(ks[j]) <= Rank(key))
    ensures i < |ks| ==> Rank(key) < Rank(ks[i])
  {
    if |ks| == 0 then 0 else
      RankOrder(ks[0], key); RankOrder(key, ks[0]);
      if Le(ks[0], key) then 1 + UpperBound(ks[1..], key) else 0
  }

  predicate DocLt(a: DocId, b: DocId) {
    a.0 < b.0 || (a.0 == b.0 && a.1 < b.1)
  }

  predicate SlotLt(k: Key, d: DocId, key: Key, doc: DocId) {
    Lt(k, key) || (k == key && DocLt(d, doc))
  }

  /** First slot that does not come before (key, doc). */
  function SlotBound(ks: seq<Key>, ds: seq<DocId>, key: Key, doc: DocId): (i: nat)
    requires |ks| == |ds|
    ensures i <= |ks| && (forall j :: 0 <= j < i ==> SlotLt(ks[j], ds[j], key, doc))
    ensures i < |ks| ==> !SlotLt(ks[i], ds[i], key, doc)
  {
    if |ks| == 0 || !SlotLt(ks[0], ds[0], key, doc) then 0
    else 1 + SlotBound(ks[1..], ds[1..], key, doc)
  }

  /** Among distinct keys the document id plays no part in where a new key goes. */
  lemma {:induction false} SlotBoundAbsent(ks: seq<Key>, ds: seq<DocId>, key: Key, doc: DocId)
    requires |ks| == |ds| && key !in ks
    ensures SlotBound(ks, ds, key, doc) == LowerBound(ks, key)
  {
    if |ks| == 0 {
    } else {
      SlotBoundAbsent(ks[1..], ds[1..], key, doc);
    }
  }

  function InsertAt<X>(s: seq<X>, i: nat, x: X): (r: seq<X>)
    requires i <= |s|
  {
    s[..i] + [x] + s[i..]
  }

  lemma InsertedAt<X>(s: seq<X>, i: nat, x: X, j: nat)
    requires i <= |s| && j <= |s|
    ensures InsertAt(s, i, x)[j] == if j < i then s[j] else if j == i then x else s[j - 1]
  {
  }

  lemma InsertedLength<X>(s: seq<X>, i: nat, x: X)
    requires i <= |s|
    ensures |InsertAt(s, i, x)| == |s| + 1
  {
  }

  lemma InsertedIn<X>(s: seq<X>, i: nat, x: X, y: X)
    requires i <= |s|
    ensures y in InsertAt(s, i, x) <==> y in s || y == x
  {
    assert s == s[..i] + s[i..];
  }

  function RemoveAt<X>(s: seq<X>, i: nat): (r: seq<X>)
    requires i < |s|
  {
    s[..i] + s[i + 1..]
  }
}

/** The B+tree invariant over a flat page map (src/btree/btree.rs). */
module Tree {
  import opened Bytes
  import opened Disk
  import opened Nodes

  /** How many entries and separators of the tree's one key length fit a page. */
  datatype Caps = Caps(leaf: nat, sep: nat, keyLen: nat)

  /** Height above the leaves and the half-open range of key ranks a page is responsible for. */
  datatype Range = Range(h: nat, lo: real, hi: real)

  type Shape = map<PageId, Range>
  type Contents = map<Key, DocId>

  /** A tree: its pages, their places, and what it represents. Leaf `hole`, if any, has just lost its last slot. */
  datatype T = T(root: PageId, nodes: map<PageId, Node>, shape: Shape, contents: Contents, caps: Caps, hole: Option<PageId>)

  ghost predicate Covers(r: Range, key: Key) {
    r.lo <= Rank(key) < r.hi
  }

  ghost predicate SlotsOk(caps: Caps, n: Node, r: Range)
    requires n.Leaf?
  {
    && r.h == 0 && Sorted(n.keys) && |n.keys| == |n.docs| <= caps.leaf
    && (forall i :: 0 <= i < |n.keys| ==> Covers(r, n.keys[i]) && |n.keys[i]| == caps.keyLen)
  }

  /** A leaf holds exactly the represented pairs whose keys it covers. */
  ghost predicate Holds(contents: Contents, n: Node, r: Range)
    requires n.Leaf? && |n.keys| == |n.docs|
  {
    && (forall i :: 0 <= i < |n.keys| ==> n.keys[i] in contents && contents[n.keys[i]] == n.docs[i])
    && (forall k :: k in contents && Covers(r, k) ==> k in n.keys)
  }

  ghost predicate LeafOk(contents: Contents, caps: Caps, isRoot: bool, n: Node, r: Range)
    requires n.Leaf?
  {
    SlotsOk(caps, n, r) && Holds(contents, n, r) && (isRoot || |n.keys| > 0)
  }

  /** The leaf chain: the next leaf starts where this one ends; the last one ends at the top. */
  ghost predicate ChainOk(shape: Shape, next: Option<PageId>, r: Range) {
    if r.hi == 1.0 then next.None?
    else next.Some? && next.value in shape && shape[next.value].h == 0 && shape[next.value].lo == r.hi
  }

  /** Boundary i of an internal node's children. */
  ghost function Bound(n: Node, i: nat, r: Range): real
    requires n.Internal? && i <= |n.keys| + 1
  {
    if i == 0 then r.lo else if i <= |n.keys| then Rank(n.keys[i - 1]) else r.hi
  }

  ghost predicate SepsOk(caps: Caps, isRoot: bool, n: Node, r: Range)
    requires n.Internal?
  {
    && r.h > 0 && Sorted(n.keys) && |n.keys| <= caps.sep && (isRoot ==> |n.keys| > 0)
    && (forall i :: 0 <= i < |n.keys| ==> r.lo < Rank(n.keys[i]) < r.hi && |n.keys[i]| == caps.keyLen)
    && |n.children| == |n.keys| + 1
  }

  ghost predicate ChildOk(shape: Shape, n: Node, r: Range, i: nat)
    requires n.Internal? && |n.children| == |n.keys| + 1 && i <= |n.keys| && r.h > 0
  {
    n.children[i] in shape && shape[n.children[i]] == Range(r.h - 1, Bound(n, i, r), Bound(n, i + 1, r))
  }

  ghost predicate InternalOk(shape: Shape, caps: Caps, isRoot: bool, n: Node, r: Range)
    requires n.Internal?
  {
    SepsOk(caps, isRoot, n, r) && forall i :: 0 <= i < |n.children| ==> ChildOk(shape, n, r, i)
  }

  ghost predicate NodeOk(t: T, p: PageId)
    requires p in t.nodes && p in t.shape
  {
    var n, r := t.nodes[p], t.shape[p];
    if n.Leaf? then LeafOk(t.contents, t.caps, p == t.root || t.hole == Some(p), n, r) && ChainOk(t.shape, n.next, r)
    else InternalOk(t.shape, t.caps, p == t.root, n, r)
  }

  /** Pages of one level are responsible for disjoint ranges. */
  ghost predicate Disjoint(shape: Shape) {
    forall p, q :: p in shape && q in shape && p != q && shape[p].h == shape[q].h ==>
      shape[p].hi <= shape[q].lo || shape[q].hi <= shape[p].lo
  }

  ghost predicate ShapeOk(nodes: map<PageId, Node>, shape: Shape) {
    && Disjoint(shape)
    && (forall p :: p in shape ==> p in nodes && 0.0 <= shape[p].lo < shape[p].hi <= 1.0)
  }

  /** The root is responsible for every key and stands above every other page. */
  ghost predicate RootOk(root: PageId, shape: Shape) {
    && root in shape && shape[root].lo == 0.0 && shape[root].hi == 1.0
    && (forall p :: p in shape ==> shape[p].h <= shape[root].h)
  }

  ghost predicate Inv(t: T) {
    && ShapeOk(t.nodes, t.shape) && RootOk(t.root, t.shape) && t.caps.leaf >= 2 && t.caps.sep >= 2
    && forall p :: p in t.shape ==> NodeOk(t, p)
  }

  // key sequences

  lemma SortedInsert(ks: seq<Key>, i: nat, k: Key)
    requires Sorted(ks) && i <= |ks|
    requires i > 0 ==> Rank(ks[i - 1]) < Rank(k)
    requires i < |ks| ==> Rank(k) < Rank(ks[i])
    ensures LowerBound(ks, k) == i && Sorted(InsertAt(ks, i, k))
  {
    hide Rank, LowerBound;
    var s := InsertAt(ks, i, k);
    assert forall j :: 0 <= j < |s| ==> s[j] == if j < i then ks[j] else if j == i then k else ks[j - 1];
    assert forall j :: 0 <= j < i ==> Rank(ks[j]) < Rank(k);
    assert forall j :: i <= j < |ks| ==> Rank(k) < Rank(ks[j]);
  }

  lemma SortedSlice(ks: seq<Key>, a: nat, b: nat)
    requires Sorted(ks) && a <= b <= |ks|
    ensures Sorted(ks[a..b])
  {
  }

  lemma BoundsIncrease(caps: Caps, isRoot: bool, n: Node, r: Range, i: nat, j: nat)
    requires n.Internal? && SepsOk(caps, isRoot, n, r) && r.lo < r.hi && i < j <= |n.keys| + 1
    ensures Bound(n, i, r) < Bound(n, j, r)
  {
    assert i > 0 ==> r.lo < Rank(n.keys[i - 1]) < r.hi;
    assert j <= |n.keys| ==> r.lo < Rank(n.keys[j - 1]) < r.hi;
  }

  lemma ChildRange(shape: Shape, caps: Caps, isRoot: bool, n: Node, r: Range, i: nat)
    requires n.Internal? && InternalOk(shape, caps, isRoot, n, r) && r.lo < r.hi && i <= |n.keys|
    ensures ChildOk(shape, n, r, i) && r.lo <= shape[n.children[i]].lo < shape[n.children[i]].hi <= r.hi
  {
    hide Rank;
    BoundsIncrease(caps, isRoot, n, r, i, i + 1);
    if i > 0 { BoundsIncrease(caps, isRoot, n, r, 0, i); }
    if i < |n.keys| { BoundsIncrease(caps, isRoot, n, r, i + 1, |n.keys| + 1); }
  }

  /** A page has at most one parent, and one place in it. */
  lemma OneParent(t: T, p: PageId, i: nat, q: PageId, j: nat)
    requires Inv(t) && p in t.shape && q in t.shape && t.nodes[p].Internal? && t.nodes[q].Internal?
    requires i < |t.nodes[p].children| && j < |t.nodes[q].children| && t.nodes[p].children[i] == t.nodes[q].children[j]
    ensures p == q && i == j
  {
    hide Rank, Sorted;
    var n, r := t.nodes[p], t.shape[p];
    assert NodeOk(t, p) && NodeOk(t, q);
    ChildRange(t.shape, t.caps, p == t.root, n, r, i);
    ChildRange(t.shape, t.caps, q == t.root, t.nodes[q], t.shape[q], j);
    if i < j {
      BoundsIncrease(t.caps, p == t.root, n, r, i, j);
    } else if j < i {
      BoundsIncrease(t.caps, p == t.root, n, r, j, i);
    }
  }

  // splitting a full page

  predicate Full(n: Node, caps: Caps) {
    if n.Leaf? then |n.keys| >= caps.leaf else |n.keys| >= caps.sep
  }

  predicate Fits(n: Node) {
    if n.Leaf? then |n.docs| == |n.keys| else |n.children| == |n.keys| + 1
  }

  /** The page's lower half, the separator to hand to the parent, and the new sibling. */
  function Halves(n: Node, sib: PageId): (Node, Key, Node)
    requires |n.keys| > 0 && Fits(n)
  {
    var mid := |n.keys| / 2;
    if n.Leaf? then
      (Leaf(n.keys[..mid], n.docs[..mid], Some(sib)), n.keys[mid], Leaf(n.keys[mid..], n.docs[mid..], n.next))
    else
      (Internal(n.keys[..mid], n.children[..mid + 1]), n.keys[mid], Internal(n.keys[mid + 1..], n.children[mid + 1..]))
  }

  /** Consecutive slots of a leaf, on the range that they cut out. */
  ghost function Sliced(n: Node, r: Range, a: nat, b: nat): Range
    requires n.Leaf? && a < b <= |n.keys|
  {
    Range(r.h, if a == 0 then r.lo else Rank(n.keys[a]), if b == |n.keys| then r.hi else Rank(n.keys[b]))
  }

  lemma SliceSlots(caps: Caps, n: Node, r: Range, a: nat, b: nat, next: Option<PageId>)
    requires n.Leaf? && SlotsOk(caps, n, r) && a < b <= |n.keys|
    ensures SlotsOk(caps, Leaf(n.keys[a..b], n.docs[a..b], next), Sliced(n, r, a, b))
    ensures r.lo <= Sliced(n, r, a, b).lo < Sliced(n, r, a, b).hi <= r.hi
  {
    hide Rank;
    SortedSlice(n.keys, a, b);
    assert Covers(r, n.keys[a]) && (b < |n.keys| ==> Covers(r, n.keys[b]));
    assert forall i :: a <= i < b ==> Rank(n.keys[a]) <= Rank(n.keys[i]) && (b < |n.keys| ==> Rank(n.keys[i]) < Rank(n.keys[b]));
  }

  lemma SliceHolds(contents: Contents, caps: Caps, n: Node, r: Range, a: nat, b: nat, next: Option<PageId>)
    requires n.Leaf? && SlotsOk(caps, n, r) && Holds(contents, n, r) && a < b <= |n.keys|
    requires r.lo <= Sliced(n, r, a, b).lo < Sliced(n, r, a, b).hi <= r.hi
    ensures Holds(contents, Leaf(n.keys[a..b], n.docs[a..b], next), Sliced(n, r, a, b))
  {
    hide Rank, Sorted;
    var ks := n.keys[a..b];
    forall k | k in contents && Covers(Sliced(n, r, a, b), k)
      ensures k in ks
    {
      assert k in n.keys;
      SliceHas(n, r, a, b, k);
    }
    forall i | 0 <= i < |ks|
      ensures ks[i] in contents && contents[ks[i]] == n.docs[a..b][i]
    {
      assert n.keys[a + i] in contents;
    }
  }

  lemma SliceHas(n: Node, r: Range, a: nat, b: nat, k: Key)
    requires n.Leaf? && Sorted(n.keys) && a < b <= |n.keys| && k in n.keys && Covers(Sliced(n, r, a, b), k)
    ensures k in n.keys[a..b]
  {
    hide Rank;
    var j :| 0 <= j < |n.keys| && n.keys[j] == k;
    assert a <= j < b;
    assert n.keys[a..b][j - a] == k;
  }

  lemma LeafHalves(contents: Contents, caps: Caps, isRoot: bool, n: Node, r: Range, sib: PageId)
    requires n.Leaf? && LeafOk(contents, caps, isRoot, n, r) && |n.keys| >= 2
    ensures var (lower, sep, upper) := Halves(n, sib);
            && r.lo < Rank(sep) < r.hi && |lower.keys| < |n.keys| && |upper.keys| < |n.keys|
            && LeafOk(contents, caps, false, lower, r.(hi := Rank(sep)))
            && LeafOk(contents, caps, false, upper, r.(lo := Rank(sep)))
  {
    hide Rank, Holds, Sorted;
    var mid := |n.keys| / 2;
    SliceSlots(caps, n, r, 0, mid, Some(sib));
    SliceHolds(contents, caps, n, r, 0, mid, Some(sib));
    SliceSlots(caps, n, r, mid, |n.keys|, n.next);
    SliceHolds(contents, caps, n, r, mid, |n.keys|, n.next);
    assert n.keys[mid..|n.keys|] == n.keys[mid..] && n.docs[mid..|n.keys|] == n.docs[mid..];
    assert Covers(r, n.keys[mid]);
  }

  lemma InternalHalves(shape: Shape, caps: Caps, isRoot: bool, n: Node, r: Range, sib: PageId)
    requires n.Internal? && InternalOk(shape, caps, isRoot, n, r) && |n.keys| >= 2
    ensures var (lower, sep, upper) := Halves(n, sib);
            && r.lo < Rank(sep) < r.hi && |lower.keys| < |n.keys| && |upper.keys| < |n.keys|
            && InternalOk(shape, caps, isRoot, lower, r.(hi := Rank(sep)))
            && InternalOk(shape, caps, false, upper, r.(lo := Rank(sep)))
  {
    hide Rank, ChildOk;
    var mid := |n.keys| / 2;
    var (lower, sep, upper) := Halves(n, sib);
    SortedSlice(n.keys, 0, mid);
    SortedSlice(n.keys, mid + 1, |n.keys|);
    assert forall i :: 0 <= i < mid ==> Rank(n.keys[i]) < Rank(n.keys[mid]);
    assert forall i :: mid < i < |n.keys| ==> Rank(n.keys[mid]) < Rank(n.keys[i]);
    forall i | 0 <= i <= mid
      ensures ChildOk(shape, lower, r.(hi := Rank(sep)), i)
    {
      assert ChildOk(shape, n, r, i);
      LowerChild(shape, n, r, sib, i);
    }
    forall i | 0 <= i < |upper.children|
      ensures ChildOk(shape, upper, r.(lo := Rank(sep)), i)
    {
      assert ChildOk(shape, n, r, mid + 1 + i);
      UpperChild(shape, n, r, sib, i);
    }
  }

  lemma LowerChild(shape: Shape, n: Node, r: Range, sib: PageId, i: nat)
    requires n.Internal? && |n.children| == |n.keys| + 1 && |n.keys| >= 2 && r.h > 0 && i <= |n.keys| / 2
    requires ChildOk(shape, n, r, i)
    ensures var (lower, sep, upper) := Halves(n, sib); ChildOk(shape, lower, r.(hi := Rank(sep)), i)
  {
    hide Rank;
  }

  lemma UpperChild(shape: Shape, n: Node, r: Range, sib: PageId, i: nat)
    requires n.Internal? && |n.children| == |n.keys| + 1 && |n.keys| >= 2 && r.h > 0 && |n.keys| / 2 + 1 + i <= |n.keys|
    requires ChildOk(shape, n, r, |n.keys| / 2 + 1 + i)
    ensures var (lower, sep, upper) := Halves(n, sib); ChildOk(shape, upper, r.(lo := Rank(sep)), i)
  {
    hide Rank;
  }

  /** An internal page only depends on the ranges of its children. */
  lemma SameChildren(shape: Shape, shape': Shape, caps: Caps, isRoot: bool, n: Node, r: Range)
    requires n.Internal? && InternalOk(shape, caps, isRoot, n, r)
    requires forall i :: 0 <= i < |n.children| ==>
      n.children[i] in shape && n.children[i] in shape' && shape'[n.children[i]] == shape[n.children[i]]
    ensures InternalOk(shape', caps, isRoot, n, r)
  {
    hide SepsOk, Rank;
    assert |n.children| == |n.keys| + 1 && r.h > 0 by { SepsSize(caps, isRoot, n, r); }
    forall i | 0 <= i < |n.children|
      ensures ChildOk(shape', n, r, i)
    {
      assert ChildOk(shape, n, r, i);
    }
  }

  lemma SepsSize(caps: Caps, isRoot: bool, n: Node, r: Range)
    requires n.Internal? && SepsOk(caps, isRoot, n, r)
    ensures |n.children| == |n.keys| + 1 && r.h > 0
  {
  }

  /** The parent's page once it has the separator and the sibling. */
  function Linked(n: Node, sep: Key, sib: PageId): Node
    requires n.Internal? && |n.children| == |n.keys| + 1
  {
    var i := LowerBound(n.keys, sep);
    Internal(InsertAt(n.keys, i, sep), InsertAt(n.children, i + 1, sib))
  }

  lemma LinkedBound(n: Node, r: Range, sep: Key, sib: PageId, i: nat, j: nat)
    requires n.Internal? && |n.children| == |n.keys| + 1 && i <= |n.keys| && LowerBound(n.keys, sep) == i
    requires j <= |n.keys| + 2
    ensures Bound(Linked(n, sep, sib), j, r) ==
            if j <= i then Bound(n, j, r) else if j == i + 1 then Rank(sep) else Bound(n, j - 1, r)
  {
    hide Rank, LowerBound, InsertAt;
    var m := Linked(n, sep, sib);
    InsertedLength(n.keys, i, sep);
    if j == 0 {
      assert Bound(m, j, r) == r.lo;
    } else if j == |n.keys| + 2 {
      assert Bound(m, j, r) == r.hi && Bound(n, j - 1, r) == r.hi;
    } else {
      InsertedAt(n.keys, i, sep, j - 1);
      assert Bound(m, j, r) == Rank(m.keys[j - 1]);
    }
  }

  lemma LinkedBounds(n: Node, r: Range, sep: Key, sib: PageId, i: nat, j: nat)
    requires n.Internal? && |n.children| == |n.keys| + 1 && i <= |n.keys| && LowerBound(n.keys, sep) == i
    requires j <= |n.keys| + 2
    ensures Bound(Linked(n, sep, sib), j, r) ==
            if j <= i then Bound(n, j, r) else if j == i + 1 then Rank(sep) else Bound(n, j - 1, r)
    ensures j < |n.keys| + 2 ==>
      Linked(n, sep, sib).children[j] == if j <= i then n.children[j] else if j == i + 1 then sib else n.children[j - 1]
  {
    hide Rank, LowerBound, Bound;
    LinkedBound(n, r, sep, sib, i, j);
  }

  lemma LinkedSeps(caps: Caps, isRoot: bool, n: Node, r: Range, i: nat, sep: Key, sib: PageId)
    requires n.Internal? && SepsOk(caps, isRoot, n, r) && |n.keys| < caps.sep && i <= |n.keys| && |sep| == caps.keyLen
    requires r.lo <= Bound(n, i, r) < Rank(sep) < Bound(n, i + 1, r) <= r.hi
    ensures LowerBound(n.keys, sep) == i && SepsOk(caps, isRoot, Linked(n, sep, sib), r)
  {
    hide Rank, LowerBound, Sorted;
    assert i > 0 ==> Bound(n, i, r) == Rank(n.keys[i - 1]);
    assert i < |n.keys| ==> Bound(n, i + 1, r) == Rank(n.keys[i]);
    SortedInsert(n.keys, i, sep);
    var ks := Linked(n, sep, sib).keys;
    forall j | 0 <= j < |ks|
      ensures r.lo < Rank(ks[j]) < r.hi && |ks[j]| == caps.keyLen
    {
      InsertedAt(n.keys, i, sep, j);
    }
  }

  /** Child i of an internal page was cut at sep, its upper part going to page sib. */
  lemma LinkChild(shape: Shape, shape': Shape, caps: Caps, isRoot: bool, n: Node, r: Range, i: nat, sep: Key, sib: PageId)
    requires n.Internal? && InternalOk(shape, caps, isRoot, n, r) && |n.keys| < caps.sep && i <= |n.keys|
    requires |sep| == caps.keyLen && r.lo <= Bound(n, i, r) < Rank(sep) < Bound(n, i + 1, r) <= r.hi
    requires forall j :: 0 <= j < |n.children| && j != i ==>
      n.children[j] in shape && n.children[j] in shape' && shape'[n.children[j]] == shape[n.children[j]]
    requires n.children[i] in shape && n.children[i] in shape' && shape'[n.children[i]] == shape[n.children[i]].(hi := Rank(sep))
    requires sib in shape' && shape'[sib] == shape[n.children[i]].(lo := Rank(sep))
    ensures InternalOk(shape', caps, isRoot, Linked(n, sep, sib), r)
  {
    hide Rank, LowerBound, Sorted, Bound, ChildOk;
    SepsSize(caps, isRoot, n, r);
    LinkedSeps(caps, isRoot, n, r, i, sep, sib);
    SepsSize(caps, isRoot, Linked(n, sep, sib), r);
    LinkedLength(n, sep, sib);
    forall j | 0 <= j < |Linked(n, sep, sib).children|
      ensures ChildOk(shape', Linked(n, sep, sib), r, j)
    {
      LinkedChild(shape, shape', n, r, i, sep, sib, j);
    }
  }

  lemma LinkedLength(n: Node, sep: Key, sib: PageId)
    requires n.Internal? && |n.children| == |n.keys| + 1
    ensures |Linked(n, sep, sib).keys| == |n.keys| + 1
  {
  }

  lemma LinkedChild(shape: Shape, shape': Shape, n: Node, r: Range, i: nat, sep: Key, sib: PageId, j: nat)
    requires n.Internal? && |n.children| == |n.keys| + 1 && r.h > 0 && i <= |n.keys| && LowerBound(n.keys, sep) == i
    requires Linked(n, sep, sib).Internal? && |Linked(n, sep, sib).keys| == |n.keys| + 1
    requires |Linked(n, sep, sib).children| == |n.keys| + 2 && j <= |n.keys| + 1
    requires var k := if j <= i then j else j - 1;
      && ChildOk(shape, n, r, k) && n.children[k] in shape'
      && shape'[n.children[k]] == if k == i then shape[n.children[k]].(hi := Rank(sep)) else shape[n.children[k]]
    requires n.children[i] in shape && sib in shape' && shape'[sib] == shape[n.children[i]].(lo := Rank(sep))
    ensures ChildOk(shape', Linked(n, sep, sib), r, j)
  {
    hide Rank, LowerBound, Bound, Linked, ChildOk;
    LinkedAround(n, r, sep, sib, i, j);
    MovedChild(shape, shape', n, Linked(n, sep, sib), r, i, Rank(sep), sib, j);
  }

  lemma LinkedAround(n: Node, r: Range, sep: Key, sib: PageId, i: nat, j: nat)
    requires n.Internal? && |n.children| == |n.keys| + 1 && i <= |n.keys| && LowerBound(n.keys, sep) == i && j <= |n.keys| + 1
    ensures var m := Linked(n, sep, sib);
      && m.children[j] == (if j <= i then n.children[j] else if j == i + 1 then sib else n.children[j - 1])
      && Bound(m, j, r) == (if j <= i then Bound(n, j, r) else if j == i + 1 then Rank(sep) else Bound(n, j - 1, r))
      && Bound(m, j + 1, r) == if j < i then Bound(n, j + 1, r) else if j == i then Rank(sep) else Bound(n, j, r)
  {
    hide Rank, LowerBound, Bound, Linked;
    LinkedBounds(n, r, sep, sib, i, j);
    LinkedBounds(n, r, sep, sib, i, j + 1);
  }

  /** Page m has the children and bounds of page n, with one more of each behind child i. */
  lemma MovedChild(shape: Shape, shape': Shape, n: Node, m: Node, r: Range, i: nat, cut: real, sib: PageId, j: nat)
    requires n.Internal? && m.Internal? && |n.children| == |n.keys| + 1 && |m.keys| == |n.keys| + 1 && |m.children| == |n.keys| + 2
    requires r.h > 0 && i <= |n.keys| && j <= |n.keys| + 1
    requires m.children[j] == if j <= i then n.children[j] else if j == i + 1 then sib else n.children[j - 1]
    requires Bound(m, j, r) == if j <= i then Bound(n, j, r) else if j == i + 1 then cut else Bound(n, j - 1, r)
    requires Bound(m, j + 1, r) == if j < i then Bound(n, j + 1, r) else if j == i then cut else Bound(n, j, r)
    requires var k := if j <= i then j else j - 1;
      && ChildOk(shape, n, r, k) && n.children[k] in shape'
      && shape'[n.children[k]] == if k == i then shape[n.children[k]].(hi := cut) else shape[n.children[k]]
    requires n.children[i] in shape && sib in shape' && shape'[sib] == shape[n.children[i]].(lo := cut)
    ensures ChildOk(shape', m, r, j)
  {
    hide Bound;
  }

  ghost predicate Splittable(t: T, p: PageId, sib: PageId) {
    Inv(t) && p in t.shape && Full(t.nodes[p], t.caps) && sib !in t.nodes && NodeOk(t, p)
  }

  lemma SplitPoint(t: T, p: PageId, sib: PageId)
    requires Splittable(t, p, sib)
    ensures Fits(t.nodes[p]) && |t.nodes[p].keys| >= 2
    ensures t.shape[p].lo < Rank(Halves(t.nodes[p], sib).1) < t.shape[p].hi && |Halves(t.nodes[p], sib).1| == t.caps.keyLen
  {
    hide Rank, Sorted, Holds;
    var n := t.nodes[p];
    if n.Leaf? {
      LeafHalves(t.contents, t.caps, true, n, t.shape[p], sib);
    } else {
      InternalHalves(t.shape, t.caps, p == t.root, n, t.shape[p], sib);
    }
  }

  ghost function SplitShape(shape: Shape, p: PageId, sib: PageId, cut: real): Shape
    requires p in shape
  {
    shape[p := shape[p].(hi := cut)][sib := shape[p].(lo := cut)]
  }

  /** The tree after page p was cut in two and its parent page became `link`. */
  ghost function Split(t: T, p: PageId, sib: PageId, parent: PageId, link: Node): T
    requires p in t.shape && p in t.nodes && |t.nodes[p].keys| > 0 && Fits(t.nodes[p])
  {
    var (lower, sep, upper) := Halves(t.nodes[p], sib);
    t.(nodes := t.nodes[p := lower][sib := upper][parent := link],
       shape := SplitShape(t.shape, p, sib, Rank(sep)))
  }

  lemma SplitDisjoint(shape: Shape, p: PageId, sib: PageId, cut: real)
    requires Disjoint(shape) && p in shape && sib !in shape && shape[p].lo < cut < shape[p].hi
    ensures Disjoint(SplitShape(shape, p, sib, cut))
  {
  }

  /** The two halves of a split page are in order whatever the parent page becomes. */
  lemma SplitHalves(t: T, p: PageId, sib: PageId, parent: PageId, link: Node)
    requires Splittable(t, p, sib) && parent != p && parent != sib && Fits(t.nodes[p]) && |t.nodes[p].keys| > 0
    ensures NodeOk(Split(t, p, sib, parent, link), p) && NodeOk(Split(t, p, sib, parent, link), sib)
  {
    hide Rank, Sorted, Holds, Disjoint, SepsOk;
    SplitPoint(t, p, sib);
    var t', n, r := Split(t, p, sib, parent, link), t.nodes[p], t.shape[p];
    var (lower, sep, upper) := Halves(n, sib);
    if n.Leaf? {
      LeafHalves(t.contents, t.caps, true, n, r, sib);
    } else {
      InternalHalves(t.shape, t.caps, p == t.root, n, r, sib);
      assert forall c :: c in t.shape && t.shape[c].h < r.h ==> c in t'.shape && t'.shape[c] == t.shape[c];
      LowerChildren(t.shape, t.caps, p == t.root, lower, r.(hi := Rank(sep)));
      LowerChildren(t.shape, t.caps, false, upper, r.(lo := Rank(sep)));
      SameChildren(t.shape, t'.shape, t.caps, p == t.root, lower, r.(hi := Rank(sep)));
      SameChildren(t.shape, t'.shape, t.caps, false, upper, r.(lo := Rank(sep)));
    }
  }

  lemma LowerChildren(shape: Shape, caps: Caps, isRoot: bool, n: Node, r: Range)
    requires n.Internal? && InternalOk(shape, caps, isRoot, n, r)
    ensures forall i :: 0 <= i < |n.children| ==> n.children[i] in shape && shape[n.children[i]].h == r.h - 1
  {
    forall i | 0 <= i < |n.children|
      ensures n.children[i] in shape && shape[n.children[i]].h == r.h - 1
    {
      assert ChildOk(shape, n, r, i);
    }
  }

  /** Only the parent of a split page sees a different child. */
  lemma SplitOther(t: T, p: PageId, sib: PageId, parent: PageId, link: Node, q: PageId)
    requires Splittable(t, p, sib) && q in t.shape && q != p && q != parent && Fits(t.nodes[p]) && |t.nodes[p].keys| > 0
    requires t.nodes[q].Internal? ==> p !in t.nodes[q].children
    ensures NodeOk(Split(t, p, sib, parent, link), q)
  {
    hide Rank, Sorted, Holds, Disjoint, SlotsOk, SepsOk;
    assert NodeOk(t, q);
    var t', n, r := Split(t, p, sib, parent, link), t.nodes[q], t.shape[q];
    if n.Internal? {
      LowerChildren(t.shape, t.caps, q == t.root, n, r);
      SameChildren(t.shape, t'.shape, t.caps, q == t.root, n, r);
    }
  }

  ghost predicate SplitBelow(t: T, p: PageId, sib: PageId, parent: PageId, i: nat) {
    && Splittable(t, p, sib) && p in t.nodes && parent in t.shape && parent in t.nodes && t.nodes[parent].Internal?
      && !Full(t.nodes[parent], t.caps)
    && i < |t.nodes[parent].children| && t.nodes[parent].children[i] == p
    && NodeOk(t, parent) && Fits(t.nodes[p]) && |t.nodes[p].keys| > 0 && Fits(t.nodes[parent])
  }

  ghost function SplitChildOf(t: T, p: PageId, sib: PageId, parent: PageId): T
    requires p in t.shape && p in t.nodes && |t.nodes[p].keys| > 0 && Fits(t.nodes[p])
    requires parent in t.nodes && t.nodes[parent].Internal? && Fits(t.nodes[parent])
  {
    Split(t, p, sib, parent, Linked(t.nodes[parent], Halves(t.nodes[p], sib).1, sib))
  }

  lemma SplitFrame(t: T, p: PageId, sib: PageId, parent: PageId, i: nat)
    requires SplitBelow(t, p, sib, parent, i)
    ensures p != parent && p != t.root
    ensures var t' := SplitChildOf(t, p, sib, parent); ShapeOk(t'.nodes, t'.shape) && RootOk(t'.root, t'.shape)
  {
    hide Rank, Sorted, SlotsOk, Holds, SepsOk, LowerBound, Disjoint, Halves, Linked;
    SplitPoint(t, p, sib);
    LowerChildren(t.shape, t.caps, parent == t.root, t.nodes[parent], t.shape[parent]);
    SplitDisjoint(t.shape, p, sib, Rank(Halves(t.nodes[p], sib).1));
  }

  lemma SplitParent(t: T, p: PageId, sib: PageId, parent: PageId, i: nat)
    requires SplitBelow(t, p, sib, parent, i) && p != parent
    ensures NodeOk(SplitChildOf(t, p, sib, parent), parent)
  {
    hide Rank, Sorted, SlotsOk, Holds, LowerBound, Disjoint;
    SplitPoint(t, p, sib);
    var n, r, sep := t.nodes[parent], t.shape[parent], Halves(t.nodes[p], sib).1;
    ChildRange(t.shape, t.caps, parent == t.root, n, r, i);
    LowerChildren(t.shape, t.caps, parent == t.root, n, r);
    forall j | 0 <= j < |n.children| && j != i
      ensures n.children[j] != p
    {
      if n.children[j] == p { OneParent(t, parent, i, parent, j); }
    }
    LinkChild(t.shape, SplitChildOf(t, p, sib, parent).shape, t.caps, parent == t.root, n, r, i, sep, sib);
  }

  /** Splitting a full page below a parent with room keeps the invariant and what the tree represents. */
  lemma SplitChild(t: T, p: PageId, sib: PageId, parent: PageId, i: nat)
    requires SplitBelow(t, p, sib, parent, i)
    ensures Inv(SplitChildOf(t, p, sib, parent))
  {
    hide NodeOk, ShapeOk, RootOk, Rank, LowerBound;
    var t', link := SplitChildOf(t, p, sib, parent), Linked(t.nodes[parent], Halves(t.nodes[p], sib).1, sib);
    SplitFrame(t, p, sib, parent, i);
    SplitHalves(t, p, sib, parent, link);
    SplitParent(t, p, sib, parent, i);
    forall q | q in t.shape && q != p && q != parent
      ensures q in t'.nodes && q in t'.shape && NodeOk(t', q)
    {
      assert q in t.nodes by { InNodes(t, q); }
      if t.nodes[q].Internal? && p in t.nodes[q].children {
        var j :| 0 <= j < |t.nodes[q].children| && t.nodes[q].children[j] == p;
        OneParent(t, parent, i, q, j);
      }
      SplitOther(t, p, sib, parent, link, q);
    }
  }

  lemma InNodes(t: T, p: PageId)
    requires Inv(t) && p in t.shape
    ensures p in t.nodes && NodeOk(t, p)
  {
  }

  /** The tree with a new root above its root page. */
  ghost function Rerooted(t: T, root: PageId, h: nat): T {
    t.(root := root, shape := t.shape[root := Range(h, 0.0, 1.0)])
  }

  lemma RerootNode(t: T, root: PageId, h: nat, q: PageId)
    requires q in t.shape && q in t.nodes && NodeOk(t, q) && root !in t.shape && (t.nodes[q].Leaf? ==> |t.nodes[q].keys| > 0)
    ensures NodeOk(Rerooted(t, root, h), q)
  {
    hide Rank, Sorted, SlotsOk, Holds;
    var n, r, t' := t.nodes[q], t.shape[q], Rerooted(t, root, h);
    if n.Internal? {
      LowerChildren(t.shape, t.caps, q == t.root, n, r);
      SameChildren(t.shape, t'.shape, t.caps, q == t.root, n, r);
    }
  }

  ghost predicate SplitTop(t: T, sib: PageId, root: PageId) {
    && t.hole.None? && Splittable(t, t.root, sib) && t.root in t.nodes && Fits(t.nodes[t.root]) && |t.nodes[t.root].keys| > 0
    && root !in t.nodes && root != sib
  }

  ghost function SplitRootOf(t: T, sib: PageId, root: PageId): T
    requires t.root in t.nodes && t.root in t.shape && |t.nodes[t.root].keys| > 0 && Fits(t.nodes[t.root])
  {
    var sep := Halves(t.nodes[t.root], sib).1;
    Rerooted(Split(t, t.root, sib, root, Internal([sep], [t.root, sib])), root, t.shape[t.root].h + 1)
  }

  lemma SplitRootNode(t: T, sib: PageId, root: PageId)
    requires SplitTop(t, sib, root)
    ensures NodeOk(SplitRootOf(t, sib, root), root)
  {
    hide Rank, SlotsOk, Holds, LowerBound, Disjoint, Halves, ShapeOk;
    SplitPoint(t, t.root, sib);
    var t' := SplitRootOf(t, sib, root);
    assert ChildOk(t'.shape, t'.nodes[root], t'.shape[root], 0);
    assert ChildOk(t'.shape, t'.nodes[root], t'.shape[root], 1);
  }

  lemma SplitRootFrame(t: T, sib: PageId, root: PageId)
    requires SplitTop(t, sib, root)
    ensures var t' := SplitRootOf(t, sib, root);
            ShapeOk(t'.nodes, t'.shape) && RootOk(root, t'.shape) && NodeOk(t', root)
  {
    hide Rank, Disjoint, Halves, NodeOk;
    SplitPoint(t, t.root, sib);
    var sep := Halves(t.nodes[t.root], sib).1;
    SplitDisjoint(t.shape, t.root, sib, Rank(sep));
    var shape := SplitShape(t.shape, t.root, sib, Rank(sep));
    AboveDisjoint(shape, root, t.shape[t.root].h + 1);
    SplitRootNode(t, sib, root);
  }

  lemma AboveDisjoint(shape: Shape, root: PageId, h: nat)
    requires Disjoint(shape) && forall p :: p in shape ==> shape[p].h < h
    ensures Disjoint(shape[root := Range(h, 0.0, 1.0)])
  {
  }

  /** Splitting a full root grows the tree by one level. */
  lemma SplitRoot(t: T, sib: PageId, root: PageId)
    requires SplitTop(t, sib, root)
    ensures Inv(SplitRootOf(t, sib, root))
  {
    hide NodeOk, ShapeOk, RootOk, Rank;
    var n, h := t.nodes[t.root], t.shape[t.root].h + 1;
    var (lower, sep, upper) := Halves(n, sib);
    var link := Internal([sep], [t.root, sib]);
    var t1 := Split(t, t.root, sib, root, link);
    assert root !in t.shape by { OnlyNodes(t, root); }
    SplitRootFrame(t, sib, root);
    SplitPoint(t, t.root, sib);
    SplitHalves(t, t.root, sib, root, link);
    RerootNode(t1, root, h, t.root);
    RerootNode(t1, root, h, sib);
    forall q | q in t.shape && q != t.root
      ensures q in t1.nodes && NodeOk(SplitRootOf(t, sib, root), q)
    {
      NotRoot(t, q);
      SplitOther(t, t.root, sib, root, link, q);
      RerootNode(t1, root, h, q);
    }
  }

  lemma OnlyNodes(t: T, p: PageId)
    requires Inv(t) && p !in t.nodes
    ensures p !in t.shape
  {
  }

  /** The root is nobody's child, and only the root leaf may be empty. */
  lemma NotRoot(t: T, q: PageId)
    requires Inv(t) && t.hole.None? && q in t.shape && q != t.root
    ensures q in t.nodes && NodeOk(t, q) && (t.nodes[q].Leaf? ==> |t.nodes[q].keys| > 0)
    ensures t.nodes[q].Internal? ==> t.root !in t.nodes[q].children
  {
    hide Rank, Sorted, Holds, Disjoint;
    assert NodeOk(t, q);
    if t.nodes[q].Internal? {
      LowerChildren(t.shape, t.caps, false, t.nodes[q], t.shape[q]);
    }
  }

  // changing one leaf

  /** The leaf page p and the represented map replaced together. */
  ghost function WithLeaf(t: T, p: PageId, n: Node, contents: Contents): T {
    t.(nodes := t.nodes[p := n], contents := contents)
  }

  /** Changing a leaf and what is represented inside its range concerns no other page. */
  lemma LeafChange(t: T, p: PageId, n: Node, contents: Contents)
    requires Inv(t) && p in t.shape && p in t.nodes && t.nodes[p].Leaf? && n.Leaf? && n.next == t.nodes[p].next
    requires LeafOk(contents, t.caps, p == t.root || t.hole == Some(p), n, t.shape[p])
    requires forall k :: !Covers(t.shape[p], k) ==> (k in contents <==> k in t.contents)
    requires forall k :: k in contents && k in t.contents && !Covers(t.shape[p], k) ==> contents[k] == t.contents[k]
    ensures Inv(WithLeaf(t, p, n, contents))
  {
    hide Rank, Sorted, SepsOk, ChildOk;
    var t' := WithLeaf(t, p, n, contents);
    assert NodeOk(t, p);
    forall q | q in t.shape && q != p
      ensures NodeOk(t', q)
    {
      assert NodeOk(t, q);
      if t.nodes[q].Leaf? {
        HoldsElsewhere(t.contents, contents, t.nodes[q], t.shape[q], t.shape[p], t.caps);
      }
    }
  }

  lemma HoldsElsewhere(contents: Contents, contents': Contents, n: Node, r: Range, changed: Range, caps: Caps)
    requires n.Leaf? && SlotsOk(caps, n, r) && Holds(contents, n, r) && (r.hi <= changed.lo || changed.hi <= r.lo)
    requires forall k :: !Covers(changed, k) ==> (k in contents' <==> k in contents)
    requires forall k :: k in contents' && k in contents && !Covers(changed, k) ==> contents'[k] == contents[k]
    ensures Holds(contents', n, r)
  {
    hide Rank, Sorted;
    assert forall k :: Covers(r, k) ==> !Covers(changed, k);
  }

  lemma InsertSlots(caps: Caps, n: Node, r: Range, i: nat, key: Key, doc: DocId)
    requires n.Leaf? && SlotsOk(caps, n, r) && !Full(n, caps) && Covers(r, key) && |key| == caps.keyLen && key !in n.keys
    requires i == LowerBound(n.keys, key)
    ensures SlotsOk(caps, Leaf(InsertAt(n.keys, i, key), InsertAt(n.docs, i, doc), n.next), r)
  {
    hide Rank, LowerBound, Sorted;
    if i < |n.keys| { RankOrder(n.keys[i], key); }
    SortedInsert(n.keys, i, key);
    var ks := InsertAt(n.keys, i, key);
    forall j | 0 <= j < |ks|
      ensures Covers(r, ks[j]) && |ks[j]| == caps.keyLen
    {
      InsertedAt(n.keys, i, key, j);
    }
  }

  lemma InsertHolds(contents: Contents, n: Node, r: Range, i: nat, key: Key, doc: DocId)
    requires n.Leaf? && |n.keys| == |n.docs| && Holds(contents, n, r) && i <= |n.keys| && key !in contents
    ensures Holds(contents[key := doc], Leaf(InsertAt(n.keys, i, key), InsertAt(n.docs, i, doc), n.next), r)
  {
    hide Rank, LowerBound, Sorted, InsertAt;
    var ks, ds, contents' := InsertAt(n.keys, i, key), InsertAt(n.docs, i, doc), contents[key := doc];
    InsertedLength(n.keys, i, key);
    InsertedLength(n.docs, i, doc);
    forall j | 0 <= j < |ks|
      ensures ks[j] in contents' && contents'[ks[j]] == ds[j]
    {
      InsertedAt(n.keys, i, key, j);
      InsertedAt(n.docs, i, doc, j);
    }
    forall k | k in contents' && Covers(r, k)
      ensures k in ks
    {
      InsertedIn(n.keys, i, key, k);
    }
  }

  lemma LeafInsert(contents: Contents, caps: Caps, isRoot: bool, n: Node, r: Range, i: nat, key: Key, doc: DocId)
    requires n.Leaf? && LeafOk(contents, caps, isRoot, n, r) && !Full(n, caps) && i == LowerBound(n.keys, key)
    requires key !in contents && Covers(r, key) && |key| == caps.keyLen
    ensures LeafOk(contents[key := doc], caps, isRoot, Leaf(InsertAt(n.keys, i, key), InsertAt(n.docs, i, doc), n.next), r)
  {
    hide Rank, LowerBound, Sorted;
    InsertSlots(caps, n, r, i, key, doc);
    InsertHolds(contents, n, r, i, key, doc);
  }

  // descending

  lemma Descend(t: T, p: PageId, i: nat)
    requires Inv(t) && p in t.shape && p in t.nodes && t.nodes[p].Internal? && i < |t.nodes[p].children|
    ensures var n, r := t.nodes[p], t.shape[p]; var c := n.children[i];
            && c in t.shape && c in t.nodes && t.shape[c].h == r.h - 1 && Fits(n) && c != t.root
            && r.lo <= t.shape[c].lo && t.shape[c].hi <= r.hi
            && t.shape[c].lo == Bound(n, i, r) && t.shape[c].hi == Bound(n, i + 1, r)
  {
    hide Rank, Sorted, Disjoint, Bound;
    assert NodeOk(t, p);
    ChildRange(t.shape, t.caps, p == t.root, t.nodes[p], t.shape[p], i);
  }

  lemma DescendByKey(t: T, p: PageId, key: Key)
    requires Inv(t) && p in t.shape && p in t.nodes && t.nodes[p].Internal? && Covers(t.shape[p], key) && Fits(t.nodes[p])
    ensures var c := t.nodes[p].children[UpperBound(t.nodes[p].keys, key)]; c in t.shape && Covers(t.shape[c], key)
  {
    hide Rank, Sorted, Disjoint, UpperBound, SepsOk;
    var n, r, i := t.nodes[p], t.shape[p], UpperBound(t.nodes[p].keys, key);
    Descend(t, p, i);
    assert Bound(n, i, r) <= Rank(key);
    assert i < |n.keys| ==> Bound(n, i + 1, r) == Rank(n.keys[i]);
  }
}
