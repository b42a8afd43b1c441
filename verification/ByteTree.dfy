/** src/btree/btree.rs over src/btree/node.rs: search and insert of a tree of any height on the bytes of its pages. */
module ByteTrees {
  import opened Bytes
  import opened Disk
  import opened Nodes
  import opened Layout
  import opened LeafIndexes
  import opened Tree
  import opened BTrees
  import P = Pool

  // each step on bytes does to a page what the step of the tree does to the node it represents

  lemma SortedSlots(ks: seq<Key>, ds: seq<DocId>)
    requires Sorted(ks) && |ks| == |ds|
    ensures SlotsSorted(ks, ds)
  {
    hide Rank, Lt;
    forall i, j | 0 <= i < j < |ks|
      ensures SlotLt(ks[i], ds[i], ks[j], ds[j])
    {
      RankOrder(ks[i], ks[j]);
    }
  }

  lemma KindByte(p: Page, n: Node)
    requires Represents(p, n)
    ensures (p[0] == 0 <==> n.Leaf?) && Fits(n) && KeyCount(p) == |n.keys|
  {
    hide WellFormed, KeyInside, EntryAt, KeyBytes, LE;
  }

  method SearchBytes(p: Page, key: Key, ghost n: Node) returns (step: Step)
    requires Represents(p, n) && Sorted(n.keys) && Fits(n)
    ensures step == SearchStep(n, key)
  {
    hide Represents, Sorted, LowerBound, UpperBound, KeyAt, DocAt, KeyInside;
    KindByte(p, n);
    if p[0] != 0 {
      var c := ChildFor(p, key, false, n);
      return GoTo(c);
    }
    var i := KeyLowerBound(p, LEAF_SLOT, key, n);
    if i < KeyCount(p) {
      LeafSlotParts(p, n, i);
      if KeyAt(p, LEAF_SLOT, i) == key {
        return Found(DocAt(p, i));
      }
    }
    return NotFound;
  }

  method InsertBytes(p: Page, key: Key, doc: DocId, ghost n: Node) returns (q: Page, step: Step)
    requires Represents(p, n) && Sorted(n.keys) && Fits(n) && IsDoc(doc)
    requires n.Leaf? ==> HasSpace(n, |key|) && key !in n.keys
    ensures step == InsertStep(n, key, doc).1 && Represents(q, InsertStep(n, key, doc).0)
  {
    hide Represents, Sorted, SlotsSorted, SlotBound, UpperBound, HasSpace, InsertAt;
    KindByte(p, n);
    if p[0] != 0 {
      var c := ChildFor(p, key, false, n);
      return p, GoTo(c);
    }
    SortedSlots(n.keys, n.docs);
    var a := ToArray(p);
    var ok := LeafInsertSlot(a, key, doc, n);
    return a[..], Done;
  }

  /** Room for the keys of a page, and so for any part of them. */
  lemma PageHolds(p: Page, n: Node)
    requires Represents(p, n)
    ensures HEADER_SIZE + WidthOf(n) * |n.keys| + KeyBytes(n.keys) <= PAGE_SIZE
  {
    hide KeyInside, EntryAt, KeyBytes, LE;
  }

  lemma {:induction false} KeyBytesConcat(a: seq<Key>, b: seq<Key>)
    ensures KeyBytes(a + b) == KeyBytes(a) + KeyBytes(b)
  {
    if |a| == 0 {
      assert a + b == b;
    } else {
      KeyBytesConcat(a[1..], b);
      assert (a + b)[1..] == a[1..] + b;
    }
  }

  lemma KeyBytesSlice(ks: seq<Key>, a: nat, b: nat)
    requires a <= b <= |ks|
    ensures KeyBytes(ks[a..b]) <= KeyBytes(ks)
  {
    hide KeyBytes;
    KeyBytesConcat(ks[..a] + ks[a..b], ks[b..]);
    KeyBytesConcat(ks[..a], ks[a..b]);
    assert ks == ks[..a] + ks[a..b] + ks[b..];
  }

  lemma LeafSlice(es: seq<(Key, DocId)>, was: Option<PageId>, next: Option<PageId>, a: nat, b: nat)
    requires a <= b <= |es|
    ensures var n := LeafOf(es, was); LeafOf(es[a..b], next) == Leaf(n.keys[a..b], n.docs[a..b], next)
  {
  }

  /** The slots a to b of a leaf page on a page of their own. */
  method LeafPart(p: Page, a: nat, b: nat, next: Option<PageId>, ghost n: Node) returns (q: Page)
    requires Represents(p, n) && n.Leaf? && Sorted(n.keys) && Fits(n) && a <= b <= |n.keys| && (next.Some? ==> next.value < NO_NEXT)
    ensures Represents(q, Leaf(n.keys[a..b], n.docs[a..b], next))
  {
    hide Represents, Sorted, SlotsSorted, LeafOf, KeyBytes, IsDoc;
    var es := LeafEntries(p, n);
    EntriesAreDocs(p, n, es);
    EntriesCount(es, n);
    LeafSlice(es, n.next, next, a, b);
    SortedSlice(n.keys, a, b);
    SortedSlots(n.keys[a..b], n.docs[a..b]);
    PageHolds(p, n);
    KeyBytesSlice(n.keys, a, b);
    assert forall e <- es[a..b] :: e in es;
    var x := ToArray(p);
    LeafRebuild(x, es[a..b], next);
    q := x[..];
  }

  lemma EntriesCount(es: seq<(Key, DocId)>, n: Node)
    requires n.Leaf? && n == LeafOf(es, n.next)
    ensures |es| == |n.keys| == |n.docs| && forall i :: 0 <= i < |es| ==> es[i] == (n.keys[i], n.docs[i])
  {
  }

  lemma InternalSlice(first: PageId, es: seq<(Key, PageId)>, head: PageId, a: nat, b: nat)
    requires a <= b <= |es| && head == InternalOf(first, es).children[a]
    ensures var n := InternalOf(first, es); InternalOf(head, es[a..b]) == Internal(n.keys[a..b], n.children[a..b + 1])
  {
    var n, m := InternalOf(first, es), InternalOf(head, es[a..b]);
    assert m.keys == n.keys[a..b];
    forall i | 0 <= i < |m.children|
      ensures m.children[i] == n.children[a..b + 1][i]
    {
    }
  }

  lemma ChildrenFit(p: Page, n: Node)
    requires Represents(p, n) && n.Internal?
    ensures |n.children| == |n.keys| + 1 && forall i :: 0 <= i < |n.children| ==> n.children[i] <= NO_NEXT
  {
    hide KeyInside, EntryAt, WellFormed, KeyBytes, LE;
    forall i | 0 <= i < |n.children|
      ensures n.children[i] <= NO_NEXT
    {
      assert i > 0 ==> InternalSlot(p, n, i - 1);
    }
  }

  /** The separators a to b of an internal page with the children around them, on a page of their own. */
  method InternalPart(p: Page, a: nat, b: nat, ghost n: Node) returns (q: Page)
    requires Represents(p, n) && n.Internal? && Sorted(n.keys) && Fits(n) && a <= b <= |n.keys|
    ensures Represents(q, Internal(n.keys[a..b], n.children[a..b + 1]))
  {
    hide Represents, Sorted, InternalOf, KeyBytes, LE, FromLE;
    var es := InternalEntries(p, n);
    SepsCount(n.children[0], es, n);
    ChildrenFit(p, n);
    LinkParts(p, n);
    var head := if a == 0 then FromLE(Link(p)) else es[a - 1].1;
    InternalSlice(n.children[0], es, head, a, b);
    SortedSlice(n.keys, a, b);
    PageHolds(p, n);
    KeyBytesSlice(n.keys, a, b);
    var x := ToArray(p);
    InternalRebuild(x, head, es[a..b]);
    q := x[..];
  }

  lemma SepsCount(first: PageId, es: seq<(Key, PageId)>, n: Node)
    requires n.Internal? && n == InternalOf(first, es)
    ensures |es| == |n.keys| == |n.children| - 1 && forall i :: 0 <= i < |es| ==> es[i] == (n.keys[i], n.children[i + 1])
  {
  }

  /** Both halves of a page that is split, and the separator between them. */
  method UpperBytes(p: Page, ghost n: Node) returns (q: Page, sep: Key)
    requires Represents(p, n) && Sorted(n.keys) && Fits(n) && |n.keys| > 0
    ensures sep == Halves(n, 0).1 && Represents(q, Halves(n, 0).2)
  {
    hide Represents, Sorted, KeyAt, KeyInside, LE, FromLE;
    KindByte(p, n);
    var count := KeyCount(p);
    var mid := count / 2;
    if p[0] == 0 {
      LeafSlotParts(p, n, mid);
      sep := KeyAt(p, LEAF_SLOT, mid);
      LeafNext(p, n);
      var link := FromLE(Link(p));
      q := LeafPart(p, mid, count, if link == NO_NEXT then None else Some(link), n);
      assert n.keys[mid..count] == n.keys[mid..] && n.docs[mid..count] == n.docs[mid..];
    } else {
      InternalSlotParts(p, n, mid);
      sep := KeyAt(p, INTERNAL_SLOT, mid);
      q := InternalPart(p, mid + 1, count, n);
      assert n.keys[mid + 1..count] == n.keys[mid + 1..] && n.children[mid + 1..count + 1] == n.children[mid + 1..];
    }
  }

  method LowerBytes(p: Page, sib: PageId, ghost n: Node) returns (q: Page)
    requires Represents(p, n) && Sorted(n.keys) && Fits(n) && |n.keys| > 0 && sib < NO_NEXT
    ensures Represents(q, Halves(n, sib).0)
  {
    hide Represents, Sorted;
    KindByte(p, n);
    var mid := KeyCount(p) / 2;
    if p[0] == 0 {
      q := LeafPart(p, 0, mid, Some(sib), n);
      assert n.keys[0..mid] == n.keys[..mid] && n.docs[0..mid] == n.docs[..mid];
    } else {
      q := InternalPart(p, 0, mid, n);
      assert n.keys[0..mid] == n.keys[..mid] && n.children[0..mid + 1] == n.children[..mid + 1];
    }
  }

  lemma LeafNext(p: Page, n: Node)
    requires Represents(p, n) && n.Leaf?
    ensures var link := FromLE(Link(p)); n.next == if link == NO_NEXT then None else Some(link)
    ensures n.next.Some? ==> n.next.value < NO_NEXT
  {
    hide LE, FromLE, KeyInside, EntryAt, WellFormed, KeyBytes;
    LinkParts(p, n);
  }

  method LinkBytes(p: Page, sep: Key, sib: PageId, ghost n: Node) returns (q: Page)
    requires Represents(p, n) && n.Internal? && Sorted(n.keys) && Fits(n) && HasSpace(n, |sep|) && sep !in n.keys && sib <= NO_NEXT
    ensures Represents(q, Linked(n, sep, sib))
  {
    hide Represents, Sorted, HasSpace, LowerBound, InsertAt;
    var a := ToArray(p);
    var ok := InternalInsertSlot(a, sep, sib, n);
    q := a[..];
  }

  // the tree on pages that may share their pool with anything else

  ghost predicate ShadowAt(view: map<PageId, Page>, t: T, p: PageId) {
    p in view && p < NO_NEXT && p in t.nodes && Represents(view[p], t.nodes[p])
  }

  /** Every page of the tree holds the bytes of its node. */
  ghost predicate Shadow(view: map<PageId, Page>, t: T) {
    t.nodes.Keys == t.shape.Keys && forall p :: p in t.shape ==> ShadowAt(view, t, p)
  }

  /** Pages that are not the tree's are as they were, and not the tree's now. */
  ghost predicate Beside(view: map<PageId, Page>, t: T, view': map<PageId, Page>, t': T) {
    forall p :: p in view && p !in t.shape ==> p in view' && view'[p] == view[p] && p !in t'.shape
  }

  lemma BesideSame(view: map<PageId, Page>, t: T)
    ensures Beside(view, t, view, t)
  {
  }

  lemma ShadowIs(view: map<PageId, Page>, t: T, p: PageId)
    requires Inv(t) && Shadow(view, t) && p in t.shape
    ensures p in view && p < NO_NEXT && p in t.nodes && Represents(view[p], t.nodes[p]) && Fits(t.nodes[p]) && Sorted(t.nodes[p].keys)
    ensures forall i :: 0 <= i < |t.nodes[p].keys| ==> |t.nodes[p].keys[i]| == t.caps.keyLen
  {
    hide Represents, Rank, Holds, Disjoint;
    assert ShadowAt(view, t, p);
    InNodes(t, p);
  }

  /** Rewriting one page of the tree together with its node. */
  lemma ShadowWrites(view: map<PageId, Page>, t: T, p: PageId, q: Page, n: Node, contents: Contents)
    requires Shadow(view, t) && p in t.shape && Represents(q, n)
    ensures Shadow(view[p := q], WithLeaf(t, p, n, contents))
  {
    hide Represents;
    forall x | x in t.shape
      ensures ShadowAt(view[p := q], WithLeaf(t, p, n, contents), x)
    {
      assert ShadowAt(view, t, x);
    }
  }

  /** search: map lookup, from any page of the tree, on bytes. */
  method Search(pool: P.BufferPool<Page>, root: PageId, key: Key, ghost t: T) returns (r: Option<DocId>)
    requires pool.Valid() && Inv(t) && Shadow(pool.View(), t) && root in t.shape
    modifies pool, pool.disk
    ensures pool.Valid() && pool.View() == old(pool.View())
    ensures r == if key in t.contents && Covers(t.shape[root], key) then Some(t.contents[key]) else None
  {
    hide Inv, Shadow, Represents, Rank, Sorted, UpperBound, LowerBound, P.Flat, P.Inv, P.Packed, P.LastAccess, pool.Valid;
    var curr := root;
    while true
      invariant pool.Valid() && pool.View() == old(pool.View()) && curr in t.shape
      invariant t.shape[root].lo <= t.shape[curr].lo && t.shape[curr].hi <= t.shape[root].hi
      invariant Covers(t.shape[root], key) ==> Covers(t.shape[curr], key)
      decreases t.shape[curr].h
    {
      SearchFacts(t, curr, key);
      ShadowIs(pool.View(), t, curr);
      var p := Fetch(pool, curr);
      var step := SearchBytes(p, key, t.nodes[curr]);
      match step {
        case GoTo(next) => curr := next;
        case Found(doc) => return Some(doc);
        case _ => return None;
      }
    }
  }

  method IsFull(pool: P.BufferPool<Page>, node: PageId, keyLen: nat, ghost t: T) returns (full: bool)
    requires pool.Valid() && Inv(t) && Shadow(pool.View(), t) && node in t.shape && t.caps == CapsFor(keyLen)
    modifies pool, pool.disk
    ensures pool.Valid() && pool.View() == old(pool.View()) && |pool.disk.file| == old(|pool.disk.file|)
    ensures node in t.nodes && full == Full(t.nodes[node], t.caps)
  {
    hide Inv, Shadow, Represents, Rank, Sorted, HasSpace, P.Flat, P.Inv, P.Packed, P.LastAccess, pool.Valid;
    ShadowIs(pool.View(), t, node);
    var p := Fetch(pool, node);
    KindByte(p, t.nodes[node]);
    SpaceIsCount(t.nodes[node], keyLen);
    var room := NodeHasSpace(p, if p[0] == 0 then LEAF_SLOT else INTERNAL_SLOT, keyLen, t.nodes[node]);
    full := !room;
  }

  /** Two pages hold the halves of what one held. */
  ghost predicate IsCut(view: map<PageId, Page>, view': map<PageId, Page>, node: PageId, sib: PageId, sep: Key, n: Node) {
    && |n.keys| > 0 && Fits(n) && sep == Halves(n, sib).1 && node in view' && sib in view'
    && view' == view[node := view'[node]][sib := view'[sib]]
    && Represents(view'[node], Halves(n, sib).0) && Represents(view'[sib], Halves(n, sib).2)
  }

  /** Steps 1 to 3 of a split, on bytes. */
  method Cut(pool: P.BufferPool<Page>, node: PageId, ghost t: T) returns (sibling: PageId, sep: Key)
    requires pool.Valid() && Inv(t) && Shadow(pool.View(), t) && node in t.shape && node in t.nodes && |t.nodes[node].keys| > 0
    requires |pool.disk.file| < NO_NEXT
    modifies pool, pool.disk
    ensures pool.Valid() && |pool.disk.file| <= old(|pool.disk.file|) + 1
    ensures sibling !in old(pool.View()) && sibling < NO_NEXT
    ensures IsCut(old(pool.View()), pool.View(), node, sibling, sep, t.nodes[node])
  {
    hide Inv, Shadow, Represents, Rank, Sorted, P.Flat, P.Inv, P.Packed, P.LastAccess, pool.Valid;
    ShadowIs(pool.View(), t, node);
    var p := Fetch(pool, node);
    var upper, separator := UpperBytes(p, t.nodes[node]);
    sep := separator;
    sibling := NewPageOf(pool, upper);
    var lower := LowerBytes(p, sibling, t.nodes[node]);
    Store(pool, node, lower);
  }

  lemma ShadowSplit(view: map<PageId, Page>, t: T, node: PageId, sib: PageId, parent: PageId, link: Node, t': T, view': map<PageId, Page>)
    requires Shadow(view, t) && node in t.shape && node in t.nodes && |t.nodes[node].keys| > 0 && Fits(t.nodes[node]) && sib !in view
    requires sib < NO_NEXT && parent < NO_NEXT && node != parent && parent != sib && {node, sib, parent} <= view'.Keys
    requires view' == view[node := view'[node]][sib := view'[sib]][parent := view'[parent]]
    requires var (lower, _, upper) := Halves(t.nodes[node], sib);
      Represents(view'[node], lower) && Represents(view'[sib], upper) && Represents(view'[parent], link)
      && t'.nodes == t.nodes[node := lower][sib := upper][parent := link]
    requires t'.shape.Keys == t.shape.Keys + {sib, parent} && (parent in t.shape || parent !in view)
    ensures Shadow(view', t') && Beside(view, t, view', t')
  {
    hide Represents, Halves;
    forall x | x in t'.shape
      ensures ShadowAt(view', t', x)
    {
      if x in t.shape {
        assert ShadowAt(view, t, x);
      }
    }
    assert forall x :: x in t.shape ==> ShadowAt(view, t, x);
  }

  /** A full child is split under a parent with room. */
  method SplitBelowOn(pool: P.BufferPool<Page>, node: PageId, parent: PageId, ghost t: T, ghost i: nat)
    returns (ghost t': T, ghost sib: PageId)
    requires pool.Valid() && Inv(t) && Shadow(pool.View(), t) && node in t.shape && parent in t.shape && t.caps == CapsFor(t.caps.keyLen)
    requires node in t.nodes && parent in t.nodes && Full(t.nodes[node], t.caps)
    requires t.nodes[parent].Internal? && !Full(t.nodes[parent], t.caps)
    requires i < |t.nodes[parent].children| && t.nodes[parent].children[i] == node && |pool.disk.file| < NO_NEXT
    modifies pool, pool.disk
    ensures pool.Valid() && |pool.disk.file| <= old(|pool.disk.file|) + 1 && sib !in old(pool.View()) && sib !in t.nodes
    ensures SplitBelow(t, node, sib, parent, i) && t' == SplitChildOf(t, node, sib, parent)
    ensures Inv(t') && Shadow(pool.View(), t') && Beside(old(pool.View()), t, pool.View(), t')
  {
    hide Inv, NodeOk, Shadow, Represents, Rank, Sorted, HasSpace, Halves, Linked, Full, P.Flat, P.Inv, P.Packed, P.LastAccess, pool.Valid;
    ghost var view := pool.View();
    SplitFacts(t, node);
    SplitFacts(t, parent);
    ShadowIs(view, t, parent);
    ShadowKeys(view, t);
    var sibling, sep := Cut(pool, node, t);
    sib := sibling;
    assert Splittable(t, node, sib);
    SplitFrame(t, node, sib, parent, i);
    SplitChild(t, node, sib, parent, i);
    SepIsNew(t, node, sib, parent, i);
    SpaceIsCount(t.nodes[parent], t.caps.keyLen);
    var p := Fetch(pool, parent);
    var q := LinkBytes(p, sep, sibling, t.nodes[parent]);
    Store(pool, parent, q);
    t' := SplitChildOf(t, node, sib, parent);
    SplitShapeKeys(t, node, sib, parent);
    ShadowSplit(view, t, node, sib, parent, Linked(t.nodes[parent], sep, sib), t', pool.View());
  }

  lemma ShadowKeys(view: map<PageId, Page>, t: T)
    requires Shadow(view, t)
    ensures t.nodes.Keys == t.shape.Keys && t.nodes.Keys <= view.Keys
  {
    hide Represents;
    assert forall p :: p in t.shape ==> ShadowAt(view, t, p);
  }

  lemma SplitShapeKeys(t: T, node: PageId, sib: PageId, parent: PageId)
    requires node in t.shape && node in t.nodes && |t.nodes[node].keys| > 0 && Fits(t.nodes[node]) && parent in t.shape
    requires parent in t.nodes && t.nodes[parent].Internal? && Fits(t.nodes[parent])
    ensures var t' := SplitChildOf(t, node, sib, parent);
      && t'.shape.Keys == t.shape.Keys + {sib, parent}
      && var (lower, sep, upper) := Halves(t.nodes[node], sib);
        t'.nodes == t.nodes[node := lower][sib := upper][parent := Linked(t.nodes[parent], sep, sib)]
  {
    hide Rank, Halves, Linked;
  }

  /** The separator of a split is not in the parent yet, and has the length of all keys. */
  lemma SepIsNew(t: T, node: PageId, sib: PageId, parent: PageId, i: nat)
    requires SplitBelow(t, node, sib, parent, i)
    ensures var sep := Halves(t.nodes[node], sib).1; sep !in t.nodes[parent].keys && |sep| == t.caps.keyLen
  {
    hide Rank, Sorted, Halves;
    SplitPoint(t, node, sib);
    Descend(t, parent, i);
    var n, sep := t.nodes[parent], Halves(t.nodes[node], sib).1;
    var r := t.shape[parent];
    if sep in n.keys {
      var j :| 0 <= j < |n.keys| && n.keys[j] == sep;
      SepBetween(t, parent, i, j);
    }
  }

  /** No separator lies strictly inside the range of a child. */
  lemma SepBetween(t: T, parent: PageId, i: nat, j: nat)
    requires Inv(t) && parent in t.shape && parent in t.nodes && t.nodes[parent].Internal? && NodeOk(t, parent) && Fits(t.nodes[parent])
    requires i < |t.nodes[parent].children| && j < |t.nodes[parent].keys|
    ensures Rank(t.nodes[parent].keys[j]) <= Bound(t.nodes[parent], i, t.shape[parent])
         || Bound(t.nodes[parent], i + 1, t.shape[parent]) <= Rank(t.nodes[parent].keys[j])
  {
    hide Rank;
    var n := t.nodes[parent];
    if j < i {
      assert j < i - 1 ==> Rank(n.keys[j]) < Rank(n.keys[i - 1]);
    } else {
      assert i < j ==> Rank(n.keys[i]) < Rank(n.keys[j]);
    }
  }

  /** A full root is split under a new root. */
  method SplitRootOn(pool: P.BufferPool<Page>, ghost t: T, root: PageId) returns (newRoot: PageId, ghost t': T)
    requires pool.Valid() && Inv(t) && Shadow(pool.View(), t) && t.root == root && t.caps == CapsFor(t.caps.keyLen) && t.hole.None?
    requires root in t.shape && root in t.nodes && Full(t.nodes[root], t.caps) && |pool.disk.file| + 1 < NO_NEXT
    modifies pool, pool.disk
    ensures pool.Valid() && |pool.disk.file| <= old(|pool.disk.file|) + 2 && newRoot !in old(pool.View())
    ensures Inv(t') && Shadow(pool.View(), t') && Beside(old(pool.View()), t, pool.View(), t')
    ensures t'.root == newRoot && t'.contents == t.contents && t'.caps == t.caps && t'.hole.None? && newRoot in t'.nodes
    ensures newRoot in t'.shape && t'.shape[newRoot].h == t.shape[root].h + 1 && !Full(t'.nodes[newRoot], t.caps)
  {
    hide Inv, NodeOk, Shadow, Represents, Rank, Sorted, HasSpace, Halves, Full, P.Flat, P.Inv, P.Packed, P.LastAccess, pool.Valid;
    ghost var view := pool.View();
    SplitFacts(t, root);
    ShadowIs(view, t, root);
    ShadowKeys(view, t);
    var sibling, sep := Cut(pool, root, t);
    ghost var sib := sibling;
    SplitPoint(t, root, sib);
    KeyFitsPage(t.caps.keyLen);
    var top := RootOver(root, sep, sibling);
    newRoot := NewPageOf(pool, top);
    assert SplitTop(t, sib, newRoot);
    SplitRoot(t, sib, newRoot);
    RootSplitFacts(t, sib, newRoot);
    t' := SplitRootOf(t, sib, newRoot);
    RootShapeKeys(t, sib, newRoot);
    ShadowSplit(view, t, root, sib, newRoot, Internal([sep], [root, sib]), t', pool.View());
  }

  lemma KeyFitsPage(keyLen: nat)
    requires CapsFor(keyLen).sep >= 2
    ensures HEADER_SIZE + INTERNAL_SLOT + keyLen <= PAGE_SIZE
  {
    QuotientBound(1, INTERNAL_SLOT + keyLen, PAGE_SIZE - HEADER_SIZE);
  }

  lemma RootShapeKeys(t: T, sib: PageId, root: PageId)
    requires t.root in t.shape && t.root in t.nodes && |t.nodes[t.root].keys| > 0 && Fits(t.nodes[t.root])
    ensures var t' := SplitRootOf(t, sib, root);
      && t'.shape.Keys == t.shape.Keys + {sib, root} && t'.shape[root].h == t.shape[t.root].h + 1
      && t'.root == root && t'.contents == t.contents && t'.caps == t.caps && t'.hole == t.hole
      && var (lower, sep, upper) := Halves(t.nodes[t.root], sib);
        t'.nodes == t.nodes[t.root := lower][sib := upper][root := Internal([sep], [t.root, sib])]
  {
    hide Rank, Halves;
  }

  /** insert on bytes: the map gains exactly the pair, the pages go on holding the tree, and pages of others stay. */
  method Insert(pool: P.BufferPool<Page>, root: PageId, key: Key, doc: DocId, ghost t0: T) returns (root': PageId, ghost t: T)
    requires pool.Valid() && Inv(t0) && Shadow(pool.View(), t0) && t0.root == root && t0.hole.None?
    requires root in t0.shape && root in t0.nodes && t0.caps == CapsFor(|key|) && key !in t0.contents && IsDoc(doc)
    requires |pool.disk.file| + t0.shape[root].h + 3 < NO_NEXT
    modifies pool, pool.disk
    ensures pool.Valid() && Inv(t) && Shadow(pool.View(), t) && Beside(old(pool.View()), t0, pool.View(), t)
    ensures t.root == root' && t.contents == t0.contents[key := doc] && t.caps == t0.caps && t.hole.None?
    ensures root' == root <==> !Full(t0.nodes[root], t0.caps)
  {
    hide Inv, NodeOk, Shadow, Represents, Rank, Sorted, HasSpace, Halves, Full, Beside, NextFull, InsertStep, LowerBound, UpperBound,
         P.Flat, P.Inv, P.Packed, P.LastAccess, pool.Valid;
    t, root' := t0, root;
    BesideSame(pool.View(), t0);
    var full := IsFull(pool, root, |key|, t0);
    if full {
      ShadowKeys(pool.View(), t0);
      root', t := SplitRootOn(pool, t0, root);
    }
    var curr := root';
    RootCovers(t, key);
    while true
      invariant pool.Valid() && Inv(t) && Shadow(pool.View(), t) && Beside(old(pool.View()), t0, pool.View(), t)
      invariant t.root == root' && t.contents == t0.contents && t.caps == t0.caps && t.hole.None?
      invariant root' == root <==> !Full(t0.nodes[root], t0.caps)
      invariant curr in t.shape && curr in t.nodes && Covers(t.shape[curr], key)
      invariant Full(t.nodes[curr], t.caps) ==> t.nodes[curr].Internal? && !NextFull(t, curr, key)
      invariant |pool.disk.file| + t.shape[curr].h + (if NextFull(t, curr, key) then 0 else -1) < NO_NEXT
      decreases t.shape[curr].h, NextFull(t, curr, key)
    {
      ghost var view := pool.View();
      InsertFacts(t, curr, key, doc);
      ShadowIs(view, t, curr);
      var p := Fetch(pool, curr);
      InsertReady(t, curr, key);
      var q, step := InsertBytes(p, key, doc, t.nodes[curr]);
      if step == Done {
        Store(pool, curr, q);
        BTrees.InsertLeaf(t, curr, key, doc);
        ShadowWrites(view, t, curr, q, InsertStep(t.nodes[curr], key, doc).0, t.contents[key := doc]);
        BesideLeaf(old(pool.View()), t0, view, t, curr, q, InsertStep(t.nodes[curr], key, doc).0, t.contents[key := doc]);
        t := WithLeaf(t, curr, InsertStep(t.nodes[curr], key, doc).0, t.contents[key := doc]);
        return;
      }
      var child := step.page;
      var childFull := IsFull(pool, child, |key|, t);
      if childFull {
        ghost var i := UpperBound(t.nodes[curr].keys, key);
        ghost var was := t;
        ghost var sib;
        t, sib := SplitBelowOn(pool, child, curr, was, i);
        ChildSplitFacts(was, child, sib, curr, i, key);
        BesideThrough(old(pool.View()), t0, view, was, pool.View(), t);
      } else {
        curr := child;
      }
    }
  }

  lemma InsertReady(t: T, p: PageId, key: Key)
    requires Inv(t) && p in t.shape && p in t.nodes && t.caps == CapsFor(|key|) && key !in t.contents
    requires Full(t.nodes[p], t.caps) ==> t.nodes[p].Internal?
    ensures t.nodes[p].Leaf? ==> HasSpace(t.nodes[p], |key|) && key !in t.nodes[p].keys
  {
    hide Rank, Sorted, HasSpace, Disjoint;
    InNodes(t, p);
    if t.nodes[p].Leaf? {
      PageKeys(t, p);
      SpaceIsCount(t.nodes[p], |key|);
      AbsentKey(t, p, key);
    }
  }

  lemma BesideLeaf(view0: map<PageId, Page>, t0: T, view: map<PageId, Page>, t: T, p: PageId, q: Page, n: Node, contents: Contents)
    requires Beside(view0, t0, view, t) && p in t.shape
    ensures Beside(view0, t0, view[p := q], WithLeaf(t, p, n, contents))
  {
  }

  lemma BesideThrough(view0: map<PageId, Page>, t0: T, view: map<PageId, Page>, t: T, view': map<PageId, Page>, t': T)
    requires Beside(view0, t0, view, t) && Beside(view, t, view', t')
    ensures Beside(view0, t0, view', t')
  {
  }
}
