/** src/btree/index.rs over src/btree/btree.rs: an index reached through its published root page, a leaf. */
module LeafIndexes {
  import opened Bytes
  import opened Disk
  import opened Pool
  import opened Nodes
  import opened Layout
  import opened Indexes

  // the slots of a leaf page

  function Zip(ks: seq<Key>, ds: seq<DocId>): (s: seq<Slot>)
    requires |ks| == |ds|
    ensures |s| == |ks| && forall i :: 0 <= i < |s| ==> s[i] == Slot(ks[i], ds[i])
  {
    seq(|ks|, i requires 0 <= i < |ks| => Slot(ks[i], ds[i]))
  }

  /** The bytes are a leaf with its slots in order; equal keys are in order of their documents. */
  ghost predicate HoldsLeaf(p: Page) {
    exists n: Node :: n.Leaf? && Represents(p, n) && SlotsSorted(n.keys, n.docs)
  }

  ghost function LeafIn(p: Page): (n: Node)
    requires HoldsLeaf(p)
    ensures n.Leaf? && Represents(p, n) && SlotsSorted(n.keys, n.docs)
  {
    var n: Node :| n.Leaf? && Represents(p, n) && SlotsSorted(n.keys, n.docs);
    n
  }

  lemma LeafIs(p: Page, n: Node)
    requires n.Leaf? && Represents(p, n) && SlotsSorted(n.keys, n.docs)
    ensures HoldsLeaf(p) && LeafIn(p) == n
  {
    hide Represents, SlotsSorted;
    RepresentsOne(p, n, LeafIn(p));
  }

  ghost function Slots(p: Page): seq<Slot>
    requires HoldsLeaf(p)
  {
    Zip(LeafIn(p).keys, LeafIn(p).docs)
  }

  /** An index whose published root is its only page. */
  ghost predicate IndexPage(p: Page) { HoldsLeaf(p) && LeafIn(p).next.None? }

  lemma SlotsOrdered(p: Page)
    requires HoldsLeaf(p)
    ensures Ordered(Slots(p))
  {
    hide Represents, SlotLt;
  }

  // room on the page

  function SlotSize(s: Slot): nat { LEAF_SLOT + |s.key| }

  /** Bytes that slots and their keys take up. */
  function SlotsSize(slots: seq<Slot>): nat {
    if |slots| == 0 then 0 else SlotSize(slots[0]) + SlotsSize(slots[1..])
  }

  predicate RoomFor(slots: seq<Slot>, more: nat) { HEADER_SIZE + SlotsSize(slots) + more <= PAGE_SIZE }

  lemma {:induction false} ZipSize(ks: seq<Key>, ds: seq<DocId>)
    requires |ks| == |ds|
    ensures SlotsSize(Zip(ks, ds)) == LEAF_SLOT * |ks| + KeyBytes(ks)
  {
    if |ks| == 0 {
    } else {
      ZipSize(ks[1..], ds[1..]);
      assert Zip(ks, ds)[1..] == Zip(ks[1..], ds[1..]);
    }
  }

  /** has_space asks whether the slots and one more fit the page. */
  lemma RoomIsSpace(p: Page, keyLen: nat)
    requires HoldsLeaf(p)
    ensures HasSpace(LeafIn(p), keyLen) <==> RoomFor(Slots(p), LEAF_SLOT + keyLen)
    ensures RoomFor(Slots(p), 0)
  {
    var n := LeafIn(p);
    ZipSize(n.keys, n.docs);
  }

  lemma {:induction false} PlaceSize(slots: seq<Slot>, s: Slot)
    ensures SlotsSize(Place(slots, s)) == SlotsSize(slots) + SlotSize(s)
  {
    hide Before;
    if |slots| == 0 {
      assert [s][1..] == [];
    } else if Before(slots[0], s) {
      PlaceSize(slots[1..], s);
      assert Place(slots, s)[1..] == Place(slots[1..], s);
    } else {
      assert ([s] + slots)[1..] == slots;
    }
  }

  lemma {:induction false} DropSize(slots: seq<Slot>, s: Slot)
    ensures SlotsSize(Drop(slots, s)) == SlotsSize(slots) - if s in slots then SlotSize(s) else 0
  {
    if |slots| == 0 {
    } else if slots[0] == s {
    } else {
      DropSize(slots[1..], s);
      assert Drop(slots, s)[1..] == Drop(slots[1..], s);
      assert slots == [slots[0]] + slots[1..];
    }
  }

  // slot operations on keys and documents

  lemma {:induction false} PlaceAt(ks: seq<Key>, ds: seq<DocId>, key: Key, doc: DocId)
    requires |ks| == |ds|
    ensures Place(Zip(ks, ds), Slot(key, doc)) == InsertAt(Zip(ks, ds), SlotBound(ks, ds, key, doc), Slot(key, doc))
  {
    hide SlotLt, Place, InsertAt;
    var z, s := Zip(ks, ds), Slot(key, doc);
    PlaceHead(z, s);
    if |ks| == 0 {
      InsertFirst(z, s);
    } else if !SlotLt(ks[0], ds[0], key, doc) {
      InsertFirst(z, s);
    } else {
      PlaceAt(ks[1..], ds[1..], key, doc);
      assert z[1..] == Zip(ks[1..], ds[1..]);
      InsertLater(z, SlotBound(ks[1..], ds[1..], key, doc), s);
    }
  }

  lemma PlaceHead(slots: seq<Slot>, s: Slot)
    ensures Place(slots, s) ==
      if |slots| == 0 then [s] else if Before(slots[0], s) then [slots[0]] + Place(slots[1..], s) else [s] + slots
  {
    hide Before;
  }

  lemma InsertFirst(z: seq<Slot>, s: Slot)
    ensures InsertAt(z, 0, s) == [s] + z && (|z| == 0 ==> InsertAt(z, 0, s) == [s])
  {
  }

  lemma InsertLater(z: seq<Slot>, j: nat, s: Slot)
    requires j < |z|
    ensures InsertAt(z, j + 1, s) == [z[0]] + InsertAt(z[1..], j, s)
  {
    assert z[..j + 1] == [z[0]] + z[1..][..j] && z[j + 1..] == z[1..][j..];
  }

  lemma ZipInsert(ks: seq<Key>, ds: seq<DocId>, i: nat, key: Key, doc: DocId)
    requires |ks| == |ds| && i <= |ks|
    ensures |InsertAt(ks, i, key)| == |InsertAt(ds, i, doc)|
    ensures Zip(InsertAt(ks, i, key), InsertAt(ds, i, doc)) == InsertAt(Zip(ks, ds), i, Slot(key, doc))
  {
    hide InsertAt;
    InsertedLength(ks, i, key);
    InsertedLength(ds, i, doc);
    InsertedLength(Zip(ks, ds), i, Slot(key, doc));
    forall j | 0 <= j <= |ks|
      ensures Zip(InsertAt(ks, i, key), InsertAt(ds, i, doc))[j] == InsertAt(Zip(ks, ds), i, Slot(key, doc))[j]
    {
      InsertedAt(ks, i, key, j);
      InsertedAt(ds, i, doc, j);
      InsertedAt(Zip(ks, ds), i, Slot(key, doc), j);
    }
  }

  lemma {:induction false} DropAt(slots: seq<Slot>, s: Slot, i: nat)
    requires i < |slots| && slots[i] == s && forall j :: 0 <= j < i ==> slots[j] != s
    ensures Drop(slots, s) == slots[..i] + slots[i + 1..]
  {
    if i == 0 {
      assert slots[..0] == [];
    } else {
      assert slots[0] != s;
      DropAt(slots[1..], s, i - 1);
      assert slots[..i] == [slots[0]] + slots[1..][..i - 1] && slots[i + 1..] == slots[1..][i..];
    }
  }

  lemma {:induction false} DropAbsent(slots: seq<Slot>, s: Slot)
    requires s !in slots
    ensures Drop(slots, s) == slots
  {
    if |slots| == 0 {
    } else {
      DropAbsent(slots[1..], s);
      assert slots == [slots[0]] + slots[1..];
    }
  }

  /** The slot just before the place is below the key and the one at it is not. */
  ghost predicate KeyPlace(slots: seq<Slot>, key: Key, i: nat) {
    i <= |slots| && (i > 0 ==> Lt(slots[i - 1].key, key)) && (i < |slots| ==> !Lt(slots[i].key, key))
  }

  lemma KeysRise(slots: seq<Slot>, i: nat, j: nat)
    requires Ordered(slots) && i <= j < |slots|
    ensures Rank(slots[i].key) <= Rank(slots[j].key)
  {
    hide Rank;
    if i < j {
      assert Before(slots[i], slots[j]);
      RankOrder(slots[i].key, slots[j].key);
    }
  }

  /** In ordered slots everything before the place is below the key and nothing from it on is. */
  lemma KeyPlaceSplits(slots: seq<Slot>, key: Key, i: nat, j: nat)
    requires Ordered(slots) && KeyPlace(slots, key, i) && j < |slots|
    ensures Lt(slots[j].key, key) <==> j < i
  {
    hide Rank, Lt;
    RankOrder(slots[j].key, key);
    if j < i {
      KeysRise(slots, j, i - 1);
      RankOrder(slots[i - 1].key, key);
    } else {
      KeysRise(slots, i, j);
      RankOrder(slots[i].key, key);
    }
  }

  lemma {:induction false} FindFrom(slots: seq<Slot>, key: Key, i: nat)
    requires i <= |slots| && (forall j :: 0 <= j < i ==> slots[j].key != key)
    requires i < |slots| && slots[i].key != key ==> forall j :: i <= j < |slots| ==> slots[j].key != key
    ensures Find(slots, key) == if i < |slots| && slots[i].key == key then Some(slots[i].doc) else None
    decreases i
  {
    if i == 0 {
      if |slots| > 0 && slots[0].key != key {
        FindNone(slots, key);
      }
    } else {
      FindFrom(slots[1..], key, i - 1);
    }
  }

  lemma FindNone(slots: seq<Slot>, key: Key)
    requires forall j :: 0 <= j < |slots| ==> slots[j].key != key
    ensures Find(slots, key).None?
  {
  }

  /** A search that looks only at the place finds what is there to find. */
  lemma FindAtPlace(slots: seq<Slot>, key: Key, i: nat)
    requires Ordered(slots) && KeyPlace(slots, key, i)
    ensures Find(slots, key) == if i < |slots| && slots[i].key == key then Some(slots[i].doc) else None
  {
    hide Lt, Ordered, Before;
    forall j | 0 <= j < |slots|
      ensures j < i ==> slots[j].key != key
      ensures i <= j && slots[i].key != key ==> slots[j].key != key
    {
      KeyPlaceSplits(slots, key, i, j);
      RankOrder(slots[j].key, key);
      if i <= j {
        RankOrder(slots[i].key, key);
        KeysRise(slots, i, j);
        RankOrder(key, slots[i].key);
      }
    }
    FindFrom(slots, key, i);
  }

  // reading through the published root

  /** Copies a page out of the pool. */
  method Fetch(pool: BufferPool<Page>, id: PageId) returns (p: Page)
    requires pool.Valid() && id in pool.View()
    modifies pool, pool.disk
    ensures pool.Valid() && pool.View() == old(pool.View()) && p == pool.View()[id] && |pool.disk.file| == old(|pool.disk.file|)
  {
    hide Flat, Pool.Inv, Packed, LastAccess, pool.Valid;
    p := pool.WithPageMut(id, (q: Page) => (q, q));
    assert pool.View() == old(pool.View());
  }

  method Store(pool: BufferPool<Page>, id: PageId, p: Page)
    requires pool.Valid() && id in pool.View()
    modifies pool, pool.disk
    ensures pool.Valid() && pool.View() == old(pool.View())[id := p] && |pool.disk.file| == old(|pool.disk.file|)
  {
    hide Flat, Pool.Inv, Packed, LastAccess, pool.Valid;
    var _ := pool.WithPageMut(id, (q: Page) => (p, ()));
  }

  /** lower_bound_key where keys may repeat. */
  method LeafKeyPlace(p: Page, key: Key) returns (i: nat)
    requires HoldsLeaf(p)
    ensures KeyPlace(Slots(p), key, i)
  {
    hide LE, FromLE, KeyInside, EntryAt, WellFormed, Lt, KeyBytes, DocOf, SlotsSorted;
    ghost var n := LeafIn(p);
    forall j | 0 <= j < |n.keys|
      ensures KeyInside(p, LEAF_SLOT, j) && KeyAt(p, LEAF_SLOT, j) == n.keys[j]
    {
      LeafSlotParts(p, n, j);
    }
    i := BoundBy(KeyCount(p), (j: nat) requires KeyInside(p, LEAF_SLOT, j) => Lt(KeyAt(p, LEAF_SLOT, j), key));
  }

  lemma SlotAt(p: Page, i: nat)
    requires HoldsLeaf(p) && i < |Slots(p)|
    ensures KeyInside(p, LEAF_SLOT, i) && Slots(p)[i] == Slot(KeyAt(p, LEAF_SLOT, i), DocAt(p, i))
  {
    hide LE, FromLE, KeyInside, EntryAt, WellFormed, KeyBytes, DocOf, SlotsSorted, KeyAt, DocAt;
    LeafSlotParts(p, LeafIn(p), i);
  }

  lemma SlotCountIs(p: Page)
    requires HoldsLeaf(p)
    ensures KeyCount(p) == |Slots(p)|
  {
  }

  /** search on a root that is a leaf. */
  method SearchLeaf(pool: BufferPool<Page>, root: PageId, key: Key) returns (r: Option<DocId>)
    requires pool.Valid() && root in pool.View() && HoldsLeaf(pool.View()[root])
    modifies pool, pool.disk
    ensures pool.Valid() && pool.View() == old(pool.View()) && |pool.disk.file| == old(|pool.disk.file|)
    ensures r == Find(Slots(pool.View()[root]), key)
  {
    hide Flat, Pool.Inv, Packed, LastAccess, pool.Valid, HoldsLeaf, Slots, Find, Ordered, KeyCount, KeyAt, DocAt, KeyInside;
    var p := Fetch(pool, root);
    var i := LeafKeyPlace(p, key);
    SlotsOrdered(p);
    FindAtPlace(Slots(p), key, i);
    SlotCountIs(p);
    if i < KeyCount(p) {
      SlotAt(p, i);
      if KeyAt(p, LEAF_SLOT, i) == key {
        return Some(DocAt(p, i));
      }
    }
    return None;
  }

  // ranges

  predicate InKeys(s: Slot, low: Bytes, high: Bytes) { Le(low, s.key) && Le(s.key, high) }

  lemma {:induction false} HitsAll(slots: seq<Slot>, low: Bytes, high: Bytes)
    requires forall j :: 0 <= j < |slots| ==> InKeys(slots[j], low, high)
    ensures Hits(slots, low, high) == slots
  {
    hide Le;
    if |slots| == 0 {
    } else {
      assert InKeys(slots[0], low, high);
      HitsAll(slots[1..], low, high);
      assert slots == [slots[0]] + slots[1..];
    }
  }

  lemma {:induction false} HitsNone(slots: seq<Slot>, low: Bytes, high: Bytes)
    requires forall j :: 0 <= j < |slots| ==> !InKeys(slots[j], low, high)
    ensures Hits(slots, low, high) == []
  {
    hide Le;
    if |slots| == 0 {
    } else {
      assert !InKeys(slots[0], low, high);
      HitsNone(slots[1..], low, high);
    }
  }

  lemma {:induction false} HitsConcat(a: seq<Slot>, b: seq<Slot>, low: Bytes, high: Bytes)
    ensures Hits(a + b, low, high) == Hits(a, low, high) + Hits(b, low, high)
  {
    hide Le, Hits;
    if |a| == 0 {
      assert a + b == b && Hits(a, low, high) == [] by { NoHits(low, high); }
    } else {
      HitsConcat(a[1..], b, low, high);
      assert (a + b)[1..] == a[1..] + b;
      HitsHead(a, low, high);
      HitsHead(a + b, low, high);
    }
  }

  lemma NoHits(low: Bytes, high: Bytes)
    ensures Hits([], low, high) == []
  {
  }

  lemma HitsHead(slots: seq<Slot>, low: Bytes, high: Bytes)
    requires |slots| > 0
    ensures Hits(slots, low, high) == (if InKeys(slots[0], low, high) then [slots[0]] else []) + Hits(slots[1..], low, high)
  {
    hide Le;
  }

  /** Slots i to j: from the lower bound to the last key that is not above the upper one. */
  ghost predicate Window(slots: seq<Slot>, low: Bytes, high: Bytes, i: nat, j: nat) {
    && KeyPlace(slots, low, i) && i <= j <= |slots|
    && (forall k :: i <= k < j ==> !Lt(high, slots[k].key)) && (j < |slots| ==> Lt(high, slots[j].key))
  }

  lemma WindowIn(slots: seq<Slot>, low: Bytes, high: Bytes, i: nat, j: nat, k: nat)
    requires Ordered(slots) && Window(slots, low, high, i, j) && k < |slots|
    ensures InKeys(slots[k], low, high) <==> i <= k < j
  {
    hide Rank, Lt, Ordered, Before;
    KeyPlaceSplits(slots, low, i, k);
    RankOrder(low, slots[k].key);
    RankOrder(slots[k].key, low);
    RankOrder(slots[k].key, high);
    RankOrder(high, slots[k].key);
    if j <= k {
      KeysRise(slots, j, k);
      RankOrder(high, slots[j].key);
    }
  }

  lemma WindowIsHits(slots: seq<Slot>, low: Bytes, high: Bytes, i: nat, j: nat)
    requires Ordered(slots) && Window(slots, low, high, i, j)
    ensures Hits(slots, low, high) == slots[i..j]
  {
    hide InKeys, Hits, Ordered, Window;
    assert i <= j <= |slots| by {
      WindowBounds(slots, low, high, i, j);
    }
    forall k | 0 <= k < |slots|
      ensures InKeys(slots[k], low, high) <==> i <= k < j
    {
      WindowIn(slots, low, high, i, j, k);
    }
    HitsNone(slots[..i], low, high);
    HitsAll(slots[i..j], low, high);
    HitsNone(slots[j..], low, high);
    HitsConcat(slots[..i], slots[i..j], low, high);
    HitsConcat(slots[..i] + slots[i..j], slots[j..], low, high);
    assert slots == slots[..i] + slots[i..j] + slots[j..];
  }

  lemma WindowBounds(slots: seq<Slot>, low: Bytes, high: Bytes, i: nat, j: nat)
    requires Window(slots, low, high, i, j)
    ensures i <= j <= |slots|
  {
  }

  /** The documents of slots i to j, none of which is above the upper end. */
  ghost predicate Collected(slots: seq<Slot>, high: Bytes, i: nat, j: nat, ids: seq<DocId>) {
    && i <= j <= |slots| && |ids| == j - i && (forall k :: 0 <= k < j - i ==> ids[k] == slots[i + k].doc)
    && (forall k :: i <= k < j ==> !Lt(high, slots[k].key))
  }

  lemma CollectNone(slots: seq<Slot>, high: Bytes, i: nat)
    requires i <= |slots|
    ensures Collected(slots, high, i, i, [])
  {
    hide Lt;
  }

  lemma CollectOne(slots: seq<Slot>, high: Bytes, i: nat, j: nat, ids: seq<DocId>)
    requires Collected(slots, high, i, j, ids) && j < |slots| && !Lt(high, slots[j].key)
    ensures Collected(slots, high, i, j + 1, ids + [slots[j].doc])
  {
    hide Lt;
  }

  lemma CollectedIsRange(slots: seq<Slot>, low: Bytes, high: Bytes, i: nat, j: nat, ids: seq<DocId>)
    requires Ordered(slots) && KeyPlace(slots, low, i) && Collected(slots, high, i, j, ids)
    requires j < |slots| ==> Lt(high, slots[j].key)
    ensures ids == Range(slots, low, high)
  {
    hide Lt, Hits, Ordered, KeyPlace;
    WindowIsHits(slots, low, high, i, j);
    assert forall k :: 0 <= k < j - i ==> slots[i..j][k] == slots[i + k];
  }

  lemma PlaceInside(slots: seq<Slot>, key: Key, i: nat)
    requires KeyPlace(slots, key, i)
    ensures i <= |slots|
  {
  }

  /** range_scan on a root that is a leaf without a next leaf. */
  method RangeLeaf(pool: BufferPool<Page>, root: PageId, low: Key, high: Key) returns (ids: seq<DocId>)
    requires pool.Valid() && root in pool.View() && IndexPage(pool.View()[root])
    modifies pool, pool.disk
    ensures pool.Valid() && pool.View() == old(pool.View()) && |pool.disk.file| == old(|pool.disk.file|)
    ensures ids == Range(Slots(pool.View()[root]), low, high)
  {
    hide Flat, Pool.Inv, Packed, LastAccess, pool.Valid, HoldsLeaf, Slots, Ordered, KeyCount, KeyAt, DocAt, KeyInside, Lt, Range,
         Collected, KeyPlace;
    var p := Fetch(pool, root);
    ghost var slots := Slots(p);
    SlotsOrdered(p);
    SlotCountIs(p);
    var i := LeafKeyPlace(p, low);
    PlaceInside(slots, low, i);
    CollectNone(slots, high, i);
    var j := i;
    ids := [];
    while j < KeyCount(p)
      invariant i <= j <= |slots| && Collected(slots, high, i, j, ids)
      modifies {}
    {
      SlotAt(p, j);
      if Lt(high, KeyAt(p, LEAF_SLOT, j)) {
        break;
      }
      CollectOne(slots, high, i, j, ids);
      ids := ids + [DocAt(p, j)];
      j := j + 1;
    }
    CollectedIsRange(slots, low, high, i, j, ids);
  }

  // writing through the published root

  method ToArray(p: Page) returns (a: array<byte>)
    ensures fresh(a) && a.Length == PAGE_SIZE && a[..] == p
  {
    a := new byte[PAGE_SIZE](i requires 0 <= i < PAGE_SIZE => p[i]);
  }

  lemma SlotIn(n: Node, key: Key, doc: DocId)
    requires n.Leaf? && |n.keys| == |n.docs|
    ensures Slot(key, doc) in Zip(n.keys, n.docs) <==> exists j :: 0 <= j < |n.keys| && n.keys[j] == key && n.docs[j] == doc
  {
    var z := Zip(n.keys, n.docs);
    if j :| 0 <= j < |n.keys| && n.keys[j] == key && n.docs[j] == doc {
      assert z[j] == Slot(key, doc);
    }
  }

  /** insert on a root leaf with room: ordered insertion in its bytes. */
  method InsertLeaf(pool: BufferPool<Page>, root: PageId, key: Key, doc: DocId)
    requires pool.Valid() && root in pool.View() && HoldsLeaf(pool.View()[root]) && IsDoc(doc)
    requires Slot(key, doc) !in Slots(pool.View()[root]) && RoomFor(Slots(pool.View()[root]), LEAF_SLOT + |key|)
    modifies pool, pool.disk
    ensures pool.Valid() && root in pool.View() && pool.View() == old(pool.View())[root := pool.View()[root]]
    ensures HoldsLeaf(pool.View()[root]) && LeafIn(pool.View()[root]).next == old(LeafIn(pool.View()[root]).next)
    ensures Slots(pool.View()[root]) == Place(old(Slots(pool.View()[root])), Slot(key, doc)) && |pool.disk.file| == old(|pool.disk.file|)
  {
    hide Flat, Pool.Inv, Packed, LastAccess, pool.Valid, Represents, SlotsSorted, SlotBound, HasSpace, Place, InsertAt, RoomFor,
         HoldsLeaf;
    var p := Fetch(pool, root);
    ghost var n := LeafIn(p);
    RoomIsSpace(p, |key|);
    LeafCount(p, n);
    SlotIn(n, key, doc);
    var a := ToArray(p);
    var ok := LeafInsertSlot(a, key, doc, n);
    ghost var i := SlotBound(n.keys, n.docs, key, doc);
    ZipInsert(n.keys, n.docs, i, key, doc);
    PlaceAt(n.keys, n.docs, key, doc);
    LeafIs(a[..], LeafWith(n, i, key, doc));
    Store(pool, root, a[..]);
  }

  lemma RemovedEntries(n: Node, es: seq<(Key, DocId)>, i: nat)
    requires n.Leaf? && n == LeafOf(es, n.next) && SlotsSorted(n.keys, n.docs) && i < |es|
    ensures var m := LeafOf(RemoveAt(es, i), n.next);
      && SlotsSorted(m.keys, m.docs) && Zip(m.keys, m.docs) == RemoveAt(Zip(n.keys, n.docs), i)
  {
    hide SlotLt;
    var m := LeafOf(RemoveAt(es, i), n.next);
    forall a, b | 0 <= a < b < |m.keys|
      ensures SlotLt(m.keys[a], m.docs[a], m.keys[b], m.docs[b])
    {
      var x, y := if a < i then a else a + 1, if b < i then b else b + 1;
      assert m.keys[a] == n.keys[x] && m.docs[a] == n.docs[x] && m.keys[b] == n.keys[y] && m.docs[b] == n.docs[y];
    }
  }

  lemma LeafFits(p: Page, es: seq<(Key, DocId)>, i: nat, next: Option<PageId>)
    requires HoldsLeaf(p) && LeafIn(p) == LeafOf(es, LeafIn(p).next) && i < |es|
    requires Zip(LeafOf(RemoveAt(es, i), next).keys, LeafOf(RemoveAt(es, i), next).docs) == RemoveAt(Slots(p), i)
    ensures HEADER_SIZE + LEAF_SLOT * |RemoveAt(es, i)| + KeyBytes(LeafOf(RemoveAt(es, i), next).keys) <= PAGE_SIZE
  {
    hide Represents, SlotsSorted, HasSpace;
    var m := LeafOf(RemoveAt(es, i), next);
    RoomIsSpace(p, 0);
    ZipSize(m.keys, m.docs);
    RemoveSize(Slots(p), i);
  }

  lemma {:induction false} RemoveSize(slots: seq<Slot>, i: nat)
    requires i < |slots|
    ensures SlotsSize(RemoveAt(slots, i)) == SlotsSize(slots) - SlotSize(slots[i])
  {
    if i == 0 {
      assert RemoveAt(slots, 0) == slots[1..];
    } else {
      RemoveSize(slots[1..], i - 1);
      assert RemoveAt(slots, i)[1..] == RemoveAt(slots[1..], i - 1) && RemoveAt(slots, i)[0] == slots[0];
    }
  }

  lemma EntriesAreDocs(p: Page, n: Node, es: seq<(Key, DocId)>)
    requires n.Leaf? && Represents(p, n) && n == LeafOf(es, n.next)
    ensures (forall e <- es :: IsDoc(e.1)) && (n.next.Some? ==> n.next.value < NO_NEXT)
  {
    hide LE, FromLE, KeyInside, EntryAt, WellFormed, KeyBytes;
    forall i | 0 <= i < |es|
      ensures IsDoc(es[i].1)
    {
      assert LeafSlot(p, n, i);
    }
  }

  lemma LeafCount(p: Page, n: Node)
    requires n.Leaf? && Represents(p, n)
    ensures KeyCount(p) == |n.keys| == |n.docs|
  {
  }

  /** The pair is in the leaf iff it is at its lower bound. */
  lemma FoundAt(n: Node, key: Key, doc: DocId, i: nat)
    requires n.Leaf? && SlotsSorted(n.keys, n.docs) && i == SlotBound(n.keys, n.docs, key, doc)
    ensures (i < |n.keys| && n.keys[i] == key && n.docs[i] == doc) <==> Slot(key, doc) in Zip(n.keys, n.docs)
  {
    hide SlotLt;
    SlotIn(n, key, doc);
    SlotBoundUnique(n.keys, n.docs, key, doc, i);
  }

  lemma RemovedIs<T>(s: seq<T>, i: nat)
    requires i < |s|
    ensures RemoveAt(s, i) == s[..i] + s[i + 1..]
  {
  }

  lemma DropFirst(slots: seq<Slot>, s: Slot, i: nat)
    requires Ordered(slots) && i < |slots| && slots[i] == s
    ensures Drop(slots, s) == RemoveAt(slots, i)
  {
    hide Before, Drop;
    forall j | 0 <= j < i
      ensures slots[j] != s
    {
      assert Before(slots[j], slots[i]);
      BeforeTotal(slots[j], slots[i]);
    }
    DropAt(slots, s, i);
  }

  /** delete on a root leaf: the page is rebuilt without the pair, if it is there. */
  method DeleteLeaf(pool: BufferPool<Page>, root: PageId, key: Key, doc: DocId)
    requires pool.Valid() && root in pool.View() && HoldsLeaf(pool.View()[root])
    modifies pool, pool.disk
    ensures pool.Valid() && root in pool.View() && pool.View() == old(pool.View())[root := pool.View()[root]]
    ensures HoldsLeaf(pool.View()[root]) && LeafIn(pool.View()[root]).next == old(LeafIn(pool.View()[root]).next)
    ensures Slots(pool.View()[root]) == Drop(old(Slots(pool.View()[root])), Slot(key, doc)) && |pool.disk.file| == old(|pool.disk.file|)
  {
    hide Flat, Pool.Inv, Packed, LastAccess, pool.Valid, Represents, SlotsSorted, SlotBound, Drop, RoomFor, HoldsLeaf, LeafOf,
         RemoveAt, KeyAt, DocAt, KeyInside, Ordered, IsDoc, KeyBytes;
    var p := Fetch(pool, root);
    ghost var n := LeafIn(p);
    LeafCount(p, n);
    var i := LeafSlotBound(p, key, doc, n);
    FoundAt(n, key, doc, i);
    SlotsOrdered(p);
    ghost var slots := Slots(p);
    if i < KeyCount(p) {
      LeafSlotParts(p, n, i);
      if KeyAt(p, LEAF_SLOT, i) == key && DocAt(p, i) == doc {
        var es := LeafEntries(p, n);
        EntriesAreDocs(p, n, es);
        RemovedEntries(n, es, i);
        LeafFits(p, es, i, n.next);
        var fewer := es[..i] + es[i + 1..];
        RemovedIs(es, i);
        var a := ToArray(p);
        LinkParts(p, n);
        var link := FromLE(Link(p));
        LeafRebuild(a, fewer, if link == NO_NEXT then None else Some(link));
        LeafIs(a[..], LeafOf(fewer, n.next));
        DropFirst(slots, Slot(key, doc), i);
        Store(pool, root, a[..]);
        return;
      }
    }
    DropAbsent(slots, Slot(key, doc));
  }

  // a root leaf without room is split, and the handle moves to a new root

  lemma SlicedEntries(n: Node, es: seq<(Key, DocId)>, a: nat, b: nat, next: Option<PageId>)
    requires n.Leaf? && n == LeafOf(es, n.next) && SlotsSorted(n.keys, n.docs) && a <= b <= |es|
    ensures var m := LeafOf(es[a..b], next);
      SlotsSorted(m.keys, m.docs) && Zip(m.keys, m.docs) == Zip(n.keys, n.docs)[a..b]
  {
    hide SlotLt;
    var m := LeafOf(es[a..b], next);
    forall x, y | 0 <= x < y < |m.keys|
      ensures SlotLt(m.keys[x], m.docs[x], m.keys[y], m.docs[y])
    {
      assert m.keys[x] == n.keys[a + x] && m.docs[x] == n.docs[a + x] && m.keys[y] == n.keys[a + y] && m.docs[y] == n.docs[a + y];
    }
  }

  lemma {:induction false} SizeConcat(a: seq<Slot>, b: seq<Slot>)
    ensures SlotsSize(a + b) == SlotsSize(a) + SlotsSize(b)
  {
    if |a| == 0 {
      assert a + b == b;
    } else {
      SizeConcat(a[1..], b);
      assert (a + b)[1..] == a[1..] + b;
    }
  }

  lemma SliceSize(slots: seq<Slot>, a: nat, b: nat)
    requires a <= b <= |slots|
    ensures SlotsSize(slots[a..b]) <= SlotsSize(slots)
  {
    hide SlotsSize;
    SizeConcat(slots[..a] + slots[a..b], slots[b..]);
    SizeConcat(slots[..a], slots[a..b]);
    assert slots == slots[..a] + slots[a..b] + slots[b..];
  }

  lemma SliceFits(p: Page, es: seq<(Key, DocId)>, a: nat, b: nat, next: Option<PageId>)
    requires HoldsLeaf(p) && LeafIn(p) == LeafOf(es, LeafIn(p).next) && a <= b <= |es|
    requires Zip(LeafOf(es[a..b], next).keys, LeafOf(es[a..b], next).docs) == Slots(p)[a..b]
    ensures HEADER_SIZE + LEAF_SLOT * (b - a) + KeyBytes(LeafOf(es[a..b], next).keys) <= PAGE_SIZE
  {
    hide Represents, SlotsSorted, HasSpace;
    var m := LeafOf(es[a..b], next);
    RoomIsSpace(p, 0);
    ZipSize(m.keys, m.docs);
    SliceSize(Slots(p), a, b);
  }

  /** A page with slots a to b of the leaf. */
  method RebuiltSlice(p: Page, es: seq<(Key, DocId)>, a: nat, b: nat, next: Option<PageId>) returns (q: Page)
    requires HoldsLeaf(p) && LeafIn(p) == LeafOf(es, LeafIn(p).next) && a <= b <= |es| && (next.Some? ==> next.value < NO_NEXT)
    ensures HoldsLeaf(q) && LeafIn(q).next == next && Slots(q) == Slots(p)[a..b]
  {
    hide Represents, SlotsSorted, HoldsLeaf, LeafOf, KeyBytes, IsDoc;
    ghost var n := LeafIn(p);
    LeafCount(p, n);
    EntriesAreDocs(p, n, es);
    SlicedEntries(n, es, a, b, next);
    SliceFits(p, es, a, b, next);
    assert forall e <- es[a..b] :: e in es;
    var x := ToArray(p);
    LeafRebuild(x, es[a..b], next);
    q := x[..];
    LeafIs(q, LeafOf(es[a..b], next));
  }

  /** A root over two pages. */
  method RootOver(left: PageId, sep: Key, right: PageId) returns (q: Page)
    requires left <= NO_NEXT && right <= NO_NEXT && HEADER_SIZE + INTERNAL_SLOT + |sep| <= PAGE_SIZE
    ensures Represents(q, Internal([sep], [left, right]))
  {
    hide Represents;
    var x := new byte[PAGE_SIZE](_ => 0);
    var es := [(sep, right)];
    assert InternalOf(left, es) == Internal([sep], [left, right]);
    assert KeyBytes([sep]) == |sep| by {
      assert [sep][1..] == [];
    }
    InternalRebuild(x, left, es);
    q := x[..];
  }

  lemma NextOf(p: Page)
    requires HoldsLeaf(p)
    ensures var link := FromLE(Link(p)); LeafIn(p).next == if link == NO_NEXT then None else Some(link)
    ensures LeafIn(p).next.Some? ==> LeafIn(p).next.value < NO_NEXT
  {
    hide LE, FromLE, KeyInside, EntryAt, WellFormed, KeyBytes, SlotsSorted;
    LinkParts(p, LeafIn(p));
  }

  /** split_node on a published root: the page keeps the lower half of its slots, the rest moves to a new leaf,
      and the handle goes on at a new root that the catalog does not know. */
  method SplitPublished(pool: BufferPool<Page>, root: PageId) returns (newRoot: PageId, sibling: PageId)
    requires pool.Valid() && root in pool.View() && HoldsLeaf(pool.View()[root]) && |Slots(pool.View()[root])| > 0
    requires |pool.disk.file| + 2 < NO_NEXT && root < NO_NEXT
    modifies pool, pool.disk
    ensures pool.Valid() && newRoot !in old(pool.View()) && sibling !in old(pool.View()) && newRoot != sibling
    ensures pool.View().Keys == old(pool.View()).Keys + {newRoot, sibling} && |pool.disk.file| <= old(|pool.disk.file|) + 2
    ensures forall q :: q in old(pool.View()) && q != root ==> pool.View()[q] == old(pool.View())[q]
    ensures var slots, mid := old(Slots(pool.View()[root])), old(|Slots(pool.View()[root])|) / 2;
      && HoldsLeaf(pool.View()[root]) && Slots(pool.View()[root]) == slots[..mid] && LeafIn(pool.View()[root]).next == Some(sibling)
      && HoldsLeaf(pool.View()[sibling]) && Slots(pool.View()[sibling]) == slots[mid..]
      && LeafIn(pool.View()[sibling]).next == old(LeafIn(pool.View()[root]).next)
      && Represents(pool.View()[newRoot], Internal([slots[mid].key], [root, sibling]))
  {
    hide Flat, Pool.Inv, Packed, LastAccess, pool.Valid, Represents, SlotsSorted, HoldsLeaf, Slots, SlotSize, LE, FromLE;
    var p := Fetch(pool, root);
    ghost var n, slots := LeafIn(p), Slots(p);
    NextOf(p);
    var link := FromLE(Link(p));
    var next := if link == NO_NEXT then None else Some(link);
    var es := LeafEntries(p, n);
    SlotsAreEntries(p, es);
    var mid := |es| / 2;
    var upper := RebuiltSlice(p, es, mid, |es|, next);
    sibling := NewPageOf(pool, upper);
    var lower := RebuiltSlice(p, es, 0, mid, Some(sibling));
    Store(pool, root, lower);
    SeparatorFits(p, mid);
    var top := RootOver(root, es[mid].0, sibling);
    newRoot := NewPageOf(pool, top);
    assert slots[mid..|es|] == slots[mid..] && slots[0..mid] == slots[..mid];
  }

  // insert from a published root, whatever its page looks like

  /** The half of a split page that a key belongs to. */
  function HalfFor(slots: seq<Slot>, key: Key): seq<Slot>
    requires |slots| > 0
  {
    var mid := |slots| / 2;
    if Lt(key, slots[mid].key) then slots[..mid] else slots[mid..]
  }

  /** The page has room for the slot, or the half of it that the slot goes to. */
  predicate Settles(slots: seq<Slot>, s: Slot) {
    RoomFor(slots, SlotSize(s)) || (|slots| > 0 && RoomFor(HalfFor(slots, s.key), SlotSize(s)))
  }

  /** What is on the published page after an insert from it: a page without room keeps its lower half, and the slot
      if it belongs there. */
  function Settled(slots: seq<Slot>, s: Slot): seq<Slot> {
    if RoomFor(slots, SlotSize(s)) || |slots| == 0 then Place(slots, s) else
      var mid := |slots| / 2;
      if Lt(s.key, slots[mid].key) then Place(slots[..mid], s) else slots[..mid]
  }

  /** insert of a handle opened at the root page. It fails only where one split does not make room for the key. */
  method InsertRoot(pool: BufferPool<Page>, root: PageId, key: Key, doc: DocId) returns (ok: bool)
    requires pool.Valid() && root in pool.View() && HoldsLeaf(pool.View()[root]) && IsDoc(doc) && root < NO_NEXT
    requires Slot(key, doc) !in Slots(pool.View()[root]) && RoomFor([], LEAF_SLOT + |key|) && |pool.disk.file| + 2 < NO_NEXT
    modifies pool, pool.disk
    ensures pool.Valid() && root in pool.View() && HoldsLeaf(pool.View()[root]) && old(pool.View()).Keys <= pool.View().Keys
    ensures forall q :: q in old(pool.View()) && q != root ==> pool.View()[q] == old(pool.View())[q]
    ensures |pool.disk.file| <= old(|pool.disk.file|) + 2
    ensures ok <==> Settles(old(Slots(pool.View()[root])), Slot(key, doc))
    ensures ok ==> Slots(pool.View()[root]) == Settled(old(Slots(pool.View()[root])), Slot(key, doc))
    ensures !ok ==> var slots := old(Slots(pool.View()[root])); Slots(pool.View()[root]) == slots[..|slots| / 2]
    ensures if RoomFor(old(Slots(pool.View()[root])), LEAF_SLOT + |key|)
      then LeafIn(pool.View()[root]).next == old(LeafIn(pool.View()[root]).next) && |pool.disk.file| == old(|pool.disk.file|)
      else LeafIn(pool.View()[root]).next.Some?
  {
    hide Flat, Pool.Inv, Packed, LastAccess, pool.Valid, HoldsLeaf, Slots, Place, HasSpace, Represents, RoomFor, Lt, UpperBound;
    ghost var slots := Slots(pool.View()[root]);
    RoomIsSpace(pool.View()[root], |key|);
    var p := Fetch(pool, root);
    var room := NodeHasSpace(p, LEAF_SLOT, |key|, LeafIn(p));
    if room {
      InsertLeaf(pool, root, key, doc);
      return true;
    }
    FullHasSlots(slots, LEAF_SLOT + |key|);
    var newRoot, sibling := SplitPublished(pool, root);
    ghost var mid := |slots| / 2;
    var top := Fetch(pool, newRoot);
    var child := ChildFor(top, key, false, Internal([slots[mid].key], [root, sibling]));
    UpperOfOne(slots[mid].key, key);
    var q := Fetch(pool, child);
    RoomIsSpace(q, |key|);
    ok := NodeHasSpace(q, LEAF_SLOT, |key|, LeafIn(q));
    if ok {
      InsertLeaf(pool, child, key, doc);
    }
  }

  lemma FullHasSlots(slots: seq<Slot>, more: nat)
    requires RoomFor([], more) && !RoomFor(slots, more)
    ensures |slots| > 0
  {
  }

  lemma UpperOfOne(sep: Key, key: Key)
    ensures UpperBound([sep], key) == if Lt(key, sep) then 0 else 1
  {
    RankOrder(key, sep);
    RankOrder(sep, key);
    assert [sep][1..] == [];
  }

  method NewPageOf(pool: BufferPool<Page>, p: Page) returns (id: PageId)
    requires pool.Valid()
    modifies pool, pool.disk
    ensures pool.Valid() && id !in old(pool.View()) && pool.View() == old(pool.View())[id := p]
    ensures id <= old(|pool.disk.file|) && |pool.disk.file| <= old(|pool.disk.file|) + 1
  {
    hide Flat, Pool.Inv, Packed, LastAccess, pool.Valid;
    var unit;
    id, unit := pool.NewPage((q: Page) => (p, ()));
  }

  lemma SlotsAreEntries(p: Page, es: seq<(Key, DocId)>)
    requires HoldsLeaf(p) && LeafIn(p) == LeafOf(es, LeafIn(p).next)
    ensures |Slots(p)| == |es| && forall i :: 0 <= i < |es| ==> Slots(p)[i] == Slot(es[i].0, es[i].1)
  {
    hide Represents, SlotsSorted;
  }

  lemma SeparatorFits(p: Page, i: nat)
    requires HoldsLeaf(p) && i < |Slots(p)|
    ensures HEADER_SIZE + INTERNAL_SLOT + |Slots(p)[i].key| <= PAGE_SIZE
  {
    hide Represents, SlotsSorted, HasSpace;
    RoomIsSpace(p, 0);
    SliceSize(Slots(p), i, i + 1);
    assert Slots(p)[i..i + 1] == [Slots(p)[i]];
    assert [Slots(p)[i]][1..] == [];
  }
}
