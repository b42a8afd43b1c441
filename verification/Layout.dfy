/** src/btree/node.rs: how a node sits in the bytes of its page. */
module Layout {
  import opened Bytes
  import opened Disk
  import opened Nodes

  /** A page: a header, slots of one width growing up, keys growing down from the end. */
  type Page = p: Bytes | |p| == PAGE_SIZE witness seq(PAGE_SIZE, _ => 0)

  /** Slot widths: 14 bytes in a leaf, 12 in an internal node. */
  type Width = w: nat | w == 14 || w == 12 witness 14

  function SlotStart(w: Width, i: nat): nat {
    HEADER_SIZE + (if w == 14 then 14 * i else 12 * i)
  }

  function U16(p: Bytes, off: nat): nat
    requires off + 2 <= |p|
  {
    FromLE(p[off..off + 2])
  }

  function KeyCount(p: Page): nat { U16(p, 1) }

  function FreeOffset(p: Page): nat { U16(p, 3) }

  /** Next leaf or leftmost child. */
  function Link(p: Page): Bytes { p[5..13] }

  function SlotBytes(p: Page, w: Width, i: nat): (s: Bytes)
    requires SlotStart(w, i + 1) <= PAGE_SIZE
    ensures |s| == w
  {
    p[SlotStart(w, i)..SlotStart(w, i) + w]
  }

  function KeyOffset(slot: Bytes): nat
    requires |slot| >= 4
  {
    U16(slot, 0)
  }

  function KeyLength(slot: Bytes): nat
    requires |slot| >= 4
  {
    U16(slot, 2)
  }

  /** Slots and keys do not meet, and every key lies in the key area. */
  predicate WellFormed(p: Page, w: Width) {
    && SlotStart(w, KeyCount(p)) <= FreeOffset(p) <= PAGE_SIZE
    && forall i :: 0 <= i < KeyCount(p) ==> KeyInside(p, w, i)
  }

  predicate KeyInside(p: Page, w: Width, i: nat) {
    && SlotStart(w, i + 1) <= PAGE_SIZE
    && FreeOffset(p) <= KeyOffset(SlotBytes(p, w, i))
    && KeyOffset(SlotBytes(p, w, i)) + KeyLength(SlotBytes(p, w, i)) <= PAGE_SIZE
  }

  /** The key and the value bytes of slot i. */
  function EntryAt(p: Page, w: Width, i: nat): (Bytes, Bytes)
    requires KeyInside(p, w, i)
  {
    var s := SlotBytes(p, w, i);
    (p[KeyOffset(s)..KeyOffset(s) + KeyLength(s)], s[4..])
  }

  ghost function Entries(p: Page, w: Width): seq<(Bytes, Bytes)>
    requires WellFormed(p, w)
  {
    seq(KeyCount(p), i requires 0 <= i < KeyCount(p) => EntryAt(p, w, i))
  }

  predicate Room(p: Page, w: Width, keyLen: nat) {
    FreeOffset(p) >= keyLen + SlotStart(w, KeyCount(p) + 1)
  }

  // the steps of insert_slot, as functions of the page

  function SlotFor(off: nat, key: Bytes, val: Bytes): Bytes {
    LE(off, 2) + LE(|key|, 2) + val
  }

  function Shifted(p: Page, w: Width, i: nat): (r: Page)
    requires i <= KeyCount(p) && SlotStart(w, KeyCount(p) + 1) <= PAGE_SIZE
  {
    Put(p, SlotStart(w, i + 1), p[SlotStart(w, i)..SlotStart(w, KeyCount(p))])
  }

  function Inserted(p: Page, w: Width, i: nat, key: Bytes, val: Bytes): (r: Page)
    requires i <= KeyCount(p) && Room(p, w, |key|) && |val| == w - 4 && FreeOffset(p) <= PAGE_SIZE
  {
    var off := FreeOffset(p) - |key|;
    var p2 := Put(Shifted(p, w, i), off, key);
    var p3 := Put(p2, 3, LE(off, 2));
    var p4 := Put(p3, 1, LE(KeyCount(p) + 1, 2));
    Put(p4, SlotStart(w, i), SlotFor(off, key, val))
  }

  ghost predicate Insertable(p: Page, w: Width, i: nat, key: Bytes, val: Bytes) {
    WellFormed(p, w) && i <= KeyCount(p) && Room(p, w, |key|) && |val| == w - 4
  }

  lemma U16Of(b: Bytes, n: nat)
    requires n < 0x1_0000 && b == LE(n, 2)
    ensures FromLE(b) == n
  {
    Powers();
    FromLEofLE(n, 2);
  }

  /** What insert_slot does not write: everything outside the two counters, the moved slots and the new key. */
  ghost predicate Outside(p: Page, w: Width, i: nat, key: Bytes, x: nat, y: nat) {
    && x <= y <= PAGE_SIZE && (y <= 1 || 5 <= x)
    && (y <= SlotStart(w, i) || SlotStart(w, KeyCount(p) + 1) <= x)
    && (y <= FreeOffset(p) - |key| || FreeOffset(p) <= x)
  }

  lemma InsertedKeeps(p: Page, w: Width, i: nat, key: Bytes, val: Bytes, x: nat, y: nat)
    requires Insertable(p, w, i, key, val) && Outside(p, w, i, key, x, y)
    ensures Inserted(p, w, i, key, val)[x..y] == p[x..y]
  {
    hide LE, FromLE, Put, SlotFor;
    var off := FreeOffset(p) - |key|;
    var p1 := Shifted(p, w, i);
    var p2 := Put(p1, off, key);
    var p3 := Put(p2, 3, LE(off, 2));
    var p4 := Put(p3, 1, LE(KeyCount(p) + 1, 2));
    SlotForLength(off, key, val);
    PutApart(p, SlotStart(w, i + 1), p[SlotStart(w, i)..SlotStart(w, KeyCount(p))], x, y);
    PutApart(p1, off, key, x, y);
    PutApart(p2, 3, LE(off, 2), x, y);
    PutApart(p3, 1, LE(KeyCount(p) + 1, 2), x, y);
    PutApart(p4, SlotStart(w, i), SlotFor(off, key, val), x, y);
  }

  lemma SlotForLength(off: nat, key: Bytes, val: Bytes)
    ensures |SlotFor(off, key, val)| == 4 + |val|
  {
  }

  lemma InsertedCounters(p: Page, w: Width, i: nat, key: Bytes, val: Bytes)
    requires Insertable(p, w, i, key, val)
    ensures var q := Inserted(p, w, i, key, val); KeyCount(q) == KeyCount(p) + 1 && FreeOffset(q) == FreeOffset(p) - |key|
  {
    hide LE, FromLE, Put, SlotFor;
    var off := FreeOffset(p) - |key|;
    var p2 := Put(Shifted(p, w, i), off, key);
    var p3 := Put(p2, 3, LE(off, 2));
    var p4 := Put(p3, 1, LE(KeyCount(p) + 1, 2));
    SlotForLength(off, key, val);
    PutSame(p3, 1, LE(KeyCount(p) + 1, 2));
    PutApart(p4, SlotStart(w, i), SlotFor(off, key, val), 1, 3);
    U16Of(LE(KeyCount(p) + 1, 2), KeyCount(p) + 1);
    PutSame(p2, 3, LE(off, 2));
    PutApart(p3, 1, LE(KeyCount(p) + 1, 2), 3, 5);
    PutApart(p4, SlotStart(w, i), SlotFor(off, key, val), 3, 5);
    U16Of(LE(off, 2), off);
  }

  /** A region of the slot array that lies above slot i is written by the shift only. */
  lemma InsertedShifts(p: Page, w: Width, i: nat, key: Bytes, val: Bytes, x: nat, y: nat)
    requires Insertable(p, w, i, key, val) && SlotStart(w, i) + w <= x <= y <= SlotStart(w, KeyCount(p) + 1)
    ensures Inserted(p, w, i, key, val)[x..y] == Shifted(p, w, i)[x..y]
  {
    hide LE, FromLE, Put, SlotFor, Shifted;
    var off := FreeOffset(p) - |key|;
    SlotForLength(off, key, val);
    var p1 := Shifted(p, w, i);
    var p2 := Put(p1, off, key);
    var p3 := Put(p2, 3, LE(off, 2));
    var p4 := Put(p3, 1, LE(KeyCount(p) + 1, 2));
    PutApart(p1, off, key, x, y);
    PutApart(p2, 3, LE(off, 2), x, y);
    PutApart(p3, 1, LE(KeyCount(p) + 1, 2), x, y);
    PutApart(p4, SlotStart(w, i), SlotFor(off, key, val), x, y);
  }

  lemma ShiftedSlot(p: Page, w: Width, i: nat, j: nat)
    requires i < j <= KeyCount(p) && SlotStart(w, KeyCount(p) + 1) <= PAGE_SIZE
    ensures Shifted(p, w, i)[SlotStart(w, j)..SlotStart(w, j) + w] == p[SlotStart(w, j - 1)..SlotStart(w, j - 1) + w]
  {
    hide Put;
    var from, to := SlotStart(w, i), SlotStart(w, KeyCount(p));
    var x := SlotStart(w, j) - SlotStart(w, i + 1);
    assert SlotStart(w, j) == SlotStart(w, j - 1) + w && SlotStart(w, i + 1) == from + w && x + w <= to - from;
    PutInside(p, SlotStart(w, i + 1), p[from..to], SlotStart(w, j), SlotStart(w, j) + w);
    SliceSlice(p, from, to, x, x + w);
  }

  /** Slots before i stay, slot i is the new one, later slots move up by one. */
  lemma InsertedSlots(p: Page, w: Width, i: nat, key: Bytes, val: Bytes, j: nat)
    requires Insertable(p, w, i, key, val) && j <= KeyCount(p) && SlotStart(w, j + 1) <= PAGE_SIZE
    ensures SlotBytes(Inserted(p, w, i, key, val), w, j) ==
            if j < i then SlotBytes(p, w, j) else if j == i then SlotFor(FreeOffset(p) - |key|, key, val) else SlotBytes(p, w, j - 1)
  {
    hide LE, FromLE, Put, SlotFor, Shifted;
    if j < i {
      InsertedKeeps(p, w, i, key, val, SlotStart(w, j), SlotStart(w, j) + w);
    } else if j == i {
      var off := FreeOffset(p) - |key|;
      SlotForLength(off, key, val);
      var p4 := Put(Put(Put(Shifted(p, w, i), off, key), 3, LE(off, 2)), 1, LE(KeyCount(p) + 1, 2));
      PutSame(p4, SlotStart(w, i), SlotFor(off, key, val));
    } else {
      InsertedShifts(p, w, i, key, val, SlotStart(w, j), SlotStart(w, j) + w);
      ShiftedSlot(p, w, i, j);
    }
  }

  lemma InsertedKey(p: Page, w: Width, i: nat, key: Bytes, val: Bytes)
    requires Insertable(p, w, i, key, val)
    ensures Inserted(p, w, i, key, val)[FreeOffset(p) - |key|..FreeOffset(p)] == key
  {
    hide LE, FromLE, Put, SlotFor;
    var off := FreeOffset(p) - |key|;
    var p1 := Shifted(p, w, i);
    var p2 := Put(p1, off, key);
    var p3 := Put(p2, 3, LE(off, 2));
    var p4 := Put(p3, 1, LE(KeyCount(p) + 1, 2));
    SlotForLength(off, key, val);
    PutSame(p1, off, key);
    PutApart(p2, 3, LE(off, 2), off, off + |key|);
    PutApart(p3, 1, LE(KeyCount(p) + 1, 2), off, off + |key|);
    PutApart(p4, SlotStart(w, i), SlotFor(off, key, val), off, off + |key|);
  }

  lemma SlotForParts(off: nat, key: Bytes, val: Bytes)
    requires off < 0x1_0000 && |key| < 0x1_0000
    ensures var s := SlotFor(off, key, val); |s| == 4 + |val| && KeyOffset(s) == off && KeyLength(s) == |key| && s[4..] == val
  {
    hide LE, FromLE;
    var s := SlotFor(off, key, val);
    assert s[0..2] == LE(off, 2) && s[2..4] == LE(|key|, 2);
    U16Of(s[0..2], off);
    U16Of(s[2..4], |key|);
  }

  /** Slot j after the insertion reads as the new entry, or as the entry it was before. */
  lemma InsertedEntry(p: Page, w: Width, i: nat, key: Bytes, val: Bytes, j: nat)
    requires Insertable(p, w, i, key, val) && j <= KeyCount(p)
    ensures var q := Inserted(p, w, i, key, val);
      && KeyInside(q, w, j)
      && (j == i ==> EntryAt(q, w, j) == (key, val))
      && (j < i ==> KeyInside(p, w, j) && EntryAt(q, w, j) == EntryAt(p, w, j))
      && (j > i ==> KeyInside(p, w, j - 1) && EntryAt(q, w, j) == EntryAt(p, w, j - 1))
  {
    hide LE, FromLE, Put, SlotFor, Inserted;
    var q := Inserted(p, w, i, key, val);
    InsertedCounters(p, w, i, key, val);
    InsertedSlots(p, w, i, key, val, j);
    if j == i {
      SlotForParts(FreeOffset(p) - |key|, key, val);
      InsertedKey(p, w, i, key, val);
    } else {
      var k := if j < i then j else j - 1;
      assert KeyInside(p, w, k);
      var s := SlotBytes(p, w, k);
      InsertedKeeps(p, w, i, key, val, KeyOffset(s), KeyOffset(s) + KeyLength(s));
    }
  }

  /** insert_slot on a page with room: the entries gain the pair at position i, and slots and keys stay apart. */
  lemma InsertedEntries(p: Page, w: Width, i: nat, key: Bytes, val: Bytes)
    requires Insertable(p, w, i, key, val)
    ensures var q := Inserted(p, w, i, key, val);
      && WellFormed(q, w) && Link(q) == Link(p) && q[0] == p[0]
      && Entries(q, w) == Entries(p, w)[..i] + [(key, val)] + Entries(p, w)[i..]
  {
    hide LE, FromLE, Put, SlotFor, Inserted;
    var q := Inserted(p, w, i, key, val);
    InsertedCounters(p, w, i, key, val);
    forall j | 0 <= j < KeyCount(q)
      ensures KeyInside(q, w, j)
    {
      InsertedEntry(p, w, i, key, val, j);
    }
    InsertedKeeps(p, w, i, key, val, 5, 13);
    InsertedKeeps(p, w, i, key, val, 0, 1);
    assert q[0] == q[0..1][0] && p[0] == p[0..1][0];
    var es, es' := Entries(p, w), Entries(q, w);
    forall j | 0 <= j < |es'|
      ensures es'[j] == (es[..i] + [(key, val)] + es[i..])[j]
    {
      InsertedEntry(p, w, i, key, val, j);
    }
  }

  // pages as nodes

  const NO_NEXT: nat := 0xFFFF_FFFF_FFFF_FFFF

  ghost predicate IsDoc(d: DocId) { d.0 < 0x1_0000_0000_0000_0000 && d.1 < 0x1_0000 }

  function DocBytes(d: DocId): (b: Bytes)
    ensures |b| == 10
  {
    LE(d.0, 8) + LE(d.1, 2)
  }

  function DocOf(b: Bytes): DocId
    requires |b| == 10
  {
    (FromLE(b[..8]), FromLE(b[8..]))
  }

  lemma DocRoundTrip(d: DocId)
    requires IsDoc(d)
    ensures DocOf(DocBytes(d)) == d
  {
    Powers();
    FromLEofLE(d.0, 8);
    FromLEofLE(d.1, 2);
    assert DocBytes(d)[..8] == LE(d.0, 8) && DocBytes(d)[8..] == LE(d.1, 2);
  }

  function NextBytes(next: Option<PageId>): Bytes {
    LE(if next.None? then NO_NEXT else next.value, 8)
  }

  function WidthOf(n: Node): Width { if n.Leaf? then LEAF_SLOT else INTERNAL_SLOT }

  ghost predicate LeafSlot(p: Page, n: Node, i: nat)
    requires n.Leaf? && i < |n.keys| && i < |n.docs|
  {
    KeyInside(p, LEAF_SLOT, i) && EntryAt(p, LEAF_SLOT, i) == (n.keys[i], DocBytes(n.docs[i])) && IsDoc(n.docs[i])
  }

  ghost predicate InternalSlot(p: Page, n: Node, i: nat)
    requires n.Internal? && i < |n.keys| && i + 1 < |n.children|
  {
    KeyInside(p, INTERNAL_SLOT, i) && EntryAt(p, INTERNAL_SLOT, i) == (n.keys[i], LE(n.children[i + 1], 8)) && n.children[i + 1] <= NO_NEXT
  }

  /** Page p holds the leaf or internal node n, and its keys fill the end of the page without gaps. */
  ghost predicate Represents(p: Page, n: Node) {
    && WellFormed(p, WidthOf(n)) && KeyCount(p) == |n.keys| && FreeOffset(p) + KeyBytes(n.keys) == PAGE_SIZE
    && if n.Leaf? then
         && p[0] == 0 && |n.docs| == |n.keys| && Link(p) == NextBytes(n.next) && (n.next.Some? ==> n.next.value < NO_NEXT)
         && (forall i :: 0 <= i < |n.keys| ==> LeafSlot(p, n, i))
       else
         && p[0] == 1 && |n.children| == |n.keys| + 1 && Link(p) == LE(n.children[0], 8) && n.children[0] <= NO_NEXT
         && (forall i :: 0 <= i < |n.keys| ==> InternalSlot(p, n, i))
  }

  /** The byte test for room is the one the tree layer reasons with. */
  lemma RoomIsHasSpace(p: Page, n: Node, keyLen: nat)
    requires Represents(p, n)
    ensures Room(p, WidthOf(n), keyLen) <==> HasSpace(n, keyLen)
  {
  }

  lemma {:induction false} KeyBytesInsert(ks: seq<Key>, i: nat, key: Key)
    requires i <= |ks|
    ensures KeyBytes(InsertAt(ks, i, key)) == KeyBytes(ks) + |key|
  {
    if i == 0 {
      assert InsertAt(ks, 0, key)[1..] == ks;
    } else {
      assert InsertAt(ks, i, key)[1..] == InsertAt(ks[1..], i - 1, key) && InsertAt(ks, i, key)[0] == ks[0];
      KeyBytesInsert(ks[1..], i - 1, key);
    }
  }

  function LeafWith(n: Node, i: nat, key: Key, doc: DocId): Node
    requires n.Leaf? && |n.keys| == |n.docs| && i <= |n.keys|
  {
    Leaf(InsertAt(n.keys, i, key), InsertAt(n.docs, i, doc), n.next)
  }

  lemma InsertedLeaf(p: Page, n: Node, i: nat, key: Key, doc: DocId)
    requires n.Leaf? && Represents(p, n) && i <= |n.keys| && Room(p, LEAF_SLOT, |key|) && IsDoc(doc)
    ensures Represents(Inserted(p, LEAF_SLOT, i, key, DocBytes(doc)), LeafWith(n, i, key, doc))
  {
    hide LE, FromLE, Put, SlotFor, Inserted, KeyBytes, InsertAt;
    var q := Inserted(p, LEAF_SLOT, i, key, DocBytes(doc));
    InsertedEntries(p, LEAF_SLOT, i, key, DocBytes(doc));
    InsertedCounters(p, LEAF_SLOT, i, key, DocBytes(doc));
    KeyBytesInsert(n.keys, i, key);
    InsertedLength(n.keys, i, key);
    InsertedLength(n.docs, i, doc);
    forall j | 0 <= j <= |n.keys|
      ensures LeafSlot(q, LeafWith(n, i, key, doc), j)
    {
      assert j != i ==> LeafSlot(p, n, if j < i then j else j - 1);
      InsertedEntry(p, LEAF_SLOT, i, key, DocBytes(doc), j);
      InsertedAt(n.keys, i, key, j);
      InsertedAt(n.docs, i, doc, j);
    }
  }

  function InternalWith(n: Node, i: nat, key: Key, child: PageId): Node
    requires n.Internal? && |n.children| == |n.keys| + 1 && i <= |n.keys|
  {
    Internal(InsertAt(n.keys, i, key), InsertAt(n.children, i + 1, child))
  }

  lemma InsertedInternalSlot(p: Page, n: Node, i: nat, key: Key, child: PageId, j: nat)
    requires n.Internal? && Represents(p, n) && i <= |n.keys| && Room(p, INTERNAL_SLOT, |key|) && child <= NO_NEXT && j <= |n.keys|
    ensures var m := InternalWith(n, i, key, child);
      |m.keys| == |n.keys| + 1 && |m.children| == |m.keys| + 1 && InternalSlot(Inserted(p, INTERNAL_SLOT, i, key, LE(child, 8)), m, j)
  {
    hide LE, FromLE, Put, SlotFor, Inserted, KeyBytes, InsertAt, WellFormed, SlotBytes;
    InsertedLength(n.keys, i, key);
    InsertedLength(n.children, i + 1, child);
    InsertedEntry(p, INTERNAL_SLOT, i, key, LE(child, 8), j);
    InsertedAt(n.keys, i, key, j);
    InsertedAt(n.children, i + 1, child, j + 1);
    if j != i {
      assert InternalSlot(p, n, if j < i then j else j - 1);
    }
  }

  lemma InsertedInternal(p: Page, n: Node, i: nat, key: Key, child: PageId)
    requires n.Internal? && Represents(p, n) && i <= |n.keys| && Room(p, INTERNAL_SLOT, |key|) && child <= NO_NEXT
    ensures Represents(Inserted(p, INTERNAL_SLOT, i, key, LE(child, 8)), InternalWith(n, i, key, child))
  {
    hide LE, FromLE, Put, SlotFor, Inserted, KeyBytes, InsertAt, InternalSlot, KeyInside;
    InsertedEntries(p, INTERNAL_SLOT, i, key, LE(child, 8));
    InsertedCounters(p, INTERNAL_SLOT, i, key, LE(child, 8));
    KeyBytesInsert(n.keys, i, key);
    InsertedLength(n.keys, i, key);
    InsertedLength(n.children, i + 1, child);
    InsertedAt(n.children, i + 1, child, 0);
    forall j | 0 <= j <= |n.keys|
      ensures InternalSlot(Inserted(p, INTERNAL_SLOT, i, key, LE(child, 8)), InternalWith(n, i, key, child), j)
    {
      InsertedInternalSlot(p, n, i, key, child, j);
    }
  }

  // sorted slots

  ghost predicate SlotsSorted(ks: seq<Key>, ds: seq<DocId>) {
    |ks| == |ds| && forall i, j :: 0 <= i < j < |ks| ==> SlotLt(ks[i], ds[i], ks[j], ds[j])
  }

  lemma SlotLtTrans(k: Key, d: DocId, k': Key, d': DocId, key: Key, doc: DocId)
    requires SlotLt(k, d, k', d') && SlotLt(k', d', key, doc)
    ensures SlotLt(k, d, key, doc)
  {
    RankOrder(k, k');
    RankOrder(k', key);
    RankOrder(k, key);
  }

  lemma SlotLtTotal(k: Key, d: DocId, key: Key, doc: DocId)
    ensures SlotLt(k, d, key, doc) || SlotLt(key, doc, k, d) || (k == key && d == doc)
    ensures !(SlotLt(k, d, key, doc) && SlotLt(key, doc, k, d)) && !SlotLt(k, d, k, d)
  {
    RankOrder(k, key);
    RankOrder(key, k);
    RankOrder(k, k);
  }

  /** A boundary between slots below (key, doc) and slots not below it is the only one. */
  lemma SlotBoundUnique(ks: seq<Key>, ds: seq<DocId>, key: Key, doc: DocId, r: nat)
    requires SlotsSorted(ks, ds) && r <= |ks|
    requires r > 0 ==> SlotLt(ks[r - 1], ds[r - 1], key, doc)
    requires r < |ks| ==> !SlotLt(ks[r], ds[r], key, doc)
    ensures r == SlotBound(ks, ds, key, doc)
    ensures (r < |ks| && ks[r] == key && ds[r] == doc) <==> exists j :: 0 <= j < |ks| && ks[j] == key && ds[j] == doc
  {
    hide SlotBound, SlotLt;
    var b := SlotBound(ks, ds, key, doc);
    if b + 1 < r {
      SlotLtTrans(ks[b], ds[b], ks[r - 1], ds[r - 1], key, doc);
    }
    SlotLtTotal(key, doc, key, doc);
  }

  lemma SlotsSortedInsert(ks: seq<Key>, ds: seq<DocId>, key: Key, doc: DocId, r: nat)
    requires SlotsSorted(ks, ds) && r == SlotBound(ks, ds, key, doc)
    requires !(r < |ks| && ks[r] == key && ds[r] == doc)
    ensures SlotsSorted(InsertAt(ks, r, key), InsertAt(ds, r, doc))
  {
    hide SlotBound, SlotLt, InsertAt;
    var ks', ds' := InsertAt(ks, r, key), InsertAt(ds, r, doc);
    InsertedLength(ks, r, key);
    InsertedLength(ds, r, doc);
    forall i, j | 0 <= i < j < |ks'|
      ensures SlotLt(ks'[i], ds'[i], ks'[j], ds'[j])
    {
      InsertedAt(ks, r, key, i);
      InsertedAt(ks, r, key, j);
      InsertedAt(ds, r, doc, i);
      InsertedAt(ds, r, doc, j);
      if i == r {
        SlotLtTotal(key, doc, ks[r], ds[r]);
        if j - 1 > r {
          SlotLtTrans(key, doc, ks[r], ds[r], ks[j - 1], ds[j - 1]);
        }
      }
    }
  }

  lemma LowerBoundUnique(ks: seq<Key>, key: Key, r: nat)
    requires Sorted(ks) && r <= |ks|
    requires r > 0 ==> Lt(ks[r - 1], key)
    requires r < |ks| ==> !Lt(ks[r], key)
    ensures r == LowerBound(ks, key)
  {
    hide LowerBound;
    if r > 0 {
      RankOrder(ks[r - 1], key);
    }
    if r < |ks| {
      RankOrder(ks[r], key);
    }
  }

  lemma UpperBoundUnique(ks: seq<Key>, key: Key, r: nat)
    requires Sorted(ks) && r <= |ks|
    requires r > 0 ==> Le(ks[r - 1], key)
    requires r < |ks| ==> !Le(ks[r], key)
    ensures r == UpperBound(ks, key)
  {
    hide UpperBound;
    if r > 0 {
      RankOrder(ks[r - 1], key);
    }
    if r < |ks| {
      RankOrder(ks[r], key);
    }
  }

  /** The shared binary search: the place it stops at has less just before it and not at it. */
  method BoundBy(len: nat, less: nat --> bool) returns (left: nat)
    requires forall i :: 0 <= i < len ==> less.requires(i)
    ensures left <= len
    ensures left > 0 ==> less(left - 1)
    ensures left < len ==> !less(left)
  {
    left := 0;
    var right := len;
    while left < right
      invariant left <= right <= len
      invariant left > 0 ==> less(left - 1)
      invariant right < len ==> !less(right)
    {
      var mid := left + (right - left) / 2;
      if less(mid) {
        left := mid + 1;
      } else {
        right := mid;
      }
    }
  }

  // writes into the page

  method CopyWithin(a: array<byte>, src: nat, end: nat, dst: nat)
    requires src <= end <= a.Length && dst + (end - src) <= a.Length
    modifies a
    ensures a[..] == Put(old(a[..]), dst, old(a[src..end]))
  {
    forall i | dst <= i < dst + (end - src) {
      a[i] := a[src + (i - dst)];
    }
  }

  method PutBytes(a: array<byte>, off: nat, b: Bytes)
    requires off + |b| <= a.Length
    modifies a
    ensures a[..] == Put(old(a[..]), off, b)
  {
    forall i | off <= i < off + |b| {
      a[i] := b[i - off];
    }
  }

  /** Writes slot i and its key the way insert_slot does once it knows where the slot goes. */
  method PlaceSlot(a: array<byte>, w: Width, i: nat, key: Bytes, val: Bytes)
    requires a.Length == PAGE_SIZE && Insertable(a[..], w, i, key, val)
    modifies a
    ensures a[..] == Inserted(old(a[..]), w, i, key, val)
  {
    hide LE, FromLE, Put, SlotFor, KeyInside;
    ghost var p: Page := a[..];
    var count, free := KeyCount(a[..]), FreeOffset(a[..]);
    CopyWithin(a, SlotStart(w, i), SlotStart(w, count), SlotStart(w, i + 1));
    assert a[..] == Shifted(p, w, i);
    var off := free - |key|;
    PutBytes(a, off, key);
    PutBytes(a, 3, LE(off, 2));
    PutBytes(a, 1, LE(count + 1, 2));
    SlotForLength(off, key, val);
    PutBytes(a, SlotStart(w, i), SlotFor(off, key, val));
  }

  // reads from the page

  function KeyAt(p: Page, w: Width, i: nat): Key
    requires KeyInside(p, w, i)
  {
    EntryAt(p, w, i).0
  }

  function DocAt(p: Page, i: nat): DocId
    requires KeyInside(p, LEAF_SLOT, i)
  {
    DocOf(EntryAt(p, LEAF_SLOT, i).1)
  }

  function ChildAt(p: Page, i: nat): PageId
    requires KeyInside(p, INTERNAL_SLOT, i)
  {
    FromLE(EntryAt(p, INTERNAL_SLOT, i).1)
  }

  /** Slots of a page read back as the node it holds. */
  lemma LeafSlotParts(p: Page, n: Node, i: nat)
    requires n.Leaf? && Represents(p, n) && i < |n.keys|
    ensures KeyInside(p, LEAF_SLOT, i) && KeyAt(p, LEAF_SLOT, i) == n.keys[i] && DocAt(p, i) == n.docs[i]
  {
    hide LE, FromLE, KeyInside, EntryAt, WellFormed, DocOf, DocBytes, KeyBytes;
    assert LeafSlot(p, n, i);
    DocRoundTrip(n.docs[i]);
  }

  lemma InternalSlotParts(p: Page, n: Node, i: nat)
    requires n.Internal? && Represents(p, n) && i < |n.keys|
    ensures KeyInside(p, INTERNAL_SLOT, i) && KeyAt(p, INTERNAL_SLOT, i) == n.keys[i] && ChildAt(p, i) == n.children[i + 1]
  {
    hide LE, FromLE, KeyInside, EntryAt, WellFormed, KeyBytes;
    assert InternalSlot(p, n, i);
    Powers();
    FromLEofLE(n.children[i + 1], 8);
  }

  lemma LinkParts(p: Page, n: Node)
    requires Represents(p, n)
    ensures n.Leaf? ==> FromLE(Link(p)) == if n.next.None? then NO_NEXT else n.next.value
    ensures n.Internal? ==> FromLE(Link(p)) == n.children[0]
  {
    hide LE, FromLE, KeyInside, EntryAt, WellFormed, KeyBytes, LeafSlot, InternalSlot;
    Powers();
    FromLEofLE(if n.Leaf? then if n.next.None? then NO_NEXT else n.next.value else n.children[0], 8);
  }

  /** A page holds at most one node: reading it back is never ambiguous. */
  lemma RepresentsOne(p: Page, n: Node, m: Node)
    requires Represents(p, n) && Represents(p, m)
    ensures n == m
  {
    hide LE, FromLE, KeyInside, EntryAt, WellFormed, KeyBytes, LeafSlot, InternalSlot, KeyAt, DocAt, ChildAt;
    LinkParts(p, n);
    LinkParts(p, m);
    forall i | 0 <= i < |n.keys|
      ensures n.keys[i] == m.keys[i] && (n.Leaf? ==> n.docs[i] == m.docs[i])
    {
      if n.Leaf? {
        LeafSlotParts(p, n, i);
        LeafSlotParts(p, m, i);
      } else {
        InternalSlotParts(p, n, i);
        InternalSlotParts(p, m, i);
      }
    }
    assert n.keys == m.keys;
    if n.Leaf? {
      assert n.docs == m.docs;
    } else {
      forall i | 0 <= i < |n.children|
        ensures n.children[i] == m.children[i]
      {
        if i > 0 {
          InternalSlotParts(p, n, i - 1);
          InternalSlotParts(p, m, i - 1);
        }
      }
      assert n.children == m.children;
    }
  }

  lemma RepresentsInsertable(p: Page, n: Node, i: nat, key: Key, val: Bytes)
    requires Represents(p, n) && HasSpace(n, |key|) && i <= |n.keys| && |val| == WidthOf(n) - 4
    ensures Insertable(p, WidthOf(n), i, key, val)
  {
    hide LE, FromLE, KeyInside, EntryAt, KeyBytes, LeafSlot, InternalSlot, Room, HasSpace;
    RoomIsHasSpace(p, n, |key|);
  }

  /** lower_bound_key_doc: the first slot not below the pair. */
  method LeafSlotBound(p: Page, key: Key, doc: DocId, ghost n: Node) returns (i: nat)
    requires n.Leaf? && Represents(p, n) && SlotsSorted(n.keys, n.docs)
    ensures i == SlotBound(n.keys, n.docs, key, doc)
  {
    hide LE, FromLE, KeyInside, EntryAt, WellFormed, SlotLt, SlotBound, SlotsSorted, DocOf, KeyBytes;
    forall j | 0 <= j < |n.keys|
      ensures KeyInside(p, LEAF_SLOT, j) && KeyAt(p, LEAF_SLOT, j) == n.keys[j] && DocAt(p, j) == n.docs[j]
    {
      LeafSlotParts(p, n, j);
    }
    i := BoundBy(KeyCount(p), (j: nat) requires KeyInside(p, LEAF_SLOT, j) => SlotLt(KeyAt(p, LEAF_SLOT, j), DocAt(p, j), key, doc));
    SlotBoundUnique(n.keys, n.docs, key, doc, i);
  }

  lemma NodeKeys(p: Page, n: Node, j: nat)
    requires Represents(p, n) && j < |n.keys|
    ensures KeyInside(p, WidthOf(n), j) && KeyAt(p, WidthOf(n), j) == n.keys[j]
  {
    hide LE, FromLE, KeyInside, EntryAt, WellFormed, KeyBytes;
    if n.Leaf? {
      LeafSlotParts(p, n, j);
    } else {
      InternalSlotParts(p, n, j);
    }
  }

  /** lower_bound_key on sorted keys of either kind of node. */
  method KeyLowerBound(p: Page, w: Width, key: Key, ghost n: Node) returns (i: nat)
    requires Represents(p, n) && w == WidthOf(n) && Sorted(n.keys)
    ensures i == LowerBound(n.keys, key)
  {
    hide LE, FromLE, KeyInside, EntryAt, WellFormed, LowerBound, Sorted, KeyBytes, Lt, KeyAt;
    forall j | 0 <= j < |n.keys|
      ensures KeyInside(p, w, j) && KeyAt(p, w, j) == n.keys[j]
    {
      NodeKeys(p, n, j);
    }
    i := BoundBy(KeyCount(p), (j: nat) requires KeyInside(p, w, j) => Lt(KeyAt(p, w, j), key));
    LowerBoundUnique(n.keys, key, i);
  }

  /** upper_bound_key: the same search with the other comparison. */
  method KeyUpperBound(p: Page, w: Width, key: Key, ghost n: Node) returns (i: nat)
    requires Represents(p, n) && w == WidthOf(n) && Sorted(n.keys)
    ensures i == UpperBound(n.keys, key)
  {
    hide LE, FromLE, KeyInside, EntryAt, WellFormed, UpperBound, Sorted, KeyBytes, Le, KeyAt;
    forall j | 0 <= j < |n.keys|
      ensures KeyInside(p, w, j) && KeyAt(p, w, j) == n.keys[j]
    {
      NodeKeys(p, n, j);
    }
    i := BoundBy(KeyCount(p), (j: nat) requires KeyInside(p, w, j) => Le(KeyAt(p, w, j), key));
    UpperBoundUnique(n.keys, key, i);
  }

  /** child_for_key and child_for_lower_bound on the bytes. */
  method ChildFor(p: Page, key: Key, strict: bool, ghost n: Node) returns (c: PageId)
    requires n.Internal? && Represents(p, n) && Sorted(n.keys)
    ensures c == n.children[if strict then LowerBound(n.keys, key) else UpperBound(n.keys, key)]
  {
    hide LE, FromLE, KeyInside, EntryAt, WellFormed, LowerBound, UpperBound, Sorted, KeyBytes, KeyAt;
    var i;
    if strict {
      i := KeyLowerBound(p, INTERNAL_SLOT, key, n);
    } else {
      i := KeyUpperBound(p, INTERNAL_SLOT, key, n);
    }
    if i == 0 {
      LinkParts(p, n);
      c := FromLE(Link(p));
    } else {
      InternalSlotParts(p, n, i - 1);
      c := ChildAt(p, i - 1);
    }
  }

  /** has_space as the tree layer uses it. */
  method NodeHasSpace(p: Page, w: Width, keyLen: nat, ghost n: Node) returns (room: bool)
    requires Represents(p, n) && w == WidthOf(n)
    ensures room <==> HasSpace(n, keyLen)
  {
    RoomIsHasSpace(p, n, keyLen);
    room := Room(p, w, keyLen);
  }

  /** LeafNode::insert_slot on a page with room: ordered insertion, refused (a panic) exactly when the pair is there. */
  method LeafInsertSlot(a: array<byte>, key: Key, doc: DocId, ghost n: Node) returns (ok: bool)
    requires a.Length == PAGE_SIZE && n.Leaf? && Represents(a[..], n) && SlotsSorted(n.keys, n.docs)
    requires HasSpace(n, |key|) && IsDoc(doc)
    modifies a
    ensures ok <==> !exists j :: 0 <= j < |n.keys| && n.keys[j] == key && n.docs[j] == doc
    ensures !ok ==> a[..] == old(a[..])
    ensures ok ==>
      var m := LeafWith(n, SlotBound(n.keys, n.docs, key, doc), key, doc);
      Represents(a[..], m) && SlotsSorted(m.keys, m.docs)
  {
    hide LE, FromLE, Put, SlotFor, KeyInside, SlotBound, SlotLt, Inserted, WellFormed, EntryAt, KeyBytes, InsertAt, DocOf, DocBytes;
    var p: Page := a[..];
    RoomIsHasSpace(p, n, |key|);
    var i := LeafSlotBound(p, key, doc, n);
    SlotBoundUnique(n.keys, n.docs, key, doc, i);
    ok := true;
    if i < KeyCount(p) {
      LeafSlotParts(p, n, i);
      if KeyAt(p, LEAF_SLOT, i) == key && DocAt(p, i) == doc {
        ok := false;
      }
    }
    if ok {
      RepresentsInsertable(p, n, i, key, DocBytes(doc));
      PlaceSlot(a, LEAF_SLOT, i, key, DocBytes(doc));
      InsertedLeaf(p, n, i, key, doc);
      SlotsSortedInsert(n.keys, n.docs, key, doc, i);
    }
  }

  /** InternalNode::insert_slot on a page with room; refused exactly when the separator leads to that child already. */
  method InternalInsertSlot(a: array<byte>, key: Key, child: PageId, ghost n: Node) returns (ok: bool)
    requires a.Length == PAGE_SIZE && n.Internal? && Represents(a[..], n) && Sorted(n.keys)
    requires HasSpace(n, |key|) && child <= NO_NEXT
    modifies a
    ensures var i := LowerBound(n.keys, key);
      && (ok <==> !(i < |n.keys| && n.keys[i] == key && n.children[i + 1] == child))
      && (ok ==> Represents(a[..], InternalWith(n, i, key, child)))
    ensures !ok ==> a[..] == old(a[..])
  {
    hide LE, FromLE, Put, SlotFor, KeyInside, LowerBound, Sorted, Inserted, WellFormed, EntryAt, KeyBytes, InsertAt;
    var p: Page := a[..];
    RoomIsHasSpace(p, n, |key|);
    var i := KeyLowerBound(p, INTERNAL_SLOT, key, n);
    ok := true;
    if i < KeyCount(p) {
      InternalSlotParts(p, n, i);
      if KeyAt(p, INTERNAL_SLOT, i) == key && ChildAt(p, i) == child {
        ok := false;
      }
    }
    if ok {
      RepresentsInsertable(p, n, i, key, LE(child, 8));
      PlaceSlot(a, INTERNAL_SLOT, i, key, LE(child, 8));
      InsertedInternal(p, n, i, key, child);
    }
  }

  // init, entries and rebuild

  ghost function LeafOf(es: seq<(Key, DocId)>, next: Option<PageId>): (n: Node)
    ensures n.Leaf? && n.next == next && |n.keys| == |n.docs| == |es|
  {
    Leaf(seq(|es|, i requires 0 <= i < |es| => es[i].0), seq(|es|, i requires 0 <= i < |es| => es[i].1), next)
  }

  ghost function InternalOf(first: PageId, es: seq<(Key, PageId)>): (n: Node)
    ensures n.Internal? && |n.keys| == |es| == |n.children| - 1
  {
    Internal(seq(|es|, i requires 0 <= i < |es| => es[i].0), [first] + seq(|es|, i requires 0 <= i < |es| => es[i].1))
  }

  lemma ZeroCount(p: Page)
    requires p[1..3] == [0, 0] && p[3..5] == LE(PAGE_SIZE, 2)
    ensures KeyCount(p) == 0 && FreeOffset(p) == PAGE_SIZE
  {
    assert p[1..3] == LE(0, 2) by {
      assert LE(0, 1) == [0];
    }
    U16Of(p[1..3], 0);
    U16Of(p[3..5], PAGE_SIZE);
  }

  method Zero(a: array<byte>)
    requires a.Length == PAGE_SIZE
    modifies a
    ensures a[..] == seq(PAGE_SIZE, _ => 0)
  {
    forall i | 0 <= i < a.Length {
      a[i] := 0;
    }
  }

  method LeafInit(a: array<byte>, next: Option<PageId>)
    requires a.Length == PAGE_SIZE && (next.Some? ==> next.value < NO_NEXT)
    modifies a
    ensures Represents(a[..], LeafOf([], next))
  {
    hide LE, FromLE, Put, SlotFor;
    Zero(a);
    ghost var p0 := a[..];
    PutBytes(a, 3, LE(PAGE_SIZE, 2));
    ghost var p1 := a[..];
    PutBytes(a, 5, NextBytes(next));
    ghost var p: Page := a[..];
    PutSame(p0, 3, LE(PAGE_SIZE, 2));
    PutApart(p0, 3, LE(PAGE_SIZE, 2), 0, 3);
    PutApart(p1, 5, NextBytes(next), 0, 3);
    PutApart(p1, 5, NextBytes(next), 3, 5);
    PutSame(p1, 5, NextBytes(next));
    assert p[0..3] == [0, 0, 0] && p[0] == p[0..3][0] && p[1..3] == p[0..3][1..3];
    ZeroCount(p);
  }

  method InternalInit(a: array<byte>, first: PageId)
    requires a.Length == PAGE_SIZE && first <= NO_NEXT
    modifies a
    ensures Represents(a[..], InternalOf(first, []))
  {
    hide LE, FromLE, Put, SlotFor;
    Zero(a);
    a[0] := 1;
    ghost var p0 := a[..];
    PutBytes(a, 3, LE(PAGE_SIZE, 2));
    ghost var p1 := a[..];
    PutBytes(a, 5, LE(first, 8));
    ghost var p: Page := a[..];
    PutSame(p0, 3, LE(PAGE_SIZE, 2));
    PutApart(p0, 3, LE(PAGE_SIZE, 2), 0, 3);
    PutApart(p1, 5, LE(first, 8), 0, 3);
    PutApart(p1, 5, LE(first, 8), 3, 5);
    PutSame(p1, 5, LE(first, 8));
    assert p[0..3] == [1, 0, 0] && p[0] == p[0..3][0] && p[1..3] == p[0..3][1..3];
    ZeroCount(p);
  }

  method LeafEntries(p: Page, ghost n: Node) returns (es: seq<(Key, DocId)>)
    requires n.Leaf? && Represents(p, n)
    ensures n == LeafOf(es, n.next)
  {
    hide LE, FromLE, KeyInside, EntryAt, WellFormed, KeyBytes, LeafSlot, KeyAt, DocAt;
    es := [];
    for i := 0 to KeyCount(p)
      invariant |es| == i && forall j :: 0 <= j < i ==> es[j] == (n.keys[j], n.docs[j])
    {
      LeafSlotParts(p, n, i);
      es := es + [(KeyAt(p, LEAF_SLOT, i), DocAt(p, i))];
    }
  }

  method InternalEntries(p: Page, ghost n: Node) returns (es: seq<(Key, PageId)>)
    requires n.Internal? && Represents(p, n)
    ensures n == InternalOf(n.children[0], es)
  {
    hide LE, FromLE, KeyInside, EntryAt, WellFormed, KeyBytes, InternalSlot, KeyAt, ChildAt;
    es := [];
    for i := 0 to KeyCount(p)
      invariant |es| == i && forall j :: 0 <= j < i ==> es[j] == (n.keys[j], n.children[j + 1])
    {
      InternalSlotParts(p, n, i);
      es := es + [(KeyAt(p, INTERNAL_SLOT, i), ChildAt(p, i))];
    }
    assert n.children == [n.children[0]] + seq(|es|, i requires 0 <= i < |es| => es[i].1);
  }

  /** Every prefix of a fitting list leaves room for its next entry. */
  lemma {:induction false} KeyBytesPrefix(ks: seq<Key>, i: nat)
    requires i < |ks|
    ensures KeyBytes(ks[..i]) + |ks[i]| <= KeyBytes(ks)
  {
    if i == 0 {
    } else {
      assert ks[..i][1..] == ks[1..][..i - 1];
      KeyBytesPrefix(ks[1..], i - 1);
    }
  }

  lemma LeafStep(es: seq<(Key, DocId)>, i: nat, next: Option<PageId>)
    requires i < |es| && SlotsSorted(LeafOf(es, next).keys, LeafOf(es, next).docs)
    requires HEADER_SIZE + LEAF_SLOT * |es| + KeyBytes(LeafOf(es, next).keys) <= PAGE_SIZE
    ensures var n := LeafOf(es[..i], next);
      && HasSpace(n, |es[i].0|) && SlotsSorted(n.keys, n.docs)
      && SlotBound(n.keys, n.docs, es[i].0, es[i].1) == i
      && !(exists j :: 0 <= j < |n.keys| && n.keys[j] == es[i].0 && n.docs[j] == es[i].1)
      && LeafWith(n, i, es[i].0, es[i].1) == LeafOf(es[..i + 1], next)
  {
    hide SlotLt, KeyBytes, SlotBound;
    var n, all := LeafOf(es[..i], next), LeafOf(es, next);
    assert n.keys == all.keys[..i] && n.docs == all.docs[..i];
    KeyBytesPrefix(all.keys, i);
    forall j | 0 <= j < i
      ensures SlotLt(n.keys[j], n.docs[j], es[i].0, es[i].1)
    {
      assert SlotLt(all.keys[j], all.docs[j], all.keys[i], all.docs[i]);
    }
    SlotBoundUnique(n.keys, n.docs, es[i].0, es[i].1, i);
  }

  /** rebuild followed by entries gives back any strictly sorted list that fits, whatever its key lengths. */
  method LeafRebuild(a: array<byte>, es: seq<(Key, DocId)>, next: Option<PageId>)
    requires a.Length == PAGE_SIZE && (next.Some? ==> next.value < NO_NEXT) && (forall e <- es :: IsDoc(e.1))
    requires SlotsSorted(LeafOf(es, next).keys, LeafOf(es, next).docs)
    requires HEADER_SIZE + LEAF_SLOT * |es| + KeyBytes(LeafOf(es, next).keys) <= PAGE_SIZE
    modifies a
    ensures Represents(a[..], LeafOf(es, next))
  {
    hide Represents, SlotsSorted, KeyBytes, SlotBound, HasSpace, LeafOf;
    LeafInit(a, next);
    assert es[..0] == [];
    for i := 0 to |es|
      invariant Represents(a[..], LeafOf(es[..i], next))
    {
      LeafStep(es, i, next);
      assert es[i] in es;
      ghost var n := LeafOf(es[..i], next);
      var ok := LeafInsertSlot(a, es[i].0, es[i].1, n);
    }
    assert es[..|es|] == es;
  }

  lemma InternalStep(first: PageId, es: seq<(Key, PageId)>, i: nat)
    requires i < |es| && Sorted(InternalOf(first, es).keys)
    requires HEADER_SIZE + INTERNAL_SLOT * |es| + KeyBytes(InternalOf(first, es).keys) <= PAGE_SIZE
    ensures var n := InternalOf(first, es[..i]);
      && HasSpace(n, |es[i].0|) && Sorted(n.keys)
      && LowerBound(n.keys, es[i].0) == i == |n.keys|
      && InternalWith(n, i, es[i].0, es[i].1) == InternalOf(first, es[..i + 1])
  {
    hide KeyBytes, LowerBound, Rank, Lt;
    var n, all := InternalOf(first, es[..i]), InternalOf(first, es);
    assert n.keys == all.keys[..i];
    KeyBytesPrefix(all.keys, i);
    if i > 0 {
      RankOrder(n.keys[i - 1], es[i].0);
    }
    LowerBoundUnique(n.keys, es[i].0, i);
  }

  method InternalRebuild(a: array<byte>, first: PageId, es: seq<(Key, PageId)>)
    requires a.Length == PAGE_SIZE && first <= NO_NEXT && (forall e <- es :: e.1 <= NO_NEXT)
    requires Sorted(InternalOf(first, es).keys)
    requires HEADER_SIZE + INTERNAL_SLOT * |es| + KeyBytes(InternalOf(first, es).keys) <= PAGE_SIZE
    modifies a
    ensures Represents(a[..], InternalOf(first, es))
  {
    hide Represents, Sorted, KeyBytes, LowerBound, HasSpace, InternalOf;
    InternalInit(a, first);
    assert es[..0] == [];
    for i := 0 to |es|
      invariant Represents(a[..], InternalOf(first, es[..i]))
    {
      InternalStep(first, es, i);
      assert es[i] in es;
      ghost var n := InternalOf(first, es[..i]);
      var ok := InternalInsertSlot(a, es[i].0, es[i].1, n);
    }
    assert es[..|es|] == es;
  }
}
