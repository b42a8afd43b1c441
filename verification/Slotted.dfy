/** src/storage/heap.rs: the bytes of one heap page. Slots grow up from the header, records down from the end. */
module Slotted {
  import opened Bytes
  import opened Disk
  import opened Nodes
  import opened Layout

  const HEAP_HEADER := 12
  const HEAP_SLOT := 4
  const MAX_RECORD := PAGE_SIZE - HEAP_HEADER - HEAP_SLOT

  function Next(p: Page): nat { FromLE(p[0..8]) }

  function SlotCount(p: Page): nat { U16(p, 8) }

  function FreeEnd(p: Page): nat { U16(p, 10) }

  function SlotPos(i: nat): nat { HEAP_HEADER + HEAP_SLOT * i }

  function Offset(p: Page, i: nat): nat
    requires SlotPos(i + 1) <= PAGE_SIZE
  {
    U16(p, SlotPos(i))
  }

  function Length(p: Page, i: nat): nat
    requires SlotPos(i + 1) <= PAGE_SIZE
  {
    U16(p, SlotPos(i) + 2)
  }

  predicate RecordInside(p: Page, i: nat) {
    SlotPos(i + 1) <= PAGE_SIZE && FreeEnd(p) <= Offset(p, i) && Offset(p, i) + Length(p, i) <= PAGE_SIZE
  }

  /** Slots and records do not meet, and every record lies in the record area. */
  ghost predicate PageOk(p: Page) {
    SlotPos(SlotCount(p)) <= FreeEnd(p) <= PAGE_SIZE && forall i :: 0 <= i < SlotCount(p) ==> RecordInside(p, i)
  }

  /** Record of slot i; None once it is deleted. */
  function RecordAt(p: Page, i: nat): Option<Bytes>
    requires RecordInside(p, i)
  {
    if Length(p, i) == 0 then None else Some(p[Offset(p, i)..Offset(p, i) + Length(p, i)])
  }

  function ReadSlot(p: Page, i: nat): Option<Bytes>
    requires i < SlotCount(p) ==> RecordInside(p, i)
  {
    if i >= SlotCount(p) then None else RecordAt(p, i)
  }

  /** What a page stores: one entry per slot ever made on it. */
  ghost function Records(p: Page): (r: seq<Option<Bytes>>)
    requires PageOk(p)
    ensures |r| == SlotCount(p)
  {
    seq(SlotCount(p), i requires 0 <= i < SlotCount(p) => RecordAt(p, i))
  }

  function FreeSpace(p: Page): nat {
    if FreeEnd(p) < SlotPos(SlotCount(p)) then 0 else FreeEnd(p) - SlotPos(SlotCount(p))
  }

  predicate Fits(p: Page, data: Bytes) { FreeSpace(p) >= |data| + HEAP_SLOT }

  function WithData(p: Page, data: Bytes): (r: Page)
    requires Fits(p, data) && FreeEnd(p) <= PAGE_SIZE
  {
    Put(p, FreeEnd(p) - |data|, data)
  }

  function WithSlot(p: Page, i: nat, off: nat, len: nat): (r: Page)
    requires SlotPos(i + 1) <= PAGE_SIZE
  {
    Put(Put(p, SlotPos(i), LE(off, 2)), SlotPos(i) + 2, LE(len, 2))
  }

  function WithCounters(p: Page, count: nat, free: nat): (r: Page) {
    Put(Put(p, 8, LE(count, 2)), 10, LE(free, 2))
  }

  /** The page after try_insert_in_page accepted the record. */
  function WithRecord(p: Page, data: Bytes): (r: Page)
    requires Fits(p, data) && FreeEnd(p) <= PAGE_SIZE
  {
    var off := FreeEnd(p) - |data|;
    WithCounters(WithSlot(WithData(p, data), SlotCount(p), off, |data|), SlotCount(p) + 1, off)
  }

  lemma SlotKeeps(p: Page, i: nat, off: nat, len: nat, x: nat, y: nat)
    requires SlotPos(i + 1) <= PAGE_SIZE && x <= y <= PAGE_SIZE && (y <= SlotPos(i) || SlotPos(i + 1) <= x)
    ensures WithSlot(p, i, off, len)[x..y] == p[x..y]
  {
    hide LE, Put;
    PutApart(p, SlotPos(i), LE(off, 2), x, y);
    PutApart(Put(p, SlotPos(i), LE(off, 2)), SlotPos(i) + 2, LE(len, 2), x, y);
  }

  lemma CountersKeep(p: Page, count: nat, free: nat, x: nat, y: nat)
    requires x <= y <= PAGE_SIZE && (y <= 8 || 12 <= x)
    ensures WithCounters(p, count, free)[x..y] == p[x..y]
  {
    hide LE, Put;
    PutApart(p, 8, LE(count, 2), x, y);
    PutApart(Put(p, 8, LE(count, 2)), 10, LE(free, 2), x, y);
  }

  lemma CountersRead(p: Page, count: nat, free: nat)
    requires count < 0x1_0000 && free < 0x1_0000
    ensures SlotCount(WithCounters(p, count, free)) == count && FreeEnd(WithCounters(p, count, free)) == free
  {
    hide LE, Put, FromLE;
    var q := Put(p, 8, LE(count, 2));
    PutSame(p, 8, LE(count, 2));
    PutApart(q, 10, LE(free, 2), 8, 10);
    PutSame(q, 10, LE(free, 2));
    U16Of(LE(count, 2), count);
    U16Of(LE(free, 2), free);
  }

  lemma SlotRead(p: Page, i: nat, off: nat, len: nat)
    requires SlotPos(i + 1) <= PAGE_SIZE && off < 0x1_0000 && len < 0x1_0000
    ensures Offset(WithSlot(p, i, off, len), i) == off && Length(WithSlot(p, i, off, len), i) == len
  {
    hide LE, Put, FromLE;
    var q := Put(p, SlotPos(i), LE(off, 2));
    PutSame(p, SlotPos(i), LE(off, 2));
    PutApart(q, SlotPos(i) + 2, LE(len, 2), SlotPos(i), SlotPos(i) + 2);
    PutSame(q, SlotPos(i) + 2, LE(len, 2));
    U16Of(LE(off, 2), off);
    U16Of(LE(len, 2), len);
  }

  /** Bytes outside the counters, the new slot and the new record stay. */
  lemma RecordKeeps(p: Page, data: Bytes, x: nat, y: nat)
    requires Fits(p, data) && FreeEnd(p) <= PAGE_SIZE && x <= y <= PAGE_SIZE
    requires y <= 8 || (12 <= x && y <= SlotPos(SlotCount(p))) || FreeEnd(p) <= x
    ensures WithRecord(p, data)[x..y] == p[x..y]
  {
    hide LE, Put, FromLE, WithSlot, WithCounters;
    var off := FreeEnd(p) - |data|;
    PutApart(p, off, data, x, y);
    SlotKeeps(WithData(p, data), SlotCount(p), off, |data|, x, y);
    CountersKeep(WithSlot(WithData(p, data), SlotCount(p), off, |data|), SlotCount(p) + 1, off, x, y);
  }

  lemma RecordCounters(p: Page, data: Bytes)
    requires Fits(p, data) && FreeEnd(p) <= PAGE_SIZE
    ensures var q := WithRecord(p, data); SlotCount(q) == SlotCount(p) + 1 && FreeEnd(q) == FreeEnd(p) - |data|
  {
    hide LE, Put, FromLE, WithSlot, WithCounters;
    var off := FreeEnd(p) - |data|;
    CountersRead(WithSlot(WithData(p, data), SlotCount(p), off, |data|), SlotCount(p) + 1, off);
  }

  /** The new slot points at the new bytes. */
  lemma RecordNew(p: Page, data: Bytes)
    requires Fits(p, data) && FreeEnd(p) <= PAGE_SIZE
    ensures var q, off := WithRecord(p, data), FreeEnd(p) - |data|;
      Offset(q, SlotCount(p)) == off && Length(q, SlotCount(p)) == |data| && q[off..off + |data|] == data
  {
    hide LE, Put, FromLE, WithSlot, WithCounters;
    var off, i := FreeEnd(p) - |data|, SlotCount(p);
    var p1 := WithData(p, data);
    var p2 := WithSlot(p1, i, off, |data|);
    SlotRead(p1, i, off, |data|);
    CountersKeep(p2, i + 1, off, SlotPos(i), SlotPos(i) + 2);
    CountersKeep(p2, i + 1, off, SlotPos(i) + 2, SlotPos(i) + 4);
    PutSame(p, off, data);
    SlotKeeps(p1, i, off, |data|, off, off + |data|);
    CountersKeep(p2, i + 1, off, off, off + |data|);
  }

  lemma RecordOther(p: Page, data: Bytes, i: nat)
    requires Fits(p, data) && PageOk(p) && i < SlotCount(p)
    ensures RecordInside(p, i) && RecordInside(WithRecord(p, data), i) && RecordAt(WithRecord(p, data), i) == RecordAt(p, i)
  {
    hide LE, Put, FromLE, WithRecord;
    assert RecordInside(p, i);
    RecordCounters(p, data);
    RecordKeeps(p, data, SlotPos(i), SlotPos(i) + 2);
    RecordKeeps(p, data, SlotPos(i) + 2, SlotPos(i) + 4);
    RecordKeeps(p, data, Offset(p, i), Offset(p, i) + Length(p, i));
  }

  /** A record that fits is appended as a new slot; every older slot reads as before. */
  lemma RecordAppended(p: Page, data: Bytes)
    requires PageOk(p) && Fits(p, data) && |data| > 0
    ensures var q := WithRecord(p, data);
      PageOk(q) && Next(q) == Next(p) && Records(q) == Records(p) + [Some(data)]
  {
    hide LE, Put, FromLE, WithRecord;
    var q := WithRecord(p, data);
    RecordCounters(p, data);
    RecordNew(p, data);
    RecordKeeps(p, data, 0, 8);
    forall i | 0 <= i < SlotCount(q)
      ensures RecordInside(q, i) && RecordAt(q, i) == (if i < SlotCount(p) then Records(p)[i] else Some(data))
    {
      if i < SlotCount(p) {
        RecordOther(p, data, i);
      }
    }
    assert Records(q) == Records(p) + [Some(data)];
  }

  /** tombstone_slot: zeroes the length of the slot. */
  function Tombstone(p: Page, i: nat): (r: Page)
    requires PageOk(p)
  {
    if i >= SlotCount(p) then p else
      assert RecordInside(p, i);
      Put(p, SlotPos(i) + 2, LE(0, 2))
  }

  lemma Tombstoned(p: Page, i: nat)
    requires PageOk(p)
    ensures var q := Tombstone(p, i);
      PageOk(q) && Next(q) == Next(p) && SlotCount(q) == SlotCount(p)
      && Records(q) == if i < SlotCount(p) then Records(p)[i := None] else Records(p)
  {
    hide LE, Put, FromLE;
    if i < SlotCount(p) {
      var q := Tombstone(p, i);
      assert RecordInside(p, i);
      var at := SlotPos(i) + 2;
      PutApart(p, at, LE(0, 2), 0, 8);
      PutApart(p, at, LE(0, 2), 8, 10);
      PutApart(p, at, LE(0, 2), 10, 12);
      PutSame(p, at, LE(0, 2));
      U16Of(LE(0, 2), 0);
      forall j | 0 <= j < SlotCount(p)
        ensures RecordInside(q, j) && RecordAt(q, j) == Records(p)[i := None][j]
      {
        assert RecordInside(p, j);
        PutApart(p, at, LE(0, 2), SlotPos(j), SlotPos(j) + 2);
        if j != i {
          PutApart(p, at, LE(0, 2), SlotPos(j) + 2, SlotPos(j) + 4);
        }
        PutApart(p, at, LE(0, 2), Offset(p, j), Offset(p, j) + Length(p, j));
      }
      assert Records(q) == Records(p)[i := None];
    }
  }

  function Linked(p: Page, next: PageId): (r: Page) { Put(p, 0, LE(next, 8)) }

  lemma LinkedRecords(p: Page, next: PageId)
    requires PageOk(p) && next <= NO_NEXT
    ensures var q := Linked(p, next); PageOk(q) && Next(q) == next && Records(q) == Records(p)
  {
    hide LE, Put, FromLE;
    var q := Linked(p, next);
    PutSame(p, 0, LE(next, 8));
    Powers();
    FromLEofLE(next, 8);
    PutApart(p, 0, LE(next, 8), 8, 10);
    PutApart(p, 0, LE(next, 8), 10, 12);
    forall j | 0 <= j < SlotCount(p)
      ensures RecordInside(q, j) && RecordAt(q, j) == Records(p)[j]
    {
      assert RecordInside(p, j);
      PutApart(p, 0, LE(next, 8), SlotPos(j), SlotPos(j) + 2);
      PutApart(p, 0, LE(next, 8), SlotPos(j) + 2, SlotPos(j) + 4);
      PutApart(p, 0, LE(next, 8), Offset(p, j), Offset(p, j) + Length(p, j));
    }
    assert Records(q) == Records(p);
  }

  function Initial(p: Page): (r: Page) {
    WithCounters(Linked(p, NO_NEXT), 0, PAGE_SIZE)
  }

  lemma InitialPage(p: Page)
    ensures var q := Initial(p);
      PageOk(q) && Records(q) == [] && Next(q) == NO_NEXT && FreeSpace(q) == PAGE_SIZE - HEAP_HEADER
  {
    hide LE, Put, FromLE, WithCounters;
    PutSame(p, 0, LE(NO_NEXT, 8));
    Powers();
    FromLEofLE(NO_NEXT, 8);
    CountersRead(Linked(p, NO_NEXT), 0, PAGE_SIZE);
    CountersKeep(Linked(p, NO_NEXT), 0, PAGE_SIZE, 0, 8);
  }

  // the same steps in place

  method TryInsertInPage(a: array<byte>, data: Bytes) returns (slot: Option<nat>)
    requires a.Length == PAGE_SIZE && PageOk(a[..]) && |data| > 0
    modifies a
    ensures slot == if Fits(old(a[..]), data) then Some(SlotCount(old(a[..]))) else None
    ensures PageOk(a[..]) && Records(a[..]) == Records(old(a[..])) + if slot.Some? then [Some(data)] else []
    ensures a[..] == if slot.Some? then WithRecord(old(a[..]), data) else old(a[..])
  {
    hide LE, FromLE, Put, RecordInside, Records;
    var p: Page := a[..];
    if FreeSpace(p) < |data| + HEAP_SLOT {
      return None;
    }
    RecordAppended(p, data);
    var count, free := SlotCount(p), FreeEnd(p);
    var off := free - |data|;
    PutBytes(a, off, data);
    PutBytes(a, SlotPos(count), LE(off, 2));
    PutBytes(a, SlotPos(count) + 2, LE(|data|, 2));
    PutBytes(a, 8, LE(count + 1, 2));
    PutBytes(a, 10, LE(off, 2));
    slot := Some(count);
  }

  method TombstoneSlot(a: array<byte>, i: nat)
    requires a.Length == PAGE_SIZE && PageOk(a[..])
    modifies a
    ensures a[..] == Tombstone(old(a[..]), i) && PageOk(a[..])
  {
    hide LE, FromLE, Put;
    var p: Page := a[..];
    Tombstoned(p, i);
    if i >= SlotCount(p) {
      return;
    }
    assert RecordInside(p, i);
    PutBytes(a, SlotPos(i) + 2, LE(0, 2));
  }

  /** The live records of one page with their ids, in slot order, and the next page. */
  method ScanSlots(p: Page, id: PageId) returns (recs: seq<((PageId, nat), Bytes)>)
    requires PageOk(p)
    ensures recs == LiveRecords(id, Records(p), SlotCount(p))
  {
    recs := [];
    for s := 0 to SlotCount(p)
      invariant recs == LiveRecords(id, Records(p), s)
    {
      assert RecordInside(p, s);
      var r := ReadSlot(p, s);
      if r.Some? {
        recs := recs + [((id, s), r.value)];
      }
    }
  }

  ghost function LiveRecords(id: PageId, rs: seq<Option<Bytes>>, n: nat): seq<((PageId, nat), Bytes)>
    requires n <= |rs|
  {
    if n == 0 then []
    else LiveRecords(id, rs, n - 1) + if rs[n - 1].Some? then [((id, n - 1), rs[n - 1].value)] else []
  }
}
