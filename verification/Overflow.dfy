/** What inserts through published root pages make of an index, past the point where a page is full. */
module Overflow {
  import opened Bytes
  import opened Disk
  import opened Nodes
  import opened Values
  import opened Indexes
  import opened LeafIndexes
  import opened Tables

  // the page of one index, document by document

  /** The published page after on_insert of a document. */
  function AddDoc(n: Name, slots: seq<Slot>, d: Document, id: DocId): seq<Slot> {
    var k := KeyFor(n, d);
    if k.None? then slots else Settled(slots, Slot(k.value, id))
  }

  predicate DocSettles(n: Name, slots: seq<Slot>, d: Document, id: DocId) {
    KeyFor(n, d).Some? ==> Settles(slots, Slot(KeyFor(n, d).value, id))
  }

  /** The page after the first m documents of a batch. */
  ghost function Filled(n: Name, slots: seq<Slot>, ids: seq<DocId>, batch: seq<Document>, m: nat): seq<Slot>
    requires m <= |ids| && m <= |batch|
  {
    if m == 0 then slots else AddDoc(n, Filled(n, slots, ids, batch, m - 1), batch[m - 1], ids[m - 1])
  }

  ghost function FilledAll(tables: map<Name, seq<Slot>>, ids: seq<DocId>, batch: seq<Document>, m: nat): map<Name, seq<Slot>>
    requires m <= |ids| && m <= |batch|
  {
    map n | n in tables :: Filled(n, tables[n], ids, batch, m)
  }

  lemma FilledNone(tables: map<Name, seq<Slot>>, ids: seq<DocId>, batch: seq<Document>)
    ensures FilledAll(tables, ids, batch, 0) == tables
  {
  }

  lemma FilledStep(tables: map<Name, seq<Slot>>, ids: seq<DocId>, batch: seq<Document>, m: nat, n: Name)
    requires m < |ids| && m < |batch| && n in tables
    ensures FilledAll(tables, ids, batch, m + 1)[n] == AddDoc(n, FilledAll(tables, ids, batch, m)[n], batch[m], ids[m])
  {
    hide AddDoc;
  }

  lemma AddIs(n: Name, slots: seq<Slot>, d: Document, id: DocId)
    ensures KeyFor(n, d).None? ==> AddDoc(n, slots, d, id) == slots && DocSettles(n, slots, d, id) && KeySize(n, d) == 0
    ensures KeyFor(n, d).Some? ==> var s := Slot(KeyFor(n, d).value, id);
      && AddDoc(n, slots, d, id) == Settled(slots, s) && (DocSettles(n, slots, d, id) <==> Settles(slots, s))
        && KeySize(n, d) == SlotSize(s)
  {
    hide KeyFor, Settled, Settles;
  }

  /** With room on the page nothing is lost. */
  lemma AddIsWith(n: Name, slots: seq<Slot>, d: Document, id: DocId)
    requires RoomFor(slots, KeySize(n, d))
    ensures AddDoc(n, slots, d, id) == WithDoc(n, slots, d, id) && DocSettles(n, slots, d, id)
  {
    hide KeyFor, Place, SlotsSize;
  }

  lemma {:induction false} PlaceHolds(slots: seq<Slot>, s: Slot, x: Slot)
    ensures x in Place(slots, s) <==> x in slots || x == s
  {
    hide Before;
    if |slots| == 0 {
    } else {
      PlaceHolds(slots[1..], s, x);
      assert slots == [slots[0]] + slots[1..];
    }
  }

  lemma SettledHolds(slots: seq<Slot>, s: Slot, x: Slot)
    requires x in Settled(slots, s)
    ensures x in slots || x == s
  {
    hide Place, RoomFor, Lt;
    PlaceHolds(slots, s, x);
    if |slots| > 0 {
      PlaceHolds(slots[..|slots| / 2], s, x);
    }
  }

  /** A slot on the page was there before, or is the one of the document. */
  lemma AddHolds(n: Name, slots: seq<Slot>, d: Document, id: DocId, x: Slot)
    requires x in AddDoc(n, slots, d, id)
    ensures x in slots || (KeyFor(n, d) == Some(x.key) && x.doc == id)
  {
    hide KeyFor, Settled;
    var k := KeyFor(n, d);
    if k.Some? {
      SettledHolds(slots, Slot(k.value, id), x);
    }
  }

  lemma {:induction false} FilledHolds(n: Name, slots: seq<Slot>, ids: seq<DocId>, batch: seq<Document>, m: nat, x: Slot)
    requires m <= |ids| && m <= |batch| && x in Filled(n, slots, ids, batch, m)
    ensures x in slots || x.doc in ids[..m]
  {
    hide AddDoc;
    if m == 0 {
    } else {
      AddHolds(n, Filled(n, slots, ids, batch, m - 1), batch[m - 1], ids[m - 1], x);
      if x in Filled(n, slots, ids, batch, m - 1) {
        FilledHolds(n, slots, ids, batch, m - 1, x);
      }
      assert ids[..m] == ids[..m - 1] + [ids[m - 1]];
    }
  }

  // the uniqueness check, as it looks keys up

  /** The lookup finds no other document under the key that d would have. */
  predicate Unseen(slots: seq<Slot>, n: Name, d: Document, except: Option<DocId>) {
    KeyFor(n, d).Some? ==> var f := Find(slots, KeyFor(n, d).value); f.None? || f == except
  }

  ghost predicate PassesAt(slots: seq<Slot>, n: Name, batch: seq<Document>, i: nat)
    requires i < |batch|
  {
    Unseen(slots, n, batch[i], None) && (KeyFor(n, batch[i]).Some? ==> !Seen(batch, i, n, KeyFor(n, batch[i]).value))
  }

  ghost predicate PassesUpTo(slots: seq<Slot>, n: Name, batch: seq<Document>, i: nat)
    requires i <= |batch|
  {
    forall j :: 0 <= j < i ==> PassesAt(slots, n, batch, j)
  }

  ghost predicate PassesName(slots: seq<Slot>, n: Name, batch: seq<Document>) { PassesUpTo(slots, n, batch, |batch|) }

  /** check_unique_batch finds nothing. */
  ghost predicate Passes(tables: map<Name, seq<Slot>>, unique: set<Name>, batch: seq<Document>) {
    forall n :: n in unique && n in tables ==> PassesName(tables[n], n, batch)
  }

  lemma PassesIs(slots: seq<Slot>, n: Name, batch: seq<Document>, i: nat)
    requires i < |batch|
    ensures PassesAt(slots, n, batch, i) <==>
      Unseen(slots, n, batch[i], None) && (KeyFor(n, batch[i]).Some? ==> !Seen(batch, i, n, KeyFor(n, batch[i]).value))
  {
  }

  lemma NotPassed(slots: seq<Slot>, n: Name, batch: seq<Document>, i: nat)
    requires i < |batch| && !PassesAt(slots, n, batch, i)
    ensures !PassesName(slots, n, batch)
  {
    hide PassesAt;
  }

  /** On an index in step the lookup tells exactly whether the key is taken. */
  lemma UnseenIsClear(docs: Docs, n: Name, slots: seq<Slot>, d: Document, except: Option<DocId>)
    requires InStep(docs, n, slots) && Unique(docs, n)
    ensures Unseen(slots, n, d, except) <==> !Clash(docs, n, d, except)
  {
    hide KeyFor, InStep, Unique, Clash, Find;
    if KeyFor(n, d).Some? {
      FindDecides(docs, n, slots, d, except);
    } else {
      NoKeyNoClash(docs, n, d, except);
    }
  }

  lemma PassesIsOk(docs: Docs, tables: map<Name, seq<Slot>>, unique: set<Name>, batch: seq<Document>)
    requires Consistent(docs, tables, unique)
    ensures forall n :: n in unique ==> n in tables && (PassesName(tables[n], n, batch) <==> NameOk(docs, n, batch))
    ensures Passes(tables, unique, batch) <==> BatchOk(docs, unique, batch)
  {
    hide KeyFor, InStep, Unique, Clash, Unseen, AllKeyable;
    forall n | n in unique
      ensures n in tables && (PassesName(tables[n], n, batch) <==> NameOk(docs, n, batch))
    {
      forall i | 0 <= i < |batch|
        ensures PassesAt(tables[n], n, batch, i) <==> FreshKey(docs, n, batch, i)
      {
        UnseenIsClear(docs, n, tables[n], batch[i], None);
      }
    }
  }

  // an index that has lost entries

  /** Every slot is the entry of a live document, and some live document has none. */
  ghost predicate Partial(docs: Docs, n: Name, slots: seq<Slot>) {
    Misses(docs, n, slots) && forall s :: s in slots ==> HasKey(docs, n, s)
  }

  lemma PartialNotInStep(docs: Docs, n: Name, slots: seq<Slot>)
    requires Partial(docs, n, slots)
    ensures !InStep(docs, n, slots)
  {
    hide KeyFor, Ordered;
    var s :| HasKey(docs, n, s) && s !in slots;
  }

  lemma OneHolder(docs: Docs, n: Name, s: Slot, t: Slot)
    requires Unique(docs, n) && HasKey(docs, n, s) && HasKey(docs, n, t) && s.key == t.key
    ensures s == t
  {
    hide KeyFor;
    var d := docs[s.doc].value;
    assert !Clash(docs, n, d, Some(s.doc));
    assert !ClashesWith(docs, n, d, Some(s.doc), t.doc);
  }

  /** Among unique keys the missing document cannot be found by its key. */
  lemma LostKey(docs: Docs, n: Name, slots: seq<Slot>) returns (s: Slot)
    requires Partial(docs, n, slots) && Unique(docs, n)
    ensures HasKey(docs, n, s) && Find(slots, s.key).None?
  {
    hide KeyFor, Unique, HasKey;
    s :| HasKey(docs, n, s) && s !in slots;
    forall t | t in slots
      ensures t.key != s.key
    {
      if t.key == s.key {
        OneHolder(docs, n, s, t);
      }
    }
  }

  lemma KeyStays(docs: Docs, n: Name, d: Document, id: DocId, s: Slot)
    requires id !in docs && HasKey(docs, n, s)
    ensures HasKey(docs[id := Some(d)], n, s) && s.doc != id
  {
  }

  /** The first insert without room loses the middle slot at least. */
  lemma AddLoses(docs: Docs, n: Name, slots: seq<Slot>, d: Document, id: DocId)
    requires InStep(docs, n, slots) && id !in docs && |slots| > 0 && KeyFor(n, d).Some? && !RoomFor(slots, KeySize(n, d))
    ensures Partial(docs[id := Some(d)], n, AddDoc(n, slots, d, id))
  {
    hide KeyFor, Place, RoomFor, Ordered, Lt;
    var lost := slots[|slots| / 2];
    MiddleLost(docs, n, slots);
    KeyStays(docs, n, d, id, lost);
    var s := Slot(KeyFor(n, d).value, id);
    PlaceHolds(slots[..|slots| / 2], s, lost);
    assert lost !in AddDoc(n, slots, d, id);
    AddRight(docs, n, slots, d, id);
  }

  lemma AddRight(docs: Docs, n: Name, slots: seq<Slot>, d: Document, id: DocId)
    requires id !in docs && forall s :: s in slots ==> HasKey(docs, n, s)
    ensures forall s :: s in AddDoc(n, slots, d, id) ==> HasKey(docs[id := Some(d)], n, s)
  {
    hide KeyFor, AddDoc;
    forall s | s in AddDoc(n, slots, d, id)
      ensures HasKey(docs[id := Some(d)], n, s)
    {
      AddHolds(n, slots, d, id, s);
      if s in slots {
        KeyStays(docs, n, d, id, s);
      }
    }
  }

  /** What is lost stays lost. */
  lemma AddStaysPartial(docs: Docs, n: Name, slots: seq<Slot>, d: Document, id: DocId)
    requires Partial(docs, n, slots) && id !in docs
    ensures Partial(docs[id := Some(d)], n, AddDoc(n, slots, d, id))
  {
    hide KeyFor, AddDoc;
    var lost :| HasKey(docs, n, lost) && lost !in slots;
    KeyStays(docs, n, d, id, lost);
    if lost in AddDoc(n, slots, d, id) {
      AddHolds(n, slots, d, id, lost);
    }
    AddRight(docs, n, slots, d, id);
  }

  lemma HalfIsPartial(docs: Docs, n: Name, slots: seq<Slot>)
    requires |slots| > 0 && (InStep(docs, n, slots) || Partial(docs, n, slots))
    ensures Partial(docs, n, slots[..|slots| / 2])
  {
    hide KeyFor, Ordered, HasKey;
    if InStep(docs, n, slots) {
      MiddleLost(docs, n, slots);
    } else {
      var lost :| HasKey(docs, n, lost) && lost !in slots;
    }
  }

  lemma PartialLater(docs: Docs, n: Name, ids: seq<DocId>, batch: seq<Document>, i: nat, m: nat, slots: seq<Slot>)
    requires i <= m <= |batch| == |ids| && NewIds(docs, ids, batch) && Partial(Extend(docs, ids, batch, i), n, slots)
    ensures Partial(Extend(docs, ids, batch, m), n, slots)
  {
    hide KeyFor, Extend, HasKey;
    var lost :| HasKey(Extend(docs, ids, batch, i), n, lost) && lost !in slots;
    StillHasKey(docs, ids, batch, i, m, n, lost);
    forall s | s in slots
      ensures HasKey(Extend(docs, ids, batch, m), n, s)
    {
      StillHasKey(docs, ids, batch, i, m, n, s);
    }
  }

  // a whole batch

  lemma {:induction false} FilledSize(n: Name, slots: seq<Slot>, ids: seq<DocId>, batch: seq<Document>, m: nat)
    requires m <= |batch| == |ids| && RoomFor(slots, BatchSize(n, batch, m))
    ensures SlotsSize(Filled(n, slots, ids, batch, m)) == SlotsSize(slots) + BatchSize(n, batch, m)
  {
    hide SlotsSize, KeySize, AddDoc, WithDoc;
    if m == 0 {
    } else {
      FilledSize(n, slots, ids, batch, m - 1);
      var was := Filled(n, slots, ids, batch, m - 1);
      AddIsWith(n, was, batch[m - 1], ids[m - 1]);
      WithDocSize(n, was, batch[m - 1], ids[m - 1]);
    }
  }

  /** The page has room for document m exactly as long as it has room for the keys up to it. */
  lemma RoomSoFar(n: Name, slots: seq<Slot>, ids: seq<DocId>, batch: seq<Document>, m: nat)
    requires m < |batch| == |ids| && RoomFor(slots, BatchSize(n, batch, m))
    ensures RoomFor(Filled(n, slots, ids, batch, m), KeySize(n, batch[m])) <==> RoomFor(slots, BatchSize(n, batch, m + 1))
  {
    hide SlotsSize, KeySize, Filled;
    FilledSize(n, slots, ids, batch, m);
  }

  /** After m documents the index is in step if there was room for all their keys, and has lost entries if not. */
  lemma {:induction false} FilledState(docs: Docs, n: Name, slots: seq<Slot>, ids: seq<DocId>, batch: seq<Document>, m: nat)
    requires m <= |batch| == |ids| && InStep(docs, n, slots) && NewIds(docs, ids, batch) && RoomFor(slots, 0)
    requires forall d :: d in batch ==> KeyFits(n, d)
    ensures var now := Extend(docs, ids, batch, m);
      if RoomFor(slots, BatchSize(n, batch, m)) then InStep(now, n, Filled(n, slots, ids, batch, m))
      else Partial(now, n, Filled(n, slots, ids, batch, m))
  {
    hide SlotsSize, KeySize, AddDoc, Extend, InStep, Partial, RoomFor, KeyFits;
    if m == 0 {
      ExtendNone(docs, ids, batch);
    } else {
      FilledState(docs, n, slots, ids, batch, m - 1);
      var was, d, id := Filled(n, slots, ids, batch, m - 1), batch[m - 1], ids[m - 1];
      assert NewId(docs, ids, batch, m - 1) && d in batch;
      ExtendLast(docs, ids, batch, m - 1);
      RoomShrinks(n, slots, batch, m - 1);
      if !RoomFor(slots, BatchSize(n, batch, m - 1)) {
        AddStaysPartial(Extend(docs, ids, batch, m - 1), n, was, d, id);
      } else {
        RoomSoFar(n, slots, ids, batch, m - 1);
        if RoomFor(slots, BatchSize(n, batch, m)) {
          AddIsWith(n, was, d, id);
          InStepInsert(Extend(docs, ids, batch, m - 1), n, was, d, id);
        } else {
          FilledSize(n, slots, ids, batch, m - 1);
          NoRoomMeans(n, slots, was, batch, m - 1);
          AddLoses(Extend(docs, ids, batch, m - 1), n, was, d, id);
        }
      }
    }
  }

  lemma RoomShrinks(n: Name, slots: seq<Slot>, batch: seq<Document>, m: nat)
    requires m < |batch|
    ensures RoomFor(slots, BatchSize(n, batch, m + 1)) ==> RoomFor(slots, BatchSize(n, batch, m))
  {
    hide SlotsSize, KeySize;
  }

  lemma NoRoomMeans(n: Name, slots: seq<Slot>, was: seq<Slot>, batch: seq<Document>, m: nat)
    requires m < |batch| && KeyFits(n, batch[m]) && !RoomFor(was, KeySize(n, batch[m]))
    requires RoomFor(slots, BatchSize(n, batch, m)) && SlotsSize(was) == SlotsSize(slots) + BatchSize(n, batch, m)
    ensures |was| > 0 && KeyFor(n, batch[m]).Some?
  {
    hide KeyFor, BatchSize;
  }

  /** A batch that passed the check and has room leaves everything in step. */
  lemma {:induction false} ConsistentAfter(docs: Docs, tables: map<Name, seq<Slot>>, unique: set<Name>, ids: seq<DocId>,
                                           batch: seq<Document>, m: nat)
    requires m <= |batch| == |ids| && Consistent(docs, tables, unique) && BatchOk(docs, unique, batch) && NewIds(docs, ids, batch)
    requires forall n :: n in tables ==> RoomFor(tables[n], BatchSize(n, batch, m))
    requires forall d, n :: d in batch && n in tables ==> Keyable(n, d)
    ensures Consistent(Extend(docs, ids, batch, m), FilledAll(tables, ids, batch, m), unique)
  {
    hide SlotsSize, KeySize, AddDoc, Extend, Consistent, Filled, RoomFor, Keyable, Clash, NameOk, BatchSize;
    if m == 0 {
      ExtendNone(docs, ids, batch);
      FilledNone(tables, ids, batch);
    } else {
      forall n | n in tables
        ensures RoomFor(tables[n], BatchSize(n, batch, m - 1))
      {
        RoomShrinks(n, tables[n], batch, m - 1);
      }
      ConsistentAfter(docs, tables, unique, ids, batch, m - 1);
      var now, was := Extend(docs, ids, batch, m - 1), FilledAll(tables, ids, batch, m - 1);
      var d, id := batch[m - 1], ids[m - 1];
      assert NewId(docs, ids, batch, m - 1) && d in batch;
      ExtendLast(docs, ids, batch, m - 1);
      forall n | n in unique
        ensures !Clash(now, n, d, None)
      {
        StillFresh(docs, n, ids, batch, m - 1, m - 1);
      }
      forall n | n in tables
        ensures FilledAll(tables, ids, batch, m)[n] == WithDoc(n, was[n], d, id)
      {
        FilledStep(tables, ids, batch, m - 1, n);
        RoomSoFar(n, tables[n], ids, batch, m - 1);
        AddIsWith(n, was[n], d, id);
      }
      ConsistentInsert(now, was, FilledAll(tables, ids, batch, m), unique, d, id);
    }
  }

  /** A batch that passed the check repeats no unique key, whatever becomes of the indexes. */
  lemma {:induction false} UniqueAfter(docs: Docs, n: Name, ids: seq<DocId>, batch: seq<Document>, m: nat)
    requires m <= |batch| == |ids| && Unique(docs, n) && NameOk(docs, n, batch) && NewIds(docs, ids, batch)
    ensures Unique(Extend(docs, ids, batch, m), n)
  {
    hide Extend, Unique, NameOk, Clash;
    if m == 0 {
      ExtendNone(docs, ids, batch);
    } else {
      UniqueAfter(docs, n, ids, batch, m - 1);
      StillFresh(docs, n, ids, batch, m - 1, m - 1);
      assert NewId(docs, ids, batch, m - 1);
      ExtendLast(docs, ids, batch, m - 1);
      UniqueInsert(Extend(docs, ids, batch, m - 1), n, batch[m - 1], ids[m - 1]);
    }
  }

  /** No document of the batch, at its turn, finds a page without room in the half it goes to. */
  ghost predicate AllSettle(tables: map<Name, seq<Slot>>, ids: seq<DocId>, batch: seq<Document>, m: nat)
    requires m <= |batch| == |ids|
  {
    forall i, n :: 0 <= i < m && n in tables ==> DocSettles(n, FilledAll(tables, ids, batch, i)[n], batch[i], ids[i])
  }

  lemma BatchSettles(tables: map<Name, seq<Slot>>, ids: seq<DocId>, batch: seq<Document>, m: nat)
    requires m <= |batch| == |ids| && BatchFits(tables, batch)
    ensures AllSettle(tables, ids, batch, m)
  {
    hide RoomFor, BatchSize, KeySize, Filled, DocSettles;
    forall i, n | 0 <= i < m && n in tables
      ensures DocSettles(n, FilledAll(tables, ids, batch, i)[n], batch[i], ids[i])
    {
      assert RoomIn(tables[n], n, batch);
      RoomBefore(n, tables[n], batch, i + 1);
      RoomShrinks(n, tables[n], batch, i);
      RoomSoFar(n, tables[n], ids, batch, i);
      AddIsWith(n, Filled(n, tables[n], ids, batch, i), batch[i], ids[i]);
    }
  }

  lemma RoomBefore(n: Name, slots: seq<Slot>, batch: seq<Document>, m: nat)
    requires m <= |batch| && RoomFor(slots, BatchSize(n, batch, |batch|))
    ensures RoomFor(slots, BatchSize(n, batch, m))
  {
    hide SlotsSize, BatchSize;
    BatchSizeGrows(n, batch, m, |batch|);
  }
}
