/** A run of src/database/database.rs in which a unique index lets a duplicate through, because nothing publishes the root
    that its tree has moved to. */
module StaleIndex {
  import opened Bytes
  import opened Disk
  import opened Pool
  import opened Nodes
  import opened Layout
  import opened Slotted
  import Heap
  import opened Values
  import opened KeyOrder
  import opened Format
  import opened Orders
  import opened Collections
  import opened Indexes
  import opened LeafIndexes
  import opened Tables
  import opened Overflow
  import opened Databases

  /** One key more than a page has room for: 178 keys of 9 bytes with their slots take 4094 of 4083 bytes. */
  const MANY: nat := 178

  function Numbered(f: Text, i: nat): Document
    requires i < TWO63
  {
    map[f := Int(i)]
  }

  function Batch(f: Text, n: nat): (b: seq<Document>)
    requires n < TWO63
    ensures |b| == n && forall i :: 0 <= i < n ==> b[i] == Numbered(f, i)
  {
    seq(n, i requires 0 <= i < n => Numbered(f, i))
  }

  // what such a document takes up

  lemma OneField(f: Text, i: nat, fs: seq<Format.Field>)
    requires i < TWO63 && Lists(TDoc(fs), Doc(Numbered(f, i)))
    ensures fs == [Format.Field(f, TInt(i))]
  {
    var doc := ForgetFields(fs);
    assert doc == Numbered(f, i);
    assert f in doc;
    ForgetKeys(fs, f);
    forall j | 0 <= j < |fs|
      ensures fs[j].key == f
    {
      ForgetKeys(fs, fs[j].key);
    }
    assert |fs| == 1;
    assert fs[..0] == [];
    assert ForgetFields([]) == map[];
    assert doc == map[][fs[0].key := Format.Forget(fs[0].value)];
    assert Format.Forget(fs[0].value) == Int(i);
  }

  lemma NumberedFits(f: Text, i: nat)
    requires i < TWO63 && |f| <= 1000
    ensures FitsRecord(Numbered(f, i))
  {
    forall fs | Lists(TDoc(fs), Doc(Numbered(f, i)))
      ensures |EncodeBody(fs)| <= MAX_RECORD
    {
      OneField(f, i, fs);
      OneFieldSize(f, i);
    }
  }

  lemma OneFieldSize(f: Text, i: nat)
    requires i < TWO63
    ensures |EncodeBody([Format.Field(f, TInt(i))])| == |f| + 17
  {
    var fs := [Format.Field(f, TInt(i))];
    assert fs[1..] == [] && EncodeFields([]) == [];
    assert EncodeFields(fs) == Text4(f) + Encode(TInt(i)) + [];
  }

  lemma NumberedKey(f: Text, i: nat)
    requires i < TWO63
    ensures var k := KeyFor([f], Numbered(f, i)); k == SerializeKey(Int(i)) && k.Some? && |k.value| == 9
    ensures Keyable([f], Numbered(f, i)) && KeySize([f], Numbered(f, i)) == 23 && KeyFits([f], Numbered(f, i))
  {
    hide BE;
  }

  lemma KeysDiffer(f: Text, i: nat, j: nat)
    requires i < TWO63 && j < TWO63
    ensures KeyFor([f], Numbered(f, i)) == KeyFor([f], Numbered(f, j)) <==> i == j
  {
    hide SerializeKey, KeyFor;
    NumberedKey(f, i);
    NumberedKey(f, j);
    KeyOrder.KeyOrder(Int(i), Int(j));
  }

  lemma BatchStorable(f: Text, n: nat)
    requires n < TWO63 && |f| <= 1000
    ensures forall d :: d in Batch(f, n) ==> Storable(d, {[f]})
  {
    hide FitsRecord, Keyable, KeyFits;
    forall d | d in Batch(f, n)
      ensures Storable(d, {[f]})
    {
      var i :| 0 <= i < n && d == Batch(f, n)[i];
      NumberedFits(f, i);
      NumberedKey(f, i);
    }
  }

  lemma {:induction false} BatchTakes(f: Text, n: nat, m: nat)
    requires m <= n < TWO63
    ensures BatchSize([f], Batch(f, n), m) == 23 * m
  {
    hide KeySize;
    if m == 0 {
    } else {
      BatchTakes(f, n, m - 1);
      NumberedKey(f, m - 1);
    }
  }

  /** On an empty collection the batch passes the check. */
  lemma BatchIsOk(f: Text, n: nat)
    requires n < TWO63
    ensures BatchOk(imap[], {[f]}, Batch(f, n))
  {
    hide KeyFor;
    var batch := Batch(f, n);
    forall i | 0 <= i < n
      ensures FreshKey(imap[], [f], batch, i)
    {
      forall j | 0 <= j < i
        ensures KeyFor([f], batch[j]) != KeyFor([f], batch[i])
      {
        KeysDiffer(f, i, j);
      }
      assert !Clash(imap[], [f], batch[i], None);
    }
    assert NameOk(imap[], [f], batch);
  }

  // how the page fills up

  ghost predicate Nine(slots: seq<Slot>) { forall s :: s in slots ==> |s.key| == 9 }

  lemma {:induction false} NineSize(slots: seq<Slot>)
    requires Nine(slots)
    ensures SlotsSize(slots) == 23 * |slots|
  {
    if |slots| == 0 {
    } else {
      assert slots[0] in slots;
      NineSize(slots[1..]);
    }
  }

  lemma {:induction false} FilledNine(f: Text, n: nat, ids: seq<DocId>, m: nat)
    requires m <= n == |ids| && n < TWO63
    ensures Nine(Filled([f], [], ids, Batch(f, n), m))
  {
    hide KeyFor, AddDoc;
    if m == 0 {
    } else {
      FilledNine(f, n, ids, m - 1);
      var was := Filled([f], [], ids, Batch(f, n), m - 1);
      forall s | s in AddDoc([f], was, Numbered(f, m - 1), ids[m - 1])
        ensures |s.key| == 9
      {
        AddHolds([f], was, Numbered(f, m - 1), ids[m - 1], s);
        NumberedKey(f, m - 1);
      }
    }
  }

  /** 177 keys fill the page. */
  lemma FilledCount(f: Text, ids: seq<DocId>, m: nat)
    requires |ids| == MANY && m < MANY
    ensures |Filled([f], [], ids, Batch(f, MANY), m)| == m && Nine(Filled([f], [], ids, Batch(f, MANY), m))
  {
    hide Filled, BatchSize;
    FilledNine(f, MANY, ids, m);
    BatchTakes(f, MANY, m);
    FilledSize([f], [], ids, Batch(f, MANY), m);
    NineSize(Filled([f], [], ids, Batch(f, MANY), m));
  }

  lemma NineHalf(slots: seq<Slot>, key: Key)
    requires Nine(slots) && |slots| == MANY - 1
    ensures SlotsSize(HalfFor(slots, key)) <= 89 * 23
  {
    hide SlotsSize, Lt;
    var half := HalfFor(slots, key);
    assert forall s :: s in half ==> s in slots;
    NineSize(half);
  }

  lemma BatchIsSettled(f: Text, ids: seq<DocId>)
    requires |ids| == MANY
    ensures AllSettle(map[[f] := []], ids, Batch(f, MANY), MANY)
  {
    hide Filled, KeyFor, SlotsSize, KeySize;
    var batch := Batch(f, MANY);
    forall i | 0 <= i < MANY
      ensures DocSettles([f], Filled([f], [], ids, batch, i), batch[i], ids[i])
    {
      var slots := Filled([f], [], ids, batch, i);
      NumberedKey(f, i);
      FilledCount(f, ids, i);
      NineSize(slots);
      if i == MANY - 1 {
        NineHalf(slots, KeyFor([f], batch[i]).value);
      }
    }
  }

  /** After the last key the published page is half empty. */
  lemma PageAfter(f: Text, ids: seq<DocId>)
    requires |ids| == MANY
    ensures SlotsSize(Filled([f], [], ids, Batch(f, MANY), MANY)) <= 89 * 23
  {
    hide Filled, KeyFor, SlotsSize, KeySize, Lt, Place;
    var i, batch := MANY - 1, Batch(f, MANY);
    var slots := Filled([f], [], ids, batch, i);
    NumberedKey(f, i);
    FilledCount(f, ids, i);
    NineSize(slots);
    var s := Slot(KeyFor([f], batch[i]).value, ids[i]);
    LastFilled(f, ids);
    var lower := slots[..|slots| / 2];
    assert Nine(lower);
    NineSize(lower);
    PlaceSize(lower, s);
  }

  lemma LastFilled(f: Text, ids: seq<DocId>)
    requires |ids| == MANY
    ensures Filled([f], [], ids, Batch(f, MANY), MANY) ==
            AddDoc([f], Filled([f], [], ids, Batch(f, MANY), MANY - 1), Numbered(f, MANY - 1), ids[MANY - 1])
  {
    hide AddDoc;
  }

  // the run

  /** The ids of two live documents with the same value in the field. */
  ghost predicate Twice(docs: Docs, f: Text, k: nat, a: DocId, b: DocId)
    requires k < TWO63
  {
    a != b && Indexes.Live(docs, a) && Indexes.Live(docs, b) && docs[a].value == Numbered(f, k) == docs[b].value
  }

  lemma TwiceIsNotUnique(docs: Docs, f: Text, k: nat, a: DocId, b: DocId)
    requires k < TWO63 && Twice(docs, f, k, a, b)
    ensures !Unique(docs, [f])
  {
    hide KeyFor;
    NumberedKey(f, k);
    assert ClashesWith(docs, [f], docs[a].value, Some(a), b);
  }

  /** A new collection with a unique index on one field. */
  method Prepare(pool: BufferPool<Page>, f: Text) returns (db: Database)
    requires pool.Valid() && |pool.disk.file| + 4 < NO_NEXT
    modifies pool, pool.disk
    ensures fresh(db) && db.pool == pool && db.Valid() && db.Stored() == imap[]
    ensures db.indexes.Keys == {[f]} && db.unique == {[f]} && db.Tables() == map[[f] := []]
    ensures |pool.disk.file| <= old(|pool.disk.file|) + 4
  {
    hide Flat, Pool.Inv, Packed, LastAccess, pool.Valid, Heap.HeapOk, Published, TablesAt, Standing, Known, InStep, RoomFor;
    var h, chain := Heap.HeapFile.Create(pool);
    NothingStored(pool.View(), chain, h.root);
    db := new Database(pool, h.root, chain);
    NothingKeyed([f]);
    var r, list := db.CreateIndex([f], true);
    NothingBuilt([f], list);
    NothingIndexed(db.Tables(), db.unique, [f]);
  }

  lemma NothingStored(view: View, chain: seq<PageId>, root: PageId)
    requires Heap.HeapOk(view, chain) && chain == [root] && Heap.Docs(view, chain) == imap[]
    ensures HeapAt(view, chain, root) && DocsAt(view, chain) == imap[]
  {
    hide Heap.HeapOk;
  }

  lemma NothingKeyed(n: Name)
    ensures AllKeyable(imap[], n) && AllFit(imap[], n) && Unique(imap[], n)
  {
  }

  lemma FirstPair(list: seq<(DocId, Document)>)
    ensures |list| > 0 ==> (list[0].0, list[0].1) in list
  {
  }

  lemma FirstSlot(slots: seq<Slot>)
    ensures |slots| > 0 ==> slots[0] in slots
  {
  }

  lemma NothingBuilt(n: Name, list: seq<(DocId, Document)>)
    requires Listing(list, imap[])
    ensures |list| == 0 && RoomFor([], BatchSize(n, DocList(list), |list|))
  {
    FirstPair(list);
  }

  lemma NothingIndexed(tables: map<Name, seq<Slot>>, unique: set<Name>, n: Name)
    requires Consistent(imap[], tables, unique) && tables.Keys == {n}
    ensures tables == map[n := []]
  {
    hide Ordered, AllKeyable, Unique, KeyFor;
    var slots := tables[n];
    assert InStep(imap[], n, slots);
    FirstSlot(slots);
  }

  lemma BatchDoesNotFit(f: Text)
    ensures !BatchFits(map[[f] := []], Batch(f, MANY))
  {
    hide BatchSize;
    BatchTakes(f, MANY, MANY);
    var tables: map<Name, seq<Slot>> := map[[f] := []];
    assert [f] in tables && !RoomIn(tables[[f]], [f], Batch(f, MANY));
  }

  lemma {:induction false} StoredAs(docs: Docs, ids: seq<DocId>, batch: seq<Document>, m: nat, k: nat)
    requires k < m <= |batch| == |ids| && NewIds(docs, ids, batch)
    ensures ids[k] in Extend(docs, ids, batch, m) && Extend(docs, ids, batch, m)[ids[k]] == Some(batch[k])
  {
    if k == m - 1 {
    } else {
      StoredAs(docs, ids, batch, m - 1, k);
      assert NewId(docs, ids, batch, m - 1);
    }
  }

  lemma {:induction false} OnlyStored(ids: seq<DocId>, batch: seq<Document>, m: nat, d: DocId) returns (j: nat)
    requires m <= |batch| == |ids| && d in Extend(imap[], ids, batch, m)
    ensures j < m && Extend(imap[], ids, batch, m)[d] == Some(batch[j])
  {
    if d == ids[m - 1] {
      j := m - 1;
    } else {
      j := OnlyStored(ids, batch, m - 1, d);
    }
  }

  /** Of the numbers that are stored, one is not found from the published page. */
  ghost predicate Missed(slots: seq<Slot>, f: Text, j: nat)
    requires j < TWO63
  {
    Find(slots, SerializeKey(Int(j)).value).None?
  }

  lemma OneIsMissed(f: Text, ids: seq<DocId>, slots: seq<Slot>) returns (j: nat)
    requires |ids| == MANY
    requires var docs := Extend(imap[], ids, Batch(f, MANY), MANY); Partial(docs, [f], slots) && Unique(docs, [f])
    ensures j < MANY && Missed(slots, f, j)
  {
    hide Extend, Partial, Unique, KeyFor, SerializeKey, Find;
    var docs := Extend(imap[], ids, Batch(f, MANY), MANY);
    var s := LostKey(docs, [f], slots);
    j := OnlyStored(ids, Batch(f, MANY), MANY, s.doc);
    NumberedKey(f, j);
  }

  /** The uniqueness check lets through one of the numbers that are stored. */
  method FindUnseen(db: Database, f: Text, ghost lost: nat) returns (k: nat)
    requires db.Stands() && db.unique == {[f]} && [f] in db.indexes && lost < MANY && Missed(db.Tables()[[f]], f, lost)
    modifies db.pool, db.pool.disk
    ensures k < MANY && db.pool.Valid() && db.pool.View() == old(db.pool.View()) && |db.pool.disk.file| == old(|db.pool.disk.file|)
    ensures Unseen(db.Tables()[[f]], [f], Numbered(f, k), None)
  {
    hide Flat, Pool.Inv, Packed, LastAccess, db.pool.Valid, HeapAt, DocsAt, TablesAt, Standing, Known, Coherent, KeyFor, SerializeKey,
         Find, Clash;
    NumberedKey(f, lost);
    k := 0;
    while true
      invariant k <= lost && db.Stands() && db.pool.View() == old(db.pool.View()) && |db.pool.disk.file| == old(|db.pool.disk.file|)
      decreases lost - k
    {
      var bad := db.CheckUniqueExcept(Numbered(f, k), None);
      if bad.None? {
        return;
      }
      k := k + 1;
    }
  }

  lemma NumberedStorable(f: Text, k: nat)
    requires k < TWO63 && |f| <= 1000
    ensures forall d :: d in [Numbered(f, k)] ==> Storable(d, {[f]})
  {
    hide FitsRecord, Keyable, KeyFits;
    NumberedFits(f, k);
    NumberedKey(f, k);
  }

  lemma OneMorePasses(tables: map<Name, seq<Slot>>, f: Text, k: nat)
    requires k < TWO63 && [f] in tables && Unseen(tables[[f]], [f], Numbered(f, k), None)
    ensures Passes(tables, {[f]}, [Numbered(f, k)])
  {
    hide Unseen, KeyFor;
    assert PassesAt(tables[[f]], [f], [Numbered(f, k)], 0);
  }

  lemma OneMoreSettles(f: Text, ids: seq<DocId>, k: nat, more: seq<DocId>)
    requires k < TWO63 && |ids| == MANY && |more| == 1
    ensures AllSettle(FilledAll(map[[f] := []], ids, Batch(f, MANY), MANY), more, [Numbered(f, k)], 1)
  {
    hide KeyFor, SlotsSize, KeySize;
    var tables := FilledAll(map[[f] := []], ids, Batch(f, MANY), MANY);
    PageAfter(f, ids);
    NumberedKey(f, k);
    FilledNone(tables, more, [Numbered(f, k)]);
    AddIsWith([f], tables[[f]], Numbered(f, k), more[0]);
  }

  lemma StoredTwice(f: Text, ids: seq<DocId>, k: nat, more: seq<DocId>)
    requires k < MANY == |ids| && |more| == 1 && NewIds(imap[], ids, Batch(f, MANY))
    requires NewIds(Extend(imap[], ids, Batch(f, MANY), MANY), more, [Numbered(f, k)])
    ensures var docs := Extend(imap[], ids, Batch(f, MANY), MANY); Twice(Extend(docs, more, [Numbered(f, k)], 1), f, k, ids[k], more[0])
  {
    hide Extend, NewIds;
    var docs := Extend(imap[], ids, Batch(f, MANY), MANY);
    StoredAs(imap[], ids, Batch(f, MANY), MANY, k);
    OneInserted(docs, Numbered(f, k), more);
  }

  /** 178 numbers go into a unique index without an error; then one of them goes in again without an error. */
  method DuplicateGetsIn(pool: BufferPool<Page>, f: Text)
    returns (db: Database, first: Outcome<seq<DocId>>, again: Outcome<seq<DocId>>, k: nat, ghost a: DocId, ghost b: DocId)
    requires pool.Valid() && |f| <= 1000 && |pool.disk.file| + 600 < NO_NEXT
    modifies pool, pool.disk
    ensures fresh(db) && db.Stands() && [f] in db.unique && first.Done? && again.Done? && k < MANY
    ensures Twice(db.Stored(), f, k, a, b) && !Unique(db.Stored(), [f])
  {
    hide Flat, Pool.Inv, Packed, LastAccess, pool.Valid, HeapAt, DocsAt, TablesAt, Standing, Known, Coherent, Passes, BatchOk, NameOk,
         BatchFits, NewIds, Extend, AllSettle, FilledAll, Stopped, Partial, Unique, Storable, Unseen, RoomFor, PassesName;
    db := Prepare(pool, f);
    ghost var tables := db.Tables();
    BatchStorable(f, MANY);
    BatchIsOk(f, MANY);
    BatchDoesNotFit(f);
    db.ValidStands();
    ghost var ids;
    first, ids := db.InsertDocs(Batch(f, MANY));
    BatchIsSettled(f, ids);
    ghost var lost := OneIsMissed(f, ids, db.Tables()[[f]]);
    k := FindUnseen(db, f, lost);
    NumberedStorable(f, k);
    OneMorePasses(db.Tables(), f, k);
    ghost var more;
    again, more := db.InsertDocs([Numbered(f, k)]);
    a, b := ids[k], more[0];
    OneMoreSettles(f, ids, k, more);
    StoredTwice(f, ids, k, more);
    TwiceIsNotUnique(db.Stored(), f, k, a, b);
  }
}
