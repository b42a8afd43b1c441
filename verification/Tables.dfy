/** What a collection and its indexes are to each other, as values. */
module Tables {
  import opened Bytes
  import opened Disk
  import opened Nodes
  import opened Values
  import opened KeyOrder
  import opened Collections
  import opened Indexes
  import opened LeafIndexes

  /** RootMoved: the build of an index split the page it is going to publish, and the tree goes on at a root the catalog
      does not know. Overfull: a key has no room in its half of a split page either. */
  datatype Outcome<+T> =
    Done(value: T) | DuplicateKey(name: Name) | IndexNotFound | IndexAlreadyExists | RootMoved(name: Name) | Overfull(name: Name)

  /** Indexes in step with the documents, unique ones unique, and every indexed value one that has a key. */
  ghost predicate Consistent(docs: Docs, indexes: map<Name, seq<Slot>>, unique: set<Name>) {
    && unique <= indexes.Keys
    && (forall n :: n in indexes ==> InStep(docs, n, indexes[n]) && AllKeyable(docs, n))
    && (forall n :: n in unique ==> Unique(docs, n))
  }

  ghost predicate AllKeyable(docs: Docs, n: Name) {
    forall id :: Indexes.Live(docs, id) ==> Keyable(n, docs[id].value)
  }

  // batches

  /** An earlier document of the batch has this key. */
  ghost predicate Seen(batch: seq<Document>, i: nat, n: Name, k: Bytes)
    requires i <= |batch|
  {
    exists j :: 0 <= j < i && KeyFor(n, batch[j]) == Some(k)
  }

  /** Document i of the batch duplicates neither a stored key nor an earlier one of the batch. */
  ghost predicate FreshKey(docs: Docs, n: Name, batch: seq<Document>, i: nat)
    requires i < |batch|
  {
    !Clash(docs, n, batch[i], None) && (KeyFor(n, batch[i]).Some? ==> !Seen(batch, i, n, KeyFor(n, batch[i]).value))
  }

  ghost predicate BatchOk(docs: Docs, unique: set<Name>, batch: seq<Document>) {
    forall n :: n in unique ==> NameOk(docs, n, batch)
  }

  ghost predicate NameOk(docs: Docs, n: Name, batch: seq<Document>) {
    forall i :: 0 <= i < |batch| ==> FreshKey(docs, n, batch, i)
  }

  /** A document of the batch has, in all fields of the index, the values of a stored one or of an earlier one. */
  ghost predicate Repeats(docs: Docs, n: Name, batch: seq<Document>) {
    exists i :: 0 <= i < |batch| && RepeatsAt(docs, n, batch, i)
  }

  ghost predicate RepeatsAt(docs: Docs, n: Name, batch: seq<Document>, i: nat)
    requires i < |batch|
  {
    HasTwin(docs, n, batch[i], None) || exists j :: 0 <= j < i && Twins(n, batch[i], batch[j])
  }

  lemma FreshIsNoRepeat(docs: Docs, n: Name, batch: seq<Document>, i: nat)
    requires i < |batch| && AllPartsFit(docs, n) && forall d :: d in batch ==> PartsFit(n, d)
    ensures FreshKey(docs, n, batch, i) <==> !RepeatsAt(docs, n, batch, i)
  {
    hide KeyFor, Twins, PartsFit, Clash, HasTwin;
    ClashIsTwin(docs, n, batch[i], None);
    forall j | 0 <= j < i
      ensures KeyFor(n, batch[i]).Some? && KeyFor(n, batch[j]) == KeyFor(n, batch[i]) <==> Twins(n, batch[i], batch[j])
    {
      assert batch[i] in batch && batch[j] in batch;
      KeyMeans(n, batch[i], batch[j]);
    }
  }

  /** The check on keys is a check on values. */
  lemma OkIsNoRepeat(docs: Docs, unique: set<Name>, batch: seq<Document>)
    requires forall n :: n in unique ==> AllPartsFit(docs, n) && forall d :: d in batch ==> PartsFit(n, d)
    ensures forall n :: n in unique ==> (NameOk(docs, n, batch) <==> !Repeats(docs, n, batch))
    ensures BatchOk(docs, unique, batch) <==> forall n :: n in unique ==> !Repeats(docs, n, batch)
  {
    hide FreshKey, RepeatsAt, AllPartsFit, PartsFit;
    forall n | n in unique
      ensures NameOk(docs, n, batch) <==> !Repeats(docs, n, batch)
    {
      forall i | 0 <= i < |batch|
        ensures FreshKey(docs, n, batch, i) <==> !RepeatsAt(docs, n, batch, i)
      {
        FreshIsNoRepeat(docs, n, batch, i);
      }
    }
  }

  /** The documents after the first m of the batch were stored under their ids. */
  ghost function Extend(docs: Docs, ids: seq<DocId>, batch: seq<Document>, m: nat): Docs
    requires m <= |ids| && m <= |batch|
  {
    if m == 0 then docs else Extend(docs, ids, batch, m - 1)[ids[m - 1] := Some(batch[m - 1])]
  }

  lemma {:induction false} ExtendPrefix(docs: Docs, ids: seq<DocId>, more: seq<DocId>, batch: seq<Document>, m: nat)
    requires m <= |ids| && m <= |batch|
    ensures Extend(docs, ids + more, batch, m) == Extend(docs, ids, batch, m)
  {
    if m == 0 {
    } else {
      ExtendPrefix(docs, ids, more, batch, m - 1);
    }
  }

  lemma ExtendLast(docs: Docs, ids: seq<DocId>, batch: seq<Document>, m: nat)
    requires m < |ids| && m < |batch|
    ensures Extend(docs, ids, batch, m + 1) == Extend(docs, ids, batch, m)[ids[m] := Some(batch[m])]
  {
  }

  /** Every id was new when it was handed out. */
  ghost predicate NewIds(docs: Docs, ids: seq<DocId>, batch: seq<Document>)
    requires |ids| <= |batch|
  {
    forall i :: 0 <= i < |ids| ==> NewId(docs, ids, batch, i)
  }

  ghost predicate NewId(docs: Docs, ids: seq<DocId>, batch: seq<Document>, i: nat)
    requires i < |ids| <= |batch|
  {
    ids[i] !in Extend(docs, ids, batch, i)
  }

  lemma NewIdsStep(docs: Docs, ids: seq<DocId>, id: DocId, batch: seq<Document>)
    requires |ids| < |batch| && NewIds(docs, ids, batch) && id !in Extend(docs, ids, batch, |ids|)
    ensures NewIds(docs, ids + [id], batch)
    ensures Extend(docs, ids + [id], batch, |ids| + 1) == Extend(docs, ids, batch, |ids|)[id := Some(batch[|ids|])]
  {
    hide Extend;
    ExtendPrefix(docs, ids, [id], batch, |ids|);
    ExtendLast(docs, ids + [id], batch, |ids|);
    forall i | 0 <= i <= |ids|
      ensures NewId(docs, ids + [id], batch, i)
    {
      ExtendPrefix(docs, ids, [id], batch, i);
      assert i < |ids| ==> NewId(docs, ids, batch, i);
    }
  }

  /** While a batch that passed the check is being stored, the rest of it still clashes with nothing. */
  lemma {:induction false} StillFresh(docs: Docs, n: Name, ids: seq<DocId>, batch: seq<Document>, m: nat, k: nat)
    requires |ids| == |batch| && NewIds(docs, ids, batch) && NameOk(docs, n, batch) && m <= k < |batch|
    ensures !Clash(Extend(docs, ids, batch, m), n, batch[k], None)
  {
    hide KeyFor, Clash, Extend;
    assert FreshKey(docs, n, batch, k);
    if m == 0 {
      ExtendNone(docs, ids, batch);
    } else {
      StillFresh(docs, n, ids, batch, m - 1, k);
      assert NewId(docs, ids, batch, m - 1);
      ClashInsert(Extend(docs, ids, batch, m - 1), n, batch[m - 1], ids[m - 1], batch[k]);
      ExtendLast(docs, ids, batch, m - 1);
    }
  }

  lemma ExtendNone(docs: Docs, ids: seq<DocId>, batch: seq<Document>)
    ensures Extend(docs, ids, batch, 0) == docs
  {
  }

  lemma ConsistentInsert(docs: Docs, indexes: map<Name, seq<Slot>>, indexes': map<Name, seq<Slot>>, unique: set<Name>, d: Document,
                         id: DocId)
    requires Consistent(docs, indexes, unique) && id !in docs
    requires forall n :: n in unique ==> !Clash(docs, n, d, None)
    requires forall n :: n in indexes ==> Keyable(n, d)
    requires indexes'.Keys == indexes.Keys && forall n :: n in indexes ==> indexes'[n] == WithDoc(n, indexes[n], d, id)
    ensures Consistent(docs[id := Some(d)], indexes', unique)
  {
    hide KeyFor, InStep, Unique, Clash, Keyable, WithDoc;
    var docs' := docs[id := Some(d)];
    forall n | n in indexes'
      ensures InStep(docs', n, indexes'[n]) && AllKeyable(docs', n)
    {
      InStepInsert(docs, n, indexes[n], d, id);
      assert AllKeyable(docs, n);
      forall x | Indexes.Live(docs', x)
        ensures Keyable(n, docs'[x].value)
      {
        assert x != id ==> Indexes.Live(docs, x);
      }
    }
    forall n | n in unique
      ensures Unique(docs', n)
    {
      UniqueInsert(docs, n, d, id);
    }
  }

  lemma ConsistentDelete(docs: Docs, indexes: map<Name, seq<Slot>>, indexes': map<Name, seq<Slot>>, unique: set<Name>, d: Document,
                         id: DocId)
    requires Consistent(docs, indexes, unique) && id in docs && docs[id] == Some(d)
    requires indexes'.Keys == indexes.Keys && forall n :: n in indexes ==> indexes'[n] == WithoutDoc(n, indexes[n], d, id)
    ensures Consistent(docs[id := None], indexes', unique)
  {
    hide KeyFor, InStep, Unique, Clash, Keyable, WithoutDoc;
    var docs' := docs[id := None];
    forall n | n in indexes'
      ensures InStep(docs', n, indexes'[n]) && AllKeyable(docs', n)
    {
      InStepDelete(docs, n, indexes[n], d, id);
      assert AllKeyable(docs, n);
      forall x | Indexes.Live(docs', x)
        ensures Keyable(n, docs'[x].value)
      {
        assert Indexes.Live(docs, x);
      }
    }
    forall n | n in unique
      ensures Unique(docs', n)
    {
      UniqueDelete(docs, n, id);
    }
  }

  /** The documents after the first m removals. */
  ghost function Removed(docs: Docs, gone: seq<(DocId, Document)>, m: nat): Docs
    requires m <= |gone|
  {
    if m == 0 then docs else Removed(docs, gone, m - 1)[gone[m - 1].0 := None]
  }

  lemma {:induction false} RemovedPrefix(docs: Docs, gone: seq<(DocId, Document)>, more: seq<(DocId, Document)>, m: nat)
    requires m <= |gone|
    ensures Removed(docs, gone + more, m) == Removed(docs, gone, m)
  {
    if m == 0 {
    } else {
      RemovedPrefix(docs, gone, more, m - 1);
    }
  }

  lemma RemovedLast(docs: Docs, gone: seq<(DocId, Document)>, m: nat)
    requires m < |gone|
    ensures Removed(docs, gone, m + 1) == Removed(docs, gone, m)[gone[m].0 := None]
  {
  }

  lemma RemovedNone(docs: Docs, gone: seq<(DocId, Document)>)
    ensures Removed(docs, gone, 0) == docs
  {
  }

  /** Removal k took out a document that was live at that point. */
  ghost predicate WasLive(docs: Docs, gone: seq<(DocId, Document)>, k: nat)
    requires k < |gone|
  {
    gone[k].0 in Removed(docs, gone, k) && Removed(docs, gone, k)[gone[k].0] == Some(gone[k].1)
  }

  ghost predicate AllWereLive(docs: Docs, gone: seq<(DocId, Document)>) {
    forall k :: 0 <= k < |gone| ==> WasLive(docs, gone, k)
  }

  lemma WasLiveStep(docs: Docs, gone: seq<(DocId, Document)>, id: DocId, d: Document)
    requires AllWereLive(docs, gone) && id in Removed(docs, gone, |gone|) && Removed(docs, gone, |gone|)[id] == Some(d)
    ensures AllWereLive(docs, gone + [(id, d)])
    ensures Removed(docs, gone + [(id, d)], |gone| + 1) == Removed(docs, gone, |gone|)[id := None]
  {
    hide Removed;
    var more := gone + [(id, d)];
    RemovedPrefix(docs, gone, [(id, d)], |gone|);
    RemovedLast(docs, more, |gone|);
    forall k | 0 <= k < |more|
      ensures WasLive(docs, more, k)
    {
      RemovedPrefix(docs, gone, [(id, d)], k);
      assert k < |gone| ==> WasLive(docs, gone, k);
    }
  }

  /** The ids of a list, live or not, all deleted. */
  ghost function Erased(docs: Docs, ids: seq<DocId>): Docs {
    imap d | d in docs :: if d in ids then None else docs[d]
  }

  ghost function LiveAmong(docs: Docs, ids: seq<DocId>): set<DocId> {
    set d | d in ids && Indexes.Live(docs, d)
  }

  lemma ErasedStep(docs: Docs, ids: seq<DocId>, i: nat)
    requires i < |ids|
    ensures var e := Erased(docs, ids[..i]);
      Erased(docs, ids[..i + 1]) == if ids[i] in e then e[ids[i] := None] else e
    ensures var live := Indexes.Live(Erased(docs, ids[..i]), ids[i]);
      |LiveAmong(docs, ids[..i + 1])| == |LiveAmong(docs, ids[..i])| + if live then 1 else 0
  {
    assert ids[..i + 1] == ids[..i] + [ids[i]];
    if Indexes.Live(Erased(docs, ids[..i]), ids[i]) {
      assert LiveAmong(docs, ids[..i + 1]) == LiveAmong(docs, ids[..i]) + {ids[i]};
    } else {
      assert LiveAmong(docs, ids[..i + 1]) == LiveAmong(docs, ids[..i]);
    }
  }

  lemma ErasedNone(docs: Docs, ids: seq<DocId>)
    ensures Erased(docs, ids[..0]) == docs && LiveAmong(docs, ids[..0]) == {}
  {
  }

  /** The documents of a list of ids, in its order. */
  ghost predicate Fetched(docs: Docs, ids: seq<DocId>, out: seq<(DocId, Document)>) {
    |out| == |ids| && forall i :: 0 <= i < |ids| ==> out[i].0 == ids[i] && ids[i] in docs && docs[ids[i]] == Some(out[i].1)
  }

  /** The rows are the live documents with a key in the range, each once, in key order. */
  ghost predicate RangeRows(docs: Docs, field: Text, low: Value, high: Value, rows: seq<(DocId, Document)>)
    requires Indexable(low) && Indexable(high)
  {
    && (forall i, j :: 0 <= i < j < |rows| ==> rows[i].0 != rows[j].0)
    && (forall d: DocId, x :: (d, x) in rows <==> d in docs && docs[d] == Some(x) && InRange(x, field, low, high))
    && InKeyOrder(field, rows)
  }

  ghost predicate InKeyOrder(field: Text, rows: seq<(DocId, Document)>) {
    forall i, j :: 0 <= i < j < |rows| ==> KeyLe(field, rows[i].1, rows[j].1)
  }

  ghost predicate KeyLe(field: Text, x: Document, y: Document) {
    && field in x && field in y && Indexable(x[field]) && Indexable(y[field])
    && Le(SerializeKey(x[field]).value, SerializeKey(y[field]).value)
  }

  ghost predicate InRange(d: Document, field: Text, low: Value, high: Value)
    requires Indexable(low) && Indexable(high)
  {
    field in d && Indexable(d[field]) && Between(low, d[field], high)
  }

  lemma {:induction false} HitsIn(slots: seq<Slot>, low: Bytes, high: Bytes, s: Slot)
    ensures s in Hits(slots, low, high) <==> s in slots && Le(low, s.key) && Le(s.key, high)
  {
    hide Le;
    if |slots| == 0 {
    } else {
      HitsIn(slots[1..], low, high, s);
      assert slots == [slots[0]] + slots[1..];
    }
  }

  lemma {:induction false} HitsOrdered(slots: seq<Slot>, low: Bytes, high: Bytes)
    requires Ordered(slots)
    ensures Ordered(Hits(slots, low, high))
  {
    hide Le, Ordered, Before;
    if |slots| == 0 {
      OrderedOne(Slot([], (0, 0)));
    } else {
      OrderedHead(slots);
      HitsOrdered(slots[1..], low, high);
      var more := Hits(slots[1..], low, high);
      forall s | s in more
        ensures Before(slots[0], s)
      {
        HitsIn(slots[1..], low, high, s);
      }
      OrderedCons(slots[0], more);
      assert [] + more == more;
    }
  }

  lemma RangeFrom(slots: seq<Slot>, low: Bytes, high: Bytes, i: nat) returns (s: Slot)
    requires i < |Range(slots, low, high)|
    ensures s in slots && s.doc == Range(slots, low, high)[i]
  {
    hide Hits;
    s := Hits(slots, low, high)[i];
    HitsIn(slots, low, high, s);
  }

  /** Row i shows the document of slot i. */
  ghost predicate RowOf(docs: Docs, field: Text, s: Slot, row: (DocId, Document)) {
    row.0 == s.doc && s.doc in docs && docs[s.doc] == Some(row.1) && field in row.1 && SerializeKey(row.1[field]) == Some(s.key)
  }

  lemma RowIs(docs: Docs, field: Text, slots: seq<Slot>, l: Bytes, h: Bytes, rows: seq<(DocId, Document)>, i: nat)
    requires InStep(docs, [field], slots) && Fetched(docs, Range(slots, l, h), rows) && i < |rows|
    ensures |rows| == |Hits(slots, l, h)| && RowOf(docs, field, Hits(slots, l, h)[i], rows[i])
    ensures var s := Hits(slots, l, h)[i]; Le(l, s.key) && Le(s.key, h)
  {
    hide SerializeKey, Le, Ordered, Hits;
    var s := Hits(slots, l, h)[i];
    HitsIn(slots, l, h, s);
    assert HasKey(docs, [field], s);
    assert Range(slots, l, h)[i] == s.doc;
  }

  lemma RangeIsRows(docs: Docs, field: Text, slots: seq<Slot>, low: Value, high: Value, rows: seq<(DocId, Document)>)
    requires InStep(docs, [field], slots) && Indexable(low) && Indexable(high)
    requires Fetched(docs, Range(slots, SerializeKey(low).value, SerializeKey(high).value), rows)
    ensures RangeRows(docs, field, low, high, rows)
  {
    hide SerializeKey, Le, Before, Hits, Range, Fetched, InStep, Ordered, InKeyOrder, RowOf, InRange;
    var l, h := SerializeKey(low).value, SerializeKey(high).value;
    var hits := Hits(slots, l, h);
    RowCount(docs, slots, l, h, rows);
    forall i | 0 <= i < |rows|
      ensures RowOf(docs, field, hits[i], rows[i])
    {
      RowIs(docs, field, slots, l, h, rows, i);
    }
    forall d: DocId, x
      ensures (d, x) in rows <==> d in docs && docs[d] == Some(x) && InRange(x, field, low, high)
    {
      RowExact(docs, field, slots, low, high, rows, d, x);
    }
    InStepOrdered(docs, [field], slots);
    HitsOrdered(slots, l, h);
    RowsInOrder(docs, field, hits, rows);
  }

  lemma RowExact(docs: Docs, field: Text, slots: seq<Slot>, low: Value, high: Value, rows: seq<(DocId, Document)>, d: DocId, x: Document)
    requires InStep(docs, [field], slots) && Indexable(low) && Indexable(high)
    requires Fetched(docs, Range(slots, SerializeKey(low).value, SerializeKey(high).value), rows)
    ensures (d, x) in rows <==> d in docs && docs[d] == Some(x) && InRange(x, field, low, high)
  {
    hide SerializeKey, Le, Hits, Range, Fetched, InStep;
    if d in docs && docs[d] == Some(x) && InRange(x, field, low, high) {
      RowFor(docs, field, slots, low, high, rows, d, x);
    }
    if (d, x) in rows {
      var i :| 0 <= i < |rows| && rows[i] == (d, x);
      RowIs(docs, field, slots, SerializeKey(low).value, SerializeKey(high).value, rows, i);
    }
  }

  lemma RowCount(docs: Docs, slots: seq<Slot>, l: Bytes, h: Bytes, rows: seq<(DocId, Document)>)
    requires Fetched(docs, Range(slots, l, h), rows)
    ensures |rows| == |Hits(slots, l, h)|
  {
    hide Hits;
  }

  lemma RowsInOrder(docs: Docs, field: Text, hits: seq<Slot>, rows: seq<(DocId, Document)>)
    requires Ordered(hits) && |rows| == |hits| && forall i :: 0 <= i < |rows| ==> RowOf(docs, field, hits[i], rows[i])
    ensures InKeyOrder(field, rows) && forall i, j :: 0 <= i < j < |rows| ==> rows[i].0 != rows[j].0
  {
    hide SerializeKey, Le, Before, RowOf, KeyLe;
    forall i, j | 0 <= i < j < |rows|
      ensures rows[i].0 != rows[j].0 && KeyLe(field, rows[i].1, rows[j].1)
    {
      RowsApart(docs, field, hits[i], hits[j], rows[i], rows[j]);
    }
  }

  lemma RowsApart(docs: Docs, field: Text, a: Slot, b: Slot, x: (DocId, Document), y: (DocId, Document))
    requires RowOf(docs, field, a, x) && RowOf(docs, field, b, y) && Before(a, b)
    ensures x.0 != y.0 && KeyLe(field, x.1, y.1)
  {
    hide SerializeKey, Le, Before;
    BeforeMeans(a, b);
  }

  lemma RowFor(docs: Docs, field: Text, slots: seq<Slot>, low: Value, high: Value, rows: seq<(DocId, Document)>, d: DocId, x: Document)
    requires InStep(docs, [field], slots) && Indexable(low) && Indexable(high)
    requires Fetched(docs, Range(slots, SerializeKey(low).value, SerializeKey(high).value), rows)
    requires d in docs && docs[d] == Some(x) && InRange(x, field, low, high)
    ensures (d, x) in rows
  {
    hide SerializeKey, Le, Ordered, Hits;
    var l, h := SerializeKey(low).value, SerializeKey(high).value;
    var s := Slot(SerializeKey(x[field]).value, d);
    assert HasKey(docs, [field], s);
    HitsIn(slots, l, h, s);
    var hits := Hits(slots, l, h);
    var i :| 0 <= i < |hits| && hits[i] == s;
    assert Range(slots, l, h)[i] == d;
    assert rows[i] == (d, x);
  }

  lemma InStepOrdered(docs: Docs, name: Name, slots: seq<Slot>)
    requires InStep(docs, name, slots)
    ensures Ordered(slots)
  {
  }

  lemma BeforeMeans(a: Slot, b: Slot)
    requires Before(a, b)
    ensures Le(a.key, b.key) && (a.key == b.key ==> a.doc != b.doc)
  {
    LtSelf(a.key);
  }

  /** A new index in step, unique if it is to be, joins the others. */
  lemma ConsistentCreate(docs: Docs, indexes: map<Name, seq<Slot>>, unique: set<Name>, name: Name, slots: seq<Slot>, isUnique: bool)
    requires Consistent(docs, indexes, unique) && InStep(docs, name, slots) && AllKeyable(docs, name) && (isUnique ==> Unique(docs, name))
    ensures Consistent(docs, indexes[name := slots], if isUnique then unique + {name} else unique)
  {
    hide InStep, AllKeyable, Unique;
  }

  /** Keys of the listed documents, checked for repeats. */
  method AllDistinct(list: seq<(DocId, Document)>, name: Name, ghost docs: Docs) returns (ok: bool)
    requires Listing(list, docs)
    ensures ok <==> Unique(docs, name)
  {
    hide KeyFor, Unique, Listing;
    var seen: set<Bytes> := {};
    for i := 0 to |list|
      invariant forall k :: k in seen <==> ListedBefore(list, name, i, k)
      invariant forall j :: 0 <= j < i ==> NewKey(list, name, j)
    {
      var k := KeyFor(name, list[i].1);
      if k.Some? {
        if k.value in seen {
          RepeatBreaks(list, name, docs, i);
          return false;
        }
        seen := seen + {k.value};
      }
      assert NewKey(list, name, i);
      forall x
        ensures ListedBefore(list, name, i + 1, x) <==> ListedBefore(list, name, i, x) || k == Some(x)
      {
        ListedStep(list, name, i, x);
      }
    }
    DistinctIsUnique(list, name, docs);
    return true;
  }

  ghost predicate ListedBefore(list: seq<(DocId, Document)>, name: Name, i: nat, k: Bytes)
    requires i <= |list|
  {
    exists j :: 0 <= j < i && KeyFor(name, list[j].1) == Some(k)
  }

  ghost predicate NewKey(list: seq<(DocId, Document)>, name: Name, i: nat)
    requires i < |list|
  {
    KeyFor(name, list[i].1).Some? ==> !ListedBefore(list, name, i, KeyFor(name, list[i].1).value)
  }

  lemma ListedStep(list: seq<(DocId, Document)>, name: Name, i: nat, k: Bytes)
    requires i < |list|
    ensures ListedBefore(list, name, i + 1, k) <==> ListedBefore(list, name, i, k) || KeyFor(name, list[i].1) == Some(k)
  {
    hide KeyFor;
  }

  lemma RepeatBreaks(list: seq<(DocId, Document)>, name: Name, docs: Docs, i: nat)
    requires Listing(list, docs) && i < |list| && !NewKey(list, name, i)
    ensures !Unique(docs, name)
  {
    hide KeyFor;
    var k := KeyFor(name, list[i].1).value;
    var j :| 0 <= j < i && KeyFor(name, list[j].1) == Some(k);
    assert (list[i].0, list[i].1) in list && (list[j].0, list[j].1) in list;
    assert ClashesWith(docs, name, docs[list[i].0].value, Some(list[i].0), list[j].0);
    assert Clash(docs, name, docs[list[i].0].value, Some(list[i].0));
  }

  lemma DistinctIsUnique(list: seq<(DocId, Document)>, name: Name, docs: Docs)
    requires Listing(list, docs) && forall j :: 0 <= j < |list| ==> NewKey(list, name, j)
    ensures Unique(docs, name)
  {
    hide KeyFor;
    forall a, b | Indexes.Live(docs, a) && KeyFor(name, docs[a].value).Some?
      ensures !ClashesWith(docs, name, docs[a].value, Some(a), b)
    {
      if Indexes.Live(docs, b) && a != b {
        assert (a, docs[a].value) in list && (b, docs[b].value) in list;
        var i :| 0 <= i < |list| && list[i] == (a, docs[a].value);
        var j :| 0 <= j < |list| && list[j] == (b, docs[b].value);
        assert NewKey(list, name, i) && NewKey(list, name, j);
        assert i != j;
      }
    }
  }

  ghost function ListedDocs(list: seq<(DocId, Document)>, m: nat): Docs
    requires m <= |list|
  {
    if m == 0 then imap[] else ListedDocs(list, m - 1)[list[m - 1].0 := Some(list[m - 1].1)]
  }

  lemma NothingListed(name: Name)
    ensures InStep(imap[], name, [])
  {
  }

  lemma {:induction false} ListedIs(list: seq<(DocId, Document)>, m: nat, d: DocId)
    requires m <= |list| && forall i, j :: 0 <= i < j < |list| ==> list[i].0 != list[j].0
    ensures d in ListedDocs(list, m) <==> exists i :: 0 <= i < m && list[i].0 == d
    ensures forall i :: 0 <= i < m && list[i].0 == d ==> d in ListedDocs(list, m) && ListedDocs(list, m)[d] == Some(list[i].1)
  {
    if m == 0 {
    } else {
      ListedIs(list, m - 1, d);
    }
  }

  lemma NotListedYet(list: seq<(DocId, Document)>, docs: Docs, i: nat)
    requires Listing(list, docs) && i < |list|
    ensures list[i].0 !in ListedDocs(list, i)
  {
    hide ListedDocs;
    ListedIs(list, i, list[i].0);
  }

  lemma AllListed(list: seq<(DocId, Document)>, docs: Docs, name: Name, slots: seq<Slot>)
    requires Listing(list, docs) && InStep(ListedDocs(list, |list|), name, slots)
    ensures InStep(docs, name, slots)
  {
    hide ListedDocs, KeyFor, Ordered;
    var all := ListedDocs(list, |list|);
    forall d: DocId
      ensures Indexes.Live(docs, d) <==> Indexes.Live(all, d)
      ensures Indexes.Live(docs, d) ==> docs[d] == all[d]
    {
      ListedIs(list, |list|, d);
      if Indexes.Live(docs, d) {
        assert (d, docs[d].value) in list;
        var i :| 0 <= i < |list| && list[i] == (d, docs[d].value);
      }
      if d in all {
        var i :| 0 <= i < |list| && list[i].0 == d;
        assert (d, list[i].1) in list;
      }
    }
    forall s
      ensures s in slots <==> HasKey(docs, name, s)
    {
      assert HasKey(docs, name, s) == HasKey(all, name, s);
    }
  }

  lemma FindIn(slots: seq<Slot>, key: Bytes)
    ensures Find(slots, key).Some? ==> Slot(key, Find(slots, key).value) in slots
  {
  }

  /** The document an upsert writes: the new fields over the old ones. */
  ghost function Merged(docs: Docs, t: Option<DocId>, d: Document): Document {
    if t.Some? && Indexes.Live(docs, t.value) then docs[t.value].value + d else d
  }

  /** One document is gone, if there was one to replace, and e is stored under an id never used before. */
  ghost predicate Replaces(docs: Docs, t: Option<DocId>, e: Document, docs': Docs) {
    exists id :: id !in docs && docs' == (if t.Some? then docs[t.value := None] else docs)[id := Some(e)]
  }

  /** A lookup that finds nothing means that no live document has the value; one that finds something finds a live one. */
  lemma FindMeans(docs: Docs, field: Text, tables: map<Name, seq<Slot>>, unique: set<Name>, value: Value)
    requires Consistent(docs, tables, unique) && [field] in tables && Indexable(value)
    ensures var t := Find(tables[[field]], SerializeKey(value).value);
      && (t.Some? ==> Live(docs, t.value))
      && (t.None? ==> forall id :: Live(docs, id) && field in docs[id].value ==> docs[id].value[field] != value)
  {
    hide SerializeKey, Ordered, AllKeyable, Unique;
    var slots := tables[[field]];
    assert InStep(docs, [field], slots);
    FindIn(slots, SerializeKey(value).value);
    if Find(slots, SerializeKey(value).value).None? {
      forall id | Live(docs, id) && field in docs[id].value
        ensures docs[id].value[field] != value
      {
        var s := Slot(SerializeKey(value).value, id);
        assert s !in slots;
        assert !HasKey(docs, [field], s);
      }
    }
  }

  lemma OneIsBatch(docs: Docs, unique: set<Name>, d: Document)
    ensures BatchOk(docs, unique, [d]) <==> forall n :: n in unique ==> !Clash(docs, n, d, None)
  {
    hide Clash, KeyFor;
    forall n
      ensures NameOk(docs, n, [d]) <==> !Clash(docs, n, d, None)
    {
      assert FreshKey(docs, n, [d], 0) <==> !Clash(docs, n, d, None);
    }
  }

  lemma OneInserted(docs: Docs, d: Document, ids: seq<DocId>)
    requires |ids| == 1 && NewIds(docs, ids, [d])
    ensures ids[0] !in docs && Extend(docs, ids, [d], 1) == docs[ids[0] := Some(d)]
  {
    assert NewId(docs, ids, [d], 0);
    ExtendNone(docs, ids, [d]);
    ExtendLast(docs, ids, [d], 0);
  }

  lemma ErasedOne(docs: Docs, id: DocId)
    requires id in docs
    ensures Erased(docs, [id]) == docs[id := None]
  {
  }

  lemma GoneAlready(docs: Docs, id: DocId)
    requires !Indexes.Live(docs, id)
    ensures id in docs ==> docs[id := None] == docs
  {
  }

  lemma NoNewIds(docs: Docs, batch: seq<Document>)
    ensures NewIds(docs, [], batch)
  {
  }

  lemma NoKeyNoClash(docs: Docs, n: Name, d: Document, except: Option<DocId>)
    requires KeyFor(n, d).None?
    ensures !Clash(docs, n, d, except)
  {
  }

  lemma SeenStep(batch: seq<Document>, i: nat, n: Name, k: Bytes)
    requires i < |batch|
    ensures Seen(batch, i + 1, n, k) <==> Seen(batch, i, n, k) || KeyFor(n, batch[i]) == Some(k)
  {
    hide KeyFor;
  }

  // room on the published root pages

  /** Bytes the document's entry takes up, if it has one. */
  function KeySize(n: Name, d: Document): nat {
    if KeyFor(n, d).None? then 0 else LEAF_SLOT + |KeyFor(n, d).value|
  }

  /** The entry fits an empty page; the code has nothing to split off one that does not. */
  predicate KeyFits(n: Name, d: Document) { RoomFor([], KeySize(n, d)) }

  function BatchSize(n: Name, batch: seq<Document>, m: nat): nat
    requires m <= |batch|
  {
    if m == 0 then 0 else BatchSize(n, batch, m - 1) + KeySize(n, batch[m - 1])
  }

  /** Every index has room on its page for the keys the batch adds. */
  ghost predicate BatchFits(tables: map<Name, seq<Slot>>, batch: seq<Document>) {
    forall n :: n in tables ==> RoomIn(tables[n], n, batch)
  }

  ghost predicate RoomIn(slots: seq<Slot>, n: Name, batch: seq<Document>) {
    RoomFor(slots, BatchSize(n, batch, |batch|))
  }

  lemma {:induction false} BatchSizeGrows(n: Name, batch: seq<Document>, i: nat, j: nat)
    requires i <= j <= |batch|
    ensures BatchSize(n, batch, i) <= BatchSize(n, batch, j)
  {
    hide KeySize;
    if i == j {
    } else {
      BatchSizeGrows(n, batch, i, j - 1);
    }
  }

  lemma WithDocSize(n: Name, slots: seq<Slot>, d: Document, id: DocId)
    ensures SlotsSize(WithDoc(n, slots, d, id)) == SlotsSize(slots) + KeySize(n, d)
  {
    hide KeyFor, SlotsSize, Place;
    var k := KeyFor(n, d);
    if k.Some? {
      PlaceSize(slots, Slot(k.value, id));
    }
  }

  // an index that has lost entries

  /** A live document has a key that is not among the slots. */
  ghost predicate Misses(docs: Docs, n: Name, slots: seq<Slot>) {
    exists s :: HasKey(docs, n, s) && s !in slots
  }

  /** The lower half of an index in step has lost the slot in the middle. */
  lemma MiddleLost(docs: Docs, n: Name, slots: seq<Slot>)
    requires InStep(docs, n, slots) && |slots| > 0
    ensures HasKey(docs, n, slots[|slots| / 2]) && slots[|slots| / 2] !in slots[..|slots| / 2]
  {
    hide KeyFor, Before;
    var mid := |slots| / 2;
    forall j | 0 <= j < mid
      ensures slots[j] != slots[mid]
    {
      assert Before(slots[j], slots[mid]);
      BeforeTotal(slots[j], slots[mid]);
    }
    assert slots[mid] in slots;
  }

  /** Documents stored later do not take a key away. */
  lemma {:induction false} StillHasKey(docs: Docs, ids: seq<DocId>, batch: seq<Document>, i: nat, m: nat, n: Name, s: Slot)
    requires i <= m <= |batch| == |ids| && NewIds(docs, ids, batch) && HasKey(Extend(docs, ids, batch, i), n, s)
    ensures HasKey(Extend(docs, ids, batch, m), n, s)
    decreases m - i
  {
    hide KeyFor, Extend;
    if i == m {
    } else {
      assert NewId(docs, ids, batch, i);
      ExtendLast(docs, ids, batch, i);
      StillHasKey(docs, ids, batch, i + 1, m, n, s);
    }
  }
}
