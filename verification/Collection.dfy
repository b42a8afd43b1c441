/** src/document/collection.rs: a heap whose records are documents. */
module Collections {
  import opened Bytes
  import opened Disk
  import opened Pool
  import opened Nodes
  import opened Layout
  import opened Slotted
  import opened Heap
  import opened Values
  import opened Format
  import opened Orders
  import DocCodec

  /** The bytes are one stored document and nothing more. */
  ghost predicate Sound(b: Bytes) {
    exists fs :: b == EncodeBody(fs) && |fs| < LIMIT && SmallFields(fs)
  }

  ghost function Decoded(b: Bytes): Document {
    var p := ParseBody(false, b);
    if p.Ok? then ForgetFields(p.value) else map[]
  }

  lemma DecodedIs(b: Bytes, fs: seq<Field>)
    requires b == EncodeBody(fs) && |fs| < LIMIT && SmallFields(fs)
    ensures Sound(b) && Decoded(b) == ForgetFields(fs)
  {
    hide EncodeBody, SmallFields, ParseBody;
    RoundTripBody(false, fs, []);
    assert b + [] == b;
  }

  /** What fits a record has lengths that fit their length fields. */
  lemma {:induction false} ShortIsSmall(t: Term)
    requires |Encode(t)| < LIMIT
    ensures Small(t)
    decreases t, 1
  {
    hide LE;
    match t
    case TArray(items) => ShortItems(items);
    case TDoc(fields) => ShortFields(fields);
    case _ =>
  }

  lemma {:induction false} ShortItems(ts: seq<Term>)
    requires |EncodeItems(ts)| < LIMIT
    ensures SmallItems(ts)
    decreases ts, 0
  {
    hide Encode, Small;
    if |ts| == 0 {
    } else {
      ShortIsSmall(ts[0]);
      ShortItems(ts[1..]);
    }
  }

  lemma {:induction false} ShortFields(fs: seq<Field>)
    requires |EncodeFields(fs)| < LIMIT
    ensures SmallFields(fs)
    decreases fs, 0
  {
    hide Encode, Small;
    if |fs| == 0 {
    } else {
      ShortIsSmall(fs[0].value);
      ShortFields(fs[1..]);
    }
  }

  /** In no field order is the document larger than a record may be. */
  ghost predicate FitsRecord(d: Document) {
    forall fs :: Lists(TDoc(fs), Doc(d)) ==> |EncodeBody(fs)| <= MAX_RECORD
  }

  /** Every id ever issued, with its document or None once it is deleted. */
  ghost function Content(records: imap<DocId, Option<Bytes>>): imap<DocId, Option<Document>> {
    imap d | d in records :: if records[d].None? then None else Some(Decoded(records[d].value))
  }

  ghost predicate AllSound(records: imap<DocId, Option<Bytes>>) {
    forall d :: d in records && records[d].Some? ==> Sound(records[d].value)
  }

  lemma ContentInsert(records: imap<DocId, Option<Bytes>>, id: DocId, b: Bytes)
    requires AllSound(records) && Sound(b)
    ensures AllSound(records[id := Some(b)]) && Content(records[id := Some(b)]) == Content(records)[id := Some(Decoded(b))]
  {
    hide Sound, Decoded;
  }

  lemma ContentDelete(records: imap<DocId, Option<Bytes>>, id: DocId)
    requires AllSound(records)
    ensures AllSound(records[id := None]) && Content(records[id := None]) == Content(records)[id := None]
  {
    hide Sound, Decoded;
  }

  class Collection {
    const pool: BufferPool<Page>
    const heap: HeapFile
    ghost var chain: seq<PageId>

    ghost predicate Valid()
      reads this, pool, pool.disk, heap
    {
      && pool.Valid() && HeapOk(pool.View(), chain) && heap.Attached(chain)
      && AllSound(Docs(pool.View(), chain))
    }

    ghost function Stored(): imap<DocId, Option<Document>>
      reads this, pool, pool.disk, heap
      requires Valid()
    {
      Content(Docs(pool.View(), chain))
    }

    constructor (pool: BufferPool<Page>, heap: HeapFile, ghost chain: seq<PageId>)
      ensures this.pool == pool && this.heap == heap && this.chain == chain
    {
      this.pool := pool;
      this.heap := heap;
      this.chain := chain;
    }

    /** Serializes the document and appends it as one record. */
    method Insert(d: Document) returns (id: DocId)
      requires Valid() && FitsRecord(d) && |pool.disk.file| < NO_NEXT
      modifies this, pool, pool.disk, heap
      ensures Valid() && id !in old(Stored()) && Stored() == old(Stored())[id := Some(d)]
      ensures |pool.disk.file| <= old(|pool.disk.file|) + 1 && old(chain) <= chain
      ensures forall p :: p in chain ==> p in old(chain) || p !in old(pool.View())
      ensures forall p :: p in old(pool.View()) && p !in old(chain) ==> p in pool.View() && pool.View()[p] == old(pool.View())[p]
    {
      hide Flat, Pool.Inv, Packed, LastAccess, HeapOk, Docs, pool.Valid, AllSound, Content, EncodeBody, Sound, Decoded;
      var b, fs := DocCodec.SerializeDocument(d);
      BodyIsShort(d, fs);
      DecodedIs(b, fs);
      ghost var before := Docs(pool.View(), chain);
      ContentKeys(before);
      id, chain := heap.Insert(pool, b, chain);
      ContentInsert(before, id, b);
    }

    method Get(id: DocId) returns (d: Option<Document>)
      requires Valid() && id.0 in chain
      modifies pool, pool.disk
      ensures Valid() && pool.View() == old(pool.View()) && Stored() == old(Stored()) && |pool.disk.file| == old(|pool.disk.file|)
      ensures d == if id in Stored() then Stored()[id] else None
    {
      hide Flat, Pool.Inv, Packed, LastAccess, HeapOk, Docs, pool.Valid, EncodeBody, SmallFields, ParseBody;
      var b := heap.Read(pool, id, chain);
      if b.None? {
        return None;
      }
      assert Sound(b.value);
      ghost var fs :| b.value == EncodeBody(fs) && |fs| < LIMIT && SmallFields(fs);
      DecodedIs(b.value, fs);
      var r := DocCodec.DeserializeDocument(b.value);
      d := Some(r.value);
    }

    method Delete(id: DocId)
      requires Valid() && id.0 in chain
      modifies pool, pool.disk
      ensures Valid() && |pool.disk.file| == old(|pool.disk.file|)
      ensures Stored() == if id in old(Stored()) then old(Stored())[id := None] else old(Stored())
      ensures forall p :: p in old(pool.View()) && p !in chain ==> p in pool.View() && pool.View()[p] == old(pool.View())[p]
    {
      hide Flat, Pool.Inv, Packed, LastAccess, HeapOk, Docs, pool.Valid, AllSound, Content;
      ghost var before := Docs(pool.View(), chain);
      ContentKeys(before);
      heap.Delete(pool, id, chain);
      ContentDelete(before, id);
    }

    /** Every live document exactly once. */
    method Scan() returns (out: seq<(DocId, Document)>)
      requires Valid()
      modifies pool, pool.disk
      ensures Valid() && pool.View() == old(pool.View()) && Stored() == old(Stored()) && |pool.disk.file| == old(|pool.disk.file|)
      ensures Listing(out, Stored()) && out == DecodedAll(Heap.Scan(pool.View(), chain, |chain|))
    {
      hide Flat, Pool.Inv, Packed, LastAccess, HeapOk, Docs, pool.Valid, Sound, Decoded, Listing, Content;
      var recs := heap.ScanAll(pool, chain);
      ghost var records := Docs(pool.View(), chain);
      forall i | 0 <= i < |recs|
        ensures Sound(recs[i].1)
      {
        assert (recs[i].0, recs[i].1) in recs;
      }
      out := DecodeAll(recs);
      DecodedListing(records, recs, out);
    }

    /** The live documents of one page of the chain, and the page it links to. */
    method ScanPage(id: PageId) returns (out: seq<(DocId, Document)>, next: Option<PageId>)
      requires Valid() && id in chain
      modifies pool, pool.disk
      ensures Valid() && pool.View() == old(pool.View()) && |pool.disk.file| == old(|pool.disk.file|)
      ensures id in pool.View() && PageOk(pool.View()[id]) && out == DecodedAll(PageScan(id, pool.View()[id]))
      ensures var n := Slotted.Next(pool.View()[id]); next == if n == NO_NEXT then None else Some(n)
    {
      hide Flat, Pool.Inv, Packed, LastAccess, HeapOk, Docs, pool.Valid, Sound, Decoded, PageOk, PageScan, Slotted.Next;
      ghost var view := pool.View();
      InChain(view, chain, id);
      var recs, link := heap.ScanPage(pool, id);
      PageSound(view, chain, id);
      out := DecodeAll(recs);
      next := link;
    }
  }

  /** What a page lists is sound if the heap is. */
  lemma PageSound(view: map<PageId, Page>, chain: seq<PageId>, id: PageId)
    requires HeapOk(view, chain) && AllSound(Docs(view, chain)) && id in chain && id in view && PageOk(view[id])
    ensures var recs := PageScan(id, view[id]); forall i :: 0 <= i < |recs| ==> Sound(recs[i].1)
  {
    hide Sound, PageOk, HeapOk, LiveRecords, Records, SlotCount;
    RecordsLength(view[id]);
    PageScanExact(id, Records(view[id]), SlotCount(view[id]));
    var recs := PageScan(id, view[id]);
    forall i | 0 <= i < |recs|
      ensures Sound(recs[i].1)
    {
      var d, b := recs[i].0, recs[i].1;
      assert (d, b) in recs;
      assert Docs(view, chain)[d] == Some(b);
    }
  }

  /** The documents of a list of records. */
  ghost function DecodedAll(recs: seq<(DocId, Bytes)>): (out: seq<(DocId, Document)>)
    ensures |out| == |recs|
  {
    seq(|recs|, i requires 0 <= i < |recs| => (recs[i].0, Decoded(recs[i].1)))
  }

  /** The list holds each live document once, and nothing else. */
  ghost predicate Listing(out: seq<(DocId, Document)>, docs: imap<DocId, Option<Document>>) {
    && (forall i, j :: 0 <= i < j < |out| ==> out[i].0 != out[j].0)
    && (forall d: DocId, x :: (d, x) in out <==> d in docs && docs[d] == Some(x))
  }

  method DecodeAll(recs: seq<(DocId, Bytes)>) returns (out: seq<(DocId, Document)>)
    requires forall i :: 0 <= i < |recs| ==> Sound(recs[i].1)
    ensures out == DecodedAll(recs)
  {
    hide EncodeBody, SmallFields, ParseBody, Decoded;
    out := [];
    for k := 0 to |recs|
      invariant |out| == k
      invariant forall i :: 0 <= i < k ==> out[i] == (recs[i].0, Decoded(recs[i].1))
    {
      assert Sound(recs[k].1);
      ghost var fs :| recs[k].1 == EncodeBody(fs) && |fs| < LIMIT && SmallFields(fs);
      DecodedIs(recs[k].1, fs);
      var r := DocCodec.DeserializeDocument(recs[k].1);
      out := out + [(recs[k].0, r.value)];
    }
  }

  lemma DecodedListing(records: imap<DocId, Option<Bytes>>, recs: seq<(DocId, Bytes)>, out: seq<(DocId, Document)>)
    requires Once(recs) && forall d: DocId, b :: (d, b) in recs <==> d in records && records[d] == Some(b)
    requires out == DecodedAll(recs)
    ensures Listing(out, Content(records))
  {
    hide Decoded;
    var docs := Content(records);
    forall d: DocId, x
      ensures (d, x) in out <==> d in docs && docs[d] == Some(x)
    {
      if (d, x) in out {
        var i :| 0 <= i < |out| && out[i] == (d, x);
        assert (recs[i].0, recs[i].1) in recs;
      }
      if d in docs && docs[d] == Some(x) {
        assert (d, records[d].value) in recs;
        var i :| 0 <= i < |recs| && recs[i] == (d, records[d].value);
        assert out[i] == (d, x);
      }
    }
  }

  lemma ContentKeys(records: imap<DocId, Option<Bytes>>)
    ensures forall d :: d in Content(records) <==> d in records
  {
  }

  lemma BodyIsShort(d: Document, fs: seq<Field>)
    requires FitsRecord(d) && Lists(TDoc(fs), Doc(d))
    ensures 0 < |EncodeBody(fs)| <= MAX_RECORD && |fs| < LIMIT && SmallFields(fs) && ForgetFields(fs) == d
  {
    hide EncodeFields, LE;
    EncodeFieldsLength(fs);
    ShortFields(fs);
  }

  lemma EncodeFieldsLength(fs: seq<Field>)
    ensures |fs| <= |EncodeFields(fs)|
  {
  }

  // strings of stored documents

  /** Every string in a field of the document is shorter than a page. */
  ghost predicate Short(d: Document) {
    forall f :: f in d && d[f].Str? ==> |d[f].s| < PAGE_SIZE
  }

  lemma StringIsPart(t: Term)
    requires Format.Forget(t).Str?
    ensures |Format.Forget(t).s| < |Encode(t)|
  {
    hide LE;
  }

  lemma {:induction false} EncodeFieldsPart(fs: seq<Field>, i: nat)
    requires i < |fs|
    ensures |Encode(fs[i].value)| <= |EncodeFields(fs)|
  {
    hide Encode, LE;
    if i > 0 {
      EncodeFieldsPart(fs[1..], i - 1);
    }
  }

  /** The value of a field is that of one of the listed ones. */
  lemma {:induction false} FieldComesFrom(fs: seq<Field>, k: Text) returns (i: nat)
    requires k in ForgetFields(fs)
    ensures i < |fs| && ForgetFields(fs)[k] == Format.Forget(fs[i].value)
  {
    hide Format.Forget;
    var n := |fs| - 1;
    if fs[n].key == k {
      i := n;
    } else {
      i := FieldComesFrom(fs[..n], k);
    }
  }

  lemma BodyIsShorter(fs: seq<Field>)
    requires |EncodeBody(fs)| <= PAGE_SIZE
    ensures Short(ForgetFields(fs))
  {
    hide Format.Forget, Encode, LE, EncodeFields, ForgetFields;
    var d := ForgetFields(fs);
    forall f | f in d && d[f].Str?
      ensures |d[f].s| < PAGE_SIZE
    {
      var i := FieldComesFrom(fs, f);
      StringIsPart(fs[i].value);
      EncodeFieldsPart(fs, i);
    }
  }

  lemma SoundIsShort(b: Bytes)
    requires Sound(b) && |b| <= PAGE_SIZE
    ensures Short(Decoded(b))
  {
    hide EncodeBody, SmallFields, ForgetFields, Short, Decoded;
    var fs :| b == EncodeBody(fs) && |fs| < LIMIT && SmallFields(fs);
    DecodedIs(b, fs);
    BodyIsShorter(fs);
  }

  lemma FitsIsShort(d: Document)
    requires FitsRecord(d)
    ensures Short(d)
  {
    hide EncodeBody, ForgetFields, Short, Lists;
    CanonicalOrders(Doc(d));
    var t := Canonical(Doc(d));
    TermOfDoc(t, d);
    BodyIsShorter(t.fields);
  }

  lemma TermOfDoc(t: Term, d: Document)
    requires Lists(t, Doc(d))
    ensures t.TDoc? && ForgetFields(t.fields) == d
  {
  }

  /** So are those of every document in a heap. */
  lemma HeapIsShort(view: map<PageId, Page>, chain: seq<PageId>)
    requires HeapOk(view, chain) && AllSound(Docs(view, chain))
    ensures var docs := Content(Docs(view, chain)); forall id :: id in docs && docs[id].Some? ==> Short(docs[id].value)
  {
    hide HeapOk, Sound, Decoded, Short, PageOk;
    var records := Docs(view, chain);
    forall id | id in records && records[id].Some?
      ensures Short(Decoded(records[id].value))
    {
      InChain(view, chain, id.0);
      RecordOnPage(view[id.0], id.1);
      SoundIsShort(records[id].value);
    }
  }

  lemma RecordOnPage(p: Page, i: nat)
    requires PageOk(p) && i < SlotCount(p) && Records(p)[i].Some?
    ensures |Records(p)[i].value| <= PAGE_SIZE
  {
    assert RecordInside(p, i);
  }
}
