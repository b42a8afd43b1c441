/** src/query/executor.rs: what the two leaves of a plan read, on the pages of a database. */
module Leaves {
  import opened Disk
  import opened Pool
  import opened Nodes
  import opened Layout
  import opened Slotted
  import opened Heap
  import opened Values
  import opened KeyOrder
  import opened Collections
  import opened Indexes
  import opened Tables
  import opened Databases
  import opened Plans

  function StoredRows(list: seq<(DocId, Document)>): (rows: seq<Row>)
    ensures |rows| == |list| && forall i :: 0 <= i < |list| ==> rows[i] == Row(Some(list[i].0), list[i].1)
  {
    seq(|list|, i requires 0 <= i < |list| => Row(Some(list[i].0), list[i].1))
  }

  /** Page i of a chain, as the live documents in its bytes. */
  ghost function PageAt(view: View, chain: seq<PageId>, i: nat): StoredPage
    requires HeapOk(view, chain) && i < |chain|
  {
    LinkAt(view, chain, i);
    StoredPage(chain[i], StoredRows(DecodedAll(PageScan(chain[i], view[chain[i]]))))
  }

  ghost function PagesAt(view: View, chain: seq<PageId>): (pages: seq<StoredPage>)
    requires HeapOk(view, chain)
    ensures |pages| == |chain| && forall i :: 0 <= i < |chain| ==> pages[i] == PageAt(view, chain, i)
  {
    seq(|chain|, i requires 0 <= i < |chain| => PageAt(view, chain, i))
  }

  // streaming against scan_all

  /** Where the first k pages of a scan_all end, the stream goes on with page k. */
  lemma {:induction false} StreamRest(view: View, chain: seq<PageId>, k: nat)
    requires HeapOk(view, chain) && k <= |chain|
    ensures StoredRows(DecodedAll(Heap.Scan(view, chain, |chain|))) ==
            StoredRows(DecodedAll(Heap.Scan(view, chain, k))) + PagesFrom(PagesAt(view, chain), k)
    decreases |chain| - k
  {
    hide HeapOk, PageScan, Decoded, Heap.Scan;
    if k == |chain| {
    } else {
      StreamRest(view, chain, k + 1);
      ScanStep(view, chain, k);
      var page := PageAt(view, chain, k).rows;
      assert StoredRows(DecodedAll(Heap.Scan(view, chain, k))) + page + PagesFrom(PagesAt(view, chain), k + 1) ==
             StoredRows(DecodedAll(Heap.Scan(view, chain, k))) + (page + PagesFrom(PagesAt(view, chain), k + 1));
    }
  }

  lemma ScanStep(view: View, chain: seq<PageId>, k: nat)
    requires HeapOk(view, chain) && k < |chain|
    ensures StoredRows(DecodedAll(Heap.Scan(view, chain, k + 1))) ==
            StoredRows(DecodedAll(Heap.Scan(view, chain, k))) + PageAt(view, chain, k).rows
  {
    hide HeapOk, PageScan, Decoded;
    LinkAt(view, chain, k);
  }

  /** The pages one after the other are exactly scan_all, document by document. */
  lemma StreamIsScanAll(view: View, chain: seq<PageId>)
    requires HeapOk(view, chain)
    ensures PagesFrom(PagesAt(view, chain), 0) == StoredRows(DecodedAll(Heap.Scan(view, chain, |chain|)))
  {
    hide HeapOk, PagesAt, PagesFrom;
    StreamRest(view, chain, 0);
    assert DecodedAll(Heap.Scan(view, chain, 0)) == [];
    assert StoredRows([]) + PagesFrom(PagesAt(view, chain), 0) == PagesFrom(PagesAt(view, chain), 0);
  }

  /** The link of page k is page k + 1, and the last page has none. */
  lemma LinkIsNextPage(view: View, chain: seq<PageId>, k: nat)
    requires HeapOk(view, chain) && k < |chain|
    ensures chain[k] in view && PageOk(view[chain[k]]) && chain[k] in chain
    ensures var n := Slotted.Next(view[chain[k]]);
      (if n == NO_NEXT then None else Some(n)) == if k + 1 < |chain| then Some(chain[k + 1]) else None
  {
    hide HeapOk, PageOk, Slotted.Next;
    LinkAt(view, chain, k);
  }

  // the state of all collections

  /** The collections by name, all in the pages of one pool. */
  datatype Env = Env(pool: BufferPool<Page>, dbs: map<Text, Database>, platform: Platform)

  /** What the catalog keeps of a collection, and the pages of its chain. */
  datatype Entry = Entry(chain: seq<PageId>, root: PageId, indexes: map<Name, PageId>, unique: set<Name>)

  ghost function EntryOf(db: Database): Entry
    reads db
  {
    Entry(db.chain, db.root, db.indexes, db.unique)
  }

  ghost function Entries(env: Env): map<Text, Entry>
    reads env.dbs.Values
  {
    map c | c in env.dbs :: EntryOf(env.dbs[c])
  }

  ghost predicate EntryOk(view: View, e: Entry) { Coherent(view, e.chain, e.root, e.indexes, e.unique) }

  ghost predicate AllOk(view: View, entries: map<Text, Entry>) {
    forall c :: c in entries ==> EntryOk(view, entries[c])
  }

  ghost function EntryPages(view: View, e: Entry): seq<StoredPage>
    requires EntryOk(view, e)
  {
    PagesAt(view, e.chain)
  }

  ghost function EntryTables(view: View, e: Entry): map<Name, seq<Slot>>
    requires EntryOk(view, e)
  {
    TablesAt(view, e.indexes)
  }

  /** What the operators read of the pages as they are. */
  ghost function ContextAt(view: View, entries: map<Text, Entry>, platform: Platform): Context
    requires AllOk(view, entries)
  {
    Context(map c | c in entries :: EntryPages(view, entries[c]), map c | c in entries :: DocsAt(view, entries[c].chain),
            map c | c in entries :: EntryTables(view, entries[c]), platform)
  }

  ghost predicate EnvOk(env: Env)
    reads env.pool, env.pool.disk, env.dbs.Values
  {
    env.pool.Valid() && AllOk(env.pool.View(), Entries(env)) && forall c :: c in env.dbs ==> env.dbs[c].pool == env.pool
  }

  ghost predicate Serves(env: Env, ctx: Context)
    reads env.pool, env.pool.disk, env.dbs.Values
  {
    EnvOk(env) && ctx == ContextOf(env)
  }

  ghost function ContextOf(env: Env): Context
    reads env.pool, env.pool.disk, env.dbs.Values
    requires EnvOk(env)
  {
    ContextAt(env.pool.View(), Entries(env), env.platform)
  }

  lemma ContextIsOk(view: View, entries: map<Text, Entry>, platform: Platform)
    requires AllOk(view, entries)
    ensures ContextOk(ContextAt(view, entries, platform))
  {
    hide PageAt, Consistent, LinkOk, Published, AllSound, Heap.Docs, TablesAt, DocsAt;
    var ctx := ContextAt(view, entries, platform);
    forall c | c in ctx.pages
      ensures DistinctPages(ctx.pages[c]) && |ctx.pages[c]| > 0
    {
      assert EntryOk(view, entries[c]);
      PagesDistinct(view, entries[c].chain);
    }
  }

  lemma PagesDistinct(view: View, chain: seq<PageId>)
    requires HeapOk(view, chain)
    ensures DistinctPages(PagesAt(view, chain)) && |PagesAt(view, chain)| > 0
  {
    hide LinkOk, PageScan, DecodedAll;
  }

  // the reads

  /** The context of one collection. */
  lemma ServesAt(env: Env, ctx: Context, c: Text)
    requires Serves(env, ctx) && c in env.dbs
    ensures var db, view := env.dbs[c], env.pool.View();
      && db.pool == env.pool && Coherent(view, db.chain, db.root, db.indexes, db.unique)
      && c in ctx.pages && ctx.pages[c] == PagesAt(view, db.chain)
      && c in ctx.docs && ctx.docs[c] == DocsAt(view, db.chain)
      && c in ctx.tables && ctx.tables[c] == TablesAt(view, db.indexes)
  {
    hide Flat, Pool.Inv, Packed, LastAccess, env.pool.Valid, HeapAt, Published, Consistent, PagesAt, DocsAt, TablesAt;
    assert EntryOk(env.pool.View(), Entries(env)[c]);
  }

  lemma ServesOnly(env: Env, ctx: Context)
    requires Serves(env, ctx)
    ensures EnvOk(env) && env.pool.Valid() && ctx.platform == env.platform && ContextOk(ctx)
    ensures ctx.pages.Keys == env.dbs.Keys && ctx.docs.Keys == env.dbs.Keys && ctx.tables.Keys == env.dbs.Keys
  {
    hide Flat, Pool.Inv, Packed, LastAccess, env.pool.Valid, EntryOk, DocsAt, EntryPages, EntryTables, ContextOk;
    ContextIsOk(env.pool.View(), Entries(env), env.platform);
  }

  /** A fresh sequential scan yields exactly what scan_collection lists, in its order. */
  lemma SeqScanIsScanAll(env: Env, c: Text)
    requires EnvOk(env) && c in env.dbs
    ensures var db, view := env.dbs[c], env.pool.View();
      && HeapOk(view, db.chain)
      && TraceOf(ContextOf(env), SeqScan(c, None, [], false)) == Trace(StoredRows(DecodedAll(Heap.Scan(view, db.chain, |db.chain|))), None)
  {
    hide Flat, Pool.Inv, Packed, LastAccess, env.pool.Valid, AllOk, ContextAt, EntryOf, HeapOk, AllSound, Heap.Docs, Published,
         Consistent, PagesAt, DocsAt, TablesAt, PagesFrom, DecodedAll, Heap.Scan;
    var ctx := ContextOf(env);
    ServesAt(env, ctx, c);
    StreamIsScanAll(env.pool.View(), env.dbs[c].chain);
    var rows := PagesFrom(ctx.pages[c], 0);
    assert [] + rows == rows;
  }

  /** The page a cursor stands on, in the chain, and what a scan is after reading it. */
  lemma CursorPage(view: View, chain: seq<PageId>, root: PageId, ctx: Context, scan: Plans.Op)
    requires HeapOk(view, chain) && |chain| > 0 && chain[0] == root && scan.SeqScan? && scan.collection in ctx.pages
    requires ctx.pages[scan.collection] == PagesAt(view, chain) && CursorAt(PagesAt(view, chain), scan.cursor) < |chain|
    ensures var page := if scan.cursor.None? then root else scan.cursor.value;
      && page in chain && page in view && PageOk(view[page])
      && var n := Slotted.Next(view[page]);
        NextPage(ctx, scan) ==
        SeqScan(scan.collection, if n == NO_NEXT then None else Some(n), StoredRows(DecodedAll(PageScan(page, view[page]))), true)
  {
    hide HeapOk, PageScan, DecodedAll, PageOk, Slotted.Next;
    LinkIsNextPage(view, chain, CursorAt(PagesAt(view, chain), scan.cursor));
  }

  lemma RangeRead(ctx: Context, collection: Text, field: Text, low: Value, high: Value, list: seq<(DocId, Document)>)
    requires collection in ctx.docs && collection in ctx.tables && [field] in ctx.tables[collection] && Indexable(low) && Indexable(high)
    requires Fetched(ctx.docs[collection], Range(ctx.tables[collection][[field]], SerializeKey(low).value, SerializeKey(high).value), list)
    ensures RangeTrace(ctx, collection, field, low, high) == Trace(StoredRows(list), None)
  {
    hide SerializeKey, Range;
    var ids := Range(ctx.tables[collection][[field]], SerializeKey(low).value, SerializeKey(high).value);
    assert StoredRows(list) == RowsAt(ctx.docs[collection], ids);
  }

  lemma RangeRefused(ctx: Context, collection: Text, field: Text, low: Value, high: Value)
    ensures collection !in ctx.tables || [field] !in ctx.tables[collection] ==>
      RangeTrace(ctx, collection, field, low, high) == Trace([], Some(IndexMissing))
    ensures collection in ctx.docs && collection in ctx.tables && [field] in ctx.tables[collection] ==>
      !(Indexable(low) && Indexable(high)) ==>
      RangeTrace(ctx, collection, field, low, high) == Trace([], Some(NoKeyPanic))
  {
    hide Range;
  }

  /** scan_page at the cursor of a scan: the rows there and the cursor of the page behind it. */
  method ReadPage(env: Env, ghost ctx: Context, scan: Plans.Op) returns (scan': Plans.Op)
    requires Serves(env, ctx) && scan.SeqScan? && scan.collection in env.dbs
    requires scan.collection in ctx.pages && CursorAt(ctx.pages[scan.collection], scan.cursor) < |ctx.pages[scan.collection]|
    modifies env.pool, env.pool.disk
    ensures Serves(env, ctx) && scan' == NextPage(ctx, scan)
  {
    hide Flat, Pool.Inv, Packed, LastAccess, env.pool.Valid, HeapOk, AllSound, Consistent, Published, PageOk, PageScan, DecodedAll,
         Slotted.Next, AllOk, ContextAt, EntryOf, CursorAt, NextPage, DocsAt, TablesAt;
    ServesOnly(env, ctx);
    ServesAt(env, ctx, scan.collection);
    var db := env.dbs[scan.collection];
    CursorPage(env.pool.View(), db.chain, db.root, ctx, scan);
    var list, next := db.ScanPage(scan.cursor);
    scan' := SeqScan(scan.collection, next, StoredRows(list), true);
  }

  /** range_index; a bound without a key stops the program. */
  method ReadRange(env: Env, ghost ctx: Context, collection: Text, field: Text, low: Value, high: Value)
    returns (rows: seq<Row>, end: Option<ExecError>)
    requires Serves(env, ctx)
    modifies env.pool, env.pool.disk
    ensures Serves(env, ctx) && Trace(rows, end) == RangeTrace(ctx, collection, field, low, high)
  {
    hide Flat, Pool.Inv, Packed, LastAccess, env.pool.Valid, HeapAt, Consistent, Published, DocsAt, Range, SerializeKey, RangeRows,
         AllOk, ContextAt, EntryOf, PagesAt, RowsAt, Fetched, TablesAt, Coherent, RangeTrace;
    ServesOnly(env, ctx);
    RangeRefused(ctx, collection, field, low, high);
    if collection !in env.dbs {
      return [], Some(IndexMissing);
    }
    ServesAt(env, ctx, collection);
    var db := env.dbs[collection];
    if [field] !in db.indexes {
      return [], Some(IndexMissing);
    }
    if !Indexable(low) || !Indexable(high) {
      return [], Some(NoKeyPanic);
    }
    var r := db.RangeIndex(field, low, high);
    RangeRead(ctx, collection, field, low, high, r.value);
    rows, end := StoredRows(r.value), None;
  }
}
