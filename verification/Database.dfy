/** src/database/database.rs and src/btree/index.rs: a collection and its indexes in the pages of one pool. */
module Databases {
  import opened Bytes
  import opened Disk
  import opened Pool
  import opened Nodes
  import opened Layout
  import opened Slotted
  import opened Heap
  import opened Values
  import opened KeyOrder
  import opened Collections
  import opened Indexes
  import opened LeafIndexes
  import opened Tables
  import opened Overflow

  type View = map<PageId, Page>

  // the heap half of the pages

  ghost predicate HeapAt(view: View, chain: seq<PageId>, root: PageId) {
    HeapOk(view, chain) && |chain| > 0 && chain[0] == root && AllSound(Heap.Docs(view, chain))
  }

  ghost function DocsAt(view: View, chain: seq<PageId>): Docs {
    if HeapOk(view, chain) then Content(Heap.Docs(view, chain)) else imap[]
  }

  /** The pages of the chain are as they were. */
  ghost predicate SameOn(view: View, view': View, chain: seq<PageId>) {
    forall p :: p in chain && p in view ==> p in view' && view'[p] == view[p]
  }

  lemma HeapFrame(view: View, view': View, chain: seq<PageId>, root: PageId)
    requires HeapAt(view, chain, root) && SameOn(view, view', chain)
    ensures HeapAt(view', chain, root) && DocsAt(view', chain) == DocsAt(view, chain)
  {
    hide AllSound, Content, PageOk;
    forall i | 0 <= i < |chain|
      ensures LinkOk(view', chain, i)
    {
      assert LinkOk(view, chain, i);
    }
    forall p | p in chain
      ensures p in view && p in view' && view'[p] == view[p]
    {
      InChain(view, chain, p);
    }
    assert Heap.Docs(view', chain) == Heap.Docs(view, chain);
  }

  lemma IdIsDoc(view: View, chain: seq<PageId>, id: DocId)
    requires id in DocsAt(view, chain)
    ensures IsDoc(id) && id.0 in chain
  {
    hide HeapOk, Records, RecordInside;
    InChain(view, chain, id.0);
    Powers();
    LEofFromLE(view[id.0][8..10]);
  }

  // the index half: each index at its published root page

  ghost predicate PublishedAt(view: View, chain: seq<PageId>, r: PageId) {
    r in view && r !in chain && r < NO_NEXT && IndexPage(view[r])
  }

  /** Every published root is the one page of its index, apart from the heap and from the other indexes. */
  ghost predicate Published(view: View, chain: seq<PageId>, indexes: map<Name, PageId>) {
    && (forall n :: n in indexes ==> PublishedAt(view, chain, indexes[n]))
    && (forall n, m :: n in indexes && m in indexes && n != m ==> indexes[n] != indexes[m])
  }

  ghost function TablesAt(view: View, indexes: map<Name, PageId>): (t: map<Name, seq<Slot>>)
    ensures t.Keys == indexes.Keys
  {
    map n | n in indexes :: SlotsAt(view, indexes[n])
  }

  ghost function SlotsAt(view: View, r: PageId): seq<Slot> {
    if r in view && HoldsLeaf(view[r]) then Slots(view[r]) else []
  }

  lemma PublishedFrame(view: View, view': View, chain: seq<PageId>, chain': seq<PageId>, indexes: map<Name, PageId>)
    requires Published(view, chain, indexes)
    requires forall n :: n in indexes ==> indexes[n] !in chain'
    requires forall n :: n in indexes && indexes[n] in view ==> indexes[n] in view' && view'[indexes[n]] == view[indexes[n]]
    ensures Published(view', chain', indexes) && TablesAt(view', indexes) == TablesAt(view, indexes)
  {
    hide HoldsLeaf;
    assert forall n :: n in indexes ==> PublishedAt(view, chain, indexes[n]) && PublishedAt(view', chain', indexes[n]);
  }

  /** Rewriting one index page changes that index and nothing of the heap. */
  lemma PageRewritten(view: View, view': View, chain: seq<PageId>, root: PageId, indexes: map<Name, PageId>, n: Name)
    requires HeapAt(view, chain, root) && Published(view, chain, indexes) && n in indexes && indexes[n] in view'
    requires view' == view[indexes[n] := view'[indexes[n]]] && IndexPage(view'[indexes[n]])
    ensures HeapAt(view', chain, root) && DocsAt(view', chain) == DocsAt(view, chain)
    ensures Published(view', chain, indexes)
    ensures TablesAt(view', indexes) == TablesAt(view, indexes)[n := Slots(view'[indexes[n]])]
  {
    hide HoldsLeaf, HeapAt, DocsAt, Slots, PublishedAt, SlotsAt;
    forall m | m in indexes
      ensures PublishedAt(view', chain, indexes[m])
      ensures SlotsAt(view', indexes[m]) == if m == n then Slots(view'[indexes[n]]) else SlotsAt(view, indexes[m])
    {
      PageStays(view, view', chain, indexes, n, m);
    }
    PublishedIs(view, chain, indexes, n);
    HeapFrame(view, view', chain, root);
  }

  lemma PageStays(view: View, view': View, chain: seq<PageId>, indexes: map<Name, PageId>, n: Name, m: Name)
    requires Published(view, chain, indexes) && n in indexes && m in indexes && indexes[n] in view'
    requires view' == view[indexes[n] := view'[indexes[n]]] && IndexPage(view'[indexes[n]])
    ensures PublishedAt(view, chain, indexes[m]) && PublishedAt(view', chain, indexes[m])
    ensures SlotsAt(view', indexes[m]) == if m == n then Slots(view'[indexes[n]]) else SlotsAt(view, indexes[m])
  {
    hide HoldsLeaf, Slots;
    assert PublishedAt(view, chain, indexes[m]) && PublishedAt(view, chain, indexes[n]);
  }

  lemma PublishedIs(view: View, chain: seq<PageId>, indexes: map<Name, PageId>, n: Name)
    requires Published(view, chain, indexes) && n in indexes
    ensures indexes[n] in view && indexes[n] !in chain && indexes[n] < NO_NEXT && IndexPage(view[indexes[n]])
    ensures TablesAt(view, indexes)[n] == Slots(view[indexes[n]])
  {
    hide HoldsLeaf, Slots;
    assert PublishedAt(view, chain, indexes[n]);
  }

  // published roots that may have been split

  ghost predicate StandsAt(view: View, chain: seq<PageId>, r: PageId) {
    r in view && r !in chain && r < NO_NEXT && HoldsLeaf(view[r])
  }

  /** Every published root is a leaf page, apart from the heap and from the other roots; it need not be all of its index. */
  ghost predicate Standing(view: View, chain: seq<PageId>, indexes: map<Name, PageId>) {
    && (forall n :: n in indexes ==> StandsAt(view, chain, indexes[n]))
    && (forall n, m :: n in indexes && m in indexes && n != m ==> indexes[n] != indexes[m])
  }

  /** The page is all of its index. */
  ghost predicate Whole(view: View, r: PageId) { r in view && IndexPage(view[r]) }

  lemma PublishedIsWhole(view: View, chain: seq<PageId>, indexes: map<Name, PageId>)
    ensures Published(view, chain, indexes) <==> Standing(view, chain, indexes) && forall n :: n in indexes ==> Whole(view, indexes[n])
  {
    hide HoldsLeaf;
    if Standing(view, chain, indexes) && forall n :: n in indexes ==> Whole(view, indexes[n]) {
      forall n | n in indexes
        ensures PublishedAt(view, chain, indexes[n])
      {
        assert StandsAt(view, chain, indexes[n]) && Whole(view, indexes[n]);
      }
    }
    if Published(view, chain, indexes) {
      forall n | n in indexes
        ensures StandsAt(view, chain, indexes[n]) && Whole(view, indexes[n])
      {
        assert PublishedAt(view, chain, indexes[n]);
      }
    }
  }

  lemma StandsIs(view: View, chain: seq<PageId>, indexes: map<Name, PageId>, n: Name)
    requires Standing(view, chain, indexes) && n in indexes
    ensures indexes[n] in view && indexes[n] !in chain && indexes[n] < NO_NEXT && HoldsLeaf(view[indexes[n]])
    ensures TablesAt(view, indexes)[n] == Slots(view[indexes[n]])
  {
    hide HoldsLeaf, Slots;
    assert StandsAt(view, chain, indexes[n]);
  }

  /** Only the page r changed, and pages were added. */
  ghost predicate OnlyPage(view: View, view': View, r: PageId) {
    view.Keys <= view'.Keys && forall q :: q in view && q != r ==> view'[q] == view[q]
  }

  /** A leaf written to one root page changes that index and nothing else. */
  lemma RootRewritten(view: View, view': View, chain: seq<PageId>, root: PageId, indexes: map<Name, PageId>, n: Name)
    requires HeapAt(view, chain, root) && Standing(view, chain, indexes) && n in indexes && OnlyPage(view, view', indexes[n])
    requires indexes[n] in view' && HoldsLeaf(view'[indexes[n]])
    ensures HeapAt(view', chain, root) && DocsAt(view', chain) == DocsAt(view, chain) && Standing(view', chain, indexes)
    ensures TablesAt(view', indexes) == TablesAt(view, indexes)[n := Slots(view'[indexes[n]])]
    ensures forall m :: m in indexes && m != n ==> (Whole(view', indexes[m]) <==> Whole(view, indexes[m]))
  {
    hide HoldsLeaf, HeapAt, DocsAt, Slots;
    StandsIs(view, chain, indexes, n);
    HeapFrame(view, view', chain, root);
    forall m | m in indexes
      ensures StandsAt(view', chain, indexes[m])
      ensures SlotsAt(view', indexes[m]) == if m == n then Slots(view'[indexes[n]]) else SlotsAt(view, indexes[m])
      ensures m != n ==> (Whole(view', indexes[m]) <==> Whole(view, indexes[m]))
    {
      assert StandsAt(view, chain, indexes[m]);
    }
  }

  /** No slot names an id that was never issued. */
  ghost predicate Known(docs: Docs, tables: map<Name, seq<Slot>>) {
    forall n, s :: n in tables && s in tables[n] ==> s.doc in docs
  }

  lemma ConsistentIsKnown(docs: Docs, tables: map<Name, seq<Slot>>, unique: set<Name>)
    requires Consistent(docs, tables, unique)
    ensures Known(docs, tables) && unique <= tables.Keys
  {
    hide KeyFor, Ordered, Unique, AllKeyable;
    forall n, s | n in tables && s in tables[n]
      ensures s.doc in docs
    {
      assert InStep(docs, n, tables[n]);
    }
  }

  /** Documents and published indexes in step, unique ones unique. */
  ghost predicate Coherent(view: View, chain: seq<PageId>, root: PageId, indexes: map<Name, PageId>, unique: set<Name>) {
    && HeapAt(view, chain, root) && Published(view, chain, indexes)
    && Consistent(DocsAt(view, chain), TablesAt(view, indexes), unique)
  }

  // keys of stored documents stand for their values

  lemma PartsOnPage(view: View, chain: seq<PageId>, root: PageId, n: Name)
    requires HeapAt(view, chain, root)
    ensures AllPartsFit(DocsAt(view, chain), n)
  {
    hide HeapOk, AllSound, Content, Heap.Docs;
    HeapIsShort(view, chain);
  }

  lemma UniqueOnValues(view: View, chain: seq<PageId>, root: PageId, names: set<Name>)
    requires HeapAt(view, chain, root)
    ensures var docs := DocsAt(view, chain); forall n :: n in names ==> (Unique(docs, n) <==> NoTwins(docs, n))
  {
    hide HeapAt, DocsAt, Unique, NoTwins, AllPartsFit;
    forall n | n in names
      ensures Unique(DocsAt(view, chain), n) <==> NoTwins(DocsAt(view, chain), n)
    {
      PartsOnPage(view, chain, root, n);
      UniqueIsNoTwins(DocsAt(view, chain), n);
    }
  }

  lemma ClashOnValues(view: View, chain: seq<PageId>, root: PageId, names: set<Name>, d: Document, except: Option<DocId>)
    requires HeapAt(view, chain, root)
    ensures var docs := DocsAt(view, chain);
      Short(d) ==> forall n :: n in names ==> (Clash(docs, n, d, except) <==> HasTwin(docs, n, d, except))
  {
    hide HeapAt, DocsAt, Clash, HasTwin, AllPartsFit;
    var docs := DocsAt(view, chain);
    forall n | n in names && Short(d)
      ensures Clash(docs, n, d, except) <==> HasTwin(docs, n, d, except)
    {
      PartsOnPage(view, chain, root, n);
      ClashIsTwin(docs, n, d, except);
    }
  }

  lemma BatchOnValues(view: View, chain: seq<PageId>, root: PageId, names: set<Name>, batch: seq<Document>)
    requires HeapAt(view, chain, root)
    ensures var docs := DocsAt(view, chain);
      (forall d :: d in batch ==> Short(d)) ==>
        && (forall n :: n in names ==> (NameOk(docs, n, batch) <==> !Repeats(docs, n, batch)))
        && (BatchOk(docs, names, batch) <==> forall n :: n in names ==> !Repeats(docs, n, batch))
  {
    hide HeapAt, DocsAt, NameOk, Repeats, AllPartsFit;
    var docs := DocsAt(view, chain);
    if forall d :: d in batch ==> Short(d) {
      forall n | n in names
        ensures AllPartsFit(docs, n)
      {
        PartsOnPage(view, chain, root, n);
      }
      OkIsNoRepeat(docs, names, batch);
    }
  }

  lemma StorableIsShort(batch: seq<Document>, names: set<Name>)
    requires forall d :: d in batch ==> Storable(d, names)
    ensures forall d :: d in batch ==> Short(d)
  {
    hide FitsRecord, Short, Keyable, KeyFits;
    forall d | d in batch
      ensures Short(d)
    {
      FitsIsShort(d);
    }
  }

  /** A batch is refused iff it would repeat the values of a unique index; if it is not, no two live documents share them. */
  ghost predicate RefusesTwins(docs: Docs, unique: set<Name>, batch: seq<Document>, r: Outcome<seq<DocId>>, docs': Docs) {
    && (r.DuplicateKey? <==> exists n :: n in unique && Repeats(docs, n, batch))
    && (r.DuplicateKey? ==> r.name in unique && Repeats(docs, r.name, batch))
    && (!r.DuplicateKey? ==> forall n :: n in unique ==> NoTwins(docs', n))
  }

  lemma InsertOnValues(view: View, chain: seq<PageId>, view': View, chain': seq<PageId>, root: PageId, indexes: map<Name, PageId>,
                       unique: set<Name>, batch: seq<Document>, r: Outcome<seq<DocId>>)
    requires HeapAt(view, chain, root) && HeapAt(view', chain', root) && forall d :: d in batch ==> Storable(d, indexes.Keys)
    ensures var docs, docs' := DocsAt(view, chain), DocsAt(view', chain');
      && (r.DuplicateKey? <==> !BatchOk(docs, unique, batch))
      && (r.DuplicateKey? ==> r.name in unique && !NameOk(docs, r.name, batch))
      && (!r.DuplicateKey? ==> forall n :: n in unique ==> Unique(docs', n))
      ==> RefusesTwins(docs, unique, batch, r, docs')
  {
    hide HeapAt, DocsAt, NameOk, BatchOk, Repeats, NoTwins, Unique, Storable, Short;
    StorableIsShort(batch, indexes.Keys);
    BatchOnValues(view, chain, root, unique, batch);
    UniqueOnValues(view', chain', root, unique);
  }

  class Database {
    const pool: BufferPool<Page>
    const root: PageId
    ghost var chain: seq<PageId>
    /** The roots the catalog publishes. */
    var indexes: map<Name, PageId>
    var unique: set<Name>

    ghost predicate HeapValid()
      reads this, pool, pool.disk
    {
      pool.Valid() && HeapAt(pool.View(), chain, root)
    }

    /** Every document id ever issued, with its document or None once it is deleted. */
    ghost function Stored(): Docs
      reads this, pool, pool.disk
    {
      DocsAt(pool.View(), chain)
    }

    /** The slots that each index holds on its published root page. */
    ghost function Tables(): map<Name, seq<Slot>>
      reads this, pool, pool.disk
    {
      TablesAt(pool.View(), indexes)
    }

    ghost predicate Valid()
      reads this, pool, pool.disk
    {
      pool.Valid() && Coherent(pool.View(), chain, root, indexes, unique)
    }

    /** The state that every insert keeps, also when a published root no longer holds all of its index. */
    ghost predicate Stands()
      reads this, pool, pool.disk
    {
      HeapValid() && Standing(pool.View(), chain, indexes) && Known(Stored(), Tables()) && unique <= indexes.Keys
    }

    lemma ValidStands()
      requires Valid()
      ensures Stands()
    {
      hide Flat, Pool.Inv, Packed, LastAccess, pool.Valid, HeapAt, DocsAt, Published, Standing, Whole, InStep, Unique, AllKeyable;
      PublishedIsWhole(pool.View(), chain, indexes);
      ConsistentIsKnown(Stored(), Tables(), unique);
    }

    /** No two live documents have equal values in all fields of a unique index. */
    lemma ValidNoTwins()
      requires Valid()
      ensures forall n :: n in unique ==> NoTwins(Stored(), n)
    {
      hide Flat, Pool.Inv, Packed, LastAccess, pool.Valid, HeapAt, DocsAt, Published, TablesAt, InStep, Unique, AllKeyable, NoTwins;
      UniqueOnValues(pool.View(), chain, root, unique);
    }

    constructor (pool: BufferPool<Page>, root: PageId, ghost chain: seq<PageId>)
      requires pool.Valid() && HeapAt(pool.View(), chain, root)
      ensures Valid() && this.pool == pool && this.root == root && this.chain == chain && indexes == map[] && unique == {}
    {
      hide Flat, Pool.Inv, Packed, LastAccess, HeapAt, DocsAt;
      this.pool := pool;
      this.root := root;
      this.chain := chain;
      this.indexes := map[];
      this.unique := {};
    }

    /** A fresh handle, with the tail found by walking the chain. */
    method OpenCollection() returns (c: Collection)
      requires HeapValid()
      modifies pool, pool.disk
      ensures pool.Valid() && pool.View() == old(pool.View()) && |pool.disk.file| == old(|pool.disk.file|)
      ensures fresh(c) && fresh(c.heap) && c.pool == pool && c.chain == chain && c.Valid() && c.Stored() == Stored()
    {
      hide Flat, Pool.Inv, Packed, LastAccess, HeapOk, Heap.Docs, pool.Valid, AllSound, Content;
      var h := HeapFile.Open(pool, root, chain);
      c := new Collection(pool, h, chain);
    }

    method ScanCollection() returns (list: seq<(DocId, Document)>)
      requires HeapValid()
      modifies pool, pool.disk
      ensures pool.Valid() && pool.View() == old(pool.View()) && Listing(list, Stored()) && |pool.disk.file| == old(|pool.disk.file|)
      ensures list == DecodedAll(Heap.Scan(pool.View(), chain, |chain|))
    {
      hide Flat, Pool.Inv, Packed, LastAccess, HeapOk, Heap.Docs, pool.Valid, AllSound, Content, Listing, DecodedAll;
      var c := OpenCollection();
      list := c.Scan();
    }

    /** One page of the collection, the first if there is no cursor, and the page it links to. */
    method ScanPage(cursor: Option<PageId>) returns (list: seq<(DocId, Document)>, next: Option<PageId>)
      requires HeapValid() && (cursor.Some? ==> cursor.value in chain)
      modifies pool, pool.disk
      ensures pool.Valid() && pool.View() == old(pool.View()) && |pool.disk.file| == old(|pool.disk.file|)
      ensures var page := if cursor.None? then root else cursor.value;
        && page in pool.View() && PageOk(pool.View()[page]) && list == DecodedAll(PageScan(page, pool.View()[page]))
        && var n := Slotted.Next(pool.View()[page]); next == if n == NO_NEXT then None else Some(n)
    {
      hide Flat, Pool.Inv, Packed, LastAccess, HeapOk, Heap.Docs, pool.Valid, AllSound, Content, DecodedAll, PageScan, PageOk,
           Slotted.Next;
      var c := OpenCollection();
      list, next := c.ScanPage(if cursor.None? then root else cursor.value);
    }

    /** search from the published root of an index. */
    method SearchPublished(n: Name, key: Bytes) returns (r: Option<DocId>)
      requires pool.Valid() && Standing(pool.View(), chain, indexes) && n in indexes
      modifies pool, pool.disk
      ensures pool.Valid() && pool.View() == old(pool.View()) && |pool.disk.file| == old(|pool.disk.file|)
      ensures r == Find(Tables()[n], key)
    {
      hide Flat, Pool.Inv, Packed, LastAccess, pool.Valid, HoldsLeaf, Find, Standing, TablesAt;
      StandsIs(pool.View(), chain, indexes, n);
      r := SearchLeaf(pool, indexes[n], key);
    }

    /** Looks the document's key up in every unique index; `except` is the row being replaced. */
    method CheckUniqueExcept(d: Document, except: Option<DocId>) returns (bad: Option<Name>)
      requires Stands()
      modifies pool, pool.disk
      ensures pool.Valid() && pool.View() == old(pool.View()) && |pool.disk.file| == old(|pool.disk.file|)
      ensures bad.None? ==> forall n :: n in unique ==> Unseen(Tables()[n], n, d, except)
      ensures bad.Some? ==> bad.value in unique && !Unseen(Tables()[bad.value], bad.value, d, except)
      ensures old(Valid()) ==> (bad.None? ==> forall n :: n in unique ==> !Clash(Stored(), n, d, except))
      ensures old(Valid()) ==> (bad.Some? ==> Clash(Stored(), bad.value, d, except))
      ensures old(Valid()) && Short(d) ==> (bad.None? ==> forall n :: n in unique ==> !HasTwin(Stored(), n, d, except))
      ensures old(Valid()) && Short(d) ==> (bad.Some? ==> HasTwin(Stored(), bad.value, d, except))
    {
      hide Flat, Pool.Inv, Packed, LastAccess, pool.Valid, HeapAt, DocsAt, Standing, TablesAt, Clash, KeyFor, Find, Known, Coherent,
           HasTwin, Short;
      ghost var tables := Tables();
      if Valid() {
        ClearIfUnseen(d, except);
      }
      ClashOnValues(pool.View(), chain, root, unique, d, except);
      var left := unique;
      while left != {}
        invariant pool.Valid() && pool.View() == old(pool.View()) && |pool.disk.file| == old(|pool.disk.file|)
        invariant left <= unique && forall n :: n in unique - left ==> Unseen(tables[n], n, d, except)
      {
        var n :| n in left;
        left := left - {n};
        var k := KeyFor(n, d);
        if k.Some? {
          var found := SearchPublished(n, k.value);
          if found.Some? && found != except {
            return Some(n);
          }
        }
      }
      return None;
    }

    lemma ClearIfUnseen(d: Document, except: Option<DocId>)
      requires Valid()
      ensures forall n :: n in unique ==> (Unseen(Tables()[n], n, d, except) <==> !Clash(Stored(), n, d, except))
    {
      hide Flat, Pool.Inv, Packed, LastAccess, pool.Valid, HeapAt, DocsAt, Published, TablesAt, Clash, InStep, Unique, Unseen,
           AllKeyable;
      forall n | n in unique
        ensures Unseen(Tables()[n], n, d, except) <==> !Clash(Stored(), n, d, except)
      {
        UnseenIsClear(Stored(), n, Tables()[n], d, except);
      }
    }

    /** Stored keys and repeats inside the batch, checked before anything is written. */
    method CheckUniqueBatch(batch: seq<Document>) returns (bad: Option<Name>)
      requires Stands()
      modifies pool, pool.disk
      ensures pool.Valid() && pool.View() == old(pool.View()) && |pool.disk.file| == old(|pool.disk.file|)
      ensures bad.None? <==> Passes(Tables(), unique, batch)
      ensures bad.Some? ==> bad.value in unique && !PassesName(Tables()[bad.value], bad.value, batch)
      ensures old(Valid()) ==> (bad.None? <==> BatchOk(Stored(), unique, batch))
      ensures old(Valid()) ==> (bad.Some? ==> !NameOk(Stored(), bad.value, batch))
      ensures old(Valid()) && (forall d :: d in batch ==> Short(d)) ==>
        (bad.None? <==> forall n :: n in unique ==> !Repeats(Stored(), n, batch)) && (bad.Some? ==> Repeats(Stored(), bad.value, batch))
    {
      hide Flat, Pool.Inv, Packed, LastAccess, pool.Valid, HeapAt, DocsAt, Standing, TablesAt, KeyFor, Known, PassesAt, Unseen,
           Consistent, Published, NameOk, Clash, HasTwin, Short, Repeats;
      ghost var tables := Tables();
      if Valid() {
        PassesIsOk(Stored(), tables, unique, batch);
      }
      BatchOnValues(pool.View(), chain, root, unique, batch);
      var seen: set<(Name, Bytes)> := {};
      for i := 0 to |batch|
        invariant pool.Valid() && pool.View() == old(pool.View()) && |pool.disk.file| == old(|pool.disk.file|)
        invariant forall n, k :: n in unique ==> ((n, k) in seen <==> Seen(batch, i, n, k))
        invariant forall n :: n in unique ==> PassesUpTo(tables[n], n, batch, i)
      {
        bad := CheckUniqueExcept(batch[i], None);
        if bad.Some? {
          PassesIs(tables[bad.value], bad.value, batch, i);
          NotPassed(tables[bad.value], bad.value, batch, i);
          return;
        }
        bad, seen := SeeKeys(batch, i, seen, tables);
        if bad.Some? {
          return;
        }
      }
      return None;
    }

    lemma CoherentHeap()
      requires Valid()
      ensures HeapValid() && Published(pool.View(), chain, indexes) && Consistent(Stored(), Tables(), unique)
    {
    }

    /** The inner loop of check_unique_batch: the keys of document i against those of the documents before it. */
    method SeeKeys(batch: seq<Document>, i: nat, seen0: set<(Name, Bytes)>, ghost tables: map<Name, seq<Slot>>)
      returns (bad: Option<Name>, seen: set<(Name, Bytes)>)
      requires i < |batch| && unique <= tables.Keys
      requires forall n :: n in unique ==> Unseen(tables[n], n, batch[i], None) && PassesUpTo(tables[n], n, batch, i)
      requires forall n, k :: n in unique ==> ((n, k) in seen0 <==> Seen(batch, i, n, k))
      ensures bad.Some? ==> bad.value in unique && !PassesName(tables[bad.value], bad.value, batch)
      ensures bad.None? ==> forall n :: n in unique ==> PassesUpTo(tables[n], n, batch, i + 1)
      ensures bad.None? ==> forall n, k :: n in unique ==> ((n, k) in seen <==> Seen(batch, i + 1, n, k))
    {
      hide KeyFor, PassesAt, Unseen;
      seen := seen0;
      var left := unique;
      while left != {}
        invariant left <= unique
        invariant forall n, k :: n in unique ==>
          ((n, k) in seen <==> Seen(batch, i, n, k) || (n !in left && KeyFor(n, batch[i]) == Some(k)))
        invariant forall n :: n in unique - left ==> PassesAt(tables[n], n, batch, i)
      {
        var n :| n in left;
        var k := KeyFor(n, batch[i]);
        PassesIs(tables[n], n, batch, i);
        if k.Some? {
          if (n, k.value) in seen {
            NotPassed(tables[n], n, batch, i);
            return Some(n), seen;
          }
          seen := seen + {(n, k.value)};
        }
        left := left - {n};
      }
      forall n, k | n in unique
        ensures (n, k) in seen <==> Seen(batch, i + 1, n, k)
      {
        SeenStep(batch, i, n, k);
      }
      return None, seen;
    }

    /** insert through the published root of an index: in place if the page has room, else behind a split that leaves the
        published page with its lower half. */
    method InsertPublished(n: Name, key: Bytes, id: DocId) returns (ok: bool)
      requires HeapValid() && Standing(pool.View(), chain, indexes) && n in indexes
      requires IsDoc(id) && Slot(key, id) !in Tables()[n] && RoomFor([], LEAF_SLOT + |key|) && |pool.disk.file| + 2 < NO_NEXT
      modifies pool, pool.disk
      ensures HeapValid() && Stored() == old(Stored()) && Standing(pool.View(), chain, indexes)
      ensures |pool.disk.file| <= old(|pool.disk.file|) + if RoomFor(old(Tables()[n]), LEAF_SLOT + |key|) then 0 else 2
      ensures ok <==> Settles(old(Tables()[n]), Slot(key, id))
      ensures Tables() == old(Tables())[n := Tables()[n]]
      ensures Tables()[n] == if ok then Settled(old(Tables()[n]), Slot(key, id)) else old(Tables()[n])[..old(|Tables()[n]|) / 2]
      ensures forall m :: m in indexes ==>
        (Whole(pool.View(), indexes[m]) <==>
         old(Whole(pool.View(), indexes[m])) && (m == n ==> RoomFor(old(Tables()[n]), LEAF_SLOT + |key|)))
    {
      hide Flat, Pool.Inv, Packed, LastAccess, pool.Valid, HeapAt, DocsAt, HoldsLeaf, Slots, Settled, Settles, Standing, TablesAt,
           RoomFor;
      var r := indexes[n];
      ghost var view := pool.View();
      StandsIs(view, chain, indexes, n);
      ok := InsertRoot(pool, r, key, id);
      RootRewritten(view, pool.View(), chain, root, indexes, n);
    }

    /** on_insert: the entry of the document goes into every index whose fields it has. */
    method OnInsert(d: Document, id: DocId) returns (bad: Option<Name>)
      requires HeapValid() && Standing(pool.View(), chain, indexes)
      requires IsDoc(id) && |pool.disk.file| + 2 * |indexes| + 2 < NO_NEXT
      requires forall n :: n in indexes ==> KeyFits(n, d) && NoSlotOf(Tables()[n], id)
      modifies pool, pool.disk
      ensures HeapValid() && Stored() == old(Stored()) && Standing(pool.View(), chain, indexes)
      ensures |pool.disk.file| <= old(|pool.disk.file|) + 2 * |indexes|
      ensures bad.None? <==> forall n :: n in indexes ==> DocSettles(n, old(Tables())[n], d, id)
      ensures bad.None? ==> forall n :: n in indexes ==> Tables()[n] == AddDoc(n, old(Tables())[n], d, id)
      ensures bad.None? ==> forall n :: n in indexes ==>
        (Whole(pool.View(), indexes[n]) <==> old(Whole(pool.View(), indexes[n])) && RoomFor(old(Tables())[n], KeySize(n, d)))
      ensures bad.Some? ==> StoppedAt(bad.value, old(Tables()), Tables(), d, id)
      ensures OnlyNew(old(Tables()), Tables(), id)
    {
      hide Flat, Pool.Inv, Packed, LastAccess, pool.Valid, HeapAt, DocsAt, Standing, RoomFor, KeyFor, TablesAt, Settled, Settles,
           Whole, OnlyNew, Adding, AddDoc, WholeSince, DocSettles;
      ghost var tables, view := Tables(), pool.View();
      TablesFit(view, chain, indexes);
      var left := indexes.Keys;
      StartAdding(tables, view, indexes, d, id);
      while left != {}
        invariant left <= indexes.Keys && HeapValid() && Stored() == old(Stored()) && Standing(pool.View(), chain, indexes)
        invariant |pool.disk.file| <= old(|pool.disk.file|) + 2 * (|indexes.Keys| - |left|)
        invariant Adding(tables, Tables(), left, d, id) && WholeSince(view, pool.View(), indexes, tables, left, d)
      {
        var n :| n in left;
        var k := KeyFor(n, d);
        ghost var now, before := Tables(), pool.View();
        AddingAt(tables, now, left, d, id, n);
        AddIs(n, tables[n], d, id);
        if k.Some? {
          var ok := InsertPublished(n, k.value, id);
          if !ok {
            StopAdding(tables, now, Tables(), left, d, id, n);
            return Some(n);
          }
        }
        AddingStep(tables, now, Tables(), left, d, id, n);
        WholeStep(view, before, pool.View(), indexes, tables, left, d, n);
        left := left - {n};
      }
      DoneAdding(tables, Tables(), view, pool.View(), indexes, d, id);
      return None;
    }

    /** delete through the published root. */
    method DeletePublished(n: Name, key: Bytes, id: DocId)
      requires pool.Valid() && HeapAt(pool.View(), chain, root) && Published(pool.View(), chain, indexes) && n in indexes
      modifies pool, pool.disk
      ensures pool.Valid() && HeapAt(pool.View(), chain, root) && DocsAt(pool.View(), chain) == old(DocsAt(pool.View(), chain))
      ensures Published(pool.View(), chain, indexes) && |pool.disk.file| == old(|pool.disk.file|)
      ensures Tables() == old(Tables())[n := Drop(old(Tables()[n]), Slot(key, id))]
    {
      hide Flat, Pool.Inv, Packed, LastAccess, pool.Valid, HeapAt, DocsAt, HoldsLeaf, Slots, Drop, Published;
      ghost var view := pool.View();
      PublishedIs(view, chain, indexes, n);
      DeleteLeaf(pool, indexes[n], key, id);
      PageRewritten(view, pool.View(), chain, root, indexes, n);
    }

    method OnDelete(d: Document, id: DocId)
      requires pool.Valid() && HeapAt(pool.View(), chain, root) && Published(pool.View(), chain, indexes)
      modifies pool, pool.disk
      ensures pool.Valid() && HeapAt(pool.View(), chain, root) && DocsAt(pool.View(), chain) == old(DocsAt(pool.View(), chain))
      ensures Published(pool.View(), chain, indexes) && |pool.disk.file| == old(|pool.disk.file|)
      ensures forall n :: n in indexes ==> Tables()[n] == WithoutDoc(n, old(Tables())[n], d, id)
    {
      hide Flat, Pool.Inv, Packed, LastAccess, pool.Valid, HeapAt, DocsAt, Drop, Published, KeyFor, TablesAt;
      ghost var tables := Tables();
      var left := indexes.Keys;
      while left != {}
        invariant left <= indexes.Keys && pool.Valid() && HeapAt(pool.View(), chain, root) && Published(pool.View(), chain, indexes)
        invariant DocsAt(pool.View(), chain) == old(DocsAt(pool.View(), chain)) && |pool.disk.file| == old(|pool.disk.file|)
        invariant forall n :: n in indexes ==> Tables()[n] == if n in left then tables[n] else WithoutDoc(n, tables[n], d, id)
      {
        var n :| n in left;
        left := left - {n};
        var k := KeyFor(n, d);
        if k.Some? {
          DeletePublished(n, k.value, id);
        }
      }
    }

    /** All of the batch or, if a key lookup finds a unique key taken, none of it. From a state in step the indexes stay in
        step exactly if every published root page has room for the keys the batch adds. */
    method InsertDocs(batch: seq<Document>) returns (r: Outcome<seq<DocId>>, ghost ids: seq<DocId>)
      requires Stands() && |pool.disk.file| + |batch| * (1 + 2 * |indexes|) + 2 < NO_NEXT
      requires forall d :: d in batch ==> Storable(d, indexes.Keys)
      modifies this`chain, pool, pool.disk
      ensures Stands() && old(chain) <= chain
      ensures r.DuplicateKey? <==> !Passes(old(Tables()), unique, batch)
      ensures r.DuplicateKey? ==> r.name in unique && !PassesName(old(Tables())[r.name], r.name, batch)
      ensures r.DuplicateKey? ==> pool.View() == old(pool.View()) && chain == old(chain)
      ensures r.DuplicateKey? || BatchInserted(old(Stored()), old(Tables()), batch, ids, r, Stored(), Tables())
      ensures |pool.disk.file| <= old(|pool.disk.file|) + |batch| * (1 + 2 * |indexes|)
      ensures old(Valid()) ==> (r.DuplicateKey? <==> !BatchOk(old(Stored()), unique, batch))
      ensures old(Valid()) ==> (r.DuplicateKey? ==> !NameOk(old(Stored()), r.name, batch))
      ensures old(Valid()) ==> (Valid() <==> r.DuplicateKey? || BatchFits(old(Tables()), batch))
      ensures old(Valid()) && !r.DuplicateKey? ==> forall n :: n in unique ==> Unique(Stored(), n)
      ensures old(Valid()) ==> RefusesTwins(old(Stored()), unique, batch, r, Stored())
      ensures old(Valid()) && !r.DuplicateKey? && !BatchFits(old(Tables()), batch) ==>
        exists n :: n in indexes && Partial(Stored(), n, Tables()[n])
    {
      hide Flat, Pool.Inv, Packed, LastAccess, pool.Valid, HeapAt, DocsAt, Standing, TablesAt, Known, Coherent, Passes, PassesName,
           BatchOk, NameOk, BatchFits, NewIds, Extend, AllSettle, FilledAll, Stopped, Partial, Consistent, Whole, RoomFor, BatchSize,
           Unique, RefusesTwins, FitsRecord, Keyable, KeyFits;
      ghost var docs, tables, view := Stored(), Tables(), pool.View();
      CoherentIs(view, chain, root, indexes, unique);
      if Valid() {
        UniqueNow(docs, tables, unique);
      }
      ids := [];
      if |batch| == 0 {
        NothingInserted(view, chain, indexes, unique, docs);
        InsertOnValues(view, chain, view, chain, root, indexes, unique, batch, Done([]));
        return Done([]), [];
      }
      var bad := CheckUniqueBatch(batch);
      if bad.Some? {
        InsertOnValues(view, chain, pool.View(), chain, root, indexes, unique, batch, DuplicateKey(bad.value));
        return DuplicateKey(bad.value), [];
      }
      TablesFit(view, chain, indexes);
      PagesFor(|batch|, |indexes|);
      var stored := StoreAll(batch);
      ids := stored;
      var stop := IndexAll(docs, batch, stored);
      r := if stop.Some? then Overfull(stop.value) else Done(stored);
      CoherentIs(pool.View(), chain, root, indexes, unique);
      if old(Valid()) {
        AfterInsert(docs, tables, unique, batch, ids, r, Stored(), Tables());
        FitsMeans(tables, batch);
        InsertOnValues(view, old(chain), pool.View(), chain, root, indexes, unique, batch, r);
      }
    }

    /** The heap half of an insert; the index pages are not touched. */
    method StoreAll(batch: seq<Document>) returns (ids: seq<DocId>)
      requires HeapValid() && Standing(pool.View(), chain, indexes)
      requires |pool.disk.file| + |batch| < NO_NEXT && forall d :: d in batch ==> FitsRecord(d)
      modifies this`chain, pool, pool.disk
      ensures HeapValid() && |ids| == |batch| && NewIds(old(Stored()), ids, batch)
      ensures Stored() == Extend(old(Stored()), ids, batch, |batch|)
      ensures Standing(pool.View(), chain, indexes) && Tables() == old(Tables())
      ensures forall n :: n in indexes ==> (Whole(pool.View(), indexes[n]) <==> old(Whole(pool.View(), indexes[n])))
      ensures |pool.disk.file| <= old(|pool.disk.file|) + |batch| && old(chain) <= chain
    {
      hide Flat, Pool.Inv, Packed, LastAccess, HeapOk, Heap.Docs, pool.Valid, AllSound, Content, Extend, NewIds, FitsRecord, Standing,
           TablesAt, Whole;
      ghost var docs, view := Stored(), pool.View();
      var c := OpenCollection();
      ids := [];
      ExtendNone(docs, ids, batch);
      NoNewIds(docs, batch);
      for i := 0 to |batch|
        invariant c.Valid() && |ids| == i && NewIds(docs, ids, batch) && c.Stored() == Extend(docs, ids, batch, i)
        invariant |pool.disk.file| <= old(|pool.disk.file|) + i && old(chain) <= c.chain && chain == old(chain)
        invariant OffChain(view, pool.View(), chain, c.chain)
      {
        assert batch[i] in batch;
        ghost var before := pool.View();
        ghost var was := c.chain;
        var id := c.Insert(batch[i]);
        OffChainStep(view, before, pool.View(), chain, was, c.chain);
        NewIdsStep(docs, ids, id, batch);
        ids := ids + [id];
      }
      StillStanding(view, pool.View(), chain, c.chain, indexes);
      chain := c.chain;
    }

    /** The index half: entries are added document by document, after all of them are stored. */
    method IndexAll(ghost docs: Docs, batch: seq<Document>, ids: seq<DocId>) returns (stop: Option<Name>)
      requires HeapValid() && Standing(pool.View(), chain, indexes) && Known(docs, Tables())
      requires |ids| == |batch| && NewIds(docs, ids, batch) && Stored() == Extend(docs, ids, batch, |batch|)
      requires |pool.disk.file| + |batch| * (2 * |indexes|) + 2 < NO_NEXT
      requires forall d :: d in batch ==> Storable(d, indexes.Keys)
      modifies pool, pool.disk
      ensures HeapValid() && Stored() == old(Stored()) && Standing(pool.View(), chain, indexes) && Known(Stored(), Tables())
      ensures |pool.disk.file| <= old(|pool.disk.file|) + |batch| * (2 * |indexes|)
      ensures stop.None? <==> AllSettle(old(Tables()), ids, batch, |batch|)
      ensures stop.None? ==> Tables() == FilledAll(old(Tables()), ids, batch, |batch|)
      ensures stop.None? ==> forall n :: n in indexes ==> (Whole(pool.View(), indexes[n]) <==>
        old(Whole(pool.View(), indexes[n])) && RoomFor(old(Tables())[n], BatchSize(n, batch, |batch|)))
      ensures stop.Some? ==> Stopped(stop.value, old(Tables()), Tables(), ids, batch)
    {
      hide Flat, Pool.Inv, Packed, LastAccess, pool.Valid, HeapAt, DocsAt, Standing, TablesAt, Extend, NewIds, Known, Whole, RoomFor,
           BatchSize, FilledAll, AllSettle, StoppedAt, FitsRecord, KeyFits, Keyable;
      ghost var tables, view, w := Tables(), pool.View(), 2 * |indexes|;
      TablesFit(view, chain, indexes);
      StartFilling(tables, ids, batch);
      for i := 0 to |batch|
        invariant HeapValid() && Stored() == old(Stored()) && Standing(pool.View(), chain, indexes)
        invariant |pool.disk.file| <= old(|pool.disk.file|) + i * w
        invariant Tables() == FilledAll(tables, ids, batch, i) && AllSettle(tables, ids, batch, i)
        invariant forall n :: n in indexes ==>
          (Whole(pool.View(), indexes[n]) <==> Whole(view, indexes[n]) && RoomFor(tables[n], BatchSize(n, batch, i)))
      {
        ghost var was := Tables();
        PagesLeft(i, |batch|, w);
        StoredId(docs, ids, batch, i);
        IdIsDoc(pool.View(), chain, ids[i]);
        NoSlotYet(docs, tables, ids, batch, i);
        assert batch[i] in batch;
        stop := OnInsert(batch[i], ids[i]);
        if stop.Some? {
          StopsFilling(tables, ids, batch, i, stop.value, Tables());
          KnownAfter(docs, tables, ids, batch, i, Tables());
          return;
        }
        FilledFurther(tables, ids, batch, i, Tables());
        forall n | n in indexes
          ensures Whole(pool.View(), indexes[n]) <==> Whole(view, indexes[n]) && RoomFor(tables[n], BatchSize(n, batch, i + 1))
        {
          RoomFurther(tables, ids, batch, i, n);
        }
      }
      KnownFilled(docs, tables, ids, batch);
      return None;
    }

    /** Deletes what is there of the ids; one that is already gone is skipped. */
    method DeleteDocs(ids: seq<DocId>) returns (count: nat)
      requires Valid() && forall id :: id in ids ==> id.0 in chain
      modifies pool, pool.disk
      ensures Valid() && Stored() == Erased(old(Stored()), ids) && count == |LiveAmong(old(Stored()), ids)|
      ensures |pool.disk.file| == old(|pool.disk.file|)
      ensures forall id, n :: ids == [id] && Indexes.Live(old(Stored()), id) && n in indexes ==>
        Tables()[n] == WithoutDoc(n, old(Tables())[n], old(Stored())[id].value, id)
    {
      hide Flat, Pool.Inv, Packed, LastAccess, pool.Valid, HeapAt, DocsAt, Published, TablesAt, Consistent, Removed, Erased,
           LiveAmong, AllWereLive, WithoutDoc;
      CoherentHeap();
      ghost var docs, tables := Stored(), Tables();
      var gone := RemoveAll(ids);
      UnindexAll(docs, gone);
      count := |gone|;
      if |ids| == 1 && Indexes.Live(docs, ids[0]) {
        OneGone(docs, ids, gone);
      }
    }

    method RemoveAll(ids: seq<DocId>) returns (gone: seq<(DocId, Document)>)
      requires HeapValid() && Published(pool.View(), chain, indexes) && forall id :: id in ids ==> id.0 in chain
      modifies pool, pool.disk
      ensures HeapValid() && Stored() == Erased(old(Stored()), ids) == Removed(old(Stored()), gone, |gone|)
      ensures AllWereLive(old(Stored()), gone) && |gone| == |LiveAmong(old(Stored()), ids)| && forall g :: g in gone ==> g.0 in ids
      ensures Published(pool.View(), chain, indexes) && Tables() == old(Tables()) && |pool.disk.file| == old(|pool.disk.file|)
    {
      hide Flat, Pool.Inv, Packed, LastAccess, HeapOk, Heap.Docs, pool.Valid, AllSound, Content, Removed, Erased, LiveAmong,
           Published;
      ghost var docs, view := Stored(), pool.View();
      var c := OpenCollection();
      gone := [];
      ErasedNone(docs, ids);
      RemovedNone(docs, gone);
      for i := 0 to |ids|
        invariant c.Valid() && c.chain == chain && |pool.disk.file| == old(|pool.disk.file|) && OffChain(view, pool.View(), chain, chain)
        invariant c.Stored() == Erased(docs, ids[..i]) == Removed(docs, gone, |gone|)
        invariant AllWereLive(docs, gone) && |gone| == |LiveAmong(docs, ids[..i])| && forall g :: g in gone ==> g.0 in ids
      {
        ErasedStep(docs, ids, i);
        assert ids[i] in ids;
        var d := c.Get(ids[i]);
        if d.Some? {
          c.Delete(ids[i]);
          WasLiveStep(docs, gone, ids[i], d.value);
          gone := gone + [(ids[i], d.value)];
        } else {
          GoneAlready(c.Stored(), ids[i]);
        }
      }
      assert ids[..|ids|] == ids;
      StillPublished(view, pool.View(), chain, chain, indexes);
    }

    method UnindexAll(ghost docs: Docs, gone: seq<(DocId, Document)>)
      requires HeapValid() && Published(pool.View(), chain, indexes) && Consistent(docs, Tables(), unique) && AllWereLive(docs, gone)
      modifies pool, pool.disk
      ensures HeapValid() && Stored() == old(Stored()) && Published(pool.View(), chain, indexes)
        && |pool.disk.file| == old(|pool.disk.file|)
      ensures Consistent(Removed(docs, gone, |gone|), Tables(), unique)
      ensures |gone| == 1 ==> forall n :: n in indexes ==> Tables()[n] == WithoutDoc(n, old(Tables())[n], gone[0].1, gone[0].0)
    {
      hide Flat, Pool.Inv, Packed, LastAccess, pool.Valid, HeapAt, DocsAt, Published, TablesAt, Removed, Consistent, WithoutDoc;
      RemovedNone(docs, gone);
      for i := 0 to |gone|
        invariant HeapValid() && Stored() == old(Stored()) && Published(pool.View(), chain, indexes)
          && |pool.disk.file| == old(|pool.disk.file|)
        invariant Consistent(Removed(docs, gone, i), Tables(), unique)
        invariant i == 0 ==> Tables() == old(Tables())
        invariant i == 1 ==> forall n :: n in indexes ==> Tables()[n] == WithoutDoc(n, old(Tables())[n], gone[0].1, gone[0].0)
      {
        ghost var now, was := Removed(docs, gone, i), Tables();
        assert WasLive(docs, gone, i);
        OnDelete(gone[i].1, gone[i].0);
        ConsistentDelete(now, was, Tables(), unique, gone[i].1, gone[i].0);
        RemovedLast(docs, gone, i);
      }
    }

    method GetDoc(id: DocId) returns (d: Option<Document>)
      requires HeapValid() && id.0 in chain
      modifies pool, pool.disk
      ensures pool.Valid() && pool.View() == old(pool.View()) && |pool.disk.file| == old(|pool.disk.file|)
      ensures d == if id in Stored() then Stored()[id] else None
    {
      hide Flat, Pool.Inv, Packed, LastAccess, HeapOk, Heap.Docs, pool.Valid, AllSound, Content;
      var c := OpenCollection();
      d := c.Get(id);
    }

    /** The document an index has for a value, found through the published root. */
    method SearchIndex(field: Text, value: Value) returns (r: Outcome<Option<(DocId, Document)>>)
      requires Valid() && Indexable(value)
      modifies pool, pool.disk
      ensures pool.Valid() && pool.View() == old(pool.View()) && |pool.disk.file| == old(|pool.disk.file|)
      ensures r.IndexNotFound? <==> [field] !in indexes
      ensures r.IndexNotFound? || r.Done?
      ensures [field] in indexes ==>
        var t := Find(Tables()[[field]], SerializeKey(value).value);
        r == Done(if t.None? || !Indexes.Live(Stored(), t.value) then None else Some((t.value, Stored()[t.value].value)))
      ensures r.Done? && r.value.None? ==> forall id :: Indexes.Live(Stored(), id) && field in Stored()[id].value ==>
        Stored()[id].value[field] != value
    {
      hide Standing, Known, Flat, Pool.Inv, Packed, LastAccess, pool.Valid, HeapAt, DocsAt, Published, TablesAt, Consistent, Find,
           SerializeKey;
      CoherentHeap();
      ValidStands();
      if [field] !in indexes {
        return IndexNotFound;
      }
      var key := SerializeKey(value).value;
      ghost var docs, slots := Stored(), Tables()[[field]];
      var t := SearchPublished([field], key);
      FindMeans(docs, field, Tables(), unique, value);
      if t.None? {
        return Done(None);
      }
      IdIsDoc(pool.View(), chain, t.value);
      var d := GetDoc(t.value);
      r := Done(Some((t.value, d.value)));
    }

    /** Replaces the matching document by its merge with d, or stores d; refused without a trace if a unique key would repeat. */
    method UpsertBy(field: Text, value: Value, d: Document) returns (r: Outcome<nat>)
      requires Valid() && Indexable(value) && |pool.disk.file| + 2 * |indexes| + 3 < NO_NEXT
      requires [field] in indexes ==> Storable(Merged(Stored(), TargetOf(Tables(), field, value), d), indexes.Keys)
      modifies this`chain, pool, pool.disk
      ensures Stands() && (r.IndexNotFound? <==> [field] !in indexes)
      ensures r.DuplicateKey? || r.IndexNotFound? ==> Valid() && pool.View() == old(pool.View()) && chain == old(chain)
      ensures [field] in indexes ==>
        Upserted(old(Stored()), old(Tables()), unique, old(TargetOf(Tables(), field, value)), d, r, Stored(), Valid())
    {
      hide Flat, Pool.Inv, Packed, LastAccess, pool.Valid, HeapAt, DocsAt, Published, TablesAt, Consistent, Clash, Find, SerializeKey,
           Keyable, Extend, NewIds, BatchOk, NameOk, FitsRecord, Erased, LiveAmong, KeyFits, BatchFits, WithoutDoc, BatchInserted,
           Partial, Coherent, Standing, Known, Passes, SomeTwin, HasTwin, RefusesTwins, Short;
      CoherentHeap();
      ValidStands();
      ghost var docs, tables := Stored(), Tables();
      var existing := SearchIndex(field, value);
      if existing.IndexNotFound? {
        return IndexNotFound;
      }
      ghost var t := TargetOf(tables, field, value);
      SomeTwinIs(pool.View(), chain, root, indexes.Keys, unique, Merged(docs, t, d), t);
      FindMeans(docs, field, tables, unique, value);
      if existing.value.None? {
        OneIsBatch(docs, unique, d);
        var one, ids := InsertDocs([d]);
        if one.DuplicateKey? {
          return DuplicateKey(one.name);
        }
        OneStored(docs, tables, d, ids, one, Stored(), Tables());
        assert Replaces(docs, None, d, Stored());
        return if one.Overfull? then Overfull(one.name) else Done(1);
      }
      var id, current := existing.value.value.0, existing.value.value.1;
      current := current + d;
      var bad := CheckUniqueExcept(current, Some(id));
      if bad.Some? {
        return DuplicateKey(bad.value);
      }
      r := Replace(id, current);
    }

    /** The delete and the insert of an upsert that passed the check. */
    method Replace(id: DocId, e: Document) returns (r: Outcome<nat>)
      requires Valid() && Indexes.Live(Stored(), id) && |pool.disk.file| + 2 * |indexes| + 3 < NO_NEXT && Storable(e, indexes.Keys)
      requires forall n :: n in unique ==> !Clash(Stored(), n, e, Some(id))
      modifies this`chain, pool, pool.disk
      ensures Stands() && (r.Overfull? || r == Done(1))
      ensures Replaces(old(Stored()), Some(id), e, Stored())
      ensures Valid() <==> BatchFits(Freed(old(Tables()), old(Stored()), Some(id)), [e])
    {
      hide Flat, Pool.Inv, Packed, LastAccess, pool.Valid, HeapAt, DocsAt, Published, TablesAt, Consistent, Clash, Keyable, Extend,
           NewIds, BatchOk, FitsRecord, Erased, LiveAmong, KeyFits, BatchFits, WithoutDoc, BatchInserted, Partial, Coherent, Standing,
           Known, Passes;
      CoherentHeap();
      ghost var docs, tables := Stored(), Tables();
      IdIsDoc(pool.View(), chain, id);
      var _ := DeleteDocs([id]);
      ErasedOne(docs, id);
      CoherentHeap();
      ValidStands();
      assert Tables() == Freed(tables, docs, Some(id));
      forall n | n in unique
        ensures !Clash(docs[id := None], n, e, None)
      {
        ClashAfterDelete(docs, n, e, id);
      }
      OneIsBatch(docs[id := None], unique, e);
      var one, ids := InsertDocs([e]);
      OneStored(docs[id := None], Freed(tables, docs, Some(id)), e, ids, one, Stored(), Tables());
      assert Replaces(docs, Some(id), e, Stored());
      r := if one.Overfull? then Overfull(one.name) else Done(1);
    }

    /** The documents whose field has a key in the range, each once, in key order. */
    method RangeIndex(field: Text, low: Value, high: Value) returns (r: Outcome<seq<(DocId, Document)>>)
      requires Valid() && Indexable(low) && Indexable(high)
      modifies pool, pool.disk
      ensures pool.Valid() && pool.View() == old(pool.View())
      ensures r.IndexNotFound? <==> [field] !in indexes
      ensures r.IndexNotFound? || (r.Done? && RangeRows(Stored(), field, low, high, r.value))
      ensures r.Done? ==> Fetched(Stored(), Range(Tables()[[field]], SerializeKey(low).value, SerializeKey(high).value), r.value)
    {
      hide Flat, Pool.Inv, Packed, LastAccess, pool.Valid, HeapAt, DocsAt, Published, TablesAt, Consistent, SerializeKey, RangeRows,
           Range, Fetched;
      CoherentHeap();
      if [field] !in indexes {
        return IndexNotFound;
      }
      PublishedIs(pool.View(), chain, indexes, [field]);
      ghost var docs, slots := Stored(), Tables()[[field]];
      var ids := RangeLeaf(pool, indexes[[field]], SerializeKey(low).value, SerializeKey(high).value);
      RangeIsLive(docs, field, Tables(), unique, low, high);
      forall i | 0 <= i < |ids|
        ensures Indexes.Live(docs, ids[i]) && ids[i].0 in chain
      {
        assert Indexes.Live(docs, ids[i]);
        IdIsDoc(pool.View(), chain, ids[i]);
      }
      var rows := FetchDocs(ids);
      RangeInStep(docs, field, Tables(), unique, low, high, rows);
      r := Done(rows);
    }

    /** Reads each id; one whose document is gone is left out. */
    method FetchDocs(ids: seq<DocId>) returns (out: seq<(DocId, Document)>)
      requires HeapValid() && forall i :: 0 <= i < |ids| ==> Indexes.Live(Stored(), ids[i]) && ids[i].0 in chain
      modifies pool, pool.disk
      ensures pool.Valid() && pool.View() == old(pool.View()) && Fetched(Stored(), ids, out)
    {
      hide Flat, Pool.Inv, Packed, LastAccess, HeapOk, Heap.Docs, pool.Valid, AllSound, Content;
      ghost var docs := Stored();
      var c := OpenCollection();
      out := [];
      for i := 0 to |ids|
        invariant c.Valid() && c.chain == chain && pool.View() == old(pool.View()) && c.Stored() == docs
        invariant Fetched(docs, ids[..i], out)
      {
        var d := c.Get(ids[i]);
        if d.Some? {
          out := out + [(ids[i], d.value)];
        }
      }
      assert ids[..|ids|] == ids;
    }

    /** Builds an index over what is stored and publishes the page it started from. A unique one is refused if the data
        already repeats a key; the index is in step exactly if all its entries fit that page. */
    method CreateIndex(name: Name, isUnique: bool) returns (r: Outcome<()>, ghost list: seq<(DocId, Document)>)
      requires Valid() && AllKeyable(Stored(), name) && AllFit(Stored(), name) && |pool.disk.file| + 3 < NO_NEXT
      modifies this`indexes, this`unique, pool, pool.disk
      ensures Stands() && Stored() == old(Stored()) && (Valid() <==> !r.RootMoved?) && |pool.disk.file| <= old(|pool.disk.file|) + 3
      ensures r.IndexAlreadyExists? <==> name in old(indexes)
      ensures r.DuplicateKey? <==> name !in old(indexes) && isUnique && !Unique(Stored(), name)
      ensures r.DuplicateKey? <==> name !in old(indexes) && isUnique && !NoTwins(Stored(), name)
      ensures !r.IndexAlreadyExists? ==> Listing(list, Stored())
      ensures r.Done? || r.RootMoved? ==> (r.Done? <==> RoomFor([], BatchSize(name, DocList(list), |list|)))
      ensures r.Done? || r.RootMoved? ==> name in indexes && indexes == old(indexes)[name := indexes[name]]
      ensures r.Done? || r.RootMoved? ==> unique == if isUnique then old(unique) + {name} else old(unique)
      ensures r.RootMoved? ==> r.name == name && Partial(Stored(), name, Tables()[name])
      ensures r.DuplicateKey? || r.IndexAlreadyExists? ==> indexes == old(indexes) && unique == old(unique) && Tables() == old(Tables())
      ensures !r.IndexNotFound? && !r.Overfull?
    {
      hide Flat, Pool.Inv, Packed, LastAccess, pool.Valid, HeapAt, DocsAt, Published, TablesAt, Consistent, Unique, Listing,
           AllKeyable, RoomFor, BatchSize, Partial, AllFit, Standing, Known, NoTwins;
      CoherentHeap();
      ValidStands();
      UniqueOnValues(pool.View(), chain, root, {name});
      ghost var docs, tables := Stored(), Tables();
      list := [];
      if name in indexes {
        return IndexAlreadyExists, [];
      }
      var first := NewIndexPage();
      var scanned := ScanCollection();
      list := scanned;
      if isUnique {
        var ok := AllDistinct(scanned, name, docs);
        if !ok {
          ValidStands();
          return DuplicateKey(name), list;
        }
      }
      r := Publish(name, isUnique, first, scanned);
    }

    /** Fills the page and enters it in the catalog. */
    method Publish(name: Name, isUnique: bool, first: PageId, list: seq<(DocId, Document)>) returns (r: Outcome<()>)
      requires Valid() && name !in indexes && AllKeyable(Stored(), name) && AllFit(Stored(), name) && |pool.disk.file| + 2 < NO_NEXT
      requires first in pool.View() && first < NO_NEXT && first !in chain && first !in indexes.Values
      requires IndexPage(pool.View()[first]) && Slots(pool.View()[first]) == []
      requires Listing(list, Stored()) && (isUnique ==> Unique(Stored(), name))
      modifies this`indexes, this`unique, pool, pool.disk
      ensures Stands() && Stored() == old(Stored()) && (Valid() <==> !r.RootMoved?) && (r.Done? || r.RootMoved?)
      ensures |pool.disk.file| <= old(|pool.disk.file|) + 2
      ensures r.Done? <==> RoomFor([], BatchSize(name, DocList(list), |list|))
      ensures name in indexes && indexes == old(indexes)[name := indexes[name]]
      ensures unique == if isUnique then old(unique) + {name} else old(unique)
      ensures r.RootMoved? ==> r.name == name && Partial(Stored(), name, Tables()[name])
    {
      hide Flat, Pool.Inv, Packed, LastAccess, pool.Valid, HeapAt, DocsAt, Published, TablesAt, Consistent, Unique, Listing,
           AllKeyable, RoomFor, BatchSize, Partial, AllFit, HoldsLeaf, Slots, InStep, Standing, Known;
      CoherentHeap();
      ghost var docs, tables := Stored(), Tables();
      PublishNew(pool.View(), chain, indexes, name, first);
      indexes := indexes[name := first];
      if isUnique {
        unique := unique + {name};
      }
      var moved := BuildIndex(name, list, docs);
      if moved {
        ConsistentIsKnown(docs, tables, old(unique));
        PartialIsKnown(docs, tables, name, Tables()[name]);
        assert Tables() == tables[name := Tables()[name]];
        PartialIsInconsistent(Stored(), Tables(), unique, name);
        return RootMoved(name);
      }
      assert Tables() == tables[name := Tables()[name]];
      ConsistentCreate(docs, tables, old(unique), name, Tables()[name], isUnique);
      ValidStands();
      r := Done(());
    }

    /** BTree::new: an empty leaf on a page that was free. */
    method NewIndexPage() returns (first: PageId)
      requires HeapValid() && Published(pool.View(), chain, indexes) && |pool.disk.file| < NO_NEXT
      modifies pool, pool.disk
      ensures HeapValid() && Stored() == old(Stored()) && Published(pool.View(), chain, indexes) && Tables() == old(Tables())
      ensures first !in old(pool.View()) && first in pool.View() && first < NO_NEXT && |pool.disk.file| <= old(|pool.disk.file|) + 1
      ensures IndexPage(pool.View()[first]) && Slots(pool.View()[first]) == [] && first !in chain && first !in indexes.Values
    {
      hide Flat, Pool.Inv, Packed, LastAccess, pool.Valid, DocsAt, TablesAt, HoldsLeaf, Represents, PageOk, Heap.Docs, AllSound;
      var a := new byte[PAGE_SIZE](_ => 0);
      LeafInit(a, None);
      EmptyLeaf(a[..]);
      ghost var view := pool.View();
      first := NewPageOf(pool, a[..]);
      NotInUse(view, chain, root, indexes, first);
      HeapFrame(view, pool.View(), chain, root);
      PublishedFrame(view, pool.View(), chain, chain, indexes);
    }

    /** The build loop of create, through one handle that starts at the published page. */
    method BuildIndex(name: Name, list: seq<(DocId, Document)>, ghost docs: Docs) returns (moved: bool)
      requires HeapValid() && Published(pool.View(), chain, indexes) && name in indexes && Tables()[name] == []
      requires docs == Stored() && Listing(list, docs) && AllFit(docs, name) && |pool.disk.file| + 2 < NO_NEXT
      modifies pool, pool.disk
      ensures HeapValid() && Stored() == docs && (moved <==> !RoomFor([], BatchSize(name, DocList(list), |list|)))
      ensures !moved ==> Published(pool.View(), chain, indexes) && InStep(docs, name, Tables()[name])
      ensures Standing(pool.View(), chain, indexes) && Tables() == old(Tables())[name := Tables()[name]]
      ensures |pool.disk.file| <= old(|pool.disk.file|) + 2
      ensures moved ==> Partial(docs, name, Tables()[name])
    {
      hide Flat, Pool.Inv, Packed, LastAccess, pool.Valid, HeapAt, DocsAt, Published, TablesAt, KeyFor, Listing, InStep, Place,
           SlotsSize, RoomFor, BatchSize, Partial, AllFit, ListedDocs, Standing, Whole, Settles, Settled;
      ghost var tables := Tables();
      NothingListed(name);
      StartBuild(name, list);
      for i := 0 to |list|
        invariant HeapValid() && Stored() == docs && Published(pool.View(), chain, indexes) && |pool.disk.file| <= old(|pool.disk.file|)
        invariant InStep(ListedDocs(list, i), name, Tables()[name]) && Tables() == tables[name := Tables()[name]]
        invariant SlotsSize(Tables()[name]) == BatchSize(name, DocList(list), i)
      {
        ghost var now, slots := ListedDocs(list, i), Tables()[name];
        NotListedYet(list, docs, i);
        ListedLive(list, docs, name, i);
        IdIsDoc(pool.View(), chain, list[i].0);
        InStepInsert(now, name, slots, list[i].1, list[i].0);
        ListedGrows(list, name, slots, i);
        var k := KeyFor(name, list[i].1);
        if k.Some? {
          NotInStepYet(now, name, slots, Slot(k.value, list[i].0));
          PublishedIsWhole(pool.View(), chain, indexes);
          var room := HasRoom(name, |k.value|);
          var ok := InsertPublished(name, k.value, list[i].0);
          if !room {
            BuildOverflows(list, name, slots, i);
            BuildLost(list, docs, name, slots, i, Tables()[name], ok);
            return true;
          }
          RoomSettles(slots, Slot(k.value, list[i].0));
          PublishedIsWhole(pool.View(), chain, indexes);
        }
      }
      PublishedIsWhole(pool.View(), chain, indexes);
      TablesFit(pool.View(), chain, indexes);
      BuildFits(list, name, Tables()[name]);
      AllListed(list, docs, name, Tables()[name]);
      return false;
    }

    /** is_full on the published root. */
    method HasRoom(n: Name, keyLen: nat) returns (room: bool)
      requires pool.Valid() && Standing(pool.View(), chain, indexes) && n in indexes
      modifies pool, pool.disk
      ensures pool.Valid() && pool.View() == old(pool.View()) && |pool.disk.file| == old(|pool.disk.file|)
      ensures room <==> RoomFor(Tables()[n], LEAF_SLOT + keyLen)
    {
      hide Flat, Pool.Inv, Packed, LastAccess, pool.Valid, HoldsLeaf, Slots, Standing, TablesAt, RoomFor, HasSpace;
      StandsIs(pool.View(), chain, indexes, n);
      RoomIsSpace(pool.View()[indexes[n]], keyLen);
      var p := Fetch(pool, indexes[n]);
      room := NodeHasSpace(p, LEAF_SLOT, keyLen, LeafIn(p));
    }
  }

  lemma RoomSettles(slots: seq<Slot>, s: Slot)
    requires RoomFor(slots, SlotSize(s))
    ensures Settles(slots, s) && Settled(slots, s) == Place(slots, s)
  {
    hide Place;
  }

  ghost predicate NoSlotOf(slots: seq<Slot>, id: DocId) { forall s :: s in slots ==> s.doc != id }

  /** Slots that were not there before are of document id. */
  ghost predicate OnlyNew(tables: map<Name, seq<Slot>>, tables': map<Name, seq<Slot>>, id: DocId) {
    tables'.Keys == tables.Keys && forall n, s :: n in tables && s in tables'[n] ==> s in tables[n] || s.doc == id
  }

  /** on_insert has reached all indexes but those left. */
  ghost predicate Adding(tables: map<Name, seq<Slot>>, now: map<Name, seq<Slot>>, left: set<Name>, d: Document, id: DocId) {
    && now.Keys == tables.Keys && (forall n :: n in tables ==> now[n] == if n in left then tables[n] else AddDoc(n, tables[n], d, id))
    && (forall n :: n in tables.Keys - left ==> DocSettles(n, tables[n], d, id))
  }

  /** Pages stay whole as far as they had room. */
  ghost predicate WholeSince(view: View, view': View, indexes: map<Name, PageId>, tables: map<Name, seq<Slot>>, left: set<Name>,
                             d: Document)
    requires tables.Keys == indexes.Keys
  {
    forall n :: n in indexes ==>
      (Whole(view', indexes[n]) <==> Whole(view, indexes[n]) && (n in left || RoomFor(tables[n], KeySize(n, d))))
  }

  lemma StartAdding(tables: map<Name, seq<Slot>>, view: View, indexes: map<Name, PageId>, d: Document, id: DocId)
    requires tables.Keys == indexes.Keys
    ensures Adding(tables, tables, indexes.Keys, d, id) && WholeSince(view, view, indexes, tables, indexes.Keys, d)
  {
    hide Whole, RoomFor, KeySize, AddDoc;
  }

  lemma AddingAt(tables: map<Name, seq<Slot>>, now: map<Name, seq<Slot>>, left: set<Name>, d: Document, id: DocId, n: Name)
    requires Adding(tables, now, left, d, id) && n in left && n in tables
    ensures n in now && now[n] == tables[n]
  {
    hide AddDoc, DocSettles;
  }

  lemma AddingStep(tables: map<Name, seq<Slot>>, now: map<Name, seq<Slot>>, now': map<Name, seq<Slot>>, left: set<Name>, d: Document,
                   id: DocId, n: Name)
    requires Adding(tables, now, left, d, id) && n in left && n in tables && now'.Keys == now.Keys && now' == now[n := now'[n]]
    requires now'[n] == AddDoc(n, tables[n], d, id) && DocSettles(n, tables[n], d, id)
    ensures Adding(tables, now', left - {n}, d, id)
  {
    hide AddDoc, DocSettles;
  }

  lemma WholeStep(view: View, before: View, view': View, indexes: map<Name, PageId>, tables: map<Name, seq<Slot>>, left: set<Name>,
                  d: Document, n: Name)
    requires tables.Keys == indexes.Keys && WholeSince(view, before, indexes, tables, left, d) && n in left && n in indexes
    requires forall m :: m in indexes ==>
      (Whole(view', indexes[m]) <==> Whole(before, indexes[m]) && (m == n ==> RoomFor(tables[n], KeySize(n, d))))
    ensures WholeSince(view, view', indexes, tables, left - {n}, d)
  {
    hide Whole, RoomFor, KeySize;
  }

  lemma DoneAdding(tables: map<Name, seq<Slot>>, now: map<Name, seq<Slot>>, view: View, view': View, indexes: map<Name, PageId>,
                   d: Document, id: DocId)
    requires tables.Keys == indexes.Keys && Adding(tables, now, {}, d, id) && WholeSince(view, view', indexes, tables, {}, d)
    ensures forall n :: n in indexes ==> DocSettles(n, tables[n], d, id) && now[n] == AddDoc(n, tables[n], d, id)
    ensures forall n :: n in indexes ==> (Whole(view', indexes[n]) <==> Whole(view, indexes[n]) && RoomFor(tables[n], KeySize(n, d)))
    ensures OnlyNew(tables, now, id)
  {
    hide Whole, RoomFor, KeySize, AddDoc, DocSettles;
    AddingOnlyNew(tables, now, {}, d, id);
  }

  lemma AddingOnlyNew(tables: map<Name, seq<Slot>>, now: map<Name, seq<Slot>>, left: set<Name>, d: Document, id: DocId)
    requires Adding(tables, now, left, d, id)
    ensures OnlyNew(tables, now, id)
  {
    hide AddDoc, DocSettles, KeyFor;
    forall n, s | n in tables && s in now[n]
      ensures s in tables[n] || s.doc == id
    {
      if n !in left {
        AddHolds(n, tables[n], d, id, s);
      }
    }
  }

  lemma StopAdding(tables: map<Name, seq<Slot>>, now: map<Name, seq<Slot>>, now': map<Name, seq<Slot>>, left: set<Name>, d: Document,
                   id: DocId, n: Name)
    requires Adding(tables, now, left, d, id) && n in left && n in tables && now' == now[n := tables[n][..|tables[n]| / 2]]
    requires KeyFor(n, d).Some? && KeyFits(n, d) && !Settles(tables[n], Slot(KeyFor(n, d).value, id))
    ensures StoppedAt(n, tables, now', d, id) && OnlyNew(tables, now', id) && !DocSettles(n, tables[n], d, id)
  {
    hide AddDoc, KeyFor, Adding, Settles;
    AddingOnlyNew(tables, now, left, d, id);
    assert now.Keys == tables.Keys by {
      AddingAt(tables, now, left, d, id, n);
    }
    NoRoomHasSlots(tables[n], Slot(KeyFor(n, d).value, id));
  }

  /** The insert stopped at index n: its page is split and the half has no room either. */
  ghost predicate StoppedAt(n: Name, tables: map<Name, seq<Slot>>, tables': map<Name, seq<Slot>>, d: Document, id: DocId) {
    && n in tables && n in tables' && |tables[n]| > 0 && tables'[n] == tables[n][..|tables[n]| / 2]
    && !RoomFor(tables[n], KeySize(n, d)) && !DocSettles(n, tables[n], d, id)
  }

  ghost predicate Stopped(n: Name, tables: map<Name, seq<Slot>>, tables': map<Name, seq<Slot>>, ids: seq<DocId>, batch: seq<Document>)
    requires |ids| == |batch|
  {
    exists i :: 0 <= i < |batch| && StoppedAt(n, FilledAll(tables, ids, batch, i), tables', batch[i], ids[i])
  }

  lemma NoRoomHasSlots(slots: seq<Slot>, s: Slot)
    requires RoomFor([], SlotSize(s)) && !Settles(slots, s)
    ensures |slots| > 0 && !RoomFor(slots, SlotSize(s))
  {
  }

  /** What an insert that passed the check did, to the documents and to every published page. */
  ghost predicate BatchInserted(docs: Docs, tables: map<Name, seq<Slot>>, batch: seq<Document>, ids: seq<DocId>, r: Outcome<seq<DocId>>,
                           docs': Docs, tables': map<Name, seq<Slot>>) {
    && |ids| == |batch| && NewIds(docs, ids, batch) && docs' == Extend(docs, ids, batch, |batch|)
    && (if AllSettle(tables, ids, batch, |batch|) then r == Done(ids) && tables' == FilledAll(tables, ids, batch, |batch|)
        else r.Overfull? && Stopped(r.name, tables, tables', ids, batch))
  }

  lemma OneStored(docs: Docs, tables: map<Name, seq<Slot>>, d: Document, ids: seq<DocId>, r: Outcome<seq<DocId>>, docs': Docs,
                  tables': map<Name, seq<Slot>>)
    requires BatchInserted(docs, tables, [d], ids, r, docs', tables')
    ensures (r.Done? || r.Overfull?) && exists id :: id !in docs && docs' == docs[id := Some(d)]
  {
    hide NewIds, Extend, FilledAll, AllSettle, Stopped;
    OneInserted(docs, d, ids);
  }

  lemma NothingInserted(view: View, chain: seq<PageId>, indexes: map<Name, PageId>, unique: set<Name>, docs: Docs)
    requires Standing(view, chain, indexes)
    ensures var tables := TablesAt(view, indexes);
      && Passes(tables, unique, []) && BatchOk(docs, unique, []) && BatchFits(tables, [])
      && BatchInserted(docs, tables, [], [], Done([]), docs, tables)
  {
    hide Standing, RoomFor, TablesAt;
    TablesFit(view, chain, indexes);
    FilledNone(TablesAt(view, indexes), [], []);
  }

  lemma CoherentIs(view: View, chain: seq<PageId>, root: PageId, indexes: map<Name, PageId>, unique: set<Name>)
    ensures Coherent(view, chain, root, indexes, unique) <==>
      && HeapAt(view, chain, root) && Standing(view, chain, indexes) && (forall n :: n in indexes ==> Whole(view, indexes[n]))
      && Consistent(DocsAt(view, chain), TablesAt(view, indexes), unique)
  {
    hide HeapAt, DocsAt, TablesAt, Standing, Whole, Consistent, Published;
    PublishedIsWhole(view, chain, indexes);
  }

  /** From documents and indexes in step: in step again iff the pages had room. */
  lemma AfterInsert(docs: Docs, tables: map<Name, seq<Slot>>, unique: set<Name>, batch: seq<Document>, ids: seq<DocId>,
                    r: Outcome<seq<DocId>>,
                    docs': Docs, tables': map<Name, seq<Slot>>)
    requires Consistent(docs, tables, unique) && BatchOk(docs, unique, batch) && tables'.Keys == tables.Keys
    requires forall n :: n in tables ==> RoomFor(tables[n], 0)
    requires forall d :: d in batch ==> Storable(d, tables.Keys)
    requires BatchInserted(docs, tables, batch, ids, r, docs', tables')
    ensures if BatchFits(tables, batch) then r.Done? && Consistent(docs', tables', unique)
      else !Consistent(docs', tables', unique) && exists n :: n in tables && Partial(docs', n, tables'[n])
    ensures forall n :: n in unique ==> Unique(docs', n)
  {
    hide Consistent, BatchOk, NewIds, Extend, RoomFor, FilledAll, AllSettle, Partial, Stopped, FitsRecord, Keyable, KeyFits,
         BatchSize;
    if BatchFits(tables, batch) {
      BatchSettles(tables, ids, batch, |batch|);
      forall n | n in tables
        ensures RoomFor(tables[n], BatchSize(n, batch, |batch|))
      {
        assert RoomIn(tables[n], n, batch);
      }
      ConsistentAfter(docs, tables, unique, ids, batch, |batch|);
    } else {
      var n := BatchBreaks(docs, tables, tables', unique, ids, batch, r, docs');
      PartialIsInconsistent(docs', tables', unique, n);
    }
    UniqueStays(docs, tables, unique, ids, batch);
  }

  lemma UniqueNow(docs: Docs, tables: map<Name, seq<Slot>>, unique: set<Name>)
    requires Consistent(docs, tables, unique)
    ensures forall n :: n in unique ==> Unique(docs, n)
  {
    hide InStep, AllKeyable, Unique;
  }

  lemma UniqueStays(docs: Docs, tables: map<Name, seq<Slot>>, unique: set<Name>, ids: seq<DocId>, batch: seq<Document>)
    requires |batch| == |ids| && Consistent(docs, tables, unique) && BatchOk(docs, unique, batch) && NewIds(docs, ids, batch)
    ensures forall n :: n in unique ==> Unique(Extend(docs, ids, batch, |batch|), n)
  {
    hide Extend, Unique, NameOk, NewIds, InStep, AllKeyable;
    forall n | n in unique
      ensures Unique(Extend(docs, ids, batch, |batch|), n)
    {
      UniqueAfter(docs, n, ids, batch, |batch|);
    }
  }

  lemma BatchBreaks(docs: Docs, tables: map<Name, seq<Slot>>, tables': map<Name, seq<Slot>>, unique: set<Name>, ids: seq<DocId>,
                    batch: seq<Document>, r: Outcome<seq<DocId>>, docs': Docs) returns (n: Name)
    requires Consistent(docs, tables, unique) && !BatchFits(tables, batch) && (forall n :: n in tables ==> RoomFor(tables[n], 0))
    requires forall d, n :: d in batch && n in tables ==> KeyFits(n, d)
    requires BatchInserted(docs, tables, batch, ids, r, docs', tables') && tables'.Keys == tables.Keys
    ensures n in tables && Partial(docs', n, tables'[n])
  {
    hide NewIds, Extend, RoomFor, BatchSize, AllSettle, Partial, InStep, Unique, AllKeyable, KeyFits, Filled, DocSettles;
    if r.Done? {
      n :| n in tables && !RoomIn(tables[n], n, batch);
      FilledState(docs, n, tables[n], ids, batch, |batch|);
    } else {
      n := r.name;
      var i :| 0 <= i < |batch| && StoppedAt(n, FilledAll(tables, ids, batch, i), tables', batch[i], ids[i]);
      FilledState(docs, n, tables[n], ids, batch, i);
      HalfIsPartial(Extend(docs, ids, batch, i), n, Filled(n, tables[n], ids, batch, i));
      PartialLater(docs, n, ids, batch, i, |batch|, tables'[n]);
    }
  }

  lemma PartialIsKnown(docs: Docs, tables: map<Name, seq<Slot>>, name: Name, slots: seq<Slot>)
    requires Known(docs, tables) && Partial(docs, name, slots)
    ensures Known(docs, tables[name := slots])
  {
    hide KeyFor;
    assert forall s :: s in slots ==> HasKey(docs, name, s);
  }

  lemma PartialIsInconsistent(docs: Docs, tables: map<Name, seq<Slot>>, unique: set<Name>, n: Name)
    requires n in tables && Partial(docs, n, tables[n])
    ensures !Consistent(docs, tables, unique)
  {
    hide InStep, Partial, Unique, AllKeyable;
    PartialNotInStep(docs, n, tables[n]);
  }

  lemma TablesFit(view: View, chain: seq<PageId>, indexes: map<Name, PageId>)
    requires Standing(view, chain, indexes)
    ensures forall n :: n in indexes ==> RoomFor(TablesAt(view, indexes)[n], 0)
  {
    hide HoldsLeaf, RoomFor, HasSpace, Standing, TablesAt;
    forall n | n in indexes
      ensures RoomFor(TablesAt(view, indexes)[n], 0)
    {
      StandsIs(view, chain, indexes, n);
      PageFits(view[indexes[n]]);
    }
  }

  lemma PageFits(p: Page)
    requires HoldsLeaf(p)
    ensures RoomFor(Slots(p), 0)
  {
    hide HoldsLeaf, RoomFor, HasSpace;
    RoomIsSpace(p, 0);
  }

  // what the heap leaves alone

  /** Pages off the chain stay, and the chain grows by pages that were not there. */
  ghost predicate OffChain(view: View, view': View, chain: seq<PageId>, chain': seq<PageId>) {
    && (forall p :: p in chain' ==> p in chain || p !in view)
    && (forall p :: p in view && p !in chain ==> p in view' && view'[p] == view[p])
  }

  lemma OffChainStep(view: View, mid: View, view': View, chain: seq<PageId>, was: seq<PageId>, chain': seq<PageId>)
    requires OffChain(view, mid, chain, was)
    requires forall p :: p in chain' ==> p in was || p !in mid
    requires forall p :: p in mid && p !in was ==> p in view' && view'[p] == mid[p]
    ensures OffChain(view, view', chain, chain')
  {
  }

  lemma StillPublished(view: View, view': View, chain: seq<PageId>, chain': seq<PageId>, indexes: map<Name, PageId>)
    requires Published(view, chain, indexes) && OffChain(view, view', chain, chain')
    ensures Published(view', chain', indexes) && TablesAt(view', indexes) == TablesAt(view, indexes)
  {
    hide IndexPage, TablesAt;
    forall n | n in indexes
      ensures indexes[n] in view && indexes[n] !in chain && indexes[n] !in chain' && indexes[n] in view'
        && view'[indexes[n]] == view[indexes[n]]
    {
      assert PublishedAt(view, chain, indexes[n]);
    }
    PublishedFrame(view, view', chain, chain', indexes);
  }

  lemma StillStanding(view: View, view': View, chain: seq<PageId>, chain': seq<PageId>, indexes: map<Name, PageId>)
    requires Standing(view, chain, indexes) && OffChain(view, view', chain, chain')
    ensures Standing(view', chain', indexes) && TablesAt(view', indexes) == TablesAt(view, indexes)
    ensures forall n :: n in indexes ==> (Whole(view', indexes[n]) <==> Whole(view, indexes[n]))
  {
    hide HoldsLeaf, Slots;
    forall n | n in indexes
      ensures StandsAt(view', chain', indexes[n]) && SlotsAt(view', indexes[n]) == SlotsAt(view, indexes[n])
      ensures Whole(view', indexes[n]) <==> Whole(view, indexes[n])
    {
      assert StandsAt(view, chain, indexes[n]);
    }
  }

  // how the pages fill up

  lemma StartFilling(tables: map<Name, seq<Slot>>, ids: seq<DocId>, batch: seq<Document>)
    requires forall n :: n in tables ==> RoomFor(tables[n], 0)
    ensures FilledAll(tables, ids, batch, 0) == tables
    ensures forall n :: n in tables ==> RoomFor(tables[n], BatchSize(n, batch, 0))
    ensures |ids| == |batch| ==> AllSettle(tables, ids, batch, 0)
  {
    FilledNone(tables, ids, batch);
  }

  lemma PagesFor(n: nat, w: nat)
    ensures n * (1 + 2 * w) == n + n * (2 * w)
  {
  }

  lemma FitsMeans(tables: map<Name, seq<Slot>>, batch: seq<Document>)
    ensures BatchFits(tables, batch) <==> forall n :: n in tables ==> RoomFor(tables[n], BatchSize(n, batch, |batch|))
  {
    hide RoomFor, BatchSize;
    assert forall n :: n in tables ==> (RoomIn(tables[n], n, batch) <==> RoomFor(tables[n], BatchSize(n, batch, |batch|)));
  }

  lemma PagesLeft(i: nat, n: nat, w: nat)
    requires i < n
    ensures i * w + w <= n * w && (i + 1) * w == i * w + w
  {
    Product(i + 1, n, w);
  }

  lemma Product(a: nat, b: nat, c: nat)
    requires a <= b
    ensures a * c <= b * c
  {
  }

  lemma FilledFurther(tables: map<Name, seq<Slot>>, ids: seq<DocId>, batch: seq<Document>, i: nat, tables': map<Name, seq<Slot>>)
    requires i < |batch| == |ids| && tables'.Keys == tables.Keys && AllSettle(tables, ids, batch, i)
    requires forall n :: n in tables ==> DocSettles(n, FilledAll(tables, ids, batch, i)[n], batch[i], ids[i])
    requires forall n :: n in tables ==> tables'[n] == AddDoc(n, FilledAll(tables, ids, batch, i)[n], batch[i], ids[i])
    ensures tables' == FilledAll(tables, ids, batch, i + 1) && AllSettle(tables, ids, batch, i + 1)
  {
    hide AddDoc, DocSettles, Filled;
    forall n | n in tables
      ensures tables'[n] == FilledAll(tables, ids, batch, i + 1)[n]
    {
      FilledStep(tables, ids, batch, i, n);
    }
  }

  lemma RoomFurther(tables: map<Name, seq<Slot>>, ids: seq<DocId>, batch: seq<Document>, i: nat, n: Name)
    requires i < |batch| == |ids| && n in tables
    ensures RoomFor(tables[n], BatchSize(n, batch, i)) && RoomFor(FilledAll(tables, ids, batch, i)[n], KeySize(n, batch[i])) <==>
            RoomFor(tables[n], BatchSize(n, batch, i + 1))
  {
    hide RoomFor, BatchSize, KeySize, Filled;
    RoomShrinks(n, tables[n], batch, i);
    if RoomFor(tables[n], BatchSize(n, batch, i)) {
      RoomSoFar(n, tables[n], ids, batch, i);
    }
  }

  lemma StopsFilling(tables: map<Name, seq<Slot>>, ids: seq<DocId>, batch: seq<Document>, i: nat, n: Name, tables': map<Name, seq<Slot>>)
    requires i < |batch| == |ids| && StoppedAt(n, FilledAll(tables, ids, batch, i), tables', batch[i], ids[i])
    ensures !AllSettle(tables, ids, batch, |batch|) && Stopped(n, tables, tables', ids, batch)
  {
    hide DocSettles, Filled, RoomFor, KeySize;
  }

  /** The slots after i documents name ids that were issued before. */
  lemma KnownFilledAt(docs: Docs, tables: map<Name, seq<Slot>>, ids: seq<DocId>, batch: seq<Document>, i: nat, n: Name, s: Slot)
    requires i <= |batch| == |ids| && Known(docs, tables) && n in tables && s in FilledAll(tables, ids, batch, i)[n]
    ensures s.doc in Extend(docs, ids, batch, i)
  {
    hide Filled, Extend;
    FilledHolds(n, tables[n], ids, batch, i, s);
    ExtendHolds(docs, ids, batch, i);
  }

  lemma {:induction false} ExtendHolds(docs: Docs, ids: seq<DocId>, batch: seq<Document>, i: nat)
    requires i <= |batch| == |ids|
    ensures forall d :: d in docs || d in ids[..i] ==> d in Extend(docs, ids, batch, i)
  {
    if i == 0 {
    } else {
      ExtendHolds(docs, ids, batch, i - 1);
      assert ids[..i] == ids[..i - 1] + [ids[i - 1]];
    }
  }

  lemma {:induction false} ExtendOn(docs: Docs, ids: seq<DocId>, batch: seq<Document>, i: nat, m: nat)
    requires i <= m <= |batch| == |ids|
    ensures forall d :: d in Extend(docs, ids, batch, i) ==> d in Extend(docs, ids, batch, m)
  {
    if i == m {
    } else {
      ExtendOn(docs, ids, batch, i, m - 1);
    }
  }

  lemma KnownFilled(docs: Docs, tables: map<Name, seq<Slot>>, ids: seq<DocId>, batch: seq<Document>)
    requires |batch| == |ids| && Known(docs, tables)
    ensures Known(Extend(docs, ids, batch, |batch|), FilledAll(tables, ids, batch, |batch|))
  {
    hide Filled, Extend;
    forall n, s | n in tables && s in FilledAll(tables, ids, batch, |batch|)[n]
      ensures s.doc in Extend(docs, ids, batch, |batch|)
    {
      KnownFilledAt(docs, tables, ids, batch, |batch|, n, s);
    }
  }

  lemma KnownAfter(docs: Docs, tables: map<Name, seq<Slot>>, ids: seq<DocId>, batch: seq<Document>, i: nat, tables': map<Name, seq<Slot>>)
    requires i < |batch| == |ids| && Known(docs, tables) && OnlyNew(FilledAll(tables, ids, batch, i), tables', ids[i])
    ensures Known(Extend(docs, ids, batch, |batch|), tables')
  {
    hide Filled, Extend;
    forall n, s | n in tables' && s in tables'[n]
      ensures s.doc in Extend(docs, ids, batch, |batch|)
    {
      if s.doc == ids[i] {
        StoredId(docs, ids, batch, i);
      } else {
        KnownFilledAt(docs, tables, ids, batch, i, n, s);
        ExtendOn(docs, ids, batch, i, |batch|);
      }
    }
  }

  lemma StoredId(docs: Docs, ids: seq<DocId>, batch: seq<Document>, i: nat)
    requires i < |batch| == |ids|
    ensures ids[i] in Extend(docs, ids, batch, |batch|)
  {
    StoredFrom(docs, ids, batch, i, |batch|);
  }

  lemma {:induction false} StoredFrom(docs: Docs, ids: seq<DocId>, batch: seq<Document>, i: nat, m: nat)
    requires i < m <= |batch| == |ids|
    ensures ids[i] in Extend(docs, ids, batch, m)
  {
    if m == i + 1 {
    } else {
      StoredFrom(docs, ids, batch, i, m - 1);
    }
  }

  /** A document that is not indexed yet has no slot. */
  lemma NoSlotYet(docs: Docs, tables: map<Name, seq<Slot>>, ids: seq<DocId>, batch: seq<Document>, i: nat)
    requires i < |batch| == |ids| && Known(docs, tables) && NewIds(docs, ids, batch)
    ensures forall n :: n in tables ==> NoSlotOf(FilledAll(tables, ids, batch, i)[n], ids[i])
  {
    hide Filled, Extend;
    assert NewId(docs, ids, batch, i);
    forall n, s | n in tables && s in FilledAll(tables, ids, batch, i)[n]
      ensures s.doc != ids[i]
    {
      KnownFilledAt(docs, tables, ids, batch, i, n, s);
    }
  }

  /** The tables once the document to be replaced is out of them. */
  ghost function Freed(tables: map<Name, seq<Slot>>, docs: Docs, t: Option<DocId>): map<Name, seq<Slot>> {
    if t.None? || !Indexes.Live(docs, t.value) then tables
    else map n | n in tables :: WithoutDoc(n, tables[n], docs[t.value].value, t.value)
  }

  /** The document can be written: it fits a record, and its keys exist and fit a page. */
  ghost predicate Storable(d: Document, names: set<Name>) {
    FitsRecord(d) && forall n :: n in names ==> Keyable(n, d) && KeyFits(n, d)
  }

  /** The document that an index has for a value. */
  ghost function TargetOf(tables: map<Name, seq<Slot>>, field: Text, value: Value): Option<DocId>
    requires Indexable(value)
  {
    if [field] in tables then Find(tables[[field]], SerializeKey(value).value) else None
  }

  /** Another live document has the values of e in all fields of a unique index. */
  ghost predicate SomeTwin(docs: Docs, unique: set<Name>, e: Document, except: Option<DocId>) {
    exists n :: n in unique && HasTwin(docs, n, e, except)
  }

  lemma SomeTwinIs(view: View, chain: seq<PageId>, root: PageId, names: set<Name>, unique: set<Name>, e: Document, except: Option<DocId>)
    requires HeapAt(view, chain, root) && Storable(e, names)
    ensures SomeTwin(DocsAt(view, chain), unique, e, except) <==> exists n :: n in unique && Clash(DocsAt(view, chain), n, e, except)
  {
    hide HeapAt, DocsAt, Clash, HasTwin, FitsRecord, Short, Keyable, KeyFits;
    FitsIsShort(e);
    ClashOnValues(view, chain, root, unique, e, except);
  }

  /** Refused iff another document has the values of a unique index; else the target is replaced by its merge with d, or d is
      stored. The indexes are in step afterwards iff their pages had room for the entry once the old one was out. */
  ghost predicate Upserted(docs: Docs, tables: map<Name, seq<Slot>>, unique: set<Name>, t: Option<DocId>, d: Document, r: Outcome<nat>,
                           docs': Docs, inStep: bool) {
    var e := Merged(docs, t, d);
    && (r.DuplicateKey? <==> SomeTwin(docs, unique, e, t))
    && (!r.DuplicateKey? ==> Replaces(docs, t, e, docs') && (r == Done(1) || r.Overfull?))
    && (inStep <==> r.DuplicateKey? || BatchFits(Freed(tables, docs, t), [e]))
  }

  lemma OneGone(docs: Docs, ids: seq<DocId>, gone: seq<(DocId, Document)>)
    requires |ids| == 1 && Indexes.Live(docs, ids[0]) && |gone| == |LiveAmong(docs, ids)| && AllWereLive(docs, gone)
    requires forall g :: g in gone ==> g.0 in ids
    ensures |gone| == 1 && gone[0] == (ids[0], docs[ids[0]].value)
  {
    assert LiveAmong(docs, ids) == {ids[0]};
    assert gone[0] in gone && WasLive(docs, gone, 0);
    RemovedNone(docs, gone);
  }

  lemma RangeIsLive(docs: Docs, field: Text, tables: map<Name, seq<Slot>>, unique: set<Name>, low: Value, high: Value)
    requires Consistent(docs, tables, unique) && [field] in tables && Indexable(low) && Indexable(high)
    ensures var ids := Range(tables[[field]], SerializeKey(low).value, SerializeKey(high).value);
      forall i :: 0 <= i < |ids| ==> Indexes.Live(docs, ids[i])
  {
    hide SerializeKey, Range, Unique, AllKeyable, Ordered;
    var slots := tables[[field]];
    assert InStep(docs, [field], slots);
    var ids := Range(slots, SerializeKey(low).value, SerializeKey(high).value);
    forall i | 0 <= i < |ids|
      ensures Indexes.Live(docs, ids[i])
    {
      var s := RangeFrom(slots, SerializeKey(low).value, SerializeKey(high).value, i);
    }
  }

  lemma RangeInStep(docs: Docs, field: Text, tables: map<Name, seq<Slot>>, unique: set<Name>, low: Value, high: Value,
                    rows: seq<(DocId, Document)>)
    requires Consistent(docs, tables, unique) && [field] in tables && Indexable(low) && Indexable(high)
    requires Fetched(docs, Range(tables[[field]], SerializeKey(low).value, SerializeKey(high).value), rows)
    ensures RangeRows(docs, field, low, high, rows)
  {
    hide SerializeKey, Range, Unique, AllKeyable, InStep, Fetched, RangeRows;
    RangeIsRows(docs, field, tables[[field]], low, high, rows);
  }

  // building an index

  ghost predicate AllFit(docs: Docs, n: Name) {
    forall id :: Indexes.Live(docs, id) ==> KeyFits(n, docs[id].value)
  }

  function DocList(list: seq<(DocId, Document)>): (ds: seq<Document>)
    ensures |ds| == |list| && forall i :: 0 <= i < |list| ==> ds[i] == list[i].1
  {
    seq(|list|, i requires 0 <= i < |list| => list[i].1)
  }

  lemma EmptyLeaf(p: Page)
    requires Represents(p, LeafOf([], None))
    ensures IndexPage(p) && Slots(p) == []
  {
    hide Represents;
    LeafIs(p, LeafOf([], None));
  }

  lemma NotInUse(view: View, chain: seq<PageId>, root: PageId, indexes: map<Name, PageId>, p: PageId)
    requires HeapAt(view, chain, root) && Published(view, chain, indexes) && p !in view
    ensures p !in chain && p !in indexes.Values
  {
    hide PageOk, AllSound, IndexPage;
    if p in chain {
      InChain(view, chain, p);
    }
    assert forall n :: n in indexes ==> PublishedAt(view, chain, indexes[n]);
  }

  lemma PublishNew(view: View, chain: seq<PageId>, indexes: map<Name, PageId>, name: Name, first: PageId)
    requires Published(view, chain, indexes) && name !in indexes && first !in chain && first !in indexes.Values
    requires first in view && first < NO_NEXT && IndexPage(view[first])
    ensures Published(view, chain, indexes[name := first])
    ensures TablesAt(view, indexes[name := first]) == TablesAt(view, indexes)[name := Slots(view[first])]
  {
    hide HoldsLeaf, Slots, SlotsAt, PublishedAt;
    forall n | n in indexes
      ensures indexes[n] in indexes.Values && indexes[n] != first
    {
    }
    assert PublishedAt(view, chain, first) && SlotsAt(view, first) == Slots(view[first]) by {
      PublishedHere(view, chain, first);
    }
  }

  lemma PublishedHere(view: View, chain: seq<PageId>, r: PageId)
    requires r in view && r !in chain && r < NO_NEXT && IndexPage(view[r])
    ensures PublishedAt(view, chain, r) && SlotsAt(view, r) == Slots(view[r])
  {
    hide HoldsLeaf;
  }

  lemma StartBuild(name: Name, list: seq<(DocId, Document)>)
    ensures ListedDocs(list, 0) == imap[] && SlotsSize([]) == BatchSize(name, DocList(list), 0) == 0
  {
  }

  lemma ListedLive(list: seq<(DocId, Document)>, docs: Docs, name: Name, i: nat)
    requires Listing(list, docs) && AllFit(docs, name) && i < |list|
    ensures list[i].0 in docs && docs[list[i].0] == Some(list[i].1) && KeyFits(name, list[i].1)
  {
    hide KeyFits;
    assert (list[i].0, list[i].1) in list;
  }

  lemma ListedGrows(list: seq<(DocId, Document)>, name: Name, slots: seq<Slot>, i: nat)
    requires i < |list| && SlotsSize(slots) == BatchSize(name, DocList(list), i)
    ensures ListedDocs(list, i + 1) == ListedDocs(list, i)[list[i].0 := Some(list[i].1)]
    ensures SlotsSize(WithDoc(name, slots, list[i].1, list[i].0)) == BatchSize(name, DocList(list), i + 1)
  {
    hide SlotsSize, WithDoc, KeySize;
    WithDocSize(name, slots, list[i].1, list[i].0);
  }

  lemma NotInStepYet(docs: Docs, n: Name, slots: seq<Slot>, s: Slot)
    requires InStep(docs, n, slots) && s.doc !in docs
    ensures s !in slots
  {
    hide KeyFor, Ordered;
  }

  lemma BuildOverflows(list: seq<(DocId, Document)>, name: Name, slots: seq<Slot>, i: nat)
    requires i < |list| && SlotsSize(slots) == BatchSize(name, DocList(list), i) && !RoomFor(slots, KeySize(name, list[i].1))
    ensures !RoomFor([], BatchSize(name, DocList(list), |list|))
  {
    hide KeySize, SlotsSize, BatchSize;
    NoSlots();
    BatchSizeGrows(name, DocList(list), i + 1, |list|);
    NextSize(name, DocList(list), i);
  }

  lemma NoSlots()
    ensures SlotsSize([]) == 0
  {
  }

  lemma NextSize(name: Name, ds: seq<Document>, i: nat)
    requires i < |ds|
    ensures BatchSize(name, ds, i + 1) == BatchSize(name, ds, i) + KeySize(name, ds[i])
  {
  }

  lemma BuildFits(list: seq<(DocId, Document)>, name: Name, slots: seq<Slot>)
    requires SlotsSize(slots) == BatchSize(name, DocList(list), |list|) && RoomFor(slots, 0)
    ensures RoomFor([], BatchSize(name, DocList(list), |list|))
  {
    hide BatchSize;
  }

  lemma BuildLost(list: seq<(DocId, Document)>, docs: Docs, name: Name, slots: seq<Slot>, i: nat, slots': seq<Slot>, ok: bool)
    requires i < |list| && Listing(list, docs) && InStep(ListedDocs(list, i), name, slots) && list[i].0 !in ListedDocs(list, i)
    requires KeyFor(name, list[i].1).Some? && KeyFits(name, list[i].1) && !RoomFor(slots, KeySize(name, list[i].1))
    requires slots' == if ok then AddDoc(name, slots, list[i].1, list[i].0) else slots[..|slots| / 2]
    ensures Partial(docs, name, slots')
  {
    hide KeyFor, InStep, ListedDocs, RoomFor, AddDoc, Partial, KeySize;
    FullHasSlots(slots, KeySize(name, list[i].1));
    if ok {
      AddLoses(ListedDocs(list, i), name, slots, list[i].1, list[i].0);
      NextListed(list, i);
      PartialListed(list, docs, name, i + 1, slots');
    } else {
      HalfIsPartial(ListedDocs(list, i), name, slots);
      PartialListed(list, docs, name, i, slots');
    }
  }

  lemma NextListed(list: seq<(DocId, Document)>, i: nat)
    requires i < |list|
    ensures ListedDocs(list, i + 1) == ListedDocs(list, i)[list[i].0 := Some(list[i].1)]
  {
  }

  lemma ListedKey(list: seq<(DocId, Document)>, docs: Docs, name: Name, i: nat, s: Slot)
    requires i <= |list| && Listing(list, docs) && HasKey(ListedDocs(list, i), name, s)
    ensures HasKey(docs, name, s)
  {
    hide KeyFor, ListedDocs;
    ListedIs(list, i, s.doc);
    var j :| 0 <= j < i && list[j].0 == s.doc;
    assert (list[j].0, list[j].1) in list;
  }

  lemma PartialListed(list: seq<(DocId, Document)>, docs: Docs, name: Name, i: nat, slots: seq<Slot>)
    requires i <= |list| && Listing(list, docs) && Partial(ListedDocs(list, i), name, slots)
    ensures Partial(docs, name, slots)
  {
    hide HasKey, ListedDocs, Listing;
    var lost :| HasKey(ListedDocs(list, i), name, lost) && lost !in slots;
    ListedKey(list, docs, name, i, lost);
    forall s | s in slots
      ensures HasKey(docs, name, s)
    {
      ListedKey(list, docs, name, i, s);
    }
  }
}
