/** src/storage/heap.rs: records in a chain of slotted pages, extended through any number of handles. */
module Heap {
  import opened Bytes
  import opened Disk
  import opened Pool
  import opened Nodes
  import opened Layout
  import opened Slotted

  /** Page i of the chain is allocated, well formed and links to page i + 1. */
  ghost predicate LinkOk(view: map<PageId, Page>, chain: seq<PageId>, i: nat)
    requires i < |chain|
  {
    && chain[i] in view && chain[i] < NO_NEXT && PageOk(view[chain[i]])
    && Slotted.Next(view[chain[i]]) == if i + 1 < |chain| then chain[i + 1] else NO_NEXT
  }

  /** One acyclic chain that ends. */
  ghost predicate HeapOk(view: map<PageId, Page>, chain: seq<PageId>) {
    |chain| > 0 && Distinct(chain) && forall i :: 0 <= i < |chain| ==> LinkOk(view, chain, i)
  }

  /** Ids handed out so far, deleted ones included. */
  ghost predicate Issued(view: map<PageId, Page>, chain: seq<PageId>, d: DocId) {
    d.0 in chain && d.0 in view && d.1 < SlotCount(view[d.0])
  }

  /** Every id ever handed out, with its record or None once it is deleted. */
  ghost function Docs(view: map<PageId, Page>, chain: seq<PageId>): imap<DocId, Option<Bytes>>
    requires HeapOk(view, chain)
  {
    imap d: DocId | Issued(view, chain, d) :: (InChain(view, chain, d.0); Records(view[d.0])[d.1])
  }

  lemma InChain(view: map<PageId, Page>, chain: seq<PageId>, p: PageId)
    requires HeapOk(view, chain) && p in chain
    ensures p in view && PageOk(view[p]) && p < NO_NEXT
  {
    var i :| 0 <= i < |chain| && chain[i] == p;
    assert LinkOk(view, chain, i);
  }

  /** Rewriting one page in place without touching its link. */
  lemma PageChanged(view: map<PageId, Page>, chain: seq<PageId>, p: PageId, q: Page)
    requires HeapOk(view, chain) && p in chain && PageOk(q) && p in view && Slotted.Next(q) == Slotted.Next(view[p])
    ensures HeapOk(view[p := q], chain)
  {
    hide PageOk, Slotted.Next;
    var view' := view[p := q];
    forall i | 0 <= i < |chain|
      ensures LinkOk(view', chain, i)
    {
      assert LinkOk(view, chain, i);
    }
  }

  lemma RecordAdded(view: map<PageId, Page>, chain: seq<PageId>, p: PageId, data: Bytes)
    requires HeapOk(view, chain) && p in chain && p in view && PageOk(view[p]) && Fits(view[p], data) && |data| > 0
    ensures var view', id := view[p := WithRecord(view[p], data)], (p, SlotCount(view[p]));
      && HeapOk(view', chain) && id !in Docs(view, chain) && Docs(view', chain) == Docs(view, chain)[id := Some(data)]
  {
    hide PageOk, Slotted.Next, WithRecord, Fits, HeapOk, SlotCount, Records;
    OkIsBounded(view[p]);
    RecordAppended(view[p], data);
    PageChanged(view, chain, p, WithRecord(view[p], data));
    RecordsLength(view[p]);
    RecordsLength(WithRecord(view[p], data));
  }

  lemma RecordsLength(p: Page)
    requires PageOk(p)
    ensures |Records(p)| == SlotCount(p)
  {
  }

  lemma RecordDeleted(view: map<PageId, Page>, chain: seq<PageId>, d: DocId)
    requires HeapOk(view, chain) && d.0 in chain && d.0 in view && PageOk(view[d.0])
    ensures var view' := view[d.0 := Tombstone(view[d.0], d.1)];
      && HeapOk(view', chain)
      && Docs(view', chain) == if d in Docs(view, chain) then Docs(view, chain)[d := None] else Docs(view, chain)
  {
    hide PageOk, Slotted.Next, Tombstone, HeapOk, SlotCount, Records;
    Tombstoned(view[d.0], d.1);
    PageChanged(view, chain, d.0, Tombstone(view[d.0], d.1));
    RecordsLength(view[d.0]);
    RecordsLength(Tombstone(view[d.0], d.1));
  }

  /** The view after the tail was linked to a page that is new to the pool. */
  ghost function Extended(view: map<PageId, Page>, tail: PageId, id: PageId, q: Page): map<PageId, Page>
    requires tail in view
  {
    view[id := q][tail := Slotted.Linked(view[tail], id)]
  }

  lemma ChainExtended(view: map<PageId, Page>, chain: seq<PageId>, id: PageId, q: Page)
    requires HeapOk(view, chain) && id !in view && id < NO_NEXT && PageOk(q) && Slotted.Next(q) == NO_NEXT
    requires chain[|chain| - 1] in view
    ensures HeapOk(Extended(view, chain[|chain| - 1], id, q), chain + [id])
  {
    hide PageOk, Slotted.Next, Slotted.Linked;
    var view' := Extended(view, chain[|chain| - 1], id, q);
    assert LinkOk(view, chain, |chain| - 1);
    LinkedRecords(view[chain[|chain| - 1]], id);
    forall i | 0 <= i < |chain|
      ensures chain[i] != id && LinkOk(view', chain + [id], i)
    {
      assert LinkOk(view, chain, i);
    }
    assert LinkOk(view', chain + [id], |chain|);
  }

  lemma RecordInNewPage(view: map<PageId, Page>, chain: seq<PageId>, id: PageId, q: Page, data: Bytes)
    requires HeapOk(view, chain) && id !in view && id < NO_NEXT && PageOk(q) && Slotted.Next(q) == NO_NEXT
    requires chain[|chain| - 1] in view && Records(q) == [Some(data)]
    ensures var view' := Extended(view, chain[|chain| - 1], id, q);
      && HeapOk(view', chain + [id]) && (id, 0) !in Docs(view, chain)
      && Docs(view', chain + [id]) == Docs(view, chain)[(id, 0) := Some(data)]
  {
    hide PageOk, Slotted.Next, Slotted.Linked, HeapOk, SlotCount, Records;
    HeapHasRoot(view, chain);
    var tail := chain[|chain| - 1];
    var view' := Extended(view, tail, id, q);
    ChainExtended(view, chain, id, q);
    InChain(view, chain, tail);
    LinkedRecords(view[tail], id);
    RecordsLength(view[tail]);
    RecordsLength(Slotted.Linked(view[tail], id));
    RecordsLength(q);
    forall d: DocId
      ensures d in Docs(view', chain + [id]) <==> d in Docs(view, chain) || d == (id, 0)
      ensures d in Docs(view, chain) ==> Docs(view', chain + [id])[d] == Docs(view, chain)[d]
    {
      if d.0 in chain {
        InChain(view, chain, d.0);
      }
    }
  }

  // scanning

  ghost function Scan(view: map<PageId, Page>, chain: seq<PageId>, n: nat): seq<(DocId, Bytes)>
    requires HeapOk(view, chain) && n <= |chain|
  {
    if n == 0 then [] else
      assert LinkOk(view, chain, n - 1);
      Scan(view, chain, n - 1) + PageScan(chain[n - 1], view[chain[n - 1]])
  }

  ghost function PageScan(id: PageId, p: Page): seq<(DocId, Bytes)>
    requires PageOk(p)
  {
    LiveRecords(id, Records(p), SlotCount(p))
  }

  ghost predicate Once(s: seq<(DocId, Bytes)>) {
    forall i, j :: 0 <= i < j < |s| ==> s[i].0 != s[j].0
  }

  lemma {:induction false} PageScanExact(id: PageId, rs: seq<Option<Bytes>>, n: nat)
    requires n <= |rs|
    ensures var s := LiveRecords(id, rs, n);
      && Once(s)
      && forall d: DocId, b :: (d, b) in s <==> d.0 == id && d.1 < n && rs[d.1] == Some(b)
  {
    if n == 0 {
    } else {
      PageScanExact(id, rs, n - 1);
      var s, t := LiveRecords(id, rs, n - 1), LiveRecords(id, rs, n);
      forall i | 0 <= i < |s|
        ensures s[i].0.1 < n - 1
      {
        assert (s[i].0, s[i].1) in s;
      }
    }
  }

  lemma OnceAppend(s: seq<(DocId, Bytes)>, t: seq<(DocId, Bytes)>)
    requires Once(s) && Once(t) && forall x, y :: x in s && y in t ==> x.0 != y.0
    ensures Once(s + t)
  {
    forall i, j | 0 <= i < j < |s + t|
      ensures (s + t)[i].0 != (s + t)[j].0
    {
      if i < |s| <= j {
        assert s[i] in s && t[j - |s|] in t;
      }
    }
  }

  lemma {:induction false} ScanPrefix(view: map<PageId, Page>, chain: seq<PageId>, n: nat)
    requires HeapOk(view, chain) && n <= |chain|
    ensures var s := Scan(view, chain, n);
      && Once(s)
      && forall d: DocId, b :: (d, b) in s <==> d.0 in chain[..n] && d in Docs(view, chain) && Docs(view, chain)[d] == Some(b)
  {
    hide PageOk, Slotted.Next, SlotCount, Records, LiveRecords, HeapOk;
    if n == 0 {
    } else {
      ScanPrefix(view, chain, n - 1);
      var p := chain[n - 1];
      InChain(view, chain, p);
      RecordsLength(view[p]);
      PageScanExact(p, Records(view[p]), SlotCount(view[p]));
      assert chain[..n] == chain[..n - 1] + [p];
      NotBefore(view, chain, n - 1);
      var s, t := Scan(view, chain, n - 1), PageScan(p, view[p]);
      forall x, y | x in s && y in t
        ensures x.0 != y.0
      {
        assert (x.0, x.1) in s && (y.0, y.1) in t;
      }
      OnceAppend(s, t);
    }
  }

  lemma NotBefore(view: map<PageId, Page>, chain: seq<PageId>, n: nat)
    requires HeapOk(view, chain) && n < |chain|
    ensures chain[n] !in chain[..n]
  {
    hide LinkOk;
  }

  /** scan_all lists every live record exactly once with its bytes, and nothing else. */
  lemma ScanExact(view: map<PageId, Page>, chain: seq<PageId>)
    requires HeapOk(view, chain)
    ensures var s := Scan(view, chain, |chain|);
      && Once(s)
      && forall d: DocId, b :: (d, b) in s <==> d in Docs(view, chain) && Docs(view, chain)[d] == Some(b)
  {
    hide HeapOk, Scan, Once, Records;
    ScanPrefix(view, chain, |chain|);
    assert chain[..|chain|] == chain;
  }

  class HeapFile {
    const root: PageId
    var lastPage: PageId

    /** A handle of the heap: it starts at the root and its cached tail, however old, is a page of the chain. */
    ghost predicate Attached(chain: seq<PageId>)
      reads this
    {
      |chain| > 0 && root == chain[0] && lastPage in chain
    }

    constructor (root: PageId, lastPage: PageId)
      ensures this.root == root && this.lastPage == lastPage
    {
      this.root := root;
      this.lastPage := lastPage;
    }

    static method Create(bp: BufferPool<Page>) returns (h: HeapFile, ghost chain: seq<PageId>)
      requires bp.Valid() && |bp.disk.file| < NO_NEXT
      modifies bp, bp.disk
      ensures bp.Valid() && fresh(h) && h.Attached(chain) && h.root !in old(bp.View())
      ensures HeapOk(bp.View(), chain) && chain == [h.root] && Docs(bp.View(), chain) == imap[] && |bp.disk.file| <= old(|bp.disk.file|) + 1
      ensures forall p :: p in old(bp.View()) ==> p in bp.View() && bp.View()[p] == old(bp.View())[p]
    {
      hide Flat, Inv, Packed, LastAccess, PageOk, Records, Initial, SlotCount;
      var root, unit := bp.NewPage((p: Page) => (Initial(p), ()));
      h := new HeapFile(root, root);
      chain := [root];
      InitialPage(bp.disk.zero);
      RecordsLength(Initial(bp.disk.zero));
      assert LinkOk(bp.View(), chain, 0);
    }

    static method Open(bp: BufferPool<Page>, root: PageId, ghost chain: seq<PageId>) returns (h: HeapFile)
      requires bp.Valid() && HeapOk(bp.View(), chain) && chain[0] == root
      modifies bp, bp.disk
      ensures bp.Valid() && bp.View() == old(bp.View()) && fresh(h) && h.Attached(chain)
      ensures |bp.disk.file| == old(|bp.disk.file|)
    {
      hide Flat, Inv, Packed, LastAccess, HeapOk;
      HeapHasRoot(bp.View(), chain);
      var last := FindLastPage(bp, root, chain);
      h := new HeapFile(root, last);
    }

    /** Follows the links from any page of the chain to its end. */
    static method FindLastPage(bp: BufferPool<Page>, start: PageId, ghost chain: seq<PageId>) returns (current: PageId)
      requires bp.Valid() && HeapOk(bp.View(), chain) && start in chain
      modifies bp, bp.disk
      ensures bp.Valid() && bp.View() == old(bp.View()) && |bp.disk.file| == old(|bp.disk.file|)
      ensures |chain| > 0 && current == chain[|chain| - 1]
    {
      hide Flat, Inv, Packed, LastAccess, HeapOk, PageOk, bp.Valid;
      current := start;
      ghost var i :| 0 <= i < |chain| && chain[i] == start;
      while true
        invariant 0 <= i < |chain| && chain[i] == current
        invariant bp.Valid() && bp.View() == old(bp.View()) && |bp.disk.file| == old(|bp.disk.file|)
        decreases |chain| - i
      {
        LinkAt(bp.View(), chain, i);
        var next := bp.WithPage(current, Slotted.Next);
        if next == NO_NEXT {
          return;
        }
        current := next;
        i := i + 1;
      }
    }

    /** Fast path on the cached tail, else on the real tail, else on a new page linked from the real tail. */
    method Insert(bp: BufferPool<Page>, data: Bytes, ghost chain: seq<PageId>) returns (id: DocId, ghost chain': seq<PageId>)
      requires bp.Valid() && HeapOk(bp.View(), chain) && Attached(chain) && |bp.disk.file| < NO_NEXT
      requires 0 < |data| <= MAX_RECORD
      modifies this`lastPage, bp, bp.disk
      ensures bp.Valid() && HeapOk(bp.View(), chain') && Attached(chain')
      ensures chain' == chain || (chain' == chain + [id.0] && id.0 !in old(bp.View()))
      ensures id !in Docs(old(bp.View()), chain) && |bp.disk.file| <= old(|bp.disk.file|) + 1
      ensures Docs(bp.View(), chain') == Docs(old(bp.View()), chain)[id := Some(data)]
      ensures forall p :: p in old(bp.View()) && p !in chain ==> p in bp.View() && bp.View()[p] == old(bp.View())[p]
    {
      hide Flat, Inv, Packed, LastAccess, HeapOk, PageOk, Docs, bp.Valid, Fits, FreeSpace, WithRecord;
      var tail := lastPage;
      chain' := chain;
      InChain(bp.View(), chain, tail);
      var fits := bp.WithPage(tail, (p: Page) => Fits(p, data));
      if fits {
        id := InsertIn(bp, tail, data, chain);
        return;
      }
      var currentTail := FindLastPage(bp, tail, chain);
      lastPage := currentTail;
      InChain(bp.View(), chain, currentTail);
      if currentTail != tail {
        fits := bp.WithPage(currentTail, (p: Page) => Fits(p, data));
        if fits {
          id := InsertIn(bp, currentTail, data, chain);
          return;
        }
      }
      assert bp.View() == old(bp.View());
      id := ExtendTail(bp, currentTail, data, chain);
      lastPage := id.0;
      chain' := chain + [id.0];
    }

    /** A new page with the record as its first, linked from the last page. */
    method ExtendTail(bp: BufferPool<Page>, tail: PageId, data: Bytes, ghost chain: seq<PageId>) returns (id: DocId)
      requires bp.Valid() && HeapOk(bp.View(), chain) && |bp.disk.file| < NO_NEXT && 0 < |data| <= MAX_RECORD
      requires |chain| > 0 && tail == chain[|chain| - 1]
      modifies bp, bp.disk
      ensures bp.Valid() && HeapOk(bp.View(), chain + [id.0]) && |bp.disk.file| <= old(|bp.disk.file|) + 1
      ensures id.0 !in old(bp.View()) && id !in Docs(old(bp.View()), chain)
      ensures Docs(bp.View(), chain + [id.0]) == Docs(old(bp.View()), chain)[id := Some(data)]
      ensures forall p :: p in old(bp.View()) && p != tail ==> p in bp.View() && bp.View()[p] == old(bp.View())[p]
    {
      hide Flat, Inv, Packed, LastAccess, HeapOk, PageOk, Docs, bp.Valid, Fits, FreeSpace, WithRecord, Initial, Slotted.Linked;
      ghost var view := bp.View();
      FirstRecord(bp.disk.zero, data);
      InChain(view, chain, tail);
      var newId, slot := bp.NewPage((p: Page) requires Started(p, data) => (WithRecord(Initial(p), data), SlotCount(Initial(p))));
      var _ := bp.WithPageMut(tail, (p: Page) => (Slotted.Linked(p, newId), ()));
      RecordInNewPage(view, chain, newId, WithRecord(Initial(bp.disk.zero), data), data);
      assert bp.View() == Extended(view, tail, newId, WithRecord(Initial(bp.disk.zero), data));
      id := (newId, slot);
    }

    /** The two mutating calls of the fast paths. */
    method InsertIn(bp: BufferPool<Page>, p: PageId, data: Bytes, ghost chain: seq<PageId>) returns (id: DocId)
      requires bp.Valid() && HeapOk(bp.View(), chain) && p in chain && p in bp.View() && Fits(bp.View()[p], data) && |data| > 0
      modifies bp, bp.disk
      ensures bp.Valid() && HeapOk(bp.View(), chain) && id !in Docs(old(bp.View()), chain) && |bp.disk.file| == old(|bp.disk.file|)
      ensures Docs(bp.View(), chain) == Docs(old(bp.View()), chain)[id := Some(data)]
      ensures forall q :: q in old(bp.View()) && q != p ==> q in bp.View() && bp.View()[q] == old(bp.View())[q]
    {
      hide Flat, Inv, Packed, LastAccess, HeapOk, PageOk, Docs, bp.Valid, WithRecord;
      InChain(bp.View(), chain, p);
      RecordAdded(bp.View(), chain, p, data);
      OkIsBounded(bp.View()[p]);
      var slot := bp.WithPageMut(p, (q: Page) requires Fits(q, data) && FreeEnd(q) <= PAGE_SIZE => (WithRecord(q, data), SlotCount(q)));
      id := (p, slot);
    }

    method Read(bp: BufferPool<Page>, id: DocId, ghost chain: seq<PageId>) returns (r: Option<Bytes>)
      requires bp.Valid() && HeapOk(bp.View(), chain) && id.0 in chain
      modifies bp, bp.disk
      ensures bp.Valid() && bp.View() == old(bp.View()) && |bp.disk.file| == old(|bp.disk.file|)
      ensures r == if id in Docs(bp.View(), chain) then Docs(bp.View(), chain)[id] else None
    {
      hide Flat, Inv, Packed, LastAccess, HeapOk, bp.Valid;
      InChain(bp.View(), chain, id.0);
      r := bp.WithPage(id.0, (p: Page) requires id.1 < SlotCount(p) ==> RecordInside(p, id.1) => ReadSlot(p, id.1));
    }

    method Delete(bp: BufferPool<Page>, id: DocId, ghost chain: seq<PageId>)
      requires bp.Valid() && HeapOk(bp.View(), chain) && id.0 in chain
      modifies bp, bp.disk
      ensures bp.Valid() && HeapOk(bp.View(), chain) && |bp.disk.file| == old(|bp.disk.file|)
      ensures var docs := Docs(old(bp.View()), chain);
        Docs(bp.View(), chain) == if id in docs then docs[id := None] else docs
      ensures forall q :: q in old(bp.View()) && q != id.0 ==> q in bp.View() && bp.View()[q] == old(bp.View())[q]
    {
      hide Flat, Inv, Packed, LastAccess, HeapOk, PageOk, Docs, bp.Valid, Tombstone;
      InChain(bp.View(), chain, id.0);
      RecordDeleted(bp.View(), chain, id);
      var _ := bp.WithPageMut(id.0, (p: Page) requires PageOk(p) => (Tombstone(p, id.1), ()));
    }

    /** One page of the scan and where it goes on. */
    method ScanPage(bp: BufferPool<Page>, id: PageId) returns (recs: seq<(DocId, Bytes)>, next: Option<PageId>)
      requires bp.Valid() && id in bp.View() && PageOk(bp.View()[id])
      modifies bp, bp.disk
      ensures bp.Valid() && bp.View() == old(bp.View()) && |bp.disk.file| == old(|bp.disk.file|)
      ensures recs == PageScan(id, bp.View()[id])
      ensures var n := Slotted.Next(bp.View()[id]); next == if n == NO_NEXT then None else Some(n)
    {
      hide Flat, Inv, Packed, LastAccess, bp.Valid;
      var page := bp.WithPage(id, (p: Page) => p);
      recs := ScanSlots(page, id);
      var n := Slotted.Next(page);
      next := if n == NO_NEXT then None else Some(n);
    }

    /** Every live record exactly once, in chain and slot order. */
    method ScanAll(bp: BufferPool<Page>, ghost chain: seq<PageId>) returns (out: seq<(DocId, Bytes)>)
      requires bp.Valid() && HeapOk(bp.View(), chain) && Attached(chain)
      modifies bp, bp.disk
      ensures bp.Valid() && bp.View() == old(bp.View()) && |bp.disk.file| == old(|bp.disk.file|)
      ensures out == Scan(bp.View(), chain, |chain|)
      ensures Once(out) && var docs := Docs(bp.View(), chain);
        forall d: DocId, b :: (d, b) in out <==> d in docs && docs[d] == Some(b)
    {
      hide Flat, Inv, Packed, LastAccess, HeapOk, PageOk, bp.Valid, PageScan, Docs, Once;
      out := [];
      var current := Some(root);
      ghost var i := 0;
      while current.Some?
        invariant 0 <= i <= |chain| && current == (if i < |chain| then Some(chain[i]) else None)
        invariant bp.Valid() && bp.View() == old(bp.View()) && |bp.disk.file| == old(|bp.disk.file|)
        invariant out == Scan(bp.View(), chain, i)
        decreases |chain| - i
      {
        LinkAt(bp.View(), chain, i);
        var recs, next := ScanPage(bp, current.value);
        out := out + recs;
        current := next;
        i := i + 1;
      }
      ScanExact(bp.View(), chain);
    }
  }

  // runs over any number of handles

  /** An id in use before the run, or the one that step k of the run returned or deleted. */
  datatype Target = Given(id: DocId) | Step(k: nat)

  /** An insert or a delete through handle h. */
  datatype Op = Insert(h: nat, data: Bytes) | Delete(h: nat, target: Target)

  ghost predicate OpOk(docs: imap<DocId, Option<Bytes>>, op: Op, handles: nat, at: nat) {
    match op
    case Insert(h, data) => h < handles && 0 < |data| <= MAX_RECORD
    case Delete(h, Given(id)) => h < handles && id in docs
    case Delete(h, Step(k)) => h < handles && k < at
  }

  /** What the ids hold after the first n steps, when step i returned or deleted log[i]. */
  ghost function Replay(docs: imap<DocId, Option<Bytes>>, ops: seq<Op>, log: seq<DocId>, n: nat): imap<DocId, Option<Bytes>>
    requires n <= |ops| && n <= |log|
  {
    if n == 0 then docs
    else Replay(docs, ops, log, n - 1)[log[n - 1] := if ops[n - 1].Insert? then Some(ops[n - 1].data) else None]
  }

  lemma {:induction false} ReplayPrefix(docs: imap<DocId, Option<Bytes>>, ops: seq<Op>, log: seq<DocId>, more: seq<DocId>, n: nat)
    requires n <= |ops| && n <= |log|
    ensures Replay(docs, ops, log + more, n) == Replay(docs, ops, log, n)
  {
    if n == 0 {
    } else {
      ReplayPrefix(docs, ops, log, more, n - 1);
    }
  }

  /** Ids already handed out stay handed out. */
  lemma {:induction false} ReplayKeeps(docs: imap<DocId, Option<Bytes>>, ops: seq<Op>, log: seq<DocId>, n: nat)
    requires n <= |ops| && n <= |log|
    ensures forall d :: d in docs ==> d in Replay(docs, ops, log, n)
    ensures forall i :: 0 <= i < n ==> log[i] in Replay(docs, ops, log, n)
  {
    if n == 0 {
    } else {
      ReplayKeeps(docs, ops, log, n - 1);
    }
  }

  lemma ReplayStart(docs: imap<DocId, Option<Bytes>>, ops: seq<Op>, log: seq<DocId>)
    ensures Replay(docs, ops, log, 0) == docs
  {
  }

  lemma ReplayStep(docs: imap<DocId, Option<Bytes>>, ops: seq<Op>, log: seq<DocId>, id: DocId, n: nat)
    requires n < |ops| && n == |log|
    ensures Replay(docs, ops, log + [id], n + 1) ==
            Replay(docs, ops, log, n)[id := if ops[n].Insert? then Some(ops[n].data) else None]
  {
    ReplayPrefix(docs, ops, log, [id], n);
  }

  lemma IssuedInChain(view: map<PageId, Page>, chain: seq<PageId>, id: DocId)
    requires HeapOk(view, chain) && id in Docs(view, chain)
    ensures id.0 in chain
  {
  }

  /** The id of every insert is new: neither in use before the run nor returned or deleted by an earlier step. */
  ghost predicate FreshId(docs: imap<DocId, Option<Bytes>>, ops: seq<Op>, log: seq<DocId>, i: nat)
    requires i < |ops| && i < |log|
  {
    ops[i].Insert? ==> log[i] !in docs && log[i] !in log[..i]
  }

  /** Any interleaving through handles whose tails may be arbitrarily old. */
  method Run(bp: BufferPool<Page>, handles: seq<HeapFile>, ops: seq<Op>, ghost chain0: seq<PageId>)
    returns (log: seq<DocId>, ghost chain: seq<PageId>)
    requires bp.Valid() && HeapOk(bp.View(), chain0) && |bp.disk.file| + |ops| < NO_NEXT
    requires forall i :: 0 <= i < |handles| ==> handles[i].Attached(chain0)
    requires forall i :: 0 <= i < |ops| ==> OpOk(Docs(bp.View(), chain0), ops[i], |handles|, i)
    modifies bp, bp.disk, handles
    ensures bp.Valid() && HeapOk(bp.View(), chain) && chain0 <= chain
    ensures forall i :: 0 <= i < |handles| ==> handles[i].Attached(chain)
    ensures |log| == |ops| && forall i :: 0 <= i < |ops| ==> FreshId(Docs(old(bp.View()), chain0), ops, log, i)
    ensures Docs(bp.View(), chain) == Replay(Docs(old(bp.View()), chain0), ops, log, |ops|)
  {
    hide Flat, Inv, Packed, LastAccess, HeapOk, bp.Valid, Docs, Replay;
    log, chain := [], chain0;
    ghost var docs := Docs(bp.View(), chain0);
    ReplayStart(docs, ops, log);
    for n := 0 to |ops|
      invariant bp.Valid() && HeapOk(bp.View(), chain) && chain0 <= chain && |bp.disk.file| + |ops| - n < NO_NEXT
      invariant forall i :: 0 <= i < |handles| ==> handles[i].Attached(chain)
      invariant |log| == n && forall i :: 0 <= i < n ==> FreshId(docs, ops, log, i) && log[i].0 in chain
      invariant Docs(bp.View(), chain) == Replay(docs, ops, log, n)
    {
      ghost var before := Docs(bp.View(), chain);
      ReplayKeeps(docs, ops, log, n);
      var id: DocId;
      ghost var chain' := chain;
      assert OpOk(docs, ops[n], |handles|, n);
      match ops[n] {
        case Insert(h, data) =>
          id, chain' := handles[h].Insert(bp, data, chain);
          IssuedInChain(bp.View(), chain', id);
        case Delete(h, target) =>
          id := if target.Given? then target.id else log[target.k];
          IssuedInChain(bp.View(), chain, id);
          handles[h].Delete(bp, id, chain);
      }
      ReplayStep(docs, ops, log, id, n);
      forall i | 0 <= i <= n
        ensures FreshId(docs, ops, log + [id], i)
      {
        assert i < n ==> FreshId(docs, ops, log, i);
        assert (log + [id])[..i] == log[..i];
      }
      log := log + [id];
      chain := chain';
    }
  }

  ghost predicate Started(p: Page, data: Bytes) {
    Fits(Initial(p), data) && FreeEnd(Initial(p)) <= PAGE_SIZE
  }

  lemma FirstRecord(p: Page, data: Bytes)
    requires 0 < |data| <= MAX_RECORD
    ensures Started(p, data) && SlotCount(Initial(p)) == 0
    ensures var q := WithRecord(Initial(p), data); PageOk(q) && Slotted.Next(q) == NO_NEXT && Records(q) == [Some(data)]
  {
    hide Initial, WithRecord, SlotCount, Records, Slotted.Next, RecordInside;
    InitialPage(p);
    RecordsLength(Initial(p));
    OkIsBounded(Initial(p));
    RecordAppended(Initial(p), data);
  }

  lemma OkIsBounded(p: Page)
    requires PageOk(p)
    ensures FreeEnd(p) <= PAGE_SIZE
  {
  }

  lemma HeapHasRoot(view: map<PageId, Page>, chain: seq<PageId>)
    requires HeapOk(view, chain)
    ensures |chain| > 0 && chain[0] in chain
  {
  }

  lemma LinkAt(view: map<PageId, Page>, chain: seq<PageId>, i: nat)
    requires HeapOk(view, chain) && i < |chain|
    ensures chain[i] in view && PageOk(view[chain[i]])
    ensures Slotted.Next(view[chain[i]]) == if i + 1 < |chain| then chain[i + 1] else NO_NEXT
    ensures i + 1 < |chain| ==> chain[i + 1] != NO_NEXT
  {
    assert LinkOk(view, chain, i);
    assert i + 1 < |chain| ==> LinkOk(view, chain, i + 1);
  }
}
