/** src/storage/disk.rs: one file of pages and an in-memory stack of freed page ids. */
module Disk {
  type PageId = nat

  datatype Option<+T> = None | Some(value: T)

  ghost predicate Distinct<T>(s: seq<T>) {
    forall i, j :: 0 <= i < j < |s| ==> s[i] != s[j]
  }

  class DiskManager<P> {
    var file: seq<P>
    var freeList: seq<PageId>
    const zero: P

    ghost predicate Valid()
      reads this
    {
      Distinct(freeList) && forall i :: 0 <= i < |freeList| ==> freeList[i] < |file|
    }

    /** The pages handed out and not given back, with what the file holds for them. */
    ghost function Pages(): map<PageId, P>
      reads this
    {
      map p: PageId | 0 <= p < |file| && p !in freeList :: file[p]
    }

    constructor (zero: P, file: seq<P>)
      ensures Valid() && this.file == file && freeList == [] && this.zero == zero
    {
      this.zero := zero;
      this.file := file;
      this.freeList := [];
    }

    method ReadPage(id: PageId) returns (page: P)
      requires id < |file|
      ensures page == file[id]
    {
      page := file[id];
    }

    method WritePage(id: PageId, page: P)
      requires id < |file|
      modifies this`file
      ensures file == old(file)[id := page]
    {
      file := file[id := page];
    }

    ghost predicate Allocated(p: PageId)
      reads this
    {
      p < |file| && p !in freeList
    }

    /** A freed page is recycled first, last freed first; either way the page comes back zeroed. */
    method AllocatePage() returns (id: PageId)
      requires Valid()
      modifies this
      ensures Valid() && |old(file)| <= |file| <= |old(file)| + 1 && forall p :: 0 <= p < |old(file)| && p != id ==> file[p] == old(file)[p]
      ensures !old(Allocated(id)) && Allocated(id) && file[id] == zero
      ensures forall p: PageId :: p != id ==> (Allocated(p) <==> old(Allocated(p)))
      ensures id == if |old(freeList)| > 0 then old(freeList)[|old(freeList)| - 1] else |old(file)|
    {
      if |freeList| > 0 {
        id := freeList[|freeList| - 1];
        freeList := freeList[..|freeList| - 1];
        assert old(freeList) == freeList + [id];
        assert id !in freeList;
        file := file[id := zero];
        return;
      }
      id := |file|;
      file := file + [zero];
    }

    /** Refuses a page that is already free. */
    method FreePage(id: PageId) returns (ok: bool)
      requires Valid() && id < |file|
      modifies this`freeList
      ensures Valid() && ok == old(Allocated(id))
      ensures freeList == old(freeList) + if ok then [id] else []
    {
      if id in freeList {
        return false;
      }
      freeList := freeList + [id];
      ok := true;
    }
  }
}

/** src/storage/buffer_pool.rs: a write-back page cache with least-recently-used eviction. */
module Pool {
  import opened Disk

  datatype Frame<P> = Frame(page: P, pageId: Option<PageId>, dirty: bool, pins: nat, lastUsed: nat)

  /** A pool and its file as one value. Pages accessed at a time up to `horizon` only are not cached. */
  datatype State<P> = State(frames: seq<Frame<P>>, table: map<PageId, nat>, file: seq<P>, free: seq<PageId>,
                            trace: seq<PageId>, accessed: map<PageId, nat>, horizon: nat)

  ghost predicate Live<P>(s: State<P>, p: PageId) {
    p < |s.file| && p !in s.free
  }

  /** The page table and the frames are inverse to each other, and only allocated pages are cached. */
  ghost predicate Bijection<P>(s: State<P>) {
    && (forall p :: p in s.table ==> s.table[p] < |s.frames| && s.frames[s.table[p]].pageId == Some(p) && Live(s, p))
    && (forall i :: 0 <= i < |s.frames| && s.frames[i].pageId.Some? ==>
          s.frames[i].pageId.value in s.table && s.table[s.frames[i].pageId.value] == i)
  }

  /** Every clean frame but `stale` agrees with the file. */
  ghost predicate Clean<P>(s: State<P>, stale: int)
    requires Bijection(s)
  {
    forall p :: p in s.table && s.table[p] != stale && !s.frames[s.table[p]].dirty ==>
      s.frames[s.table[p]].page == s.file[p]
  }

  /** Stamps are access times; every cached page but the one in frame `untouched` was accessed later than the horizon. */
  ghost predicate Recent<P>(s: State<P>, untouched: int)
    requires Bijection(s)
  {
    && (forall p :: p in s.accessed ==>
          0 < s.accessed[p] <= |s.trace| && s.trace[s.accessed[p] - 1] == p && Live(s, p))
    && (forall p :: p in s.accessed && p !in s.table ==> s.accessed[p] <= s.horizon)
    && (forall p :: p in s.table && s.table[p] != untouched ==>
          p in s.accessed && s.horizon < s.accessed[p] == s.frames[s.table[p]].lastUsed)
    && s.horizon <= |s.trace|
  }

  /** As long as no page was deleted, a page leaves the pool only when every frame is taken. */
  ghost predicate Packed<P>(s: State<P>) {
    || (forall i :: 0 <= i < |s.frames| ==> s.frames[i].pageId.Some?)
    || (forall p :: p in s.accessed ==> p in s.table)
  }

  ghost predicate Unpinned<P>(s: State<P>) {
    |s.frames| > 0 && forall i :: 0 <= i < |s.frames| ==> s.frames[i].pins == 0
  }

  /** The invariant, where frame `stale` (if any) awaits its content and `untouched` its stamp. */
  ghost predicate Inv<P>(s: State<P>, stale: int, untouched: int) {
    && Bijection(s) && Clean(s, stale) && Recent(s, untouched) && Unpinned(s)
  }

  /** The flat page map the pool stands for: a cached copy wins over the file. */
  ghost function Flat<P>(s: State<P>): map<PageId, P> {
    map p: PageId | 0 <= p < |s.file| && p !in s.free ::
      if p in s.table && s.table[p] < |s.frames| then s.frames[s.table[p]].page else s.file[p]
  }

  // the steps the pool's methods take

  function Touch<P>(s: State<P>, idx: nat, id: PageId): State<P>
    requires idx < |s.frames|
  {
    s.(trace := s.trace + [id], accessed := s.accessed[id := |s.trace| + 1],
       frames := s.frames[idx := s.frames[idx].(lastUsed := |s.trace| + 1)])
  }

  function Put<P>(s: State<P>, idx: nat, page: P, dirty: bool): State<P>
    requires idx < |s.frames|
  {
    s.(frames := s.frames[idx := s.frames[idx].(page := page, dirty := dirty)])
  }

  function Fill<P>(s: State<P>, idx: nat, id: PageId): State<P>
    requires idx < |s.frames|
  {
    s.(frames := s.frames[idx := s.frames[idx].(pageId := Some(id), dirty := false, pins := 0)],
       table := s.table[id := idx])
  }

  /** Empties frame idx, writing it back if dirty, and moves the horizon up to its page's last access. */
  function Evict<P>(s: State<P>, idx: nat, oldId: PageId): State<P>
    requires idx < |s.frames| && oldId < |s.file| && oldId in s.accessed
  {
    s.(table := s.table - {oldId}, horizon := s.accessed[oldId],
       file := if s.frames[idx].dirty then s.file[oldId := s.frames[idx].page] else s.file,
       frames := s.frames[idx := s.frames[idx].(pageId := None)])
  }

  function Forget<P>(s: State<P>, id: PageId): State<P>
    requires id in s.table ==> s.table[id] < |s.frames|
  {
    s.(free := s.free + [id], accessed := s.accessed - {id}, table := s.table - {id},
       frames := if id !in s.table then s.frames else
                 s.frames[s.table[id] := s.frames[s.table[id]].(pageId := None, dirty := false, lastUsed := 0)])
  }

  function Flush<P>(s: State<P>, i: nat, id: PageId): State<P>
    requires i < |s.frames| && id < |s.file|
  {
    s.(file := s.file[id := s.frames[i].page], frames := s.frames[i := s.frames[i].(dirty := false)])
  }

  lemma TouchRecent<P>(s: State<P>, idx: nat, id: PageId)
    requires Bijection(s) && Recent(s, idx) && id in s.table && s.table[id] == idx
    requires Bijection(Touch(s, idx, id))
    ensures Recent(Touch(s, idx, id), -1)
  {
  }

  lemma TouchInv<P>(s: State<P>, idx: nat, id: PageId)
    requires Inv(s, -1, idx) && id in s.table && s.table[id] == idx
    ensures Inv(Touch(s, idx, id), -1, -1) && Flat(Touch(s, idx, id)) == Flat(s)
    ensures Packed(s) ==> Packed(Touch(s, idx, id))
  {
    hide Recent;
    TouchRecent(s, idx, id);
  }

  lemma PutRecent<P>(s: State<P>, idx: nat, page: P, dirty: bool)
    requires Bijection(s) && Recent(s, idx) && idx < |s.frames| && Bijection(Put(s, idx, page, dirty))
    ensures Recent(Put(s, idx, page, dirty), idx)
  {
  }

  lemma PutInv<P>(s: State<P>, idx: nat, id: PageId, page: P, dirty: bool, stale: int)
    requires Inv(s, stale, idx) && id in s.table && s.table[id] == idx && (stale == -1 || stale == idx)
    requires dirty || page == s.file[id]
    ensures Inv(Put(s, idx, page, dirty), -1, idx) && Flat(Put(s, idx, page, dirty)) == Flat(s)[id := page]
    ensures Packed(s) ==> Packed(Put(s, idx, page, dirty))
  {
    hide Recent;
    PutRecent(s, idx, page, dirty);
  }

  lemma FillRecent<P>(s: State<P>, idx: nat, id: PageId)
    requires Bijection(s) && Recent(s, -1) && id !in s.table
    requires idx < |s.frames| && s.frames[idx].pageId.None? && Bijection(Fill(s, idx, id))
    ensures Recent(Fill(s, idx, id), idx)
  {
  }

  lemma FillFlat<P>(s: State<P>, idx: nat, id: PageId)
    requires Bijection(s) && Live(s, id) && id !in s.table && idx < |s.frames| && s.frames[idx].pageId.None?
    ensures Flat(Fill(s, idx, id)) == Flat(s)[id := s.frames[idx].page]
    ensures Packed(s) ==> Packed(Fill(s, idx, id))
  {
  }

  lemma FillInv<P>(s: State<P>, idx: nat, id: PageId)
    requires Inv(s, -1, -1) && Live(s, id) && id !in s.table
    requires idx < |s.frames| && s.frames[idx].pageId.None?
    ensures Inv(Fill(s, idx, id), idx, idx)
    ensures Flat(Fill(s, idx, id)) == Flat(s)[id := s.frames[idx].page]
    ensures Packed(s) ==> Packed(Fill(s, idx, id))
  {
    hide Recent, Flat, Packed;
    FillFlat(s, idx, id);
    FillRecent(s, idx, id);
  }

  lemma EvictRecent<P>(s: State<P>, idx: nat, oldId: PageId)
    requires Bijection(s) && Recent(s, -1) && oldId in s.table && s.table[oldId] == idx
    requires forall j :: 0 <= j < |s.frames| ==> s.frames[idx].lastUsed <= s.frames[j].lastUsed
    requires Bijection(Evict(s, idx, oldId))
    ensures Recent(Evict(s, idx, oldId), -1)
  {
    var s' := Evict(s, idx, oldId);
    forall p | p in s'.table
      ensures p in s'.accessed && s'.horizon < s'.accessed[p] == s'.frames[s'.table[p]].lastUsed
    {
      StaysRecent(s, idx, oldId, p);
    }
  }

  /** Two pages are never accessed at the same time, so what stays is younger than the victim. */
  lemma StaysRecent<P>(s: State<P>, idx: nat, oldId: PageId, p: PageId)
    requires Bijection(s) && Recent(s, -1) && oldId in s.table && s.table[oldId] == idx && p in s.table && p != oldId
    requires forall j :: 0 <= j < |s.frames| ==> s.frames[idx].lastUsed <= s.frames[j].lastUsed
    ensures s.table[p] != idx && p in s.accessed && oldId in s.accessed
    ensures s.accessed[oldId] < s.accessed[p] == s.frames[s.table[p]].lastUsed
  {
    assert s.trace[s.accessed[p] - 1] == p && s.trace[s.accessed[oldId] - 1] == oldId;
  }

  lemma EvictInv<P>(s: State<P>, idx: nat, oldId: PageId)
    requires Inv(s, -1, -1) && oldId in s.table && s.table[oldId] == idx
    requires oldId in s.accessed
    requires forall j :: 0 <= j < |s.frames| ==> s.frames[idx].lastUsed <= s.frames[j].lastUsed
    ensures Inv(Evict(s, idx, oldId), -1, -1) && Flat(Evict(s, idx, oldId)) == Flat(s)
  {
    hide Recent;
    EvictRecent(s, idx, oldId);
  }

  lemma ForgetRecent<P>(s: State<P>, id: PageId)
    requires Bijection(s) && Recent(s, -1) && Bijection(Forget(s, id))
    ensures Recent(Forget(s, id), -1)
  {
  }

  lemma ForgetInv<P>(s: State<P>, id: PageId)
    requires Inv(s, -1, -1)
    ensures Inv(Forget(s, id), -1, -1)
  {
    hide Recent;
    ForgetRecent(s, id);
  }

  lemma ForgetFlat<P>(s: State<P>, id: PageId)
    requires Bijection(s)
    ensures Flat(Forget(s, id)) == Flat(s) - {id}
  {
    assert forall p :: p in s.table && p != id ==> s.frames[s.table[p]] == Forget(s, id).frames[s.table[p]];
  }

  lemma FlushRecent<P>(s: State<P>, i: nat, id: PageId)
    requires Bijection(s) && Recent(s, -1) && i < |s.frames| && id < |s.file| && Bijection(Flush(s, i, id))
    ensures Recent(Flush(s, i, id), -1)
  {
  }

  lemma FlushInv<P>(s: State<P>, i: nat, id: PageId)
    requires Inv(s, -1, -1) && i < |s.frames| && s.frames[i].pageId == Some(id)
    ensures Inv(Flush(s, i, id), -1, -1) && Flat(Flush(s, i, id)) == Flat(s)
    ensures Packed(s) ==> Packed(Flush(s, i, id))
  {
    hide Recent;
    FlushRecent(s, i, id);
  }

  lemma AllocateInv<P>(s: State<P>, s': State<P>, id: PageId, zero: P)
    requires Inv(s, -1, -1) && s' == s.(file := s'.file, free := s'.free)
    requires |s'.file| >= |s.file| && forall p :: 0 <= p < |s.file| && p != id ==> s'.file[p] == s.file[p]
    requires !Live(s, id) && Live(s', id) && s'.file[id] == zero
    requires forall p: PageId :: p != id ==> (Live(s', p) <==> Live(s, p))
    ensures Inv(s', -1, -1) && id !in Flat(s) && id !in s.table && Flat(s') == Flat(s)[id := zero]
    ensures Packed(s) ==> Packed(s')
  {
    assert forall p: PageId :: p in Flat(s') <==> Live(s', p);
    assert forall p: PageId :: p in Flat(s) <==> Live(s, p);
  }

  lemma InFlat<P>(s: State<P>, id: PageId)
    ensures id in Flat(s) <==> Live(s, id)
  {
  }

  lemma Cached<P>(s: State<P>, id: PageId)
    requires Inv(s, -1, -1) && id in Flat(s) && id in s.table
    ensures s.table[id] < |s.frames| && s.frames[s.table[id]].page == Flat(s)[id]
    ensures Inv(s, -1, s.table[id])
  {
  }

  lemma Uncached<P>(s: State<P>, id: PageId)
    requires id in Flat(s) && id !in s.table
    ensures Live(s, id) && Flat(s)[id] == s.file[id]
  {
  }

  lemma AllClean<P>(s: State<P>)
    requires Inv(s, -1, -1) && forall i :: 0 <= i < |s.frames| && s.frames[i].pageId.Some? ==> !s.frames[i].dirty
    ensures Flat(s) == map p: PageId | 0 <= p < |s.file| && p !in s.free :: s.file[p]
  {
  }

  lemma Victim<P>(s: State<P>, idx: nat)
    requires Inv(s, -1, -1) && idx < |s.frames| && s.frames[idx].pageId.Some?
    ensures var p := s.frames[idx].pageId.value;
            p in s.table && s.table[p] == idx && p in s.accessed && Live(s, p)
  {
  }


  // least recently used, in terms of the access trace alone

  ghost function LastAccess(trace: seq<PageId>): map<PageId, nat> {
    if |trace| == 0 then map[]
    else LastAccess(trace[..|trace| - 1])[trace[|trace| - 1] := |trace|]
  }

  /** The pages accessed since page p was last accessed. */
  ghost function Later(accessed: map<PageId, nat>, p: PageId): set<PageId>
    requires p in accessed
  {
    set q | q in accessed && accessed[p] < accessed[q]
  }

  /** The c most recently used distinct pages of a trace. */
  ghost function MostRecent(trace: seq<PageId>, c: nat): set<PageId> {
    var accessed := LastAccess(trace);
    set p | p in accessed && |Later(accessed, p)| < c
  }

  ghost function CachedBelow<P>(s: State<P>, n: nat): set<PageId> {
    set p | p in s.table && s.table[p] < n
  }

  lemma {:induction false} CountFrames<P>(s: State<P>, n: nat)
    requires Bijection(s) && n <= |s.frames|
    ensures |CachedBelow(s, n)| <= n
    ensures (forall i :: 0 <= i < n ==> s.frames[i].pageId.Some?) ==> |CachedBelow(s, n)| == n
  {
    hide Bijection;
    if n == 0 {
      assert CachedBelow(s, 0) == {};
    } else {
      CountFrames(s, n - 1);
      OneMoreFrame(s, n);
    }
  }

  lemma OneMoreFrame<P>(s: State<P>, n: nat)
    requires Bijection(s) && 0 < n <= |s.frames|
    ensures |CachedBelow(s, n)| == |CachedBelow(s, n - 1)| + if s.frames[n - 1].pageId.Some? then 1 else 0
  {
    var last := if s.frames[n - 1].pageId.Some? then {s.frames[n - 1].pageId.value} else {};
    assert CachedBelow(s, n) == CachedBelow(s, n - 1) + last;
  }

  lemma Subset<T>(a: set<T>, b: set<T>)
    requires a <= b
    ensures |a| <= |b|
  {
    assert b == a + (b - a);
  }

  lemma ResidentIsMostRecent<P>(s: State<P>, p: PageId)
    requires Inv(s, -1, -1) && Packed(s) && s.accessed == LastAccess(s.trace)
    ensures p in s.table <==> p in MostRecent(s.trace, |s.frames|)
  {
    CountFrames(s, |s.frames|);
    var cached := CachedBelow(s, |s.frames|);
    if p in s.table {
      assert Later(s.accessed, p) <= cached - {p};
      Subset(Later(s.accessed, p), cached - {p});
      assert |cached - {p}| == |cached| - 1;
    } else if p in s.accessed {
      assert cached <= Later(s.accessed, p);
      Subset(cached, Later(s.accessed, p));
    }
  }

  lemma MoreRecent(trace: seq<PageId>, c: nat, d: nat)
    requires c <= d
    ensures MostRecent(trace, c) <= MostRecent(trace, d)
  {
  }

  class BufferPool<P> {
    var frames: seq<Frame<P>>
    var pageTable: map<PageId, nat>
    const disk: DiskManager<P>
    var clock: nat
    /** Every access since the pool was made, and when each live page was last accessed. */
    ghost var trace: seq<PageId>
    ghost var accessed: map<PageId, nat>
    ghost var horizon: nat
    ghost var anyDeleted: bool

    ghost function Snapshot(): State<P>
      reads this, disk
    {
      State(frames, pageTable, disk.file, disk.freeList, trace, accessed, horizon)
    }

    ghost predicate Partial(stale: int, untouched: int)
      reads this, disk
    {
      disk.Valid() && Inv(Snapshot(), stale, untouched) && |trace| == clock
      && (anyDeleted || (Packed(Snapshot()) && accessed == LastAccess(trace)))
    }

    ghost predicate Valid()
      reads this, disk
    {
      Partial(-1, -1)
    }

    /** The flat page map the pool stands for. */
    ghost function View(): map<PageId, P>
      reads this, disk
    {
      Flat(Snapshot())
    }

    twostate predicate Steady()
      reads this
    {
      anyDeleted == old(anyDeleted) && |frames| == old(|frames|) && trace == old(trace) && accessed == old(accessed)
    }

    /** Page `id` has just been accessed. */
    twostate predicate Accessed(id: PageId)
      reads this
    {
      && anyDeleted == old(anyDeleted) && |frames| == old(|frames|)
      && trace == old(trace) + [id] && accessed == old(accessed)[id := |trace|]
    }

    constructor (disk: DiskManager<P>, capacity: nat)
      requires disk.Valid() && capacity > 0
      ensures Valid() && this.disk == disk && |frames| == capacity
      ensures View() == disk.Pages() && trace == [] && accessed == map[] && !anyDeleted
    {
      this.disk := disk;
      frames := seq(capacity, _ => Frame(disk.zero, None, false, 0, 0));
      pageTable := map[];
      clock := 0;
      trace, accessed, horizon, anyDeleted := [], map[], 0, false;
    }

    /** Reads a page; the closure's result is a function of the page handed to it. */
    method WithPage<R>(id: PageId, f: P --> R) returns (r: R)
      requires Valid() && id in View() && f.requires(View()[id])
      modifies this, disk
      ensures Valid() && View() == old(View()) && r == f(View()[id]) && Accessed(id)
      ensures disk.freeList == old(disk.freeList) && |disk.file| == old(|disk.file|)
    {
      var idx := FetchOrLoad(id);
      ghost var before := frames;
      frames := frames[idx := frames[idx].(pins := frames[idx].pins + 1)];
      r := f(frames[idx].page);
      frames := frames[idx := frames[idx].(pins := frames[idx].pins - 1)];
      assert frames == before;
      hide Inv, Flat, Packed;
      Touch(idx, id);
    }

    /** Runs a closure that may rewrite the page; the frame is marked dirty either way. */
    method WithPageMut<R>(id: PageId, f: P --> (P, R)) returns (r: R)
      requires Valid() && id in View() && f.requires(View()[id])
      modifies this, disk
      ensures Valid() && View() == old(View())[id := f(old(View())[id]).0] && r == f(old(View())[id]).1
      ensures Accessed(id) && disk.freeList == old(disk.freeList) && |disk.file| == old(|disk.file|)
    {
      hide Flat, Recent, Clean;
      var idx := FetchOrLoad(id);
      ghost var before := Snapshot();
      frames := frames[idx := frames[idx].(pins := frames[idx].pins + 1)];
      var out := f(frames[idx].page);
      r := out.1;
      frames := frames[idx := frames[idx].(page := out.0, dirty := true, pins := frames[idx].pins - 1)];
      assert Snapshot() == Put(before, idx, out.0, true);
      PutInv(before, idx, id, out.0, true, -1);
      Touch(idx, id);
    }

    /** Allocates a page, starts it zeroed and lets the closure fill it in. */
    method NewPage<R>(f: P --> (P, R)) returns (id: PageId, r: R)
      requires Valid() && f.requires(disk.zero)
      modifies this, disk
      ensures Valid() && id !in old(View())
      ensures View() == old(View())[id := f(disk.zero).0] && r == f(disk.zero).1
      ensures Accessed(id) && id <= old(|disk.file|) && |disk.file| <= old(|disk.file|) + 1
    {
      hide Bijection, Recent, Clean, Flat, Packed, LastAccess;
      id := AllocateId();
      var idx := AllocateFrame(id);
      ghost var before := Snapshot();
      frames := frames[idx := frames[idx].(page := disk.zero, dirty := true, pins := frames[idx].pins + 1)];
      var out := f(frames[idx].page);
      r := out.1;
      frames := frames[idx := frames[idx].(page := out.0, pins := frames[idx].pins - 1)];
      assert Snapshot() == Put(before, idx, out.0, true);
      PutInv(before, idx, id, out.0, true, idx);
      Touch(idx, id);
    }

    /** A page of the file for the new id, in no frame yet. */
    method AllocateId() returns (id: PageId)
      requires Valid()
      modifies disk
      ensures Valid() && id !in old(View()) && id !in pageTable && View() == old(View())[id := disk.zero]
      ensures id <= old(|disk.file|) && |disk.file| <= old(|disk.file|) + 1
    {
      hide Bijection, Recent, Clean, Flat, Packed, LastAccess;
      id := disk.AllocatePage();
      assert forall p: PageId :: Live(Snapshot(), p) <==> disk.Allocated(p);
      assert forall p: PageId :: Live(old(Snapshot()), p) <==> old(disk.Allocated(p));
      AllocateInv(old(Snapshot()), Snapshot(), id, disk.zero);
    }

    method FetchOrLoad(id: PageId) returns (idx: nat)
      requires Valid() && id in View()
      modifies this, disk
      ensures Partial(-1, idx) && View() == old(View()) && Steady() && disk.freeList == old(disk.freeList)
      ensures |disk.file| == old(|disk.file|)
      ensures id in pageTable && pageTable[id] == idx < |frames| && frames[idx].page == View()[id] && frames[idx].pins == 0
    {
      hide Bijection, Recent, Clean, Flat, Packed;
      if id in pageTable {
        idx := pageTable[id];
        Cached(Snapshot(), id);
        return;
      }
      idx := AllocateFrame(id);
      var page := disk.ReadPage(id);
      ghost var before := Snapshot();
      frames := frames[idx := frames[idx].(page := page)];
      assert Snapshot() == Put(before, idx, page, false);
      PutInv(before, idx, id, page, false, idx);
    }

    method AllocateFrame(id: PageId) returns (idx: nat)
      requires Valid() && id in View() && id !in pageTable
      modifies this, disk
      ensures Partial(idx, idx) && idx < |frames| && frames[idx].pageId == Some(id) && !frames[idx].dirty
      ensures id in pageTable && pageTable[id] == idx && View() == old(View())[id := frames[idx].page]
      ensures id < |disk.file| && disk.file[id] == old(View())[id] && Steady() && disk.freeList == old(disk.freeList)
      ensures |disk.file| == old(|disk.file|)
    {
      hide Bijection, Recent, Clean, Flat;
      Uncached(Snapshot(), id);
      // prefer an empty frame
      var i := 0;
      while i < |frames|
        invariant 0 <= i <= |frames|
        invariant forall j :: 0 <= j < i ==> frames[j].pageId.Some?
      {
        if frames[i].pageId.None? {
          FillInv(Snapshot(), i, id);
          frames := frames[i := frames[i].(pageId := Some(id), dirty := false, pins := 0)];
          pageTable := pageTable[id := i];
          return i;
        }
        i := i + 1;
      }

      // else the unpinned frame with the smallest stamp
      var victim: Option<nat> := None;
      i := 0;
      while i < |frames|
        invariant 0 <= i <= |frames|
        invariant i > 0 ==> victim.Some?
        invariant victim.Some? ==> victim.value < i
        invariant victim.Some? ==> forall j :: 0 <= j < i ==> frames[victim.value].lastUsed <= frames[j].lastUsed
      {
        if frames[i].pins == 0 && (victim.None? || frames[i].lastUsed < frames[victim.value].lastUsed) {
          victim := Some(i);
        }
        i := i + 1;
      }
      idx := victim.value;
      var oldId := frames[idx].pageId.value;
      Victim(Snapshot(), idx);
      if frames[idx].dirty {
        disk.WritePage(oldId, frames[idx].page);
      }
      EvictInv(old(Snapshot()), idx, oldId);
      FillInv(Evict(old(Snapshot()), idx, oldId), idx, id);
      pageTable := pageTable - {oldId};
      frames := frames[idx := frames[idx].(pageId := Some(id), dirty := false, pins := 0)];
      pageTable := pageTable[id := idx];
      horizon := accessed[oldId];
      assert Snapshot() == Fill(Evict(old(Snapshot()), idx, oldId), idx, id);
    }

    method Touch(idx: nat, ghost id: PageId)
      requires Partial(-1, idx) && id in pageTable && pageTable[id] == idx < |frames|
      modifies this`clock, this`frames, this`trace, this`accessed
      ensures Valid() && View() == old(View()) && Accessed(id)
    {
      hide Inv, Flat;
      TouchInv(Snapshot(), idx, id);
      clock := clock + 1;
      frames := frames[idx := frames[idx].(lastUsed := clock)];
      trace := trace + [id];
      accessed := accessed[id := |trace|];
    }

    /** Without deletions, an access hits exactly when the page is among the capacity most recently used ones. */
    lemma HitIffRecent(id: PageId)
      requires Valid() && !anyDeleted
      ensures id in pageTable <==> id in MostRecent(trace, |frames|)
    {
      ResidentIsMostRecent(Snapshot(), id);
    }

    /** A page that hits in one pool hits in every pool at least as large that saw the same accesses. */
    lemma LargerPoolHits(that: BufferPool<P>, id: PageId)
      requires Valid() && !anyDeleted && that.Valid() && !that.anyDeleted
      requires trace == that.trace && |frames| <= |that.frames|
      ensures id in pageTable ==> id in that.pageTable
    {
      hide Valid, MostRecent;
      HitIffRecent(id);
      that.HitIffRecent(id);
      MoreRecent(trace, |frames|, |that.frames|);
    }

    /** Drops the page from the cache without writing it back, then frees it on disk. */
    method DeletePage(id: PageId) returns (ok: bool)
      requires Valid() && id < |disk.file|
      modifies this, disk
      ensures Valid() && ok == (id in old(View())) && View() == old(View()) - {id}
      ensures disk.freeList == old(disk.freeList) + if ok then [id] else []
    {
      hide Recent, Clean, Flat, Packed;
      if id in pageTable {
        var idx := pageTable[id];
        frames := frames[idx := frames[idx].(pageId := None, dirty := false, lastUsed := 0)];
        pageTable := pageTable - {id};
      }
      ok := disk.FreePage(id);
      ForgetFlat(old(Snapshot()), id);
      InFlat(old(Snapshot()), id);
      if !ok {
        assert id !in old(pageTable);
        assert old(View()) - {id} == old(View()) && Snapshot() == old(Snapshot());
      } else {
        ForgetInv(old(Snapshot()), id);
        anyDeleted := true;
        accessed := accessed - {id};
        assert Snapshot() == Forget(old(Snapshot()), id);
      }
    }

    /** Writes every dirty frame back: the file then holds the logical pages. */
    method FlushAll()
      requires Valid()
      modifies this`frames, disk`file
      ensures Valid() && View() == old(View()) && Steady()
      ensures View() == disk.Pages()
    {
      hide Recent, Clean, Flat, Packed;
      var i := 0;
      while i < |frames|
        invariant 0 <= i <= |frames| == old(|frames|) && Valid() && View() == old(View()) && disk.freeList == old(disk.freeList)
        invariant forall j :: 0 <= j < i && frames[j].pageId.Some? ==> !frames[j].dirty
      {
        if frames[i].pageId.Some? {
          if frames[i].dirty {
            FlushInv(Snapshot(), i, frames[i].pageId.value);
            disk.WritePage(frames[i].pageId.value, frames[i].page);
            frames := frames[i := frames[i].(dirty := false)];
          }
        }
        i := i + 1;
      }
      AllClean(Snapshot());
    }
  }
}
