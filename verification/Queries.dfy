/** src/query/planner.rs, src/query/executor.rs and src/database/database.rs together: a where right after a from, on stored data. */
module Queries {
  import opened Bytes
  import opened Disk
  import opened Pool
  import opened Nodes
  import Heap
  import opened Values
  import opened KeyOrder
  import opened Evaluate
  import opened Indexes
  import opened Collections
  import opened Tables
  import opened Databases
  import opened Plans
  import opened Leaves
  import opened Executor
  import opened Planner

  // the plan as operators

  function FullScan(collection: Text): Op { SeqScan(collection, None, [], false) }

  function LeafOp(collection: Text, leaf: Option<Planner.Scan>): Op {
    if leaf.None? then FullScan(collection)
    else IndexScan(collection, leaf.value.field, Some(leaf.value.low), Some(leaf.value.high), None)
  }

  function WithFilter(op: Op, e: Option<Expr>): Op { if e.None? then op else Filter(op, e.value) }

  lemma FilteredTrace(ctx: Context, op: Op, e: Option<Expr>)
    ensures TraceOf(ctx, WithFilter(op, e)) == KeepIf(ctx.platform.ops, e, TraceOf(ctx, op))
  {
    hide Keep;
  }

  // what an index scan fetches, against a listing of the collection

  /** With distinct ids every row occurs at most once. */
  lemma {:induction false} CountOnce(rows: seq<Row>, r: Row)
    requires forall i, j :: 0 <= i < j < |rows| ==> rows[i].id != rows[j].id
    ensures multiset(rows)[r] == if r in rows then 1 else 0
  {
    if |rows| == 0 {
    } else {
      var n := |rows| - 1;
      CountOnce(rows[..n], r);
      assert rows == rows[..n] + [rows[n]];
      if r == rows[n] {
        assert forall i :: 0 <= i < n ==> rows[..n][i].id != r.id;
      }
    }
  }

  lemma RowIn(list: seq<(DocId, Document)>, r: Row)
    ensures r in StoredRows(list) <==> r.id.Some? && (r.id.value, r.doc) in list
  {
    if r.id.Some? && (r.id.value, r.doc) in list {
      var i :| 0 <= i < |list| && list[i] == (r.id.value, r.doc);
      assert StoredRows(list)[i] == r;
    }
  }

  /** What the index returns for a range is what a scan of the collection would fetch for it. */
  lemma RangeFetches(docs: Docs, s: Planner.Scan, list: seq<(DocId, Document)>, rows: seq<(DocId, Document)>)
    requires Indexable(s.low) && Indexable(s.high) && Listing(list, docs) && RangeRows(docs, s.field, s.low, s.high, rows)
    ensures Fetches(s, StoredRows(list), StoredRows(rows))
  {
    hide Indexable, Between, SerializeKey, Le, InKeyOrder;
    forall r
      ensures multiset(StoredRows(rows))[r] == if InScan(s, r.doc) then multiset(StoredRows(list))[r] else 0
    {
      CountOnce(StoredRows(rows), r);
      CountOnce(StoredRows(list), r);
      RowIn(list, r);
      RowIn(rows, r);
    }
  }

  // the whole query

  /** The rows of the full answer that the scan reaches, each as often; the whole answer if the leaf is a full scan. */
  ghost predicate SameRows(leaf: Option<Planner.Scan>, out: seq<Row>, full: seq<Row>) {
    forall r :: multiset(out)[r] == if leaf.None? || Reached(leaf.value, r.doc) then multiset(full)[r] else 0
  }

  ghost predicate Keyed(leaf: Option<Planner.Scan>) {
    leaf.Some? ==> Indexable(leaf.value.low) && Indexable(leaf.value.high)
  }

  /** The trace of the plan against that of a full scan with the whole predicate. */
  ghost predicate Answers(leaf: Option<Planner.Scan>, out: Trace, full: Trace) {
    && (leaf.None? ==> out == full)
    && (!Keyed(leaf) ==> out == Trace([], Some(NoKeyPanic)))
    && (Keyed(leaf) && full.end.None? ==> out.end.None? && SameRows(leaf, out.rows, full.rows))
  }

  function HasIndex(indexes: set<Name>): Text -> bool {
    (f: Text) => [f] in indexes
  }

  function IndexNames(env: Env, collection: Text): set<Name>
    reads env.dbs.Values
  {
    if collection in env.dbs then env.dbs[collection].indexes.Keys else {}
  }

  /** What the leaf of an index plan reads, and what it has of the listing. */
  lemma IndexLeaf(env: Env, ctx: Context, collection: Text, s: Planner.Scan) returns (rows: seq<Row>, fetched: seq<Row>)
    requires Serves(env, ctx) && collection in env.dbs && [s.field] in env.dbs[collection].indexes && Indexable(s.low) && Indexable(s.high)
    ensures TraceOf(ctx, FullScan(collection)) == Trace(rows, None)
    ensures TraceOf(ctx, LeafOp(collection, Some(s))) == Trace(fetched, None)
    ensures Fetches(s, rows, fetched)
  {
    hide Pool.Inv, Packed, LastAccess, env.pool.Valid, AllOk, ContextAt, EntryOf, PagesAt, DocsAt, TablesAt, Heap.HeapOk, AllSound,
         Consistent, PagesFrom, DecodedAll, Heap.Scan, Indexable, Fetches, StoredRows, Listing, RangeRows, Range, RangeTrace, TraceOf,
         Coherent, Published;
    var db, view := env.dbs[collection], env.pool.View();
    ServesAt(env, ctx, collection);
    CoherentMeans(view, db.chain, db.root, db.indexes, db.unique);
    SeqScanIsScanAll(env, collection);
    var list := DecodedAll(Heap.Scan(view, db.chain, |db.chain|));
    rows := StoredRows(list);
    ScanLists(view, db.chain);
    var found := RangeLists(ctx, collection, s, db.unique);
    IndexTrace(ctx, collection, s.field, Some(s.low), Some(s.high), None);
    fetched := StoredRows(found);
    RangeFetches(ctx.docs[collection], s, list, found);
  }

  lemma CoherentMeans(view: View, chain: seq<PageId>, root: PageId, indexes: map<Name, PageId>, unique: set<Name>)
    requires Coherent(view, chain, root, indexes, unique)
    ensures Heap.HeapOk(view, chain) && Published(view, chain, indexes) && Consistent(DocsAt(view, chain), TablesAt(view, indexes), unique)
  {
    hide Heap.HeapOk, Published, Consistent, DocsAt, TablesAt;
  }

  lemma ScanLists(view: View, chain: seq<PageId>)
    requires Heap.HeapOk(view, chain)
    ensures Listing(DecodedAll(Heap.Scan(view, chain, |chain|)), DocsAt(view, chain))
  {
    hide Heap.HeapOk, Heap.Scan, Heap.Docs, Decoded, Listing, DecodedAll;
    Heap.ScanExact(view, chain);
    DecodedListing(Heap.Docs(view, chain), Heap.Scan(view, chain, |chain|), DecodedAll(Heap.Scan(view, chain, |chain|)));
  }

  /** The documents behind a range of an index that is in step. */
  lemma RangeLists(ctx: Context, collection: Text, s: Planner.Scan, unique: set<Name>) returns (found: seq<(DocId, Document)>)
    requires collection in ctx.docs && collection in ctx.tables && Consistent(ctx.docs[collection], ctx.tables[collection], unique)
    requires [s.field] in ctx.tables[collection] && Indexable(s.low) && Indexable(s.high)
    ensures RangeRows(ctx.docs[collection], s.field, s.low, s.high, found)
    ensures RangeTrace(ctx, collection, s.field, s.low, s.high) == Trace(StoredRows(found), None)
  {
    hide SerializeKey, Range, Consistent, RangeRows, RangeTrace;
    var docs, tables := ctx.docs[collection], ctx.tables[collection];
    var ids := Range(tables[[s.field]], SerializeKey(s.low).value, SerializeKey(s.high).value);
    RangeIsLive(docs, s.field, tables, unique, s.low, s.high);
    found := seq(|ids|, i requires 0 <= i < |ids| => (ids[i], docs[ids[i]].value));
    RangeInStep(docs, s.field, tables, unique, s.low, s.high, found);
    RangeRead(ctx, collection, s.field, s.low, s.high, found);
  }

  lemma NoKeyStops(env: Env, ctx: Context, collection: Text, s: Planner.Scan, e: Option<Expr>)
    requires Serves(env, ctx) && collection in env.dbs && [s.field] in env.dbs[collection].indexes
      && !(Indexable(s.low) && Indexable(s.high))
    ensures TraceOf(ctx, WithFilter(LeafOp(collection, Some(s)), e)) == Trace([], Some(NoKeyPanic))
  {
    hide Pool.Inv, Packed, LastAccess, env.pool.Valid, AllOk, ContextAt, EntryOf, PagesAt, DocsAt, TablesAt, Indexable, RangeTrace,
         Coherent;
    ServesAt(env, ctx, collection);
    RangeRefused(ctx, collection, s.field, s.low, s.high);
    FilteredTrace(ctx, LeafOp(collection, Some(s)), e);
  }

  /** Plans the where, runs the plan on the stored pages, and gives the answer of a full scan as far as the scan reaches. */
  method RunWhere(env: Env, collection: Text, e: Expr) returns (leaf: Option<Planner.Scan>, rows: seq<Row>, end: Option<ExecError>)
    requires EnvOk(env)
    modifies env.pool, env.pool.disk
    ensures EnvOk(env) && ContextOf(env) == old(ContextOf(env))
    ensures Answers(leaf, Trace(rows, end), TraceOf(ContextOf(env), Filter(FullScan(collection), e)))
    ensures leaf.None? <==> forall c :: c in SplitConjuncts(e) ==> ScanFor(HasIndex(IndexNames(env, collection)), c).None?
    ensures leaf.Some? ==> exists at :: Chosen(HasIndex(IndexNames(env, collection)), SplitConjuncts(e), at, leaf.value)
  {
    hide EnvOk, ContextOf, TraceOf, SplitConjuncts, ScanFor, ResidualPredicate, Answers, Keep;
    var has := HasIndex(IndexNames(env, collection));
    var absorbed;
    leaf, absorbed := PlanSource(has, e);
    var residual := ResidualPredicate(e, absorbed);
    WhereAnswers(env, collection, e, leaf, absorbed);
    PlanIsFresh(collection, leaf, residual);
    rows, end := Execute(env, WithFilter(LeafOp(collection, leaf), residual));
  }

  lemma PlanIsFresh(collection: Text, leaf: Option<Planner.Scan>, e: Option<Expr>)
    ensures Fresh(WithFilter(LeafOp(collection, leaf), e))
  {
  }

  lemma WhereAnswers(env: Env, collection: Text, e: Expr, leaf: Option<Planner.Scan>, absorbed: seq<nat>)
    requires EnvOk(env) && (leaf.None? ==> absorbed == [])
    requires leaf.Some? ==> exists at ::
      Chosen(HasIndex(IndexNames(env, collection)), SplitConjuncts(e), at, leaf.value) && absorbed == Absorbed(at, leaf.value)
    ensures var ctx := ContextOf(env);
      Answers(leaf, TraceOf(ctx, WithFilter(LeafOp(collection, leaf), ResidualPredicate(e, absorbed))),
              TraceOf(ctx, Filter(FullScan(collection), e)))
  {
    hide EnvOk, ContextOf, TraceOf, SplitConjuncts, ScanFor, ResidualPredicate, Keep, Reached, Indexable, Fetches;
    var ctx := ContextOf(env);
    var ops, residual := ctx.platform.ops, ResidualPredicate(e, absorbed);
    FilteredTrace(ctx, LeafOp(collection, leaf), residual);
    FilteredTrace(ctx, FullScan(collection), Some(e));
    if leaf.None? {
      NothingAbsorbed(ops, e, TraceOf(ctx, FullScan(collection)));
    } else {
      var s := leaf.value;
      var has := HasIndex(IndexNames(env, collection));
      var at: nat :| Chosen(has, SplitConjuncts(e), at, s) && absorbed == Absorbed(at, s);
      ChosenHasIndex(env, collection, SplitConjuncts(e), at, s);
      if Indexable(s.low) && Indexable(s.high) {
        var all, fetched := IndexLeaf(env, ctx, collection, s);
        if Keep(ops, e, Trace(all, None)).end.None? {
          PushdownExact(ops, has, e, at, s, all, fetched);
        }
      } else {
        NoKeyStops(env, ctx, collection, s, residual);
      }
    }
  }

  lemma ChosenHasIndex(env: Env, collection: Text, cs: seq<Expr>, at: nat, s: Planner.Scan)
    requires Chosen(HasIndex(IndexNames(env, collection)), cs, at, s)
    ensures collection in env.dbs && [s.field] in env.dbs[collection].indexes
  {
  }

  /** With nothing absorbed the residual is the predicate, regrouped. */
  lemma {:induction false} NothingAbsorbed(ops: Ops, e: Expr, t: Trace)
    ensures KeepIf(ops, ResidualPredicate(e, []), t) == Keep(ops, e, t)
    decreases |t.rows|
  {
    hide EvalBool, SplitConjuncts, ResidualPredicate;
    if |t.rows| == 0 {
    } else {
      ResidualKeepsMeaning(ops, e, [], t.rows[0].doc);
      ResidualStays(e);
      NothingAbsorbed(ops, e, t.(rows := t.rows[1..]));
    }
  }

  lemma ResidualStays(e: Expr)
    ensures ResidualPredicate(e, []).Some?
  {
    hide SplitConjuncts;
  }

  // several wheres

  /** plan() over a run of wheres: one list of absorbed positions serves them all. */
  function PlanWheres(op: Op, absorbed: seq<nat>, wheres: seq<Expr>): Op
    decreases |wheres|
  {
    if |wheres| == 0 then op else PlanWheres(WithFilter(op, ResidualPredicate(wheres[0], absorbed)), absorbed, wheres[1..])
  }

  /** A later where keeps its meaning, errors included, if no absorbed position is one of its own. */
  lemma LaterWhereKept(ops: Ops, e: Expr, absorbed: seq<nat>, t: Trace)
    requires forall i :: i in absorbed ==> i >= |SplitConjuncts(e)|
    ensures KeepIf(ops, ResidualPredicate(e, absorbed), t) == Keep(ops, e, t)
  {
    hide EvalBool, SplitConjuncts, Keep;
    KeptAll(SplitConjuncts(e), absorbed, 0);
    KeptAll(SplitConjuncts(e), [], 0);
    NothingAbsorbed(ops, e, t);
  }

  lemma {:induction false} KeptAll(cs: seq<Expr>, absorbed: seq<nat>, at: nat)
    requires forall i :: i in absorbed ==> i >= at + |cs|
    ensures Kept(cs, absorbed, at) == cs
  {
    if |cs| == 0 {
    } else {
      KeptAll(cs[1..], absorbed, at + 1);
    }
  }

  /** Dropping the absorbed positions of e does no harm on a document: what is dropped holds of it, or what is left is false. */
  ghost predicate Harmless(ops: Ops, e: Expr, absorbed: seq<nat>, doc: Document) {
    || (forall i :: 0 <= i < |SplitConjuncts(e)| && i in absorbed ==> EvalBool(ops, SplitConjuncts(e)[i], doc) == Ok(true))
    || EvalAll(ops, Kept(SplitConjuncts(e), absorbed, 0), doc) == Ok(false)
  }

  /** What the filter of a later where tests on a document. */
  ghost function Tested(ops: Ops, e: Expr, absorbed: seq<nat>, doc: Document): Result<bool> {
    EvalAll(ops, Kept(SplitConjuncts(e), absorbed, 0), doc)
  }

  lemma ResidualTests(ops: Ops, e: Expr, absorbed: seq<nat>, doc: Document)
    ensures match ResidualPredicate(e, absorbed)
            case None => Tested(ops, e, absorbed, doc) == Ok(true)
            case Some(r) => EvalBool(ops, r, doc) == Tested(ops, e, absorbed, doc)
  {
    hide EvalBool, SplitConjuncts;
    var kept := Kept(SplitConjuncts(e), absorbed, 0);
    if |kept| > 0 {
      ConjoinMeans(ops, kept[0], kept[1..], doc);
      assert [kept[0]] + kept[1..] == kept;
    }
  }

  /** On a document on which e evaluates, the filter decides as e does exactly if dropping does no harm, and it never drops more. */
  lemma RowDecides(ops: Ops, e: Expr, absorbed: seq<nat>, doc: Document)
    requires EvalBool(ops, e, doc).Ok?
    ensures Harmless(ops, e, absorbed, doc) <==> Tested(ops, e, absorbed, doc) == EvalBool(ops, e, doc)
    ensures EvalBool(ops, e, doc) == Ok(true) ==> Tested(ops, e, absorbed, doc) == Ok(true)
  {
    hide EvalBool, SplitConjuncts, EvalAll, Kept;
    var cs := SplitConjuncts(e);
    SplitKeepsMeaning(ops, e, doc);
    var b := EvalBool(ops, e, doc).value;
    assert EvalAll(ops, cs, doc) == Ok(b);
    if b {
      forall i | 0 <= i < |cs|
        ensures EvalBool(ops, cs[i], doc) == Ok(true)
      {
        AllHold(ops, cs, doc, i);
      }
    }
    if forall i :: 0 <= i < |cs| && i in absorbed ==> EvalBool(ops, cs[i], doc) == Ok(true) {
      assert forall i :: 0 <= i < |cs| && 0 + i in absorbed ==> i in absorbed;
      KeptMeans(ops, cs, absorbed, 0, doc);
    }
  }

  lemma {:induction false} KeepsSame(ops: Ops, e: Expr, absorbed: seq<nat>, rows: seq<Row>)
    requires forall r :: r in rows ==> EvalBool(ops, e, r.doc).Ok?
    ensures var full, out := Keep(ops, e, Trace(rows, None)), KeepIf(ops, ResidualPredicate(e, absorbed), Trace(rows, None));
      && (out.end.None? ==> |out.rows| >= |full.rows|)
      && (out == full <==> forall r :: r in rows ==> Harmless(ops, e, absorbed, r.doc))
  {
    hide EvalBool, SplitConjuncts, ResidualPredicate, Harmless, Tested;
    if |rows| == 0 {
    } else {
      var x, rest := rows[0], rows[1..];
      assert rows == [x] + rest && x in rows;
      KeepsSame(ops, e, absorbed, rest);
      RowDecides(ops, e, absorbed, x.doc);
      ResidualTests(ops, e, absorbed, x.doc);
      HeadKept(ops, Some(e), x, rest);
      HeadKept(ops, ResidualPredicate(e, absorbed), x, rest);
      KeepsEnd(ops, e, rest);
      HeadSame(x, EvalBool(ops, e, x.doc).value, Tested(ops, e, absorbed, x.doc), Keep(ops, e, Trace(rest, None)),
               KeepIf(ops, ResidualPredicate(e, absorbed), Trace(rest, None)));
      assert (forall r :: r in rows ==> Harmless(ops, e, absorbed, r.doc)) <==>
             Harmless(ops, e, absorbed, x.doc) && forall r :: r in rest ==> Harmless(ops, e, absorbed, r.doc);
    }
  }

  /** One row in front of what is kept of the others. */
  ghost function Head(x: Row, b: Result<bool>, more: Trace): Trace {
    if b.Err? then Trace([], Some(Query(b.error))) else if b.value then more.(rows := [x] + more.rows) else more
  }

  lemma HeadKept(ops: Ops, e: Option<Expr>, x: Row, rest: seq<Row>)
    ensures KeepIf(ops, e, Trace([x] + rest, None)) ==
            Head(x, if e.None? then Ok(true) else EvalBool(ops, e.value, x.doc), KeepIf(ops, e, Trace(rest, None)))
  {
    hide EvalBool;
    assert Trace([x] + rest, None).(rows := ([x] + rest)[1..]) == Trace(rest, None);
  }

  lemma {:induction false} KeepsEnd(ops: Ops, e: Expr, rows: seq<Row>)
    requires forall r :: r in rows ==> EvalBool(ops, e, r.doc).Ok?
    ensures Keep(ops, e, Trace(rows, None)).end.None?
  {
    hide EvalBool;
    FilterCounts(ops, Some(e), rows);
  }

  /** Rows in front of two lists, of which the second is the longer one if it does not fail. */
  lemma HeadSame(x: Row, b: bool, c: Result<bool>, full: Trace, out: Trace)
    requires full.end.None? && (out.end.None? ==> |out.rows| >= |full.rows|) && (b ==> c == Ok(true))
    ensures Head(x, c, out) == Head(x, Ok(b), full) <==> c == Ok(b) && out == full
    ensures Head(x, c, out).end.None? ==> |Head(x, c, out).rows| >= |Head(x, Ok(b), full).rows|
  {
    if Head(x, c, out) == Head(x, Ok(b), full) && c.Ok? && c.value == b && b {
      assert out.rows == ([x] + out.rows)[1..] && full.rows == ([x] + full.rows)[1..];
    }
  }

  /** A later where whose predicate evaluates on every row is answered rightly exactly if, on every row, the conjuncts dropped
      from it hold or the conjuncts left of it are false. */
  lemma LaterWhereSame(ops: Ops, e: Expr, absorbed: seq<nat>, rows: seq<Row>)
    requires Keep(ops, e, Trace(rows, None)).end.None?
    ensures KeepIf(ops, ResidualPredicate(e, absorbed), Trace(rows, None)) == Keep(ops, e, Trace(rows, None)) <==>
            forall r :: r in rows ==> Harmless(ops, e, absorbed, r.doc)
  {
    hide EvalBool, SplitConjuncts, ResidualPredicate, Harmless, Keep;
    FilterCounts(ops, Some(e), rows);
    forall r | r in rows
      ensures EvalBool(ops, e, r.doc).Ok?
    {
      assert Runs(ops, Some(e), r.doc);
    }
    KeepsSame(ops, e, absorbed, rows);
  }

  /** `where x == v` with an index on x, then any where of one conjunct: the second one is not tested at all. */
  lemma SecondWhereDropped(has: Text -> bool, collection: Text, x: Text, v: Literal, e: Expr)
    requires has(x) && !(e.Binary? && e.op == And)
    ensures var first, s := Binary(Eq, Field(x), Lit(v)), Planner.Scan(x, v, v, true);
      && Chosen(has, SplitConjuncts(first), 0, s)
      && PlanWheres(LeafOp(collection, Some(s)), Absorbed(0, s), [first, e]) == LeafOp(collection, Some(s))
  {
    var first, s := Binary(Eq, Field(x), Lit(v)), Planner.Scan(x, v, v, true);
    var op := LeafOp(collection, Some(s));
    OneConjunctAbsorbed(first);
    OneConjunctAbsorbed(e);
    assert [first, e][1..] == [e] && [e][1..] == [];
    assert PlanWheres(op, [0], []) == op;
    assert PlanWheres(op, [0], [e]) == op;
  }

  lemma OneConjunctAbsorbed(e: Expr)
    requires !(e.Binary? && e.op == And)
    ensures SplitConjuncts(e) == [e] && ResidualPredicate(e, [0]).None?
  {
    assert [e][1..] == [] && Kept([], [0], 1) == [] && Kept([e], [0], 0) == [];
  }

  /** One stored document with x = 1 and y = 3, and an index on x. */
  ghost function OneStored(pf: Platform, c: Text, x: Text, y: Text): Context {
    var doc: Document := map[x := Int(1), y := Int(3)];
    Context(map[c := [StoredPage(0, [Row(Some((0, 0)), doc)])]], map[c := imap[(0, 0) := Some(doc)]],
            map[c := map[[x] := [Slot(SerializeKey(Int(1)).value, (0, 0))]]], pf)
  }

  /** `where x == 1`, then `where y == 2`: the plan yields the document, which the second where should have removed. */
  lemma SecondWhereKeepsRow(pf: Platform, c: Text, x: Text, y: Text)
    requires x != y
    ensures var ctx, row := OneStored(pf, c, x, y), Row(Some((0, 0)), map[x := Int(1), y := Int(3)]);
      var first, second := Binary(Eq, Field(x), Lit(Int(1))), Binary(Eq, Field(y), Lit(Int(2)));
      var s := Planner.Scan(x, Int(1), Int(1), true);
      && Chosen(HasIndex({[x]}), SplitConjuncts(first), 0, s) && !Harmless(pf.ops, second, Absorbed(0, s), row.doc)
      && TraceOf(ctx, PlanWheres(LeafOp(c, Some(s)), Absorbed(0, s), [first, second])) == Trace([row], None)
      && TraceOf(ctx, Filter(Filter(FullScan(c), first), second)) == Trace([], None)
  {
    hide TraceOf, EvalBool, Keep, SerializeKey, RangeTrace, PlanWheres, Harmless;
    var ctx, row := OneStored(pf, c, x, y), Row(Some((0, 0)), map[x := Int(1), y := Int(3)]);
    var first, second := Binary(Eq, Field(x), Lit(Int(1))), Binary(Eq, Field(y), Lit(Int(2)));
    var s := Planner.Scan(x, Int(1), Int(1), true);
    SecondWhereDropped(HasIndex({[x]}), c, x, Int(1), second);
    FieldTest(pf.ops, x, 1, row.doc);
    FieldTest(pf.ops, y, 2, row.doc);
    LeafYields(pf, c, x, y);
    FilterTrace(ctx, FullScan(c), first);
    FilterTrace(ctx, Filter(FullScan(c), first), second);
    HeadKept(pf.ops, Some(first), row, []);
    HeadKept(pf.ops, Some(second), row, []);
    KeepsNone(pf.ops, first);
    KeepsNone(pf.ops, second);
    assert [row] + [] == [row];
    NotHarmless(pf.ops, second, row.doc);
  }

  lemma KeepsNone(ops: Ops, e: Expr)
    ensures Keep(ops, e, Trace([], None)) == Trace([], None)
  {
  }

  lemma FieldTest(ops: Ops, x: Text, n: i64, doc: Document)
    requires x in doc && doc[x].Int?
    ensures EvalBool(ops, Binary(Eq, Field(x), Lit(Int(n))), doc) == Ok(doc[x].n == n)
  {
    hide Arithmetic, Evaluate.Matches;
    assert Eval(ops, Field(x), doc) == Ok(doc[x]) && Eval(ops, Lit(Int(n)), doc) == Ok(Int(n));
  }

  lemma NotHarmless(ops: Ops, e: Expr, doc: Document)
    requires !(e.Binary? && e.op == And) && EvalBool(ops, e, doc) == Ok(false)
    ensures !Harmless(ops, e, [0], doc)
  {
    hide EvalBool;
    OneConjunctAbsorbed(e);
    assert [e][1..] == [] && Kept([], [0], 1) == [] && Kept([e], [0], 0) == [];
    assert 0 in [0] && SplitConjuncts(e)[0] == e;
  }

  lemma LeafYields(pf: Platform, c: Text, x: Text, y: Text)
    requires x != y
    ensures var ctx, row := OneStored(pf, c, x, y), Row(Some((0, 0)), map[x := Int(1), y := Int(3)]);
      && TraceOf(ctx, FullScan(c)) == Trace([row], None)
      && TraceOf(ctx, LeafOp(c, Some(Planner.Scan(x, Int(1), Int(1), true)))) == Trace([row], None)
  {
    hide SerializeKey;
    var ctx, row := OneStored(pf, c, x, y), Row(Some((0, 0)), map[x := Int(1), y := Int(3)]);
    var pages := ctx.pages[c];
    assert PagesFrom(pages, 1) == [] && PagesFrom(pages, 0) == [row] + [] && [] + [row] == [row];
    var key := IntHasKey(1);
    var slots := [Slot(key, (0, 0))];
    assert slots[1..] == [] && Hits([], key, key) == [] && Hits(slots, key, key) == slots + [];
    assert Range(slots, key, key) == [(0, 0)];
    assert RowsAt(ctx.docs[c], [(0, 0)]) == [row];
    assert RangeTrace(ctx, c, x, Int(1), Int(1)) == Trace([row], None);
    IndexTrace(ctx, c, x, Some(Int(1)), Some(Int(1)), None);
  }

  lemma IntHasKey(n: i64) returns (key: Bytes)
    ensures Indexable(Int(n)) && SerializeKey(Int(n)) == Some(key)
  {
    key := SerializeKey(Int(n)).value;
  }
}
