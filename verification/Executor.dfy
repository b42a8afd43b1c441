/** src/query/executor.rs: operators that are pulled one row at a time, against what each of them yields in all. */
module Executor {
  import opened Disk
  import opened Values
  import opened Evaluate
  import opened Aggregates
  import opened Plans
  import opened Leaves

  /** Pages that a scan has still to read. */
  ghost function Unread(ctx: Context, scan: Op): nat
    requires scan.SeqScan?
  {
    if scan.started && scan.cursor.None? then 0
    else if scan.collection !in ctx.pages then 1
    else |ctx.pages[scan.collection]| - CursorAt(ctx.pages[scan.collection], scan.cursor) + 1
  }

  lemma UnreadFalls(ctx: Context, scan: Op)
    requires ContextOk(ctx) && scan.SeqScan? && !(scan.started && scan.cursor.None?)
    requires scan.collection in ctx.pages && CursorAt(ctx.pages[scan.collection], scan.cursor) < |ctx.pages[scan.collection]|
    ensures Unread(ctx, NextPage(ctx, scan)) < Unread(ctx, scan)
  {
    hide At;
    var pages := ctx.pages[scan.collection];
    var k := CursorAt(pages, scan.cursor);
    if k + 1 < |pages| {
      AtIs(pages, k + 1);
    }
  }

  /** Buffered rows first, then page after page; an empty page does not end the scan. */
  method SeqScanNext(env: Env, ghost ctx: Context, start: Op) returns (scan: Op, r: Step)
    requires Serves(env, ctx) && start.SeqScan? && Ready(ctx, start)
    modifies env.pool, env.pool.disk
    ensures Serves(env, ctx) && Ready(ctx, scan) && scan.SeqScan?
    ensures Steps(TraceOf(ctx, start), r, TraceOf(ctx, scan)) && ReadsOn(ctx, start, scan, r)
  {
    hide Serves, PagesFrom, RowsBefore, At, CursorAt, Reading, ReadUpTo, TraceOf;
    scan := start;
    ghost var all := TraceOf(ctx, start);
    ServesOnly(env, ctx);
    StartReading(ctx, start);
    while true
      invariant Serves(env, ctx) && Ready(ctx, scan) && scan.SeqScan? && scan.collection == start.collection && TraceOf(ctx, scan) == all
      invariant forall c: nat :: ReadUpTo(ctx, start, c) ==> Reading(ctx, scan, c)
      decreases Unread(ctx, scan)
    {
      if |scan.page| > 0 {
        YieldFromPage(ctx, scan);
        r := Yield(scan.page[0]);
        scan := scan.(page := scan.page[1..]);
        return;
      }
      ScanEnds(ctx, scan);
      if scan.started && scan.cursor.None? {
        return scan, Exhausted;
      }
      if scan.collection !in env.dbs {
        return scan, Failed(CollectionNotFound(scan.collection));
      }
      CursorStands(ctx, scan);
      ReadOnePage(ctx, scan);
      UnreadFalls(ctx, scan);
      scan := ReadPage(env, ctx, scan);
      if |scan.page| == 0 && scan.cursor.None? {
        ScanEnds(ctx, scan);
        return scan, Exhausted;
      }
    }
  }

  lemma CursorStands(ctx: Context, scan: Op)
    requires ContextOk(ctx) && scan.SeqScan? && Ready(ctx, scan) && scan.collection in ctx.pages
    ensures CursorAt(ctx.pages[scan.collection], scan.cursor) < |ctx.pages[scan.collection]|
  {
  }

  lemma ScanEnds(ctx: Context, scan: Op)
    requires scan.SeqScan? && |scan.page| == 0
    ensures scan.started && scan.cursor.None? ==> TraceOf(ctx, scan) == Trace([], None)
    ensures !(scan.started && scan.cursor.None?) && scan.collection !in ctx.pages ==>
      TraceOf(ctx, scan) == Trace([], Some(CollectionNotFound(scan.collection)))
  {
  }

  // next() of every operator

  /** One pull: the head of what the operator still yields, and an operator that yields the rest. */
  method Next(env: Env, ghost ctx: Context, op: Op) returns (op': Op, r: Step)
    requires Serves(env, ctx) && Ready(ctx, op)
    modifies env.pool, env.pool.disk
    ensures Serves(env, ctx) && Ready(ctx, op') && Height(op') == Height(op)
    ensures Steps(TraceOf(ctx, op), r, TraceOf(ctx, op'))
    ensures op.SeqScan? ==> ReadsOn(ctx, op, op', r)
    ensures op.Limit? ==> op'.Limit? && (op.remaining == 0 ==> op' == op)
    ensures op.Limit? && op.input.SeqScan? && op.remaining > 0 ==>
      ReadsOn(ctx, op.input, op'.input, r) && op'.remaining == if r.Yield? then op.remaining - 1 else op.remaining
    decreases Height(op), 0
  {
    hide Serves, TraceOf, ReadsOn, Limited, RangeTrace, Steps, At, CursorAt;
    match op {
      case SeqScan(_, _, _, _) => op', r := SeqScanNext(env, ctx, op);
      case IndexScan(collection, field, low, high, buffered) => op', r := IndexScanNext(env, ctx, collection, field, low, high, buffered);
      case Filter(input, test) => op', r := FilterNext(env, ctx, input, test);
      case Projection(input, items) => op', r := ProjectionNext(env, ctx, input, items);
      case DropFields(input, fields) => op', r := DropNext(env, ctx, input, fields);
      case Limit(input, remaining) =>
        if remaining == 0 {
          LimitReached(ctx, input);
          return op, Exhausted;
        }
        var input', s := Next(env, ctx, input);
        LimitStep(ctx, input, input', s, remaining);
        return Limit(input', if s.Yield? then remaining - 1 else remaining), s;
      case Offset(input, toSkip) => op', r := OffsetNext(env, ctx, input, toSkip);
      case Sort(input, keys, buffered) => op', r := SortNext(env, ctx, input, keys, buffered);
      case Aggregate(input, fields, items, buffered) => op', r := AggregateNext(env, ctx, input, fields, items, buffered);
      case HashJoin(left, right, lf, rf, table, pending) => op', r := JoinNext(env, ctx, left, right, lf, rf, table, pending);
    }
  }

  method Pop(rows: seq<Row>) returns (rest: seq<Row>, r: Step)
    ensures Steps(Trace(rows, None), r, Trace(rest, None))
  {
    if |rows| == 0 {
      return rows, Exhausted;
    }
    return rows[1..], Yield(rows[0]);
  }

  lemma LimitReached(ctx: Context, input: Op)
    ensures Steps(TraceOf(ctx, Limit(input, 0)), Exhausted, TraceOf(ctx, Limit(input, 0)))
  {
    hide Keep, Projected, SortedTrace, Grouped, JoinRows, Dropped, Skipped;
  }

  lemma LimitStep(ctx: Context, input: Op, input': Op, r: Step, n: nat)
    requires n > 0 && Steps(TraceOf(ctx, input), r, TraceOf(ctx, input'))
    ensures Steps(TraceOf(ctx, Limit(input, n)), r, TraceOf(ctx, Limit(input', if r.Yield? then n - 1 else n)))
  {
    hide Keep, Projected, SortedTrace, Grouped, JoinRows, Dropped, Skipped;
    var t := TraceOf(ctx, input);
    assert TraceOf(ctx, Limit(input, n)) == Limited(n, t);
    if |t.rows| > 0 && n <= |t.rows| {
      assert t.rows[1..][..n - 1] == t.rows[..n][1..];
    }
  }

  /** The range is read once, on the first pull. */
  method IndexScanNext(env: Env, ghost ctx: Context, collection: Text, field: Text, low: Option<Value>, high: Option<Value>,
                       buffered: Option<seq<Row>>)
    returns (op': Op, r: Step)
    requires Serves(env, ctx)
    modifies env.pool, env.pool.disk
    ensures Serves(env, ctx) && Ready(ctx, op') && Height(op') == 0
    ensures Steps(TraceOf(ctx, IndexScan(collection, field, low, high, buffered)), r, TraceOf(ctx, op'))
  {
    hide Serves, RangeTrace, TraceOf;
    op' := IndexScan(collection, field, low, high, buffered);
    IndexTrace(ctx, collection, field, low, high, buffered);
    var rows := buffered;
    if rows.None? {
      if low.None? || high.None? {
        return op', Failed(BoundsMissing);
      }
      var got, end := ReadRange(env, ctx, collection, field, low.value, high.value);
      if end.Some? {
        RangeEnds(ctx, collection, field, low.value, high.value);
        return op', Failed(end.value);
      }
      rows := Some(got);
    }
    var rest;
    rest, r := Pop(rows.value);
    op' := IndexScan(collection, field, low, high, Some(rest));
    IndexTrace(ctx, collection, field, low, high, Some(rest));
  }

  lemma IndexTrace(ctx: Context, collection: Text, field: Text, low: Option<Value>, high: Option<Value>, buffered: Option<seq<Row>>)
    ensures TraceOf(ctx, IndexScan(collection, field, low, high, buffered)) ==
      if buffered.Some? then Trace(buffered.value, None)
      else if low.None? || high.None? then Trace([], Some(BoundsMissing))
      else RangeTrace(ctx, collection, field, low.value, high.value)
  {
  }

  lemma RangeEnds(ctx: Context, collection: Text, field: Text, low: Value, high: Value)
    ensures var t := RangeTrace(ctx, collection, field, low, high); t.end.Some? ==> t.rows == []
  {
  }

  /** Pulls until the input is exhausted or fails. */
  method Drain(env: Env, ghost ctx: Context, op: Op) returns (op': Op, rows: seq<Row>, end: Option<ExecError>)
    requires Serves(env, ctx) && Ready(ctx, op)
    modifies env.pool, env.pool.disk
    ensures Serves(env, ctx) && Ready(ctx, op') && Height(op') == Height(op)
    ensures Trace(rows, end) == TraceOf(ctx, op)
    ensures end.None? ==> TraceOf(ctx, op') == Trace([], None)
    decreases Height(op), 1
  {
    hide Serves, TraceOf, Ready, Steps, ReadsOn;
    op', rows := op, [];
    ghost var all := TraceOf(ctx, op);
    while true
      invariant Serves(env, ctx) && Ready(ctx, op') && Height(op') == Height(op)
      invariant all == Trace(rows + TraceOf(ctx, op').rows, TraceOf(ctx, op').end)
      decreases |TraceOf(ctx, op').rows|
    {
      var r;
      ghost var was := TraceOf(ctx, op');
      op', r := Next(env, ctx, op');
      PulledOne(all, rows, was, r, TraceOf(ctx, op'));
      match r {
        case Yield(row) => rows := rows + [row];
        case Exhausted => return op', rows, None;
        case Failed(e) => return op', rows, Some(e);
      }
    }
  }

  lemma PulledOne(all: Trace, rows: seq<Row>, t: Trace, r: Step, t': Trace)
    requires Steps(t, r, t') && all == Trace(rows + t.rows, t.end)
    ensures match r
      case Yield(row) => all == Trace(rows + [row] + t'.rows, t'.end) && |t'.rows| < |t.rows|
      case Exhausted => all == Trace(rows, None) && t' == Trace([], None)
      case Failed(e) => all == Trace(rows, Some(e))
  {
  }

  method FilterNext(env: Env, ghost ctx: Context, start: Op, test: Expr) returns (op': Op, r: Step)
    requires Serves(env, ctx) && Ready(ctx, start)
    modifies env.pool, env.pool.disk
    ensures Serves(env, ctx) && Ready(ctx, op') && Height(op') == Height(start) + 1
    ensures Steps(TraceOf(ctx, Filter(start, test)), r, TraceOf(ctx, op'))
    decreases Height(start), 1
  {
    hide Serves, TraceOf, EvalBool, At, CursorAt;
    var input := start;
    ServesOnly(env, ctx);
    FilterTrace(ctx, input, test);
    ghost var all := TraceOf(ctx, Filter(start, test));
    while true
      invariant Serves(env, ctx) && Ready(ctx, input) && Height(input) == Height(start)
        && Keep(ctx.platform.ops, test, TraceOf(ctx, input)) == all
      decreases |TraceOf(ctx, input).rows|
    {
      ghost var t := TraceOf(ctx, input);
      var s;
      input, s := Next(env, ctx, input);
      FilterTrace(ctx, input, test);
      op' := Filter(input, test);
      if !s.Yield? {
        return op', s;
      }
      var b := EvalBool(env.platform.ops, test, s.row.doc);
      if b.Err? {
        return op', Failed(Query(b.error));
      }
      if b.value {
        return op', s;
      }
    }
  }

  lemma FilterTrace(ctx: Context, input: Op, test: Expr)
    ensures TraceOf(ctx, Filter(input, test)) == Keep(ctx.platform.ops, test, TraceOf(ctx, input))
  {
  }

  method ProjectionNext(env: Env, ghost ctx: Context, input: Op, items: Option<seq<Item>>) returns (op': Op, r: Step)
    requires Serves(env, ctx) && Ready(ctx, input)
    modifies env.pool, env.pool.disk
    ensures Serves(env, ctx) && Ready(ctx, op') && Height(op') == Height(input) + 1
    ensures Steps(TraceOf(ctx, Projection(input, items)), r, TraceOf(ctx, op'))
    decreases Height(input), 1
  {
    hide Serves, TraceOf, Project, At, CursorAt;
    ServesOnly(env, ctx);
    ProjectionTrace(ctx, input, items);
    var input', s := Next(env, ctx, input);
    ProjectionTrace(ctx, input', items);
    op' := Projection(input', items);
    if !s.Yield? || items.None? {
      return op', s;
    }
    var d := Project(env.platform, items.value, s.row.doc);
    if d.Err? {
      return op', Failed(Query(d.error));
    }
    r := Yield(Row(None, d.value));
  }

  lemma ProjectionTrace(ctx: Context, input: Op, items: Option<seq<Item>>)
    ensures TraceOf(ctx, Projection(input, items)) ==
            if items.None? then TraceOf(ctx, input) else Projected(ctx.platform, items.value, TraceOf(ctx, input))
  {
  }

  method DropNext(env: Env, ghost ctx: Context, input: Op, fields: seq<Text>) returns (op': Op, r: Step)
    requires Serves(env, ctx) && Ready(ctx, input)
    modifies env.pool, env.pool.disk
    ensures Serves(env, ctx) && Ready(ctx, op') && Height(op') == Height(input) + 1
    ensures Steps(TraceOf(ctx, DropFields(input, fields)), r, TraceOf(ctx, op'))
    decreases Height(input), 1
  {
    hide Serves, TraceOf, At, CursorAt;
    DropTrace(ctx, input, fields);
    var input', s := Next(env, ctx, input);
    DropTrace(ctx, input', fields);
    op' := DropFields(input', fields);
    if !s.Yield? {
      return op', s;
    }
    var doc := s.row.doc;
    for i := 0 to |fields|
      invariant doc == s.row.doc - (set f | f in fields[..i])
      modifies {}
    {
      doc := doc - {fields[i]};
      assert fields[..i + 1] == fields[..i] + [fields[i]];
    }
    assert fields[..|fields|] == fields;
    ghost var t, t' := TraceOf(ctx, input), TraceOf(ctx, input');
    assert Dropped(fields, t).rows[1..] == Dropped(fields, t').rows;
    r := Yield(s.row.(doc := doc));
  }

  lemma DropTrace(ctx: Context, input: Op, fields: seq<Text>)
    ensures TraceOf(ctx, DropFields(input, fields)) == Dropped(fields, TraceOf(ctx, input))
  {
  }

  method OffsetNext(env: Env, ghost ctx: Context, start: Op, n: nat) returns (op': Op, r: Step)
    requires Serves(env, ctx) && Ready(ctx, start)
    modifies env.pool, env.pool.disk
    ensures Serves(env, ctx) && Ready(ctx, op') && Height(op') == Height(start) + 1
    ensures Steps(TraceOf(ctx, Offset(start, n)), r, TraceOf(ctx, op'))
    decreases Height(start), 1
  {
    hide Serves, TraceOf, At, CursorAt;
    var input, toSkip := start, n;
    OffsetTrace(ctx, input, toSkip);
    ghost var all := TraceOf(ctx, Offset(start, n));
    while toSkip > 0
      invariant Serves(env, ctx) && Ready(ctx, input) && Height(input) == Height(start) && Skipped(toSkip, TraceOf(ctx, input)) == all
    {
      var s;
      input, s := Next(env, ctx, input);
      OffsetTrace(ctx, input, toSkip);
      if !s.Yield? {
        return Offset(input, toSkip), s;
      }
      toSkip := toSkip - 1;
    }
    input, r := Next(env, ctx, input);
    OffsetTrace(ctx, input, 0);
    op' := Offset(input, 0);
  }

  lemma OffsetTrace(ctx: Context, input: Op, n: nat)
    ensures TraceOf(ctx, Offset(input, n)) == Skipped(n, TraceOf(ctx, input))
  {
  }

  /** Sorts everything on the first pull; on columns that are not alike the outcome is the library's. */
  method SortNext(env: Env, ghost ctx: Context, input: Op, keys: seq<SortKey>, buffered: Option<seq<Row>>) returns (op': Op, r: Step)
    requires Serves(env, ctx) && Ready(ctx, input)
    modifies env.pool, env.pool.disk
    ensures Serves(env, ctx) && Ready(ctx, op') && Height(op') == Height(input) + 1
    ensures Steps(TraceOf(ctx, Sort(input, keys, buffered)), r, TraceOf(ctx, op'))
    decreases Height(input), 2
  {
    hide Serves, TraceOf, SortOutcome, At, CursorAt;
    ServesOnly(env, ctx);
    SortTrace(ctx, input, keys, buffered);
    var input', all := input, buffered;
    if all.None? {
      var rows, end;
      input', rows, end := Drain(env, ctx, input);
      if end.Some? {
        return Sort(input', keys, None), Failed(end.value);
      }
      var sorted := SortOutcome(env.platform, keys, rows);
      if sorted.Err? {
        return Sort(input', keys, None), Failed(Query(sorted.error));
      }
      all := Some(sorted.value);
    }
    var rest;
    rest, r := Pop(all.value);
    op' := Sort(input', keys, Some(rest));
    SortTrace(ctx, input', keys, Some(rest));
  }

  lemma SortTrace(ctx: Context, input: Op, keys: seq<SortKey>, buffered: Option<seq<Row>>)
    ensures TraceOf(ctx, Sort(input, keys, buffered)) ==
            if buffered.Some? then Trace(buffered.value, None) else SortedTrace(ctx.platform, keys, TraceOf(ctx, input))
  {
  }

  method AggregateNext(env: Env, ghost ctx: Context, input: Op, fields: seq<Text>, items: seq<Item>, buffered: Option<seq<Row>>)
    returns (op': Op, r: Step)
    requires Serves(env, ctx) && Ready(ctx, input)
    modifies env.pool, env.pool.disk
    ensures Serves(env, ctx) && Ready(ctx, op') && Height(op') == Height(input) + 1
    ensures Steps(TraceOf(ctx, Aggregate(input, fields, items, buffered)), r, TraceOf(ctx, op'))
    decreases Height(input), 2
  {
    hide Serves, TraceOf, FoldGroups, Groups, At, CursorAt;
    ServesOnly(env, ctx);
    AggregateTrace(ctx, input, fields, items, buffered);
    var input', all := input, buffered;
    if all.None? {
      var rows, end;
      input', rows, end := Drain(env, ctx, input);
      if end.Some? {
        return Aggregate(input', fields, items, None), Failed(end.value);
      }
      var gs := GroupRows(env.platform, fields, rows);
      var out := FoldAll(env.platform, fields, items, gs);
      if out.Err? {
        return Aggregate(input', fields, items, None), Failed(Query(out.error));
      }
      all := Some(out.value);
    }
    var rest;
    rest, r := Pop(all.value);
    op' := Aggregate(input', fields, items, Some(rest));
    AggregateTrace(ctx, input', fields, items, Some(rest));
  }

  lemma AggregateTrace(ctx: Context, input: Op, fields: seq<Text>, items: seq<Item>, buffered: Option<seq<Row>>)
    ensures TraceOf(ctx, Aggregate(input, fields, items, buffered)) ==
            if buffered.Some? then Trace(buffered.value, None) else Grouped(ctx.platform, fields, items, TraceOf(ctx, input))
  {
  }

  method GroupRows(pf: Platform, fields: seq<Text>, rows: seq<Row>) returns (gs: seq<Group>)
    ensures gs == Groups(pf, fields, rows)
  {
    hide GroupKey;
    gs := [];
    for i := 0 to |rows|
      invariant gs == Groups(pf, fields, rows[..i])
    {
      gs := Join(gs, GroupKey(pf.debug, fields, rows[i].doc), rows[i].doc);
      assert rows[..i + 1][..i] == rows[..i] && rows[..i + 1][i] == rows[i];
    }
    assert rows[..|rows|] == rows;
  }

  method FoldAll(pf: Platform, fields: seq<Text>, items: seq<Item>, gs: seq<Group>) returns (r: Result<seq<Row>>)
    ensures r == FoldGroups(pf, fields, items, gs)
  {
    hide FoldGroup;
    var out: seq<Row> := [];
    for i := 0 to |gs|
      invariant FoldGroups(pf, fields, items, gs[..i]) == Ok(out)
    {
      assert gs[..i + 1][..i] == gs[..i] && gs[..i + 1][i] == gs[i];
      var d := FoldGroup(pf, fields, items, gs[i].docs);
      if d.Err? {
        FoldFails(pf, fields, items, gs, i + 1);
        return Err(d.error);
      }
      out := out + [Row(None, d.value)];
    }
    assert gs[..|gs|] == gs;
    r := Ok(out);
  }

  lemma {:induction false} FoldFails(pf: Platform, fields: seq<Text>, items: seq<Item>, gs: seq<Group>, i: nat)
    requires i <= |gs| && FoldGroups(pf, fields, items, gs[..i]).Err?
    ensures FoldGroups(pf, fields, items, gs) == FoldGroups(pf, fields, items, gs[..i])
    decreases |gs| - i
  {
    hide FoldGroup;
    if i < |gs| {
      assert gs[..i + 1][..i] == gs[..i];
      FoldFails(pf, fields, items, gs, i + 1);
    } else {
      assert gs[..i] == gs;
    }
  }

  /** Builds the table from the left side on the first pull, then probes it with one right row after the other. */
  method JoinNext(env: Env, ghost ctx: Context, left: Op, right: Op, lf: Text, rf: Text, table: Option<seq<Document>>, pending: seq<Row>)
    returns (op': Op, r: Step)
    requires Serves(env, ctx) && Ready(ctx, left) && Ready(ctx, right)
    modifies env.pool, env.pool.disk
    ensures Serves(env, ctx) && Ready(ctx, op') && Height(op') == Height(left) + Height(right) + 1
    ensures Steps(TraceOf(ctx, HashJoin(left, right, lf, rf, table, pending)), r, TraceOf(ctx, op'))
    decreases Height(left) + Height(right), 2
  {
    hide Serves, TraceOf, Partners, Joined, JoinRows, Reverse, At, CursorAt, Ready;
    ServesOnly(env, ctx);
    JoinTrace(ctx, left, right, lf, rf, table, pending);
    var left', built := left, table;
    if built.None? {
      var rows, end;
      left', rows, end := Drain(env, ctx, left);
      if end.Some? {
        JoinReady(ctx, left', right, lf, rf, None, pending);
        return HashJoin(left', right, lf, rf, None, pending), Failed(end.value);
      }
      built := Some(DocsOf(rows));
    }
    var t, right', waiting := built.value, right, pending;
    ghost var all := TraceOf(ctx, HashJoin(left, right, lf, rf, table, pending));
    while true
      invariant Serves(env, ctx) && Ready(ctx, left') && Ready(ctx, right') && Height(right') == Height(right)
      invariant all == Joined(ctx.platform.ops, t, lf, rf, waiting, TraceOf(ctx, right'))
      decreases |TraceOf(ctx, right').rows|
    {
      if |waiting| > 0 {
        var n := |waiting| - 1;
        op' := HashJoin(left', right', lf, rf, Some(t), waiting[..n]);
        JoinReady(ctx, left', right', lf, rf, Some(t), waiting[..n]);
        JoinTrace(ctx, left', right', lf, rf, Some(t), waiting[..n]);
        JoinPop(ctx.platform.ops, t, lf, rf, waiting, TraceOf(ctx, right'));
        return op', Yield(waiting[n]);
      }
      ghost var before := TraceOf(ctx, right');
      JoinPull(ctx.platform.ops, t, lf, rf, before);
      var s;
      right', s := Next(env, ctx, right');
      if !s.Yield? {
        op' := HashJoin(left', right', lf, rf, Some(t), waiting);
        JoinReady(ctx, left', right', lf, rf, Some(t), waiting);
        JoinTrace(ctx, left', right', lf, rf, Some(t), waiting);
        return op', s;
      }
      waiting := MatchAll(env.platform.ops, t, lf, rf, s.row.doc);
    }
  }

  lemma JoinReady(ctx: Context, left: Op, right: Op, lf: Text, rf: Text, table: Option<seq<Document>>, pending: seq<Row>)
    requires Ready(ctx, left) && Ready(ctx, right)
    ensures Ready(ctx, HashJoin(left, right, lf, rf, table, pending))
  {
  }

  ghost function Joined(ops: Ops, t: seq<Document>, lf: Text, rf: Text, pending: seq<Row>, right: Trace): Trace {
    Trace(Reverse(pending) + JoinRows(ops, t, lf, rf, right.rows), right.end)
  }

  lemma JoinPop(ops: Ops, t: seq<Document>, lf: Text, rf: Text, pending: seq<Row>, right: Trace)
    requires |pending| > 0
    ensures var n := |pending| - 1;
      Steps(Joined(ops, t, lf, rf, pending, right), Yield(pending[n]), Joined(ops, t, lf, rf, pending[..n], right))
  {
    hide JoinRows;
    var n, more := |pending| - 1, JoinRows(ops, t, lf, rf, right.rows);
    assert ([pending[n]] + Reverse(pending[..n]) + more)[1..] == Reverse(pending[..n]) + more;
  }

  /** With nothing pending the join goes on with the next right row, or ends as the right side does. */
  lemma JoinPull(ops: Ops, t: seq<Document>, lf: Text, rf: Text, right: Trace)
    ensures var all := Joined(ops, t, lf, rf, [], right);
      if |right.rows| == 0 then all == right
      else all == Joined(ops, t, lf, rf, Partners(ops, t, lf, rf, right.rows[0].doc), right.(rows := right.rows[1..]))
  {
    hide Partners;
    var all := JoinRows(ops, t, lf, rf, right.rows);
    assert Reverse([]) + all == all;
  }

  lemma JoinTrace(ctx: Context, left: Op, right: Op, lf: Text, rf: Text, table: Option<seq<Document>>, pending: seq<Row>)
    ensures TraceOf(ctx, HashJoin(left, right, lf, rf, table, pending)) ==
      var l := TraceOf(ctx, left);
      if table.None? && l.end.Some? then Trace([], l.end)
      else Joined(ctx.platform.ops, if table.None? then DocsOf(l.rows) else table.value, lf, rf, pending, TraceOf(ctx, right))
  {
  }

  /** A right row against the whole table; a null key matches nothing. */
  method MatchAll(ops: Ops, table: seq<Document>, lf: Text, rf: Text, right: Document) returns (out: seq<Row>)
    ensures out == Partners(ops, table, lf, rf, right)
  {
    hide ValuesEqual;
    out := [];
    var key := Get(right, rf);
    if key.Null? {
      NullMatchesNone(ops, table, lf, rf, right);
      return;
    }
    for i := 0 to |table|
      invariant out == Partners(ops, table[..i], lf, rf, right)
    {
      if ValuesEqual(ops, Get(table[i], lf), key) {
        out := out + [Row(None, table[i] + right)];
      }
      assert table[..i + 1][..i] == table[..i] && table[..i + 1][i] == table[i];
    }
    assert table[..|table|] == table;
  }

  lemma {:induction false} NullMatchesNone(ops: Ops, table: seq<Document>, lf: Text, rf: Text, right: Document)
    requires Get(right, rf).Null?
    ensures Partners(ops, table, lf, rf, right) == []
  {
    if |table| == 0 {
    } else {
      NullMatchesNone(ops, table[..|table| - 1], lf, rf, right);
    }
  }

  /** Running a plan to the end gives exactly its list over the pages as they are, or the error that ends it. */
  method Execute(env: Env, op: Op) returns (rows: seq<Row>, end: Option<ExecError>)
    requires EnvOk(env) && Fresh(op)
    modifies env.pool, env.pool.disk
    ensures EnvOk(env) && Trace(rows, end) == TraceOf(old(ContextOf(env)), op) && ContextOf(env) == old(ContextOf(env))
  {
    hide EnvOk, ContextOf, TraceOf, Fresh, Ready;
    ghost var ctx := ContextOf(env);
    FreshIsReady(ctx, op);
    var op';
    op', rows, end := Drain(env, ctx, op);
    assert EnvOk(env) && ContextOf(env) == ctx by {
      ServesOnly(env, ctx);
    }
  }

  /** A plan that no row has been asked of. */
  predicate Fresh(op: Op) {
    match op
    case SeqScan(_, cursor, page, started) => cursor.None? && page == [] && !started
    case IndexScan(_, _, _, _, buffered) => buffered.None?
    case HashJoin(left, right, _, _, table, pending) => table.None? && pending == [] && Fresh(left) && Fresh(right)
    case Sort(input, _, buffered) => buffered.None? && Fresh(input)
    case Aggregate(input, _, _, buffered) => buffered.None? && Fresh(input)
    case _ => Fresh(op.input)
  }

  lemma FreshIsReady(ctx: Context, op: Op)
    requires Fresh(op)
    ensures Ready(ctx, op)
  {
  }
}
