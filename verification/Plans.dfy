/** src/query/executor.rs: the operators of a plan as states, and the list that each of them stands for. */
module Plans {
  import opened Bytes
  import opened Disk
  import opened Nodes
  import opened Values
  import opened KeyOrder
  import opened Evaluate
  import opened Aggregates
  import opened Indexes

  /** A document and, if it is stored, where. */
  datatype Row = Row(id: Option<DocId>, doc: Document)

  datatype ExecError = Query(e: QueryError) | CollectionNotFound(name: Text) | IndexMissing | BoundsMissing | NoKeyPanic

  datatype Item = Item(expr: Expr, alias: Option<Text>)

  datatype SortKey = SortKey(field: Text, descending: bool)

  /** What is left to the platform: the evaluator's operations, positional names, the debug rendering of values, and what
      the library's sort does when a comparison fails. */
  datatype Platform = Platform(ops: Ops, position: nat -> Text, debug: Value -> Text, unlike: (seq<SortKey>, seq<Row>) -> Result<seq<Row>>)

  /** One page of a collection, with the live documents on it. */
  datatype StoredPage = StoredPage(id: PageId, rows: seq<Row>)

  /** What the leaves read: the page chain, the documents and the index slots of each collection. */
  datatype Context = Context(pages: map<Text, seq<StoredPage>>, docs: map<Text, Docs>, tables: map<Text, map<Name, seq<Slot>>>,
                             platform: Platform)

  /** An operator in the middle of a query. */
  datatype Op =
    | SeqScan(collection: Text, cursor: Option<PageId>, page: seq<Row>, started: bool)
    | IndexScan(collection: Text, field: Text, low: Option<Value>, high: Option<Value>, buffered: Option<seq<Row>>)
    | Filter(input: Op, test: Expr)
    | Projection(input: Op, items: Option<seq<Item>>)
    | DropFields(input: Op, fields: seq<Text>)
    | Limit(input: Op, remaining: nat)
    | Offset(input: Op, toSkip: nat)
    | Sort(input: Op, keys: seq<SortKey>, buffered: Option<seq<Row>>)
    | Aggregate(input: Op, groupKeys: seq<Text>, columns: seq<Item>, buffered: Option<seq<Row>>)
    | HashJoin(left: Op, right: Op, leftField: Text, rightField: Text, table: Option<seq<Document>>, pending: seq<Row>)

  /** All rows an operator still yields, and the error that ends it, if any. */
  datatype Trace = Trace(rows: seq<Row>, end: Option<ExecError>)

  // what each operator does to a whole list

  function Keep(ops: Ops, e: Expr, t: Trace): Trace
    decreases |t.rows|
  {
    if |t.rows| == 0 then t else
      var b := EvalBool(ops, e, t.rows[0].doc);
      if b.Err? then Trace([], Some(Query(b.error))) else
        var more := Keep(ops, e, t.(rows := t.rows[1..]));
        if b.value then more.(rows := [t.rows[0]] + more.rows) else more
  }

  function ItemName(pf: Platform, item: Item, i: nat): Text {
    if item.alias.Some? then item.alias.value
    else if item.expr.Field? then item.expr.name
    else pf.position(i)
  }

  /** The selected fields in turn; a repeated name keeps its last value. */
  function Project(pf: Platform, items: seq<Item>, doc: Document): Result<Document> {
    if |items| == 0 then Ok(map[]) else
      var n := |items| - 1;
      var d := Project(pf, items[..n], doc);
      if d.Err? then d else
        var v := Eval(pf.ops, items[n].expr, doc);
        if v.Err? then Err(v.error) else Ok(d.value[ItemName(pf, items[n], n) := v.value])
  }

  function Projected(pf: Platform, items: seq<Item>, t: Trace): Trace
    decreases |t.rows|
  {
    if |t.rows| == 0 then t else
      var d := Project(pf, items, t.rows[0].doc);
      if d.Err? then Trace([], Some(Query(d.error))) else
        var more := Projected(pf, items, t.(rows := t.rows[1..]));
        more.(rows := [Row(None, d.value)] + more.rows)
  }

  function Without(row: Row, fields: seq<Text>): Row {
    row.(doc := row.doc - (set f | f in fields))
  }

  function Dropped(fields: seq<Text>, t: Trace): Trace {
    t.(rows := seq(|t.rows|, i requires 0 <= i < |t.rows| => Without(t.rows[i], fields)))
  }

  function Limited(n: nat, t: Trace): Trace {
    if n <= |t.rows| then Trace(t.rows[..n], None) else t
  }

  function Skipped(n: nat, t: Trace): Trace {
    t.(rows := if n <= |t.rows| then t.rows[n..] else [])
  }

  // sorting

  function Directed(o: Ordering, descending: bool): Ordering {
    if !descending then o else match o case Less => Greater case Equal => Equal case Greater => Less
  }

  function CompareRows(ops: Ops, keys: seq<SortKey>, a: Row, b: Row): Result<Ordering> {
    if |keys| == 0 then Ok(Equal) else
      var c := CompareValues(ops, Get(a.doc, keys[0].field), Get(b.doc, keys[0].field));
      if c.Err? then c
      else if c.value == Equal then CompareRows(ops, keys[1..], a, b)
      else Ok(Directed(c.value, keys[0].descending))
  }

  /** x goes behind the last row that is not greater. */
  function InsertRow(ops: Ops, keys: seq<SortKey>, s: seq<Row>, x: Row): Result<seq<Row>> {
    if |s| == 0 then Ok([x]) else
      var n := |s| - 1;
      var c := CompareRows(ops, keys, s[n], x);
      if c.Err? then Err(c.error)
      else if c.value == Greater then
        var r := InsertRow(ops, keys, s[..n], x);
        if r.Err? then r else Ok(r.value + [s[n]])
      else Ok(s + [x])
  }

  function SortRows(ops: Ops, keys: seq<SortKey>, rows: seq<Row>): Result<seq<Row>> {
    if |rows| == 0 then Ok([]) else
      var s := SortRows(ops, keys, rows[..|rows| - 1]);
      if s.Err? then s else InsertRow(ops, keys, s.value, rows[|rows| - 1])
  }

  predicate Alike(keys: seq<SortKey>, a: Row, b: Row) {
    forall i :: 0 <= i < |keys| ==> Scored(Get(a.doc, keys[i].field), Get(b.doc, keys[i].field))
  }

  /** Every key column is all integers, all strings, or all doubles without a NaN. */
  predicate AllAlike(keys: seq<SortKey>, rows: seq<Row>) {
    forall i, j :: 0 <= i < |rows| && 0 <= j < |rows| ==> Alike(keys, rows[i], rows[j])
  }

  /** The sorted rows; on unlike columns the outcome is the library's. */
  function SortOutcome(pf: Platform, keys: seq<SortKey>, rows: seq<Row>): Result<seq<Row>> {
    if AllAlike(keys, rows) then SortRows(pf.ops, keys, rows) else pf.unlike(keys, rows)
  }

  function SortedTrace(pf: Platform, keys: seq<SortKey>, t: Trace): Trace {
    if t.end.Some? then Trace([], t.end) else
      var s := SortOutcome(pf, keys, t.rows);
      if s.Err? then Trace([], Some(Query(s.error))) else Trace(s.value, None)
  }

  // grouping

  datatype Group = Group(key: Bytes, docs: seq<Document>)

  /** The document joins the group of its key, or starts one behind the others. */
  function Join(gs: seq<Group>, key: Bytes, d: Document): seq<Group> {
    if |gs| == 0 then [Group(key, [d])]
    else if gs[0].key == key then [gs[0].(docs := gs[0].docs + [d])] + gs[1..]
    else [gs[0]] + Join(gs[1..], key, d)
  }

  function Groups(pf: Platform, fields: seq<Text>, rows: seq<Row>): seq<Group> {
    if |rows| == 0 then [] else
      var d := rows[|rows| - 1].doc;
      Join(Groups(pf, fields, rows[..|rows| - 1]), GroupKey(pf.debug, fields, d), d)
  }

  /** The column name of an aggregate: its alias, else its own name with that of its field. */
  function AggName(item: Item): Text
    requires item.expr.AggCall?
  {
    if item.alias.Some? then item.alias.value
    else if item.expr.arg.Some? then Concat(Concat(item.expr.agg, Underscore()), item.expr.arg.value)
    else item.expr.agg
  }

  function Underscore(): Text {
    assert Utf8([]) && CharLength([0x5F]) == 1 && [0x5F][1..] == [];
    [0x5F]
  }

  /** The column name of the i-th item of a group's row. */
  function Label(pf: Platform, item: Item, i: nat, fields: seq<Text>): Text {
    if item.expr.AggCall? then AggName(item)
    else if item.alias.Some? then item.alias.value
    else if item.expr.Field? then item.expr.name
    else if i < |fields| then fields[i] else pf.position(i)
  }

  /** One column of a group: a fold of it, or a value of its first document. */
  function ItemOf(pf: Platform, item: Item, docs: seq<Document>): Result<Value> {
    if item.expr.AggCall? then FoldAggregate(pf.ops, item.expr.agg, item.expr.arg, docs)
    else if |docs| == 0 then Ok(Null)
    else Eval(pf.ops, item.expr, docs[0])
  }

  /** The row of a group: its columns in turn, a repeated name keeping its last value. */
  function FoldGroup(pf: Platform, fields: seq<Text>, items: seq<Item>, docs: seq<Document>): Result<Document> {
    if |items| == 0 then Ok(map[]) else
      var n := |items| - 1;
      var d := FoldGroup(pf, fields, items[..n], docs);
      if d.Err? then d else
        var v := ItemOf(pf, items[n], docs);
        if v.Err? then Err(v.error) else Ok(d.value[Label(pf, items[n], n, fields) := v.value])
  }

  function FoldGroups(pf: Platform, fields: seq<Text>, items: seq<Item>, gs: seq<Group>): Result<seq<Row>> {
    if |gs| == 0 then Ok([]) else
      var n := |gs| - 1;
      var r := FoldGroups(pf, fields, items, gs[..n]);
      if r.Err? then r else
        var d := FoldGroup(pf, fields, items, gs[n].docs);
        if d.Err? then Err(d.error) else Ok(r.value + [Row(None, d.value)])
  }

  function Grouped(pf: Platform, fields: seq<Text>, items: seq<Item>, t: Trace): Trace {
    if t.end.Some? then Trace([], t.end) else
      var r := FoldGroups(pf, fields, items, Groups(pf, fields, t.rows));
      if r.Err? then Trace([], Some(Query(r.error))) else Trace(r.value, None)
  }

  // joining

  function Partners(ops: Ops, table: seq<Document>, lf: Text, rf: Text, right: Document): seq<Row> {
    if |table| == 0 then [] else
      var n := |table| - 1;
      var key := Get(right, rf);
      Partners(ops, table[..n], lf, rf, right)
      + if !key.Null? && ValuesEqual(ops, Get(table[n], lf), key) then [Row(None, table[n] + right)] else []
  }

  function Reverse(s: seq<Row>): (r: seq<Row>)
    ensures |r| == |s|
  {
    if |s| == 0 then [] else [s[|s| - 1]] + Reverse(s[..|s| - 1])
  }

  /** The nested-loop join in the order of the right side, each right row's matches last first. */
  function JoinRows(ops: Ops, table: seq<Document>, lf: Text, rf: Text, right: seq<Row>): seq<Row> {
    if |right| == 0 then []
    else Reverse(Partners(ops, table, lf, rf, right[0].doc)) + JoinRows(ops, table, lf, rf, right[1..])
  }

  function DocsOf(rows: seq<Row>): (ds: seq<Document>)
    ensures |ds| == |rows|
  {
    seq(|rows|, i requires 0 <= i < |rows| => rows[i].doc)
  }

  // what an operator yields from its current state on

  function PagesFrom(pages: seq<StoredPage>, k: nat): seq<Row>
    decreases |pages| - k
  {
    if k >= |pages| then [] else pages[k].rows + PagesFrom(pages, k + 1)
  }

  /** The position of a page in the chain, or its length if it is not there. */
  function At(pages: seq<StoredPage>, id: PageId): (k: nat)
    ensures k <= |pages| && (k < |pages| ==> pages[k].id == id) && forall j :: 0 <= j < k ==> pages[j].id != id
  {
    if |pages| == 0 || pages[0].id == id then 0 else 1 + At(pages[1..], id)
  }

  /** The page that a cursor stands for; none is the first page. */
  function CursorAt(pages: seq<StoredPage>, cursor: Option<PageId>): nat {
    if cursor.None? then 0 else At(pages, cursor.value)
  }

  ghost function ScanRest(ctx: Context, collection: Text, cursor: Option<PageId>, started: bool): Trace {
    if started && cursor.None? then Trace([], None)
    else if collection !in ctx.pages then Trace([], Some(CollectionNotFound(collection)))
    else Trace(PagesFrom(ctx.pages[collection], CursorAt(ctx.pages[collection], cursor)), None)
  }

  /** The stored documents of a list of ids, in its order. */
  ghost function RowsAt(docs: Docs, ids: seq<DocId>): (rows: seq<Row>)
    ensures |rows| == |ids|
  {
    seq(|ids|, i requires 0 <= i < |ids| => Row(Some(ids[i]), if Live(docs, ids[i]) then docs[ids[i]].value else map[]))
  }

  ghost function RangeTrace(ctx: Context, collection: Text, field: Text, low: Value, high: Value): Trace {
    if collection !in ctx.docs || collection !in ctx.tables || [field] !in ctx.tables[collection] then Trace([], Some(IndexMissing))
    else if !Indexable(low) || !Indexable(high) then Trace([], Some(NoKeyPanic))
    else
      var ids := Range(ctx.tables[collection][[field]], SerializeKey(low).value, SerializeKey(high).value);
      Trace(RowsAt(ctx.docs[collection], ids), None)
  }

  ghost function TraceOf(ctx: Context, op: Op): Trace {
    match op
    case SeqScan(collection, cursor, page, started) =>
      var rest := ScanRest(ctx, collection, cursor, started);
      rest.(rows := page + rest.rows)
    case IndexScan(collection, field, low, high, buffered) =>
      if buffered.Some? then Trace(buffered.value, None)
      else if low.None? || high.None? then Trace([], Some(BoundsMissing))
      else RangeTrace(ctx, collection, field, low.value, high.value)
    case Filter(input, test) => Keep(ctx.platform.ops, test, TraceOf(ctx, input))
    case Projection(input, items) =>
      if items.None? then TraceOf(ctx, input) else Projected(ctx.platform, items.value, TraceOf(ctx, input))
    case DropFields(input, fields) => Dropped(fields, TraceOf(ctx, input))
    case Limit(input, remaining) => Limited(remaining, TraceOf(ctx, input))
    case Offset(input, toSkip) => Skipped(toSkip, TraceOf(ctx, input))
    case Sort(input, keys, buffered) =>
      if buffered.Some? then Trace(buffered.value, None) else SortedTrace(ctx.platform, keys, TraceOf(ctx, input))
    case Aggregate(input, groupKeys, items, buffered) =>
      if buffered.Some? then Trace(buffered.value, None) else Grouped(ctx.platform, groupKeys, items, TraceOf(ctx, input))
    case HashJoin(left, right, lf, rf, table, pending) =>
      var l := TraceOf(ctx, left);
      if table.None? && l.end.Some? then Trace([], l.end) else
        var t := if table.None? then DocsOf(l.rows) else table.value;
        var r := TraceOf(ctx, right);
        Trace(Reverse(pending) + JoinRows(ctx.platform.ops, t, lf, rf, r.rows), r.end)
  }

  // states that a query can be in

  ghost predicate DistinctPages(pages: seq<StoredPage>) {
    forall i, j :: 0 <= i < j < |pages| ==> pages[i].id != pages[j].id
  }

  /** Every collection has a page, and the pages of its chain are distinct. */
  ghost predicate ContextOk(ctx: Context) {
    forall c :: c in ctx.pages ==> DistinctPages(ctx.pages[c]) && |ctx.pages[c]| > 0
  }

  /** The cursors of the scans stand on pages of their chains. */
  ghost predicate Ready(ctx: Context, op: Op) {
    match op
    case SeqScan(collection, cursor, _, started) =>
      && (!started ==> cursor.None?)
      && (cursor.Some? ==> collection in ctx.pages && CursorAt(ctx.pages[collection], cursor) < |ctx.pages[collection]|)
    case IndexScan(_, _, _, _, _) => true
    case HashJoin(left, right, _, _, _, _) => Ready(ctx, left) && Ready(ctx, right)
    case _ => Ready(ctx, op.input)
  }

  function Height(op: Op): nat {
    match op
    case SeqScan(_, _, _, _) => 0
    case IndexScan(_, _, _, _, _) => 0
    case HashJoin(l, r, _, _, _, _) => 1 + Height(l) + Height(r)
    case _ => 1 + Height(op.input)
  }

  datatype Step = Yield(row: Row) | Exhausted | Failed(error: ExecError)

  /** One call of next(): the first row of the trace, and then the rest of it; None for good at its end. */
  ghost predicate Steps(t: Trace, r: Step, t': Trace) {
    if |t.rows| > 0 then r == Yield(t.rows[0]) && t' == t.(rows := t.rows[1..])
    else if t.end.None? then r == Exhausted && t' == t
    else r == Failed(t.end.value)
  }

  // pages read by a scan

  function RowsBefore(pages: seq<StoredPage>, k: nat): nat
    requires k <= |pages|
  {
    if k == 0 then 0 else RowsBefore(pages, k - 1) + |pages[k - 1].rows|
  }

  /** Pages a scan has fetched so far. */
  function PagesRead(pages: seq<StoredPage>, scan: Op): nat
    requires scan.SeqScan?
  {
    if !scan.started then 0 else if scan.cursor.None? then |pages| else At(pages, scan.cursor.value)
  }

  /** A scan that has yielded c rows has read up to the page of the last of them and no further. */
  ghost predicate ReadUpTo(ctx: Context, scan: Op, c: nat) {
    && scan.SeqScan? && scan.collection in ctx.pages && Ready(ctx, scan)
    && var pages := ctx.pages[scan.collection]; var k := PagesRead(pages, scan);
      && k <= |pages| && c + |scan.page| == RowsBefore(pages, k)
      && (if c == 0 then k == 0 else k > 0 && RowsBefore(pages, k - 1) < c)
  }

  ghost predicate ReadsOn(ctx: Context, scan: Op, scan': Op, r: Step) {
    scan.SeqScan? && scan'.SeqScan? && scan'.collection == scan.collection
    && forall c: nat :: ReadUpTo(ctx, scan, c) && r.Yield? ==> ReadUpTo(ctx, scan', c + 1)
  }

  /** Like ReadUpTo, while a next page is being looked for: only empty pages lie between the last row and here. */
  ghost predicate Reading(ctx: Context, scan: Op, c: nat) {
    && scan.SeqScan? && scan.collection in ctx.pages && Ready(ctx, scan)
    && var pages := ctx.pages[scan.collection]; var k := PagesRead(pages, scan);
      && k <= |pages| && c + |scan.page| == RowsBefore(pages, k)
      && (|scan.page| > 0 ==> k > 0 && RowsBefore(pages, k - 1) <= c)
  }

  lemma StartReading(ctx: Context, scan: Op)
    ensures forall c: nat :: ReadUpTo(ctx, scan, c) ==> Reading(ctx, scan, c)
  {
  }

  lemma YieldFromPage(ctx: Context, scan: Op)
    requires scan.SeqScan? && |scan.page| > 0
    ensures var scan' := scan.(page := scan.page[1..]);
      && Steps(TraceOf(ctx, scan), Yield(scan.page[0]), TraceOf(ctx, scan'))
      && (Ready(ctx, scan) ==> Ready(ctx, scan'))
      && forall c: nat :: Reading(ctx, scan, c) ==> ReadUpTo(ctx, scan', c + 1)
  {
    hide RowsBefore, PagesFrom;
    var rest := ScanRest(ctx, scan.collection, scan.cursor, scan.started).rows;
    assert (scan.page + rest)[1..] == scan.page[1..] + rest;
  }

  /** The scan after it fetched the page at its cursor, which links to the page behind it. */
  ghost function NextPage(ctx: Context, scan: Op): Op
    requires scan.SeqScan? && scan.collection in ctx.pages
      && CursorAt(ctx.pages[scan.collection], scan.cursor) < |ctx.pages[scan.collection]|
  {
    var pages := ctx.pages[scan.collection];
    var k := CursorAt(pages, scan.cursor);
    SeqScan(scan.collection, if k + 1 < |pages| then Some(pages[k + 1].id) else None, pages[k].rows, true)
  }

  lemma AtIs(pages: seq<StoredPage>, k: nat)
    requires DistinctPages(pages) && k < |pages|
    ensures At(pages, pages[k].id) == k
  {
    hide At;
  }

  lemma ReadOnePage(ctx: Context, scan: Op)
    requires ContextOk(ctx) && Ready(ctx, scan) && scan.SeqScan? && |scan.page| == 0 && !(scan.started && scan.cursor.None?)
    requires scan.collection in ctx.pages && CursorAt(ctx.pages[scan.collection], scan.cursor) < |ctx.pages[scan.collection]|
    ensures var scan' := NextPage(ctx, scan);
      && Ready(ctx, scan') && TraceOf(ctx, scan') == TraceOf(ctx, scan)
      && forall c: nat :: Reading(ctx, scan, c) ==> Reading(ctx, scan', c)
  {
    hide At;
    var pages := ctx.pages[scan.collection];
    var k := CursorAt(pages, scan.cursor);
    if k + 1 < |pages| {
      AtIs(pages, k + 1);
    }
    assert RowsBefore(pages, k + 1) == RowsBefore(pages, k) + |pages[k].rows|;
    assert PagesFrom(pages, k) == pages[k].rows + PagesFrom(pages, k + 1);
    assert [] + PagesFrom(pages, k) == PagesFrom(pages, k) && pages[k].rows + [] == pages[k].rows;
  }
}
