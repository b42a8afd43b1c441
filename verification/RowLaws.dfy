/** What the operators of src/query/executor.rs that work row by row make of a list, said of the rows alone. */
module RowLaws {
  import opened Disk
  import opened Values
  import opened Evaluate
  import opened Aggregates
  import opened Plans

  // filter

  /** Strictly rising positions of a list of length n. */
  ghost predicate Rising(p: seq<nat>, n: nat) {
    && (forall i :: 0 <= i < |p| ==> p[i] < n)
    && (forall i, j :: 0 <= i < j < |p| ==> p[i] < p[j])
  }

  /** Where the filter ends: behind the last row, or at the first row that fails. */
  ghost predicate EndsAt(ops: Ops, e: Expr, rows: seq<Row>, n: nat, t: Trace) {
    && n <= |rows| && (forall i :: 0 <= i < n ==> EvalBool(ops, e, rows[i].doc).Ok?)
    && if n == |rows| then t.end.None? else var b := EvalBool(ops, e, rows[n].doc); b.Err? && t.end == Some(Query(b.error))
  }

  /** Positions p are those below n at which the test is true. */
  ghost predicate Chooses(ops: Ops, e: Expr, rows: seq<Row>, p: seq<nat>, n: nat)
    requires n <= |rows|
  {
    Rising(p, n) && forall i :: 0 <= i < n ==> (i in p <==> EvalBool(ops, e, rows[i].doc) == Ok(true))
  }

  ghost predicate Picks(rows: seq<Row>, p: seq<nat>, out: seq<Row>) {
    |out| == |p| && forall i :: 0 <= i < |p| ==> p[i] < |rows| && out[i] == rows[p[i]]
  }

  /** A filter yields the rows on which the test is true, each once and in order, up to the first row on which it fails; a
      filter that fails on a row yields nothing of the rows behind it. */
  lemma {:induction false} KeepMeans(ops: Ops, e: Expr, rows: seq<Row>) returns (p: seq<nat>, n: nat)
    ensures var t := Keep(ops, e, Trace(rows, None));
      EndsAt(ops, e, rows, n, t) && Chooses(ops, e, rows, p, n) && Picks(rows, p, t.rows)
    decreases |rows|
  {
    hide EvalBool, Chooses, Picks, EndsAt;
    if |rows| == 0 {
      p, n := [], 0;
      NothingKept(ops, e, rows, Keep(ops, e, Trace(rows, None)));
    } else {
      var b := EvalBool(ops, e, rows[0].doc);
      assert Trace(rows, None).(rows := rows[1..]) == Trace(rows[1..], None);
      if b.Err? {
        p, n := [], 0;
        NothingKept(ops, e, rows, Keep(ops, e, Trace(rows, None)));
      } else {
        var q, m := KeepMeans(ops, e, rows[1..]);
        n := m + 1;
        p := (if b.value then [0] else []) + Shifted(q);
        EndsLater(ops, e, rows, m, Keep(ops, e, Trace(rows[1..], None)), Keep(ops, e, Trace(rows, None)));
        ShiftedIn(ops, e, rows, q, m, b.value);
        ShiftedPicks(rows, q, Keep(ops, e, Trace(rows[1..], None)).rows, b.value);
        assert [] + Keep(ops, e, Trace(rows[1..], None)).rows == Keep(ops, e, Trace(rows[1..], None)).rows;
      }
    }
  }

  lemma NothingKept(ops: Ops, e: Expr, rows: seq<Row>, t: Trace)
    requires t == Keep(ops, e, Trace(rows, None)) && (|rows| == 0 || EvalBool(ops, e, rows[0].doc).Err?)
    ensures EndsAt(ops, e, rows, 0, t) && Chooses(ops, e, rows, [], 0) && Picks(rows, [], t.rows)
  {
    hide EvalBool;
  }

  lemma EndsLater(ops: Ops, e: Expr, rows: seq<Row>, m: nat, t: Trace, t': Trace)
    requires |rows| > 0 && EvalBool(ops, e, rows[0].doc).Ok? && EndsAt(ops, e, rows[1..], m, t) && t'.end == t.end
    ensures m < |rows| && EndsAt(ops, e, rows, m + 1, t')
  {
    hide EvalBool;
    assert forall i :: 0 <= i < |rows| - 1 ==> rows[1..][i] == rows[i + 1];
    forall i | 0 <= i < m + 1
      ensures EvalBool(ops, e, rows[i].doc).Ok?
    {
      assert i > 0 ==> EvalBool(ops, e, rows[1..][i - 1].doc).Ok?;
    }
  }

  lemma ShiftedPicks(rows: seq<Row>, q: seq<nat>, out: seq<Row>, first: bool)
    requires |rows| > 0 && Picks(rows[1..], q, out)
    ensures Picks(rows, (if first then [0] else []) + Shifted(q), (if first then [rows[0]] else []) + out)
  {
  }

  function Shifted(q: seq<nat>): (p: seq<nat>)
    ensures |p| == |q| && forall i :: 0 <= i < |q| ==> p[i] == q[i] + 1
  {
    seq(|q|, i requires 0 <= i < |q| => q[i] + 1)
  }

  lemma ShiftedRises(q: seq<nat>, m: nat, first: bool)
    requires Rising(q, m)
    ensures Rising((if first then [0] else []) + Shifted(q), m + 1)
  {
  }

  lemma InShifted(q: seq<nat>, first: bool, i: nat)
    ensures i in (if first then [0] else []) + Shifted(q) <==> if i == 0 then first else i - 1 in q
  {
    var p := (if first then [0] else []) + Shifted(q);
    assert forall j :: 0 <= j < |q| ==> Shifted(q)[j] in p;
    if i > 0 && i - 1 in q {
      var j :| 0 <= j < |q| && q[j] == i - 1;
      assert Shifted(q)[j] == i;
    }
    assert first ==> p[0] == 0;
  }

  lemma ShiftedIn(ops: Ops, e: Expr, rows: seq<Row>, q: seq<nat>, m: nat, first: bool)
    requires |rows| > 0 && m < |rows| && Chooses(ops, e, rows[1..], q, m) && EvalBool(ops, e, rows[0].doc) == Ok(first)
    ensures m + 1 <= |rows| && Chooses(ops, e, rows, (if first then [0] else []) + Shifted(q), m + 1)
  {
    hide EvalBool, Rising, Shifted;
    var p := (if first then [0] else []) + Shifted(q);
    ShiftedRises(q, m, first);
    forall i | 0 <= i < m + 1
      ensures i in p <==> EvalBool(ops, e, rows[i].doc) == Ok(true)
    {
      InShifted(q, first, i);
      if i > 0 {
        assert rows[1..][i - 1] == rows[i];
      }
    }
  }

  // projection

  /** The last of the first n items with the name, if there is one. */
  ghost predicate LastNamed(pf: Platform, items: seq<Item>, n: nat, name: Text, i: nat) {
    && i < n <= |items| && ItemName(pf, items[i], i) == name
    && forall j :: i < j < n ==> ItemName(pf, items[j], j) != name
  }

  /** A projected document has, under each name, the value of the last item with that name, and nothing else. */
  ghost predicate Projects(pf: Platform, items: seq<Item>, doc: Document, n: nat, d: Document) {
    && (forall i: nat, name :: LastNamed(pf, items, n, name, i) ==> name in d && Eval(pf.ops, items[i].expr, doc) == Ok(d[name]))
    && (forall name :: name in d ==> exists i: nat :: LastNamed(pf, items, n, name, i))
  }

  lemma {:induction false} ProjectMeans(pf: Platform, items: seq<Item>, doc: Document)
    ensures Project(pf, items, doc).Ok? <==> forall i :: 0 <= i < |items| ==> Eval(pf.ops, items[i].expr, doc).Ok?
    ensures Project(pf, items, doc).Ok? ==> Projects(pf, items, doc, |items|, Project(pf, items, doc).value)
  {
    hide Eval, ItemName, Projects;
    if |items| == 0 {
      ProjectsNothing(pf, items, doc);
    } else {
      var n := |items| - 1;
      ProjectMeans(pf, items[..n], doc);
      assert forall i :: 0 <= i < n ==> items[..n][i] == items[i];
      if Project(pf, items, doc).Ok? {
        ProjectLast(pf, items, doc, Project(pf, items[..n], doc).value);
      }
    }
  }

  lemma ProjectsNothing(pf: Platform, items: seq<Item>, doc: Document)
    requires |items| == 0
    ensures Projects(pf, items, doc, 0, map[])
  {
    hide Eval, ItemName;
  }

  lemma ProjectLast(pf: Platform, items: seq<Item>, doc: Document, was: Document)
    requires |items| > 0 && Projects(pf, items[..|items| - 1], doc, |items| - 1, was) && Eval(pf.ops, items[|items| - 1].expr, doc).Ok?
    ensures var n := |items| - 1;
      Projects(pf, items, doc, |items|, was[ItemName(pf, items[n], n) := Eval(pf.ops, items[n].expr, doc).value])
  {
    hide Eval, ItemName;
    var n := |items| - 1;
    var title := ItemName(pf, items[n], n);
    var d := was[title := Eval(pf.ops, items[n].expr, doc).value];
    assert LastNamed(pf, items, |items|, title, n);
    forall i: nat, name | LastNamed(pf, items, |items|, name, i)
      ensures name in d && Eval(pf.ops, items[i].expr, doc) == Ok(d[name])
    {
      if i < n {
        assert LastNamed(pf, items[..n], n, name, i);
      }
    }
    forall name | name in d
      ensures exists i: nat :: LastNamed(pf, items, |items|, name, i)
    {
      if name != title {
        var i :| LastNamed(pf, items[..n], n, name, i);
        assert LastNamed(pf, items, |items|, name, i);
      }
    }
  }

  /** The name of a column: its alias, else the field it is, else its position. */
  lemma NameMeans(pf: Platform, item: Item, i: nat)
    ensures item.alias.Some? ==> ItemName(pf, item, i) == item.alias.value
    ensures item.alias.None? && item.expr.Field? ==> ItemName(pf, item, i) == item.expr.name
    ensures item.alias.None? && !item.expr.Field? ==> ItemName(pf, item, i) == pf.position(i)
  {
  }

  // the row of a group

  ghost predicate LastLabelled(pf: Platform, fields: seq<Text>, items: seq<Item>, n: nat, name: Text, i: nat) {
    && i < n <= |items| && Label(pf, items[i], i, fields) == name
    && forall j :: i < j < n ==> Label(pf, items[j], j, fields) != name
  }

  ghost predicate Folds(pf: Platform, fields: seq<Text>, items: seq<Item>, docs: seq<Document>, n: nat, d: Document) {
    && (forall i: nat, name :: LastLabelled(pf, fields, items, n, name, i) ==> name in d && GroupColumn(pf, items[i], docs) == Ok(d[name]))
    && (forall name :: name in d ==> exists i: nat :: LastLabelled(pf, fields, items, n, name, i))
  }

  /** What one item says of a group: its fold, or its value in the first document. */
  ghost function GroupColumn(pf: Platform, item: Item, docs: seq<Document>): Result<Value> {
    if item.expr.AggCall? then FoldAggregate(pf.ops, item.expr.agg, item.expr.arg, docs)
    else if |docs| > 0 then Eval(pf.ops, item.expr, docs[0])
    else Ok(Null)
  }

  lemma {:induction false} FoldGroupMeans(pf: Platform, fields: seq<Text>, items: seq<Item>, docs: seq<Document>)
    ensures FoldGroup(pf, fields, items, docs).Ok? <==> forall i :: 0 <= i < |items| ==> GroupColumn(pf, items[i], docs).Ok?
    ensures FoldGroup(pf, fields, items, docs).Ok? ==> Folds(pf, fields, items, docs, |items|, FoldGroup(pf, fields, items, docs).value)
  {
    hide Eval, FoldAggregate, Label, Folds;
    if |items| == 0 {
      FoldsNothing(pf, fields, items, docs);
    } else {
      var n := |items| - 1;
      FoldGroupMeans(pf, fields, items[..n], docs);
      assert forall i :: 0 <= i < n ==> items[..n][i] == items[i];
      assert ItemOf(pf, items[n], docs) == GroupColumn(pf, items[n], docs);
      if FoldGroup(pf, fields, items, docs).Ok? {
        FoldLast(pf, fields, items, docs, FoldGroup(pf, fields, items[..n], docs).value);
      }
    }
  }

  lemma FoldsNothing(pf: Platform, fields: seq<Text>, items: seq<Item>, docs: seq<Document>)
    requires |items| == 0
    ensures Folds(pf, fields, items, docs, 0, map[])
  {
    hide GroupColumn, Label;
  }

  lemma FoldLast(pf: Platform, fields: seq<Text>, items: seq<Item>, docs: seq<Document>, was: Document)
    requires |items| > 0 && Folds(pf, fields, items[..|items| - 1], docs, |items| - 1, was) && GroupColumn(pf, items[|items| - 1], docs).Ok?
    ensures var n := |items| - 1;
      Folds(pf, fields, items, docs, |items|, was[Label(pf, items[n], n, fields) := GroupColumn(pf, items[n], docs).value])
  {
    hide GroupColumn, Label;
    var n := |items| - 1;
    var title := Label(pf, items[n], n, fields);
    var d := was[title := GroupColumn(pf, items[n], docs).value];
    assert LastLabelled(pf, fields, items, |items|, title, n);
    forall i: nat, name | LastLabelled(pf, fields, items, |items|, name, i)
      ensures name in d && GroupColumn(pf, items[i], docs) == Ok(d[name])
    {
      if i < n {
        assert LastLabelled(pf, fields, items[..n], n, name, i);
      }
    }
    forall name | name in d
      ensures exists i: nat :: LastLabelled(pf, fields, items, |items|, name, i)
    {
      if name != title {
        var i :| LastLabelled(pf, fields, items[..n], n, name, i);
        assert LastLabelled(pf, fields, items, |items|, name, i);
      }
    }
  }

  /** A column of a group is named by its alias, else as the field it is, the fold with its field, the group field in its place,
      or its position. */
  lemma LabelMeans(pf: Platform, item: Item, i: nat, fields: seq<Text>)
    ensures var name := Label(pf, item, i, fields);
      && (item.alias.Some? ==> name == item.alias.value)
      && (item.alias.None? ==>
            match item.expr
            case Field(f) => name == f
            case AggCall(agg, None) => name == agg
            case AggCall(agg, Some(f)) => name[..|agg|] == agg && name[|agg|] == 0x5F && name[|agg| + 1..] == f
            case _ => name == if i < |fields| then fields[i] else pf.position(i))
  {
  }

  // drop, limit and offset

  /** Dropping fields leaves the others with their values, and the id. */
  lemma DropMeans(fields: seq<Text>, t: Trace, i: nat)
    requires i < |t.rows|
    ensures var r := Dropped(fields, t); |r.rows| == |t.rows| && r.end == t.end && r.rows[i].id == t.rows[i].id
    ensures var d := Dropped(fields, t).rows[i].doc;
      forall f :: (f in d <==> f in t.rows[i].doc && f !in fields) && (f in d ==> d[f] == t.rows[i].doc[f])
  {
  }

  /** A limit and an offset of the same number cut a list that does not fail in two. */
  lemma LimitThenOffset(n: nat, t: Trace)
    requires t.end.None?
    ensures Limited(n, t).rows + Skipped(n, t).rows == t.rows && Limited(n, t).end.None? && Skipped(n, t).end.None?
    ensures |Limited(n, t).rows| <= n && (|Limited(n, t).rows| < n ==> Skipped(n, t).rows == [])
  {
  }
}
