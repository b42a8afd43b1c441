/** What the buffering operators of src/query/executor.rs compute, without reference to how they do it. */
module Operators {
  import opened Bytes
  import opened Disk
  import opened Nodes
  import opened Values
  import opened Evaluate
  import opened Aggregates
  import opened Plans
  import opened Leaves
  import opened Executor

  // sort

  /** On rows alike in the key columns the comparison succeeds, and turns around with its operands. */
  lemma {:induction false} CompareTurns(ops: Ops, keys: seq<SortKey>, a: Row, b: Row)
    requires Alike(keys, a, b)
    ensures CompareRows(ops, keys, a, b).Ok?
    ensures CompareRows(ops, keys, b, a) == Ok(Directed(CompareRows(ops, keys, a, b).value, true))
  {
    hide CompareValues, Score;
    if |keys| == 0 {
    } else {
      assert Scored(Get(a.doc, keys[0].field), Get(b.doc, keys[0].field));
      CompareIsScore(ops, Get(a.doc, keys[0].field), Get(b.doc, keys[0].field));
      CompareIsScore(ops, Get(b.doc, keys[0].field), Get(a.doc, keys[0].field));
      CompareTurns(ops, keys[1..], a, b);
    }
  }

  ghost predicate NotAbove(ops: Ops, keys: seq<SortKey>, a: Row, b: Row) {
    CompareRows(ops, keys, a, b).Ok? && CompareRows(ops, keys, a, b).value != Greater
  }

  lemma {:induction false} CompareTrans(ops: Ops, keys: seq<SortKey>, a: Row, b: Row, c: Row)
    requires Alike(keys, a, b) && Alike(keys, b, c) && NotAbove(ops, keys, a, b) && NotAbove(ops, keys, b, c)
    ensures NotAbove(ops, keys, a, c)
  {
    hide CompareValues, Score;
    if |keys| == 0 {
    } else {
      var f := keys[0].field;
      assert Scored(Get(a.doc, f), Get(b.doc, f)) && Scored(Get(b.doc, f), Get(c.doc, f));
      CompareIsScore(ops, Get(a.doc, f), Get(b.doc, f));
      CompareIsScore(ops, Get(b.doc, f), Get(c.doc, f));
      CompareIsScore(ops, Get(a.doc, f), Get(c.doc, f));
      if Score(Get(a.doc, f)) == Score(Get(c.doc, f)) {
        assert Score(Get(a.doc, f)) == Score(Get(b.doc, f));
        CompareTrans(ops, keys[1..], a, b, c);
      }
    }
  }

  /** Row x that came i-th is rightly before row y that came j-th. */
  ghost predicate InOrder(ops: Ops, keys: seq<SortKey>, x: Row, i: nat, y: Row, j: nat) {
    var c := CompareRows(ops, keys, x, y);
    c == Ok(Less) || (c == Ok(Equal) && i < j)
  }

  ghost predicate AllInOrder(ops: Ops, keys: seq<SortKey>, s: seq<Row>, p: seq<nat>) {
    |s| == |p| && forall i, j :: 0 <= i < j < |s| ==> InOrder(ops, keys, s[i], p[i], s[j], p[j])
  }

  ghost predicate AlikeTo(keys: seq<SortKey>, s: seq<Row>, x: Row) {
    forall i :: 0 <= i < |s| ==> Alike(keys, s[i], x)
  }

  /** Where a new row goes: behind every row that is not above it. */
  ghost predicate Splits(ops: Ops, keys: seq<SortKey>, s: seq<Row>, x: Row, k: nat) {
    && k <= |s| && (forall i :: 0 <= i < k ==> NotAbove(ops, keys, s[i], x))
    && (forall i :: k <= i < |s| ==> CompareRows(ops, keys, s[i], x) == Ok(Greater))
  }

  lemma {:induction false} InsertSplits(ops: Ops, keys: seq<SortKey>, s: seq<Row>, p: seq<nat>, x: Row) returns (k: nat)
    requires AllInOrder(ops, keys, s, p) && AlikeTo(keys, s, x) && AllAlike(keys, s)
    ensures Splits(ops, keys, s, x, k) && InsertRow(ops, keys, s, x) == Ok(InsertAt(s, k, x))
  {
    hide CompareRows, Alike;
    if |s| == 0 {
      k := 0;
      assert InsertAt(s, 0, x) == [x];
    } else {
      var n := |s| - 1;
      assert Alike(keys, s[n], x);
      CompareTurns(ops, keys, s[n], x);
      if CompareRows(ops, keys, s[n], x).value == Greater {
        k := InsertSplits(ops, keys, s[..n], p[..n], x);
        assert InsertAt(s, k, x) == InsertAt(s[..n], k, x) + [s[n]];
      } else {
        k := |s|;
        forall i | 0 <= i < k
          ensures NotAbove(ops, keys, s[i], x)
        {
          if i < n {
            assert InOrder(ops, keys, s[i], p[i], s[n], p[n]) && Alike(keys, s[i], s[n]);
            CompareTrans(ops, keys, s[i], s[n], x);
          }
        }
        assert InsertAt(s, k, x) == s + [x];
      }
    }
  }

  lemma InsertKeepsOrder(ops: Ops, keys: seq<SortKey>, s: seq<Row>, p: seq<nat>, x: Row, m: nat, k: nat)
    requires AllInOrder(ops, keys, s, p) && AlikeTo(keys, s, x) && Splits(ops, keys, s, x, k)
    requires forall i :: 0 <= i < |p| ==> p[i] < m
    ensures AllInOrder(ops, keys, InsertAt(s, k, x), InsertAt(p, k, m))
  {
    hide CompareRows, Alike, InsertAt;
    var s', p' := InsertAt(s, k, x), InsertAt(p, k, m);
    InsertedLength(s, k, x);
    InsertedLength(p, k, m);
    forall i, j | 0 <= i < j < |s'|
      ensures InOrder(ops, keys, s'[i], p'[i], s'[j], p'[j])
    {
      InsertedAt(s, k, x, i);
      InsertedAt(s, k, x, j);
      InsertedAt(p, k, m, i);
      InsertedAt(p, k, m, j);
      if i == k {
        assert Alike(keys, s[j - 1], x);
        CompareTurns(ops, keys, s[j - 1], x);
      } else if j == k {
        assert NotAbove(ops, keys, s[i], x);
        OkIs(CompareRows(ops, keys, s[i], x));
      }
    }
  }

  lemma OkIs(r: Result<Ordering>)
    requires r.Ok? && r.value != Greater
    ensures r == Ok(Less) || r == Ok(Equal)
  {
  }

  /** out lists the rows at positions p: each row once. */
  ghost predicate Arranges(rows: seq<Row>, p: seq<nat>, out: seq<Row>) {
    && |p| == |rows| == |out| && Distinct(p)
    && forall i :: 0 <= i < |p| ==> p[i] < |rows| && out[i] == rows[p[i]]
  }

  // the order, on the values alone

  ghost function ScoreAt(keys: seq<SortKey>, a: Row, k: nat): real
    requires k < |keys|
  {
    Score(Get(a.doc, keys[k].field))
  }

  /** Key k is the first in which the rows differ, and puts a before b. */
  ghost predicate DecidedAt(keys: seq<SortKey>, a: Row, b: Row, k: nat)
    requires k < |keys|
  {
    && (forall h :: 0 <= h < k ==> ScoreAt(keys, a, h) == ScoreAt(keys, b, h))
    && if keys[k].descending then ScoreAt(keys, a, k) > ScoreAt(keys, b, k) else ScoreAt(keys, a, k) < ScoreAt(keys, b, k)
  }

  ghost predicate Decided(keys: seq<SortKey>, a: Row, b: Row) {
    exists k :: 0 <= k < |keys| && DecidedAt(keys, a, b, k)
  }

  ghost predicate SameScores(keys: seq<SortKey>, a: Row, b: Row) {
    forall k :: 0 <= k < |keys| ==> ScoreAt(keys, a, k) == ScoreAt(keys, b, k)
  }

  /** The first key that differs decides, up or down as it says; rows that differ in none keep their order. */
  ghost predicate ByScore(keys: seq<SortKey>, s: seq<Row>, p: seq<nat>) {
    |s| == |p| && forall i, j :: 0 <= i < j < |s| ==> Decided(keys, s[i], s[j]) || (SameScores(keys, s[i], s[j]) && p[i] < p[j])
  }

  lemma DecidedTail(keys: seq<SortKey>, a: Row, b: Row)
    requires |keys| > 0 && ScoreAt(keys, a, 0) == ScoreAt(keys, b, 0)
    ensures Decided(keys, a, b) <==> Decided(keys[1..], a, b)
    ensures SameScores(keys, a, b) <==> SameScores(keys[1..], a, b)
  {
    hide Score;
    assert forall k :: 0 <= k < |keys| - 1 ==> keys[1..][k] == keys[k + 1];
    assert forall k :: 0 <= k < |keys| - 1 ==>
      ScoreAt(keys[1..], a, k) == ScoreAt(keys, a, k + 1) && ScoreAt(keys[1..], b, k) == ScoreAt(keys, b, k + 1);
    if k :| 0 <= k < |keys| && DecidedAt(keys, a, b, k) {
      assert DecidedAt(keys[1..], a, b, k - 1);
    }
    if k :| 0 <= k < |keys| - 1 && DecidedAt(keys[1..], a, b, k) {
      forall h | 0 <= h < k + 1
        ensures ScoreAt(keys, a, h) == ScoreAt(keys, b, h)
      {
        assert h > 0 ==> ScoreAt(keys[1..], a, h - 1) == ScoreAt(keys[1..], b, h - 1);
      }
      assert DecidedAt(keys, a, b, k + 1);
    }
    if SameScores(keys[1..], a, b) {
      forall h | 0 <= h < |keys|
        ensures ScoreAt(keys, a, h) == ScoreAt(keys, b, h)
      {
        assert h > 0 ==> ScoreAt(keys[1..], a, h - 1) == ScoreAt(keys[1..], b, h - 1);
      }
    }
  }

  lemma {:induction false} CompareMeans(ops: Ops, keys: seq<SortKey>, a: Row, b: Row)
    requires Alike(keys, a, b)
    ensures CompareRows(ops, keys, a, b) == Ok(Less) ==> Decided(keys, a, b)
    ensures CompareRows(ops, keys, a, b) == Ok(Equal) ==> SameScores(keys, a, b)
  {
    hide CompareValues, Score, Decided, SameScores;
    if |keys| == 0 {
      NoKeys(keys, a, b);
    } else {
      assert Scored(Get(a.doc, keys[0].field), Get(b.doc, keys[0].field));
      CompareIsScore(ops, Get(a.doc, keys[0].field), Get(b.doc, keys[0].field));
      CompareMeans(ops, keys[1..], a, b);
      if ScoreAt(keys, a, 0) == ScoreAt(keys, b, 0) {
        DecidedTail(keys, a, b);
      } else {
        FirstDecides(keys, a, b);
      }
    }
  }

  lemma NoKeys(keys: seq<SortKey>, a: Row, b: Row)
    requires |keys| == 0
    ensures SameScores(keys, a, b)
  {
  }

  lemma FirstDecides(keys: seq<SortKey>, a: Row, b: Row)
    requires |keys| > 0
    ensures (if keys[0].descending then ScoreAt(keys, a, 0) > ScoreAt(keys, b, 0) else ScoreAt(keys, a, 0) < ScoreAt(keys, b, 0))
      ==> Decided(keys, a, b)
  {
    hide Score;
    if if keys[0].descending then ScoreAt(keys, a, 0) > ScoreAt(keys, b, 0) else ScoreAt(keys, a, 0) < ScoreAt(keys, b, 0) {
      assert DecidedAt(keys, a, b, 0);
    }
  }

  /** When every key column is all integers or all strings, sort succeeds, and its result is each row once, ordered by the
      values of the first key that differs in the direction of that key, and stable. */
  lemma SortIsStable(pf: Platform, keys: seq<SortKey>, rows: seq<Row>) returns (p: seq<nat>)
    requires AllAlike(keys, rows)
    ensures SortOutcome(pf, keys, rows).Ok?
    ensures var out := SortOutcome(pf, keys, rows).value; Arranges(rows, p, out) && ByScore(keys, out, p)
  {
    hide SortRows, Alike, CompareRows, Decided, SameScores;
    p := SortArranges(pf.ops, keys, rows);
    var out := SortRows(pf.ops, keys, rows).value;
    forall i, j | 0 <= i < j < |out|
      ensures Decided(keys, out[i], out[j]) || (SameScores(keys, out[i], out[j]) && p[i] < p[j])
    {
      assert out[i] == rows[p[i]] && out[j] == rows[p[j]];
      assert Alike(keys, rows[p[i]], rows[p[j]]);
      assert InOrder(pf.ops, keys, out[i], p[i], out[j], p[j]);
      CompareMeans(pf.ops, keys, out[i], out[j]);
    }
  }

  lemma {:induction false} SortArranges(ops: Ops, keys: seq<SortKey>, rows: seq<Row>) returns (p: seq<nat>)
    requires AllAlike(keys, rows)
    ensures SortRows(ops, keys, rows).Ok?
    ensures var out := SortRows(ops, keys, rows).value; Arranges(rows, p, out) && AllInOrder(ops, keys, out, p)
  {
    hide InsertRow, Alike, CompareRows;
    if |rows| == 0 {
      p := [];
    } else {
      var n: nat := |rows| - 1;
      var x := rows[n];
      forall i, j | 0 <= i < n && 0 <= j < n
        ensures Alike(keys, rows[..n][i], rows[..n][j])
      {
        assert Alike(keys, rows[i], rows[j]);
      }
      var q := SortArranges(ops, keys, rows[..n]);
      var s := SortRows(ops, keys, rows[..n]).value;
      forall i | 0 <= i < |s|
        ensures Alike(keys, s[i], x)
      {
        assert s[i] == rows[q[i]] && Alike(keys, rows[q[i]], rows[n]);
      }
      forall i, j | 0 <= i < |s| && 0 <= j < |s|
        ensures Alike(keys, s[i], s[j])
      {
        assert s[i] == rows[q[i]] && s[j] == rows[q[j]] && Alike(keys, rows[q[i]], rows[q[j]]);
      }
      var k := InsertSplits(ops, keys, s, q, x);
      InsertKeepsOrder(ops, keys, s, q, x, n, k);
      p := InsertAt(q, k, n);
      ArrangeOneMore(rows, q, s, k, n);
    }
  }

  lemma ArrangeOneMore(rows: seq<Row>, q: seq<nat>, s: seq<Row>, k: nat, n: nat)
    requires n + 1 == |rows| && Arranges(rows[..n], q, s) && k <= |s|
    ensures Arranges(rows, InsertAt(q, k, n), InsertAt(s, k, rows[n]))
  {
    hide InsertAt;
    var p, out := InsertAt(q, k, n), InsertAt(s, k, rows[n]);
    InsertedLength(q, k, n);
    InsertedLength(s, k, rows[n]);
    forall i | 0 <= i < |p|
      ensures p[i] < |rows| && out[i] == rows[p[i]]
    {
      InsertedAt(q, k, n, i);
      InsertedAt(s, k, rows[n], i);
    }
    forall i, j | 0 <= i < j < |p|
      ensures p[i] != p[j]
    {
      InsertedAt(q, k, n, i);
      InsertedAt(q, k, n, j);
    }
  }

  // group

  /** The documents with one key, in the order they came. */
  function WithKey(pf: Platform, fields: seq<Text>, rows: seq<Row>, key: Bytes): seq<Document> {
    if |rows| == 0 then [] else
      var n := |rows| - 1;
      WithKey(pf, fields, rows[..n], key) + if GroupKey(pf.debug, fields, rows[n].doc) == key then [rows[n].doc] else []
  }

  ghost predicate KeysApart(gs: seq<Group>) {
    forall i, j :: 0 <= i < j < |gs| ==> gs[i].key != gs[j].key
  }

  ghost predicate HasGroup(gs: seq<Group>, key: Bytes) {
    exists i :: 0 <= i < |gs| && gs[i].key == key
  }

  function TotalDocs(gs: seq<Group>): nat {
    if |gs| == 0 then 0 else |gs[0].docs| + TotalDocs(gs[1..])
  }

  lemma {:induction false} JoinTotal(gs: seq<Group>, key: Bytes, d: Document)
    ensures TotalDocs(Join(gs, key, d)) == TotalDocs(gs) + 1
  {
    if |gs| == 0 {
    } else {
      if gs[0].key == key {
        assert Join(gs, key, d)[1..] == gs[1..];
      } else {
        JoinTotal(gs[1..], key, d);
        assert Join(gs, key, d)[1..] == Join(gs[1..], key, d);
      }
    }
  }

  lemma HasGroupTail(gs: seq<Group>, key: Bytes)
    requires |gs| > 0
    ensures HasGroup(gs, key) <==> gs[0].key == key || HasGroup(gs[1..], key)
  {
    if HasGroup(gs[1..], key) {
      var i :| 0 <= i < |gs[1..]| && gs[1..][i].key == key;
      assert gs[i + 1].key == key;
    }
  }

  lemma {:induction false} JoinLength(gs: seq<Group>, key: Bytes, d: Document)
    ensures |Join(gs, key, d)| == |gs| + (if HasGroup(gs, key) then 0 else 1)
  {
    if |gs| == 0 {
    } else {
      HasGroupTail(gs, key);
      if gs[0].key != key {
        JoinLength(gs[1..], key, d);
      }
    }
  }

  /** Group i after a document joined. */
  ghost function JoinedGroup(gs: seq<Group>, key: Bytes, d: Document, i: nat): Group {
    if i >= |gs| then Group(key, [d])
    else if gs[i].key == key then Group(key, gs[i].docs + [d])
    else gs[i]
  }

  lemma {:induction false} JoinAt(gs: seq<Group>, key: Bytes, d: Document, i: nat)
    requires KeysApart(gs) && i < |Join(gs, key, d)|
    ensures Join(gs, key, d)[i] == JoinedGroup(gs, key, d, i)
  {
    if |gs| == 0 || i == 0 {
    } else {
      if gs[0].key == key {
        assert gs[i].key != key;
      } else {
        JoinAt(gs[1..], key, d, i - 1);
      }
    }
  }

  lemma JoinApart(gs: seq<Group>, key: Bytes, d: Document)
    requires KeysApart(gs)
    ensures KeysApart(Join(gs, key, d))
  {
    hide Join;
    var js := Join(gs, key, d);
    JoinLength(gs, key, d);
    forall i, j | 0 <= i < j < |js|
      ensures js[i].key != js[j].key
    {
      JoinAt(gs, key, d, i);
      JoinAt(gs, key, d, j);
    }
  }

  lemma JoinHas(gs: seq<Group>, key: Bytes, d: Document, k: Bytes)
    requires KeysApart(gs)
    ensures HasGroup(Join(gs, key, d), k) <==> HasGroup(gs, k) || k == key
  {
    hide Join;
    var js := Join(gs, key, d);
    JoinLength(gs, key, d);
    if i :| 0 <= i < |js| && js[i].key == k {
      JoinAt(gs, key, d, i);
    }
    if i :| 0 <= i < |gs| && gs[i].key == k {
      JoinAt(gs, key, d, i);
      assert js[i].key == k;
    }
    if k == key && !HasGroup(gs, key) {
      JoinAt(gs, key, d, |gs|);
      assert js[|gs|].key == k;
    }
  }

  /** Every document is in the group of its key, in order, and in no other; the group sizes add up to the rows. */
  ghost predicate Partition(pf: Platform, fields: seq<Text>, rows: seq<Row>, gs: seq<Group>) {
    && KeysApart(gs) && TotalDocs(gs) == |rows|
    && (forall i :: 0 <= i < |gs| ==> WholeGroup(pf, fields, rows, gs[i]))
    && (forall k :: !HasGroup(gs, k) ==> WithKey(pf, fields, rows, k) == [])
  }

  ghost predicate WholeGroup(pf: Platform, fields: seq<Text>, rows: seq<Row>, g: Group) {
    g.docs == WithKey(pf, fields, rows, g.key) && |g.docs| > 0
  }

  lemma GroupGrows(pf: Platform, fields: seq<Text>, rows: seq<Row>, gs: seq<Group>, i: nat)
    requires |rows| > 0 && Partition(pf, fields, rows[..|rows| - 1], gs)
    ensures var d := rows[|rows| - 1].doc;
      i < |Join(gs, GroupKey(pf.debug, fields, d), d)| ==> WholeGroup(pf, fields, rows, Join(gs, GroupKey(pf.debug, fields, d), d)[i])
  {
    hide Join;
    var d := rows[|rows| - 1].doc;
    if i < |Join(gs, GroupKey(pf.debug, fields, d), d)| {
      JoinLength(gs, GroupKey(pf.debug, fields, d), d);
      JoinAt(gs, GroupKey(pf.debug, fields, d), d, i);
      if i < |gs| {
        assert WholeGroup(pf, fields, rows[..|rows| - 1], gs[i]);
      } else {
        assert !HasGroup(gs, GroupKey(pf.debug, fields, d));
      }
    }
  }

  lemma {:induction false} GroupsPartition(pf: Platform, fields: seq<Text>, rows: seq<Row>)
    ensures Partition(pf, fields, rows, Groups(pf, fields, rows))
  {
    hide Join, WholeGroup, HasGroup, KeysApart, TotalDocs;
    if |rows| == 0 {
      NoGroups(pf, fields, rows);
    } else {
      var d := rows[|rows| - 1].doc;
      var was := Groups(pf, fields, rows[..|rows| - 1]);
      GroupsPartition(pf, fields, rows[..|rows| - 1]);
      var gs := Join(was, GroupKey(pf.debug, fields, d), d);
      JoinApart(was, GroupKey(pf.debug, fields, d), d);
      JoinTotal(was, GroupKey(pf.debug, fields, d), d);
      forall i | 0 <= i < |gs|
        ensures WholeGroup(pf, fields, rows, gs[i])
      {
        GroupGrows(pf, fields, rows, was, i);
      }
      forall k | !HasGroup(gs, k)
        ensures WithKey(pf, fields, rows, k) == []
      {
        JoinHas(was, GroupKey(pf.debug, fields, d), d, k);
      }
    }
  }

  lemma NoGroups(pf: Platform, fields: seq<Text>, rows: seq<Row>)
    requires |rows| == 0
    ensures Partition(pf, fields, rows, [])
  {
  }

  /** Column k counts, and no later column takes its name. */
  predicate CountsAt(pf: Platform, fields: seq<Text>, items: seq<Item>, k: nat) {
    && k < |items| && items[k].expr.AggCall? && items[k].expr.agg == COUNT
    && forall j :: k < j < |items| ==> Label(pf, items[j], j, fields) != AggName(items[k])
  }

  lemma {:induction false} CountOfGroup(pf: Platform, fields: seq<Text>, items: seq<Item>, k: nat, docs: seq<Document>)
    requires CountsAt(pf, fields, items, k) && |docs| < TWO63 && FoldGroup(pf, fields, items, docs).Ok?
    ensures var d := FoldGroup(pf, fields, items, docs).value; AggName(items[k]) in d && d[AggName(items[k])] == Int(|docs|)
  {
    hide FoldAggregate, Eval, Label, AggName;
    var n := |items| - 1;
    if k == n {
      CountMeans(pf.ops, items[k].expr.arg, docs);
      CountsLast(pf, items[k], k, fields);
    } else {
      CountOfGroup(pf, fields, items[..n], k, docs);
      assert Label(pf, items[n], n, fields) != AggName(items[k]);
    }
  }

  lemma CountsLast(pf: Platform, item: Item, i: nat, fields: seq<Text>)
    requires item.expr.AggCall?
    ensures Label(pf, item, i, fields) == AggName(item)
  {
  }

  lemma {:induction false} FoldGroupsAt(pf: Platform, fields: seq<Text>, items: seq<Item>, gs: seq<Group>, i: nat)
    requires FoldGroups(pf, fields, items, gs).Ok? && i < |gs|
    ensures var out := FoldGroups(pf, fields, items, gs).value;
      |out| == |gs| && FoldGroup(pf, fields, items, gs[i].docs) == Ok(out[i].doc)
  {
    hide FoldGroup;
    var n := |gs| - 1;
    if n == 0 {
      assert FoldGroups(pf, fields, items, gs[..0]) == Ok([]);
    } else {
      FoldGroupsAt(pf, fields, items, gs[..n], if i < n then i else 0);
    }
  }

  lemma {:induction false} GroupIsSmall(gs: seq<Group>, i: nat)
    requires i < |gs|
    ensures |gs[i].docs| <= TotalDocs(gs)
  {
    if i == 0 {
    } else {
      GroupIsSmall(gs[1..], i - 1);
    }
  }

  ghost predicate HoldsInt(d: Document, name: Text, n: int) { name in d && d[name].Int? && d[name].n == n }

  /** Each row holds the size of its group under the name. */
  ghost predicate HoldsSizes(gs: seq<Group>, docs: seq<Document>, name: Text) {
    |docs| == |gs| && forall i :: 0 <= i < |gs| ==> HoldsInt(docs[i], name, |gs[i].docs|)
  }

  lemma {:induction false} SizesAddUp(gs: seq<Group>, docs: seq<Document>, name: Text)
    requires HoldsSizes(gs, docs, name)
    ensures |Column(docs, name)| == |gs| && SumOf(Column(docs, name)) == TotalDocs(gs)
  {
    if |gs| == 0 {
    } else {
      assert HoldsInt(docs[0], name, |gs[0].docs|) && HoldsSizes(gs[1..], docs[1..], name);
      SizesAddUp(gs[1..], docs[1..], name);
      assert ([docs[0][name]] + Column(docs[1..], name))[1..] == Column(docs[1..], name);
    }
  }

  /** The count column holds the size of every group, and over all groups it adds up to the rows that came in. */
  lemma CountColumn(pf: Platform, fields: seq<Text>, items: seq<Item>, k: nat, t: Trace)
    requires CountsAt(pf, fields, items, k) && |t.rows| < TWO63 && t.end.None? && Grouped(pf, fields, items, t).end.None?
    ensures var out, name := DocsOf(Grouped(pf, fields, items, t).rows), AggName(items[k]);
      HoldsSizes(Groups(pf, fields, t.rows), out, name) && SumOf(Column(out, name)) == |t.rows|
  {
    hide FoldGroups, FoldGroup, Groups, WithKey, TotalDocs, Column, SumOf, AggName, Label;
    var gs := Groups(pf, fields, t.rows);
    var rows, name := FoldGroups(pf, fields, items, gs).value, AggName(items[k]);
    GroupsPartition(pf, fields, t.rows);
    RowPerGroup(pf, fields, items, gs);
    forall i | 0 <= i < |gs|
      ensures HoldsInt(rows[i].doc, name, |gs[i].docs|)
    {
      FoldGroupsAt(pf, fields, items, gs, i);
      GroupIsSmall(gs, i);
      CountOfGroup(pf, fields, items, k, gs[i].docs);
    }
    SizesAddUp(gs, DocsOf(rows), name);
  }

  lemma RowPerGroup(pf: Platform, fields: seq<Text>, items: seq<Item>, gs: seq<Group>)
    requires FoldGroups(pf, fields, items, gs).Ok?
    ensures |FoldGroups(pf, fields, items, gs).value| == |gs|
  {
    if |gs| == 0 {
    } else {
      FoldGroupsAt(pf, fields, items, gs, 0);
    }
  }

  // join

  ghost predicate Pairs(ops: Ops, lf: Text, rf: Text, l: Document, r: Document) {
    !Get(r, rf).Null? && ValuesEqual(ops, Get(l, lf), Get(r, rf))
  }

  lemma {:induction false} ReverseIn(s: seq<Row>, x: Row)
    ensures x in Reverse(s) <==> x in s
  {
    if |s| == 0 {
    } else {
      ReverseIn(s[..|s| - 1], x);
      assert s == s[..|s| - 1] + [s[|s| - 1]];
    }
  }

  ghost predicate FromPair(ops: Ops, table: seq<Document>, lf: Text, rf: Text, r: Document, x: Row) {
    exists i :: 0 <= i < |table| && PairAt(ops, table, lf, rf, r, x, i)
  }

  ghost predicate PairAt(ops: Ops, table: seq<Document>, lf: Text, rf: Text, r: Document, x: Row, i: nat)
    requires i < |table|
  {
    Pairs(ops, lf, rf, table[i], r) && x == Row(None, table[i] + r)
  }

  lemma {:induction false} PartnersAre(ops: Ops, table: seq<Document>, lf: Text, rf: Text, r: Document, x: Row)
    ensures x in Partners(ops, table, lf, rf, r) <==> FromPair(ops, table, lf, rf, r, x)
  {
    hide ValuesEqual, FromPair;
    if |table| == 0 {
      NoPairs(ops, table, lf, rf, r, x);
    } else {
      var n := |table| - 1;
      PartnersAre(ops, table[..n], lf, rf, r, x);
      LastPair(ops, table, lf, rf, r, x);
    }
  }

  lemma NoPairs(ops: Ops, table: seq<Document>, lf: Text, rf: Text, r: Document, x: Row)
    requires |table| == 0
    ensures !FromPair(ops, table, lf, rf, r, x)
  {
  }

  lemma LastPair(ops: Ops, table: seq<Document>, lf: Text, rf: Text, r: Document, x: Row)
    requires |table| > 0
    ensures var n := |table| - 1;
      FromPair(ops, table, lf, rf, r, x) <==>
      FromPair(ops, table[..n], lf, rf, r, x) || PairAt(ops, table, lf, rf, r, x, n)
  {
    hide PairAt;
    var n := |table| - 1;
    forall i | 0 <= i < n
      ensures PairAt(ops, table[..n], lf, rf, r, x, i) <==> PairAt(ops, table, lf, rf, r, x, i)
    {
      PairStays(ops, table, lf, rf, r, x, n, i);
    }
  }

  lemma PairStays(ops: Ops, table: seq<Document>, lf: Text, rf: Text, r: Document, x: Row, n: nat, i: nat)
    requires i < n <= |table|
    ensures PairAt(ops, table[..n], lf, rf, r, x, i) <==> PairAt(ops, table, lf, rf, r, x, i)
  {
    hide Pairs;
  }

  /** The join holds exactly the merges of a left and a right document with equal keys. */
  lemma {:induction false} JoinExact(ops: Ops, table: seq<Document>, lf: Text, rf: Text, right: seq<Row>, x: Row)
    ensures x in JoinRows(ops, table, lf, rf, right) <==>
      exists j :: 0 <= j < |right| && FromPair(ops, table, lf, rf, right[j].doc, x)
  {
    hide FromPair, Partners;
    if |right| == 0 {
    } else {
      JoinExact(ops, table, lf, rf, right[1..], x);
      ReverseIn(Partners(ops, table, lf, rf, right[0].doc), x);
      PartnersAre(ops, table, lf, rf, right[0].doc, x);
      assert forall j :: 0 <= j < |right| - 1 ==> right[1..][j] == right[j + 1];
      if j :| 0 <= j < |right| - 1 && FromPair(ops, table, lf, rf, right[1..][j].doc, x) {
        assert FromPair(ops, table, lf, rf, right[j + 1].doc, x);
      }
      if j :| 0 < j < |right| && FromPair(ops, table, lf, rf, right[j].doc, x) {
        assert FromPair(ops, table, lf, rf, right[1..][j - 1].doc, x);
      }
    }
  }

  // the join, row by row

  /** The pairs (i, j) of a left and a right position that match, from right position s on: each once, in the order of the
      right side, and for one right row the left positions falling. */
  ghost predicate ListsPairs(ops: Ops, table: seq<Document>, lf: Text, rf: Text, right: seq<Row>, s: nat, ps: seq<(nat, nat)>) {
    && (forall x :: 0 <= x < |ps| ==> IsPair(ops, table, lf, rf, right, ps[x]) && s <= ps[x].1)
    && (forall x, y :: 0 <= x < y < |ps| ==> PairBefore(ps[x], ps[y]))
    && (forall i: nat, j: nat :: s <= j && IsPair(ops, table, lf, rf, right, (i, j)) ==> (i, j) in ps)
  }

  ghost predicate IsPair(ops: Ops, table: seq<Document>, lf: Text, rf: Text, right: seq<Row>, p: (nat, nat)) {
    p.0 < |table| && p.1 < |right| && Pairs(ops, lf, rf, table[p.0], right[p.1].doc)
  }

  ghost predicate PairBefore(p: (nat, nat), q: (nat, nat)) { p.1 < q.1 || (p.1 == q.1 && p.0 > q.0) }

  /** Row x of the join merges pair x. */
  ghost predicate Merges(table: seq<Document>, right: seq<Row>, ps: seq<(nat, nat)>, rows: seq<Row>) {
    |rows| == |ps| && forall x :: 0 <= x < |ps| ==>
      ps[x].0 < |table| && ps[x].1 < |right| && rows[x] == Row(None, table[ps[x].0] + right[ps[x].1].doc)
  }

  lemma {:induction false} ReverseAt(s: seq<Row>, i: nat)
    requires i < |s|
    ensures |Reverse(s)| == |s| && Reverse(s)[i] == s[|s| - 1 - i]
  {
    if i == 0 {
    } else {
      ReverseAt(s[..|s| - 1], i - 1);
    }
  }

  /** The matches of one right row, by rising left positions below n. */
  lemma {:induction false} PartnersListed(ops: Ops, table: seq<Document>, lf: Text, rf: Text, r: Document, n: nat) returns (ls: seq<nat>)
    requires n <= |table|
    ensures var rows := Partners(ops, table[..n], lf, rf, r);
      && |ls| == |rows|
      && (forall x :: 0 <= x < |ls| ==> ls[x] < n && Pairs(ops, lf, rf, table[ls[x]], r) && rows[x] == Row(None, table[ls[x]] + r))
      && (forall x, y :: 0 <= x < y < |ls| ==> ls[x] < ls[y])
      && (forall i :: 0 <= i < n && Pairs(ops, lf, rf, table[i], r) ==> i in ls)
  {
    hide ValuesEqual;
    if n == 0 {
      ls := [];
    } else {
      ls := PartnersListed(ops, table, lf, rf, r, n - 1);
      var t := table[..n];
      assert t[..|t| - 1] == table[..n - 1] && t[|t| - 1] == table[n - 1];
      if Pairs(ops, lf, rf, table[n - 1], r) {
        ls := ls + [n - 1];
      }
    }
  }

  function Falling(ls: seq<nat>, j: nat): (ps: seq<(nat, nat)>)
    ensures |ps| == |ls| && forall x :: 0 <= x < |ls| ==> ps[x] == (ls[|ls| - 1 - x], j)
  {
    seq(|ls|, x requires 0 <= x < |ls| => (ls[|ls| - 1 - x], j))
  }

  lemma {:induction false} JoinListed(ops: Ops, table: seq<Document>, lf: Text, rf: Text, right: seq<Row>, s: nat)
    returns (ps: seq<(nat, nat)>)
    requires s <= |right|
    ensures ListsPairs(ops, table, lf, rf, right, s, ps) && Merges(table, right, ps, JoinRows(ops, table, lf, rf, right[s..]))
    decreases |right| - s
  {
    hide Pairs, Partners, Reverse;
    if s == |right| {
      ps := [];
      assert JoinRows(ops, table, lf, rf, right[s..]) == [];
    } else {
      var more := JoinListed(ops, table, lf, rf, right, s + 1);
      var ls := PartnersListed(ops, table, lf, rf, right[s].doc, |table|);
      var here := Falling(ls, s);
      ps := here + more;
      HereAndMore(ops, table, lf, rf, right, s, ls, more);
      var mine := Partners(ops, table, lf, rf, right[s].doc);
      assert table[..|table|] == table;
      assert right[s..][0] == right[s] && right[s..][1..] == right[s + 1..];
      HereMerges(table, right, s, ls, mine);
      MergesConcat(table, right, here, more, Reverse(mine), JoinRows(ops, table, lf, rf, right[s + 1..]));
    }
  }

  lemma HereMerges(table: seq<Document>, right: seq<Row>, s: nat, ls: seq<nat>, mine: seq<Row>)
    requires s < |right| && |mine| == |ls|
    requires forall x :: 0 <= x < |ls| ==> ls[x] < |table| && mine[x] == Row(None, table[ls[x]] + right[s].doc)
    ensures Merges(table, right, Falling(ls, s), Reverse(mine))
  {
    hide Reverse;
    forall x | 0 <= x < |ls|
      ensures Reverse(mine)[x] == mine[|mine| - 1 - x]
    {
      ReverseAt(mine, x);
    }
  }

  lemma MergesConcat(table: seq<Document>, right: seq<Row>, ps: seq<(nat, nat)>, qs: seq<(nat, nat)>, a: seq<Row>, b: seq<Row>)
    requires Merges(table, right, ps, a) && Merges(table, right, qs, b)
    ensures Merges(table, right, ps + qs, a + b)
  {
  }

  lemma HereAndMore(ops: Ops, table: seq<Document>, lf: Text, rf: Text, right: seq<Row>, s: nat, ls: seq<nat>, more: seq<(nat, nat)>)
    requires s < |right| && ListsPairs(ops, table, lf, rf, right, s + 1, more)
    requires forall x :: 0 <= x < |ls| ==> ls[x] < |table| && Pairs(ops, lf, rf, table[ls[x]], right[s].doc)
    requires forall x, y :: 0 <= x < y < |ls| ==> ls[x] < ls[y]
    requires forall i :: 0 <= i < |table| && Pairs(ops, lf, rf, table[i], right[s].doc) ==> i in ls
    ensures ListsPairs(ops, table, lf, rf, right, s, Falling(ls, s) + more)
  {
    hide Pairs;
    var here := Falling(ls, s);
    var ps := here + more;
    forall x | 0 <= x < |ps|
      ensures IsPair(ops, table, lf, rf, right, ps[x]) && s <= ps[x].1
    {
      if x >= |here| {
        assert IsPair(ops, table, lf, rf, right, more[x - |here|]);
      }
    }
    forall x, y | 0 <= x < y < |ps|
      ensures PairBefore(ps[x], ps[y])
    {
      if |here| <= x {
        assert PairBefore(more[x - |here|], more[y - |here|]);
      } else if |here| <= y {
        assert IsPair(ops, table, lf, rf, right, more[y - |here|]) && s + 1 <= more[y - |here|].1;
      }
    }
    forall i: nat, j: nat | s <= j && IsPair(ops, table, lf, rf, right, (i, j))
      ensures (i, j) in ps
    {
      if j == s {
        var x :| 0 <= x < |ls| && ls[x] == i;
        assert here[|ls| - 1 - x] == (i, j);
      } else {
        assert (i, j) in more;
      }
    }
  }

  /** The join is one row for every pair of a left and a right document with equal non-null keys, by right position and then
      by falling left position. */
  lemma JoinIsPairs(ops: Ops, table: seq<Document>, lf: Text, rf: Text, right: seq<Row>) returns (ps: seq<(nat, nat)>)
    ensures ListsPairs(ops, table, lf, rf, right, 0, ps) && Merges(table, right, ps, JoinRows(ops, table, lf, rf, right))
  {
    hide ListsPairs, Merges, JoinRows;
    ps := JoinListed(ops, table, lf, rf, right, 0);
    assert right[0..] == right;
  }

  // limit over a scan

  /** A limit over a scan yields the first n documents of scan_all and has read no page beyond the one that holds the last of them. */
  method LimitedScan(env: Env, ghost ctx: Context, collection: Text, n: nat) returns (rows: seq<Row>, scan: Op)
    requires Serves(env, ctx) && collection in ctx.pages
    modifies env.pool, env.pool.disk
    ensures Serves(env, ctx)
    ensures var all := PagesFrom(ctx.pages[collection], 0);
      rows == if n <= |all| then all[..n] else all
    ensures |rows| == n ==> ReadUpTo(ctx, scan, n)
  {
    hide Serves, PagesFrom, RowsBefore, TraceOf, ReadUpTo, CursorAt, ReadsOn, Steps, Collecting, Ready;
    scan := SeqScan(collection, None, [], false);
    var op := Limit(scan, n);
    ghost var all := PagesFrom(ctx.pages[collection], 0);
    FreshScan(ctx, collection);
    rows := [];
    LimitTrace(ctx, scan, n);
    LimitReady(ctx, scan, n);
    StartCollecting(Limited(n, Trace(all, None)));
    while true
      invariant Serves(env, ctx) && Ready(ctx, op) && op.Limit? && op.input.SeqScan? && |rows| + op.remaining == n
      invariant ReadUpTo(ctx, op.input, |rows|) && Collecting(Limited(n, Trace(all, None)), rows, TraceOf(ctx, op))
      decreases |TraceOf(ctx, op).rows|
    {
      if op.remaining == 0 {
        LimitDone(ctx, op);
      }
      var r;
      ghost var was := op;
      op, r := Next(env, ctx, op);
      CollectStep(Limited(n, Trace(all, None)), rows, TraceOf(ctx, was), r, TraceOf(ctx, op));
      if !r.Yield? {
        break;
      }
      ReadStep(ctx, was.input, op.input, r, |rows|);
      rows := rows + [r.row];
    }
    scan := op.input;
  }

  /** The rows so far, then those of the second trace, are the first trace, which does not fail. */
  ghost predicate Collecting(all: Trace, rows: seq<Row>, t: Trace) {
    all.end.None? ==> all == Trace(rows + t.rows, t.end)
  }

  lemma StartCollecting(all: Trace)
    ensures Collecting(all, [], all)
  {
    assert [] + all.rows == all.rows;
  }

  lemma CollectStep(all: Trace, rows: seq<Row>, t: Trace, r: Step, t': Trace)
    requires Collecting(all, rows, t) && Steps(t, r, t') && all.end.None?
    ensures if r.Yield? then Collecting(all, rows + [r.row], t') && |t'.rows| < |t.rows| else rows == all.rows
  {
  }

  lemma ReadStep(ctx: Context, scan: Op, scan': Op, r: Step, c: nat)
    requires ReadsOn(ctx, scan, scan', r) && ReadUpTo(ctx, scan, c) && r.Yield?
    ensures ReadUpTo(ctx, scan', c + 1) && scan'.SeqScan?
  {
    hide ReadUpTo;
  }

  lemma LimitReady(ctx: Context, input: Op, n: nat)
    requires Ready(ctx, input)
    ensures Ready(ctx, Limit(input, n))
  {
  }

  lemma LimitTrace(ctx: Context, input: Op, n: nat)
    ensures TraceOf(ctx, Limit(input, n)) == Limited(n, TraceOf(ctx, input))
  {
  }

  lemma LimitDone(ctx: Context, op: Op)
    requires op.Limit? && op.remaining == 0
    ensures TraceOf(ctx, op) == Trace([], None)
  {
  }

  lemma FreshScan(ctx: Context, collection: Text)
    requires collection in ctx.pages
    ensures var scan := SeqScan(collection, None, [], false);
      && Ready(ctx, scan) && ReadUpTo(ctx, scan, 0) && TraceOf(ctx, scan) == Trace(PagesFrom(ctx.pages[collection], 0), None)
  {
    hide PagesFrom;
    assert [] + PagesFrom(ctx.pages[collection], 0) == PagesFrom(ctx.pages[collection], 0);
  }
}
