/** src/query/executor.rs: the key of a group and the folds over its documents. */
module Aggregates {
  import opened Bytes
  import opened Disk
  import opened Values
  import opened KeyOrder
  import opened Evaluate

  const COUNT: Bytes := [0x63, 0x6F, 0x75, 0x6E, 0x74]
  const SUM: Bytes := [0x73, 0x75, 0x6D]
  const AVG: Bytes := [0x61, 0x76, 0x67]
  const MIN_NAME: Bytes := [0x6D, 0x69, 0x6E]
  const MAX_NAME: Bytes := [0x6D, 0x61, 0x78]
  const COLLECT: Bytes := [0x63, 0x6F, 0x6C, 0x6C, 0x65, 0x63, 0x74]
  const FOLDS: set<Bytes> := {SUM, AVG, MIN_NAME, MAX_NAME, COLLECT}

  // the key of a group

  const SEPARATOR: byte := 0x1F

  /** The rendered values of the group fields, joined by a separator; a missing field renders as null. */
  function GroupKey(debug: Value -> Text, fields: seq<Text>, doc: Document): Bytes {
    if |fields| == 0 then []
    else if |fields| == 1 then debug(Get(doc, fields[0]))
    else debug(Get(doc, fields[0])) + [SEPARATOR] + GroupKey(debug, fields[1..], doc)
  }

  /** A rendering that escapes control characters, as the derived one does. */
  ghost predicate Escapes(debug: Value -> Text) {
    forall v :: SEPARATOR !in debug(v)
  }

  lemma CutAtSeparator(a: Bytes, b: Bytes, x: Bytes, y: Bytes)
    requires SEPARATOR !in a && SEPARATOR !in b && a + [SEPARATOR] + x == b + [SEPARATOR] + y
    ensures a == b && x == y
  {
    var s, t := a + [SEPARATOR] + x, b + [SEPARATOR] + y;
    assert s[|a|] == SEPARATOR && t[|b|] == SEPARATOR;
    assert forall i :: 0 <= i < |a| ==> s[i] == a[i] && a[i] != SEPARATOR;
    assert forall i :: 0 <= i < |b| ==> t[i] == b[i] && b[i] != SEPARATOR;
    assert |a| == |b|;
    assert a == s[..|a|] && b == t[..|a|];
    assert x == s[|a| + 1..] && y == t[|a| + 1..];
  }

  /** Two documents are in one group iff each of the group fields renders alike in both. */
  lemma {:induction false} GroupKeyMeans(debug: Value -> Text, fields: seq<Text>, d: Document, e: Document)
    requires Escapes(debug)
    ensures GroupKey(debug, fields, d) == GroupKey(debug, fields, e) <==> forall f :: f in fields ==> debug(Get(d, f)) == debug(Get(e, f))
  {
    if |fields| == 0 {
    } else if |fields| == 1 {
      assert fields[0] in fields;
    } else {
      assert fields == [fields[0]] + fields[1..] && fields[0] in fields;
      GroupKeyMeans(debug, fields[1..], d, e);
      var a, b := debug(Get(d, fields[0])), debug(Get(e, fields[0]));
      var x, y := GroupKey(debug, fields[1..], d), GroupKey(debug, fields[1..], e);
      if a + [SEPARATOR] + x == b + [SEPARATOR] + y {
        CutAtSeparator(a, b, x, y);
      }
    }
  }

  // the folds

  /** A length as the code casts it: the low 64 bits, read as signed. */
  function AsI64(n: nat): i64 { FromU64(n % TWO64) }

  /** The values of a field, in order; documents without it are skipped. */
  function Column(docs: seq<Document>, field: Text): seq<Value> {
    if |docs| == 0 then []
    else (if field in docs[0] then [docs[0][field]] else []) + Column(docs[1..], field)
  }

  /** The best of the values so far and those to come; a later value wins only if it is strictly better. */
  function BestOf(ops: Ops, least: bool, best: Value, vs: seq<Value>): Result<Value>
    decreases |vs|
  {
    if |vs| == 0 then Ok(best) else
      var c := CompareValues(ops, vs[0], best);
      if c.Err? then Err(c.error)
      else BestOf(ops, least, if c.value == (if least then Less else Greater) then vs[0] else best, vs[1..])
  }

  datatype Totals = Totals(ints: i64, floats: u64, sawFloat: bool, count: nat)

  /** Running totals: checked for integers, and next to them in floating point. */
  function AddUp(ops: Ops, name: Text, field: Text, t: Totals, vs: seq<Value>): Result<Totals>
    decreases |vs|
  {
    if |vs| == 0 then Ok(t) else
      match vs[0]
      case Int(n) =>
        if !IsI64(t.ints + n) then Err(SumOverflow(name, field))
        else AddUp(ops, name, field, Totals(t.ints + n, ops.arith(Add, t.floats, ops.ofInt(n)), t.sawFloat, t.count + 1), vs[1..])
      case Float(x) => AddUp(ops, name, field, Totals(t.ints, ops.arith(Add, t.floats, x), true, t.count + 1), vs[1..])
      case other => Err(CannotSum(name, other))
  }

  /** count ignores the field; every other fold needs one and skips documents without it. */
  function FoldAggregate(ops: Ops, name: Text, arg: Option<Text>, docs: seq<Document>): Result<Value> {
    if name == COUNT then Ok(Int(AsI64(|docs|)))
    else if arg.None? then Err(NeedsField(name))
    else
      var vs := Column(docs, arg.value);
      if name == COLLECT then Ok(Array(vs))
      else if name == MIN_NAME || name == MAX_NAME then
        if |vs| == 0 then Ok(Null) else BestOf(ops, name == MIN_NAME, vs[0], vs[1..])
      else if name == SUM || name == AVG then
        var t := AddUp(ops, name, arg.value, Totals(0, 0, false, 0), vs);
        if t.Err? then Err(t.error)
        else if t.value.count == 0 then Ok(Null)
        else if name == AVG then Ok(Float(ops.arith(Div, t.value.floats, ops.ofInt(AsI64(t.value.count)))))
        else if t.value.sawFloat then Ok(Float(t.value.floats))
        else Ok(Int(t.value.ints))
      else Err(UnknownAggregate(name))
  }

  // what the folds mean

  /** Values of one kind that compare by a number: integers and doubles by value, strings by their place among all byte strings. */
  predicate Scored(v: Value, u: Value) {
    (v.Int? && u.Int?) || (v.Str? && u.Str?) || (v.Float? && u.Float? && !IsNaN(v.bits) && !IsNaN(u.bits))
  }

  ghost function Score(v: Value): real {
    match v
    case Int(n) => n as real
    case Float(bits) => FloatValue(bits) as real
    case Str(s) => Rank(s)
    case _ => 0.0
  }

  lemma CompareIsScore(ops: Ops, v: Value, u: Value)
    requires Scored(v, u)
    ensures CompareValues(ops, v, u) ==
            Ok(if Score(v) < Score(u) then Less else if Score(v) == Score(u) then Equal else Greater)
  {
    if v.Str? {
      RankOrder(v.s, u.s);
    }
  }

  ghost predicate AllScored(best: Value, vs: seq<Value>) {
    forall i :: 0 <= i < |vs| ==> Scored(vs[i], best)
  }

  /** min and max are elements of the column that no other element beats. */
  lemma {:induction false} BestIsExtreme(ops: Ops, least: bool, best: Value, vs: seq<Value>)
    requires AllScored(best, vs) && Scored(best, best)
    ensures BestOf(ops, least, best, vs).Ok?
    ensures var m := BestOf(ops, least, best, vs).value;
      && (m == best || m in vs) && (if least then Score(m) <= Score(best) else Score(m) >= Score(best))
      && forall v :: v in vs ==> if least then Score(m) <= Score(v) else Score(m) >= Score(v)
    decreases |vs|
  {
    hide Score, CompareValues;
    if |vs| == 0 {
    } else {
      assert Scored(vs[0], best);
      CompareIsScore(ops, vs[0], best);
      var next := if CompareValues(ops, vs[0], best).value == (if least then Less else Greater) then vs[0] else best;
      forall i | 0 <= i < |vs[1..]|
        ensures Scored(vs[1..][i], next)
      {
        assert Scored(vs[i + 1], best) && vs[1..][i] == vs[i + 1];
      }
      BestIsExtreme(ops, least, next, vs[1..]);
      assert vs == [vs[0]] + vs[1..];
    }
  }

  function SumOf(vs: seq<Value>): int {
    if |vs| == 0 then 0 else (if vs[0].Int? then vs[0].n else 0) + SumOf(vs[1..])
  }

  // the documents that have the field

  /** The positions from s on of the documents that have the field, rising. */
  ghost predicate PresentFrom(docs: seq<Document>, field: Text, s: nat, p: seq<nat>) {
    && (forall i :: 0 <= i < |p| ==> s <= p[i] < |docs| && field in docs[p[i]])
    && (forall i, j :: 0 <= i < j < |p| ==> p[i] < p[j])
    && (forall j :: s <= j < |docs| && field in docs[j] ==> j in p)
  }

  ghost predicate Present(docs: seq<Document>, field: Text, p: seq<nat>) { PresentFrom(docs, field, 0, p) }

  /** The field in the document at position p[i]. */
  ghost function ValueAt(docs: seq<Document>, field: Text, p: seq<nat>, i: nat): Value {
    if i < |p| && p[i] < |docs| && field in docs[p[i]] then docs[p[i]][field] else Null
  }

  /** The list holds, in their order, the values of the field at the positions. */
  ghost predicate ListsValues(docs: seq<Document>, field: Text, p: seq<nat>, vs: seq<Value>) {
    |vs| == |p| && forall i :: 0 <= i < |p| ==> vs[i] == ValueAt(docs, field, p, i)
  }

  lemma {:induction false} ColumnFrom(docs: seq<Document>, field: Text, s: nat) returns (p: seq<nat>)
    requires s <= |docs|
    ensures PresentFrom(docs, field, s, p) && ListsValues(docs, field, p, Column(docs[s..], field))
    decreases |docs| - s
  {
    hide PresentFrom, ListsValues;
    if s == |docs| {
      p := [];
      NothingPresent(docs, field);
    } else {
      var q := ColumnFrom(docs, field, s + 1);
      var more := Column(docs[s + 1..], field);
      assert docs[s..][0] == docs[s] && docs[s..][1..] == docs[s + 1..];
      PresentHere(docs, field, s, q);
      p := if field in docs[s] then [s] + q else q;
      if field in docs[s] {
        ListsHere(docs, field, s, q, more);
      }
      assert [] + more == more;
    }
  }

  lemma NothingPresent(docs: seq<Document>, field: Text)
    ensures PresentFrom(docs, field, |docs|, []) && ListsValues(docs, field, [], [])
  {
  }

  lemma PresentHere(docs: seq<Document>, field: Text, s: nat, q: seq<nat>)
    requires s < |docs| && PresentFrom(docs, field, s + 1, q)
    ensures PresentFrom(docs, field, s, if field in docs[s] then [s] + q else q)
  {
    var p := if field in docs[s] then [s] + q else q;
    assert forall x :: x in q ==> x in p;
    assert field in docs[s] ==> p[0] == s;
  }

  lemma ListsHere(docs: seq<Document>, field: Text, s: nat, q: seq<nat>, vs: seq<Value>)
    requires s < |docs| && field in docs[s] && ListsValues(docs, field, q, vs)
    ensures ListsValues(docs, field, [s] + q, [docs[s][field]] + vs)
  {
    hide ValueAt;
    var p, us := [s] + q, [docs[s][field]] + vs;
    forall i: nat | i < |us|
      ensures us[i] == ValueAt(docs, field, p, i)
    {
      ValueShifted(docs, field, s, q, i);
      assert i > 0 ==> us[i] == vs[i - 1];
    }
  }

  lemma ValueShifted(docs: seq<Document>, field: Text, s: nat, q: seq<nat>, i: nat)
    requires i <= |q| && s < |docs| && field in docs[s]
    ensures ValueAt(docs, field, [s] + q, i) == if i == 0 then docs[s][field] else ValueAt(docs, field, q, i - 1)
  {
  }

  /** A column lists the field of exactly the documents that have it, in their order. */
  lemma ColumnIs(docs: seq<Document>, field: Text) returns (p: seq<nat>)
    ensures Present(docs, field, p) && ListsValues(docs, field, p, Column(docs, field))
  {
    hide Column, PresentFrom, ListsValues;
    p := ColumnFrom(docs, field, 0);
    assert docs[0..] == docs;
  }

  // sums

  /** The integers among the first m of them, added up. */
  ghost function IntTotal(docs: seq<Document>, field: Text, p: seq<nat>, m: nat): int {
    if m == 0 then 0 else
      var v := ValueAt(docs, field, p, m - 1);
      IntTotal(docs, field, p, m - 1) + if v.Int? then v.n else 0
  }

  /** The first m of them as doubles, added up from the left. */
  ghost function FloatTotal(ops: Ops, docs: seq<Document>, field: Text, p: seq<nat>, m: nat): u64 {
    if m == 0 then 0 else
      var v := ValueAt(docs, field, p, m - 1);
      ops.arith(Add, FloatTotal(ops, docs, field, p, m - 1), if v.Int? then ops.ofInt(v.n) else if v.Float? then v.bits else 0)
  }

  ghost predicate IsNumber(v: Value) { v.Int? || v.Float? }

  ghost predicate Numeric(docs: seq<Document>, field: Text, p: seq<nat>, m: nat) {
    forall i :: 0 <= i < m ==> IsNumber(ValueAt(docs, field, p, i))
  }

  ghost predicate SomeFloat(docs: seq<Document>, field: Text, p: seq<nat>, m: nat) {
    exists i :: 0 <= i < m && ValueAt(docs, field, p, i).Float?
  }

  /** No running total of the integers leaves the range of i64. */
  ghost predicate TotalsFit(docs: seq<Document>, field: Text, p: seq<nat>, m: nat) {
    forall i :: 0 <= i <= m ==> IsI64(IntTotal(docs, field, p, i))
  }

  ghost function TotalsAt(ops: Ops, docs: seq<Document>, field: Text, p: seq<nat>, m: nat): Totals
    requires IsI64(IntTotal(docs, field, p, m))
  {
    Totals(IntTotal(docs, field, p, m), FloatTotal(ops, docs, field, p, m), SomeFloat(docs, field, p, m), m)
  }

  lemma AddOne(ops: Ops, name: Text, docs: seq<Document>, field: Text, p: seq<nat>, vs: seq<Value>, m: nat)
    requires ListsValues(docs, field, p, vs) && m < |p| && IsI64(IntTotal(docs, field, p, m))
    ensures var v, r := vs[m], AddUp(ops, name, field, TotalsAt(ops, docs, field, p, m), vs[m..]);
      if !IsNumber(v) then r == Err(CannotSum(name, v))
      else if !IsI64(IntTotal(docs, field, p, m + 1)) then r == Err(SumOverflow(name, field))
      else r == AddUp(ops, name, field, TotalsAt(ops, docs, field, p, m + 1), vs[m + 1..])
  {
    assert vs[m..][0] == vs[m] && vs[m..][1..] == vs[m + 1..];
    assert vs[m] == ValueAt(docs, field, p, m);
    SomeFloatStep(docs, field, p, m);
  }

  lemma SomeFloatStep(docs: seq<Document>, field: Text, p: seq<nat>, m: nat)
    ensures SomeFloat(docs, field, p, m + 1) <==> SomeFloat(docs, field, p, m) || ValueAt(docs, field, p, m).Float?
  {
    hide ValueAt;
  }

  /** As long as the values are numbers and the totals fit, the fold has reached the totals. */
  lemma {:induction false} AddUpReaches(ops: Ops, name: Text, docs: seq<Document>, field: Text, p: seq<nat>, vs: seq<Value>, m: nat)
    requires ListsValues(docs, field, p, vs) && m <= |p| && Numeric(docs, field, p, m) && TotalsFit(docs, field, p, m)
    ensures AddUp(ops, name, field, Totals(0, 0, false, 0), vs) == AddUp(ops, name, field, TotalsAt(ops, docs, field, p, m), vs[m..])
  {
    hide AddUp, TotalsAt, ValueAt, IntTotal;
    if m == 0 {
      NoTotals(ops, docs, field, p);
      assert vs[0..] == vs;
    } else {
      AddUpReaches(ops, name, docs, field, p, vs, m - 1);
      assert vs[m - 1] == ValueAt(docs, field, p, m - 1);
      AddOne(ops, name, docs, field, p, vs, m - 1);
    }
  }

  lemma NoTotals(ops: Ops, docs: seq<Document>, field: Text, p: seq<nat>)
    ensures IntTotal(docs, field, p, 0) == 0 && TotalsAt(ops, docs, field, p, 0) == Totals(0, 0, false, 0)
  {
  }

  /** sum and avg of a column of numbers: Null if no document has the field; a double if there is one among the values or an
      average is asked for; else the exact integer. They fail exactly when a running total of the integers overflows. */
  lemma NumbersMean(ops: Ops, name: Text, field: Text, docs: seq<Document>) returns (p: seq<nat>)
    requires (name == SUM || name == AVG) && |docs| < TWO63
    ensures Present(docs, field, p) && |p| < TWO63
    ensures var r := FoldAggregate(ops, name, Some(field), docs);
      Numeric(docs, field, p, |p|) ==>
      && (r.Ok? <==> TotalsFit(docs, field, p, |p|)) && (r.Err? ==> r.error == SumOverflow(name, field))
      && (r.Ok? ==>
            if |p| == 0 then r.value == Null
            else if name == AVG then r.value == Float(ops.arith(Div, FloatTotal(ops, docs, field, p, |p|), ops.ofInt(|p|)))
            else if SomeFloat(docs, field, p, |p|) then r.value == Float(FloatTotal(ops, docs, field, p, |p|))
            else r.value.Int? && r.value.n == IntTotal(docs, field, p, |p|))
    ensures !Numeric(docs, field, p, |p|) ==> FoldAggregate(ops, name, Some(field), docs).Err?
  {
    hide Present, AddUp, BestOf, Column, SomeFloat, IntTotal, FloatTotal, Numeric, ListsValues, TotalsFit;
    p := ColumnIs(docs, field);
    PresentCount(docs, field, p);
    SumNames();
    if Numeric(docs, field, p, |p|) {
      NumbersAddUp(ops, name, field, docs, p);
    } else {
      OthersFail(ops, name, field, docs, p);
    }
  }

  lemma PresentCount(docs: seq<Document>, field: Text, p: seq<nat>)
    requires Present(docs, field, p)
    ensures |p| <= |docs|
  {
    RisingCount(p, |docs|);
  }

  lemma {:induction false} RisingCount(p: seq<nat>, n: nat)
    requires (forall i :: 0 <= i < |p| ==> p[i] < n) && forall i, j :: 0 <= i < j < |p| ==> p[i] < p[j]
    ensures |p| <= n
  {
    if |p| == 0 {
    } else {
      RisingCount(p[..|p| - 1], p[|p| - 1]);
    }
  }

  lemma SumNames()
    ensures SUM != COUNT && SUM != COLLECT && SUM != MIN_NAME && SUM != MAX_NAME && SUM != AVG
    ensures AVG != COUNT && AVG != COLLECT && AVG != MIN_NAME && AVG != MAX_NAME
  {
  }

  lemma NumbersAddUp(ops: Ops, name: Text, field: Text, docs: seq<Document>, p: seq<nat>)
    requires ListsValues(docs, field, p, Column(docs, field)) && Numeric(docs, field, p, |p|)
    ensures var r := AddUp(ops, name, field, Totals(0, 0, false, 0), Column(docs, field));
      && (r.Ok? <==> TotalsFit(docs, field, p, |p|)) && (r.Err? ==> r.error == SumOverflow(name, field))
      && (r.Ok? ==> r.value == TotalsAt(ops, docs, field, p, |p|))
  {
    hide AddUp, IntTotal, FloatTotal, Column, TotalsAt, ValueAt;
    var vs := Column(docs, field);
    if TotalsFit(docs, field, p, |p|) {
      AddUpReaches(ops, name, docs, field, p, vs, |p|);
      assert vs[|p|..] == [];
      AddNothing(ops, name, field, TotalsAt(ops, docs, field, p, |p|));
    } else {
      NoTotals(ops, docs, field, p);
      var m := FirstMisfit(docs, field, p, |p|);
      AddUpReaches(ops, name, docs, field, p, vs, m);
      assert vs[m] == ValueAt(docs, field, p, m);
      AddOne(ops, name, docs, field, p, vs, m);
    }
  }

  lemma AddNothing(ops: Ops, name: Text, field: Text, t: Totals)
    ensures AddUp(ops, name, field, t, []) == Ok(t)
  {
  }

  /** The last total that fits, with all before it. */
  lemma {:induction false} FirstMisfit(docs: seq<Document>, field: Text, p: seq<nat>, n: nat) returns (m: nat)
    requires !TotalsFit(docs, field, p, n) && IsI64(IntTotal(docs, field, p, 0))
    ensures m < n && TotalsFit(docs, field, p, m) && !IsI64(IntTotal(docs, field, p, m + 1))
  {
    hide IntTotal;
    if !TotalsFit(docs, field, p, n - 1) {
      m := FirstMisfit(docs, field, p, n - 1);
    } else {
      m := n - 1;
    }
  }

  lemma OthersFail(ops: Ops, name: Text, field: Text, docs: seq<Document>, p: seq<nat>)
    requires ListsValues(docs, field, p, Column(docs, field)) && !Numeric(docs, field, p, |p|)
    ensures AddUp(ops, name, field, Totals(0, 0, false, 0), Column(docs, field)).Err?
  {
    hide AddUp, Column, ValueAt;
    var vs := Column(docs, field);
    var i :| 0 <= i < |p| && !IsNumber(ValueAt(docs, field, p, i));
    assert vs[i] == ValueAt(docs, field, p, i);
    AddUpStops(ops, name, field, Totals(0, 0, false, 0), vs, i);
  }

  lemma {:induction false} AddUpStops(ops: Ops, name: Text, field: Text, t: Totals, vs: seq<Value>, i: nat)
    requires i < |vs| && !vs[i].Int? && !vs[i].Float?
    ensures AddUp(ops, name, field, t, vs).Err?
    decreases |vs|
  {
    if i == 0 {
    } else {
      match vs[0]
      case Int(n) =>
        if IsI64(t.ints + n) {
          AddUpStops(ops, name, field, Totals(t.ints + n, ops.arith(Add, t.floats, ops.ofInt(n)), t.sawFloat, t.count + 1), vs[1..], i - 1);
        }
      case Float(x) => AddUpStops(ops, name, field, Totals(t.ints, ops.arith(Add, t.floats, x), true, t.count + 1), vs[1..], i - 1);
      case _ =>
    }
  }

  // extrema, count and collect

  ghost predicate AllOneKind(docs: seq<Document>, field: Text) {
    forall i, j :: 0 <= i < |docs| && 0 <= j < |docs| && field in docs[i] && field in docs[j] ==> Scored(docs[i][field], docs[j][field])
  }

  /** min and max are the value of a document that has the field, and no document that has it has one below, or above. */
  lemma ExtremeMeans(ops: Ops, name: Text, field: Text, docs: seq<Document>)
    requires (name == MIN_NAME || name == MAX_NAME) && AllOneKind(docs, field) && exists i :: 0 <= i < |docs| && field in docs[i]
    ensures var r := FoldAggregate(ops, name, Some(field), docs);
      && r.Ok? && (exists i :: 0 <= i < |docs| && field in docs[i] && docs[i][field] == r.value)
      && forall i :: 0 <= i < |docs| && field in docs[i] ==>
           if name == MIN_NAME then Score(r.value) <= Score(docs[i][field]) else Score(docs[i][field]) <= Score(r.value)
  {
    hide BestOf, AddUp, Score, CompareValues, Column;
    var p := ColumnIs(docs, field);
    var vs := Column(docs, field);
    OneKind(docs, field, p, vs);
    BestIsExtreme(ops, name == MIN_NAME, vs[0], vs[1..]);
    assert vs == [vs[0]] + vs[1..];
    var m := BestOf(ops, name == MIN_NAME, vs[0], vs[1..]).value;
    assert m in vs;
    var k :| 0 <= k < |vs| && vs[k] == m;
    assert docs[p[k]][field] == ValueAt(docs, field, p, k) == m;
    forall i | 0 <= i < |docs| && field in docs[i]
      ensures if name == MIN_NAME then Score(m) <= Score(docs[i][field]) else Score(docs[i][field]) <= Score(m)
    {
      assert i in p;
      var j :| 0 <= j < |p| && p[j] == i;
      assert vs[j] == ValueAt(docs, field, p, j) == docs[i][field] && vs[j] in vs;
    }
    ExtremeNames();
  }

  lemma OneKind(docs: seq<Document>, field: Text, p: seq<nat>, vs: seq<Value>)
    requires Present(docs, field, p) && ListsValues(docs, field, p, vs) && AllOneKind(docs, field)
    requires exists i :: 0 <= i < |docs| && field in docs[i]
    ensures |vs| > 0 && Scored(vs[0], vs[0]) && AllScored(vs[0], vs[1..])
  {
    var i0 :| 0 <= i0 < |docs| && field in docs[i0];
    assert i0 in p;
    forall i | 0 <= i < |vs|
      ensures Scored(vs[i], vs[0])
    {
      assert vs[i] == ValueAt(docs, field, p, i) && vs[0] == ValueAt(docs, field, p, 0);
    }
  }

  lemma ExtremeNames()
    ensures MIN_NAME != MAX_NAME && MIN_NAME != COUNT && MAX_NAME != COUNT && MIN_NAME != COLLECT && MAX_NAME != COLLECT
  {
  }

  /** No document has the field: the extremum is Null. */
  lemma ExtremeOfNone(ops: Ops, name: Text, field: Text, docs: seq<Document>)
    requires (name == MIN_NAME || name == MAX_NAME) && Present(docs, field, [])
    ensures FoldAggregate(ops, name, Some(field), docs) == Ok(Null)
  {
    hide BestOf, AddUp, Column;
    var p := ColumnIs(docs, field);
    NoneThere(docs, field, p);
    ExtremeNames();
  }

  lemma NoneThere(docs: seq<Document>, field: Text, p: seq<nat>)
    requires Present(docs, field, []) && Present(docs, field, p)
    ensures |p| == 0
  {
    FirstPresent(docs, field, p);
  }

  lemma FirstPresent(docs: seq<Document>, field: Text, p: seq<nat>)
    requires Present(docs, field, p)
    ensures |p| > 0 ==> 0 <= p[0] < |docs| && field in docs[p[0]]
  {
  }

  /** count is the number of documents; collect lists the values of the field in the documents that have it. */
  lemma CountMeans(ops: Ops, arg: Option<Text>, docs: seq<Document>)
    requires |docs| < TWO63
    ensures forall name: Text :: name == COUNT ==> FoldAggregate(ops, name, arg, docs) == Ok(Int(|docs|))
  {
    hide BestOf, AddUp, Column;
  }

  lemma CollectMeans(ops: Ops, name: Text, field: Text, docs: seq<Document>) returns (p: seq<nat>)
    requires name == COLLECT
    ensures Present(docs, field, p)
    ensures var r := FoldAggregate(ops, name, Some(field), docs); r.Ok? && r.value.Array? && ListsValues(docs, field, p, r.value.items)
  {
    hide BestOf, AddUp, Column, Present;
    p := ColumnIs(docs, field);
    assert COLLECT != COUNT;
  }
}
