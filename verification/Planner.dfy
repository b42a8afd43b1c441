/** src/query/planner.rs: pushing one conjunct of a where into an index scan. */
module Planner {
  import opened Bytes
  import opened Disk
  import opened Values
  import opened KeyOrder
  import opened Evaluate
  import opened Plans

  // conjunctions

  function SplitConjuncts(e: Expr): (cs: seq<Expr>)
    ensures |cs| > 0
  {
    if e.Binary? && e.op == And then SplitConjuncts(e.left) + SplitConjuncts(e.right) else [e]
  }

  /** Conjuncts from left to right: the first that is false or fails decides. */
  function EvalAll(ops: Ops, cs: seq<Expr>, doc: Document): Result<bool> {
    if |cs| == 0 then Ok(true) else
      var b := EvalBool(ops, cs[0], doc);
      if b.Err? || !b.value then b else EvalAll(ops, cs[1..], doc)
  }

  lemma {:induction false} EvalAllConcat(ops: Ops, cs: seq<Expr>, ds: seq<Expr>, doc: Document)
    ensures var b := EvalAll(ops, cs, doc);
      EvalAll(ops, cs + ds, doc) == if b.Err? || !b.value then b else EvalAll(ops, ds, doc)
  {
    hide EvalBool;
    if |cs| == 0 {
      assert cs + ds == ds;
    } else {
      EvalAllConcat(ops, cs[1..], ds, doc);
      assert (cs + ds)[1..] == cs[1..] + ds;
    }
  }

  lemma AndIs(ops: Ops, l: Expr, r: Expr, doc: Document)
    ensures var b := EvalBool(ops, l, doc);
      EvalBool(ops, Binary(And, l, r), doc) == if b.Err? || !b.value then b else EvalBool(ops, r, doc)
  {
  }

  lemma EvalAllOne(ops: Ops, e: Expr, doc: Document)
    ensures EvalAll(ops, [e], doc) == EvalBool(ops, e, doc)
  {
    hide EvalBool;
    assert [e][1..] == [];
  }

  /** Flattening an and keeps its value, its short circuits and its errors, however it is nested. */
  lemma {:induction false} SplitKeepsMeaning(ops: Ops, e: Expr, doc: Document)
    ensures EvalAll(ops, SplitConjuncts(e), doc) == EvalBool(ops, e, doc)
  {
    hide EvalBool;
    if e.Binary? && e.op == And {
      SplitKeepsMeaning(ops, e.left, doc);
      SplitKeepsMeaning(ops, e.right, doc);
      EvalAllConcat(ops, SplitConjuncts(e.left), SplitConjuncts(e.right), doc);
      AndIs(ops, e.left, e.right, doc);
    } else {
      EvalAllOne(ops, e, doc);
    }
  }

  /** The conjuncts at positions from `at` on that are not absorbed. */
  function Kept(cs: seq<Expr>, absorbed: seq<nat>, at: nat): seq<Expr> {
    if |cs| == 0 then []
    else (if at in absorbed then [] else [cs[0]]) + Kept(cs[1..], absorbed, at + 1)
  }

  function Conjoin(first: Expr, more: seq<Expr>): Expr
    decreases |more|
  {
    if |more| == 0 then first else Conjoin(Binary(And, first, more[0]), more[1..])
  }

  function ResidualPredicate(e: Expr, absorbed: seq<nat>): Option<Expr> {
    var kept := Kept(SplitConjuncts(e), absorbed, 0);
    if |kept| == 0 then None else Some(Conjoin(kept[0], kept[1..]))
  }

  lemma {:induction false} ConjoinMeans(ops: Ops, first: Expr, more: seq<Expr>, doc: Document)
    ensures EvalBool(ops, Conjoin(first, more), doc) == EvalAll(ops, [first] + more, doc)
    decreases |more|
  {
    hide EvalBool;
    if |more| == 0 {
      EvalAllOne(ops, first, doc);
      assert [first] + more == [first];
    } else {
      ConjoinMeans(ops, Binary(And, first, more[0]), more[1..], doc);
      AndIs(ops, first, more[0], doc);
      var a, b := [Binary(And, first, more[0])] + more[1..], [first] + more;
      assert a[1..] == more[1..] && b[1..] == more && a[0] == Binary(And, first, more[0]) && b[0] == first;
    }
  }

  lemma {:induction false} KeptMeans(ops: Ops, cs: seq<Expr>, absorbed: seq<nat>, at: nat, doc: Document)
    requires forall i :: 0 <= i < |cs| && at + i in absorbed ==> EvalBool(ops, cs[i], doc) == Ok(true)
    ensures EvalAll(ops, Kept(cs, absorbed, at), doc) == EvalAll(ops, cs, doc)
    decreases |cs|
  {
    hide EvalBool;
    if |cs| == 0 {
    } else {
      forall i | 0 <= i < |cs[1..]| && at + 1 + i in absorbed
        ensures EvalBool(ops, cs[1..][i], doc) == Ok(true)
      {
        assert at + (i + 1) in absorbed && cs[1..][i] == cs[i + 1];
      }
      KeptMeans(ops, cs[1..], absorbed, at + 1, doc);
      var rest := Kept(cs[1..], absorbed, at + 1);
      if at in absorbed {
        assert at + 0 in absorbed;
        assert Kept(cs, absorbed, at) == [] + rest == rest;
      } else {
        assert ([cs[0]] + rest)[1..] == rest;
      }
    }
  }

  /** Dropping conjuncts that hold of a document changes neither the answer nor the error on it. */
  lemma ResidualKeepsMeaning(ops: Ops, e: Expr, absorbed: seq<nat>, doc: Document)
    requires forall i :: 0 <= i < |SplitConjuncts(e)| && i in absorbed ==> EvalBool(ops, SplitConjuncts(e)[i], doc) == Ok(true)
    ensures match ResidualPredicate(e, absorbed)
            case None => EvalBool(ops, e, doc) == Ok(true)
            case Some(r) => EvalBool(ops, r, doc) == EvalBool(ops, e, doc)
  {
    hide EvalBool, Kept, Conjoin, SplitConjuncts;
    var cs := SplitConjuncts(e);
    assert forall i :: 0 <= i < |cs| && 0 + i in absorbed ==> i in absorbed;
    KeptMeans(ops, cs, absorbed, 0, doc);
    SplitKeepsMeaning(ops, e, doc);
    var kept := Kept(cs, absorbed, 0);
    if |kept| > 0 {
      ConjoinMeans(ops, kept[0], kept[1..], doc);
      assert [kept[0]] + kept[1..] == kept;
    }
  }

  // the one rule: an equality or range test on an indexed field

  datatype Bounds = Bounds(low: Option<Value>, high: Option<Value>)

  /** An index scan with both ends closed; exact when it enforces its conjunct by itself. */
  datatype Scan = Scan(field: Text, low: Value, high: Value, exact: bool)

  function Flip(op: BinOp): BinOp {
    match op
    case Gt => LtOp
    case GtEq => LtEq
    case LtOp => Gt
    case LtEq => GtEq
    case other => other
  }

  function IndexedFieldOf(c: Expr): Option<Text> {
    if !c.Binary? then None
    else if c.left.Field? && c.right.Lit? then Some(c.left.name)
    else if c.left.Lit? && c.right.Field? then Some(c.right.name)
    else None
  }

  function AsIndexBound(c: Expr, field: Text): Option<(Bounds, bool)> {
    if !c.Binary? then None
    else if c.left.Field? && c.right.Lit? && c.left.name == field then BoundOf(c.op, c.right.value)
    else if c.left.Lit? && c.right.Field? && c.right.name == field then BoundOf(Flip(c.op), c.left.value)
    else None
  }

  function BoundOf(op: BinOp, v: Value): Option<(Bounds, bool)> {
    match op
    case Eq => Some((Bounds(Some(v), Some(v)), true))
    case GtEq => Some((Bounds(Some(v), None), true))
    case Gt => Some((Bounds(Some(v), None), false))
    case LtEq => Some((Bounds(None, Some(v)), true))
    case LtOp => Some((Bounds(None, Some(v)), false))
    case _ => None
  }

  function TypeMin(like: Value): Option<Value> {
    if like.Int? then Some(MIN) else if like.Float? then Some(NEG_INF) else None
  }

  function TypeMax(like: Value): Option<Value> {
    if like.Int? then Some(MAX) else if like.Float? then Some(POS_INF) else None
  }

  function CloseBounds(b: Bounds): Option<(Value, Value)> {
    match (b.low, b.high)
    case (Some(l), Some(h)) => Some((l, h))
    case (Some(l), None) => if TypeMax(l).Some? then Some((l, TypeMax(l).value)) else None
    case (None, Some(h)) => if TypeMin(h).Some? then Some((TypeMin(h).value, h)) else None
    case (None, None) => None
  }

  /** The scan a conjunct can drive, given which fields have an index. */
  function ScanFor(has: Text -> bool, c: Expr): Option<Scan> {
    var f := IndexedFieldOf(c);
    if f.None? || !has(f.value) then None else
      var b := AsIndexBound(c, f.value);
      if b.None? then None else
        var ends := CloseBounds(b.value.0);
        if ends.None? then None else Some(Scan(f.value, ends.value.0, ends.value.1, b.value.1))
  }

  /** Position `at` drives the scan: no earlier conjunct could. */
  ghost predicate Chosen(has: Text -> bool, cs: seq<Expr>, at: nat, s: Scan) {
    at < |cs| && ScanFor(has, cs[at]) == Some(s) && forall j :: 0 <= j < at ==> ScanFor(has, cs[j]).None?
  }

  /** The leaf for a where: the scan of the first usable conjunct with what it absorbs, or None for a full scan. */
  method PlanSource(has: Text -> bool, e: Expr) returns (leaf: Option<Scan>, absorbed: seq<nat>)
    ensures leaf.None? ==> absorbed == [] && forall c :: c in SplitConjuncts(e) ==> ScanFor(has, c).None?
    ensures leaf.Some? ==> exists at :: Chosen(has, SplitConjuncts(e), at, leaf.value) && absorbed == Absorbed(at, leaf.value)
  {
    hide SplitConjuncts, ScanFor;
    var cs := SplitConjuncts(e);
    for i := 0 to |cs|
      invariant forall j :: 0 <= j < i ==> ScanFor(has, cs[j]).None?
    {
      var s := ScanFor(has, cs[i]);
      if s.Some? {
        assert Chosen(has, cs, i, s.value);
        return s, Absorbed(i, s.value);
      }
    }
    return None, [];
  }

  function Absorbed(at: nat, s: Scan): seq<nat> { if s.exact then [at] else [] }

  // what the scan fetches

  /** The document has a key in the scanned range. */
  ghost predicate InScan(s: Scan, doc: Document) {
    && s.field in doc && Indexable(doc[s.field]) && Indexable(s.low) && Indexable(s.high)
    && Between(s.low, doc[s.field], s.high)
  }

  predicate SameKind(v: Value, u: Value) {
    match (v, u)
    case (Null, Null) => true
    case (Bool(_), Bool(_)) => true
    case (Int(_), Int(_)) => true
    case (Float(_), Float(_)) => true
    case (Str(_), Str(_)) => true
    case _ => false
  }

  const ZERO: Value := Float(0)
  const NEG_ZERO: Value := Float(0x8000_0000_0000_0000)

  /** A value of the kind of the ends, and not the zero that an end shuts out by its sign. */
  predicate KindReached(s: Scan, v: Value) {
    SameKind(v, s.low) && !(v == NEG_ZERO && s.low == ZERO) && !(v == ZERO && s.high == NEG_ZERO)
  }

  predicate Reached(s: Scan, doc: Document) { s.field in doc && KindReached(s, doc[s.field]) }

  /** The ends of a scan for `field op lit`. */
  ghost predicate ScanOf(s: Scan, op: BinOp, lit: Value) {
    match op
    case Eq => s.low == lit && s.high == lit && s.exact
    case GtEq => s.low == lit && TypeMax(lit) == Some(s.high) && s.exact
    case Gt => s.low == lit && TypeMax(lit) == Some(s.high) && !s.exact
    case LtEq => TypeMin(lit) == Some(s.low) && s.high == lit && s.exact
    case LtOp => TypeMin(lit) == Some(s.low) && s.high == lit && !s.exact
    case _ => false
  }

  lemma SameTurns(v: Value, u: Value)
    ensures Same(v, u) <==> Same(u, v)
  {
  }

  lemma CompareTurned(ops: Ops, v: Value, u: Value, o: Ordering)
    ensures CompareValues(ops, v, u) == Ok(o) <==> CompareValues(ops, u, v) == Ok(Directed(o, true))
  {
    hide FloatValue;
    if v.Str? && u.Str? {
      RankOrder(v.s, u.s);
      RankOrder(u.s, v.s);
    }
  }

  /** Swapping the operands with the operator mirrored gives the same answer, whatever is compared. */
  lemma FlipHolds(ops: Ops, op: BinOp, lit: Value, v: Value, b: bool)
    requires op == Eq || op == NotEq || IsOrdering(op)
    ensures Comparison(ops, op, lit, v) == Ok(b) <==> Comparison(ops, Flip(op), v, lit) == Ok(b)
  {
    hide FloatValue, CompareValues, Same;
    SameTurns(lit, v);
    CompareTurned(ops, lit, v, Less);
    CompareTurned(ops, lit, v, Equal);
    CompareTurned(ops, lit, v, Greater);
  }

  /** A conjunct that drives a scan tests its field against the literal the ends come from. */
  lemma ScanShape(ops: Ops, has: Text -> bool, c: Expr, s: Scan, doc: Document) returns (op: BinOp, lit: Literal)
    requires ScanFor(has, c) == Some(s)
    ensures ScanOf(s, op, lit)
    ensures EvalBool(ops, c, doc) == Ok(true) <==> Comparison(ops, op, Get(doc, s.field), lit) == Ok(true)
  {
    hide Arithmetic, Evaluate.Matches, Comparison, ValuesEqual;
    var flipped := c.left.Lit?;
    lit := if flipped then c.left.value else c.right.value;
    op := if flipped then Flip(c.op) else c.op;
    var v := Get(doc, s.field);
    assert Eval(ops, c.left, doc) == Ok(if flipped then lit else v);
    assert Eval(ops, c.right, doc) == Ok(if flipped then v else lit);
    if flipped {
      FlipHolds(ops, c.op, lit, v, true);
    }
  }

  /** An exact scan enforces its conjunct, and of the documents on which the conjunct holds a scan has exactly those it reaches. */
  lemma ScanCovers(ops: Ops, has: Text -> bool, c: Expr, s: Scan, doc: Document)
    requires ScanFor(has, c) == Some(s) && Indexable(s.low) && Indexable(s.high)
    ensures InScan(s, doc) && s.exact ==> EvalBool(ops, c, doc) == Ok(true)
    ensures EvalBool(ops, c, doc) == Ok(true) ==> (InScan(s, doc) <==> Reached(s, doc))
  {
    hide ScanFor, EvalBool, Indexable, Comparison;
    var op, lit := ScanShape(ops, has, c, s, doc);
    if s.field in doc {
      ScanHolds(ops, op, lit, s, doc[s.field]);
    }
  }

  lemma ScanHolds(ops: Ops, op: BinOp, lit: Literal, s: Scan, v: Value)
    requires ScanOf(s, op, lit) && Indexable(s.low) && Indexable(s.high)
    ensures Indexable(v) && Between(s.low, v, s.high) && s.exact ==> Comparison(ops, op, v, lit) == Ok(true)
    ensures Comparison(ops, op, v, lit) == Ok(true) ==> (Indexable(v) && Between(s.low, v, s.high) <==> KindReached(s, v))
  {
    hide BE, Lt, Between, FloatValue;
    if Indexable(v) {
      BetweenIs(s.low, v, s.high);
    }
    if v.Float? && lit.Float? {
      FloatEnds(v.bits, lit.bits);
      FloatEnds(v.bits, 0x7FF0_0000_0000_0000);
      FloatEnds(v.bits, 0xFFF0_0000_0000_0000);
    }
    if lit.Str? {
      LtSelf(lit.s);
    }
    if v.Str? && lit.Str? {
      RankOrder(v.s, lit.s);
      RankOrder(lit.s, v.s);
    }
  }

  /** Equal numbers have equal bits except for the two zeros, and the infinities are the ends. */
  lemma FloatEnds(a: u64, b: u64)
    ensures FloatValue(a) == FloatValue(b) <==> a == b || (a == 0 && b == TWO63) || (a == TWO63 && b == 0)
    ensures !IsNaN(a) ==> FloatValue(0xFFF0_0000_0000_0000) <= FloatValue(a) <= FloatValue(0x7FF0_0000_0000_0000)
  {
    hide Magnitude;
    MagnitudeOrder(a % TWO63, b % TWO63);
    MagnitudeOrder(b % TWO63, a % TWO63);
    MagnitudeOrder(INFINITY, a % TWO63);
    assert a % TWO63 == if a >= TWO63 then a - TWO63 else a;
    assert b % TWO63 == if b >= TWO63 then b - TWO63 else b;
  }

  // the two plans over the rows of a collection

  /** The rows a filter lets through, if there is one. */
  function KeepIf(ops: Ops, e: Option<Expr>, t: Trace): Trace {
    if e.None? then t else Keep(ops, e.value, t)
  }

  ghost predicate Holds(ops: Ops, e: Option<Expr>, doc: Document) {
    e.None? || EvalBool(ops, e.value, doc) == Ok(true)
  }

  ghost predicate Runs(ops: Ops, e: Option<Expr>, doc: Document) {
    e.None? || EvalBool(ops, e.value, doc).Ok?
  }

  /** A filter succeeds exactly when every row evaluates, and then keeps each row as often as it came if it holds. */
  lemma {:induction false} FilterCounts(ops: Ops, e: Option<Expr>, rows: seq<Row>)
    ensures var t := KeepIf(ops, e, Trace(rows, None));
      && (t.end.None? <==> forall r :: r in rows ==> Runs(ops, e, r.doc))
      && (t.end.None? ==> forall r :: multiset(t.rows)[r] == if Holds(ops, e, r.doc) then multiset(rows)[r] else 0)
  {
    hide EvalBool;
    if e.None? || |rows| == 0 {
    } else {
      FilterCounts(ops, e, rows[1..]);
      assert Trace(rows, None).(rows := rows[1..]) == Trace(rows[1..], None);
      assert rows == [rows[0]] + rows[1..];
      assert (forall r :: r in rows ==> Runs(ops, e, r.doc)) <==>
             Runs(ops, e, rows[0].doc) && forall r :: r in rows[1..] ==> Runs(ops, e, r.doc) by {
        assert rows[0] in rows && forall r :: r in rows[1..] ==> r in rows;
      }
    }
  }

  /** The rows an index scan fetches, in any order: those with a key in its range. */
  ghost predicate Fetches(s: Scan, rows: seq<Row>, fetched: seq<Row>) {
    forall r :: multiset(fetched)[r] == if InScan(s, r.doc) then multiset(rows)[r] else 0
  }

  lemma {:induction false} AllHold(ops: Ops, cs: seq<Expr>, doc: Document, i: nat)
    requires EvalAll(ops, cs, doc) == Ok(true) && i < |cs|
    ensures EvalBool(ops, cs[i], doc) == Ok(true)
    decreases |cs|
  {
    hide EvalBool;
    if i == 0 {
    } else {
      AllHold(ops, cs[1..], doc, i - 1);
    }
  }

  /** On a row the scan fetches, the residual filter gives the answer or the error of the whole predicate. */
  lemma ResidualOnScan(ops: Ops, has: Text -> bool, e: Expr, at: nat, s: Scan, doc: Document)
    requires Chosen(has, SplitConjuncts(e), at, s) && Indexable(s.low) && Indexable(s.high) && InScan(s, doc)
    ensures match ResidualPredicate(e, Absorbed(at, s))
            case None => EvalBool(ops, e, doc) == Ok(true)
            case Some(r) => EvalBool(ops, r, doc) == EvalBool(ops, e, doc)
  {
    hide EvalBool, SplitConjuncts, ScanFor, InScan, ResidualPredicate;
    ScanCovers(ops, has, SplitConjuncts(e)[at], s, doc);
    ResidualKeepsMeaning(ops, e, Absorbed(at, s), doc);
  }

  lemma ScanKeepsMatches(ops: Ops, has: Text -> bool, e: Expr, at: nat, s: Scan, doc: Document)
    requires Chosen(has, SplitConjuncts(e), at, s) && Indexable(s.low) && Indexable(s.high) && EvalBool(ops, e, doc) == Ok(true)
    ensures InScan(s, doc) <==> Reached(s, doc)
  {
    hide EvalBool, SplitConjuncts, ScanFor, InScan;
    SplitKeepsMeaning(ops, e, doc);
    AllHold(ops, SplitConjuncts(e), doc, at);
    ScanCovers(ops, has, SplitConjuncts(e)[at], s, doc);
  }

  lemma RowKept(ops: Ops, has: Text -> bool, e: Expr, at: nat, s: Scan, doc: Document)
    requires Chosen(has, SplitConjuncts(e), at, s) && Indexable(s.low) && Indexable(s.high)
    ensures (InScan(s, doc) && Holds(ops, ResidualPredicate(e, Absorbed(at, s)), doc)) <==> (Holds(ops, Some(e), doc) && Reached(s, doc))
  {
    hide EvalBool, SplitConjuncts, ScanFor, ResidualPredicate, InScan, Reached;
    if InScan(s, doc) {
      ResidualOnScan(ops, has, e, at, s, doc);
    }
    if EvalBool(ops, e, doc) == Ok(true) {
      ScanKeepsMatches(ops, has, e, at, s, doc);
    }
  }

  /** Whenever the full scan succeeds so does the index plan, and it yields the same rows except those its scan does not reach. */
  lemma PushdownExact(ops: Ops, has: Text -> bool, e: Expr, at: nat, s: Scan, rows: seq<Row>, fetched: seq<Row>)
    requires Chosen(has, SplitConjuncts(e), at, s) && Indexable(s.low) && Indexable(s.high)
    requires Fetches(s, rows, fetched) && Keep(ops, e, Trace(rows, None)).end.None?
    ensures var full, out := Keep(ops, e, Trace(rows, None)), KeepIf(ops, ResidualPredicate(e, Absorbed(at, s)), Trace(fetched, None));
      && out.end.None?
      && forall r :: multiset(out.rows)[r] == if Reached(s, r.doc) then multiset(full.rows)[r] else 0
  {
    hide EvalBool, SplitConjuncts, ScanFor, InScan, ResidualPredicate, Keep, Reached;
    var left := ResidualPredicate(e, Absorbed(at, s));
    FilterCounts(ops, Some(e), rows);
    FilterCounts(ops, left, fetched);
    forall r | r in fetched
      ensures Runs(ops, left, r.doc)
    {
      assert multiset(fetched)[r] > 0;
      assert multiset(rows)[r] > 0 && r in rows;
      assert Runs(ops, Some(e), r.doc);
      ResidualOnScan(ops, has, e, at, s, r.doc);
    }
    forall r
      ensures multiset(KeepIf(ops, left, Trace(fetched, None)).rows)[r] ==
              if Reached(s, r.doc) then multiset(Keep(ops, e, Trace(rows, None)).rows)[r] else 0
    {
      RowKept(ops, has, e, at, s, r.doc);
    }
  }

  /** The two plans give the same bag exactly when the scan reaches every stored row on which the predicate holds. */
  lemma PushdownSame(ops: Ops, has: Text -> bool, e: Expr, at: nat, s: Scan, rows: seq<Row>, fetched: seq<Row>)
    requires Chosen(has, SplitConjuncts(e), at, s) && Indexable(s.low) && Indexable(s.high)
    requires Fetches(s, rows, fetched) && Keep(ops, e, Trace(rows, None)).end.None?
    ensures var full, out := Keep(ops, e, Trace(rows, None)), KeepIf(ops, ResidualPredicate(e, Absorbed(at, s)), Trace(fetched, None));
      multiset(out.rows) == multiset(full.rows) <==> forall r :: r in rows && EvalBool(ops, e, r.doc) == Ok(true) ==> Reached(s, r.doc)
  {
    hide EvalBool, SplitConjuncts, ScanFor, InScan, ResidualPredicate, Keep, Reached;
    PushdownExact(ops, has, e, at, s, rows, fetched);
    FilterCounts(ops, Some(e), rows);
    var full := Keep(ops, e, Trace(rows, None)).rows;
    var out := KeepIf(ops, ResidualPredicate(e, Absorbed(at, s)), Trace(fetched, None)).rows;
    if r :| r in rows && EvalBool(ops, e, r.doc) == Ok(true) && !Reached(s, r.doc) {
      assert multiset(rows)[r] > 0;
      assert multiset(full)[r] > 0 && multiset(out)[r] == 0;
    } else {
      forall r
        ensures multiset(out)[r] == multiset(full)[r]
      {
        assert r in rows <==> multiset(rows)[r] > 0;
      }
    }
  }

  /** A scan whose one match it does not reach returns nothing where the full scan returns the row. */
  ghost predicate LosesRow(ops: Ops, has: Text -> bool, e: Expr, s: Scan, doc: Document) {
    var rows := [Row(Some((0, 0)), doc)];
    && Chosen(has, SplitConjuncts(e), 0, s) && Fetches(s, rows, [])
    && Keep(ops, e, Trace(rows, None)) == Trace(rows, None)
    && KeepIf(ops, ResidualPredicate(e, Absorbed(0, s)), Trace([], None)) == Trace([], None)
  }

  lemma OneRowLost(ops: Ops, has: Text -> bool, op: BinOp, f: Text, lit: Literal, s: Scan, doc: Document)
    requires ScanFor(has, Binary(op, Field(f), Lit(lit))) == Some(s) && Indexable(s.low) && Indexable(s.high)
    requires Comparison(ops, op, Get(doc, f), lit) == Ok(true) && !Reached(s, doc)
    ensures LosesRow(ops, has, Binary(op, Field(f), Lit(lit)), s, doc)
  {
    hide Arithmetic, Evaluate.Matches, Comparison, Reached, InScan, CloseBounds;
    var e := Binary(op, Field(f), Lit(lit));
    assert SplitConjuncts(e) == [e];
    assert Eval(ops, e.left, doc) == Ok(Get(doc, f)) && Eval(ops, e.right, doc) == Ok(lit);
    ScanCovers(ops, has, e, s, doc);
    assert EvalBool(ops, e, doc) == Ok(true);
    var rows := [Row(Some((0, 0)), doc)];
    assert Trace(rows, None).(rows := rows[1..]) == Trace([], None);
    assert [rows[0]] + [] == rows;
    assert Chosen(has, SplitConjuncts(e), 0, s);
    assert Keep(ops, e, Trace(rows, None)) == Trace(rows, None);
    forall r: Row
      ensures multiset(rows)[r] == 0 || !InScan(s, r.doc)
    {
      assert r != rows[0] ==> r !in rows;
    }
    assert Fetches(s, rows, []);
    assert KeepIf(ops, ResidualPredicate(e, Absorbed(0, s)), Trace([], None)) == Trace([], None);
  }

  /** `where f == null` with an index on f loses the rows that have no f. */
  lemma NullTestLosesRows(ops: Ops, has: Text -> bool, f: Text)
    requires has(f)
    ensures LosesRow(ops, has, Binary(Eq, Field(f), Lit(Null)), Scan(f, Null, Null, true), map[])
  {
    OneRowLost(ops, has, Eq, f, Null, Scan(f, Null, Null, true), map[]);
  }

  /** `where f >= 0` with an index on f loses the rows in which f is a float. */
  lemma IntTestLosesFloats(ops: Ops, has: Text -> bool, f: Text)
    requires has(f) && ops.ofInt(0) == 0
    ensures LosesRow(ops, has, Binary(GtEq, Field(f), Lit(Int(0))), Scan(f, Int(0), MAX, true), map[f := POS_INF])
  {
    hide FloatValue;
    FloatEnds(0, 0);
    OneRowLost(ops, has, GtEq, f, Int(0), Scan(f, Int(0), MAX, true), map[f := POS_INF]);
  }

  /** `where f == 0.0` with an index on f loses the rows in which f is the negative zero. */
  lemma ZeroTestLosesNegative(ops: Ops, has: Text -> bool, f: Text)
    requires has(f)
    ensures LosesRow(ops, has, Binary(Eq, Field(f), Lit(ZERO)), Scan(f, ZERO, ZERO, true), map[f := NEG_ZERO])
  {
    hide FloatValue;
    FloatEnds(0, TWO63);
    OneRowLost(ops, has, Eq, f, ZERO, Scan(f, ZERO, ZERO, true), map[f := NEG_ZERO]);
  }
}
