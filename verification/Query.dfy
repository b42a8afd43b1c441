/** src/asl/ast.rs and src/query/evaluate.rs: expressions over one document. */
module Evaluate {
  import opened Bytes
  import opened Disk
  import opened Values
  import opened KeyOrder

  datatype BinOp = Eq | NotEq | Gt | GtEq | LtOp | LtEq | And | Or | Add | Sub | Mul | Div | Mod

  datatype MatchOp = Contains | Starts | Ends

  /** A literal is one of the leaf values. */
  type Literal = v: Value | !v.Array? && !v.Doc? witness Null

  datatype Expr =
    | Field(name: Text)
    | Lit(value: Literal)
    | Binary(op: BinOp, left: Expr, right: Expr)
    | Not(expr: Expr)
    | Neg(expr: Expr)
    | In(name: Text, values: seq<Literal>, negated: bool)
    | Exists(name: Text)
    | Missing(name: Text)
    | StringMatch(name: Text, how: MatchOp, pattern: Text)
    | Ternary(cond: Expr, yes: Expr, no: Expr)
    | ArrayLit(items: seq<Expr>)
    | DocLit(fields: seq<NamedExpr>)
    | AggCall(agg: Text, arg: Option<Text>)

  datatype NamedExpr = Named(name: Text, expr: Expr)

  /** Errors by kind and by what they report. */
  datatype QueryError =
    | NotBool(v: Value)
    | CannotNegate(v: Value)
    | CannotCompare(a: Value, b: Value)
    | CannotCompareNaN
    | CannotCompute(a: Value, b: Value)
    | CannotShow(v: Value)
    | Overflow(op: BinOp, x: i64, y: i64)
    | NegOverflow(x: i64)
    | DivisionByZero(op: BinOp, x: i64, y: i64)
    | Unsupported(agg: Text)
    | NeedsField(agg: Text)
    | CannotSum(agg: Text, v: Value)
    | SumOverflow(agg: Text, field: Text)
    | UnknownAggregate(agg: Text)

  datatype Result<+T> = Ok(value: T) | Err(error: QueryError)

  /** What is left to the platform: binary64 arithmetic, the nearest double of an integer, and decimal text. */
  datatype Ops = Ops(arith: (BinOp, u64, u64) -> u64, ofInt: i64 -> u64, show: Value -> Text)

  predicate FloatEq(a: u64, b: u64) { !IsNaN(a) && !IsNaN(b) && FloatValue(a) == FloatValue(b) }

  /** Equality of values of the same kind, floats by number at every depth. */
  predicate Same(v: Value, u: Value) {
    match (v, u)
    case (Float(a), Float(b)) => FloatEq(a, b)
    case (Array(xs), Array(ys)) => |xs| == |ys| && forall i :: 0 <= i < |xs| ==> Same(xs[i], ys[i])
    case (Doc(m), Doc(w)) => m.Keys == w.Keys && forall k :: k in m ==> Same(m[k], w[k])
    case _ => v == u
  }

  predicate ValuesEqual(ops: Ops, v: Value, u: Value) {
    match (v, u)
    case (Int(a), Float(b)) => FloatEq(ops.ofInt(a), b)
    case (Float(a), Int(b)) => FloatEq(a, ops.ofInt(b))
    case _ => Same(v, u)
  }

  datatype Ordering = Less | Equal | Greater

  function CompareInts(a: int, b: int): Ordering { if a < b then Less else if a == b then Equal else Greater }

  function CompareFloats(a: u64, b: u64): Result<Ordering> {
    if IsNaN(a) || IsNaN(b) then Err(CannotCompareNaN) else Ok(CompareInts(FloatValue(a), FloatValue(b)))
  }

  function CompareValues(ops: Ops, v: Value, u: Value): Result<Ordering> {
    match (v, u)
    case (Int(a), Int(b)) => Ok(CompareInts(a, b))
    case (Int(a), Float(b)) => CompareFloats(ops.ofInt(a), b)
    case (Float(a), Int(b)) => CompareFloats(a, ops.ofInt(b))
    case (Float(a), Float(b)) => CompareFloats(a, b)
    case (Str(a), Str(b)) => Ok(if Lt(a, b) then Less else if a == b then Equal else Greater)
    case _ => Err(CannotCompare(v, u))
  }

  predicate IsOrdering(op: BinOp) { op == Gt || op == GtEq || op == LtOp || op == LtEq }

  predicate IsArith(op: BinOp) { op == Add || op == Sub || op == Mul || op == Div || op == Mod }

  /** An ordering test against Null, as a missing field reads, does not match and does not fail. */
  function Comparison(ops: Ops, op: BinOp, v: Value, u: Value): Result<bool>
    requires op == Eq || op == NotEq || IsOrdering(op)
  {
    if IsOrdering(op) && (v.Null? || u.Null?) then Ok(false)
    else if op == Eq then Ok(ValuesEqual(ops, v, u))
    else if op == NotEq then Ok(!ValuesEqual(ops, v, u))
    else
      match CompareValues(ops, v, u)
      case Err(e) => Err(e)
      case Ok(o) =>
        Ok(match op
           case Gt => o == Greater
           case GtEq => o == Greater || o == Equal
           case LtOp => o == Less
           case _ => o == Less || o == Equal)
  }

  predicate IsI64(x: int) { -TWO63 <= x < TWO63 }

  function Checked(op: BinOp, x: i64, y: i64, r: int): Result<Value> {
    if IsI64(r) then Ok(Int(r)) else Err(Overflow(op, x, y))
  }

  /** Division that truncates toward zero. */
  function Quotient(x: int, y: int): int
    requires y != 0
  {
    if x >= 0 then x / y else 0 - (0 - x) / y
  }

  function IntArith(op: BinOp, x: i64, y: i64): Result<Value>
    requires IsArith(op)
  {
    match op
    case Add => Checked(op, x, y, x + y)
    case Sub => Checked(op, x, y, x - y)
    case Mul => Checked(op, x, y, x * y)
    case _ =>
      if y == 0 then Err(DivisionByZero(op, x, y))
      else if op == Div then Checked(op, x, y, Quotient(x, y))
      else if x == -0x8000_0000_0000_0000 && y == -1 then Err(Overflow(op, x, y))
      else Checked(op, x, y, x - y * Quotient(x, y))
  }

  lemma {:induction false} Utf8Concat(s: Bytes, t: Bytes)
    requires Utf8(s) && Utf8(t)
    ensures Utf8(s + t)
  {
    if |s| == 0 {
      assert s + t == t;
    } else {
      var n := CharLength(s);
      assert CharLength(s + t) == n;
      assert (s + t)[n..] == s[n..] + t;
      Utf8Concat(s[n..], t);
    }
  }

  function Concat(s: Text, t: Text): Text {
    Utf8Concat(s, t);
    s + t
  }

  function ShowValue(ops: Ops, v: Value): Result<Text> {
    if v.Array? || v.Doc? then Err(CannotShow(v)) else if v.Str? then Ok(v.s) else Ok(ops.show(v))
  }

  function Arithmetic(ops: Ops, op: BinOp, v: Value, u: Value): Result<Value>
    requires IsArith(op)
  {
    match (v, u)
    case (Int(a), Int(b)) => IntArith(op, a, b)
    case (Int(a), Float(b)) => Ok(Float(ops.arith(op, ops.ofInt(a), b)))
    case (Float(a), Int(b)) => Ok(Float(ops.arith(op, a, ops.ofInt(b))))
    case (Float(a), Float(b)) => Ok(Float(ops.arith(op, a, b)))
    case _ =>
      if op == Add && (v.Str? || u.Str?) then
        match (ShowValue(ops, v), ShowValue(ops, u))
        case (Ok(s), Ok(t)) => Ok(Str(Concat(s, t)))
        case (Err(e), _) => Err(e)
        case (_, Err(e)) => Err(e)
      else Err(CannotCompute(v, u))
  }

  predicate StartsAt(s: Text, i: nat, pattern: Text) {
    i + |pattern| <= |s| && s[i..i + |pattern|] == pattern
  }

  predicate Matches(how: MatchOp, s: Text, pattern: Text) {
    match how
    case Contains => exists i :: 0 <= i <= |s| && StartsAt(s, i, pattern)
    case Starts => |pattern| <= |s| && s[..|pattern|] == pattern
    case Ends => |pattern| <= |s| && s[|s| - |pattern|..] == pattern
  }

  function Negate(v: Value): Result<Value> {
    match v
    case Int(n) => if IsI64(0 - n) then Ok(Int(0 - n)) else Err(NegOverflow(n))
    case Float(bits) => Ok(Float(if bits >= TWO63 then bits - TWO63 else bits + TWO63))
    case _ => Err(CannotNegate(v))
  }

  function Get(doc: Document, name: Text): Value { if name in doc then doc[name] else Null }

  function Eval(ops: Ops, e: Expr, doc: Document): Result<Value>
    decreases e, 0
  {
    match e
    case Field(name) => Ok(Get(doc, name))
    case Lit(v) => Ok(v)
    case Binary(op, l, r) =>
      if op == And || op == Or then
        var b := EvalBool(ops, l, doc);
        if b.Err? then Err(b.error)
        else if b.value == (op == Or) then Ok(Bool(b.value))
        else
          var c := EvalBool(ops, r, doc);
          if c.Err? then Err(c.error) else Ok(Bool(c.value))
      else
        var v := Eval(ops, l, doc);
        if v.Err? then v else
          var u := Eval(ops, r, doc);
          if u.Err? then u
          else if IsArith(op) then Arithmetic(ops, op, v.value, u.value)
          else
            var b := Comparison(ops, op, v.value, u.value);
            if b.Err? then Err(b.error) else Ok(Bool(b.value))
    case Not(x) =>
      var b := EvalBool(ops, x, doc);
      if b.Err? then Err(b.error) else Ok(Bool(!b.value))
    case Neg(x) =>
      var v := Eval(ops, x, doc);
      if v.Err? then v else Negate(v.value)
    case In(name, values, negated) =>
      var found := exists i :: 0 <= i < |values| && ValuesEqual(ops, Get(doc, name), values[i]);
      Ok(Bool(found != negated))
    case Exists(name) => Ok(Bool(name in doc))
    case Missing(name) => Ok(Bool(name !in doc))
    case StringMatch(name, how, pattern) =>
      if name in doc && doc[name].Str? then Ok(Bool(Matches(how, doc[name].s, pattern))) else Ok(Bool(false))
    case Ternary(c, y, n) =>
      var b := EvalBool(ops, c, doc);
      if b.Err? then Err(b.error) else if b.value then Eval(ops, y, doc) else Eval(ops, n, doc)
    case ArrayLit(items) =>
      var vs := EvalItems(ops, items, doc);
      if vs.Err? then Err(vs.error) else Ok(Array(vs.value))
    case DocLit(fields) =>
      var d := EvalFields(ops, fields, doc);
      if d.Err? then Err(d.error) else Ok(Doc(d.value))
    case AggCall(agg, _) => Err(Unsupported(agg))
  }

  function EvalItems(ops: Ops, items: seq<Expr>, doc: Document): Result<seq<Value>>
    decreases items, 0
  {
    if |items| == 0 then Ok([]) else
      var v := Eval(ops, items[0], doc);
      if v.Err? then Err(v.error) else
        var vs := EvalItems(ops, items[1..], doc);
        if vs.Err? then vs else Ok([v.value] + vs.value)
  }

  /** Fields in turn; a repeated name keeps its last value. */
  function EvalFields(ops: Ops, fields: seq<NamedExpr>, doc: Document): Result<Document>
    decreases fields, 0
  {
    if |fields| == 0 then Ok(map[]) else
      var d := EvalFields(ops, fields[..|fields| - 1], doc);
      if d.Err? then d else
        var v := Eval(ops, fields[|fields| - 1].expr, doc);
        if v.Err? then Err(v.error) else Ok(d.value[fields[|fields| - 1].name := v.value])
  }

  function EvalBool(ops: Ops, e: Expr, doc: Document): Result<bool>
    decreases e, 1
  {
    match Eval(ops, e, doc)
    case Err(error) => Err(error)
    case Ok(v) => if v.Bool? then Ok(v.b) else Err(NotBool(v))
  }
}
