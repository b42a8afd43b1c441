/** src/query/evaluate.rs: what an expression evaluates to, in terms of what its operands do. */
module EvalLaws {
  import opened Bytes
  import opened Disk
  import opened Values
  import opened KeyOrder
  import opened Evaluate

  // connectives

  lemma BoolMeans(ops: Ops, e: Expr, doc: Document)
    ensures forall b :: EvalBool(ops, e, doc) == Ok(b) <==> Eval(ops, e, doc) == Ok(Bool(b))
    ensures forall x :: EvalBool(ops, e, doc) == Err(x) <==>
      Eval(ops, e, doc) == Err(x) || exists v: Value :: Eval(ops, e, doc) == Ok(v) && !v.Bool? && x == NotBool(v)
  {
    hide Eval;
  }

  /** True if one side is and no side before it fails; false if both are. */
  lemma OrMeans(ops: Ops, l: Expr, r: Expr, doc: Document)
    ensures var a, b, c := EvalBool(ops, l, doc), EvalBool(ops, r, doc), Eval(ops, Binary(Or, l, r), doc);
      && (c == Ok(Bool(true)) <==> a == Ok(true) || (a == Ok(false) && b == Ok(true)))
      && (c == Ok(Bool(false)) <==> a == Ok(false) && b == Ok(false))
      && (forall x :: c == Err(x) <==> a == Err(x) || (a == Ok(false) && b == Err(x)))
  {
    hide EvalBool;
  }

  lemma AndMeans(ops: Ops, l: Expr, r: Expr, doc: Document)
    ensures var a, b, c := EvalBool(ops, l, doc), EvalBool(ops, r, doc), Eval(ops, Binary(And, l, r), doc);
      && (c == Ok(Bool(true)) <==> a == Ok(true) && b == Ok(true))
      && (c == Ok(Bool(false)) <==> a == Ok(false) || (a == Ok(true) && b == Ok(false)))
      && (forall x :: c == Err(x) <==> a == Err(x) || (a == Ok(true) && b == Err(x)))
  {
    hide EvalBool;
  }

  lemma NotMeans(ops: Ops, e: Expr, doc: Document)
    ensures var a, c := EvalBool(ops, e, doc), Eval(ops, Not(e), doc);
      && (forall b :: c == Ok(Bool(b)) <==> a == Ok(!b)) && (forall x :: c == Err(x) <==> a == Err(x))
      && (c.Ok? ==> c.value.Bool?)
  {
    hide EvalBool;
  }

  /** A negation moves inside a connective, with the same boolean or the same error. */
  lemma DeMorgan(ops: Ops, l: Expr, r: Expr, doc: Document)
    ensures Eval(ops, Not(Binary(Or, l, r)), doc) == Eval(ops, Binary(And, Not(l), Not(r)), doc)
    ensures Eval(ops, Not(Binary(And, l, r)), doc) == Eval(ops, Binary(Or, Not(l), Not(r)), doc)
  {
    NotIs(ops, l, doc);
    NotIs(ops, r, doc);
    NotIs(ops, Binary(Or, l, r), doc);
    NotIs(ops, Binary(And, l, r), doc);
    ConnectiveIs(ops, l, r, doc);
    ConnectiveIs(ops, Not(l), Not(r), doc);
  }

  lemma NotIs(ops: Ops, e: Expr, doc: Document)
    ensures var a, c := EvalBool(ops, e, doc), Eval(ops, Not(e), doc); c == if a.Err? then Err(a.error) else Ok(Bool(!a.value))
    ensures EvalBool(ops, Not(e), doc) == if EvalBool(ops, e, doc).Err? then EvalBool(ops, e, doc) else Ok(!EvalBool(ops, e, doc).value)
  {
    NotMeans(ops, e, doc);
    BoolMeans(ops, Not(e), doc);
  }

  lemma ConnectiveIs(ops: Ops, l: Expr, r: Expr, doc: Document)
    ensures Eval(ops, Binary(Or, l, r), doc).Ok? ==> Eval(ops, Binary(Or, l, r), doc).value.Bool?
    ensures Eval(ops, Binary(And, l, r), doc).Ok? ==> Eval(ops, Binary(And, l, r), doc).value.Bool?
  {
  }

  lemma DoubleNot(ops: Ops, e: Expr, doc: Document)
    ensures EvalBool(ops, Not(Not(e)), doc) == EvalBool(ops, e, doc)
  {
    hide Eval;
    NotIs(ops, e, doc);
    NotIs(ops, Not(e), doc);
  }

  /** The branch the condition names; a negated condition swaps the branches. */
  lemma TernaryMeans(ops: Ops, c: Expr, y: Expr, n: Expr, doc: Document)
    ensures var b, t := EvalBool(ops, c, doc), Eval(ops, Ternary(c, y, n), doc);
      && (b == Ok(true) ==> t == Eval(ops, y, doc)) && (b == Ok(false) ==> t == Eval(ops, n, doc)) && (b.Err? ==> t == Err(b.error))
    ensures Eval(ops, Ternary(Not(c), y, n), doc) == Eval(ops, Ternary(c, n, y), doc)
  {
    NotIs(ops, c, doc);
  }

  // operands

  /** The operands have these values. */
  ghost predicate Operands(ops: Ops, l: Expr, r: Expr, doc: Document, v: Value, u: Value) {
    Eval(ops, l, doc) == Ok(v) && Eval(ops, r, doc) == Ok(u)
  }

  /** The first operand that fails is the error of the whole. */
  lemma OperandFails(ops: Ops, op: BinOp, l: Expr, r: Expr, doc: Document)
    requires op != And && op != Or
    ensures var a, b, c := Eval(ops, l, doc), Eval(ops, r, doc), Eval(ops, Binary(op, l, r), doc);
      (a.Err? ==> c == a) && (a.Ok? && b.Err? ==> c == b)
  {
  }

  lemma BinaryIs(ops: Ops, op: BinOp, l: Expr, r: Expr, doc: Document, v: Value, u: Value)
    requires op != And && op != Or && Operands(ops, l, r, doc, v, u)
    ensures IsArith(op) ==> Eval(ops, Binary(op, l, r), doc) == Arithmetic(ops, op, v, u)
    ensures !IsArith(op) ==> var b := Comparison(ops, op, v, u);
      Eval(ops, Binary(op, l, r), doc) == if b.Err? then Err(b.error) else Ok(Bool(b.value))
  {
    hide EvalBool, EvalItems, EvalFields, Arithmetic, Comparison, ValuesEqual, Matches;
  }

  // integers

  predicate InRange(x: int) { -0x8000_0000_0000_0000 <= x <= 0x7FFF_FFFF_FFFF_FFFF }

  /** The result is the integer, or an overflow exactly if that is out of range. */
  ghost predicate IntResult(c: Result<Value>, op: BinOp, x: i64, y: i64, n: int) {
    c == if InRange(n) then Ok(Int(n)) else Err(Overflow(op, x, y))
  }

  lemma IntSum(ops: Ops, l: Expr, r: Expr, doc: Document, x: i64, y: i64)
    requires Operands(ops, l, r, doc, Int(x), Int(y))
    ensures IntResult(Eval(ops, Binary(Add, l, r), doc), Add, x, y, x + y)
  {
    hide Eval;
    BinaryIs(ops, Add, l, r, doc, Int(x), Int(y));
  }

  /** A difference is what gives the first operand when the second is added. */
  lemma IntDifference(ops: Ops, l: Expr, r: Expr, doc: Document, x: i64, y: i64)
    requires Operands(ops, l, r, doc, Int(x), Int(y))
    ensures var d := Eval(ops, Binary(Sub, l, r), doc);
      && (d.Ok? <==> InRange(x - y)) && (d.Ok? ==> d.value.Int? && d.value.n + y == x) && (d.Err? ==> d.error == Overflow(Sub, x, y))
  {
    hide Eval;
    BinaryIs(ops, Sub, l, r, doc, Int(x), Int(y));
  }

  /** Adding and subtracting the same expression undo each other, unless the first step overflows. */
  lemma SumUndone(ops: Ops, l: Expr, r: Expr, doc: Document, x: i64, y: i64)
    requires Operands(ops, l, r, doc, Int(x), Int(y))
    ensures InRange(x + y) ==> Eval(ops, Binary(Sub, Binary(Add, l, r), r), doc) == Ok(Int(x))
    ensures InRange(x - y) ==> Eval(ops, Binary(Add, Binary(Sub, l, r), r), doc) == Ok(Int(x))
  {
    hide Eval;
    IntSum(ops, l, r, doc, x, y);
    IntDifference(ops, l, r, doc, x, y);
    if InRange(x + y) {
      IntDifference(ops, Binary(Add, l, r), r, doc, x + y, y);
    }
    if InRange(x - y) {
      IntSum(ops, Binary(Sub, l, r), r, doc, x - y, y);
    }
  }

  lemma IntProduct(ops: Ops, l: Expr, r: Expr, doc: Document, x: i64, y: i64)
    requires Operands(ops, l, r, doc, Int(x), Int(y))
    ensures IntResult(Eval(ops, Binary(Mul, l, r), doc), Mul, x, y, x * y)
  {
    hide Eval;
    BinaryIs(ops, Mul, l, r, doc, Int(x), Int(y));
  }

  function Abs(x: int): nat { if x < 0 then 0 - x else x }

  /** q is the quotient of x by y and m the remainder, which has the sign of x. */
  predicate Divides(x: int, y: int, q: int, m: int) {
    x == q * y + m && Abs(m) < Abs(y) && (m > 0 ==> x > 0) && (m < 0 ==> x < 0)
  }

  lemma QuotientDivides(x: int, y: int)
    requires y != 0
    ensures Divides(x, y, Quotient(x, y), x - y * Quotient(x, y))
  {
    var a := Abs(x);
    Signed(x, y, a / y, a % y);
  }

  lemma Signed(x: int, y: int, k: int, m: int)
    requires Abs(x) == y * k + m && 0 <= m < Abs(y) && (x == 0 ==> m == 0)
    ensures x >= 0 ==> Divides(x, y, k, x - y * k)
    ensures x < 0 ==> Divides(x, y, 0 - k, x - y * (0 - k))
  {
    Negated(y, k);
  }

  lemma Negated(y: int, k: int)
    ensures y * (0 - k) == 0 - y * k == (0 - k) * y && k * y == y * k
  {
  }

  /** There is only one quotient and only one remainder. */
  lemma OneDivision(x: int, y: int, q: int, m: int, q': int, m': int)
    requires Divides(x, y, q, m) && Divides(x, y, q', m')
    ensures q == q' && m == m'
  {
    assert (q - q') * y == m' - m;
    assert Abs(m' - m) < Abs(y);
    if q != q' {
      AtLeastFactor(q - q', y);
    }
  }

  lemma AtLeastFactor(k: int, y: int)
    requires k != 0
    ensures Abs(k * y) >= Abs(y)
  {
    if k > 0 {
      if y >= 0 {
        assert k * y >= y;
      } else {
        assert k * y <= y;
      }
    } else {
      if y >= 0 {
        assert k * y <= 0 - y;
      } else {
        assert k * y >= 0 - y;
      }
    }
  }

  /** Division and remainder of integers: an error for a zero divisor, an overflow where the quotient is out of range, and
      else the one quotient and the one remainder. */
  lemma IntDivision(ops: Ops, l: Expr, r: Expr, doc: Document, x: i64, y: i64, q: int, m: int)
    requires Operands(ops, l, r, doc, Int(x), Int(y)) && (y != 0 ==> Divides(x, y, q, m))
    ensures var d, e := Eval(ops, Binary(Div, l, r), doc), Eval(ops, Binary(Mod, l, r), doc);
      && (y == 0 ==> d == Err(DivisionByZero(Div, x, y)) && e == Err(DivisionByZero(Mod, x, y)))
      && (y != 0 ==> IntResult(d, Div, x, y, q))
      && (y != 0 ==> e == if InRange(q) then Ok(Int(m)) else Err(Overflow(Mod, x, y)))
  {
    hide Eval;
    BinaryIs(ops, Div, l, r, doc, Int(x), Int(y));
    BinaryIs(ops, Mod, l, r, doc, Int(x), Int(y));
    if y != 0 {
      QuotientDivides(x, y);
      OneDivision(x, y, q, m, Quotient(x, y), x - y * Quotient(x, y));
      QuotientRange(x, y, q, m);
    }
  }

  lemma QuotientRange(x: i64, y: i64, q: int, m: int)
    requires y != 0 && Divides(x, y, q, m)
    ensures !InRange(q) <==> x == -0x8000_0000_0000_0000 && y == -1
    ensures InRange(m)
  {
    if y == -1 || y == 1 {
    } else {
      SmallQuotient(x, y, q, m);
    }
  }

  lemma SmallQuotient(x: int, y: int, q: int, m: int)
    requires Abs(y) >= 2 && Divides(x, y, q, m)
    ensures 2 * Abs(q) <= Abs(x)
  {
    hide Divides;
    QuotientPart(x, y, q, m);
    AbsProduct(q, y);
    TwiceAtMost(Abs(q), Abs(y));
  }

  lemma TwiceAtMost(a: nat, b: nat)
    requires b >= 2
    ensures 2 * a <= a * b
  {
  }

  lemma QuotientPart(x: int, y: int, q: int, m: int)
    requires Divides(x, y, q, m)
    ensures Abs(q * y) <= Abs(x)
  {
    var k := q * y;
    assert x == k + m;
    if k != 0 {
      assert q != 0;
      AtLeastFactor(q, y);
    }
  }

  lemma AbsProduct(q: int, y: int)
    ensures Abs(q * y) == Abs(q) * Abs(y)
  {
  }

  // other arithmetic

  predicate Numeric(v: Value) { v.Int? || v.Float? }

  /** A number as the double that mixed arithmetic works on. */
  function AsDouble(ops: Ops, v: Value): u64
    requires Numeric(v)
  {
    if v.Int? then ops.ofInt(v.n) else v.bits
  }

  /** One double makes the whole computation one of doubles, and no such computation fails. */
  lemma FloatArithmetic(ops: Ops, op: BinOp, l: Expr, r: Expr, doc: Document, v: Value, u: Value)
    requires Operands(ops, l, r, doc, v, u) && IsArith(op) && Numeric(v) && Numeric(u) && (v.Float? || u.Float?)
    ensures Eval(ops, Binary(op, l, r), doc) == Ok(Float(ops.arith(op, AsDouble(ops, v), AsDouble(ops, u))))
  {
    hide Eval;
    BinaryIs(ops, op, l, r, doc, v, u);
  }

  /** The text of a value next to a string. */
  function TextOf(ops: Ops, v: Value): Text {
    if v.Str? then v.s else ops.show(v)
  }

  /** With a string, + puts the texts one after the other; anything else that is not two numbers fails. */
  lemma OtherArithmetic(ops: Ops, op: BinOp, l: Expr, r: Expr, doc: Document, v: Value, u: Value)
    requires Operands(ops, l, r, doc, v, u) && IsArith(op) && !(Numeric(v) && Numeric(u))
    ensures var c, joins, whole := Eval(ops, Binary(op, l, r), doc), op == Add && (v.Str? || u.Str?), (w: Value) => !w.Array? && !w.Doc?;
      && (!joins ==> c == Err(CannotCompute(v, u)))
      && (joins && !whole(v) ==> c == Err(CannotShow(v))) && (joins && !whole(u) ==> c == Err(CannotShow(u)))
      && (joins && whole(v) && whole(u) ==> c.Ok? && c.value.Str? && c.value.s == TextOf(ops, v) + TextOf(ops, u))
  {
    hide Eval;
    BinaryIs(ops, op, l, r, doc, v, u);
  }

  // negation

  function Negative(bits: u64): u64 { if bits >= TWO63 then bits - TWO63 else bits + TWO63 }

  /** The number with the other sign, for the one integer without such a number an overflow, and else an error. */
  ghost predicate Negates(v: Value, c: Result<Value>) {
    match v
    case Int(n) => if InRange(0 - n) then c.Ok? && c.value.Int? && c.value.n + n == 0 else c == Err(NegOverflow(n))
    case Float(bits) => c == Ok(Float(Negative(bits)))
    case _ => c == Err(CannotNegate(v))
  }

  lemma NegMeans(ops: Ops, e: Expr, doc: Document)
    ensures var a, c := Eval(ops, e, doc), Eval(ops, Neg(e), doc); if a.Err? then c == a else Negates(a.value, c)
  {
    hide EvalBool, EvalItems, EvalFields, Arithmetic, Comparison, ValuesEqual, Matches, Negate, Negates;
    if Eval(ops, e, doc).Ok? {
      NegateMeans(Eval(ops, e, doc).value);
    }
  }

  lemma NegateMeans(v: Value)
    ensures Negates(v, Negate(v))
  {
  }

  lemma NegativeIs(bits: u64)
    ensures FloatValue(Negative(bits)) == 0 - FloatValue(bits) && (IsNaN(Negative(bits)) <==> IsNaN(bits))
    ensures Negative(Negative(bits)) == bits && Negative(bits) != bits
  {
    hide Magnitude;
    MagnitudeZero();
    assert Negative(bits) % TWO63 == bits % TWO63;
  }

  /** Negating twice gives the number back, and a number and its negation add up to zero. */
  lemma NegTwice(ops: Ops, e: Expr, doc: Document)
    requires Eval(ops, e, doc).Ok? && Numeric(Eval(ops, e, doc).value)
    ensures Eval(ops, Neg(e), doc).Ok? ==> Eval(ops, Neg(Neg(e)), doc) == Eval(ops, e, doc)
    ensures Eval(ops, Neg(e), doc).Ok? && Eval(ops, e, doc).value.Int? ==> Eval(ops, Binary(Add, Neg(e), e), doc) == Ok(Int(0))
  {
    hide Eval;
    NegMeans(ops, e, doc);
    NegMeans(ops, Neg(e), doc);
    var a, c := Eval(ops, e, doc).value, Eval(ops, Neg(e), doc);
    if a.Float? {
      NegativeIs(a.bits);
    } else if c.Ok? {
      IntSum(ops, Neg(e), e, doc, c.value.n, a.n);
    }
  }

  // order

  /** a is a proper beginning of b, or smaller at the first byte where they differ. */
  predicate Precedes(a: Bytes, b: Bytes) {
    exists i :: 0 <= i <= |a| && i <= |b| && a[..i] == b[..i] && SmallerAt(a, b, i)
  }

  predicate SmallerAt(a: Bytes, b: Bytes, i: nat) {
    i < |b| && (i == |a| || (i < |a| && a[i] < b[i]))
  }

  lemma {:induction false} LtMeans(a: Bytes, b: Bytes)
    ensures Lt(a, b) <==> Precedes(a, b)
  {
    if |a| == 0 || |b| == 0 || a[0] != b[0] {
      assert a[..0] == b[..0];
      if Lt(a, b) {
        assert SmallerAt(a, b, 0);
      }
    } else {
      LtMeans(a[1..], b[1..]);
      if Precedes(a, b) {
        var i: nat :| i <= |a| && i <= |b| && a[..i] == b[..i] && SmallerAt(a, b, i);
        assert i > 0;
        assert a[1..][..i - 1] == a[..i][1..] && b[1..][..i - 1] == b[..i][1..];
        assert SmallerAt(a[1..], b[1..], i - 1);
      }
      if Precedes(a[1..], b[1..]) {
        var i: nat :| i <= |a[1..]| && i <= |b[1..]| && a[1..][..i] == b[1..][..i] && SmallerAt(a[1..], b[1..], i);
        assert a[..i + 1] == [a[0]] + a[1..][..i] && b[..i + 1] == [b[0]] + b[1..][..i];
        assert SmallerAt(a, b, i + 1);
      }
    }
  }

  /** Two integers, two numbers as doubles, or two strings. */
  predicate Below(ops: Ops, v: Value, u: Value) {
    if v.Int? && u.Int? then v.n < u.n
    else if Numeric(v) && Numeric(u) then FloatValue(AsDouble(ops, v)) < FloatValue(AsDouble(ops, u))
    else v.Str? && u.Str? && Precedes(v.s, u.s)
  }

  predicate SomeNaN(ops: Ops, v: Value, u: Value) {
    Numeric(v) && Numeric(u) && !(v.Int? && u.Int?) && (IsNaN(AsDouble(ops, v)) || IsNaN(AsDouble(ops, u)))
  }

  predicate Comparable(ops: Ops, v: Value, u: Value) {
    (Numeric(v) && Numeric(u) && !SomeNaN(ops, v, u)) || (v.Str? && u.Str?)
  }

  lemma CompareMeans(ops: Ops, v: Value, u: Value)
    ensures CompareValues(ops, v, u) ==
      if Comparable(ops, v, u) then Ok(if Below(ops, v, u) then Less else if Below(ops, u, v) then Greater else Equal)
      else Err(if SomeNaN(ops, v, u) then CannotCompareNaN else CannotCompare(v, u))
    ensures !(Below(ops, v, u) && Below(ops, u, v))
  {
    hide Lt, Precedes, FloatValue;
    if v.Str? && u.Str? {
      LtMeans(v.s, u.s);
      LtMeans(u.s, v.s);
      StringsCompare(v.s, u.s);
    }
  }

  /** A null on either side makes every ordering test false; comparable values are tested by their order; else it fails. */
  lemma OrderMeans(ops: Ops, l: Expr, r: Expr, doc: Document, v: Value, u: Value)
    requires Operands(ops, l, r, doc, v, u)
    ensures var lt, le := Eval(ops, Binary(LtOp, l, r), doc), Eval(ops, Binary(LtEq, l, r), doc);
      var gt, ge := Eval(ops, Binary(Gt, l, r), doc), Eval(ops, Binary(GtEq, l, r), doc);
      if v.Null? || u.Null? then lt == le == gt == ge == Ok(Bool(false))
      else if Comparable(ops, v, u) then
        && lt == Ok(Bool(Below(ops, v, u))) && gt == Ok(Bool(Below(ops, u, v)))
        && le == Ok(Bool(!Below(ops, u, v))) && ge == Ok(Bool(!Below(ops, v, u)))
      else lt == le == gt == ge == Err(if SomeNaN(ops, v, u) then CannotCompareNaN else CannotCompare(v, u))
  {
    hide Eval, Below, Comparable, SomeNaN, CompareValues;
    BinaryIs(ops, LtOp, l, r, doc, v, u);
    BinaryIs(ops, LtEq, l, r, doc, v, u);
    BinaryIs(ops, Gt, l, r, doc, v, u);
    BinaryIs(ops, GtEq, l, r, doc, v, u);
    CompareMeans(ops, v, u);
  }

  lemma StringsCompare(a: Bytes, b: Bytes)
    ensures Lt(a, b) || a == b || Lt(b, a)
    ensures !(Lt(a, b) && Lt(b, a)) && (a == b ==> !Lt(a, b))
  {
    RankOrder(a, b);
    RankOrder(b, a);
  }

  /** Of comparable values exactly one of <, == and > holds. */
  lemma Trichotomy(ops: Ops, l: Expr, r: Expr, doc: Document, v: Value, u: Value)
    requires Operands(ops, l, r, doc, v, u) && Comparable(ops, v, u)
    ensures var lt, eq := Eval(ops, Binary(LtOp, l, r), doc), Eval(ops, Binary(Eq, l, r), doc);
      var gt, le := Eval(ops, Binary(Gt, l, r), doc), Eval(ops, Binary(LtEq, l, r), doc);
      && (lt == Ok(Bool(true)) || eq == Ok(Bool(true)) || gt == Ok(Bool(true)))
      && !(lt == gt == Ok(Bool(true))) && (eq == Ok(Bool(true)) ==> lt == gt == Ok(Bool(false)))
      && (le == Ok(Bool(true)) <==> lt == Ok(Bool(true)) || eq == Ok(Bool(true)))
  {
    hide Eval, Lt, Precedes, FloatValue;
    OrderMeans(ops, l, r, doc, v, u);
    BinaryIs(ops, Eq, l, r, doc, v, u);
    if v.Str? && u.Str? {
      LtMeans(v.s, u.s);
      LtMeans(u.s, v.s);
      StringsCompare(v.s, u.s);
    }
  }

  // equality

  predicate IsZero(bits: u64) { bits == 0 || bits == TWO63 }

  /** Doubles are the same number iff they have the same bits or are both a zero. */
  lemma FloatEqMeans(a: u64, b: u64)
    ensures FloatEq(a, b) <==> !IsNaN(a) && !IsNaN(b) && (a == b || (IsZero(a) && IsZero(b)))
  {
    hide Magnitude;
    FloatOrder(a, b);
    FloatOrder(b, a);
    MagnitudeZero();
  }

  /** The value with every negative zero in it replaced by the positive one. */
  ghost function Unsigned(v: Value): Value {
    match v
    case Float(bits) => Float(if IsZero(bits) then 0 else bits)
    case Array(xs) => Array(seq(|xs|, i requires 0 <= i < |xs| => Unsigned(xs[i])))
    case Doc(m) => Doc(map k | k in m :: Unsigned(m[k]))
    case _ => v
  }

  ghost predicate NoNaN(v: Value) {
    match v
    case Float(bits) => !IsNaN(bits)
    case Array(xs) => forall i :: 0 <= i < |xs| ==> NoNaN(xs[i])
    case Doc(m) => forall k :: k in m ==> NoNaN(m[k])
    case _ => true
  }

  lemma UnsignedItems(xs: seq<Value>, ys: seq<Value>)
    ensures Unsigned(Array(xs)) == Unsigned(Array(ys)) <==>
      |xs| == |ys| && forall i :: 0 <= i < |xs| ==> Unsigned(xs[i]) == Unsigned(ys[i])
  {
    var us, ws := Unsigned(Array(xs)).items, Unsigned(Array(ys)).items;
    assert |us| == |xs| && |ws| == |ys|;
    assert forall i :: 0 <= i < |xs| ==> us[i] == Unsigned(xs[i]);
    assert forall i :: 0 <= i < |ys| ==> ws[i] == Unsigned(ys[i]);
    assert us == ws <==> Unsigned(Array(xs)) == Unsigned(Array(ys));
    if |xs| == |ys| && forall i :: 0 <= i < |xs| ==> Unsigned(xs[i]) == Unsigned(ys[i]) {
      assert us == ws;
    }
  }

  lemma UnsignedFields(m: Document, w: Document)
    ensures Unsigned(Doc(m)) == Unsigned(Doc(w)) <==> m.Keys == w.Keys && forall k :: k in m ==> Unsigned(m[k]) == Unsigned(w[k])
  {
    var us, ws := Unsigned(Doc(m)).fields, Unsigned(Doc(w)).fields;
    assert us.Keys == m.Keys && ws.Keys == w.Keys;
    assert forall k :: k in m ==> us[k] == Unsigned(m[k]);
    assert forall k :: k in w ==> ws[k] == Unsigned(w[k]);
    if m.Keys == w.Keys && forall k :: k in m ==> Unsigned(m[k]) == Unsigned(w[k]) {
      assert us == ws;
    }
  }

  /** Values are the same iff they hold no NaN and differ at most in the sign of zeros. */
  lemma {:induction false} SameMeans(v: Value, u: Value)
    ensures Same(v, u) <==> NoNaN(v) && NoNaN(u) && Unsigned(v) == Unsigned(u)
  {
    if v.Float? && u.Float? {
      FloatEqMeans(v.bits, u.bits);
    } else if v.Array? && u.Array? {
      UnsignedItems(v.items, u.items);
      forall i | 0 <= i < |v.items| == |u.items|
        ensures Same(v.items[i], u.items[i]) <==> NoNaN(v.items[i]) && NoNaN(u.items[i]) && Unsigned(v.items[i]) == Unsigned(u.items[i])
      {
        SameMeans(v.items[i], u.items[i]);
      }
    } else if v.Doc? && u.Doc? {
      UnsignedFields(v.fields, u.fields);
      forall k | k in v.fields && k in u.fields
        ensures Same(v.fields[k], u.fields[k]) <==>
          NoNaN(v.fields[k]) && NoNaN(u.fields[k]) && Unsigned(v.fields[k]) == Unsigned(u.fields[k])
      {
        SameMeans(v.fields[k], u.fields[k]);
      }
    }
  }

  /** Equality of two values: an integer next to a double as a double, and else the same value. */
  ghost predicate Alike(ops: Ops, v: Value, u: Value) {
    if Numeric(v) && Numeric(u) && v.Int? != u.Int? then
      var a, b := AsDouble(ops, v), AsDouble(ops, u);
      !IsNaN(a) && !IsNaN(b) && (a == b || (IsZero(a) && IsZero(b)))
    else NoNaN(v) && NoNaN(u) && Unsigned(v) == Unsigned(u)
  }

  lemma EqualIsAlike(ops: Ops, v: Value, u: Value)
    ensures ValuesEqual(ops, v, u) <==> Alike(ops, v, u)
  {
    hide Same, FloatEq, NoNaN, Unsigned, IsZero, IsNaN;
    SameMeans(v, u);
    if Numeric(v) && Numeric(u) && v.Int? != u.Int? {
      FloatEqMeans(AsDouble(ops, v), AsDouble(ops, u));
    }
  }

  /** == never fails, and != is its negation. */
  lemma EqMeans(ops: Ops, l: Expr, r: Expr, doc: Document, v: Value, u: Value)
    requires Operands(ops, l, r, doc, v, u)
    ensures Eval(ops, Binary(Eq, l, r), doc) == Ok(Bool(Alike(ops, v, u)))
    ensures Eval(ops, Binary(NotEq, l, r), doc) == Eval(ops, Not(Binary(Eq, l, r)), doc)
  {
    hide Eval, ValuesEqual, Alike, CompareValues;
    BinaryIs(ops, Eq, l, r, doc, v, u);
    BinaryIs(ops, NotEq, l, r, doc, v, u);
    EqualIsAlike(ops, v, u);
    NotIs(ops, Binary(Eq, l, r), doc);
  }

  // tests of a field

  lemma FieldMeans(ops: Ops, name: Text, v: Literal, doc: Document)
    ensures Eval(ops, Field(name), doc) == Ok(if name in doc then doc[name] else Null) && Eval(ops, Lit(v), doc) == Ok(v)
    ensures Eval(ops, Exists(name), doc) == Ok(Bool(name in doc))
    ensures Eval(ops, Missing(name), doc) == Eval(ops, Not(Exists(name)), doc)
  {
  }

  /** in holds iff == holds for one of the values, and not in iff for none. */
  lemma InMeans(ops: Ops, name: Text, values: seq<Literal>, doc: Document)
    ensures EvalBool(ops, In(name, values, false), doc) ==
      Ok(exists i :: 0 <= i < |values| && EvalBool(ops, Binary(Eq, Field(name), Lit(values[i])), doc) == Ok(true))
    ensures Eval(ops, In(name, values, true), doc) == Eval(ops, Not(In(name, values, false)), doc)
  {
    hide ValuesEqual, Same;
    forall i | 0 <= i < |values|
      ensures EvalBool(ops, Binary(Eq, Field(name), Lit(values[i])), doc) == Ok(ValuesEqual(ops, Get(doc, name), values[i]))
    {
      EqIs(ops, name, values[i], doc);
    }
  }

  lemma EqIs(ops: Ops, name: Text, v: Literal, doc: Document)
    ensures EvalBool(ops, Binary(Eq, Field(name), Lit(v)), doc) == Ok(ValuesEqual(ops, Get(doc, name), v))
  {
    hide ValuesEqual;
    FieldMeans(ops, name, v, doc);
    BinaryIs(ops, Eq, Field(name), Lit(v), doc, Get(doc, name), v);
  }

  /** The string is the pattern with something before and after it, nothing before a beginning and nothing after an end. */
  ghost predicate Surrounds(how: MatchOp, s: Text, before: Bytes, pattern: Text, after: Bytes) {
    s == before + pattern + after && (how.Starts? ==> before == []) && (how.Ends? ==> after == [])
  }

  lemma MatchMeans(ops: Ops, name: Text, how: MatchOp, pattern: Text, doc: Document)
    ensures Eval(ops, StringMatch(name, how, pattern), doc) ==
      Ok(Bool(name in doc && doc[name].Str? && exists before, after :: Surrounds(how, doc[name].s, before, pattern, after)))
  {
    if name in doc && doc[name].Str? {
      MatchIs(how, doc[name].s, pattern);
    }
  }

  lemma MatchIs(how: MatchOp, s: Text, pattern: Text)
    ensures Matches(how, s, pattern) <==> exists before, after :: Surrounds(how, s, before, pattern, after)
  {
    hide Surrounds, Matches;
    if Matches(how, s, pattern) {
      var before, after := Around(how, s, pattern);
    }
    if before, after :| Surrounds(how, s, before, pattern, after) {
      AroundMatches(how, s, before, pattern, after);
    }
  }

  lemma Around(how: MatchOp, s: Text, pattern: Text) returns (before: Bytes, after: Bytes)
    requires Matches(how, s, pattern)
    ensures Surrounds(how, s, before, pattern, after)
  {
    var i: nat;
    match how {
      case Contains => i :| 0 <= i <= |s| && StartsAt(s, i, pattern);
      case Starts => i := 0;
      case Ends => i := |s| - |pattern|;
    }
    before, after := s[..i], s[i + |pattern|..];
    assert s == before + s[i..i + |pattern|] + after;
  }

  lemma AroundMatches(how: MatchOp, s: Text, before: Bytes, pattern: Text, after: Bytes)
    requires Surrounds(how, s, before, pattern, after)
    ensures Matches(how, s, pattern)
  {
    var i := |before|;
    assert s[i..i + |pattern|] == pattern;
    assert StartsAt(s, i, pattern);
  }

  // literals

  /** The first of the expressions that fails, or their number. */
  ghost predicate FirstFailure(ops: Ops, items: seq<Expr>, doc: Document, k: nat) {
    && k <= |items| && (forall i :: 0 <= i < k ==> Eval(ops, items[i], doc).Ok?)
    && (k < |items| ==> Eval(ops, items[k], doc).Err?)
  }

  /** An array of the values of its items, or the first error among them. */
  lemma {:induction false} ItemsMean(ops: Ops, items: seq<Expr>, doc: Document) returns (k: nat)
    ensures FirstFailure(ops, items, doc, k)
    ensures var c := EvalItems(ops, items, doc);
      if k < |items| then c == Err(Eval(ops, items[k], doc).error)
      else c.Ok? && |c.value| == |items| && forall i :: 0 <= i < |items| ==> Eval(ops, items[i], doc) == Ok(c.value[i])
  {
    hide Eval;
    if |items| == 0 || Eval(ops, items[0], doc).Err? {
      k := 0;
    } else {
      k := ItemsMean(ops, items[1..], doc);
      assert forall i: nat :: 0 < i < |items| ==> items[i] == items[1..][i - 1];
      k := k + 1;
    }
  }

  lemma ArrayMeans(ops: Ops, items: seq<Expr>, doc: Document) returns (k: nat)
    ensures FirstFailure(ops, items, doc, k)
    ensures var c := Eval(ops, ArrayLit(items), doc);
      if k < |items| then c == Err(Eval(ops, items[k], doc).error)
      else
        && c.Ok? && c.value.Array? && |c.value.items| == |items|
        && forall i :: 0 <= i < |items| ==> Eval(ops, items[i], doc) == Ok(c.value.items[i])
  {
    hide FirstFailure, EvalItems;
    k := ItemsMean(ops, items, doc);
  }

  ghost function Exprs(fields: seq<NamedExpr>): seq<Expr> {
    seq(|fields|, i requires 0 <= i < |fields| => fields[i].expr)
  }

  /** Field j is the last one with its name. */
  ghost predicate LastOf(fields: seq<NamedExpr>, j: nat)
    requires j < |fields|
  {
    forall k :: j < k < |fields| ==> fields[k].name != fields[j].name
  }

  ghost predicate Names(fields: seq<NamedExpr>, name: Text) {
    exists j :: 0 <= j < |fields| && fields[j].name == name
  }

  /** Every name has the value of its last field. */
  ghost predicate HoldsLast(ops: Ops, fields: seq<NamedExpr>, doc: Document, d: Document) {
    && (forall name :: name in d <==> Names(fields, name))
    && (forall j: nat :: j < |fields| && LastOf(fields, j) ==>
          fields[j].name in d && Eval(ops, fields[j].expr, doc) == Ok(d[fields[j].name]))
  }

  lemma HoldsMore(ops: Ops, fields: seq<NamedExpr>, doc: Document, d: Document)
    requires |fields| > 0 && HoldsLast(ops, fields[..|fields| - 1], doc, d) && Eval(ops, fields[|fields| - 1].expr, doc).Ok?
    ensures HoldsLast(ops, fields, doc, d[fields[|fields| - 1].name := Eval(ops, fields[|fields| - 1].expr, doc).value])
  {
    hide Eval, LastOf, Names;
    var n := |fields| - 1;
    var e := d[fields[n].name := Eval(ops, fields[n].expr, doc).value];
    forall name
      ensures name in e <==> Names(fields, name)
    {
      NamesMore(fields, name);
    }
    forall j: nat | j < |fields| && LastOf(fields, j)
      ensures fields[j].name in e && Eval(ops, fields[j].expr, doc) == Ok(e[fields[j].name])
    {
      LastOfMore(fields, j);
      if j < n {
        assert fields[..n][j] == fields[j];
      }
    }
  }

  lemma NamesMore(fields: seq<NamedExpr>, name: Text)
    requires |fields| > 0
    ensures Names(fields, name) <==> Names(fields[..|fields| - 1], name) || fields[|fields| - 1].name == name
  {
    var n := |fields| - 1;
    if j :| 0 <= j < |fields| && fields[j].name == name {
      assert j < n ==> fields[..n][j] == fields[j];
    }
  }

  lemma LastOfMore(fields: seq<NamedExpr>, j: nat)
    requires j < |fields| && LastOf(fields, j)
    ensures j < |fields| - 1 ==> LastOf(fields[..|fields| - 1], j) && fields[j].name != fields[|fields| - 1].name
  {
  }

  lemma {:induction false} FieldsMean(ops: Ops, fields: seq<NamedExpr>, doc: Document) returns (k: nat)
    ensures FirstFailure(ops, Exprs(fields), doc, k)
    ensures var c := EvalFields(ops, fields, doc);
      if k < |fields| then c == Err(Eval(ops, fields[k].expr, doc).error) else c.Ok? && HoldsLast(ops, fields, doc, c.value)
  {
    hide Eval, HoldsLast;
    if |fields| == 0 {
      k := 0;
      NoneHeld(ops, doc);
    } else {
      var n := |fields| - 1;
      k := FieldsMean(ops, fields[..n], doc);
      assert Exprs(fields[..n]) == Exprs(fields)[..n];
      if k == n && Eval(ops, fields[n].expr, doc).Ok? {
        HoldsMore(ops, fields, doc, EvalFields(ops, fields[..n], doc).value);
        k := k + 1;
      }
    }
  }

  lemma NoneHeld(ops: Ops, doc: Document)
    ensures HoldsLast(ops, [], doc, map[])
  {
  }

  /** A document of the values of its fields, the last one of each name, or the first error among them. */
  lemma DocMeans(ops: Ops, fields: seq<NamedExpr>, doc: Document) returns (k: nat)
    ensures FirstFailure(ops, Exprs(fields), doc, k)
    ensures var c := Eval(ops, DocLit(fields), doc);
      if k < |fields| then c == Err(Eval(ops, fields[k].expr, doc).error)
      else c.Ok? && c.value.Doc? && HoldsLast(ops, fields, doc, c.value.fields)
  {
    hide FirstFailure, EvalFields, HoldsLast;
    k := FieldsMean(ops, fields, doc);
  }

  lemma AggregateFails(ops: Ops, agg: Text, arg: Option<Text>, doc: Document)
    ensures Eval(ops, AggCall(agg, arg), doc) == Err(Unsupported(agg))
  {
  }
}
