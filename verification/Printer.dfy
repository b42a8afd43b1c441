/** Expressions written as tokens, with parentheses where precedence asks for them; src/asl/parser.rs reads them back. */
module Printer {
  import opened Disk
  import opened Values
  import opened Evaluate
  import opened Parser

  // how tightly an expression binds

  const TERNARY: nat := 0
  const OR: nat := 1
  const AND: nat := 2
  const NOT: nat := 3
  const PREDICATE: nat := 4
  const SUM: nat := 5
  const PRODUCT: nat := 6
  const UNARY: nat := 7
  const PRIMARY: nat := 8

  function Binding(op: BinOp): nat {
    match op
    case Or => OR
    case And => AND
    case Add => SUM
    case Sub => SUM
    case Mul => PRODUCT
    case Div => PRODUCT
    case Mod => PRODUCT
    case _ => PREDICATE
  }

  function LevelOf(e: Expr): (m: nat)
    ensures m <= PRIMARY
  {
    match e
    case Ternary(_, _, _) => TERNARY
    case Binary(op, _, _) => Binding(op)
    case Not(_) => NOT
    case In(_, _, _) => PREDICATE
    case Exists(_) => PREDICATE
    case Missing(_) => PREDICATE
    case StringMatch(_, _, _) => PREDICATE
    case Neg(_) => UNARY
    case _ => PRIMARY
  }

  // the tokens

  function OpWord(op: BinOp): Word {
    match op
    case Eq => EqEq
    case NotEq => BangEq
    case Gt => TGt
    case GtEq => TGtEq
    case LtOp => TLt
    case LtEq => TLtEq
    case And => WAnd
    case Or => WOr
    case Add => Plus
    case Sub => Minus
    case Mul => Star
    case Div => Slash
    case Mod => Percent
  }

  function MatchWord(how: MatchOp): Word {
    match how
    case Contains => WContains
    case Starts => WStarts
    case Ends => WEnds
  }

  /** A value as one token. */
  function LitToken(v: Literal): Token {
    match v
    case Null => W(WNull)
    case Bool(b) => if b then W(WTrue) else W(WFalse)
    case Int(n) => IntLit(n)
    case Float(bits) => FloatLit(bits)
    case Str(s) => StringLit(s)
  }

  /** In a list of literals a number below zero is a minus and the number above it. */
  function PrintLit(v: Literal): Tokens {
    match v
    case Int(n) => if n < 0 && IsI64(0 - n) then [W(Minus), IntLit(0 - n)] else [IntLit(n)]
    case Float(bits) => if bits >= TWO63 then [W(Minus), FloatLit(bits - TWO63)] else [FloatLit(bits)]
    case _ => [LitToken(v)]
  }

  function LitsBehind(vs: seq<Literal>): Tokens {
    if |vs| == 0 then [] else [W(Comma)] + PrintLit(vs[0]) + LitsBehind(vs[1..])
  }

  function PrintLits(vs: seq<Literal>): Tokens {
    if |vs| == 0 then [] else PrintLit(vs[0]) + LitsBehind(vs[1..])
  }

  function Print(e: Expr): Tokens
    decreases e, 0
  {
    match e
    case Field(name) => [Ident(name)]
    case Lit(v) => [LitToken(v)]
    case Binary(op, l, r) =>
      var m := Binding(op);
      if m == PREDICATE then Wrapped(l, SUM) + [W(OpWord(op))] + Wrapped(r, SUM)
      else Wrapped(l, m) + [W(OpWord(op))] + Wrapped(r, m + 1)
    case Not(x) => [W(WNot)] + Wrapped(x, NOT)
    case Neg(x) => [W(Minus)] + Wrapped(x, UNARY)
    case In(name, values, negated) =>
      [Ident(name)] + (if negated then [W(WNot), W(WIn)] else [W(WIn)]) + [W(LBracket)] + PrintLits(values) + [W(RBracket)]
    case Exists(name) => [W(WExists), Ident(name)]
    case Missing(name) => [W(WMissing), Ident(name)]
    case StringMatch(name, how, pattern) => [Ident(name), W(MatchWord(how)), StringLit(pattern)]
    case Ternary(c, y, n) => [W(WIf)] + Print(c) + [W(WThen)] + Print(y) + [W(WElse)] + Print(n)
    case ArrayLit(items) => [W(LBracket)] + PrintItems(items) + [W(RBracket)]
    case DocLit(fields) => [W(LBrace)] + PrintFields(fields) + [W(RBrace)]
    case AggCall(_, _) => []
  }

  /** In a place that takes expressions that bind as tightly as m. */
  function Wrapped(e: Expr, m: nat): Tokens
    decreases e, 1
  {
    if LevelOf(e) >= m then Print(e) else [W(LParen)] + Print(e) + [W(RParen)]
  }

  function PrintItems(xs: seq<Expr>): Tokens
    decreases xs, 1
  {
    if |xs| == 0 then [] else Print(xs[0]) + ItemsBehind(xs[1..])
  }

  function ItemsBehind(xs: seq<Expr>): Tokens
    decreases xs, 0
  {
    if |xs| == 0 then [] else [W(Comma)] + Print(xs[0]) + ItemsBehind(xs[1..])
  }

  function PrintField(f: NamedExpr): Tokens
    decreases f, 0
  {
    [Ident(f.name), W(Colon)] + Print(f.expr)
  }

  function PrintFields(fs: seq<NamedExpr>): Tokens
    decreases fs, 1
  {
    if |fs| == 0 then [] else PrintField(fs[0]) + FieldsBehind(fs[1..])
  }

  function FieldsBehind(fs: seq<NamedExpr>): Tokens
    decreases fs, 0
  {
    if |fs| == 0 then [] else [W(Comma)] + PrintField(fs[0]) + FieldsBehind(fs[1..])
  }

  // what may follow and what comes first

  /** No operator that an expression of level m would go on with. */
  predicate Stops(m: nat, k: Tokens) {
    |k| > 0 && k[0].W? ==>
      && (m <= PRODUCT ==> k[0].w !in {Star, Slash, Percent})
      && (m <= SUM ==> k[0].w !in {Plus, Minus})
      && (m <= PREDICATE ==> k[0].w !in {EqEq, BangEq, TGt, TGtEq, TLt, TLtEq, WIn, WContains, WStarts, WEnds}
                             && !(k[0].w == WNot && Is(k[1..], WIn)))
      && (m <= AND ==> k[0].w != WAnd) && (m <= OR ==> k[0].w != WOr)
  }

  /** A first token that does not open an expression of a looser level than m. */
  predicate Opens(m: nat, t: Tokens) {
    && |t| > 0 && !t[0].Key? && (m > TERNARY ==> t[0] != W(WIf)) && (m > NOT ==> t[0] != W(WNot))
    && (m > PREDICATE ==> t[0] != W(WExists) && t[0] != W(WMissing)) && (m > UNARY ==> t[0] != W(Minus))
  }

  lemma {:induction false} PrintOpens(e: Expr, k: Tokens)
    requires NoAgg(e)
    ensures Opens(LevelOf(e), Print(e) + k)
    decreases e, 0
  {
    hide Print, Wrapped, NoAgg, Opens;
    if e.Binary? {
      var rest := BinaryTokens(e, k);
      WrappedOpens(e.left, LeftLevel(e.op), rest);
      OpensLooser(LevelOf(e), LeftLevel(e.op), Print(e) + k);
    } else {
      LeafOpens(e, k);
    }
  }

  lemma OpensLooser(m: nat, j: nat, t: Tokens)
    requires m <= j && Opens(j, t)
    ensures Opens(m, t)
  {
  }

  lemma LeafOpens(e: Expr, k: Tokens)
    requires NoAgg(e) && !e.Binary?
    ensures Opens(LevelOf(e), Print(e) + k)
  {
    hide Wrapped;
  }

  lemma {:induction false} WrappedOpens(e: Expr, m: nat, k: Tokens)
    requires NoAgg(e) && m <= PRIMARY
    ensures Opens(m, Wrapped(e, m) + k)
    decreases e, 1
  {
    hide Print;
    if LevelOf(e) >= m {
      PrintOpens(e, k);
    } else {
      assert (Wrapped(e, m) + k)[0] == W(LParen);
    }
  }

  // reading back, level by level

  /** The parser of a level. */
  function ReadAt(m: nat, t: Tokens): Parsed<Expr>
    requires m <= PRIMARY
  {
    if m == TERNARY then ParseExpr(t)
    else if m == OR then ParseLevel(LOr, t)
    else if m == AND then ParseLevel(LAnd, t)
    else if m == NOT then ParseNot(t)
    else if m == PREDICATE then ParsePredicate(t)
    else if m == SUM then ParseLevel(LAdd, t)
    else if m == PRODUCT then ParseLevel(LMul, t)
    else if m == UNARY then ParseUnary(t)
    else ParsePrimary(t)
  }

  lemma NoOperator(l: Level, m: nat, e: Expr, k: Tokens)
    requires Stops(m, k) && m == LoopLevel(l)
    ensures OpAt(l, k).None? && OpLoop(l, e, k) == Got(e, k)
  {
  }

  function LoopLevel(l: Level): nat {
    match l
    case LOr => OR
    case LAnd => AND
    case LAdd => SUM
    case LMul => PRODUCT
  }

  lemma OperandIs(l: Level, t: Tokens)
    ensures Operand(l, t) == ReadAt(LoopLevel(l) + 1, t)
  {
    hide ParseLevel, ParseNot, ParseUnary;
  }

  lemma LevelIs(l: Level, t: Tokens)
    ensures ReadAt(LoopLevel(l), t) == ParseLevel(l, t)
    ensures ParseLevel(l, t) == if Operand(l, t).Fail? then Fail else OpLoop(l, Operand(l, t).value, Operand(l, t).rest)
  {
    hide Operand, OpLoop;
  }

  lemma NoTail(e: Expr, k: Tokens)
    requires Stops(PREDICATE, k)
    ensures ParseTail(e, k) == Got(e, k)
  {
    hide ParseLevel, ParseIn, ParseMatch;
  }

  /** What a level reads, the next looser one reads as well. */
  lemma Climb(m: nat, t: Tokens, e: Expr, k: Tokens)
    requires 0 < m <= PRIMARY && ReadAt(m, t) == Got(e, k) && Opens(m, t) && Stops(m - 1, k)
    ensures ReadAt(m - 1, t) == Got(e, k)
  {
    hide ParseLevel, ParsePrimary, ParseTail, ParseTernary, OpLoop, Operand, Stops;
    if m == PRODUCT || m == UNARY || m == AND || m == NOT {
      var l := if m == UNARY then LMul else if m == PRODUCT then LAdd else if m == NOT then LAnd else LOr;
      OperandIs(l, t);
      LevelIs(l, t);
      NoOperator(l, m - 1, e, k);
    } else if m == SUM {
      NoTail(e, k);
    }
  }

  lemma {:induction false} ClimbTo(j: nat, m: nat, t: Tokens, e: Expr, k: Tokens)
    requires m <= j <= PRIMARY && ReadAt(j, t) == Got(e, k) && Opens(j, t) && Stops(m, k)
    ensures ReadAt(m, t) == Got(e, k)
    decreases j - m
  {
    hide ReadAt;
    if j == m {
    } else {
      Climb(j, t, e, k);
      ClimbTo(j - 1, m, t, e, k);
    }
  }

  lemma ParenIs(t: Tokens)
    ensures ParsePrimary([W(LParen)] + t) == ParseParen(t)
  {
    hide ParseParen, ParseItems, ParseFields, ParseTernary;
    assert ([W(LParen)] + t)[1..] == t;
  }

  /** An expression in a place that takes level m. */
  lemma {:induction false} WrapBack(e: Expr, m: nat, k: Tokens)
    requires NoAgg(e) && m <= PRIMARY && Stops(m, k)
    ensures ReadAt(m, Wrapped(e, m) + k) == Got(e, k)
    decreases e, 3
  {
    hide Print, ReadAt, NoAgg, Stops, LevelOf;
    if LevelOf(e) >= m {
      StopsTighter(m, LevelOf(e), k);
      PrintBack(e, k);
      PrintOpens(e, k);
      ClimbTo(LevelOf(e), m, Print(e) + k, e, k);
    } else {
      var rest := [W(RParen)] + k;
      CloserStops(LevelOf(e), RParen, k);
      CloserStops(0, RParen, k);
      PrintBack(e, rest);
      PrintOpens(e, rest);
      ClimbTo(LevelOf(e), 0, Print(e) + rest, e, rest);
      var t := [W(LParen)] + (Print(e) + rest);
      assert Wrapped(e, m) + k == t;
      InParens(e, Print(e) + rest, k);
      StopsTighter(m, PRIMARY, k);
      ClimbTo(PRIMARY, m, t, e, k);
    }
  }

  lemma InParens(e: Expr, t: Tokens, k: Tokens)
    requires ReadAt(0, t) == Got(e, [W(RParen)] + k)
    ensures ReadAt(PRIMARY, [W(LParen)] + t) == Got(e, k)
  {
    hide ParseExpr, ParsePrimary;
    ParenIs(t);
    assert ([W(RParen)] + k)[1..] == k;
  }

  lemma StopsTighter(m: nat, j: nat, k: Tokens)
    requires m <= j && Stops(m, k)
    ensures Stops(j, k)
  {
  }

  /** Words that end an expression at every level. */
  predicate Closer(w: Word) { w in {RParen, RBracket, RBrace, Comma, WThen, WElse, Colon, WAs} }

  lemma CloserStops(m: nat, w: Word, k: Tokens)
    requires Closer(w)
    ensures Stops(m, [W(w)] + k)
  {
  }

  /** The left side of an operator: its own operators of the same level are read by the same loop. */
  lemma {:induction false} SideBack(l: Level, e: Expr, k: Tokens)
    requires NoAgg(e) && Stops(LoopLevel(l) + 1, k)
    ensures ParseLevel(l, Wrapped(e, LoopLevel(l)) + k) == OpLoop(l, e, k)
    decreases e, 4
  {
    hide ReadAt, ParseLevel, OpLoop, Operand, Stops, OpWord, Wrapped, LevelOf, Binding;
    var m := LoopLevel(l);
    var t := Wrapped(e, m) + k;
    LevelIs(l, t);
    OperandIs(l, t);
    SidePrint(l, e);
    if LevelOf(e) == m {
      var op, left, right := e.op, e.left, e.right;
      var rest := [W(OpWord(op))] + (Wrapped(right, m + 1) + k);
      assert t == Wrapped(left, m) + rest;
      OperatorStops(op, Wrapped(right, m + 1) + k);
      SideBack(l, left, rest);
      WrapBack(right, m + 1, k);
      LoopStep(l, left, op, right, Wrapped(right, m + 1) + k, k);
    } else {
      WrapBack(e, m + 1, k);
    }
  }

  lemma SidePrint(l: Level, e: Expr)
    requires NoAgg(e)
    ensures var m := LoopLevel(l);
      if LevelOf(e) == m then
        && e.Binary? && NoAgg(e.left) && NoAgg(e.right) && Binding(e.op) == m && m != PREDICATE
        && Wrapped(e, m) == Wrapped(e.left, m) + [W(OpWord(e.op))] + Wrapped(e.right, m + 1)
      else Wrapped(e, m) == Wrapped(e, m + 1)
  {
    hide OpWord;
  }

  lemma OperatorStops(op: BinOp, k: Tokens)
    requires Binding(op) != PREDICATE
    ensures Stops(Binding(op) + 1, [W(OpWord(op))] + k)
  {
  }

  lemma LoopStep(l: Level, left: Expr, op: BinOp, right: Expr, t: Tokens, k: Tokens)
    requires Binding(op) == LoopLevel(l) && ReadAt(LoopLevel(l) + 1, t) == Got(right, k)
    ensures OpLoop(l, left, [W(OpWord(op))] + t) == OpLoop(l, Binary(op, left, right), k)
  {
    hide ReadAt, Operand;
    OperandIs(l, t);
    var u := [W(OpWord(op))] + t;
    assert u[1..] == t;
    assert OpAt(l, u) == Some(op);
  }

  /** Every expression the grammar can produce is read back from its tokens, whatever comes behind it. */
  lemma {:induction false} PrintBack(e: Expr, k: Tokens)
    requires NoAgg(e) && Stops(LevelOf(e), k)
    ensures ReadAt(LevelOf(e), Print(e) + k) == Got(e, k)
    decreases e, 2
  {
    match e
    case Binary(op, _, _) => if Binding(op) == PREDICATE { ComparisonBack(e, k); } else { OperatorBack(e, k); }
    case Not(x) => NotBack(x, k);
    case Neg(x) => NegBack(x, k);
    case In(name, values, negated) => InBack(name, values, negated, k);
    case Exists(name) => NamedBack(e, k);
    case Missing(name) => NamedBack(e, k);
    case StringMatch(name, how, pattern) => MatchBack(name, how, pattern, k);
    case Ternary(_, _, _) => TernaryBack(e, k);
    case ArrayLit(items) => ArrayBack(items, k);
    case DocLit(fields) => DocBack(fields, k);
    case _ => AtomBack(e, k);
  }

  lemma AtomBack(e: Expr, k: Tokens)
    requires e.Field? || e.Lit?
    ensures ReadAt(PRIMARY, Print(e) + k) == Got(e, k)
  {
    hide ParseParen, ParseItems, ParseFields, ParseTernary;
    var t := Print(e) + k;
    assert t[1..] == k && Atom(t[0]) == Some(e);
  }

  lemma {:induction false} OperatorBack(e: Expr, k: Tokens)
    requires e.Binary? && Binding(e.op) != PREDICATE && NoAgg(e) && Stops(LevelOf(e), k)
    ensures ReadAt(LevelOf(e), Print(e) + k) == Got(e, k)
    decreases e, 1
  {
    hide ReadAt, ParseLevel, OpLoop, Operand, Stops, OpWord, Print, Wrapped;
    var l := if e.op == Or then LOr else if e.op == And then LAnd else if e.op == Add || e.op == Sub then LAdd else LMul;
    var m := LoopLevel(l);
    assert m == Binding(e.op);
    var rest := [W(OpWord(e.op))] + (Wrapped(e.right, m + 1) + k);
    OperatorTokens(e, k);
    OperatorStops(e.op, Wrapped(e.right, m + 1) + k);
    SideBack(l, e.left, rest);
    StopsTighter(m, m + 1, k);
    WrapBack(e.right, m + 1, k);
    LoopStep(l, e.left, e.op, e.right, Wrapped(e.right, m + 1) + k, k);
    NoOperator(l, m, e, k);
    LevelIs(l, Print(e) + k);
  }

  lemma OperatorTokens(e: Expr, k: Tokens)
    requires e.Binary? && Binding(e.op) != PREDICATE
    ensures var m := Binding(e.op); Print(e) + k == Wrapped(e.left, m) + ([W(OpWord(e.op))] + (Wrapped(e.right, m + 1) + k))
  {
    hide Wrapped, OpWord, Binding;
  }

  lemma {:induction false} ComparisonBack(e: Expr, k: Tokens)
    requires e.Binary? && Binding(e.op) == PREDICATE && NoAgg(e) && Stops(PREDICATE, k)
    ensures ReadAt(PREDICATE, Print(e) + k) == Got(e, k)
    decreases e, 1
  {
    hide ReadAt, ParseLevel, Stops, OpWord, Opens, Wrapped;
    var rest := [W(OpWord(e.op))] + (Wrapped(e.right, SUM) + k);
    var t := Wrapped(e.left, SUM) + rest;
    assert Print(e) + k == t;
    ComparatorStops(e.op, Wrapped(e.right, SUM) + k);
    WrapBack(e.left, SUM, rest);
    WrappedOpens(e.left, SUM, rest);
    StopsTighter(PREDICATE, SUM, k);
    WrapBack(e.right, SUM, k);
    ComparisonIs(t, e, Wrapped(e.right, SUM) + k, k);
  }

  lemma ComparatorStops(op: BinOp, k: Tokens)
    requires Binding(op) == PREDICATE
    ensures Stops(SUM, [W(OpWord(op))] + k) && CmpAt([W(OpWord(op))] + k) == Some(op)
  {
  }

  lemma ComparisonIs(t: Tokens, e: Expr, u: Tokens, k: Tokens)
    requires e.Binary? && Binding(e.op) == PREDICATE && Opens(SUM, t)
    requires ReadAt(SUM, t) == Got(e.left, [W(OpWord(e.op))] + u) && ReadAt(SUM, u) == Got(e.right, k)
    ensures ReadAt(PREDICATE, t) == Got(e, k)
  {
    hide ParseLevel, ParsePredicate, ParseTail, OpWord;
    PredicateIs(t);
    ComparatorStops(e.op, u);
    TailCompares(e.left, e.op, [W(OpWord(e.op))] + u);
    assert ([W(OpWord(e.op))] + u)[1..] == u;
  }

  lemma PredicateIs(t: Tokens)
    requires Opens(SUM, t)
    ensures ReadAt(PREDICATE, t) == ParsePredicate(t) && ReadAt(SUM, t) == ParseLevel(LAdd, t)
    ensures var x := ParseLevel(LAdd, t); ParsePredicate(t) == if x.Fail? then Fail else ParseTail(x.value, x.rest)
  {
    hide ParseLevel, ParseTail;
  }

  lemma TailCompares(lhs: Expr, op: BinOp, t: Tokens)
    requires CmpAt(t) == Some(op) && |t| > 0
    ensures var y := ParseLevel(LAdd, t[1..]); ParseTail(lhs, t) == if y.Fail? then Fail else Got(Binary(op, lhs, y.value), y.rest)
  {
    hide ParseLevel, ParseIn, ParseMatch;
  }

  lemma TailMatches(lhs: Expr, how: MatchOp, t: Tokens)
    requires |t| > 0 && t[0] == W(MatchWord(how))
    ensures ParseTail(lhs, t) == ParseMatch(lhs, how, t[1..])
  {
    hide ParseLevel, ParseIn, ParseMatch;
  }

  lemma TailHasIn(lhs: Expr, negated: bool, list: Tokens)
    ensures ParseTail(lhs, (if negated then [W(WNot), W(WIn)] else [W(WIn)]) + list) == ParseIn(lhs, negated, list)
  {
    hide ParseLevel, ParseIn, ParseMatch;
    var t := (if negated then [W(WNot), W(WIn)] else [W(WIn)]) + list;
    if negated {
      assert t[1..] == [W(WIn)] + list && t[2..] == list;
    } else {
      assert t[1..] == list;
    }
  }

  lemma {:induction false} NotBack(x: Expr, k: Tokens)
    requires NoAgg(x) && Stops(NOT, k)
    ensures ReadAt(NOT, Print(Not(x)) + k) == Got(Not(x), k)
    decreases x, 5
  {
    hide Stops, ParsePredicate, Wrapped;
    WrapBack(x, NOT, k);
    var t := Print(Not(x)) + k;
    assert t[1..] == Wrapped(x, NOT) + k;
  }

  lemma {:induction false} NegBack(x: Expr, k: Tokens)
    requires NoAgg(x) && Stops(UNARY, k)
    ensures ReadAt(UNARY, Print(Neg(x)) + k) == Got(Neg(x), k)
    decreases x, 5
  {
    hide Stops, ParsePrimary, Wrapped;
    WrapBack(x, UNARY, k);
    var t := Print(Neg(x)) + k;
    assert t[1..] == Wrapped(x, UNARY) + k;
  }

  lemma NamedBack(e: Expr, k: Tokens)
    requires e.Exists? || e.Missing?
    ensures ReadAt(PREDICATE, Print(e) + k) == Got(e, k)
  {
    hide ParseLevel;
    var t := Print(e) + k;
    assert t[1..] == [Ident(e.name)] + k && t[1..][1..] == k;
  }

  /** A bare field in front of a membership or a string match. */
  lemma FieldFirst(name: Text, k: Tokens)
    requires Stops(SUM, k)
    ensures ParseLevel(LAdd, [Ident(name)] + k) == Got(Field(name), k)
  {
    hide ParseLevel, Stops;
    AtomBack(Field(name), k);
    ClimbTo(PRIMARY, SUM, [Ident(name)] + k, Field(name), k);
  }

  lemma MatchBack(name: Text, how: MatchOp, pattern: Text, k: Tokens)
    ensures ReadAt(PREDICATE, Print(StringMatch(name, how, pattern)) + k) == Got(StringMatch(name, how, pattern), k)
  {
    hide ParseLevel, ParsePredicate, ParseTail, ReadAt;
    var rest := [W(MatchWord(how)), StringLit(pattern)] + k;
    var t := [Ident(name)] + rest;
    assert Print(StringMatch(name, how, pattern)) + k == t;
    FieldFirst(name, rest);
    PredicateIs(t);
    TailMatches(Field(name), how, rest);
    assert rest[1..] == [StringLit(pattern)] + k && rest[1..][1..] == k;
  }

  // lists of literals

  lemma LitBack(v: Literal, k: Tokens)
    ensures LitValue(PrintLit(v) + k) == Got(v, k)
  {
    var t := PrintLit(v) + k;
    if |PrintLit(v)| == 2 {
      assert t[2..] == k;
    } else {
      assert t[1..] == k;
    }
  }

  lemma {:induction false} LitsBack(acc: seq<Literal>, vs: seq<Literal>, k: Tokens)
    ensures LitMore(acc, LitsBehind(vs) + ([W(RBracket)] + k)) == Got(acc + vs, k)
    decreases |vs|
  {
    hide PrintLit, LitValue;
    var rest := [W(RBracket)] + k;
    if |vs| == 0 {
      assert LitsBehind(vs) + rest == rest && rest[1..] == k && acc + vs == acc;
    } else {
      var t := LitsBehind(vs) + rest;
      var more := LitsBehind(vs[1..]) + rest;
      assert t == [W(Comma)] + (PrintLit(vs[0]) + more);
      assert t[1..] == PrintLit(vs[0]) + more;
      LitBack(vs[0], more);
      LitsBack(acc + [vs[0]], vs[1..], k);
      assert acc + [vs[0]] + vs[1..] == acc + vs;
    }
  }

  lemma LitArrayBack(vs: seq<Literal>, k: Tokens)
    ensures LitArray([W(LBracket)] + PrintLits(vs) + [W(RBracket)] + k) == Got(vs, k)
  {
    hide PrintLit, LitValue, LitMore;
    var rest := [W(RBracket)] + k;
    var t := [W(LBracket)] + PrintLits(vs) + [W(RBracket)] + k;
    assert t == [W(LBracket)] + (PrintLits(vs) + rest);
    assert t[1..] == PrintLits(vs) + rest;
    if |vs| == 0 {
      assert t[1..] == rest && t[2..] == k;
    } else {
      var more := LitsBehind(vs[1..]) + rest;
      assert t[1..] == PrintLit(vs[0]) + more;
      LitOpens(vs[0], more);
      LitBack(vs[0], more);
      LitsBack([vs[0]], vs[1..], k);
      assert [vs[0]] + vs[1..] == vs;
    }
  }

  lemma LitOpens(v: Literal, k: Tokens)
    ensures !Is(PrintLit(v) + k, RBracket)
  {
  }

  lemma InBack(name: Text, values: seq<Literal>, negated: bool, k: Tokens)
    ensures ReadAt(PREDICATE, Print(In(name, values, negated)) + k) == Got(In(name, values, negated), k)
  {
    hide ParseLevel, ParsePredicate, ParseTail, LitArray, PrintLits, ReadAt;
    var list := [W(LBracket)] + PrintLits(values) + [W(RBracket)] + k;
    var rest := (if negated then [W(WNot), W(WIn)] else [W(WIn)]) + list;
    var t := [Ident(name)] + rest;
    assert Print(In(name, values, negated)) + k == t;
    InStops(negated, list);
    FieldFirst(name, rest);
    PredicateIs(t);
    TailHasIn(Field(name), negated, list);
    LitArrayBack(values, k);
  }

  lemma InStops(negated: bool, k: Tokens)
    ensures Stops(SUM, (if negated then [W(WNot), W(WIn)] else [W(WIn)]) + k)
  {
  }

  // nested expressions

  /** An expression on its own, in front of anything that ends it. */
  lemma {:induction false} ExprBack(e: Expr, k: Tokens)
    requires NoAgg(e) && Stops(0, k)
    ensures ParseExpr(Print(e) + k) == Got(e, k)
    decreases e, 6
  {
    hide ParseExpr, Print, Stops;
    WrapBack(e, 0, k);
  }

  lemma {:induction false} TernaryBack(e: Expr, k: Tokens)
    requires e.Ternary? && NoAgg(e) && Stops(0, k)
    ensures ReadAt(0, Print(e) + k) == Got(e, k)
    decreases e, 1
  {
    hide ParseExpr, Stops, ParseLevel;
    var third := Print(e.no) + k;
    var second := Print(e.yes) + ([W(WElse)] + third);
    var first := Print(e.cond) + ([W(WThen)] + second);
    var t := [W(WIf)] + first;
    assert Print(e) + k == t;
    CloserStops(0, WThen, second);
    ExprBack(e.cond, [W(WThen)] + second);
    CloserStops(0, WElse, third);
    ExprBack(e.yes, [W(WElse)] + third);
    ExprBack(e.no, k);
    assert t[1..] == first && ([W(WThen)] + second)[1..] == second && ([W(WElse)] + third)[1..] == third;
    TernaryIs(t);
  }

  lemma TernaryIs(t: Tokens)
    requires Is(t, WIf)
    ensures ParseExpr(t) == ParseTernary(t[1..])
  {
    hide ParseTernary;
  }

  lemma {:induction false} ItemsBack(acc: seq<Expr>, xs: seq<Expr>, k: Tokens)
    requires forall i :: 0 <= i < |xs| ==> NoAgg(xs[i])
    ensures MoreItems(acc, ItemsBehind(xs) + ([W(RBracket)] + k)) == Got(acc + xs, k)
    decreases xs, 0
  {
    hide Print, ParseExpr, NoAgg, Stops, ItemsBehind;
    var rest := [W(RBracket)] + k;
    if |xs| == 0 {
      NoItems();
      assert ItemsBehind(xs) + rest == rest && rest[1..] == k && acc + xs == acc;
    } else {
      var more := ItemsBehind(xs[1..]) + rest;
      CloserStops(0, RBracket, k);
      ListStops(xs[1..], rest);
      ExprBack(xs[0], more);
      NextItem(acc, xs, rest);
      ItemsBack(acc + [xs[0]], xs[1..], k);
      assert acc + [xs[0]] + xs[1..] == acc + xs;
    }
  }

  lemma NoItems()
    ensures ItemsBehind([]) == []
  {
  }

  lemma NextItem(acc: seq<Expr>, xs: seq<Expr>, rest: Tokens)
    requires |xs| > 0 && var more := ItemsBehind(xs[1..]) + rest; ParseExpr(Print(xs[0]) + more) == Got(xs[0], more)
    ensures MoreItems(acc, ItemsBehind(xs) + rest) == MoreItems(acc + [xs[0]], ItemsBehind(xs[1..]) + rest)
  {
    hide Print, ParseExpr, NoAgg;
    var t, more := ItemsBehind(xs) + rest, ItemsBehind(xs[1..]) + rest;
    assert t == [W(Comma)] + (Print(xs[0]) + more);
    assert t[1..] == Print(xs[0]) + more;
  }

  lemma ListStops(xs: seq<Expr>, rest: Tokens)
    requires Stops(0, rest)
    ensures Stops(0, ItemsBehind(xs) + rest)
  {
    hide Print;
    if |xs| == 0 {
      assert ItemsBehind(xs) + rest == rest;
    } else {
      CloserStops(0, Comma, Print(xs[0]) + ItemsBehind(xs[1..]) + rest);
    }
  }

  lemma {:induction false} ArrayBack(items: seq<Expr>, k: Tokens)
    requires forall i :: 0 <= i < |items| ==> NoAgg(items[i])
    ensures ReadAt(PRIMARY, Print(ArrayLit(items)) + k) == Got(ArrayLit(items), k)
    decreases items, 2
  {
    hide NoAgg, ParseItems, ParsePrimary, PrintItems;
    var u := PrintItems(items) + ([W(RBracket)] + k);
    assert Print(ArrayLit(items)) + k == [W(LBracket)] + u;
    ArrayIs(u);
    ItemListBack(items, k);
  }

  lemma ArrayIs(u: Tokens)
    ensures var xs := ParseItems(u); ParsePrimary([W(LBracket)] + u) == if xs.Fail? then Fail else Got(ArrayLit(xs.value), xs.rest)
  {
    hide ParseItems, ParseFields, ParseParen, ParseTernary;
    assert ([W(LBracket)] + u)[1..] == u;
  }

  lemma {:induction false} ItemListBack(items: seq<Expr>, k: Tokens)
    requires forall i :: 0 <= i < |items| ==> NoAgg(items[i])
    ensures ParseItems(PrintItems(items) + ([W(RBracket)] + k)) == Got(items, k)
    decreases items, 1
  {
    hide ParseExpr, NoAgg, Stops, MoreItems, Print, ItemsBehind;
    var rest := [W(RBracket)] + k;
    if |items| == 0 {
      assert PrintItems(items) + rest == rest && rest[1..] == k;
    } else {
      var more := ItemsBehind(items[1..]) + rest;
      var t := Print(items[0]) + more;
      assert PrintItems(items) + rest == t;
      CloserStops(0, RBracket, k);
      ListStops(items[1..], rest);
      ExprBack(items[0], more);
      NotCloser(items[0], more);
      ItemsBack([items[0]], items[1..], k);
      assert [items[0]] + items[1..] == items;
    }
  }

  /** No expression begins with a closing bracket. */
  lemma {:induction false} NotCloser(e: Expr, k: Tokens)
    requires NoAgg(e)
    ensures !Is(Print(e) + k, RBracket) && !Is(Print(e) + k, RBrace) && |Print(e)| > 0
    decreases e
  {
    hide Print, Wrapped, NoAgg;
    if e.Binary? {
      var rest := BinaryTokens(e, k);
      NotCloser(e.left, rest);
      WrappedNotCloser(e.left, LeftLevel(e.op), rest);
    } else {
      LeafNotCloser(e, k);
    }
  }

  lemma WrappedNotCloser(e: Expr, m: nat, k: Tokens)
    requires !Is(Print(e) + k, RBracket) && !Is(Print(e) + k, RBrace) && |Print(e)| > 0
    ensures !Is(Wrapped(e, m) + k, RBracket) && !Is(Wrapped(e, m) + k, RBrace)
  {
    hide Print;
    assert (Wrapped(e, m) + k)[0] == if LevelOf(e) >= m then (Print(e) + k)[0] else W(LParen);
  }

  lemma LeafNotCloser(e: Expr, k: Tokens)
    requires NoAgg(e) && !e.Binary?
    ensures !Is(Print(e) + k, RBracket) && !Is(Print(e) + k, RBrace) && |Print(e)| > 0
  {
    hide Wrapped;
  }

  function LeftLevel(op: BinOp): nat { if Binding(op) == PREDICATE then SUM else Binding(op) }

  /** What follows the left operand. */
  lemma BinaryTokens(e: Expr, k: Tokens) returns (rest: Tokens)
    requires e.Binary? && NoAgg(e)
    ensures NoAgg(e.left) && |Print(e)| > 0 && Print(e) + k == Wrapped(e.left, LeftLevel(e.op)) + rest
    ensures |rest| > 0 && rest[0].W? && rest[0].w !in {Comma, WAs, Pipe}
  {
    hide Wrapped;
    var op := e.op;
    rest := [W(OpWord(op))] + Wrapped(e.right, if Binding(op) == PREDICATE then SUM else Binding(op) + 1) + k;
  }

  lemma {:induction false} FieldBack(f: NamedExpr, k: Tokens)
    requires NoAgg(f.expr) && Stops(0, k)
    ensures ParseField(PrintField(f) + k) == Got(f, k)
    decreases f, 7
  {
    hide Print, ParseExpr, NoAgg, Stops;
    var t := PrintField(f) + k;
    assert t[1..] == [W(Colon)] + (Print(f.expr) + k);
    assert t[1..][1..] == Print(f.expr) + k;
    ExprBack(f.expr, k);
  }

  lemma FieldListStops(fs: seq<NamedExpr>, rest: Tokens)
    requires Stops(0, rest)
    ensures Stops(0, FieldsBehind(fs) + rest)
  {
    hide Print;
    if |fs| == 0 {
      assert FieldsBehind(fs) + rest == rest;
    } else {
      CloserStops(0, Comma, PrintField(fs[0]) + FieldsBehind(fs[1..]) + rest);
    }
  }

  lemma {:induction false} FieldsBack(acc: seq<NamedExpr>, fs: seq<NamedExpr>, k: Tokens)
    requires forall i :: 0 <= i < |fs| ==> NoAgg(fs[i].expr)
    ensures MoreFields(acc, FieldsBehind(fs) + ([W(RBrace)] + k)) == Got(acc + fs, k)
    decreases fs, 0
  {
    hide PrintField, ParseField, NoAgg, Stops, FieldsBehind;
    var rest := [W(RBrace)] + k;
    if |fs| == 0 {
      NoFields();
      assert FieldsBehind(fs) + rest == rest && rest[1..] == k && acc + fs == acc;
    } else {
      var more := FieldsBehind(fs[1..]) + rest;
      CloserStops(0, RBrace, k);
      FieldListStops(fs[1..], rest);
      FieldBack(fs[0], more);
      NextField(acc, fs, rest);
      FieldsBack(acc + [fs[0]], fs[1..], k);
      assert acc + [fs[0]] + fs[1..] == acc + fs;
    }
  }

  lemma NoFields()
    ensures FieldsBehind([]) == []
  {
  }

  lemma NextField(acc: seq<NamedExpr>, fs: seq<NamedExpr>, rest: Tokens)
    requires |fs| > 0 && var more := FieldsBehind(fs[1..]) + rest; ParseField(PrintField(fs[0]) + more) == Got(fs[0], more)
    ensures MoreFields(acc, FieldsBehind(fs) + rest) == MoreFields(acc + [fs[0]], FieldsBehind(fs[1..]) + rest)
  {
    hide PrintField, ParseField, NoAgg;
    var t, more := FieldsBehind(fs) + rest, FieldsBehind(fs[1..]) + rest;
    assert t == [W(Comma)] + (PrintField(fs[0]) + more);
    assert t[1..] == PrintField(fs[0]) + more;
  }

  lemma {:induction false} DocBack(fields: seq<NamedExpr>, k: Tokens)
    requires forall i :: 0 <= i < |fields| ==> NoAgg(fields[i].expr)
    ensures ReadAt(PRIMARY, Print(DocLit(fields)) + k) == Got(DocLit(fields), k)
    decreases fields, 2
  {
    hide NoAgg, ParseFields, ParsePrimary, PrintFields;
    var u := PrintFields(fields) + ([W(RBrace)] + k);
    assert Print(DocLit(fields)) + k == [W(LBrace)] + u;
    DocIs(u);
    FieldListBack(fields, k);
  }

  lemma DocIs(u: Tokens)
    ensures var fs := ParseFields(u); ParsePrimary([W(LBrace)] + u) == if fs.Fail? then Fail else Got(DocLit(fs.value), fs.rest)
  {
    hide ParseItems, ParseFields, ParseParen, ParseTernary;
    assert ([W(LBrace)] + u)[1..] == u;
  }

  lemma {:induction false} FieldListBack(fields: seq<NamedExpr>, k: Tokens)
    requires forall i :: 0 <= i < |fields| ==> NoAgg(fields[i].expr)
    ensures ParseFields(PrintFields(fields) + ([W(RBrace)] + k)) == Got(fields, k)
    decreases fields, 1
  {
    hide ParseField, NoAgg, Stops, MoreFields, Print, FieldsBehind;
    var rest := [W(RBrace)] + k;
    if |fields| == 0 {
      assert PrintFields(fields) + rest == rest && rest[1..] == k;
    } else {
      var more := FieldsBehind(fields[1..]) + rest;
      var t := PrintField(fields[0]) + more;
      assert PrintFields(fields) + rest == t;
      CloserStops(0, RBrace, k);
      FieldListStops(fields[1..], rest);
      FieldBack(fields[0], more);
      FieldsBack([fields[0]], fields[1..], k);
      assert [fields[0]] + fields[1..] == fields;
    }
  }
}
