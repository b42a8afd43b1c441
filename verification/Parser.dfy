/** src/asl/parser.rs: recursive descent over a token list; what is left of the list stands for the cursor. */
module Parser {
  import opened Disk
  import opened Values
  import opened Evaluate

  /** The keywords that open a stage. */
  datatype Keyword =
    | KFrom | KWhere | KSelect | KDrop | KOrder | KLimit | KOffset | KGroup | KJoin | KInsert | KUpdate | KUpsert | KDelete

  /** All other tokens without a payload. */
  datatype Word =
    | WOn | WSet | WAs | WIn | WExists | WMissing | WContains | WStarts | WEnds | WUse | WIndex | WAsc | WDesc
    | WAnd | WOr | WNot | WIf | WThen | WElse | WTrue | WFalse | WNull | WOther
    | EqEq | BangEq | TGt | TGtEq | TLt | TLtEq | Plus | Minus | Star | Slash | Percent | Pipe | Assign
    | LBrace | RBrace | LBracket | RBracket | LParen | RParen | Comma | Colon | Dot

  datatype Token = Key(k: Keyword) | W(w: Word) | IntLit(n: i64) | FloatLit(bits: u64) | StringLit(s: Text) | Ident(name: Text)

  type Tokens = seq<Token>

  /** What a parser read, and the tokens after it. */
  datatype Parsed<+T> = Got(value: T, rest: Tokens) | Fail

  predicate Is(t: Tokens, w: Word) { |t| > 0 && t[0] == W(w) }

  function Name(t: Tokens): Parsed<Text> { if |t| > 0 && t[0].Ident? then Got(t[0].name, t[1..]) else Fail }

  function Quoted(t: Tokens): Parsed<Text> { if |t| > 0 && t[0].StringLit? then Got(t[0].s, t[1..]) else Fail }

  // literals of an in-list

  function Negated(bits: u64): u64 { if bits >= TWO63 then bits - TWO63 else bits + TWO63 }

  function LitValue(t: Tokens): (r: Parsed<Literal>)
    ensures r.Got? ==> |r.rest| < |t|
  {
    if Is(t, Minus) then
      if |t| < 2 then Fail
      else if t[1].IntLit? && IsI64(0 - t[1].n) then Got(Int(0 - t[1].n), t[2..])
      else if t[1].FloatLit? then Got(Float(Negated(t[1].bits)), t[2..])
      else Fail
    else if |t| == 0 then Fail
    else match t[0]
      case IntLit(n) => Got(Int(n), t[1..])
      case FloatLit(bits) => Got(Float(bits), t[1..])
      case StringLit(s) => Got(Str(s), t[1..])
      case W(WTrue) => Got(Bool(true), t[1..])
      case W(WFalse) => Got(Bool(false), t[1..])
      case W(WNull) => Got(Null, t[1..])
      case _ => Fail
  }

  function LitMore(vs: seq<Literal>, t: Tokens): (r: Parsed<seq<Literal>>)
    ensures r.Got? ==> |r.rest| < |t|
    decreases |t|
  {
    if Is(t, Comma) then
      var v := LitValue(t[1..]);
      if v.Fail? then Fail else LitMore(vs + [v.value], v.rest)
    else if Is(t, RBracket) then Got(vs, t[1..])
    else Fail
  }

  function LitArray(t: Tokens): (r: Parsed<seq<Literal>>)
    ensures r.Got? ==> |r.rest| < |t|
  {
    if !Is(t, LBracket) then Fail
    else if Is(t[1..], RBracket) then Got([], t[2..])
    else
      var v := LitValue(t[1..]);
      if v.Fail? then Fail else LitMore([v.value], v.rest)
  }

  // expressions, loosest first

  datatype Level = LOr | LAnd | LAdd | LMul

  function Rank(l: Level): nat { match l case LOr => 16 case LAnd => 14 case LAdd => 10 case LMul => 8 }

  function OpAt(l: Level, t: Tokens): Option<BinOp> {
    if |t| == 0 || !t[0].W? then None
    else match (l, t[0].w)
      case (LOr, WOr) => Some(Or)
      case (LAnd, WAnd) => Some(And)
      case (LAdd, Plus) => Some(Add)
      case (LAdd, Minus) => Some(Sub)
      case (LMul, Star) => Some(Mul)
      case (LMul, Slash) => Some(Div)
      case (LMul, Percent) => Some(Mod)
      case _ => None
  }

  function CmpAt(t: Tokens): Option<BinOp> {
    if |t| == 0 || !t[0].W? then None
    else match t[0].w
      case EqEq => Some(Eq)
      case BangEq => Some(NotEq)
      case TGt => Some(Gt)
      case TGtEq => Some(GtEq)
      case TLt => Some(LtOp)
      case TLtEq => Some(LtEq)
      case _ => None
  }

  function MatchAt(t: Tokens): Option<MatchOp> {
    if |t| == 0 || !t[0].W? then None
    else match t[0].w
      case WContains => Some(Contains)
      case WStarts => Some(Starts)
      case WEnds => Some(Ends)
      case _ => None
  }

  /** No aggregate anywhere: those are read by select alone. */
  predicate NoAgg(e: Expr) {
    match e
    case Binary(_, l, r) => NoAgg(l) && NoAgg(r)
    case Not(x) => NoAgg(x)
    case Neg(x) => NoAgg(x)
    case Ternary(c, y, n) => NoAgg(c) && NoAgg(y) && NoAgg(n)
    case ArrayLit(items) => forall i :: 0 <= i < |items| ==> NoAgg(items[i])
    case DocLit(fields) => forall i :: 0 <= i < |fields| ==> NoAgg(fields[i].expr)
    case AggCall(_, _) => false
    case _ => true
  }

  function ParseExpr(t: Tokens): (r: Parsed<Expr>)
    ensures r.Got? ==> |r.rest| < |t| && NoAgg(r.value)
    decreases |t|, 18
  {
    if Is(t, WIf) then ParseTernary(t[1..]) else ParseLevel(LOr, t)
  }

  /** After the if. */
  function ParseTernary(t: Tokens): (r: Parsed<Expr>)
    ensures r.Got? ==> |r.rest| < |t| && NoAgg(r.value)
    decreases |t|, 19
  {
    var c := ParseExpr(t);
    if c.Fail? || !Is(c.rest, WThen) then Fail else
      var y := ParseExpr(c.rest[1..]);
      if y.Fail? || !Is(y.rest, WElse) then Fail else
        var n := ParseExpr(y.rest[1..]);
        if n.Fail? then Fail else Got(Ternary(c.value, y.value, n.value), n.rest)
  }

  function ParseLevel(l: Level, t: Tokens): (r: Parsed<Expr>)
    ensures r.Got? ==> |r.rest| < |t| && NoAgg(r.value)
    decreases |t|, Rank(l) + 1
  {
    var x := Operand(l, t);
    if x.Fail? then Fail else OpLoop(l, x.value, x.rest)
  }

  function Operand(l: Level, t: Tokens): (r: Parsed<Expr>)
    ensures r.Got? ==> |r.rest| < |t| && NoAgg(r.value)
    decreases |t|, Rank(l)
  {
    match l
    case LOr => ParseLevel(LAnd, t)
    case LAnd => ParseNot(t)
    case LAdd => ParseLevel(LMul, t)
    case LMul => ParseUnary(t)
  }

  function OpLoop(l: Level, lhs: Expr, t: Tokens): (r: Parsed<Expr>)
    ensures r.Got? ==> |r.rest| <= |t| && (NoAgg(lhs) ==> NoAgg(r.value))
    decreases |t|, 0
  {
    var op := OpAt(l, t);
    if op.None? then Got(lhs, t) else
      var y := Operand(l, t[1..]);
      if y.Fail? then Fail else OpLoop(l, Binary(op.value, lhs, y.value), y.rest)
  }

  function ParseNot(t: Tokens): (r: Parsed<Expr>)
    ensures r.Got? ==> |r.rest| < |t| && NoAgg(r.value)
    decreases |t|, 13
  {
    if Is(t, WNot) then
      var x := ParseNot(t[1..]);
      if x.Fail? then Fail else Got(Not(x.value), x.rest)
    else ParsePredicate(t)
  }

  function ParsePredicate(t: Tokens): (r: Parsed<Expr>)
    ensures r.Got? ==> |r.rest| < |t| && NoAgg(r.value)
    decreases |t|, 12
  {
    if Is(t, WExists) then
      var n := Name(t[1..]);
      if n.Fail? then Fail else Got(Exists(n.value), n.rest)
    else if Is(t, WMissing) then
      var n := Name(t[1..]);
      if n.Fail? then Fail else Got(Missing(n.value), n.rest)
    else
      var x := ParseLevel(LAdd, t);
      if x.Fail? then Fail else ParseTail(x.value, x.rest)
  }

  /** A comparison, membership or string match behind an operand, or nothing. */
  function ParseTail(lhs: Expr, t: Tokens): (r: Parsed<Expr>)
    ensures r.Got? ==> |r.rest| <= |t| && (NoAgg(lhs) ==> NoAgg(r.value))
    decreases |t|, 0
  {
    if CmpAt(t).Some? then
      var y := ParseLevel(LAdd, t[1..]);
      if y.Fail? then Fail else Got(Binary(CmpAt(t).value, lhs, y.value), y.rest)
    else if Is(t, WIn) then ParseIn(lhs, false, t[1..])
    else if Is(t, WNot) && Is(t[1..], WIn) then ParseIn(lhs, true, t[2..])
    else if MatchAt(t).Some? then ParseMatch(lhs, MatchAt(t).value, t[1..])
    else Got(lhs, t)
  }

  /** Membership and string matches need a bare field on their left. */
  function ParseIn(lhs: Expr, negated: bool, t: Tokens): (r: Parsed<Expr>)
    ensures r.Got? ==> |r.rest| <= |t| && NoAgg(r.value)
  {
    var vs := LitArray(t);
    if !lhs.Field? || vs.Fail? then Fail else Got(In(lhs.name, vs.value, negated), vs.rest)
  }

  function ParseMatch(lhs: Expr, how: MatchOp, t: Tokens): (r: Parsed<Expr>)
    ensures r.Got? ==> |r.rest| <= |t| && NoAgg(r.value)
  {
    var p := Quoted(t);
    if !lhs.Field? || p.Fail? then Fail else Got(StringMatch(lhs.name, how, p.value), p.rest)
  }

  function ParseUnary(t: Tokens): (r: Parsed<Expr>)
    ensures r.Got? ==> |r.rest| < |t| && NoAgg(r.value)
    decreases |t|, 7
  {
    if Is(t, Minus) then
      var x := ParseUnary(t[1..]);
      if x.Fail? then Fail else Got(Neg(x.value), x.rest)
    else ParsePrimary(t)
  }

  function ParsePrimary(t: Tokens): (r: Parsed<Expr>)
    ensures r.Got? ==> |r.rest| < |t| && NoAgg(r.value)
    decreases |t|, 6
  {
    if |t| == 0 then Fail
    else if Atom(t[0]).Some? then Got(Atom(t[0]).value, t[1..])
    else if Is(t, LParen) then ParseParen(t[1..])
    else if Is(t, LBracket) then
      var xs := ParseItems(t[1..]);
      if xs.Fail? then Fail else Got(ArrayLit(xs.value), xs.rest)
    else if Is(t, LBrace) then
      var fs := ParseFields(t[1..]);
      if fs.Fail? then Fail else Got(DocLit(fs.value), fs.rest)
    else if Is(t, WIf) then ParseTernary(t[1..])
    else Fail
  }

  /** After the opening parenthesis. */
  function ParseParen(t: Tokens): (r: Parsed<Expr>)
    ensures r.Got? ==> |r.rest| < |t| && NoAgg(r.value)
    decreases |t|, 19
  {
    var x := ParseExpr(t);
    if x.Fail? || !Is(x.rest, RParen) then Fail else Got(x.value, x.rest[1..])
  }

  /** The expressions that are one token. */
  function Atom(t: Token): Option<Expr> {
    match t
    case IntLit(n) => Some(Lit(Int(n)))
    case FloatLit(bits) => Some(Lit(Float(bits)))
    case StringLit(s) => Some(Lit(Str(s)))
    case Ident(name) => Some(Field(name))
    case W(WTrue) => Some(Lit(Bool(true)))
    case W(WFalse) => Some(Lit(Bool(false)))
    case W(WNull) => Some(Lit(Null))
    case _ => None
  }

  /** The items of an array literal, up to and with its bracket. */
  function ParseItems(t: Tokens): (r: Parsed<seq<Expr>>)
    ensures r.Got? ==> |r.rest| < |t| && forall i :: 0 <= i < |r.value| ==> NoAgg(r.value[i])
    decreases |t|, 20
  {
    if Is(t, RBracket) then Got([], t[1..]) else
      var x := ParseExpr(t);
      if x.Fail? then Fail else MoreItems([x.value], x.rest)
  }

  function MoreItems(xs: seq<Expr>, t: Tokens): (r: Parsed<seq<Expr>>)
    ensures r.Got? ==> |r.rest| < |t|
    ensures r.Got? && (forall i :: 0 <= i < |xs| ==> NoAgg(xs[i])) ==> forall i :: 0 <= i < |r.value| ==> NoAgg(r.value[i])
    decreases |t|, 20
  {
    if Is(t, Comma) then
      var x := ParseExpr(t[1..]);
      if x.Fail? then Fail else MoreItems(xs + [x.value], x.rest)
    else if Is(t, RBracket) then Got(xs, t[1..])
    else Fail
  }

  function ParseField(t: Tokens): (r: Parsed<NamedExpr>)
    ensures r.Got? ==> |r.rest| < |t| && NoAgg(r.value.expr)
    decreases |t|, 20
  {
    var n := Name(t);
    if n.Fail? || !Is(n.rest, Colon) then Fail else
      var x := ParseExpr(n.rest[1..]);
      if x.Fail? then Fail else Got(Named(n.value, x.value), x.rest)
  }

  /** The fields of a document literal, up to and with its brace. */
  function ParseFields(t: Tokens): (r: Parsed<seq<NamedExpr>>)
    ensures r.Got? ==> |r.rest| < |t| && forall i :: 0 <= i < |r.value| ==> NoAgg(r.value[i].expr)
    decreases |t|, 21
  {
    if Is(t, RBrace) then Got([], t[1..]) else
      var f := ParseField(t);
      if f.Fail? then Fail else MoreFields([f.value], f.rest)
  }

  function MoreFields(fs: seq<NamedExpr>, t: Tokens): (r: Parsed<seq<NamedExpr>>)
    ensures r.Got? ==> |r.rest| < |t|
    ensures r.Got? && (forall i :: 0 <= i < |fs| ==> NoAgg(fs[i].expr)) ==> forall i :: 0 <= i < |r.value| ==> NoAgg(r.value[i].expr)
    decreases |t|, 21
  {
    if Is(t, Comma) then
      var f := ParseField(t[1..]);
      if f.Fail? then Fail else MoreFields(fs + [f.value], f.rest)
    else if Is(t, RBrace) then Got(fs, t[1..])
    else Fail
  }
}
