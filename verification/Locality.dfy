/** What an expression parses to depends only on its own tokens, not on which stage boundary follows them. */
module Locality {
  import opened Disk
  import opened Evaluate
  import opened Parser

  /** Where a stage may end: the end of input, a stage keyword, or a separator with a stage keyword behind it. */
  predicate Edge(k: Tokens) {
    || |k| == 0 || k[0].Key?
    || (|k| >= 2 && (k[0] == W(Pipe) || k[0] == W(Comma)) && k[1].Key?)
  }

  lemma Front(b: Tokens, k: Tokens)
    ensures |b| > 0 ==> (b + k)[0] == b[0] && (b + k)[1..] == b[1..] + k
    ensures |b| > 1 ==> (b + k)[1] == b[1] && (b + k)[2..] == b[2..] + k
    ensures |b| == 0 ==> b + k == k
  {
  }

  /** An edge is none of the tokens that continue an expression. */
  lemma Peeks(b: Tokens, k: Tokens)
    requires Edge(k)
    ensures |b| > 0 ==> CmpAt(b + k) == CmpAt(b) && MatchAt(b + k) == MatchAt(b) && forall l :: OpAt(l, b + k) == OpAt(l, b)
    ensures |b| == 0 ==> CmpAt(b + k).None? && MatchAt(b + k).None? && forall l :: OpAt(l, b + k).None?
    ensures |b| == 0 ==> !Is(b + k, WIn) && !Is(b + k, WNot)
  {
    Front(b, k);
  }

  /** Before edges k and m the same was read, and the same tokens c of b are left. */
  ghost predicate Alike<T>(r: Parsed<T>, s: Parsed<T>, c: Tokens, k: Tokens, m: Tokens) {
    r.Got? && r.rest == c + k && s == Got(r.value, c + m)
  }

  /** The parser succeeded without reading into the edge. */
  ghost predicate Stops<T>(r: Parsed<T>, k: Tokens) { r.Got? && |r.rest| >= |k| }

  lemma {:induction false} LitValueLocal(b: Tokens, k: Tokens, m: Tokens) returns (c: Tokens)
    requires Edge(k) && Edge(m) && Stops(LitValue(b + k), k)
    ensures |c| < |b| && Alike(LitValue(b + k), LitValue(b + m), c, k, m)
  {
    Front(b, k);
    Front(b, m);
    c := if Is(b, Minus) then b[2..] else b[1..];
  }

  lemma {:induction false} LitMoreLocal(vs: seq<Literal>, b: Tokens, k: Tokens, m: Tokens) returns (c: Tokens)
    requires Edge(k) && Edge(m) && Stops(LitMore(vs, b + k), k)
    ensures |c| < |b| && Alike(LitMore(vs, b + k), LitMore(vs, b + m), c, k, m)
    decreases |b|
  {
    hide LitValue;
    Front(b, k);
    Front(b, m);
    if Is(b, Comma) {
      c := LitValueLocal(b[1..], k, m);
      c := LitMoreLocal(vs + [LitValue(b[1..] + k).value], c, k, m);
    } else {
      c := b[1..];
    }
  }

  lemma LitArrayLocal(b: Tokens, k: Tokens, m: Tokens) returns (c: Tokens)
    requires Edge(k) && Edge(m) && Stops(LitArray(b + k), k)
    ensures |c| < |b| && Alike(LitArray(b + k), LitArray(b + m), c, k, m)
  {
    hide LitValue, LitMore;
    Front(b, k);
    Front(b, m);
    Front(b[1..], k);
    Front(b[1..], m);
    if Is(b[1..], RBracket) {
      c := b[2..];
    } else {
      c := LitValueLocal(b[1..], k, m);
      c := LitMoreLocal([LitValue(b[1..] + k).value], c, k, m);
    }
  }

  lemma {:induction false} ExprLocal(b: Tokens, k: Tokens, m: Tokens) returns (c: Tokens)
    requires Edge(k) && Edge(m) && Stops(ParseExpr(b + k), k)
    ensures |c| < |b| && Alike(ParseExpr(b + k), ParseExpr(b + m), c, k, m)
    decreases |b|, 18
  {
    hide ParseTernary, ParseLevel;
    Front(b, k);
    Front(b, m);
    if Is(b, WIf) {
      c := TernaryLocal(b[1..], k, m);
    } else {
      c := LevelLocal(LOr, b, k, m);
    }
  }

  lemma {:induction false} TernaryLocal(b: Tokens, k: Tokens, m: Tokens) returns (c: Tokens)
    requires Edge(k) && Edge(m) && Stops(ParseTernary(b + k), k)
    ensures |c| < |b| && Alike(ParseTernary(b + k), ParseTernary(b + m), c, k, m)
    decreases |b|, 19
  {
    hide ParseExpr;
    c := ExprLocal(b, k, m);
    Front(c, k);
    Front(c, m);
    c := ExprLocal(c[1..], k, m);
    Front(c, k);
    Front(c, m);
    c := ExprLocal(c[1..], k, m);
  }

  lemma {:induction false} LevelLocal(l: Level, b: Tokens, k: Tokens, m: Tokens) returns (c: Tokens)
    requires Edge(k) && Edge(m) && Stops(ParseLevel(l, b + k), k)
    ensures |c| < |b| && Alike(ParseLevel(l, b + k), ParseLevel(l, b + m), c, k, m)
    decreases |b|, Rank(l) + 1
  {
    hide Operand, OpLoop;
    c := OperandLocal(l, b, k, m);
    c := LoopLocal(l, Operand(l, b + k).value, c, k, m);
  }

  lemma {:induction false} OperandLocal(l: Level, b: Tokens, k: Tokens, m: Tokens) returns (c: Tokens)
    requires Edge(k) && Edge(m) && Stops(Operand(l, b + k), k)
    ensures |c| < |b| && Alike(Operand(l, b + k), Operand(l, b + m), c, k, m)
    decreases |b|, Rank(l)
  {
    hide ParseLevel, ParseNot, ParseUnary;
    match l
    case LOr => c := LevelLocal(LAnd, b, k, m);
    case LAnd => c := NotLocal(b, k, m);
    case LAdd => c := LevelLocal(LMul, b, k, m);
    case LMul => c := UnaryLocal(b, k, m);
  }

  lemma {:induction false} LoopLocal(l: Level, lhs: Expr, b: Tokens, k: Tokens, m: Tokens) returns (c: Tokens)
    requires Edge(k) && Edge(m) && Stops(OpLoop(l, lhs, b + k), k)
    ensures |c| <= |b| && Alike(OpLoop(l, lhs, b + k), OpLoop(l, lhs, b + m), c, k, m)
    decreases |b|, 0
  {
    hide Operand, OpAt;
    Front(b, k);
    Front(b, m);
    Peeks(b, k);
    Peeks(b, m);
    if |b| == 0 || OpAt(l, b).None? {
      c := b;
    } else {
      c := OperandLocal(l, b[1..], k, m);
      c := LoopLocal(l, Binary(OpAt(l, b).value, lhs, Operand(l, b[1..] + k).value), c, k, m);
    }
  }

  lemma {:induction false} NotLocal(b: Tokens, k: Tokens, m: Tokens) returns (c: Tokens)
    requires Edge(k) && Edge(m) && Stops(ParseNot(b + k), k)
    ensures |c| < |b| && Alike(ParseNot(b + k), ParseNot(b + m), c, k, m)
    decreases |b|, 13
  {
    hide ParsePredicate;
    Front(b, k);
    Front(b, m);
    if Is(b, WNot) {
      c := NotLocal(b[1..], k, m);
    } else {
      c := PredicateLocal(b, k, m);
    }
  }

  lemma {:induction false} PredicateLocal(b: Tokens, k: Tokens, m: Tokens) returns (c: Tokens)
    requires Edge(k) && Edge(m) && Stops(ParsePredicate(b + k), k)
    ensures |c| < |b| && Alike(ParsePredicate(b + k), ParsePredicate(b + m), c, k, m)
    decreases |b|, 12
  {
    hide ParseLevel, ParseTail;
    Front(b, k);
    Front(b, m);
    Front(b[if |b| > 0 then 1 else 0..], k);
    Front(b[if |b| > 0 then 1 else 0..], m);
    if Is(b, WExists) || Is(b, WMissing) {
      c := b[2..];
    } else {
      c := LevelLocal(LAdd, b, k, m);
      c := TailLocal(ParseLevel(LAdd, b + k).value, c, k, m);
    }
  }

  lemma {:induction false} TailLocal(lhs: Expr, b: Tokens, k: Tokens, m: Tokens) returns (c: Tokens)
    requires Edge(k) && Edge(m) && Stops(ParseTail(lhs, b + k), k)
    ensures |c| <= |b| && Alike(ParseTail(lhs, b + k), ParseTail(lhs, b + m), c, k, m)
    decreases |b|, 0
  {
    hide ParseTail, ParseLevel, ParseIn, ParseMatch, CmpAt, MatchAt;
    TailIs(lhs, b, k);
    TailIs(lhs, b, m);
    if |b| == 0 {
      c := b;
    } else if CmpAt(b).Some? {
      c := LevelLocal(LAdd, b[1..], k, m);
    } else if Is(b, WIn) {
      c := InLocal(lhs, false, b[1..], k, m);
    } else if Is(b, WNot) && |b| > 1 && b[1] == W(WIn) {
      c := InLocal(lhs, true, b[2..], k, m);
    } else if MatchAt(b).Some? {
      c := MatchLocal(lhs, MatchAt(b).value, b[1..], k, m);
    } else {
      c := b;
    }
  }

  function CmpTail(lhs: Expr, op: BinOp, y: Parsed<Expr>): Parsed<Expr> {
    if y.Fail? then Fail else Got(Binary(op, lhs, y.value), y.rest)
  }

  /** Which tail follows is decided by the tokens before the edge. */
  lemma TailIs(lhs: Expr, b: Tokens, k: Tokens)
    requires Edge(k)
    ensures ParseTail(lhs, b + k) ==
      if |b| == 0 then Got(lhs, b + k)
      else if CmpAt(b).Some? then CmpTail(lhs, CmpAt(b).value, ParseLevel(LAdd, b[1..] + k))
      else if Is(b, WIn) then ParseIn(lhs, false, b[1..] + k)
      else if Is(b, WNot) && |b| > 1 && b[1] == W(WIn) then ParseIn(lhs, true, b[2..] + k)
      else if MatchAt(b).Some? then ParseMatch(lhs, MatchAt(b).value, b[1..] + k)
      else Got(lhs, b + k)
  {
    hide ParseLevel, ParseIn, ParseMatch, CmpAt, MatchAt;
    Front(b, k);
    Peeks(b, k);
    Peeks([], k);
    assert [] + k == k;
  }

  lemma InLocal(lhs: Expr, negated: bool, b: Tokens, k: Tokens, m: Tokens) returns (c: Tokens)
    requires Edge(k) && Edge(m) && Stops(ParseIn(lhs, negated, b + k), k)
    ensures |c| <= |b| && Alike(ParseIn(lhs, negated, b + k), ParseIn(lhs, negated, b + m), c, k, m)
  {
    hide LitArray;
    c := LitArrayLocal(b, k, m);
  }

  lemma MatchLocal(lhs: Expr, how: MatchOp, b: Tokens, k: Tokens, m: Tokens) returns (c: Tokens)
    requires Edge(k) && Edge(m) && Stops(ParseMatch(lhs, how, b + k), k)
    ensures |c| <= |b| && Alike(ParseMatch(lhs, how, b + k), ParseMatch(lhs, how, b + m), c, k, m)
  {
    hide NoAgg;
    Front(b, k);
    Front(b, m);
    c := b[1..];
  }

  lemma {:induction false} UnaryLocal(b: Tokens, k: Tokens, m: Tokens) returns (c: Tokens)
    requires Edge(k) && Edge(m) && Stops(ParseUnary(b + k), k)
    ensures |c| < |b| && Alike(ParseUnary(b + k), ParseUnary(b + m), c, k, m)
    decreases |b|, 7
  {
    hide ParsePrimary;
    Front(b, k);
    Front(b, m);
    if Is(b, Minus) {
      c := UnaryLocal(b[1..], k, m);
    } else {
      c := PrimaryLocal(b, k, m);
    }
  }

  lemma {:induction false} PrimaryLocal(b: Tokens, k: Tokens, m: Tokens) returns (c: Tokens)
    requires Edge(k) && Edge(m) && Stops(ParsePrimary(b + k), k)
    ensures |c| < |b| && Alike(ParsePrimary(b + k), ParsePrimary(b + m), c, k, m)
    decreases |b|, 6
  {
    hide ParsePrimary, ParseParen, ParseItems, ParseFields, ParseTernary, Atom;
    Front(b, k);
    PrimaryIs(b, k);
    PrimaryIs(b, m);
    if Atom(b[0]).Some? {
      c := b[1..];
    } else if Is(b, LParen) {
      c := ParenLocal(b[1..], k, m);
    } else if Is(b, LBracket) {
      c := ItemsLocal(b[1..], k, m);
    } else if Is(b, LBrace) {
      c := FieldsLocal(b[1..], k, m);
    } else {
      c := TernaryLocal(b[1..], k, m);
    }
  }

  /** The first token says which kind of primary it is. */
  lemma PrimaryIs(b: Tokens, k: Tokens)
    requires |b| > 0
    ensures ParsePrimary(b + k) ==
      if Atom(b[0]).Some? then Got(Atom(b[0]).value, b[1..] + k)
      else if Is(b, LParen) then ParseParen(b[1..] + k)
      else if Is(b, LBracket) then ArrayOf(ParseItems(b[1..] + k))
      else if Is(b, LBrace) then DocOf(ParseFields(b[1..] + k))
      else if Is(b, WIf) then ParseTernary(b[1..] + k)
      else Fail
  {
    hide ParseParen, ParseItems, ParseFields, ParseTernary, Atom;
    Front(b, k);
  }

  function ArrayOf(xs: Parsed<seq<Expr>>): Parsed<Expr> {
    if xs.Fail? then Fail else Got(ArrayLit(xs.value), xs.rest)
  }

  function DocOf(fs: Parsed<seq<NamedExpr>>): Parsed<Expr> {
    if fs.Fail? then Fail else Got(DocLit(fs.value), fs.rest)
  }

  lemma {:induction false} ParenLocal(b: Tokens, k: Tokens, m: Tokens) returns (c: Tokens)
    requires Edge(k) && Edge(m) && Stops(ParseParen(b + k), k)
    ensures |c| < |b| && Alike(ParseParen(b + k), ParseParen(b + m), c, k, m)
    decreases |b|, 19
  {
    hide ParseExpr;
    c := ExprLocal(b, k, m);
    Front(c, k);
    Front(c, m);
    c := c[1..];
  }

  lemma {:induction false} ItemsLocal(b: Tokens, k: Tokens, m: Tokens) returns (c: Tokens)
    requires Edge(k) && Edge(m) && Stops(ParseItems(b + k), k)
    ensures |c| < |b| && Alike(ParseItems(b + k), ParseItems(b + m), c, k, m)
    decreases |b|, 20
  {
    hide ParseExpr, MoreItems;
    Front(b, k);
    Front(b, m);
    if Is(b, RBracket) {
      c := b[1..];
    } else {
      c := ExprLocal(b, k, m);
      c := MoreItemsLocal([ParseExpr(b + k).value], c, k, m);
    }
  }

  lemma {:induction false} MoreItemsLocal(xs: seq<Expr>, b: Tokens, k: Tokens, m: Tokens) returns (c: Tokens)
    requires Edge(k) && Edge(m) && Stops(MoreItems(xs, b + k), k)
    ensures |c| < |b| && Alike(MoreItems(xs, b + k), MoreItems(xs, b + m), c, k, m)
    decreases |b|, 20
  {
    hide ParseExpr;
    Front(b, k);
    Front(b, m);
    if Is(b, Comma) {
      c := ExprLocal(b[1..], k, m);
      c := MoreItemsLocal(xs + [ParseExpr(b[1..] + k).value], c, k, m);
    } else {
      c := b[1..];
    }
  }

  lemma {:induction false} FieldLocal(b: Tokens, k: Tokens, m: Tokens) returns (c: Tokens)
    requires Edge(k) && Edge(m) && Stops(ParseField(b + k), k)
    ensures |c| < |b| && Alike(ParseField(b + k), ParseField(b + m), c, k, m)
    decreases |b|, 20
  {
    hide ParseExpr;
    Front(b, k);
    Front(b, m);
    var d := b[1..];
    Front(d, k);
    Front(d, m);
    c := ExprLocal(d[1..], k, m);
  }

  lemma {:induction false} FieldsLocal(b: Tokens, k: Tokens, m: Tokens) returns (c: Tokens)
    requires Edge(k) && Edge(m) && Stops(ParseFields(b + k), k)
    ensures |c| < |b| && Alike(ParseFields(b + k), ParseFields(b + m), c, k, m)
    decreases |b|, 21
  {
    hide ParseField, MoreFields;
    Front(b, k);
    Front(b, m);
    if Is(b, RBrace) {
      c := b[1..];
    } else {
      c := FieldLocal(b, k, m);
      c := MoreFieldsLocal([ParseField(b + k).value], c, k, m);
    }
  }

  lemma {:induction false} MoreFieldsLocal(fs: seq<NamedExpr>, b: Tokens, k: Tokens, m: Tokens) returns (c: Tokens)
    requires Edge(k) && Edge(m) && Stops(MoreFields(fs, b + k), k)
    ensures |c| < |b| && Alike(MoreFields(fs, b + k), MoreFields(fs, b + m), c, k, m)
    decreases |b|, 21
  {
    hide ParseField;
    Front(b, k);
    Front(b, m);
    if Is(b, Comma) {
      c := FieldLocal(b[1..], k, m);
      c := MoreFieldsLocal(fs + [ParseField(b[1..] + k).value], c, k, m);
    } else {
      c := b[1..];
    }
  }
}
