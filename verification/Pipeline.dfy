/** src/asl/parser.rs: stages, and the pipeline they form whatever separates them. */
module Pipelines {
  import opened Disk
  import opened Values
  import opened Evaluate
  import opened Aggregates
  import opened Parser

  datatype SelectItem = SelectItem(expr: Expr, alias: Option<Text>)

  datatype OrderKey = OrderKey(field: Text, descending: bool)

  datatype Stage =
    | From(collection: Text, hint: Option<Text>)
    | Where(test: Expr)
    | Select(items: Option<seq<SelectItem>>)
    | Drop(fields: seq<Text>)
    | Order(keys: seq<OrderKey>)
    | Limit(n: i64)
    | Offset(n: i64)
    | Group(fields: seq<Text>)
    | Join(collection: Text, left: Text, right: Text)
    | Insert(docs: seq<Expr>)
    | Update(assignments: seq<NamedExpr>)
    | Upsert(doc: Expr)
    | Delete

  // lists inside a stage

  predicate KeyAt(t: Tokens, i: nat) { i < |t| && t[i].Key? }

  /** At a comma the token behind it decides: a stage keyword ends the list. */
  predicate Continues(t: Tokens) { Is(t, Comma) && !KeyAt(t, 1) }

  ghost predicate Consumes<T>(f: Tokens -> Parsed<T>) {
    forall t :: f(t).Got? ==> |f(t).rest| < |t|
  }

  function More<T>(f: Tokens -> Parsed<T>, xs: seq<T>, t: Tokens): (r: Parsed<seq<T>>)
    requires Consumes(f)
    ensures r.Got? ==> |r.rest| <= |t|
    decreases |t|
  {
    if !Continues(t) then Got(xs, t) else
      var x := f(t[1..]);
      if x.Fail? then Fail else More(f, xs + [x.value], x.rest)
  }

  /** One item, then more of them behind commas. */
  function Several<T>(f: Tokens -> Parsed<T>, t: Tokens): (r: Parsed<seq<T>>)
    requires Consumes(f)
    ensures r.Got? ==> |r.rest| < |t|
  {
    var x := f(t);
    if x.Fail? then Fail else More(f, [x.value], x.rest)
  }

  function ParseKey(t: Tokens): (r: Parsed<OrderKey>)
    ensures r.Got? ==> |r.rest| < |t|
  {
    var n := Name(t);
    if n.Fail? then Fail
    else if Is(n.rest, WAsc) then Got(OrderKey(n.value, false), n.rest[1..])
    else if Is(n.rest, WDesc) then Got(OrderKey(n.value, true), n.rest[1..])
    else Got(OrderKey(n.value, false), n.rest)
  }

  function ParseAssignment(t: Tokens): (r: Parsed<NamedExpr>)
    ensures r.Got? ==> |r.rest| < |t|
  {
    var n := Name(t);
    if n.Fail? || !Is(n.rest, Assign) then Fail else
      var x := ParseExpr(n.rest[1..]);
      if x.Fail? then Fail else Got(Named(n.value, x.value), x.rest)
  }

  /** count stands alone before a comma, as, a pipe or the end; sum and its kin need a field behind them. */
  function SelectExpr(t: Tokens): (r: Parsed<Expr>)
    ensures r.Got? ==> |r.rest| < |t|
  {
    if |t| > 0 && t[0].Ident? && t[0].name == COUNT && (|t| == 1 || t[1] == W(Comma) || t[1] == W(WAs) || t[1] == W(Pipe)) then
      Got(AggCall(t[0].name, None), t[1..])
    else if |t| > 1 && t[0].Ident? && t[0].name in FOLDS && t[1].Ident? then
      Got(AggCall(t[0].name, Some(t[1].name)), t[2..])
    else ParseExpr(t)
  }

  function Alias(e: Expr, t: Tokens): Parsed<SelectItem> {
    if !Is(t, WAs) then Got(SelectItem(e, None), t) else
      var n := Name(t[1..]);
      if n.Fail? then Fail else Got(SelectItem(e, Some(n.value)), n.rest)
  }

  function ParseSelectItem(t: Tokens): (r: Parsed<SelectItem>)
    ensures r.Got? ==> |r.rest| < |t|
  {
    var e := SelectExpr(t);
    if e.Fail? then Fail else Alias(e.value, e.rest)
  }

  function ParseDoc(t: Tokens): (r: Parsed<Expr>)
    ensures r.Got? ==> |r.rest| < |t|
  {
    if !Is(t, LBrace) then Fail else
      var fs := ParseFields(t[1..]);
      if fs.Fail? then Fail else Got(DocLit(fs.value), fs.rest)
  }

  function MoreDocs(ds: seq<Expr>, t: Tokens): (r: Parsed<seq<Expr>>)
    ensures r.Got? ==> |r.rest| < |t|
    decreases |t|
  {
    if Is(t, Comma) then
      var d := ParseDoc(t[1..]);
      if d.Fail? then Fail else MoreDocs(ds + [d.value], d.rest)
    else if Is(t, RBracket) then Got(ds, t[1..])
    else Fail
  }

  function ParseDocs(t: Tokens): (r: Parsed<seq<Expr>>)
    ensures r.Got? ==> |r.rest| < |t|
  {
    if Is(t, LBrace) then
      var d := ParseDoc(t);
      if d.Fail? then Fail else Got([d.value], d.rest)
    else if !Is(t, LBracket) then Fail
    else if Is(t[1..], RBracket) then Got([], t[2..])
    else
      var d := ParseDoc(t[1..]);
      if d.Fail? then Fail else MoreDocs([d.value], d.rest)
  }

  function Count(t: Tokens): Parsed<i64> {
    if |t| > 0 && t[0].IntLit? && t[0].n >= 0 then Got(t[0].n, t[1..]) else Fail
  }

  function ParseJoin(t: Tokens): (r: Parsed<Stage>)
    ensures r.Got? ==> |r.rest| <= |t|
  {
    if |t| >= 5 && t[0].Ident? && t[1] == W(WOn) && t[2].Ident? && t[3] == W(EqEq) && t[4].Ident? then
      Got(Join(t[0].name, t[2].name, t[4].name), t[5..])
    else Fail
  }

  function ParseFrom(t: Tokens): (r: Parsed<Stage>)
    ensures r.Got? ==> |r.rest| < |t|
  {
    if !KeyAt(t, 0) || t[0].k != KFrom then Fail else
      var c := Name(t[1..]);
      if c.Fail? then Fail else ParseHint(c.value, c.rest)
  }

  /** The optional use index behind the collection. */
  function ParseHint(c: Text, t: Tokens): (r: Parsed<Stage>)
    ensures r.Got? ==> |r.rest| <= |t|
  {
    if !Is(t, WUse) then Got(From(c, None), t)
    else if !Is(t[1..], WIndex) then Fail
    else
      var h := Name(t[2..]);
      if h.Fail? then Fail else Got(From(c, Some(h.value)), h.rest)
  }

  function Wrap<T, U>(r: Parsed<T>, f: T -> U): Parsed<U> {
    if r.Fail? then Fail else Got(f(r.value), r.rest)
  }

  lemma ParsersConsume()
    ensures Consumes(Name) && Consumes(ParseKey) && Consumes(ParseAssignment) && Consumes(ParseSelectItem)
  {
  }

  /** A stage that is not the first; from is only allowed there. */
  function ParseStage(t: Tokens): (r: Parsed<Stage>)
    ensures r.Got? ==> |r.rest| < |t|
  {
    if !KeyAt(t, 0) then Fail
    else if IsList(t[0].k) then ParseListStage(t[0].k, t[1..])
    else ParseOtherStage(t[0].k, t[1..])
  }

  predicate IsList(k: Keyword) { k == KSelect || k == KDrop || k == KOrder || k == KGroup || k == KUpdate }

  /** After the keyword of a stage that is a comma-separated list. */
  function ParseListStage(k: Keyword, u: Tokens): (r: Parsed<Stage>)
    requires IsList(k)
    ensures r.Got? ==> |r.rest| <= |u|
  {
    ParsersConsume();
    match k
    case KSelect => if Is(u, Star) then Got(Select(None), u[1..]) else Wrap(Several(ParseSelectItem, u), xs => Select(Some(xs)))
    case KDrop => Wrap(Several(Name, u), fs => Drop(fs))
    case KOrder => Wrap(Several(ParseKey, u), ks => Order(ks))
    case KGroup => Wrap(Several(Name, u), fs => Group(fs))
    case KUpdate => if !Is(u, WSet) then Fail else Wrap(Several(ParseAssignment, u[1..]), xs => Update(xs))
  }

  function ParseOtherStage(k: Keyword, u: Tokens): (r: Parsed<Stage>)
    ensures r.Got? ==> |r.rest| <= |u|
  {
    match k
    case KWhere => Wrap(ParseExpr(u), e => Where(e))
    case KLimit => Wrap(Count(u), n => Limit(n))
    case KOffset => Wrap(Count(u), n => Offset(n))
    case KJoin => ParseJoin(u)
    case KInsert => Wrap(ParseDocs(u), ds => Insert(ds))
    case KUpsert => Wrap(ParseDoc(u), d => Upsert(d))
    case KDelete => Got(Delete, u)
    case _ => Fail
  }

  /** Stages as long as a keyword opens one, behind a separator or not. */
  function ParseStages(ss: seq<Stage>, t: Tokens): (r: Parsed<seq<Stage>>)
    decreases |t|
  {
    var u := if (Is(t, Pipe) || Is(t, Comma)) && KeyAt(t, 1) then t[1..] else t;
    if !KeyAt(u, 0) then Got(ss, t) else
      var s := ParseStage(u);
      if s.Fail? then Fail else ParseStages(ss + [s.value], s.rest)
  }

  function ParsePipeline(t: Tokens): Parsed<seq<Stage>> {
    var f := ParseFrom(t);
    if f.Fail? then Fail else ParseStages([f.value], f.rest)
  }
}
