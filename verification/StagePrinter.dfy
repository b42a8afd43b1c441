/** Stages and pipelines written as tokens; src/asl/parser.rs reads them back. */
module StagePrinter {
  import opened Disk
  import opened Values
  import opened Evaluate
  import opened Aggregates
  import opened Parser
  import opened Pipelines
  import opened Printer
  import opened Separators

  // lists

  function Behind<T>(p: T -> Tokens, xs: seq<T>): Tokens {
    if |xs| == 0 then [] else [W(Comma)] + p(xs[0]) + Behind(p, xs[1..])
  }

  function Listed<T>(p: T -> Tokens, xs: seq<T>): Tokens
    requires |xs| > 0
  {
    p(xs[0]) + Behind(p, xs[1..])
  }

  /** The end of the stage, or a comma with more behind it. */
  predicate Ends(k: Tokens) { |k| == 0 || k[0] == W(Comma) }

  /** The parser reads back what the printer writes of x. */
  ghost predicate Reads<T>(f: Tokens -> Parsed<T>, p: T -> Tokens, x: T) {
    && |p(x)| > 0 && !p(x)[0].Key?
    && forall k :: Ends(k) ==> f(p(x) + k) == Got(x, k)
  }

  lemma {:induction false} MoreBack<T>(f: Tokens -> Parsed<T>, p: T -> Tokens, acc: seq<T>, xs: seq<T>)
    requires Consumes(f) && forall i :: 0 <= i < |xs| ==> Reads(f, p, xs[i])
    ensures More(f, acc, Behind(p, xs)) == Got(acc + xs, [])
    decreases |xs|
  {
    if |xs| == 0 {
      assert acc + xs == acc;
    } else {
      var t, more := Behind(p, xs), Behind(p, xs[1..]);
      assert Reads(f, p, xs[0]);
      assert t == [W(Comma)] + (p(xs[0]) + more);
      assert t[1..] == p(xs[0]) + more && t[1] == p(xs[0])[0];
      MoreBack(f, p, acc + [xs[0]], xs[1..]);
      assert acc + [xs[0]] + xs[1..] == acc + xs;
    }
  }

  lemma ListBack<T>(f: Tokens -> Parsed<T>, p: T -> Tokens, xs: seq<T>)
    requires Consumes(f) && |xs| > 0 && forall i :: 0 <= i < |xs| ==> Reads(f, p, xs[i])
    ensures Several(f, Listed(p, xs)) == Got(xs, [])
  {
    hide More, Behind;
    assert Reads(f, p, xs[0]);
    BehindEnds(p, xs[1..]);
    MoreBack(f, p, [xs[0]], xs[1..]);
    assert [xs[0]] + xs[1..] == xs;
  }

  lemma BehindEnds<T>(p: T -> Tokens, xs: seq<T>)
    ensures Ends(Behind(p, xs))
  {
  }

  // what stands between the commas

  function PrintName(f: Text): Tokens { [Ident(f)] }

  function PrintKey(k: OrderKey): Tokens { [Ident(k.field), W(if k.descending then WDesc else WAsc)] }

  function PrintAssignment(a: NamedExpr): Tokens { [Ident(a.name), W(Assign)] + Print(a.expr) }

  /** A field named count needs parentheses, for alone it would count. */
  function ItemExpr(e: Expr): Tokens {
    match e
    case AggCall(f, None) => [Ident(f)]
    case AggCall(f, Some(x)) => [Ident(f), Ident(x)]
    case Field(name) => if name == COUNT then [W(LParen), Ident(name), W(RParen)] else [Ident(name)]
    case _ => Print(e)
  }

  function PrintItem(i: SelectItem): Tokens {
    ItemExpr(i.expr) + if i.alias.Some? then [W(WAs), Ident(i.alias.value)] else []
  }

  predicate ItemOk(i: SelectItem) {
    match i.expr
    case AggCall(f, None) => f == COUNT
    case AggCall(f, Some(_)) => f in FOLDS
    case e => NoAgg(e)
  }

  lemma NameReads(f: Text)
    ensures Reads(Name, PrintName, f)
  {
    forall k | Ends(k)
      ensures Name(PrintName(f) + k) == Got(f, k)
    {
      assert (PrintName(f) + k)[1..] == k;
    }
  }

  lemma KeyReads(x: OrderKey)
    ensures Reads(ParseKey, PrintKey, x)
  {
    forall k | Ends(k)
      ensures ParseKey(PrintKey(x) + k) == Got(x, k)
    {
      var t := PrintKey(x) + k;
      assert t[1..] == [W(if x.descending then WDesc else WAsc)] + k;
      assert t[1..][1..] == k;
    }
  }

  /** Without a word the order rises. */
  lemma KeyDefault(f: Text, k: Tokens)
    requires !Is(k, WAsc) && !Is(k, WDesc)
    ensures ParseKey([Ident(f)] + k) == Got(OrderKey(f, false), k)
  {
    assert ([Ident(f)] + k)[1..] == k;
  }

  lemma EndsStops(k: Tokens)
    requires Ends(k) || Is(k, WAs)
    ensures Stops(0, k)
  {
  }

  lemma AssignmentReads(a: NamedExpr)
    requires NoAgg(a.expr)
    ensures Reads(ParseAssignment, PrintAssignment, a)
  {
    hide Print, ParseExpr, NoAgg, Stops;
    forall k | Ends(k)
      ensures ParseAssignment(PrintAssignment(a) + k) == Got(a, k)
    {
      var t := PrintAssignment(a) + k;
      assert t[1..] == [W(Assign)] + (Print(a.expr) + k);
      assert t[1..][1..] == Print(a.expr) + k;
      EndsStops(k);
      ExprBack(a.expr, k);
    }
  }

  predicate SecondOk(t: Tokens) { |t| > 0 && (t[0].Ident? ==> |t| > 1 && t[1].W? && t[1].w !in {Comma, WAs, Pipe}) }

  /** Behind a name that opens a longer expression comes an operator. */
  lemma {:induction false} SecondToken(e: Expr, k: Tokens)
    requires NoAgg(e) && !e.Field?
    ensures SecondOk(Print(e) + k)
    decreases e
  {
    hide Print, Wrapped, NoAgg;
    if e.Binary? {
      var rest := BinaryTokens(e, k);
      if !e.left.Field? {
        SecondToken(e.left, rest);
      }
      LeftTokens(e, k, rest);
    } else {
      LeafToken(e, k);
    }
  }

  lemma LeftTokens(e: Expr, k: Tokens, rest: Tokens)
    requires e.Binary? && Print(e) + k == Wrapped(e.left, LeftLevel(e.op)) + rest
    requires |rest| > 0 && rest[0].W? && rest[0].w !in {Comma, WAs, Pipe}
    requires e.left.Field? || SecondOk(Print(e.left) + rest)
    ensures SecondOk(Print(e) + k)
  {
    if e.left.Field? {
      PrintedField(e.left.name);
    }
    hide Print;
  }

  lemma LeafToken(e: Expr, k: Tokens)
    requires NoAgg(e) && !e.Field? && !e.Binary?
    ensures SecondOk(Print(e) + k)
  {
    hide Wrapped;
  }

  lemma ItemExprBack(e: Expr, k: Tokens)
    requires ItemOk(SelectItem(e, None)) && (Ends(k) || Is(k, WAs))
    ensures SelectExpr(ItemExpr(e) + k) == Got(e, k)
  {
    EndsStops(k);
    if e.AggCall? || e.Field? {
      NamedItemBack(e, k);
    } else {
      hide ParseExpr, Stops, Print, ItemExpr, SelectExpr, SecondOk, NoAgg;
      ItemIsPrinted(e);
      SecondToken(e, k);
      ExprBack(e, k);
      NoAggregate(Print(e) + k);
    }
  }

  lemma ItemIsPrinted(e: Expr)
    requires ItemOk(SelectItem(e, None)) && !e.AggCall? && !e.Field?
    ensures ItemExpr(e) == Print(e) && NoAgg(e)
  {
    hide Print, NoAgg;
  }

  lemma NoAggregate(t: Tokens)
    requires SecondOk(t)
    ensures SelectExpr(t) == ParseExpr(t)
  {
    hide ParseExpr;
  }

  lemma NamedItemBack(e: Expr, k: Tokens)
    requires ItemOk(SelectItem(e, None)) && (Ends(k) || Is(k, WAs)) && (e.AggCall? || e.Field?) && Stops(0, k)
    ensures SelectExpr(ItemExpr(e) + k) == Got(e, k)
  {
    hide ParseExpr, Stops, Print, NoAgg;
    var t := ItemExpr(e) + k;
    match e
    case AggCall(f, None) => assert t[1..] == k;
    case AggCall(f, Some(x)) =>
      assert t[2..] == k;
      FoldIsNotCount(f);
    case Field(name) =>
      if name == COUNT {
        WrappedField(name, k);
      } else {
        FieldIsNoAgg(name);
        PrintedField(name);
        ExprBack(e, k);
      }
  }

  lemma FieldIsNoAgg(name: Text)
    ensures NoAgg(Field(name))
  {
  }

  lemma FoldIsNotCount(f: Text)
    requires f in FOLDS
    ensures f != COUNT
  {
  }

  lemma PrintedField(name: Text)
    ensures Print(Field(name)) == [Ident(name)]
  {
  }

  lemma WrappedField(name: Text, k: Tokens)
    requires Stops(0, k)
    ensures ParseExpr([W(LParen), Ident(name), W(RParen)] + k) == Got(Field(name), k)
  {
    hide ParseExpr, ParsePrimary, Stops, ParseLevel;
    var rest := [W(RParen)] + k;
    PrintedField(name);
    CloserStops(0, RParen, k);
    ExprBack(Field(name), rest);
    var t := [W(LParen)] + ([Ident(name)] + rest);
    assert [W(LParen), Ident(name), W(RParen)] + k == t;
    InParens(Field(name), [Ident(name)] + rest, k);
    StopsTighter(0, PRIMARY, k);
    ClimbTo(PRIMARY, 0, t, Field(name), k);
  }

  lemma ItemReads(i: SelectItem)
    requires ItemOk(i)
    ensures Reads(ParseSelectItem, PrintItem, i)
  {
    hide SelectExpr, ItemExpr;
    ItemOpens(i.expr);
    forall k | Ends(k)
      ensures ParseSelectItem(PrintItem(i) + k) == Got(i, k)
    {
      if i.alias.None? {
        assert PrintItem(i) + k == ItemExpr(i.expr) + k;
        ItemExprBack(i.expr, k);
      } else {
        var rest := [W(WAs), Ident(i.alias.value)] + k;
        assert PrintItem(i) + k == ItemExpr(i.expr) + rest;
        ItemExprBack(i.expr, rest);
        assert rest[1..] == [Ident(i.alias.value)] + k && rest[1..][1..] == k;
      }
    }
  }

  lemma ItemOpens(e: Expr)
    requires ItemOk(SelectItem(e, None))
    ensures |ItemExpr(e)| > 0 && !ItemExpr(e)[0].Key?
  {
    hide Print;
    if NoAgg(e) && !e.Field? {
      PrintOpens(e, []);
      assert Print(e) + [] == Print(e);
    }
  }

  // documents of an insert

  predicate DocOk(d: Expr) { d.DocLit? && NoAgg(d) }

  function DocsBehind(ds: seq<Expr>): Tokens {
    if |ds| == 0 then [] else [W(Comma)] + Print(ds[0]) + DocsBehind(ds[1..])
  }

  function PrintDocs(ds: seq<Expr>): Tokens {
    if |ds| == 0 then [] else Print(ds[0]) + DocsBehind(ds[1..])
  }

  lemma DocReads(d: Expr, k: Tokens)
    requires DocOk(d)
    ensures ParseDoc(Print(d) + k) == Got(d, k) && Is(Print(d) + k, LBrace)
  {
    hide ParseFields, PrintFields;
    var u := PrintFields(d.fields) + ([W(RBrace)] + k);
    var t := Print(d) + k;
    assert t == [W(LBrace)] + u && t[1..] == u;
    FieldListBack(d.fields, k);
  }

  lemma {:induction false} MoreDocsBack(acc: seq<Expr>, ds: seq<Expr>)
    requires forall i :: 0 <= i < |ds| ==> DocOk(ds[i])
    ensures MoreDocs(acc, DocsBehind(ds) + [W(RBracket)]) == Got(acc + ds, [])
    decreases |ds|
  {
    hide ParseDoc, Print, DocOk;
    if |ds| == 0 {
      assert DocsBehind(ds) + [W(RBracket)] == [W(RBracket)] && [W(RBracket)][1..] == [] && acc + ds == acc;
    } else {
      var t, more := DocsBehind(ds) + [W(RBracket)], DocsBehind(ds[1..]) + [W(RBracket)];
      assert t == [W(Comma)] + (Print(ds[0]) + more);
      assert t[1..] == Print(ds[0]) + more;
      DocReads(ds[0], more);
      MoreDocsBack(acc + [ds[0]], ds[1..]);
      assert acc + [ds[0]] + ds[1..] == acc + ds;
    }
  }

  lemma DocsBack(ds: seq<Expr>)
    requires forall i :: 0 <= i < |ds| ==> DocOk(ds[i])
    ensures ParseDocs([W(LBracket)] + PrintDocs(ds) + [W(RBracket)]) == Got(ds, [])
  {
    hide ParseDoc, Print, DocOk, MoreDocs, DocsBehind;
    var t := [W(LBracket)] + PrintDocs(ds) + [W(RBracket)];
    assert t[1..] == PrintDocs(ds) + [W(RBracket)];
    if |ds| == 0 {
      assert t[1..] == [W(RBracket)] && t[2..] == [];
    } else {
      var more := DocsBehind(ds[1..]) + [W(RBracket)];
      assert t[1..] == Print(ds[0]) + more;
      DocReads(ds[0], more);
      MoreDocsBack([ds[0]], ds[1..]);
      assert [ds[0]] + ds[1..] == ds;
    }
  }

  /** One document needs no brackets. */
  lemma OneDocBack(d: Expr)
    requires DocOk(d)
    ensures ParseDocs(Print(d)) == Got([d], [])
  {
    hide ParseDoc, Print;
    DocReads(d, []);
    assert Print(d) + [] == Print(d);
  }

  // stages

  predicate Writable(s: Stage) {
    match s
    case Where(e) => NoAgg(e)
    case Select(Some(items)) => |items| > 0 && forall i :: 0 <= i < |items| ==> ItemOk(items[i])
    case Drop(fields) => |fields| > 0
    case Order(keys) => |keys| > 0
    case Limit(n) => n >= 0
    case Offset(n) => n >= 0
    case Group(fields) => |fields| > 0
    case Insert(docs) => forall i :: 0 <= i < |docs| ==> DocOk(docs[i])
    case Update(assignments) => |assignments| > 0 && forall i :: 0 <= i < |assignments| ==> NoAgg(assignments[i].expr)
    case Upsert(doc) => DocOk(doc)
    case _ => true
  }

  function PrintStage(s: Stage): Tokens
    requires Writable(s)
  {
    match s
    case From(c, hint) => [Key(KFrom), Ident(c)] + if hint.Some? then [W(WUse), W(WIndex), Ident(hint.value)] else []
    case Where(e) => [Key(KWhere)] + Print(e)
    case Select(None) => [Key(KSelect), W(Star)]
    case Select(Some(items)) => [Key(KSelect)] + Listed(PrintItem, items)
    case Drop(fields) => [Key(KDrop)] + Listed(PrintName, fields)
    case Order(keys) => [Key(KOrder)] + Listed(PrintKey, keys)
    case Limit(n) => [Key(KLimit), IntLit(n)]
    case Offset(n) => [Key(KOffset), IntLit(n)]
    case Group(fields) => [Key(KGroup)] + Listed(PrintName, fields)
    case Join(c, l, r) => [Key(KJoin), Ident(c), W(WOn), Ident(l), W(EqEq), Ident(r)]
    case Insert(docs) => [Key(KInsert)] + ([W(LBracket)] + PrintDocs(docs) + [W(RBracket)])
    case Update(assignments) => [Key(KUpdate), W(WSet)] + Listed(PrintAssignment, assignments)
    case Upsert(doc) => [Key(KUpsert)] + Print(doc)
    case Delete => [Key(KDelete)]
  }

  lemma FromBack(s: Stage)
    requires s.From?
    ensures ParseFrom(PrintStage(s)) == Got(s, [])
  {
    var t := PrintStage(s);
    if s.hint.None? {
      assert t[1..] == [Ident(s.collection)] && t[1..][1..] == [];
    } else {
      assert t[1..] == [Ident(s.collection), W(WUse), W(WIndex), Ident(s.hint.value)];
      var u := t[1..][1..];
      assert u == [W(WUse), W(WIndex), Ident(s.hint.value)] && u[1..] == [W(WIndex), Ident(s.hint.value)];
      assert u[2..] == [Ident(s.hint.value)] && u[2..][1..] == [];
    }
  }

  lemma ListStageBack(k: Keyword, s: Stage, u: Tokens)
    requires IsList(k) && ParseListStage(k, u) == Got(s, [])
    ensures ParseStage([Key(k)] + u) == Got(s, [])
  {
    hide ParseListStage;
    assert ([Key(k)] + u)[1..] == u;
  }

  lemma OtherStageBack(k: Keyword, s: Stage, u: Tokens)
    requires !IsList(k) && ParseOtherStage(k, u) == Got(s, [])
    ensures ParseStage([Key(k)] + u) == Got(s, [])
  {
    hide ParseOtherStage;
    assert ([Key(k)] + u)[1..] == u;
  }

  lemma SelectBack(s: Stage)
    requires s.Select? && Writable(s)
    ensures ParseStage(PrintStage(s)) == Got(s, [])
  {
    hide ParseStage, Several, ParseSelectItem, PrintItem, Reads, Behind, ItemOk;
    ParsersConsume();
    if s.items.None? {
      assert PrintStage(s) == [Key(KSelect)] + [W(Star)] && [W(Star)][1..] == [];
      ListStageBack(KSelect, s, [W(Star)]);
    } else {
      var items := s.items.value;
      forall i | 0 <= i < |items|
        ensures Reads(ParseSelectItem, PrintItem, items[i])
      {
        ItemReads(items[i]);
      }
      ListBack(ParseSelectItem, PrintItem, items);
      ItemNotStar(items[0], Behind(PrintItem, items[1..]));
      ListStageBack(KSelect, s, Listed(PrintItem, items));
    }
  }

  lemma ItemNotStar(i: SelectItem, k: Tokens)
    requires ItemOk(i)
    ensures !Is(PrintItem(i) + k, Star)
  {
    hide Print;
    if NoAgg(i.expr) && !i.expr.Field? {
      NoStar(i.expr);
    }
  }

  lemma {:induction false} NoStar(e: Expr)
    requires NoAgg(e)
    ensures |Print(e)| > 0 && Print(e)[0] != W(Star)
    decreases e
  {
    match e
    case Binary(op, l, r) => NoStar(l);
    case _ =>
  }

  lemma NamesBack(k: Keyword, fields: seq<Text>)
    requires |fields| > 0 && (k == KDrop || k == KGroup)
    ensures ParseStage([Key(k)] + Listed(PrintName, fields)) == Got(if k == KDrop then Drop(fields) else Group(fields), [])
  {
    hide ParseStage, Several, Reads, Behind, Name;
    ParsersConsume();
    forall i | 0 <= i < |fields|
      ensures Reads(Name, PrintName, fields[i])
    {
      NameReads(fields[i]);
    }
    ListBack(Name, PrintName, fields);
    ListStageBack(k, if k == KDrop then Drop(fields) else Group(fields), Listed(PrintName, fields));
  }

  lemma OrderBack(keys: seq<OrderKey>)
    requires |keys| > 0
    ensures ParseStage([Key(KOrder)] + Listed(PrintKey, keys)) == Got(Order(keys), [])
  {
    hide ParseStage, Several, Reads, Behind, ParseKey;
    ParsersConsume();
    forall i | 0 <= i < |keys|
      ensures Reads(ParseKey, PrintKey, keys[i])
    {
      KeyReads(keys[i]);
    }
    ListBack(ParseKey, PrintKey, keys);
    ListStageBack(KOrder, Order(keys), Listed(PrintKey, keys));
  }

  lemma UpdateBack(xs: seq<NamedExpr>)
    requires |xs| > 0 && forall i :: 0 <= i < |xs| ==> NoAgg(xs[i].expr)
    ensures ParseStage([Key(KUpdate), W(WSet)] + Listed(PrintAssignment, xs)) == Got(Update(xs), [])
  {
    hide ParseStage, Several, Reads, Behind, ParseAssignment, PrintAssignment, NoAgg;
    ParsersConsume();
    forall i | 0 <= i < |xs|
      ensures Reads(ParseAssignment, PrintAssignment, xs[i])
    {
      AssignmentReads(xs[i]);
    }
    ListBack(ParseAssignment, PrintAssignment, xs);
    var u := [W(WSet)] + Listed(PrintAssignment, xs);
    assert u[1..] == Listed(PrintAssignment, xs);
    ListStageBack(KUpdate, Update(xs), u);
    assert [Key(KUpdate)] + u == [Key(KUpdate), W(WSet)] + Listed(PrintAssignment, xs);
  }

  lemma WhereBack(e: Expr)
    requires NoAgg(e)
    ensures ParseStage([Key(KWhere)] + Print(e)) == Got(Where(e), [])
  {
    hide ParseStage, Print, ParseExpr;
    ExprBack(e, []);
    assert Print(e) + [] == Print(e);
    OtherStageBack(KWhere, Where(e), Print(e));
  }

  lemma ShortBack(s: Stage)
    requires Writable(s) && (s.Limit? || s.Offset? || s.Delete? || s.Join?)
    ensures ParseStage(PrintStage(s)) == Got(s, [])
  {
    hide ParseStage, Print, PrintDocs, Listed, ParseDoc, ParseDocs;
    var t := PrintStage(s);
    var u := t[1..];
    assert t == [t[0]] + u;
    match s
    case Join(c, l, r) =>
      assert u == [Ident(c), W(WOn), Ident(l), W(EqEq), Ident(r)] && u[5..] == [];
      OtherStageBack(KJoin, s, u);
    case Delete => OtherStageBack(KDelete, s, u);
    case Limit(n) =>
      assert u == [IntLit(n)] && u[1..] == [];
      OtherStageBack(KLimit, s, u);
    case Offset(n) =>
      assert u == [IntLit(n)] && u[1..] == [];
      OtherStageBack(KOffset, s, u);
  }

  lemma DocStageBack(s: Stage)
    requires Writable(s) && (s.Insert? || s.Upsert?)
    ensures ParseStage(PrintStage(s)) == Got(s, [])
  {
    hide ParseStage, ParseDoc, ParseDocs, Print, PrintDocs, DocOk;
    match s
    case Insert(docs) =>
      DocsBack(docs);
      OtherStageBack(KInsert, s, [W(LBracket)] + PrintDocs(docs) + [W(RBracket)]);
    case Upsert(doc) =>
      DocReads(doc, []);
      assert Print(doc) + [] == Print(doc);
      OtherStageBack(KUpsert, s, Print(doc));
  }

  /** Every stage the grammar can produce is read back from its tokens. */
  lemma StageBack(s: Stage)
    requires Writable(s) && !s.From?
    ensures ParseStage(PrintStage(s)) == Got(s, [])
  {
    hide ParseStage, Print, Listed, PrintDocs, ItemOk, DocOk, NoAgg;
    match s
    case Where(e) => WhereBack(e);
    case Select(_) => SelectBack(s);
    case Drop(fields) => NamesBack(KDrop, fields);
    case Group(fields) => NamesBack(KGroup, fields);
    case Order(keys) => OrderBack(keys);
    case Update(xs) => UpdateBack(xs);
    case Insert(_) => DocStageBack(s);
    case Upsert(_) => DocStageBack(s);
    case _ => ShortBack(s);
  }

  // pipelines

  /** A from, then stages of every other kind. */
  predicate WritableAll(ss: seq<Stage>) {
    |ss| > 0 && ss[0].From? && forall i :: 0 <= i < |ss| ==> Writable(ss[i]) && (i > 0 ==> !ss[i].From?)
  }

  function PrintAll(ss: seq<Stage>): (bs: seq<Tokens>)
    requires WritableAll(ss)
    ensures |bs| == |ss|
  {
    seq(|ss|, i requires 0 <= i < |ss| => PrintStage(ss[i]))
  }

  /** A pipeline is read back from its tokens, with any separators between the stages, exactly when no select ends in a lone
      count right before the next stage. */
  lemma PipelineBack(ss: seq<Stage>, seps: seq<Separator>)
    requires WritableAll(ss) && |ss| == |seps| + 1
    ensures ParsePipeline(Written(PrintAll(ss), seps, 0)) == Got(ss, []) <==> forall i :: 0 <= i < |ss| ==> !Glued(ss, seps, i)
  {
    hide ParsePipeline, Written, ParseStage, ParseFrom, PrintStage, Writable, Glued;
    var bs := PrintAll(ss);
    FromBack(ss[0]);
    forall i | 0 < i < |bs|
      ensures StageAlone(bs[i], ss[i])
    {
      StageBack(ss[i]);
    }
    SeparatorsDoNotMatter(bs, ss, seps);
  }

  // nothing else is read

  ghost predicate Yields<T>(f: Tokens -> Parsed<T>, ok: T -> bool) {
    forall t :: f(t).Got? ==> ok(f(t).value)
  }

  lemma {:induction false} MoreYields<T>(f: Tokens -> Parsed<T>, ok: T -> bool, xs: seq<T>, t: Tokens)
    requires Consumes(f) && Yields(f, ok) && |xs| > 0 && (forall i :: 0 <= i < |xs| ==> ok(xs[i])) && More(f, xs, t).Got?
    ensures var ys := More(f, xs, t).value; |ys| > 0 && forall i :: 0 <= i < |ys| ==> ok(ys[i])
    decreases |t|
  {
    if !Continues(t) {
    } else {
      var x := f(t[1..]);
      MoreYields(f, ok, xs + [x.value], x.rest);
    }
  }

  lemma SeveralYields<T>(f: Tokens -> Parsed<T>, ok: T -> bool, t: Tokens)
    requires Consumes(f) && Yields(f, ok) && Several(f, t).Got?
    ensures var ys := Several(f, t).value; |ys| > 0 && forall i :: 0 <= i < |ys| ==> ok(ys[i])
  {
    var x := f(t);
    MoreYields(f, ok, [x.value], x.rest);
  }

  lemma ItemsAreOk()
    ensures Yields(ParseSelectItem, ItemOk)
  {
    hide ParseExpr;
  }

  predicate AssignmentOk(a: NamedExpr) { NoAgg(a.expr) }

  lemma AssignmentsAreOk()
    ensures Yields(ParseAssignment, AssignmentOk)
  {
    hide ParseExpr, NoAgg;
  }

  lemma AnyName()
    ensures Yields(Name, _ => true) && Yields(ParseKey, _ => true)
  {
  }

  lemma DocIsOk(t: Tokens)
    requires ParseDoc(t).Got?
    ensures DocOk(ParseDoc(t).value)
  {
    hide ParseFields;
  }

  lemma {:induction false} MoreDocsAreOk(ds: seq<Expr>, t: Tokens)
    requires MoreDocs(ds, t).Got? && forall i :: 0 <= i < |ds| ==> DocOk(ds[i])
    ensures var es := MoreDocs(ds, t).value; forall i :: 0 <= i < |es| ==> DocOk(es[i])
    decreases |t|
  {
    hide ParseDoc, DocOk;
    if Is(t, Comma) {
      var d := ParseDoc(t[1..]);
      DocIsOk(t[1..]);
      MoreDocsAreOk(ds + [d.value], d.rest);
    }
  }

  lemma DocsAreOk(t: Tokens)
    requires ParseDocs(t).Got?
    ensures var es := ParseDocs(t).value; forall i :: 0 <= i < |es| ==> DocOk(es[i])
  {
    hide ParseDoc, DocOk, MoreDocs;
    if Is(t, LBrace) {
      DocIsOk(t);
    } else if !Is(t[1..], RBracket) {
      DocIsOk(t[1..]);
      MoreDocsAreOk([ParseDoc(t[1..]).value], ParseDoc(t[1..]).rest);
    }
  }

  lemma ListStageWritable(k: Keyword, u: Tokens)
    requires IsList(k) && ParseListStage(k, u).Got?
    ensures Writable(ParseListStage(k, u).value) && !ParseListStage(k, u).value.From?
  {
    hide Several, ItemOk, Name, ParseKey, ParseSelectItem, ParseAssignment, NoAgg;
    ParsersConsume();
    ItemsAreOk();
    AssignmentsAreOk();
    AnyName();
    match k
    case KSelect => if !Is(u, Star) { SeveralYields(ParseSelectItem, ItemOk, u); }
    case KDrop => SeveralYields(Name, _ => true, u);
    case KOrder => SeveralYields(ParseKey, _ => true, u);
    case KGroup => SeveralYields(Name, _ => true, u);
    case KUpdate =>
      SeveralYields(ParseAssignment, AssignmentOk, u[1..]);
      var xs := Several(ParseAssignment, u[1..]).value;
      assert forall i :: 0 <= i < |xs| ==> AssignmentOk(xs[i]);
  }

  lemma OtherStageWritable(k: Keyword, u: Tokens)
    requires !IsList(k) && ParseOtherStage(k, u).Got?
    ensures Writable(ParseOtherStage(k, u).value) && !ParseOtherStage(k, u).value.From?
  {
    hide ParseExpr, ParseDoc, ParseDocs, NoAgg, DocOk;
    match k
    case KInsert => DocsAreOk(u);
    case KUpsert => DocIsOk(u);
    case _ =>
  }

  lemma StageIsWritable(t: Tokens)
    requires ParseStage(t).Got?
    ensures Writable(ParseStage(t).value) && !ParseStage(t).value.From?
  {
    hide ParseListStage, ParseOtherStage, Writable;
    if IsList(t[0].k) {
      ListStageWritable(t[0].k, t[1..]);
    } else {
      OtherStageWritable(t[0].k, t[1..]);
    }
  }

  lemma {:induction false} StagesAreWritable(ss: seq<Stage>, t: Tokens)
    requires WritableAll(ss) && ParseStages(ss, t).Got?
    ensures WritableAll(ParseStages(ss, t).value)
    decreases |t|
  {
    hide ParseStage, Writable;
    var u := if (Is(t, Pipe) || Is(t, Comma)) && KeyAt(t, 1) then t[1..] else t;
    if !KeyAt(u, 0) {
    } else {
      var s := ParseStage(u);
      StageIsWritable(u);
      StagesAreWritable(ss + [s.value], s.rest);
    }
  }

  /** Whatever pipeline is read is one that can be written, so that reading its tokens back covers all of them. */
  lemma ReadIsWritable(t: Tokens)
    requires ParsePipeline(t).Got?
    ensures WritableAll(ParsePipeline(t).value)
  {
    hide ParseStages;
    var f := ParseFrom(t);
    StagesAreWritable([f.value], f.rest);
  }
}
