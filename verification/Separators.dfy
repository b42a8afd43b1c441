/** The same stages parse to the same pipeline whatever stands between them, but for one lookahead. */
module Separators {
  import opened Bytes
  import opened Disk
  import opened Values
  import opened Evaluate
  import opened Aggregates
  import opened Parser
  import opened Locality
  import opened Pipelines

  lemma AtEnd(b: Tokens)
    ensures b + [] == b && Edge([])
  {
  }

  // the parts of stages

  ghost predicate NameCase(b: Tokens, m: Tokens) {
    Name(b).Got? ==> Name(b + m) == Got(Name(b).value, Name(b).rest + m)
  }

  lemma NameLocal(b: Tokens, m: Tokens)
    ensures NameCase(b, m)
  {
    Front(b, m);
  }

  lemma ExprInContext(b: Tokens, m: Tokens)
    requires Edge(m) && ParseExpr(b).Got?
    ensures ParseExpr(b + m) == Got(ParseExpr(b).value, ParseExpr(b).rest + m)
  {
    hide ParseExpr;
    AtEnd(b);
    var c := ExprLocal(b, [], m);
    assert c + [] == c;
  }

  lemma FieldsInContext(b: Tokens, m: Tokens)
    requires Edge(m) && ParseFields(b).Got?
    ensures ParseFields(b + m) == Got(ParseFields(b).value, ParseFields(b).rest + m)
  {
    hide ParseFields;
    AtEnd(b);
    var c := FieldsLocal(b, [], m);
    assert c + [] == c;
  }

  /** In front of an edge the parser reads what it reads alone. */
  ghost predicate Keeps<T>(f: Tokens -> Parsed<T>, m: Tokens) {
    forall b :: f(b).Got? ==> f(b + m) == Got(f(b).value, f(b).rest + m)
  }

  lemma NameKeeps(m: Tokens)
    ensures Keeps(Name, m)
  {
    forall b | Name(b).Got?
      ensures Name(b + m) == Got(Name(b).value, Name(b).rest + m)
    {
      Front(b, m);
    }
  }

  lemma KeyKeeps(m: Tokens)
    requires Edge(m)
    ensures Keeps(ParseKey, m)
  {
    hide ParseKey;
    forall b | ParseKey(b).Got?
      ensures ParseKey(b + m) == Got(ParseKey(b).value, ParseKey(b).rest + m)
    {
      KeyInContext(b, m);
    }
  }

  lemma KeyInContext(b: Tokens, m: Tokens)
    requires Edge(m) && ParseKey(b).Got?
    ensures ParseKey(b + m) == Got(ParseKey(b).value, ParseKey(b).rest + m)
  {
    hide Name;
    NameLocal(b, m);
    Front(Name(b).rest, m);
  }

  lemma AssignmentKeeps(m: Tokens)
    requires Edge(m)
    ensures Keeps(ParseAssignment, m)
  {
    hide ParseExpr;
    forall b | ParseAssignment(b).Got?
      ensures ParseAssignment(b + m) == Got(ParseAssignment(b).value, ParseAssignment(b).rest + m)
    {
      Front(b, m);
      var n := Name(b);
      Front(n.rest, m);
      ExprInContext(n.rest[1..], m);
    }
  }

  lemma DocInContext(b: Tokens, m: Tokens)
    requires Edge(m) && ParseDoc(b).Got?
    ensures ParseDoc(b + m) == Got(ParseDoc(b).value, ParseDoc(b).rest + m)
  {
    hide ParseFields;
    Front(b, m);
    FieldsInContext(b[1..], m);
  }

  lemma {:induction false} MoreDocsInContext(ds: seq<Expr>, b: Tokens, m: Tokens)
    requires Edge(m) && MoreDocs(ds, b).Got?
    ensures MoreDocs(ds, b + m) == Got(MoreDocs(ds, b).value, MoreDocs(ds, b).rest + m)
    decreases |b|
  {
    hide ParseDoc;
    Front(b, m);
    if Is(b, Comma) {
      DocInContext(b[1..], m);
      var d := ParseDoc(b[1..]);
      MoreDocsInContext(ds + [d.value], d.rest, m);
    }
  }

  lemma DocsInContext(b: Tokens, m: Tokens)
    requires Edge(m) && ParseDocs(b).Got?
    ensures ParseDocs(b + m) == Got(ParseDocs(b).value, ParseDocs(b).rest + m)
  {
    hide ParseDoc, MoreDocs;
    Front(b, m);
    Front(b[1..], m);
    if Is(b, LBrace) {
      DocInContext(b, m);
    } else if !Is(b[1..], RBracket) {
      DocInContext(b[1..], m);
      var d := ParseDoc(b[1..]);
      MoreDocsInContext([d.value], d.rest, m);
    }
  }

  lemma EdgeEnds(m: Tokens)
    requires Edge(m)
    ensures !Continues(m)
  {
  }

  /** A list that ends with the tokens ends there in front of any edge. */
  lemma {:induction false} MoreInContext<T(!new)>(f: Tokens -> Parsed<T>, xs: seq<T>, b: Tokens, m: Tokens)
    requires Consumes(f) && Edge(m) && Keeps(f, m) && More(f, xs, b).Got? && More(f, xs, b).rest == []
    ensures More(f, xs, b + m) == Got(More(f, xs, b).value, m)
    decreases |b|
  {
    Front(b, m);
    if |b| == 0 {
      EdgeEnds(m);
    } else {
      assert Continues(b);
      var x := f(b[1..]);
      assert |b| > 1;
      assert f(b[1..] + m) == Got(x.value, x.rest + m);
      assert Continues(b + m);
      MoreInContext(f, xs + [x.value], x.rest, m);
    }
  }

  lemma SeveralInContext<T(!new)>(f: Tokens -> Parsed<T>, b: Tokens, m: Tokens)
    requires Consumes(f) && Edge(m) && Keeps(f, m) && Several(f, b).Got? && Several(f, b).rest == []
    ensures Several(f, b + m) == Got(Several(f, b).value, m)
  {
    var x := f(b);
    assert f(b + m) == Got(x.value, x.rest + m);
    MoreInContext(f, [x.value], x.rest, m);
  }

  // select, where count looks one token ahead

  predicate Bare(m: Tokens) { KeyAt(m, 0) }

  predicate IsCount(t: Token) { t.Ident? && t.name == COUNT }

  /** The item that a lone count becomes when a stage keyword follows it directly. */
  function Uncounted(item: SelectItem): SelectItem {
    if item.expr.AggCall? then SelectItem(Field(item.expr.agg), item.alias) else item
  }

  lemma LoneField(name: Text)
    ensures ParseExpr([Ident(name)]) == Got(Field(name), [])
  {
    var t := [Ident(name)];
    assert t[1..] == [];
    assert ParsePrimary(t) == Got(Field(name), []);
    assert ParseUnary(t) == Got(Field(name), []);
    assert OpLoop(LMul, Field(name), []) == Got(Field(name), []);
    assert ParseLevel(LMul, t) == Got(Field(name), []);
    assert OpLoop(LAdd, Field(name), []) == Got(Field(name), []);
    assert ParseLevel(LAdd, t) == Got(Field(name), []);
    assert ParseTail(Field(name), []) == Got(Field(name), []);
    assert ParsePredicate(t) == Got(Field(name), []);
    assert ParseNot(t) == Got(Field(name), []);
    assert OpLoop(LAnd, Field(name), []) == Got(Field(name), []);
    assert ParseLevel(LAnd, t) == Got(Field(name), []);
    assert OpLoop(LOr, Field(name), []) == Got(Field(name), []);
    assert ParseLevel(LOr, t) == Got(Field(name), []);
  }

  lemma SelectExprInContext(b: Tokens, m: Tokens)
    requires Edge(m) && SelectExpr(b).Got?
    ensures var r := SelectExpr(b);
      SelectExpr(b + m) == if |b| == 1 && IsCount(b[0]) && Bare(m) then Got(Field(b[0].name), m) else Got(r.value, r.rest + m)
    ensures |b| == 1 && IsCount(b[0]) ==> SelectExpr(b) == Got(AggCall(b[0].name, None), [])
  {
    hide ParseExpr;
    Front(b, m);
    if |b| == 1 && IsCount(b[0]) {
      LoneField(b[0].name);
      assert b == [Ident(b[0].name)];
      ExprInContext(b, m);
      assert [] + m == m;
    } else if SelectExpr(b) == ParseExpr(b) {
      ExprInContext(b, m);
    }
  }

  lemma ItemInContext(b: Tokens, m: Tokens)
    requires Edge(m) && ParseSelectItem(b).Got?
    ensures var r := ParseSelectItem(b);
      ParseSelectItem(b + m) == Got(if |b| == 1 && IsCount(b[0]) && Bare(m) then Uncounted(r.value) else r.value, r.rest + m)
  {
    hide SelectExpr;
    SelectExprInContext(b, m);
    var e := SelectExpr(b);
    Front(e.rest, m);
    if Is(e.rest, WAs) {
      NameLocal(e.rest[1..], m);
    }
    assert [] + m == m;
  }

  /** count with nothing behind it. */
  predicate LoneCount(item: SelectItem) { item.alias.None? && item.expr.AggCall? && item.expr.agg == COUNT && item.expr.arg.None? }

  lemma LoneCountIs(b: Tokens)
    requires ParseSelectItem(b).Got? && ParseSelectItem(b).rest == []
    ensures LoneCount(ParseSelectItem(b).value) <==> |b| == 1 && IsCount(b[0])
  {
    hide ParseExpr;
    if |b| == 1 && IsCount(b[0]) {
      assert SelectExpr(b) == Got(AggCall(b[0].name, None), b[1..]);
    }
  }

  function LastUncounted(items: seq<SelectItem>): seq<SelectItem> {
    if |items| > 0 && LoneCount(items[|items| - 1]) then items[|items| - 1 := Uncounted(items[|items| - 1])] else items
  }

  /** The last item, with nothing left behind it. */
  lemma LastItem(items: seq<SelectItem>, d: Tokens, m: Tokens)
    requires Consumes(ParseSelectItem) && Edge(m) && ParseSelectItem(d).Got? && ParseSelectItem(d).rest == []
    ensures var all := items + [ParseSelectItem(d).value];
      ParseSelectItem(d + m).Got? && ParseSelectItem(d + m).rest == m
      && More(ParseSelectItem, items + [ParseSelectItem(d + m).value], m) == Got(if Bare(m) then LastUncounted(all) else all, m)
  {
    hide ParseSelectItem;
    ItemInContext(d, m);
    LoneCountIs(d);
    EdgeEnds(m);
    assert [] + m == m;
    var x, x' := ParseSelectItem(d).value, ParseSelectItem(d + m).value;
    assert (items + [x])[|items| := x'] == items + [x'];
  }

  /** A list that ends with the tokens: in front of a keyword its lone final count turns into a field, else nothing changes. */
  lemma {:induction false} ItemsInContext(items: seq<SelectItem>, b: Tokens, m: Tokens)
    requires Consumes(ParseSelectItem) && Edge(m) && |b| > 0
    requires More(ParseSelectItem, items, b).Got? && More(ParseSelectItem, items, b).rest == []
    ensures var all := More(ParseSelectItem, items, b).value;
      More(ParseSelectItem, items, b + m) == Got(if Bare(m) then LastUncounted(all) else all, m)
    decreases |b|
  {
    hide ParseSelectItem, LastUncounted;
    Front(b, m);
    var d := b[1..];
    assert Continues(b);
    var x := ParseSelectItem(d);
    ItemInContext(d, m);
    assert |b| > 1 && Continues(b + m);
    if |x.rest| == 0 {
      LastItem(items, d, m);
    } else {
      ItemsInContext(items + [x.value], x.rest, m);
    }
  }

  lemma SelectInContext(b: Tokens, m: Tokens)
    requires Consumes(ParseSelectItem) && Edge(m)
    requires Several(ParseSelectItem, b).Got? && Several(ParseSelectItem, b).rest == []
    ensures var all := Several(ParseSelectItem, b).value;
      Several(ParseSelectItem, b + m) == Got(if Bare(m) then LastUncounted(all) else all, m)
  {
    hide ParseSelectItem, LastUncounted;
    var x := ParseSelectItem(b);
    ItemInContext(b, m);
    if |x.rest| == 0 {
      LastItem([], b, m);
      assert [] + [x.value] == [x.value];
      assert [] + [ParseSelectItem(b + m).value] == [ParseSelectItem(b + m).value];
    } else {
      ItemsInContext([x.value], x.rest, m);
    }
  }

  // whole stages

  /** A stage with a keyword right behind it: a select loses a lone final count. */
  function BeforeKeyword(s: Stage): Stage {
    if s.Select? && s.items.Some? then Select(Some(LastUncounted(s.items.value))) else s
  }

  function InFront(s: Stage, m: Tokens): Stage { if Bare(m) then BeforeKeyword(s) else s }

  lemma ListStageInContext(k: Keyword, u: Tokens, m: Tokens)
    requires IsList(k) && Edge(m) && ParseListStage(k, u).Got? && ParseListStage(k, u).rest == []
    ensures ParseListStage(k, u + m) == Got(InFront(ParseListStage(k, u).value, m), m)
  {
    hide Name, ParseKey, ParseAssignment, Several, ParseSelectItem, LastUncounted, Bare;
    Front(u, m);
    ParsersConsume();
    assert [] + m == m;
    match k
    case KSelect =>
      if !Is(u, Star) {
        SelectInContext(u, m);
        StarStays(u, m);
      }
    case KDrop =>
      NameKeeps(m);
      SeveralInContext(Name, u, m);
    case KOrder =>
      KeyKeeps(m);
      SeveralInContext(ParseKey, u, m);
    case KGroup =>
      NameKeeps(m);
      SeveralInContext(Name, u, m);
    case KUpdate =>
      AssignmentKeeps(m);
      SeveralInContext(ParseAssignment, u[1..], m);
  }

  lemma OtherStageInContext(k: Keyword, u: Tokens, m: Tokens)
    requires Edge(m) && ParseOtherStage(k, u).Got? && ParseOtherStage(k, u).rest == []
    ensures ParseOtherStage(k, u + m) == Got(ParseOtherStage(k, u).value, m) && !ParseOtherStage(k, u).value.Select?
  {
    hide ParseExpr, ParseDocs, ParseDoc, ParseJoin;
    Front(u, m);
    assert [] + m == m;
    match k
    case KWhere => ExprInContext(u, m);
    case KJoin => JoinInContext(u, m);
    case KInsert => DocsInContext(u, m);
    case KUpsert => DocInContext(u, m);
    case _ =>
  }

  /** A stage that parses alone parses in front of every edge, up to the edge. */
  lemma StageInContext(b: Tokens, m: Tokens)
    requires Edge(m) && ParseStage(b).Got? && ParseStage(b).rest == []
    ensures ParseStage(b + m) == Got(InFront(ParseStage(b).value, m), m)
  {
    hide ParseListStage, ParseOtherStage;
    Front(b, m);
    if IsList(b[0].k) {
      ListStageInContext(b[0].k, b[1..], m);
    } else {
      OtherStageInContext(b[0].k, b[1..], m);
    }
  }

  lemma StarStays(u: Tokens, m: Tokens)
    requires Several(ParseSelectItem, u).Got?
    ensures |u| > 0
  {
  }

  lemma JoinInContext(u: Tokens, m: Tokens)
    requires ParseJoin(u).Got? && ParseJoin(u).rest == []
    ensures ParseJoin(u + m) == Got(ParseJoin(u).value, m) && ParseJoin(u).value.Join?
  {
    assert (u + m)[5..] == m;
  }

  lemma HintInContext(c: Text, b: Tokens, m: Tokens)
    requires Edge(m) && ParseHint(c, b).Got?
    ensures ParseHint(c, b + m) == Got(ParseHint(c, b).value, ParseHint(c, b).rest + m)
  {
    hide Name;
    Front(b, m);
    if Is(b, WUse) {
      Front(b[1..], m);
      NameLocal(b[2..], m);
    }
  }

  lemma FromInContext(b: Tokens, m: Tokens)
    requires Edge(m) && ParseFrom(b).Got? && ParseFrom(b).rest == []
    ensures ParseFrom(b + m) == Got(ParseFrom(b).value, m)
  {
    hide Name, ParseHint;
    Front(b, m);
    NameLocal(b[1..], m);
    var c := Name(b[1..]);
    HintInContext(c.value, c.rest, m);
    assert [] + m == m;
  }

  // the pipeline

  datatype Separator = NoSep | PipeSep | CommaSep

  function Sep(s: Separator): Tokens {
    match s
    case NoSep => []
    case PipeSep => [W(Pipe)]
    case CommaSep => [W(Comma)]
  }

  /** Stages i and up, with separator j between stages j and j + 1. */
  function Written(bs: seq<Tokens>, seps: seq<Separator>, i: nat): Tokens
    requires |bs| == |seps| + 1 && i < |bs|
    decreases |bs| - i
  {
    if i + 1 == |bs| then bs[i] else bs[i] + (Sep(seps[i]) + Written(bs, seps, i + 1))
  }

  /** Each list of tokens is one stage, the first a from. */
  ghost predicate StagesAlone(bs: seq<Tokens>, ss: seq<Stage>) {
    && |bs| == |ss| > 0 && ParseFrom(bs[0]) == Got(ss[0], [])
    && forall i :: 0 < i < |bs| ==> StageAlone(bs[i], ss[i])
  }

  ghost predicate StageAlone(b: Tokens, s: Stage) { ParseStage(b) == Got(s, []) }

  /** Stage i as it is read: only a lone count at the end of a select with no separator behind it is read otherwise. */
  function Read(ss: seq<Stage>, seps: seq<Separator>, i: nat): Stage
    requires |ss| == |seps| + 1 && i < |ss|
  {
    if i < |seps| && seps[i] == NoSep then BeforeKeyword(ss[i]) else ss[i]
  }

  function ReadFrom(ss: seq<Stage>, seps: seq<Separator>, i: nat): (r: seq<Stage>)
    requires |ss| == |seps| + 1 && i <= |ss|
    ensures |r| == |ss| - i && forall j :: 0 <= j < |r| ==> r[j] == Read(ss, seps, i + j)
    decreases |ss| - i
  {
    if i == |ss| then [] else [Read(ss, seps, i)] + ReadFrom(ss, seps, i + 1)
  }

  lemma StageStarts(b: Tokens)
    requires ParseStage(b).Got?
    ensures KeyAt(b, 0)
  {
  }

  lemma WrittenStarts(bs: seq<Tokens>, ss: seq<Stage>, seps: seq<Separator>, i: nat)
    requires StagesAlone(bs, ss) && |bs| == |seps| + 1 && 0 < i < |bs|
    ensures KeyAt(Written(bs, seps, i), 0)
  {
    hide ParseStage;
    assert StageAlone(bs[i], ss[i]);
    StageStarts(bs[i]);
  }

  lemma SepIsEdge(s: Separator, t: Tokens)
    requires KeyAt(t, 0)
    ensures Edge(Sep(s) + t) && (Bare(Sep(s) + t) <==> s == NoSep)
    ensures s != NoSep ==> (Is(Sep(s) + t, Pipe) || Is(Sep(s) + t, Comma)) && KeyAt(Sep(s) + t, 1) && (Sep(s) + t)[1..] == t
    ensures s == NoSep ==> Sep(s) + t == t && !Is(t, Pipe) && !Is(t, Comma)
  {
  }

  /** The stages from i on, behind their separator, add what they are read as. */
  lemma {:induction false} StagesRead(acc: seq<Stage>, bs: seq<Tokens>, ss: seq<Stage>, seps: seq<Separator>, i: nat)
    requires StagesAlone(bs, ss) && |bs| == |seps| + 1 && 0 < i < |bs|
    ensures ParseStages(acc, Sep(seps[i - 1]) + Written(bs, seps, i)) == Got(acc + ReadFrom(ss, seps, i), [])
    decreases |bs| - i
  {
    hide ParseStage, LastUncounted, Sep;
    var t := Written(bs, seps, i);
    WrittenStarts(bs, ss, seps, i);
    SepIsEdge(seps[i - 1], t);
    assert StageAlone(bs[i], ss[i]);
    if i + 1 == |bs| {
      assert ReadFrom(ss, seps, i + 1) == [] && [ss[i]] + [] == [ss[i]];
      NoStages(acc + [ss[i]]);
    } else {
      var m := Sep(seps[i]) + Written(bs, seps, i + 1);
      WrittenStarts(bs, ss, seps, i + 1);
      SepIsEdge(seps[i], Written(bs, seps, i + 1));
      StageInContext(bs[i], m);
      assert ParseStage(t) == Got(Read(ss, seps, i), m);
      StagesRead(acc + [Read(ss, seps, i)], bs, ss, seps, i + 1);
      assert acc + [Read(ss, seps, i)] + ReadFrom(ss, seps, i + 1) == acc + ReadFrom(ss, seps, i);
    }
  }

  /** Pipes, commas or nothing: the stages of a pipeline are read as they are alone, but for that count. */
  lemma PipelineRead(bs: seq<Tokens>, ss: seq<Stage>, seps: seq<Separator>)
    requires StagesAlone(bs, ss) && |bs| == |seps| + 1
    ensures ParsePipeline(Written(bs, seps, 0)) == Got(ReadFrom(ss, seps, 0), [])
  {
    hide ParseStages, ParseFrom, Sep;
    var all := ReadFrom(ss, seps, 0);
    FromIsFirst(bs[0]);
    if |bs| == 1 {
      NoStages([ss[0]]);
      assert all == [ss[0]];
    } else {
      var m := Sep(seps[0]) + Written(bs, seps, 1);
      WrittenStarts(bs, ss, seps, 1);
      SepIsEdge(seps[0], Written(bs, seps, 1));
      FromInContext(bs[0], m);
      StagesRead([ss[0]], bs, ss, seps, 1);
      assert all == [ss[0]] + ReadFrom(ss, seps, 1);
    }
  }

  lemma FromIsFirst(b: Tokens)
    requires ParseFrom(b).Got?
    ensures ParseFrom(b).value.From?
  {
  }

  lemma NoStages(acc: seq<Stage>)
    ensures ParseStages(acc, []) == Got(acc, [])
  {
  }

  /** A lone count ends the select and nothing separates it from the next stage. */
  predicate Glued(ss: seq<Stage>, seps: seq<Separator>, i: nat)
    requires |ss| == |seps| + 1 && i < |ss|
  {
    && i < |seps| && seps[i] == NoSep && ss[i].Select? && ss[i].items.Some?
    && |ss[i].items.value| > 0 && LoneCount(ss[i].items.value[|ss[i].items.value| - 1])
  }

  lemma ReadChanges(ss: seq<Stage>, seps: seq<Separator>, i: nat)
    requires |ss| == |seps| + 1 && i < |ss|
    ensures Read(ss, seps, i) == ss[i] <==> !Glued(ss, seps, i)
  {
    if Glued(ss, seps, i) {
      var items := ss[i].items.value;
      assert LastUncounted(items)[|items| - 1] != items[|items| - 1];
    }
  }

  /** Any choice of separators gives the same pipeline, exactly when no select ends in a lone count right before the next stage. */
  lemma SeparatorsDoNotMatter(bs: seq<Tokens>, ss: seq<Stage>, seps: seq<Separator>)
    requires StagesAlone(bs, ss) && |bs| == |seps| + 1
    ensures ParsePipeline(Written(bs, seps, 0)).Got?
    ensures ParsePipeline(Written(bs, seps, 0)) == Got(ss, []) <==> forall i :: 0 <= i < |ss| ==> !Glued(ss, seps, i)
  {
    hide ParsePipeline, Written, Glued, StagesAlone;
    StagesCount(bs, ss);
    PipelineRead(bs, ss, seps);
    var all := ReadFrom(ss, seps, 0);
    forall i | 0 <= i < |ss|
      ensures all[i] == ss[i] <==> !Glued(ss, seps, i)
    {
      ReadChanges(ss, seps, i);
    }
    if forall i :: 0 <= i < |ss| ==> !Glued(ss, seps, i) {
      assert all == ss;
    }
  }

  lemma StagesCount(bs: seq<Tokens>, ss: seq<Stage>)
    requires StagesAlone(bs, ss)
    ensures |bs| == |ss| > 0
  {
  }

  // the failure, on three short stages

  /** One letter is a name. */
  lemma AsciiText(b: Bytes)
    requires forall i :: 0 <= i < |b| ==> b[i] <= 0x7F
    ensures Utf8(b)
  {
    if |b| == 0 {
    } else {
      AsciiText(b[1..]);
    }
  }

  function CountName(): Text {
    AsciiText(COUNT);
    COUNT
  }

  function U(): Text {
    AsciiText([0x75]);
    [0x75]
  }

  /** `from u select count limit 1`: each stage alone counts, written without separators the select reads a field named count. */
  lemma CountBeforeLimit()
    ensures var bs := [[Key(KFrom), Ident(U())], [Key(KSelect), Ident(CountName())], [Key(KLimit), IntLit(1)]];
      var counted, field := SelectItem(AggCall(CountName(), None), None), SelectItem(Field(CountName()), None);
      && StagesAlone(bs, [From(U(), None), Select(Some([counted])), Limit(1)])
      && ParsePipeline(Written(bs, [NoSep, NoSep], 0)) == Got([From(U(), None), Select(Some([field])), Limit(1)], [])
      && ParsePipeline(Written(bs, [PipeSep, PipeSep], 0)) == Got([From(U(), None), Select(Some([counted])), Limit(1)], [])
  {
    hide ParsePipeline, Written, ParseStage, ParseFrom, ReadFrom, Utf8;
    var bs := [[Key(KFrom), Ident(U())], [Key(KSelect), Ident(CountName())], [Key(KLimit), IntLit(1)]];
    var counted, field := SelectItem(AggCall(CountName(), None), None), SelectItem(Field(CountName()), None);
    var ss := [From(U(), None), Select(Some([counted])), Limit(1)];
    FromAlone(U());
    SelectCountAlone();
    LimitAlone();
    assert StagesAlone(bs, ss);
    PipelineRead(bs, ss, [NoSep, NoSep]);
    PipelineRead(bs, ss, [PipeSep, PipeSep]);
    CountLost(CountName());
    assert ReadFrom(ss, [NoSep, NoSep], 0) == [From(U(), None), Select(Some([field])), Limit(1)];
    assert ReadFrom(ss, [PipeSep, PipeSep], 0) == ss;
  }

  lemma CountLost(name: Text)
    requires name == COUNT
    ensures BeforeKeyword(Select(Some([SelectItem(AggCall(name, None), None)]))) == Select(Some([SelectItem(Field(name), None)]))
  {
    var items := [SelectItem(AggCall(name, None), None)];
    assert LastUncounted(items) == [SelectItem(Field(name), None)];
  }

  lemma FromAlone(c: Text)
    ensures ParseFrom([Key(KFrom), Ident(c)]) == Got(From(c, None), [])
  {
    assert [Key(KFrom), Ident(c)][1..] == [Ident(c)] && [Ident(c)][1..] == [];
  }

  lemma SelectCountAlone()
    ensures StageAlone([Key(KSelect), Ident(CountName())], Select(Some([SelectItem(AggCall(CountName(), None), None)])))
  {
    var t := [Key(KSelect), Ident(CountName())];
    assert t[1..] == [Ident(CountName())] && t[1..][1..] == [];
    assert SelectExpr(t[1..]) == Got(AggCall(CountName(), None), []);
  }

  lemma LimitAlone()
    ensures StageAlone([Key(KLimit), IntLit(1)], Limit(1))
  {
    assert [Key(KLimit), IntLit(1)][1..] == [IntLit(1)] && [IntLit(1)][1..] == [];
  }
}
