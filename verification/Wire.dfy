/** The orders in which a document's fields may be written. */
module Orders {
  import opened Bytes
  import opened Values
  import opened Format
  import opened Nodes
  import Tree

  ghost predicate Apart(fs: seq<Field>) {
    forall i, j :: 0 <= i < j < |fs| ==> fs[i].key != fs[j].key
  }

  /** No document inside the term repeats a key. */
  ghost predicate NoRepeats(t: Term) {
    match t
    case TArray(items) => forall i :: 0 <= i < |items| ==> NoRepeats(items[i])
    case TDoc(fields) => Apart(fields) && forall i :: 0 <= i < |fields| ==> NoRepeats(fields[i].value)
    case _ => true
  }

  /** The term lists the fields of the value and of all values inside it in some order. */
  ghost predicate Lists(t: Term, v: Value) {
    NoRepeats(t) && Forget(t) == v
  }

  lemma {:induction false} ForgetItem(ts: seq<Term>, i: nat)
    requires i < |ts|
    ensures ForgetItems(ts)[i] == Forget(ts[i])
  {
    if i < |ts| - 1 {
      ForgetItem(ts[..|ts| - 1], i);
    }
  }

  lemma {:induction false} ForgetKeys(fs: seq<Field>, k: Text)
    ensures k in ForgetFields(fs) <==> exists i :: 0 <= i < |fs| && fs[i].key == k
  {
    if |fs| == 0 {
    } else {
      var n := |fs| - 1;
      ForgetKeys(fs[..n], k);
      assert forall i :: 0 <= i < n ==> fs[..n][i] == fs[i];
    }
  }

  lemma {:induction false} ForgetField(fs: seq<Field>, i: nat)
    requires Apart(fs) && i < |fs|
    ensures fs[i].key in ForgetFields(fs) && ForgetFields(fs)[fs[i].key] == Forget(fs[i].value)
  {
    if i < |fs| - 1 {
      ForgetField(fs[..|fs| - 1], i);
    }
  }

  lemma {:induction false} ForgetSize(fs: seq<Field>)
    requires Apart(fs)
    ensures |ForgetFields(fs)| == |fs|
  {
    if |fs| == 0 {
    } else {
      var n := |fs| - 1;
      ForgetSize(fs[..n]);
      ForgetKeys(fs[..n], fs[n].key);
      assert ForgetFields(fs).Keys == ForgetFields(fs[..n]).Keys + {fs[n].key};
    }
  }

  /** All lengths in the value are below 2^32. */
  ghost predicate SmallValue(v: Value) {
    match v
    case Str(s) => |s| < LIMIT
    case Array(items) => |items| < LIMIT && forall i :: 0 <= i < |items| ==> SmallValue(items[i])
    case Doc(fields) => |fields| < LIMIT && forall k :: k in fields ==> |k| < LIMIT && SmallValue(fields[k])
    case _ => true
  }

  lemma {:induction false} SmallItemsAll(ts: seq<Term>)
    requires forall i :: 0 <= i < |ts| ==> Small(ts[i])
    ensures SmallItems(ts)
  {
    hide Small;
    if |ts| == 0 {
    } else {
      SmallItemsAll(ts[1..]);
    }
  }

  lemma {:induction false} SmallFieldsAll(fs: seq<Field>)
    requires forall i :: 0 <= i < |fs| ==> |fs[i].key| < LIMIT && Small(fs[i].value)
    ensures SmallFields(fs)
  {
    hide Small;
    if |fs| == 0 {
    } else {
      SmallFieldsAll(fs[1..]);
    }
  }

  /** Writing the fields in another order does not change which lengths occur. */
  lemma {:induction false} OrderIsSmall(t: Term)
    requires NoRepeats(t) && SmallValue(Forget(t))
    ensures Small(t)
  {
    match t
    case TArray(items) =>
      forall i | 0 <= i < |items|
        ensures Small(items[i])
      {
        ForgetItem(items, i);
        assert SmallValue(ForgetItems(items)[i]);
        OrderIsSmall(items[i]);
      }
      SmallItemsAll(items);
    case TDoc(fields) =>
      forall i | 0 <= i < |fields|
        ensures |fields[i].key| < LIMIT && Small(fields[i].value)
      {
        ForgetField(fields, i);
        OrderIsSmall(fields[i].value);
      }
      SmallFieldsAll(fields);
      ForgetSize(fields);
    case _ =>
  }

  // the sorted order

  ghost function Least(s: set<Text>): (r: Text)
    requires s != {}
    ensures r in s && forall k :: k in s ==> Rank(r) <= Rank(k)
  {
    var x :| x in s;
    if s == {x} then x else
      assert s - {x} != {} by { assert s == {x} + (s - {x}); }
      var m := Least(s - {x});
      if Rank(x) < Rank(m) then x else m
  }

  ghost function SortedKeys(s: set<Text>): (r: seq<Text>)
    ensures forall k :: k in r <==> k in s
  {
    if s == {} then [] else [Least(s)] + SortedKeys(s - {Least(s)})
  }

  lemma {:induction false} SortedKeysSorted(s: set<Text>)
    ensures Nodes.Sorted(SortedKeys(s))
  {
    hide Rank, Least;
    if s != {} {
      var k, more := Least(s), SortedKeys(s - {Least(s)});
      SortedKeysSorted(s - {k});
      forall j | 0 <= j < |more|
        ensures Rank(k) < Rank(more[j])
      {
        assert more[j] in s - {k};
        RankOrder(k, more[j]);
      }
    }
  }

  /** Keys have one strictly increasing order. */
  lemma {:induction false} SortedUnique(a: seq<Text>, b: seq<Text>)
    requires Nodes.Sorted(a) && Nodes.Sorted(b) && forall k: Text :: k in a <==> k in b
    ensures a == b
  {
    hide Rank;
    if |b| > 0 {
      assert b[0] in b && b[0] in a;
    }
    if |a| == 0 {
    } else {
      assert a[0] in a && a[0] in b;
      var i :| 0 <= i < |b| && b[i] == a[0];
      var j :| 0 <= j < |a| && a[j] == b[0];
      assert a[0] == b[0];
      forall k: Text
        ensures k in a[1..] <==> k in b[1..]
      {
        assert k in a <==> k == a[0] || k in a[1..];
        assert k in b <==> k == b[0] || k in b[1..];
        assert a[0] !in a[1..] && b[0] !in b[1..];
      }
      SortedUnique(a[1..], b[1..]);
      assert a == [a[0]] + a[1..] && b == [b[0]] + b[1..];
    }
  }

  /** keys.sort(): whatever order the keys come in, the result is the same. */
  method SortKeys(s: set<Text>) returns (keys: seq<Text>)
    ensures keys == SortedKeys(s)
  {
    hide Rank, LowerBound;
    keys := [];
    var left := s;
    while left != {}
      invariant Nodes.Sorted(keys) && left <= s && forall k: Text :: k in keys <==> k in s - left
    {
      var k :| k in left;
      var i := LowerBound(keys, k);
      if i < |keys| {
        assert keys[i] in keys;
        RankOrder(keys[i], k);
      }
      Tree.SortedInsert(keys, i, k);
      forall x: Text
        ensures x in keys[..i] + [k] + keys[i..] <==> x in keys || x == k
      {
        InsertedIn(keys, i, k, x);
      }
      keys := keys[..i] + [k] + keys[i..];
      left := left - {k};
    }
    SortedKeysSorted(s);
    SortedUnique(keys, SortedKeys(s));
  }

  /** The one term of a value whose documents list their fields in key order. */
  ghost function Canonical(v: Value): Term
    decreases v, 0
  {
    match v
    case Null => TNull
    case Bool(b) => TBool(b)
    case Int(n) => TInt(n)
    case Float(bits) => TFloat(bits)
    case Str(s) => TStr(s)
    case Array(items) => TArray(seq(|items|, i requires 0 <= i < |items| => Canonical(items[i])))
    case Doc(fields) => TDoc(CanonicalFields(v, SortedKeys(fields.Keys)))
  }

  ghost function CanonicalFields(v: Value, ks: seq<Text>): (fs: seq<Field>)
    requires v.Doc? && forall k :: k in ks ==> k in v.fields
    ensures |fs| == |ks|
    decreases v, 0, |ks|
  {
    if |ks| == 0 then []
    else
      var n := |ks| - 1;
      CanonicalFields(v, ks[..n]) + [Field(ks[n], Canonical(v.fields[ks[n]]))]
  }

  lemma {:induction false} CanonicalField(v: Value, ks: seq<Text>, i: nat)
    requires v.Doc? && (forall k :: k in ks ==> k in v.fields) && i < |ks|
    ensures CanonicalFields(v, ks)[i] == Field(ks[i], Canonical(v.fields[ks[i]]))
    decreases |ks|
  {
    hide Canonical;
    if i < |ks| - 1 {
      CanonicalField(v, ks[..|ks| - 1], i);
    }
  }

  /** Sorting the fields is one of the orders: it loses nothing. */
  lemma {:induction false} CanonicalOrders(v: Value)
    ensures Lists(Canonical(v), v)
    decreases v
  {
    match v
    case Array(items) =>
      var ts := Canonical(v).items;
      forall i | 0 <= i < |items|
        ensures Lists(ts[i], items[i]) && ForgetItems(ts)[i] == items[i]
      {
        CanonicalOrders(items[i]);
        ForgetItem(ts, i);
      }
      assert ForgetItems(ts) == items;
    case Doc(fields) =>
      var ks := SortedKeys(fields.Keys);
      var fs := Canonical(v).fields;
      SortedKeysSorted(fields.Keys);
      forall i | 0 <= i < |fs|
        ensures fs[i].key == ks[i] && ks[i] in fields && Lists(fs[i].value, fields[ks[i]])
      {
        assert ks[i] in ks;
        CanonicalField(v, ks, i);
        CanonicalOrders(fields[ks[i]]);
      }
      assert Apart(fs);
      CanonicalForgets(fs, fields, ks);
    case _ =>
  }

  lemma CanonicalForgets(fs: seq<Field>, fields: Document, ks: seq<Text>)
    requires |fs| == |ks| && Apart(fs) && forall k :: k in ks <==> k in fields
    requires forall i :: 0 <= i < |fs| ==> fs[i].key == ks[i] && ks[i] in fields && Forget(fs[i].value) == fields[ks[i]]
    ensures ForgetFields(fs) == fields
  {
    hide Forget, ForgetFields;
    forall k: Text
      ensures k in ForgetFields(fs) <==> k in fields
      ensures k in fields ==> ForgetFields(fs)[k] == fields[k]
    {
      ForgetKeys(fs, k);
      if k in fields {
        var i :| 0 <= i < |ks| && ks[i] == k;
        ForgetField(fs, i);
      }
    }
  }
}

/** src/wire.rs: the value encoding of the binary protocol, written in key order. */
module Wire {
  import opened Bytes
  import opened Values
  import opened Format
  import opened Orders

  /** The bytes a value is sent as. */
  ghost function Sent(v: Value): Bytes { Encode(Canonical(v)) }

  ghost function SentBody(d: Document): Bytes { EncodeBody(Canonical(Doc(d)).fields) }

  /** Reading back what was sent gives the value, whatever follows it. */
  lemma SentRoundTrip(v: Value, rest: Bytes)
    requires SmallValue(v)
    ensures var r := Parse(true, Sent(v) + rest); r.Ok? && Forget(r.value) == v && r.rest == rest
  {
    hide Encode, Parse, Canonical;
    CanonicalOrders(v);
    OrderIsSmall(Canonical(v));
    RoundTrip(true, Canonical(v), rest);
  }

  lemma SentBodyRoundTrip(d: Document, rest: Bytes)
    requires SmallValue(Doc(d))
    ensures var r := ParseBody(true, SentBody(d) + rest); r.Ok? && ForgetFields(r.value) == d && r.rest == rest
  {
    hide EncodeBody, ParseBody;
    CanonicalOrders(Doc(d));
    OrderIsSmall(Canonical(Doc(d)));
    RoundTripBody(true, Canonical(Doc(d)).fields, rest);
  }

  /** Different values are sent as different bytes, and neither is a prefix of the other. */
  lemma SentUnique(v: Value, u: Value, x: Bytes, y: Bytes)
    requires SmallValue(v) && SmallValue(u) && Sent(v) + x == Sent(u) + y
    ensures v == u && x == y
  {
    hide Encode, Parse, Canonical, Sent;
    SentRoundTrip(v, x);
    SentRoundTrip(u, y);
  }

  lemma SentPrefix(v: Value, k: nat)
    requires SmallValue(v) && k < |Sent(v)|
    ensures Parse(true, Sent(v)[..k]) == Fail(Truncated)
  {
    hide Encode, Parse, Canonical;
    CanonicalOrders(v);
    OrderIsSmall(Canonical(v));
    PrefixTruncated(true, Canonical(v), k);
  }

  class Output {
    var bytes: Bytes
    constructor ()
      ensures bytes == []
    {
      bytes := [];
    }
  }

  method PutStr(out: Output, s: Text)
    modifies out
    ensures out.bytes == old(out.bytes) + Text4(s)
  {
    out.bytes := out.bytes + LE(|s|, 4);
    out.bytes := out.bytes + s;
  }

  method PutValue(out: Output, v: Value)
    modifies out
    ensures out.bytes == old(out.bytes) + Sent(v)
    decreases v, 1
  {
    hide LE;
    match v {
      case Null => out.bytes := out.bytes + [0];
      case Bool(b) => out.bytes := out.bytes + [if b then 2 else 1];
      case Int(n) =>
        out.bytes := out.bytes + [3];
        out.bytes := out.bytes + LE(ToU64(n), 8);
      case Float(bits) =>
        out.bytes := out.bytes + [4];
        out.bytes := out.bytes + LE(bits, 8);
      case Str(s) =>
        out.bytes := out.bytes + [5];
        PutStr(out, s);
      case Array(items) =>
        out.bytes := out.bytes + [6];
        out.bytes := out.bytes + LE(|items|, 4);
        PutItems(out, v);
      case Doc(fields) =>
        out.bytes := out.bytes + [7];
        PutDocumentBody(out, v);
    }
  }

  /** The element loop of an array. */
  method PutItems(out: Output, v: Value)
    requires v.Array?
    modifies out
    ensures out.bytes == old(out.bytes) + EncodeItems(Canonical(v).items)
    decreases v, 0
  {
    hide Encode, Canonical, EncodeItems;
    CanonicalItems(v);
    ghost var ts := Canonical(v).items;
    EncodeNoItems(ts);
    for i := 0 to |v.items|
      invariant out.bytes == old(out.bytes) + EncodeItems(ts[..i])
    {
      PutValue(out, v.items[i]);
      EncodeItemsAppend(ts[..i], ts[i]);
      assert ts[..i + 1] == ts[..i] + [ts[i]];
    }
    assert ts[..|ts|] == ts;
  }

  lemma CanonicalItems(v: Value)
    requires v.Array?
    ensures Canonical(v).TArray? && |Canonical(v).items| == |v.items|
    ensures forall i :: 0 <= i < |v.items| ==> Canonical(v).items[i] == Canonical(v.items[i])
  {
  }

  lemma CanonicalDoc(v: Value)
    requires v.Doc?
    ensures Canonical(v) == TDoc(CanonicalFields(v, SortedKeys(v.fields.Keys)))
  {
  }

  lemma EncodeNoItems(ts: seq<Term>)
    ensures EncodeItems(ts[..0]) == []
  {
  }

  lemma {:induction false} EncodeItemsAppend(ts: seq<Term>, t: Term)
    ensures EncodeItems(ts + [t]) == EncodeItems(ts) + Encode(t)
  {
    hide Encode;
    if |ts| == 0 {
    } else {
      EncodeItemsAppend(ts[1..], t);
      assert (ts + [t])[1..] == ts[1..] + [t];
    }
  }

  lemma {:induction false} EncodeFieldsAppend(fs: seq<Field>, f: Field)
    ensures EncodeFields(fs + [f]) == EncodeFields(fs) + Text4(f.key) + Encode(f.value)
  {
    hide Encode, Text4, EncodeFields;
    EncodeNoFields();
    FieldsHead(fs + [f]);
    if |fs| == 0 {
      assert (fs + [f])[1..] == [];
    } else {
      EncodeFieldsAppend(fs[1..], f);
      assert (fs + [f])[1..] == fs[1..] + [f];
      FieldsHead(fs);
    }
  }

  lemma FieldsHead(fs: seq<Field>)
    requires |fs| > 0
    ensures EncodeFields(fs) == Text4(fs[0].key) + Encode(fs[0].value) + EncodeFields(fs[1..])
  {
    hide Encode, Text4;
  }

  /** Field count, then the fields in key order. */
  method PutDocumentBody(out: Output, v: Value)
    requires v.Doc?
    modifies out
    ensures out.bytes == old(out.bytes) + SentBody(v.fields)
    decreases v, 0, 1
  {
    hide Encode, Canonical, EncodeFields, SortedKeys;
    out.bytes := out.bytes + LE(|v.fields|, 4);
    var keys := SortKeys(v.fields.Keys);
    CanonicalDoc(v);
    CanonicalCount(v);
    PutFields(out, v, keys);
  }

  /** The field loop of a document. */
  method PutFields(out: Output, v: Value, keys: seq<Text>)
    requires v.Doc? && forall k :: k in keys ==> k in v.fields
    modifies out
    ensures out.bytes == old(out.bytes) + EncodeFields(CanonicalFields(v, keys))
    decreases v, 0, 0
  {
    hide Encode, Canonical, EncodeFields, Text4, CanonicalFields;
    ghost var fs := CanonicalFields(v, keys);
    CanonicalFieldsLength(v, keys);
    assert fs[..0] == [];
    EncodeNoFields();
    for i := 0 to |keys|
      invariant out.bytes == old(out.bytes) + EncodeFields(fs[..i])
    {
      assert keys[i] in keys;
      CanonicalField(v, keys, i);
      PutStr(out, keys[i]);
      PutValue(out, v.fields[keys[i]]);
      EncodeFieldsAppend(fs[..i], fs[i]);
      assert fs[..i + 1] == fs[..i] + [fs[i]];
    }
    assert fs[..|fs|] == fs;
  }

  lemma CanonicalFieldsLength(v: Value, ks: seq<Text>)
    requires v.Doc? && forall k :: k in ks ==> k in v.fields
    ensures |CanonicalFields(v, ks)| == |ks|
  {
  }

  lemma EncodeNoFields()
    ensures EncodeFields([]) == []
  {
  }

  lemma CanonicalCount(v: Value)
    requires v.Doc?
    ensures |SortedKeys(v.fields.Keys)| == |v.fields|
  {
    hide Forget, Canonical;
    CanonicalDoc(v);
    CanonicalOrders(v);
    ForgetSize(CanonicalFields(v, SortedKeys(v.fields.Keys)));
    ForgetDoc(Canonical(v));
  }

  lemma ForgetDoc(t: Term)
    requires t.TDoc?
    ensures Forget(t) == Doc(ForgetFields(t.fields)) && (NoRepeats(t) ==> Apart(t.fields))
  {
  }

  datatype Result<+T> = Good(value: T) | Bad(error: Error)

  /** A cursor over received bytes. */
  class Reader {
    const buf: Bytes
    var pos: nat

    ghost predicate Valid()
      reads this
    {
      pos <= |buf|
    }

    ghost function Left(): Bytes
      reads this
      requires Valid()
    {
      buf[pos..]
    }

    constructor (buf: Bytes)
      ensures Valid() && this.buf == buf && pos == 0
    {
      this.buf := buf;
      pos := 0;
    }

    method Take(n: nat) returns (r: Result<Bytes>)
      requires Valid()
      modifies this
      ensures Valid() && r == if |old(Left())| < n then Bad(Truncated) else Good(old(Left())[..n])
      ensures Left() == if r.Good? then old(Left())[n..] else old(Left())
    {
      if |buf| - pos < n {
        return Bad(Truncated);
      }
      r := Good(buf[pos..pos + n]);
      assert buf[pos..pos + n] == Left()[..n];
      pos := pos + n;
    }

    method U32() returns (r: Result<nat>)
      requires Valid()
      modifies this
      ensures Valid() && match TakeLen(old(Left())) {
        case Ok(n, rest) => r == Good(n) && Left() == rest
        case Fail(e) => r == Bad(e)
      }
    {
      var b := Take(4);
      if b.Bad? { return Bad(b.error); }
      r := Good(FromLE(b.value));
    }

    method U64() returns (r: Result<u64>)
      requires Valid()
      modifies this
      ensures Valid() && match TakeU64(old(Left())) {
        case Ok(n, rest) => r == Good(n) && Left() == rest
        case Fail(e) => r == Bad(e)
      }
    {
      var b := Take(8);
      if b.Bad? { return Bad(b.error); }
      Powers();
      LEofFromLE(b.value);
      r := Good(FromLE(b.value));
    }

    method Str() returns (r: Result<Text>)
      requires Valid()
      modifies this
      ensures Valid() && match TakeText(old(Left())) {
        case Ok(s, rest) => r == Good(s) && Left() == rest
        case Fail(e) => r == Bad(e)
      }
    {
      hide FromLE, Utf8;
      var n := U32();
      if n.Bad? { return Bad(n.error); }
      var b := Take(n.value);
      if b.Bad? { return Bad(b.error); }
      assert b.value == old(Left())[4..4 + n.value];
      if !Utf8(b.value) {
        return Bad(BadUtf8);
      }
      r := Good(b.value);
    }

    method Value() returns (r: Result<Value>)
      requires Valid()
      modifies this
      ensures Valid() && match Parse(true, old(Left())) {
        case Ok(t, rest) => r == Good(Forget(t)) && Left() == rest
        case Fail(e) => r == Bad(e)
      }
      decreases |buf| - pos, 1
    {
      hide FromLE, Utf8, TakeLen, TakeU64, TakeText;
      var tag := Take(1);
      if tag.Bad? { return Bad(tag.error); }
      assert Left() == old(Left())[1..];
      match tag.value[0] {
        case 0 => r := Good(Null);
        case 1 => r := Good(Bool(false));
        case 2 => r := Good(Bool(true));
        case 3 =>
          var n := U64();
          if n.Bad? { return Bad(n.error); }
          r := Good(Int(FromU64(n.value)));
        case 4 =>
          var n := U64();
          if n.Bad? { return Bad(n.error); }
          r := Good(Float(n.value));
        case 5 =>
          var s := Str();
          if s.Bad? { return Bad(s.error); }
          r := Good(Values.Str(s.value));
        case 6 =>
          var n := U32();
          if n.Bad? { return Bad(n.error); }
          TakeLenShrinks(old(Left())[1..]);
          if n.value > |buf| - pos {
            return Bad(Truncated);
          }
          var items := Items(n.value);
          if items.Bad? { return Bad(items.error); }
          r := Good(Array(items.value));
        case 7 =>
          var d := DocumentBody();
          if d.Bad? { return Bad(d.error); }
          r := Good(Doc(d.value));
        case other => r := Bad(BadTag(other));
      }
    }

    /** The element loop of an array. */
    method Items(n: nat) returns (r: Result<seq<Value>>)
      requires Valid()
      modifies this
      ensures Valid() && match ParseItems(true, n, old(Left())) {
        case Ok(ts, rest) => r == Good(ForgetItems(ts)) && Left() == rest
        case Fail(e) => r == Bad(e)
      }
      decreases |buf| - pos, 2
    {
      hide Parse, Forget;
      var items: seq<Value> := [];
      ghost var ts: seq<Term> := [];
      AfterNone(ParseItems(true, n, Left()));
      for i := 0 to n
        invariant Valid() && |Left()| <= |old(Left())| && items == ForgetItems(ts)
        invariant ParseItems(true, n, old(Left())) == After(ts, ParseItems(true, n - i, Left()))
      {
        ghost var b := Left();
        var v := Value();
        if v.Bad? { return Bad(v.error); }
        items := items + [v.value];
        ghost var t := Parse(true, b).value;
        AfterStep(ts, t, ParseItems(true, n - i - 1, Left()));
        assert (ts + [t])[..|ts|] == ts;
        ts := ts + [t];
      }
      AfterAll(ts, Left());
      r := Good(items);
    }

    method DocumentBody() returns (r: Result<Document>)
      requires Valid()
      modifies this
      ensures Valid() && match ParseBody(true, old(Left())) {
        case Ok(fs, rest) => r == Good(ForgetFields(fs)) && Left() == rest
        case Fail(e) => r == Bad(e)
      }
      decreases |buf| - pos, 3
    {
      hide Parse, Forget, FromLE, TakeText, Utf8, ParseFields;
      var n := U32();
      if n.Bad? { return Bad(n.error); }
      if n.value > |buf| - pos {
        return Bad(Truncated);
      }
      r := Fields(n.value);
    }

    /** The field loop of a document. */
    method Fields(n: nat) returns (r: Result<Document>)
      requires Valid()
      modifies this
      ensures Valid() && match ParseFields(true, n, old(Left())) {
        case Ok(fs, rest) => r == Good(ForgetFields(fs)) && Left() == rest
        case Fail(e) => r == Bad(e)
      }
      decreases |buf| - pos, 2
    {
      hide Parse, Forget, TakeText;
      var doc: Document := map[];
      ghost var fs: seq<Field> := [];
      AfterNone(ParseFields(true, n, Left()));
      for i := 0 to n
        invariant Valid() && |Left()| <= |old(Left())| && doc == ForgetFields(fs)
        invariant ParseFields(true, n, old(Left())) == After(fs, ParseFields(true, n - i, Left()))
      {
        TextShrinks(Left());
        var k := Str();
        if k.Bad? { return Bad(k.error); }
        ghost var b := Left();
        var v := Value();
        if v.Bad? { return Bad(v.error); }
        doc := doc[k.value := v.value];
        ghost var f := Field(k.value, Parse(true, b).value);
        AfterStep(fs, f, ParseFields(true, n - i - 1, Left()));
        assert (fs + [f])[..|fs|] == fs;
        fs := fs + [f];
      }
      AfterAll(fs, Left());
      r := Good(doc);
    }
  }

  /** What a loop that has read xs returns once the remaining elements are read. */
  ghost function After<X>(xs: seq<X>, r: Parsed<seq<X>>): Parsed<seq<X>> {
    if r.Fail? then r else Ok(xs + r.value, r.rest)
  }

  lemma AfterNone<X>(r: Parsed<seq<X>>)
    ensures After([], r) == r
  {
    if r.Ok? {
      assert [] + r.value == r.value;
    }
  }

  lemma AfterAll<X>(xs: seq<X>, rest: Bytes)
    ensures After(xs, Ok([], rest)) == Ok(xs, rest)
  {
    assert xs + [] == xs;
  }

  lemma AfterStep<X>(xs: seq<X>, x: X, r: Parsed<seq<X>>)
    ensures After(xs, if r.Fail? then r else Ok([x] + r.value, r.rest)) == After(xs + [x], r)
  {
    if r.Ok? {
      assert xs + ([x] + r.value) == xs + [x] + r.value;
    }
  }
}
