/** src/document/codec.rs: how documents are stored, with the fields in whatever order the map yields them. */
module DocCodec {
  import opened Bytes
  import opened Values
  import opened Format
  import opened Orders
  import W = Wire

  method WriteBytes(out: W.Output, s: Text)
    modifies out
    ensures out.bytes == old(out.bytes) + Text4(s)
  {
    out.bytes := out.bytes + LE(|s|, 4);
    out.bytes := out.bytes + s;
  }

  /** Some order of the fields is written; t tells which. */
  method WriteValue(out: W.Output, v: Value) returns (ghost t: Term)
    modifies out
    ensures out.bytes == old(out.bytes) + Encode(t) && Lists(t, v)
    decreases v, 1
  {
    hide LE;
    match v {
      case Null =>
        out.bytes := out.bytes + [0];
        t := TNull;
      case Bool(b) =>
        out.bytes := out.bytes + [if b then 2 else 1];
        t := TBool(b);
      case Int(n) =>
        out.bytes := out.bytes + [3];
        out.bytes := out.bytes + LE(ToU64(n), 8);
        t := TInt(n);
      case Float(bits) =>
        out.bytes := out.bytes + [4];
        out.bytes := out.bytes + LE(bits, 8);
        t := TFloat(bits);
      case Str(s) =>
        out.bytes := out.bytes + [5];
        WriteBytes(out, s);
        t := TStr(s);
      case Array(items) =>
        out.bytes := out.bytes + [6];
        out.bytes := out.bytes + LE(|items|, 4);
        ghost var ts := WriteItems(out, v);
        t := TArray(ts);
      case Doc(fields) =>
        out.bytes := out.bytes + [7];
        ghost var fs := WriteDocument(out, v);
        t := TDoc(fs);
    }
  }

  /** The element loop of an array. */
  method WriteItems(out: W.Output, v: Value) returns (ghost ts: seq<Term>)
    requires v.Array?
    modifies out
    ensures out.bytes == old(out.bytes) + EncodeItems(ts) && Lists(TArray(ts), v) && |ts| == |v.items|
    decreases v, 0
  {
    hide Encode, EncodeItems, Forget, NoRepeats;
    ts := [];
    W.EncodeNoItems([]);
    for i := 0 to |v.items|
      invariant out.bytes == old(out.bytes) + EncodeItems(ts)
      invariant |ts| == i && forall j :: 0 <= j < i ==> Lists(ts[j], v.items[j])
    {
      ghost var t := WriteValue(out, v.items[i]);
      W.EncodeItemsAppend(ts, t);
      ts := ts + [t];
    }
    ItemsOrder(ts, v);
  }

  lemma ItemsOrder(ts: seq<Term>, v: Value)
    requires v.Array? && |ts| == |v.items| && forall j :: 0 <= j < |ts| ==> Lists(ts[j], v.items[j])
    ensures Lists(TArray(ts), v)
  {
    forall j | 0 <= j < |ts|
      ensures ForgetItems(ts)[j] == v.items[j] && NoRepeats(ts[j])
    {
      ForgetItem(ts, j);
      assert Lists(ts[j], v.items[j]);
    }
    assert ForgetItems(ts) == v.items;
  }

  /** The fields written so far belong to the document, and the keys are all those no longer left. */
  ghost predicate Partly(fs: seq<Field>, fields: Document, left: set<Text>) {
    && Apart(fs) && left <= fields.Keys
    && (forall i :: 0 <= i < |fs| ==> fs[i].key in fields && fs[i].key !in left && Lists(fs[i].value, fields[fs[i].key]))
    && (forall k :: k in fields && k !in left ==> Written(fs, k))
  }

  ghost predicate Written(fs: seq<Field>, k: Text) {
    exists i :: 0 <= i < |fs| && fs[i].key == k
  }

  lemma PartlyStep(fs: seq<Field>, fields: Document, left: set<Text>, k: Text, t: Term)
    requires Partly(fs, fields, left) && k in left && k in fields && Lists(t, fields[k])
    ensures Partly(fs + [Field(k, t)], fields, left - {k})
  {
    hide Lists;
    var fs' := fs + [Field(k, t)];
    forall x | x in fields && x !in left - {k}
      ensures Written(fs', x)
    {
      if x == k {
        assert fs'[|fs|].key == k;
      } else {
        var i :| 0 <= i < |fs| && fs[i].key == x;
        assert fs'[i].key == x;
      }
    }
  }

  lemma FieldsOrder(fs: seq<Field>, v: Value)
    requires v.Doc? && Partly(fs, v.fields, {})
    ensures Lists(TDoc(fs), v) && |fs| == |v.fields|
  {
    var ks := seq(|fs|, i requires 0 <= i < |fs| => fs[i].key);
    forall k: Text
      ensures k in ks <==> k in v.fields
    {
      if k in v.fields {
        assert Written(fs, k);
        var i :| 0 <= i < |fs| && fs[i].key == k;
        assert ks[i] == k;
      }
    }
    CanonicalForgets(fs, v.fields, ks);
    ForgetSize(fs);
  }

  /** Field count, then the fields. */
  method WriteDocument(out: W.Output, v: Value) returns (ghost fs: seq<Field>)
    requires v.Doc?
    modifies out
    ensures out.bytes == old(out.bytes) + EncodeBody(fs) && Lists(TDoc(fs), v)
    decreases v, 0
  {
    hide Encode, EncodeFields, Lists, Text4, Partly;
    out.bytes := out.bytes + LE(|v.fields|, 4);
    ghost var start := out.bytes;
    fs := [];
    W.EncodeNoFields();
    var left := v.fields.Keys;
    PartlyNone(v.fields);
    while left != {}
      invariant left <= v.fields.Keys && out.bytes == start + EncodeFields(fs) && Partly(fs, v.fields, left)
    {
      var k :| k in left;
      WriteBytes(out, k);
      ghost var t := WriteValue(out, v.fields[k]);
      OneMoreField(start, fs, Field(k, t));
      PartlyStep(fs, v.fields, left, k, t);
      fs := fs + [Field(k, t)];
      left := left - {k};
    }
    FieldsOrder(fs, v);
  }

  lemma PartlyNone(fields: Document)
    ensures Partly([], fields, fields.Keys)
  {
  }

  lemma OneMoreField(start: Bytes, fs: seq<Field>, f: Field)
    ensures start + EncodeFields(fs) + Text4(f.key) + Encode(f.value) == start + EncodeFields(fs + [f])
  {
    hide Encode, EncodeFields, Text4;
    W.EncodeFieldsAppend(fs, f);
    assert start + EncodeFields(fs) + Text4(f.key) + Encode(f.value) == start + (EncodeFields(fs) + Text4(f.key) + Encode(f.value));
  }

  datatype DecodeError = UnexpectedEof | InvalidTag(tag: byte) | InvalidUtf8 | TrailingBytes

  datatype Result<+T> = Good(value: T) | Bad(error: DecodeError)

  function Named(e: Error): DecodeError {
    match e
    case Truncated => UnexpectedEof
    case BadTag(t) => InvalidTag(t)
    case BadUtf8 => InvalidUtf8
  }

  class Cursor {
    const bytes: Bytes
    var pos: nat

    ghost predicate Valid()
      reads this
    {
      pos <= |bytes|
    }

    ghost function Left(): Bytes
      reads this
      requires Valid()
    {
      bytes[pos..]
    }

    constructor (bytes: Bytes)
      ensures Valid() && this.bytes == bytes && pos == 0
    {
      this.bytes := bytes;
      pos := 0;
    }

    method ReadExact(n: nat) returns (r: Result<Bytes>)
      requires Valid()
      modifies this
      ensures Valid() && r == if |old(Left())| < n then Bad(UnexpectedEof) else Good(old(Left())[..n])
      ensures Left() == if r.Good? then old(Left())[n..] else old(Left())
    {
      var end := pos + n;
      if end > |bytes| {
        return Bad(UnexpectedEof);
      }
      r := Good(bytes[pos..end]);
      assert bytes[pos..end] == Left()[..n];
      pos := end;
    }

    method ReadLen() returns (r: Result<nat>)
      requires Valid()
      modifies this
      ensures Valid() && match TakeLen(old(Left())) {
        case Ok(n, rest) => r == Good(n) && Left() == rest
        case Fail(e) => r == Bad(Named(e))
      }
    {
      var b := ReadExact(4);
      if b.Bad? { return Bad(b.error); }
      r := Good(FromLE(b.value));
    }

    method ReadU64() returns (r: Result<u64>)
      requires Valid()
      modifies this
      ensures Valid() && match TakeU64(old(Left())) {
        case Ok(n, rest) => r == Good(n) && Left() == rest
        case Fail(e) => r == Bad(Named(e))
      }
    {
      var b := ReadExact(8);
      if b.Bad? { return Bad(b.error); }
      Powers();
      LEofFromLE(b.value);
      r := Good(FromLE(b.value));
    }

    method ReadString() returns (r: Result<Text>)
      requires Valid()
      modifies this
      ensures Valid() && match TakeText(old(Left())) {
        case Ok(s, rest) => r == Good(s) && Left() == rest
        case Fail(e) => r == Bad(Named(e))
      }
    {
      hide FromLE, Utf8;
      var n := ReadLen();
      if n.Bad? { return Bad(n.error); }
      var b := ReadExact(n.value);
      if b.Bad? { return Bad(b.error); }
      assert b.value == old(Left())[4..4 + n.value];
      if !Utf8(b.value) {
        return Bad(InvalidUtf8);
      }
      r := Good(b.value);
    }

    method ReadValue() returns (r: Result<Value>)
      requires Valid()
      modifies this
      ensures Valid() && match Parse(false, old(Left())) {
        case Ok(t, rest) => r == Good(Forget(t)) && Left() == rest
        case Fail(e) => r == Bad(Named(e))
      }
      decreases |bytes| - pos, 1
    {
      hide FromLE, Utf8, TakeLen, TakeU64, TakeText;
      var tag := ReadExact(1);
      if tag.Bad? { return Bad(tag.error); }
      assert Left() == old(Left())[1..];
      match tag.value[0] {
        case 0 => r := Good(Null);
        case 1 => r := Good(Bool(false));
        case 2 => r := Good(Bool(true));
        case 3 =>
          var n := ReadU64();
          if n.Bad? { return Bad(n.error); }
          r := Good(Int(FromU64(n.value)));
        case 4 =>
          var n := ReadU64();
          if n.Bad? { return Bad(n.error); }
          r := Good(Float(n.value));
        case 5 =>
          var s := ReadString();
          if s.Bad? { return Bad(s.error); }
          r := Good(Str(s.value));
        case 6 =>
          var n := ReadLen();
          if n.Bad? { return Bad(n.error); }
          TakeLenShrinks(old(Left())[1..]);
          var items := ReadItems(n.value);
          if items.Bad? { return Bad(items.error); }
          r := Good(Array(items.value));
        case 7 =>
          var d := ReadDocumentBody();
          if d.Bad? { return Bad(d.error); }
          r := Good(Doc(d.value));
        case other => r := Bad(InvalidTag(other));
      }
    }

    /** The element loop of an array. */
    method ReadItems(n: nat) returns (r: Result<seq<Value>>)
      requires Valid()
      modifies this
      ensures Valid() && match ParseItems(false, n, old(Left())) {
        case Ok(ts, rest) => r == Good(ForgetItems(ts)) && Left() == rest
        case Fail(e) => r == Bad(Named(e))
      }
      decreases |bytes| - pos, 2
    {
      hide Parse, Forget;
      var items: seq<Value> := [];
      ghost var ts: seq<Term> := [];
      W.AfterNone(ParseItems(false, n, Left()));
      for i := 0 to n
        invariant Valid() && |Left()| <= |old(Left())| && items == ForgetItems(ts)
        invariant ParseItems(false, n, old(Left())) == W.After(ts, ParseItems(false, n - i, Left()))
      {
        ghost var b := Left();
        var v := ReadValue();
        if v.Bad? { return Bad(v.error); }
        items := items + [v.value];
        ghost var t := Parse(false, b).value;
        W.AfterStep(ts, t, ParseItems(false, n - i - 1, Left()));
        assert (ts + [t])[..|ts|] == ts;
        ts := ts + [t];
      }
      W.AfterAll(ts, Left());
      r := Good(items);
    }

    method ReadDocumentBody() returns (r: Result<Document>)
      requires Valid()
      modifies this
      ensures Valid() && match ParseBody(false, old(Left())) {
        case Ok(fs, rest) => r == Good(ForgetFields(fs)) && Left() == rest
        case Fail(e) => r == Bad(Named(e))
      }
      decreases |bytes| - pos, 3
    {
      hide Parse, Forget, FromLE, TakeText, Utf8, ParseFields;
      var n := ReadLen();
      if n.Bad? { return Bad(n.error); }
      r := ReadFields(n.value);
    }

    /** The field loop of a document. */
    method ReadFields(n: nat) returns (r: Result<Document>)
      requires Valid()
      modifies this
      ensures Valid() && match ParseFields(false, n, old(Left())) {
        case Ok(fs, rest) => r == Good(ForgetFields(fs)) && Left() == rest
        case Fail(e) => r == Bad(Named(e))
      }
      decreases |bytes| - pos, 2
    {
      hide Parse, Forget, TakeText;
      var doc: Document := map[];
      ghost var fs: seq<Field> := [];
      W.AfterNone(ParseFields(false, n, Left()));
      for i := 0 to n
        invariant Valid() && |Left()| <= |old(Left())| && doc == ForgetFields(fs)
        invariant ParseFields(false, n, old(Left())) == W.After(fs, ParseFields(false, n - i, Left()))
      {
        TextShrinks(Left());
        var k := ReadString();
        if k.Bad? { return Bad(k.error); }
        ghost var b := Left();
        var v := ReadValue();
        if v.Bad? { return Bad(v.error); }
        doc := doc[k.value := v.value];
        ghost var f := Field(k.value, Parse(false, b).value);
        W.AfterStep(fs, f, ParseFields(false, n - i - 1, Left()));
        assert (fs + [f])[..|fs|] == fs;
        fs := fs + [f];
      }
      W.AfterAll(fs, Left());
      r := Good(doc);
    }
  }

  method SerializeDocument(d: Document) returns (b: Bytes, ghost fs: seq<Field>)
    ensures b == EncodeBody(fs) && Lists(TDoc(fs), Doc(d))
  {
    var out := new W.Output();
    fs := WriteDocument(out, Doc(d));
    assert [] + EncodeBody(fs) == EncodeBody(fs);
    b := out.bytes;
  }

  /** The whole input must be one document. */
  method DeserializeDocument(b: Bytes) returns (r: Result<Document>)
    ensures r.Good? <==> exists fs :: b == EncodeBody(fs) && |fs| < LIMIT && SmallFields(fs)
    ensures forall fs :: b == EncodeBody(fs) && |fs| < LIMIT && SmallFields(fs) ==> r == Good(ForgetFields(fs))
    ensures r.Bad? ==> match ParseBody(false, b) {
      case Ok(_, _) => r.error == TrailingBytes
      case Fail(e) => r.error == Named(e)
    }
  {
    hide ParseBody, EncodeBody, SmallFields, ForgetFields;
    var c := new Cursor(b);
    assert c.Left() == b;
    var d := c.ReadDocumentBody();
    forall fs | b == EncodeBody(fs) && |fs| < LIMIT && SmallFields(fs)
      ensures ParseBody(false, b) == Ok(fs, [])
    {
      RoundTripBody(false, fs, []);
      assert b + [] == b;
    }
    if d.Bad? { return Bad(d.error); }
    ghost var p := ParseBody(false, b);
    BodyIsEncoded(false, b);
    if c.pos == |c.bytes| {
      assert p.rest == [] && b == EncodeBody(p.value);
      r := d;
    } else {
      r := Bad(TrailingBytes);
    }
  }

  /** A stored document comes back whatever order its fields were written in. */
  method StoreAndLoad(d: Document) returns (r: Result<Document>)
    requires SmallValue(Doc(d))
    ensures r == Good(d)
  {
    var b, fs := SerializeDocument(d);
    OrderIsSmall(TDoc(fs));
    r := DeserializeDocument(b);
  }
}
