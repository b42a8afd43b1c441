/** The recursive format that src/wire.rs and src/document/codec.rs both write and read. */
module Format {
  import opened Bytes
  import opened Values

  /** A value with the fields of its documents in the order they are written, repeated keys included. */
  datatype Term =
    | TNull
    | TBool(b: bool)
    | TInt(n: i64)
    | TFloat(bits: u64)
    | TStr(s: Text)
    | TArray(items: seq<Term>)
    | TDoc(fields: seq<Field>)

  datatype Field = Field(key: Text, value: Term)

  /** The value a term stands for: the last of several equal keys wins. */
  function Forget(t: Term): Value {
    match t
    case TNull => Null
    case TBool(b) => Bool(b)
    case TInt(n) => Int(n)
    case TFloat(bits) => Float(bits)
    case TStr(s) => Str(s)
    case TArray(items) => Array(ForgetItems(items))
    case TDoc(fields) => Doc(ForgetFields(fields))
  }

  function ForgetItems(ts: seq<Term>): (vs: seq<Value>)
    ensures |vs| == |ts|
  {
    if |ts| == 0 then [] else ForgetItems(ts[..|ts| - 1]) + [Forget(ts[|ts| - 1])]
  }

  function ForgetFields(fs: seq<Field>): Document {
    if |fs| == 0 then map[]
    else ForgetFields(fs[..|fs| - 1])[fs[|fs| - 1].key := Forget(fs[|fs| - 1].value)]
  }

  function Len(n: nat): Bytes { LE(n, 4) }

  function Text4(s: Text): Bytes { Len(|s|) + s }

  /** Tag, then payload. */
  function Encode(t: Term): (b: Bytes)
    ensures |b| > 0
  {
    match t
    case TNull => [0]
    case TBool(b) => [if b then 2 else 1]
    case TInt(n) => [3] + LE(ToU64(n), 8)
    case TFloat(bits) => [4] + LE(bits, 8)
    case TStr(s) => [5] + Text4(s)
    case TArray(items) => [6] + Len(|items|) + EncodeItems(items)
    case TDoc(fields) => [7] + EncodeBody(fields)
  }

  function EncodeItems(ts: seq<Term>): (b: Bytes)
    ensures |b| >= |ts|
  {
    if |ts| == 0 then [] else Encode(ts[0]) + EncodeItems(ts[1..])
  }

  /** A document without its tag, as top-level documents are stored and sent. */
  function EncodeBody(fs: seq<Field>): Bytes
    decreases fs, 1
  {
    Len(|fs|) + EncodeFields(fs)
  }

  function EncodeFields(fs: seq<Field>): (b: Bytes)
    ensures |b| >= |fs|
    decreases fs, 0
  {
    if |fs| == 0 then [] else Text4(fs[0].key) + Encode(fs[0].value) + EncodeFields(fs[1..])
  }

  const LIMIT: nat := 0x1_0000_0000

  /** All lengths fit the 32-bit length fields. */
  predicate Small(t: Term) {
    match t
    case TStr(s) => |s| < LIMIT
    case TArray(items) => |items| < LIMIT && SmallItems(items)
    case TDoc(fields) => |fields| < LIMIT && SmallFields(fields)
    case _ => true
  }

  predicate SmallItems(ts: seq<Term>) {
    |ts| == 0 || (Small(ts[0]) && SmallItems(ts[1..]))
  }

  predicate SmallFields(fs: seq<Field>) {
    |fs| == 0 || (|fs[0].key| < LIMIT && Small(fs[0].value) && SmallFields(fs[1..]))
  }

  datatype Error = Truncated | BadTag(tag: byte) | BadUtf8

  /** What a read at the head of the bytes gives, and the bytes after it. */
  datatype Parsed<+T> = Ok(value: T, rest: Bytes) | Fail(error: Error)

  function TakeLen(b: Bytes): Parsed<nat> {
    if |b| < 4 then Fail(Truncated) else Ok(FromLE(b[..4]), b[4..])
  }

  function TakeU64(b: Bytes): Parsed<u64> {
    if |b| < 8 then Fail(Truncated) else
      Powers();
      LEofFromLE(b[..8]);
      Ok(FromLE(b[..8]), b[8..])
  }

  function TakeText(b: Bytes): Parsed<Text> {
    if |b| < 4 then Fail(Truncated) else
      var n := FromLE(b[..4]);
      if |b| - 4 < n then Fail(Truncated)
      else if !Utf8(b[4..4 + n]) then Fail(BadUtf8)
      else Ok(b[4..4 + n], b[4 + n..])
  }

  /** Reading a value. With `guard` a count larger than the bytes left is refused before the elements are read. */
  function Parse(guard: bool, b: Bytes): (r: Parsed<Term>)
    ensures r.Ok? ==> |r.rest| < |b|
    decreases |b|, 0
  {
    if |b| == 0 then Fail(Truncated) else
      var rest := b[1..];
      match b[0]
      case 0 => Ok(TNull, rest)
      case 1 => Ok(TBool(false), rest)
      case 2 => Ok(TBool(true), rest)
      case 3 =>
        var n := TakeU64(rest);
        if n.Fail? then Fail(n.error) else Ok(TInt(FromU64(n.value)), n.rest)
      case 4 =>
        var n := TakeU64(rest);
        if n.Fail? then Fail(n.error) else Ok(TFloat(n.value), n.rest)
      case 5 =>
        var s := TakeText(rest);
        if s.Fail? then Fail(s.error) else Ok(TStr(s.value), s.rest)
      case 6 =>
        var n := TakeLen(rest);
        if n.Fail? then Fail(n.error)
        else if guard && n.value > |n.rest| then Fail(Truncated)
        else
          var ts := ParseItems(guard, n.value, n.rest);
          if ts.Fail? then Fail(ts.error) else Ok(TArray(ts.value), ts.rest)
      case 7 =>
        var fs := ParseBody(guard, rest);
        if fs.Fail? then Fail(fs.error) else Ok(TDoc(fs.value), fs.rest)
      case tag => Fail(BadTag(tag))
  }

  function ParseItems(guard: bool, n: nat, b: Bytes): (r: Parsed<seq<Term>>)
    ensures r.Ok? ==> |r.rest| <= |b| && |r.value| == n
    decreases |b|, 1, n
  {
    if n == 0 then Ok([], b) else
      var t := Parse(guard, b);
      if t.Fail? then Fail(t.error) else
        var ts := ParseItems(guard, n - 1, t.rest);
        if ts.Fail? then ts else Ok([t.value] + ts.value, ts.rest)
  }

  function ParseBody(guard: bool, b: Bytes): (r: Parsed<seq<Field>>)
    ensures r.Ok? ==> |r.rest| < |b|
    decreases |b|, 2
  {
    var n := TakeLen(b);
    if n.Fail? then Fail(n.error)
    else if guard && n.value > |n.rest| then Fail(Truncated)
    else ParseFields(guard, n.value, n.rest)
  }

  function ParseFields(guard: bool, n: nat, b: Bytes): (r: Parsed<seq<Field>>)
    ensures r.Ok? ==> |r.rest| <= |b| && |r.value| == n
    decreases |b|, 1, n
  {
    if n == 0 then Ok([], b) else
      var k := TakeText(b);
      if k.Fail? then Fail(k.error) else
        var v := Parse(guard, k.rest);
        if v.Fail? then Fail(v.error) else
          var fs := ParseFields(guard, n - 1, v.rest);
          if fs.Fail? then fs else Ok([Field(k.value, v.value)] + fs.value, fs.rest)
  }

  // reading back what was written

  lemma LenBack(n: nat, rest: Bytes)
    requires n < LIMIT
    ensures TakeLen(Len(n) + rest) == Ok(n, rest)
  {
    hide LE, FromLE;
    Powers();
    FromLEofLE(n, 4);
    assert (Len(n) + rest)[..4] == LE(n, 4) && (Len(n) + rest)[4..] == rest;
  }

  lemma U64Back(n: u64, rest: Bytes)
    ensures TakeU64(LE(n, 8) + rest) == Ok(n, rest)
  {
    hide LE, FromLE;
    Powers();
    FromLEofLE(n, 8);
    assert (LE(n, 8) + rest)[..8] == LE(n, 8) && (LE(n, 8) + rest)[8..] == rest;
  }

  lemma TextBack(s: Text, rest: Bytes)
    requires |s| < LIMIT
    ensures TakeText(Text4(s) + rest) == Ok(s, rest)
  {
    hide LE, FromLE, Utf8;
    var b := Text4(s) + rest;
    LenBack(|s|, s + rest);
    assert b == Len(|s|) + (s + rest) && b[..4] == Len(|s|);
    assert b[4..4 + |s|] == s && b[4 + |s|..] == rest;
  }

  /** Decoding undoes encoding, for both readers, whatever follows the value. */
  lemma {:induction false} RoundTrip(guard: bool, t: Term, rest: Bytes)
    requires Small(t)
    ensures Parse(guard, Encode(t) + rest) == Ok(t, rest)
    decreases t, 2
  {
    hide LE, FromLE, Utf8, Text4, Len, EncodeItems, EncodeFields, ParseItems, ParseBody, EncodeBody, TakeLen, TakeU64, TakeText;
    var b := Encode(t) + rest;
    assert b[0] == Encode(t)[0] && b[1..] == Encode(t)[1..] + rest;
    match t
    case TNull =>
    case TBool(_) =>
    case TInt(n) => U64Back(ToU64(n), rest);
    case TFloat(bits) => U64Back(bits, rest);
    case TStr(s) => TextBack(s, rest);
    case TArray(items) => RoundTripArray(guard, items, rest);
    case TDoc(fields) => RoundTripBody(guard, fields, rest);
  }

  lemma RoundTripArray(guard: bool, items: seq<Term>, rest: Bytes)
    requires Small(TArray(items))
    ensures Parse(guard, Encode(TArray(items)) + rest) == Ok(TArray(items), rest)
    decreases items, 2
  {
    hide LE, FromLE, Utf8, Len, EncodeItems, ParseItems, TakeLen;
    var b := Encode(TArray(items)) + rest;
    LenBack(|items|, EncodeItems(items) + rest);
    assert b[0] == 6 && b[1..] == Len(|items|) + (EncodeItems(items) + rest);
    ItemsAreLong(items);
    RoundTripItems(guard, items, rest);
  }

  lemma ItemsAreLong(ts: seq<Term>)
    ensures |EncodeItems(ts)| >= |ts|
  {
  }

  lemma {:induction false} RoundTripItems(guard: bool, ts: seq<Term>, rest: Bytes)
    requires SmallItems(ts)
    ensures ParseItems(guard, |ts|, EncodeItems(ts) + rest) == Ok(ts, rest)
    decreases ts, 1
  {
    hide LE, FromLE, Utf8, Encode, Parse, Small;
    if |ts| == 0 {
    } else {
      var more := EncodeItems(ts[1..]) + rest;
      RoundTrip(guard, ts[0], more);
      RoundTripItems(guard, ts[1..], rest);
      Regroup(Encode(ts[0]), EncodeItems(ts[1..]), rest);
      assert [ts[0]] + ts[1..] == ts;
    }
  }

  lemma {:induction false} RoundTripBody(guard: bool, fs: seq<Field>, rest: Bytes)
    requires |fs| < LIMIT && SmallFields(fs)
    ensures ParseBody(guard, EncodeBody(fs) + rest) == Ok(fs, rest)
    decreases fs, 1
  {
    hide LE, FromLE, Utf8;
    LenBack(|fs|, EncodeFields(fs) + rest);
    assert EncodeBody(fs) + rest == Len(|fs|) + (EncodeFields(fs) + rest);
    RoundTripFields(guard, fs, rest);
  }

  lemma {:induction false} RoundTripFields(guard: bool, fs: seq<Field>, rest: Bytes)
    requires SmallFields(fs)
    ensures ParseFields(guard, |fs|, EncodeFields(fs) + rest) == Ok(fs, rest)
    decreases fs, 0
  {
    hide LE, FromLE, Utf8, Encode, Parse, Text4, TakeText, Small;
    if |fs| == 0 {
    } else {
      var more := EncodeFields(fs[1..]) + rest;
      TextBack(fs[0].key, Encode(fs[0].value) + more);
      RoundTrip(guard, fs[0].value, more);
      RoundTripFields(guard, fs[1..], rest);
      Regroup(Text4(fs[0].key) + Encode(fs[0].value), EncodeFields(fs[1..]), rest);
      Regroup(Text4(fs[0].key), Encode(fs[0].value), more);
      assert [Field(fs[0].key, fs[0].value)] + fs[1..] == fs;
    }
  }

  // only what was written is read

  lemma LenFront(b: Bytes)
    requires TakeLen(b).Ok?
    ensures var r := TakeLen(b); b == Len(r.value) + r.rest && r.value < LIMIT
  {
    Powers();
    LEofFromLE(b[..4]);
  }

  lemma U64Front(b: Bytes)
    requires TakeU64(b).Ok?
    ensures var r := TakeU64(b); b == LE(r.value, 8) + r.rest
  {
    LEofFromLE(b[..8]);
  }

  lemma TextFront(b: Bytes)
    requires TakeText(b).Ok?
    ensures var r := TakeText(b); b == Text4(r.value) + r.rest && |r.value| < LIMIT
  {
    hide LE, FromLE, Utf8;
    LenFront(b);
    var n := TakeLen(b).value;
    assert b[4..] == b[4..4 + n] + b[4 + n..];
  }

  /** A reader that succeeds has consumed exactly the encoding of its result. */
  lemma {:induction false} ParsedIsEncoded(guard: bool, b: Bytes)
    requires Parse(guard, b).Ok?
    ensures var r := Parse(guard, b); Small(r.value) && b == Encode(r.value) + r.rest
    decreases |b|, 0
  {
    hide LE, FromLE, Utf8, Text4, Len, TakeLen, TakeU64, TakeText;
    var rest := b[1..];
    assert b == [b[0]] + rest;
    match b[0] {
      case 3 => U64Front(rest);
      case 4 => U64Front(rest);
      case 5 => TextFront(rest);
      case 6 =>
        LenFront(rest);
        var n := TakeLen(rest);
        TakeLenShrinks(rest);
        ItemsAreEncoded(guard, n.value, n.rest);
      case 7 => BodyIsEncoded(guard, rest);
      case _ =>
    }
  }

  lemma TakeLenShrinks(b: Bytes)
    requires TakeLen(b).Ok?
    ensures |TakeLen(b).rest| == |b| - 4
  {
  }

  lemma {:induction false} ItemsAreEncoded(guard: bool, n: nat, b: Bytes)
    requires ParseItems(guard, n, b).Ok?
    ensures var r := ParseItems(guard, n, b); SmallItems(r.value) && b == EncodeItems(r.value) + r.rest
    decreases |b|, 1, n
  {
    hide LE, FromLE, Utf8, Encode, Parse;
    if n == 0 {
    } else {
      ParsedIsEncoded(guard, b);
      var t := Parse(guard, b);
      ItemsAreEncoded(guard, n - 1, t.rest);
      var ts := ParseItems(guard, n - 1, t.rest).value;
      assert ([t.value] + ts)[1..] == ts;
    }
  }

  lemma {:induction false} BodyIsEncoded(guard: bool, b: Bytes)
    requires ParseBody(guard, b).Ok?
    ensures var r := ParseBody(guard, b); |r.value| < LIMIT && SmallFields(r.value) && b == EncodeBody(r.value) + r.rest
    decreases |b|, 2
  {
    hide Len, TakeLen, Utf8, ParseFields, EncodeFields, SmallFields;
    LenFront(b);
    var n := TakeLen(b);
    FieldsAreEncoded(guard, n.value, n.rest);
    var r := ParseFields(guard, n.value, n.rest);
    Regroup(Len(n.value), EncodeFields(r.value), r.rest);
  }

  lemma {:induction false} FieldsAreEncoded(guard: bool, n: nat, b: Bytes)
    requires ParseFields(guard, n, b).Ok?
    ensures var r := ParseFields(guard, n, b); SmallFields(r.value) && b == EncodeFields(r.value) + r.rest
    decreases |b|, 1, n
  {
    hide LE, FromLE, Utf8, Encode, Parse, Text4, TakeText, EncodeFields, SmallFields;
    if n == 0 {
      NoFields(b);
    } else {
      TextFront(b);
      var k := TakeText(b);
      ParsedIsEncoded(guard, k.rest);
      var v := Parse(guard, k.rest);
      FieldsAreEncoded(guard, n - 1, v.rest);
      var fs := ParseFields(guard, n - 1, v.rest);
      FieldInFront(Field(k.value, v.value), fs.value, fs.rest);
    }
  }

  lemma NoFields(b: Bytes)
    ensures SmallFields([]) && b == EncodeFields([]) + b
  {
  }

  lemma FieldInFront(f: Field, fs: seq<Field>, rest: Bytes)
    ensures EncodeFields([f] + fs) + rest == Text4(f.key) + (Encode(f.value) + (EncodeFields(fs) + rest))
    ensures |f.key| < LIMIT && Small(f.value) && SmallFields(fs) ==> SmallFields([f] + fs)
  {
    hide Encode, Text4, Small;
    assert ([f] + fs)[1..] == fs;
  }

  /** The guarded and the unguarded reader accept the same bytes, with the same value and the same bytes left. */
  lemma ReadersAgree(b: Bytes)
    ensures Parse(true, b).Ok? <==> Parse(false, b).Ok?
    ensures Parse(true, b).Ok? ==> Parse(true, b) == Parse(false, b)
  {
    hide Parse, Encode;
    if Parse(true, b).Ok? {
      ParsedIsEncoded(true, b);
      RoundTrip(false, Parse(true, b).value, Parse(true, b).rest);
    }
    if Parse(false, b).Ok? {
      ParsedIsEncoded(false, b);
      RoundTrip(true, Parse(false, b).value, Parse(false, b).rest);
    }
  }

  lemma BodyReadersAgree(b: Bytes)
    ensures ParseBody(true, b).Ok? <==> ParseBody(false, b).Ok?
    ensures ParseBody(true, b).Ok? ==> ParseBody(true, b) == ParseBody(false, b)
  {
    hide ParseBody, EncodeBody;
    if ParseBody(true, b).Ok? {
      BodyIsEncoded(true, b);
      RoundTripBody(false, ParseBody(true, b).value, ParseBody(true, b).rest);
    }
    if ParseBody(false, b).Ok? {
      BodyIsEncoded(false, b);
      RoundTripBody(true, ParseBody(false, b).value, ParseBody(false, b).rest);
    }
  }

  // more bytes do not change a verdict other than Truncated

  ghost predicate Settled<T>(r: Parsed<T>, more: Parsed<T>) {
    r.Fail? && r.error != Truncated ==> more == r
  }

  lemma LenSettled(b: Bytes, m: Bytes)
    requires TakeLen(b).Ok?
    ensures TakeLen(b + m) == Ok(TakeLen(b).value, TakeLen(b).rest + m)
  {
    assert (b + m)[..4] == b[..4] && (b + m)[4..] == b[4..] + m;
  }

  lemma TextSettled(b: Bytes, m: Bytes)
    ensures Settled(TakeText(b), TakeText(b + m))
    ensures TakeText(b).Ok? ==> TakeText(b + m) == Ok(TakeText(b).value, TakeText(b).rest + m)
  {
    hide FromLE, Utf8;
    if |b| >= 4 {
      LenSettled(b, m);
      var n := FromLE(b[..4]);
      if |b| - 4 >= n {
        assert (b + m)[4..4 + n] == b[4..4 + n] && (b + m)[4 + n..] == b[4 + n..] + m;
      }
    }
  }

  lemma {:induction false} ParseSettled(guard: bool, b: Bytes, m: Bytes)
    ensures Settled(Parse(guard, b), Parse(guard, b + m))
    decreases |b|, 0
  {
    hide LE, FromLE, Utf8, Text4, Len, TakeLen, TakeU64, TakeText;
    if |b| == 0 {
    } else {
      var rest := b[1..];
      assert (b + m)[1..] == rest + m && (b + m)[0] == b[0];
      match b[0] {
        case 3 => TakeU64Fails(rest);
        case 4 => TakeU64Fails(rest);
        case 5 => TextSettled(rest, m);
        case 6 =>
          var n := TakeLen(rest);
          if n.Ok? {
            LenSettled(rest, m);
            TakeLenShrinks(rest);
            ItemsSettled(guard, n.value, n.rest, m);
          } else {
            TakeLenFails(rest);
          }
        case 7 => BodySettled(guard, rest, m);
        case _ =>
      }
    }
  }

  lemma TakeLenFails(b: Bytes)
    ensures TakeLen(b).Fail? ==> TakeLen(b).error == Truncated
  {
  }

  lemma TakeU64Fails(b: Bytes)
    ensures TakeU64(b).Fail? ==> TakeU64(b).error == Truncated
  {
  }

  lemma ParseExtends(guard: bool, b: Bytes, m: Bytes)
    requires Parse(guard, b).Ok?
    ensures Parse(guard, b + m) == Ok(Parse(guard, b).value, Parse(guard, b).rest + m)
  {
    hide Parse, Encode, Small;
    ParsedIsEncoded(guard, b);
    var r := Parse(guard, b);
    RoundTrip(guard, r.value, r.rest + m);
    assert b + m == Encode(r.value) + (r.rest + m);
  }

  lemma {:induction false} ItemsSettled(guard: bool, n: nat, b: Bytes, m: Bytes)
    ensures Settled(ParseItems(guard, n, b), ParseItems(guard, n, b + m))
    decreases |b|, 1, n
  {
    hide Parse;
    if n == 0 {
    } else {
      ParseSettled(guard, b, m);
      var t := Parse(guard, b);
      if t.Ok? {
        ParseExtends(guard, b, m);
        ItemsSettled(guard, n - 1, t.rest, m);
      }
    }
  }

  lemma {:induction false} BodySettled(guard: bool, b: Bytes, m: Bytes)
    ensures Settled(ParseBody(guard, b), ParseBody(guard, b + m))
    decreases |b|, 2
  {
    hide FromLE;
    TakeLenFails(b);
    var n := TakeLen(b);
    if n.Ok? {
      LenSettled(b, m);
      FieldsSettled(guard, n.value, n.rest, m);
    }
  }

  lemma {:induction false} FieldsSettled(guard: bool, n: nat, b: Bytes, m: Bytes)
    ensures Settled(ParseFields(guard, n, b), ParseFields(guard, n, b + m))
    decreases |b|, 1, n
  {
    hide Parse, TakeText;
    if n == 0 {
    } else {
      TextSettled(b, m);
      TextShrinks(b);
      var k := TakeText(b);
      if k.Ok? {
        ParseSettled(guard, k.rest, m);
        var v := Parse(guard, k.rest);
        if v.Ok? {
          ParseExtends(guard, k.rest, m);
          FieldsSettled(guard, n - 1, v.rest, m);
        }
      }
    }
  }

  lemma TextShrinks(b: Bytes)
    ensures TakeText(b).Ok? ==> |TakeText(b).rest| <= |b|
  {
  }

  /** Every strict prefix of an encoding is refused as truncated, by both readers. */
  lemma PrefixTruncated(guard: bool, t: Term, k: nat)
    requires Small(t) && k < |Encode(t)|
    ensures Parse(guard, Encode(t)[..k]) == Fail(Truncated)
  {
    hide Parse, Encode, Small;
    var b, m := Encode(t)[..k], Encode(t)[k..];
    assert b + m == Encode(t) == Encode(t) + [];
    RoundTrip(guard, t, []);
    if Parse(guard, b).Ok? {
      ParseExtends(guard, b, m);
    } else {
      ParseSettled(guard, b, m);
    }
  }

  /** Where the two readers refuse the same bytes, they give the same reason or the guard saw a count too large. */
  lemma {:induction false} ReadersRefuse(b: Bytes)
    ensures Parse(true, b) == Parse(false, b) || Parse(true, b) == Fail(Truncated)
    decreases |b|, 0
  {
    hide LE, FromLE, Utf8, TakeU64, TakeText, TakeLen;
    if |b| > 0 && b[0] == 6 {
      var n := TakeLen(b[1..]);
      if n.Ok? {
        TakeLenShrinks(b[1..]);
        ItemsRefuse(n.value, n.rest);
      }
    } else if |b| > 0 && b[0] == 7 {
      BodyRefuse(b[1..]);
    }
  }

  lemma {:induction false} ItemsRefuse(n: nat, b: Bytes)
    ensures ParseItems(true, n, b) == ParseItems(false, n, b) || ParseItems(true, n, b) == Fail(Truncated)
    decreases |b|, 1, n
  {
    hide Parse;
    if n == 0 {
    } else {
      ReadersRefuse(b);
      ReadersAgree(b);
      var t := Parse(true, b);
      if t.Ok? {
        ItemsRefuse(n - 1, t.rest);
      }
    }
  }

  lemma {:induction false} BodyRefuse(b: Bytes)
    ensures ParseBody(true, b) == ParseBody(false, b) || ParseBody(true, b) == Fail(Truncated)
    decreases |b|, 2
  {
    hide FromLE;
    var n := TakeLen(b);
    if n.Ok? {
      FieldsRefuse(n.value, n.rest);
    }
  }

  lemma {:induction false} FieldsRefuse(n: nat, b: Bytes)
    ensures ParseFields(true, n, b) == ParseFields(false, n, b) || ParseFields(true, n, b) == Fail(Truncated)
    decreases |b|, 1, n
  {
    hide Parse, TakeText;
    if n == 0 {
    } else {
      TextShrinks(b);
      var k := TakeText(b);
      if k.Ok? {
        ReadersRefuse(k.rest);
        ReadersAgree(k.rest);
        var v := Parse(true, k.rest);
        if v.Ok? {
          FieldsRefuse(n - 1, v.rest);
        }
      }
    }
  }
}
