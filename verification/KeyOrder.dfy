/** src/document/key.rs: index keys whose byte order is the order of the values. */
module KeyOrder {
  import opened Bytes
  import opened Disk
  import opened Values

  /** The k low bytes of n, most significant first. */
  function BE(n: nat, k: nat): (b: Bytes)
    ensures |b| == k
  {
    if k == 0 then [] else BE(n / 256, k - 1) + [n % 256]
  }

  lemma {:induction false} LtLast(x: Bytes, y: Bytes, c: byte, d: byte)
    requires |x| == |y|
    ensures Lt(x + [c], y + [d]) <==> Lt(x, y) || (x == y && c < d)
  {
    if |x| == 0 {
    } else {
      LtLast(x[1..], y[1..], c, d);
      assert (x + [c])[1..] == x[1..] + [c] && (y + [d])[1..] == y[1..] + [d];
      assert x == [x[0]] + x[1..] && y == [y[0]] + y[1..];
    }
  }

  lemma {:induction false} BEOrder(a: nat, b: nat, k: nat)
    requires a < Pow256(k) && b < Pow256(k)
    ensures Lt(BE(a, k), BE(b, k)) <==> a < b
    ensures BE(a, k) == BE(b, k) <==> a == b
  {
    if k == 0 {
    } else {
      BEOrder(a / 256, b / 256, k - 1);
      LtLast(BE(a / 256, k - 1), BE(b / 256, k - 1), a % 256, b % 256);
      LastByte(BE(a / 256, k - 1), BE(b / 256, k - 1), a % 256, b % 256);
    }
  }

  lemma LastByte(x: Bytes, y: Bytes, c: byte, d: byte)
    requires |x| == |y|
    ensures x + [c] == y + [d] <==> x == y && c == d
  {
    if x + [c] == y + [d] {
      assert (x + [c])[..|x|] == x && (y + [d])[..|y|] == y;
      assert (x + [c])[|x|] == c && (y + [d])[|y|] == d;
    }
  }

  // signed integers: flip the sign bit

  function IntSortable(n: i64): (u: u64) {
    var u := ToU64(n);
    if u >= TWO63 then u - TWO63 else u + TWO63
  }

  // binary64: flip the sign bit of positives, all bits of negatives

  function FloatSortable(bits: u64): (u: u64) {
    if bits >= TWO63 then TWO64 - 1 - bits else bits + TWO63
  }

  const INFINITY: int := 0x7FF0_0000_0000_0000

  predicate IsNaN(bits: u64) { bits % TWO63 > INFINITY }

  function Pow2(k: nat): (r: nat)
    ensures r > 0
  {
    if k == 0 then 1 else 2 * Pow2(k - 1)
  }

  const HIDDEN: int := 0x10_0000_0000_0000

  /** The magnitude in units of the smallest subnormal, from exponent and fraction; the infinity is above all others. */
  function Magnitude(m: nat): nat {
    var e, f := m / HIDDEN, m % HIDDEN;
    if e == 0 then f else (HIDDEN + f) * Pow2(e - 1)
  }

  /** The number that non-NaN bits stand for, in the same unit. */
  function FloatValue(bits: u64): int {
    if bits >= TWO63 then 0 - Magnitude(bits - TWO63) else Magnitude(bits)
  }

  lemma ScaleUp(f: nat, p: nat)
    requires f < HIDDEN && p > 0
    ensures f + 1 < HIDDEN ==> (HIDDEN + f) * p < (HIDDEN + f + 1) * p
    ensures (HIDDEN + f) * p < HIDDEN * (2 * p)
  {
    assert (HIDDEN + f + 1) * p == (HIDDEN + f) * p + p;
    assert HIDDEN * (2 * p) == (HIDDEN + f) * p + (HIDDEN - f) * p;
    assert (HIDDEN - f) * p > 0;
  }

  lemma MagnitudeStep(m: nat)
    ensures Magnitude(m) < Magnitude(m + 1)
  {
    var e, f := m / HIDDEN, m % HIDDEN;
    if f + 1 < HIDDEN {
      assert (m + 1) / HIDDEN == e && (m + 1) % HIDDEN == f + 1;
      if e > 0 {
        ScaleUp(f, Pow2(e - 1));
      }
    } else {
      assert (m + 1) / HIDDEN == e + 1 && (m + 1) % HIDDEN == 0;
      if e > 0 {
        ScaleUp(f, Pow2(e - 1));
      } else {
        assert Pow2(0) == 1;
      }
    }
  }

  lemma {:induction false} MagnitudeRises(m: nat, n: nat)
    requires m < n
    ensures Magnitude(m) < Magnitude(n)
    decreases n - m
  {
    hide Magnitude;
    MagnitudeStep(m);
    if m + 1 < n {
      MagnitudeRises(m + 1, n);
    }
  }

  lemma MagnitudeOrder(m: nat, n: nat)
    ensures Magnitude(m) < Magnitude(n) <==> m < n
    ensures Magnitude(m) == Magnitude(n) <==> m == n
    ensures Magnitude(m) >= 0 && (Magnitude(m) == 0 <==> m == 0)
  {
    hide Magnitude;
    if m < n {
      MagnitudeRises(m, n);
    } else if n < m {
      MagnitudeRises(n, m);
    }
    MagnitudeZero();
    if m > 0 {
      MagnitudeRises(0, m);
    }
  }

  lemma MagnitudeZero()
    ensures Magnitude(0) == 0
  {
  }

  /** Numeric order, with the negative zero below the positive one. */
  predicate FloatLt(a: u64, b: u64) {
    FloatValue(a) < FloatValue(b) || (a == TWO63 && b == 0)
  }

  lemma FloatOrder(a: u64, b: u64)
    ensures FloatSortable(a) < FloatSortable(b) <==> FloatLt(a, b)
    ensures FloatSortable(a) == FloatSortable(b) <==> a == b
  {
    hide Magnitude;
    MagnitudeOrder(a % TWO63, b % TWO63);
    MagnitudeOrder(b % TWO63, a % TWO63);
    assert a % TWO63 == if a >= TWO63 then a - TWO63 else a;
    assert b % TWO63 == if b >= TWO63 then b - TWO63 else b;
  }

  /** None where the source panics: NaN, arrays and documents have no key. */
  function SerializeKey(v: Value): Option<Bytes> {
    match v
    case Null => Some([0x00])
    case Bool(b) => Some([if b then 0x02 else 0x01])
    case Int(n) => Some([0x03] + BE(IntSortable(n), 8))
    case Float(bits) => if IsNaN(bits) then None else Some([0x04] + BE(FloatSortable(bits), 8))
    case Str(s) => Some([0x05] + s)
    case Array(_) => None
    case Doc(_) => None
  }

  predicate Indexable(v: Value) { SerializeKey(v).Some? }

  function TypeRank(v: Value): nat {
    match v
    case Null => 0
    case Bool(b) => if b then 2 else 1
    case Int(_) => 3
    case Float(_) => 4
    case Str(_) => 5
    case _ => 6
  }

  /** Types in a fixed order, values of one type in their own order. */
  predicate ValueLt(v: Value, u: Value) {
    TypeRank(v) < TypeRank(u)
    || (v.Int? && u.Int? && v.n < u.n)
    || (v.Float? && u.Float? && FloatLt(v.bits, u.bits))
    || (v.Str? && u.Str? && Lt(v.s, u.s))
  }

  lemma LtTagged(t: byte, u: byte, x: Bytes, y: Bytes)
    ensures Lt([t] + x, [u] + y) <==> t < u || (t == u && Lt(x, y))
    ensures [t] + x == [u] + y <==> t == u && x == y
  {
    assert ([t] + x)[1..] == x && ([u] + y)[1..] == y;
    assert ([t] + x)[0] == t && ([u] + y)[0] == u;
  }

  /** A key is its type tag and a payload. */
  function Payload(v: Value): Bytes
    requires Indexable(v)
  {
    SerializeKey(v).value[1..]
  }

  lemma KeyParts(v: Value)
    requires Indexable(v)
    ensures TypeRank(v) <= 5 && SerializeKey(v).value == [TypeRank(v)] + Payload(v)
    ensures (v.Int? ==> Payload(v) == BE(IntSortable(v.n), 8)) && (v.Str? ==> Payload(v) == v.s)
    ensures (v.Float? ==> Payload(v) == BE(FloatSortable(v.bits), 8)) && (v.Null? || v.Bool? ==> Payload(v) == [])
  {
    hide BE;
  }

  /** Byte order of keys is value order, and only equal values share a key. */
  lemma KeyOrder(v: Value, u: Value)
    requires Indexable(v) && Indexable(u)
    ensures Lt(SerializeKey(v).value, SerializeKey(u).value) <==> ValueLt(v, u)
    ensures SerializeKey(v) == SerializeKey(u) <==> v == u
  {
    hide BE, Lt, SerializeKey, FloatLt, FloatSortable;
    KeyParts(v);
    KeyParts(u);
    LtTagged(TypeRank(v), TypeRank(u), Payload(v), Payload(u));
    Powers();
    if v.Int? && u.Int? {
      BEOrder(IntSortable(v.n), IntSortable(u.n), 8);
    } else if v.Float? && u.Float? {
      FloatOrder(v.bits, u.bits);
      BEOrder(FloatSortable(v.bits), FloatSortable(u.bits), 8);
    }
    LtSelf(Payload(v));
  }

  lemma LtSelf(x: Bytes)
    ensures !Lt(x, x)
  {
    RankOrder(x, x);
  }

  const MIN: Value := Int(-0x8000_0000_0000_0000)
  const MAX: Value := Int(0x7FFF_FFFF_FFFF_FFFF)
  const NEG_INF: Value := Float(0xFFF0_0000_0000_0000)
  const POS_INF: Value := Float(0x7FF0_0000_0000_0000)

  ghost predicate Between(low: Value, v: Value, high: Value)
    requires Indexable(low) && Indexable(v) && Indexable(high)
  {
    Le(SerializeKey(low).value, SerializeKey(v).value) && Le(SerializeKey(v).value, SerializeKey(high).value)
  }

  lemma BetweenIs(low: Value, v: Value, high: Value)
    requires Indexable(low) && Indexable(v) && Indexable(high)
    ensures Between(low, v, high) <==> (low == v || ValueLt(low, v)) && (v == high || ValueLt(v, high))
  {
    hide SerializeKey, ValueLt, Lt;
    KeyOrder(low, v);
    KeyOrder(v, high);
  }

  /** The sentinels of a type bracket exactly the keys of that type. */
  lemma IntBracket(v: Value)
    requires Indexable(v)
    ensures Between(MIN, v, MAX) <==> v.Int?
  {
    hide BE, FloatLt;
    BetweenIs(MIN, v, MAX);
  }

  lemma FloatBracket(v: Value)
    requires Indexable(v)
    ensures Between(NEG_INF, v, POS_INF) <==> v.Float?
  {
    hide BE, Lt, Magnitude;
    BetweenIs(NEG_INF, v, POS_INF);
    if v.Float? {
      MagnitudeOrder(INFINITY, v.bits % TWO63);
      assert v.bits % TWO63 == if v.bits >= TWO63 then v.bits - TWO63 else v.bits;
    }
  }

  // compound keys, src/btree/index.rs

  /** The serialized parts in turn, each after its length; None if a field is missing. */
  function CompoundKey(fields: seq<Text>, doc: Document): Option<Bytes> {
    if |fields| == 0 then Some([])
    else if fields[0] !in doc || !Indexable(doc[fields[0]]) then None
    else
      var part := SerializeKey(doc[fields[0]]).value;
      var rest := CompoundKey(fields[1..], doc);
      if rest.None? then None else Some(BE(|part|, 4) + part + rest.value)
  }

  /** No string part of the key is as long as its length field can say. */
  ghost predicate PartsFit(fields: seq<Text>, doc: Document) {
    forall f :: f in fields && f in doc && doc[f].Str? ==> |doc[f].s| < 0xFFFF_FFFF
  }

  lemma PartLength(v: Value)
    requires Indexable(v) && (v.Str? ==> |v.s| < 0xFFFF_FFFF)
    ensures |SerializeKey(v).value| < 0x1_0000_0000
  {
    hide BE;
  }

  lemma PrefixedUnique(a: Bytes, b: Bytes, x: Bytes, y: Bytes)
    requires |a| < 0x1_0000_0000 && |b| < 0x1_0000_0000
    requires BE(|a|, 4) + a + x == BE(|b|, 4) + b + y
    ensures a == b && x == y
  {
    hide BE;
    Regroup(BE(|a|, 4), a, x);
    Regroup(BE(|b|, 4), b, y);
    Cut(BE(|a|, 4), a + x, BE(|b|, 4), b + y);
    LengthUnique(|a|, |b|);
    Cut(a, x, b, y);
  }

  lemma LengthUnique(m: nat, n: nat)
    requires m < 0x1_0000_0000 && n < 0x1_0000_0000 && BE(m, 4) == BE(n, 4)
    ensures m == n
  {
    hide BE;
    Powers();
    BEOrder(m, n, 4);
  }

  lemma Cut(a: Bytes, x: Bytes, b: Bytes, y: Bytes)
    requires |a| == |b| && a + x == b + y
    ensures a == b && x == y
  {
    assert a == (a + x)[..|a|] && b == (b + y)[..|a|];
    assert x == (a + x)[|a|..] && y == (b + y)[|a|..];
  }

  /** A value that has a key: no array, no document and no NaN. */
  predicate Plain(v: Value) {
    match v
    case Float(bits) => !IsNaN(bits)
    case Array(_) => false
    case Doc(_) => false
    case _ => true
  }

  lemma PlainIsIndexable(v: Value)
    ensures Plain(v) <==> Indexable(v)
  {
    hide BE;
  }

  /** A document has a compound key iff it has every field, with a value that has a key. */
  lemma {:induction false} CompoundHas(fields: seq<Text>, d: Document)
    ensures CompoundKey(fields, d).Some? <==> forall f :: f in fields ==> f in d && Plain(d[f])
  {
    hide BE, SerializeKey, Indexable, Plain;
    if |fields| == 0 {
    } else {
      var f := fields[0];
      assert f in fields && fields == [f] + fields[1..];
      CompoundHas(fields[1..], d);
      if f in d {
        PlainIsIndexable(d[f]);
      }
    }
  }

  /** Documents share a compound key only when every part is equal. */
  lemma {:induction false} CompoundUnique(fields: seq<Text>, d: Document, e: Document)
    requires CompoundKey(fields, d).Some? && CompoundKey(fields, e).Some? && PartsFit(fields, d) && PartsFit(fields, e)
    ensures CompoundKey(fields, d) == CompoundKey(fields, e) <==> forall f :: f in fields ==> f in d && f in e && d[f] == e[f]
  {
    hide BE, SerializeKey;
    if |fields| == 0 {
    } else {
      var f := fields[0];
      assert f in fields && fields == [f] + fields[1..];
      CompoundUnique(fields[1..], d, e);
      var a, b := SerializeKey(d[f]).value, SerializeKey(e[f]).value;
      var x, y := CompoundKey(fields[1..], d).value, CompoundKey(fields[1..], e).value;
      PartLength(d[f]);
      PartLength(e[f]);
      if BE(|a|, 4) + a + x == BE(|b|, 4) + b + y {
        PrefixedUnique(a, b, x, y);
        KeyOrder(d[f], e[f]);
      }
    }
  }
}
