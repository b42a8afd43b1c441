/** src/document/catalog.rs: names and roots, written across a chain of pages and read back. */
module Catalogs {
  import opened Bytes
  import opened Disk
  import opened Nodes
  import opened Layout
  import opened Values

  datatype Pair = Pair(collection: Text, field: Text)

  datatype Catalog = Catalog(collections: map<Text, u64>, indexes: map<Pair, u64>, unique: set<Pair>)

  const MAGIC: Bytes := [0x41, 0x53, 0x44, 0x42, 0x43, 0x41, 0x54, 0x31]

  datatype KV<K> = KV(key: K, root: u64)

  // entries

  function NameBytes(s: Text): Bytes { LE(|s|, 2) + s }

  function PairBytes(p: Pair): Bytes { NameBytes(p.collection) + NameBytes(p.field) }

  function CollectionBytes(e: KV<Text>): Bytes { NameBytes(e.key) + LE(e.root, 8) }

  function IndexBytes(e: KV<Pair>): Bytes { PairBytes(e.key) + LE(e.root, 8) }

  function ListBytes<T>(f: T -> Bytes, xs: seq<T>): Bytes {
    if |xs| == 0 then [] else ListBytes(f, xs[..|xs| - 1]) + f(xs[|xs| - 1])
  }

  function Section<T>(f: T -> Bytes, xs: seq<T>): Bytes { LE(|xs|, 4) + ListBytes(f, xs) }

  function CatalogBytes(cs: seq<KV<Text>>, ins: seq<KV<Pair>>, us: seq<Pair>): Bytes {
    MAGIC + Section(CollectionBytes, cs) + Section(IndexBytes, ins) + Section(PairBytes, us)
  }

  // reading

  datatype Got<+T> = Got(value: T, rest: Bytes) | Bad

  function GetNumber(b: Bytes, k: nat): Got<nat> {
    if |b| < k then Bad else Got(FromLE(b[..k]), b[k..])
  }

  function GetName(b: Bytes): Got<Text> {
    if |b| < 2 then Bad else
      var n := FromLE(b[..2]);
      if |b| - 2 < n || !Utf8(b[2..2 + n]) then Bad else Got(b[2..2 + n], b[2 + n..])
  }

  function GetRoot(b: Bytes): Got<u64> {
    if |b| < 8 then Bad else
      Powers();
      LEofFromLE(b[..8]);
      Got(FromLE(b[..8]), b[8..])
  }

  function GetPair(b: Bytes): Got<Pair> {
    var n := GetName(b);
    if n.Bad? then Bad else
      var f := GetName(n.rest);
      if f.Bad? then Bad else Got(Pair(n.value, f.value), f.rest)
  }

  function GetCollection(b: Bytes): Got<KV<Text>> {
    var n := GetName(b);
    if n.Bad? then Bad else
      var r := GetRoot(n.rest);
      if r.Bad? then Bad else Got(KV(n.value, r.value), r.rest)
  }

  function GetIndex(b: Bytes): Got<KV<Pair>> {
    var p := GetPair(b);
    if p.Bad? then Bad else
      var r := GetRoot(p.rest);
      if r.Bad? then Bad else Got(KV(p.value, r.value), r.rest)
  }

  function GetList<T>(g: Bytes -> Got<T>, n: nat, b: Bytes): Got<seq<T>> {
    if n == 0 then Got([], b) else
      var xs := GetList(g, n - 1, b);
      if xs.Bad? then Bad else
        var x := g(xs.rest);
        if x.Bad? then Bad else Got(xs.value + [x.value], x.rest)
  }

  function GetSection<T>(g: Bytes -> Got<T>, b: Bytes): Got<seq<T>> {
    var n := GetNumber(b, 4);
    if n.Bad? then Bad else GetList(g, n.value, n.rest)
  }

  /** A repeated key keeps its last root. */
  function FromList<K>(xs: seq<KV<K>>): map<K, u64> {
    if |xs| == 0 then map[] else FromList(xs[..|xs| - 1])[xs[|xs| - 1].key := xs[|xs| - 1].root]
  }

  /** The whole catalog; one that ends after the indexes has no unique ones. */
  function Decode(b: Bytes): Option<Catalog> {
    if |b| < 12 || b[..8] != MAGIC then None else
      var cs := GetSection(GetCollection, b[8..]);
      if cs.Bad? then None else
        var ins := GetSection(GetIndex, cs.rest);
        if ins.Bad? then None
        else if |ins.rest| < 4 then Some(Catalog(FromList(cs.value), FromList(ins.value), {}))
        else
          var us := GetSection(GetPair, ins.rest);
          if us.Bad? then None
          else Some(Catalog(FromList(cs.value), FromList(ins.value), set p | p in us.value))
  }

  // reading back what was written

  ghost predicate ShortName(s: Text) { |s| < 0x1_0000 }

  ghost predicate ShortPair(p: Pair) { ShortName(p.collection) && ShortName(p.field) }

  lemma NumberBack(n: nat, k: nat, rest: Bytes)
    requires n < Pow256(k)
    ensures GetNumber(LE(n, k) + rest, k) == Got(n, rest)
  {
    hide LE, FromLE;
    FromLEofLE(n, k);
    assert (LE(n, k) + rest)[..k] == LE(n, k) && (LE(n, k) + rest)[k..] == rest;
  }

  lemma NameBack(s: Text, rest: Bytes)
    requires ShortName(s)
    ensures GetName(NameBytes(s) + rest) == Got(s, rest)
  {
    hide LE, FromLE, Utf8;
    var b := NameBytes(s) + rest;
    Powers();
    NumberBack(|s|, 2, s + rest);
    assert b == LE(|s|, 2) + (s + rest) && b[..2] == LE(|s|, 2);
    assert b[2..2 + |s|] == s && b[2 + |s|..] == rest;
  }

  lemma RootBack(r: u64, rest: Bytes)
    ensures GetRoot(LE(r, 8) + rest) == Got(r, rest)
  {
    Powers();
    NumberBack(r, 8, rest);
  }

  lemma PairBack(p: Pair, rest: Bytes)
    requires ShortPair(p)
    ensures GetPair(PairBytes(p) + rest) == Got(p, rest)
  {
    hide GetName, NameBytes;
    NameBack(p.collection, NameBytes(p.field) + rest);
    NameBack(p.field, rest);
    assert PairBytes(p) + rest == NameBytes(p.collection) + (NameBytes(p.field) + rest);
  }

  lemma CollectionBack(e: KV<Text>, rest: Bytes)
    requires ShortName(e.key)
    ensures GetCollection(CollectionBytes(e) + rest) == Got(e, rest)
  {
    hide GetName, NameBytes, GetRoot, LE;
    NameBack(e.key, LE(e.root, 8) + rest);
    RootBack(e.root, rest);
    assert CollectionBytes(e) + rest == NameBytes(e.key) + (LE(e.root, 8) + rest);
  }

  lemma IndexBack(e: KV<Pair>, rest: Bytes)
    requires ShortPair(e.key)
    ensures GetIndex(IndexBytes(e) + rest) == Got(e, rest)
  {
    hide GetPair, PairBytes, GetRoot, LE;
    PairBack(e.key, LE(e.root, 8) + rest);
    RootBack(e.root, rest);
    assert IndexBytes(e) + rest == PairBytes(e.key) + (LE(e.root, 8) + rest);
  }

  /** Entry i reads back whatever follows it. */
  ghost predicate ReadsBack<T(!new)>(f: T -> Bytes, g: Bytes -> Got<T>, x: T) {
    forall rest :: g(f(x) + rest) == Got(x, rest)
  }

  lemma {:induction false} ListBack<T(!new)>(f: T -> Bytes, g: Bytes -> Got<T>, xs: seq<T>, n: nat, rest: Bytes)
    requires n <= |xs| && forall i :: 0 <= i < |xs| ==> ReadsBack(f, g, xs[i])
    ensures GetList(g, n, ListBytes(f, xs[..n]) + rest) == Got(xs[..n], rest)
  {
    if n == 0 {
    } else {
      var x := xs[n - 1];
      assert xs[..n] == xs[..n - 1] + [x] && xs[..n][..n - 1] == xs[..n - 1];
      ListBack(f, g, xs, n - 1, f(x) + rest);
      assert ReadsBack(f, g, x);
      assert ListBytes(f, xs[..n]) + rest == ListBytes(f, xs[..n - 1]) + (f(x) + rest);
    }
  }

  lemma SectionBack<T(!new)>(f: T -> Bytes, g: Bytes -> Got<T>, xs: seq<T>, rest: Bytes)
    requires |xs| < 0x1_0000_0000 && forall i :: 0 <= i < |xs| ==> ReadsBack(f, g, xs[i])
    ensures GetSection(g, Section(f, xs) + rest) == Got(xs, rest)
  {
    hide LE, FromLE, GetNumber;
    Powers();
    NumberBack(|xs|, 4, ListBytes(f, xs) + rest);
    assert Section(f, xs) + rest == LE(|xs|, 4) + (ListBytes(f, xs) + rest);
    ListBack(f, g, xs, |xs|, rest);
    assert xs[..|xs|] == xs;
  }

  /** Names and counts fit their length fields. */
  ghost predicate Fitting(cs: seq<KV<Text>>, ins: seq<KV<Pair>>, us: seq<Pair>) {
    && |cs| < 0x1_0000_0000 && |ins| < 0x1_0000_0000 && |us| < 0x1_0000_0000
    && (forall i :: 0 <= i < |cs| ==> ShortName(cs[i].key))
    && (forall i :: 0 <= i < |ins| ==> ShortPair(ins[i].key))
    && (forall i :: 0 <= i < |us| ==> ShortPair(us[i]))
  }

  /** Decoding what was encoded, in any order of the entries and with any bytes after it. */
  lemma DecodeBack(cs: seq<KV<Text>>, ins: seq<KV<Pair>>, us: seq<Pair>, rest: Bytes)
    requires Fitting(cs, ins, us)
    ensures Decode(CatalogBytes(cs, ins, us) + rest) == Some(Catalog(FromList(cs), FromList(ins), set p | p in us))
  {
    hide Section, GetSection, CollectionBytes, IndexBytes, PairBytes, GetCollection, GetIndex, GetPair, FromList;
    var b := CatalogBytes(cs, ins, us) + rest;
    var c, i, u := Section(CollectionBytes, cs), Section(IndexBytes, ins), Section(PairBytes, us);
    forall k | 0 <= k < |cs|
      ensures ReadsBack(CollectionBytes, GetCollection, cs[k])
    {
      forall r ensures GetCollection(CollectionBytes(cs[k]) + r) == Got(cs[k], r) {
        CollectionBack(cs[k], r);
      }
    }
    forall k | 0 <= k < |ins|
      ensures ReadsBack(IndexBytes, GetIndex, ins[k])
    {
      forall r ensures GetIndex(IndexBytes(ins[k]) + r) == Got(ins[k], r) {
        IndexBack(ins[k], r);
      }
    }
    forall k | 0 <= k < |us|
      ensures ReadsBack(PairBytes, GetPair, us[k])
    {
      forall r ensures GetPair(PairBytes(us[k]) + r) == Got(us[k], r) {
        PairBack(us[k], r);
      }
    }
    SectionBack(CollectionBytes, GetCollection, cs, i + u + rest);
    SectionBack(IndexBytes, GetIndex, ins, u + rest);
    SectionBack(PairBytes, GetPair, us, rest);
    SectionLength(PairBytes, us);
    assert b == MAGIC + c + i + u + rest;
    assert b[..8] == MAGIC && b[8..] == c + (i + u + rest);
    assert i + u + rest == i + (u + rest);
    SectionLength(CollectionBytes, cs);
  }

  lemma SectionLength<T>(f: T -> Bytes, xs: seq<T>)
    ensures |Section(f, xs)| >= 4
  {
  }

  // the encoder: a buffer of the exact size, filled by position

  ghost function Total<K(!new)>(s: set<K>, size: K -> nat): nat {
    if s == {} then 0 else
      var k :| k in s;
      size(k) + Total(s - {k}, size)
  }

  lemma {:induction false} TotalWithout<K(!new)>(s: set<K>, size: K -> nat, x: K)
    requires x in s
    ensures Total(s, size) == size(x) + Total(s - {x}, size)
  {
    var k :| k in s && Total(s, size) == size(k) + Total(s - {k}, size);
    if k != x {
      TotalWithout(s - {k}, size, x);
      TotalWithout(s - {x}, size, k);
      assert s - {k} - {x} == s - {x} - {k};
    }
  }

  function CollectionSize(k: Text): nat { 2 + |k| + 8 }

  function IndexSize(p: Pair): nat { 2 + |p.collection| + 2 + |p.field| + 8 }

  function PairSize(p: Pair): nat { 2 + |p.collection| + 2 + |p.field| }

  ghost function CatalogSize(c: Catalog): nat {
    12 + Total(c.collections.Keys, CollectionSize) + 4 + Total(c.indexes.Keys, IndexSize) + 4 + Total(c.unique, PairSize)
  }

  method SumSizes<K(!new, ==)>(s: set<K>, size: K -> nat) returns (total: nat)
    ensures total == Total(s, size)
  {
    total := 0;
    var left := s;
    while left != {}
      invariant left <= s && total + Total(left, size) == Total(s, size)
    {
      var k :| k in left;
      TotalWithout(left, size, k);
      total := total + size(k);
      left := left - {k};
    }
  }

  /** The entries listed are those of the map whose key is not left, each once. */
  ghost predicate Listed<K(!new)>(xs: seq<KV<K>>, m: map<K, u64>, left: set<K>) {
    && left <= m.Keys
    && (forall i, j :: 0 <= i < j < |xs| ==> xs[i].key != xs[j].key)
    && (forall i :: 0 <= i < |xs| ==> xs[i].key in m && xs[i].key !in left && m[xs[i].key] == xs[i].root)
    && (forall k :: k in m && k !in left ==> HasEntry(xs, k))
  }

  ghost predicate HasEntry<K(!new)>(xs: seq<KV<K>>, k: K) {
    exists i :: 0 <= i < |xs| && xs[i].key == k
  }

  lemma ListedStep<K(!new)>(xs: seq<KV<K>>, m: map<K, u64>, left: set<K>, k: K)
    requires Listed(xs, m, left) && k in left
    ensures k in m && Listed(xs + [KV(k, m[k])], m, left - {k})
  {
    var xs' := xs + [KV(k, m[k])];
    forall x | x in m && x !in left - {k}
      ensures HasEntry(xs', x)
    {
      if x == k {
        assert xs'[|xs|].key == k;
      } else {
        var i :| 0 <= i < |xs| && xs[i].key == x;
        assert xs'[i].key == x;
      }
    }
  }

  lemma {:induction false} FromListKeys<K(!new)>(xs: seq<KV<K>>, k: K)
    requires forall i, j :: 0 <= i < j < |xs| ==> xs[i].key != xs[j].key
    ensures k in FromList(xs) <==> HasEntry(xs, k)
    ensures forall i :: 0 <= i < |xs| && xs[i].key == k ==> k in FromList(xs) && FromList(xs)[k] == xs[i].root
    ensures |FromList(xs)| == |xs|
  {
    if |xs| == 0 {
    } else {
      var n := |xs| - 1;
      FromListKeys(xs[..n], k);
      FromListKeys(xs[..n], xs[n].key);
      assert FromList(xs).Keys == FromList(xs[..n]).Keys + {xs[n].key};
      assert forall i :: 0 <= i < n ==> xs[..n][i] == xs[i];
      assert HasEntry(xs, k) <==> HasEntry(xs[..n], k) || k == xs[n].key by {
        if HasEntry(xs[..n], k) {
          var i :| 0 <= i < n && xs[..n][i].key == k;
          assert xs[i].key == k;
        }
      }
    }
  }

  /** Reading all the entries of a map gives the map. */
  lemma ListedIsMap<K(!new)>(xs: seq<KV<K>>, m: map<K, u64>)
    requires Listed(xs, m, {})
    ensures FromList(xs) == m && |xs| == |m|
  {
    hide FromList;
    forall k
      ensures k in FromList(xs) <==> k in m
      ensures k in m ==> FromList(xs)[k] == m[k]
    {
      FromListKeys(xs, k);
      if k in m {
        assert HasEntry(xs, k);
      }
    }
    if |xs| > 0 {
      FromListKeys(xs, xs[0].key);
    } else {
      NoEntries<K>();
    }
  }

  lemma NoEntries<K(!new)>()
    ensures |FromList<K>([])| == 0
  {
  }

  lemma ListBytesAppend<T>(f: T -> Bytes, xs: seq<T>, x: T)
    ensures ListBytes(f, xs + [x]) == ListBytes(f, xs) + f(x)
  {
    assert (xs + [x])[..|xs|] == xs;
  }

  lemma PutPrefix(a: Bytes, a': Bytes, pos: nat, b: Bytes)
    requires pos + |b| <= |a| && a' == Put(a, pos, b)
    ensures a'[..pos + |b|] == a[..pos] + b
  {
  }

  /** One section of keyed entries, in whatever order the map yields them. */
  method WriteEntries<K(!new, ==)>(a: array<byte>, start: nat, m: map<K, u64>, f: KV<K> -> Bytes, ghost size: K -> nat)
    returns (pos: nat, ghost xs: seq<KV<K>>)
    requires start + Total(m.Keys, size) <= a.Length && forall k :: k in m ==> |f(KV(k, m[k]))| == size(k)
    modifies a
    ensures pos == start + Total(m.Keys, size) && a[..pos] == old(a[..start]) + ListBytes(f, xs)
    ensures Listed(xs, m, {})
  {
    hide Put, ListBytes, Total;
    pos, xs := start, [];
    var left := m.Keys;
    TotalNone(size);
    assert ListBytes(f, xs) == [] by {
      NoListBytes(f);
    }
    while left != {}
      invariant Listed(xs, m, left) && pos + Total(left, size) == start + Total(m.Keys, size)
      invariant a[..pos] == old(a[..start]) + ListBytes(f, xs)
    {
      var k :| k in left;
      TotalWithout(left, size, k);
      ListedStep(xs, m, left, k);
      var b := f(KV(k, m[k]));
      ghost var before := a[..];
      PutBytes(a, pos, b);
      PutPrefix(before, a[..], pos, b);
      ListBytesAppend(f, xs, KV(k, m[k]));
      assert before[..pos] == old(a[..start]) + ListBytes(f, xs);
      pos := pos + |b|;
      xs := xs + [KV(k, m[k])];
      left := left - {k};
    }
  }

  lemma TotalNone<K(!new)>(size: K -> nat)
    ensures Total({}, size) == 0
  {
  }

  lemma NoListBytes<T>(f: T -> Bytes)
    ensures ListBytes(f, []) == []
  {
  }

  method WritePairs(a: array<byte>, start: nat, s: set<Pair>) returns (pos: nat, ghost xs: seq<Pair>)
    requires start + Total(s, PairSize) <= a.Length
    modifies a
    ensures pos == start + Total(s, PairSize) && a[..pos] == old(a[..start]) + ListBytes(PairBytes, xs)
    ensures |xs| == |s| && forall p :: p in xs <==> p in s
  {
    hide Put, ListBytes, Total, PairBytes;
    pos, xs := start, [];
    var left := s;
    TotalNone(PairSize);
    assert ListBytes(PairBytes, xs) == [] by {
      NoListBytes(PairBytes);
    }
    while left != {}
      invariant left <= s && |xs| + |left| == |s| && (forall p :: p in xs <==> p in s - left)
      invariant pos + Total(left, PairSize) == start + Total(s, PairSize)
      invariant a[..pos] == old(a[..start]) + ListBytes(PairBytes, xs)
    {
      var p :| p in left;
      TotalWithout(left, PairSize, p);
      PairLength(p);
      ghost var before := a[..];
      PutBytes(a, pos, PairBytes(p));
      PutPrefix(before, a[..], pos, PairBytes(p));
      ListBytesAppend(PairBytes, xs, p);
      assert before[..pos] == old(a[..start]) + ListBytes(PairBytes, xs);
      pos := pos + PairSize(p);
      xs := xs + [p];
      left := left - {p};
    }
  }

  lemma PairLength(p: Pair)
    ensures |PairBytes(p)| == PairSize(p)
  {
  }

  lemma EntryLengths(c: Catalog)
    ensures forall k :: k in c.collections ==> |CollectionBytes(KV(k, c.collections[k]))| == CollectionSize(k)
    ensures forall p :: p in c.indexes ==> |IndexBytes(KV(p, c.indexes[p]))| == IndexSize(p)
  {
  }

  /** The precomputed size is exactly what is written, and the bytes list every entry once. */
  method EncodeCatalog(c: Catalog) returns (a: array<byte>, ghost cs: seq<KV<Text>>, ghost ins: seq<KV<Pair>>, ghost us: seq<Pair>)
    ensures fresh(a) && a.Length == CatalogSize(c) && a[..] == CatalogBytes(cs, ins, us)
    ensures Listed(cs, c.collections, {}) && Listed(ins, c.indexes, {}) && |us| == |c.unique| && forall p :: p in us <==> p in c.unique
  {
    hide Put, Section, Total, LE, Listed, CollectionBytes, IndexBytes, PairBytes;
    var n := SumSizes(c.collections.Keys, CollectionSize);
    var m := SumSizes(c.indexes.Keys, IndexSize);
    var l := SumSizes(c.unique, PairSize);
    a := new byte[12 + n + 4 + m + 4 + l](_ => 0);
    EntryLengths(c);
    ghost var before := a[..];
    PutBytes(a, 0, MAGIC);
    PutPrefix(before, a[..], 0, MAGIC);
    var pos := 8;
    pos, cs := WriteMap(a, 8, c.collections, CollectionBytes, CollectionSize);
    pos, ins := WriteMap(a, pos, c.indexes, IndexBytes, IndexSize);
    pos, us := WriteSet(a, pos, c.unique);
    assert a[..] == a[..pos];
  }

  method WriteMap<K(!new, ==)>(a: array<byte>, start: nat, m: map<K, u64>, f: KV<K> -> Bytes, ghost size: K -> nat)
    returns (pos: nat, ghost xs: seq<KV<K>>)
    requires start + 4 + Total(m.Keys, size) <= a.Length && forall k :: k in m ==> |f(KV(k, m[k]))| == size(k)
    modifies a
    ensures pos == start + 4 + Total(m.Keys, size) && a[..pos] == old(a[..start]) + Section(f, xs)
    ensures Listed(xs, m, {})
  {
    hide Total, LE, Listed, ListBytes;
    WriteCount(a, start, |m|);
    pos, xs := WriteEntries(a, start + 4, m, f, size);
    ListedIsMap(xs, m);
  }

  method WriteSet(a: array<byte>, start: nat, s: set<Pair>) returns (pos: nat, ghost xs: seq<Pair>)
    requires start + 4 + Total(s, PairSize) <= a.Length
    modifies a
    ensures pos == start + 4 + Total(s, PairSize) && a[..pos] == old(a[..start]) + Section(PairBytes, xs)
    ensures |xs| == |s| && forall p :: p in xs <==> p in s
  {
    hide Total, LE, ListBytes;
    WriteCount(a, start, |s|);
    pos, xs := WritePairs(a, start + 4, s);
  }

  method WriteCount(a: array<byte>, pos: nat, n: nat)
    requires pos + 4 <= a.Length
    modifies a
    ensures a[..pos + 4] == old(a[..pos]) + LE(n, 4)
  {
    hide LE, Put;
    ghost var before := a[..];
    PutBytes(a, pos, LE(n, 4));
    PutPrefix(before, a[..], pos, LE(n, 4));
  }

  /** Every length of the catalog fits its field. */
  ghost predicate SmallCatalog(c: Catalog) {
    && |c.collections| < 0x1_0000_0000 && |c.indexes| < 0x1_0000_0000 && |c.unique| < 0x1_0000_0000
    && (forall k :: k in c.collections ==> ShortName(k))
    && (forall p :: p in c.indexes ==> ShortPair(p)) && (forall p :: p in c.unique ==> ShortPair(p))
  }

  /** Any encoding of a catalog, followed by anything, decodes to that catalog. */
  lemma CatalogRoundTrip(c: Catalog, cs: seq<KV<Text>>, ins: seq<KV<Pair>>, us: seq<Pair>, rest: Bytes)
    requires SmallCatalog(c) && Listed(cs, c.collections, {}) && Listed(ins, c.indexes, {})
    requires |us| == |c.unique| && forall p :: p in us <==> p in c.unique
    ensures Decode(CatalogBytes(cs, ins, us) + rest) == Some(c)
  {
    hide Decode, CatalogBytes, FromList;
    ListedIsMap(cs, c.collections);
    ListedIsMap(ins, c.indexes);
    DecodeBack(cs, ins, us, rest);
    assert (set p | p in us) == c.unique;
  }

  // the decoder: a position moving over the bytes

  lemma {:induction false} GetListFails<T>(g: Bytes -> Got<T>, i: nat, n: nat, b: Bytes)
    requires i <= n && GetList(g, i, b).Bad?
    ensures GetList(g, n, b).Bad?
  {
    if i < n {
      GetListFails(g, i, n - 1, b);
    }
  }

  method DecodeCatalog(b: Bytes) returns (r: Option<Catalog>)
    ensures r == Decode(b)
  {
    hide GetCollection, GetIndex, GetPair, FromList, FromLE;
    if |b| < 12 || b[..8] != MAGIC {
      return None;
    }
    assert b[8..12] == b[8..][..4] && b[12..] == b[8..][4..];
    var count := FromLE(b[8..12]);
    var cs := ReadEntries(GetCollection, count, b[12..]);
    if cs.Bad? { return None; }
    var rest := cs.rest;
    if |rest| < 4 { return None; }
    var ins := ReadEntries(GetIndex, FromLE(rest[..4]), rest[4..]);
    if ins.Bad? { return None; }
    rest := ins.rest;
    var unique: set<Pair> := {};
    if |rest| >= 4 {
      var us := ReadPairs(FromLE(rest[..4]), rest[4..]);
      if us.Bad? { return None; }
      unique := us.value;
    }
    r := Some(Catalog(cs.value, ins.value, unique));
  }

  method ReadEntries<K(==)>(g: Bytes -> Got<KV<K>>, n: nat, b: Bytes) returns (r: Got<map<K, u64>>)
    ensures match GetList(g, n, b)
            case Bad => r == Bad
            case Got(xs, rest) => r == Got(FromList(xs), rest)
  {
    var m: map<K, u64> := map[];
    var left := b;
    ghost var xs: seq<KV<K>> := [];
    for i := 0 to n
      invariant GetList(g, i, b) == Got(xs, left) && m == FromList(xs)
    {
      var x := g(left);
      if x.Bad? {
        assert GetList(g, i + 1, b).Bad?;
        GetListFails(g, i + 1, n, b);
        return Bad;
      }
      m := m[x.value.key := x.value.root];
      left := x.rest;
      assert (xs + [x.value])[..|xs|] == xs;
      xs := xs + [x.value];
    }
    r := Got(m, left);
  }

  method ReadPairs(n: nat, b: Bytes) returns (r: Got<set<Pair>>)
    ensures match GetList(GetPair, n, b)
            case Bad => r == Bad
            case Got(xs, rest) => r == Got((set p | p in xs), rest)
  {
    hide GetPair;
    var s: set<Pair> := {};
    var left := b;
    ghost var xs: seq<Pair> := [];
    for i := 0 to n
      invariant GetList(GetPair, i, b) == Got(xs, left) && s == (set p | p in xs)
    {
      var x := GetPair(left);
      if x.Bad? {
        assert GetList(GetPair, i + 1, b).Bad?;
        GetListFails(GetPair, i + 1, n, b);
        return Bad;
      }
      s := s + {x.value};
      left := x.rest;
      xs := xs + [x.value];
    }
    r := Got(s, left);
  }

  // the page chain

  const CHUNK: nat := 4088

  function ChunkCount(n: nat): nat { (n + 4087) / 4088 }

  function Chunk(b: Bytes, k: nat): (c: Bytes)
    requires 4088 * k <= |b|
    ensures |c| <= CHUNK
  {
    b[4088 * k..if 4088 * k + 4088 <= |b| then 4088 * k + 4088 else |b|]
  }

  function Zeros(n: nat): Bytes { seq(n, _ => 0) }

  /** A catalog page: its chunk from the start, zeros, and the next page in the last eight bytes. */
  function ChunkPage(c: Bytes, next: PageId): Page
    requires |c| <= CHUNK
  {
    c + Zeros(CHUNK - |c|) + LE(next, 8)
  }

  function NextOf(p: Page): nat { FromLE(p[CHUNK..]) }

  lemma ChunkPageParts(c: Bytes, next: PageId)
    requires |c| <= CHUNK && next < 0x1_0000_0000_0000_0000
    ensures ChunkPage(c, next)[..CHUNK] == c + Zeros(CHUNK - |c|) && NextOf(ChunkPage(c, next)) == next
  {
    hide LE, FromLE;
    Powers();
    FromLEofLE(next, 8);
    var p := ChunkPage(c, next);
    assert p[CHUNK..] == LE(next, 8);
  }

  /** Distinct page ids below n are at most n. */
  lemma {:induction false} Pigeon(s: seq<PageId>, n: nat)
    requires Distinct(s) && forall i :: 0 <= i < |s| ==> s[i] < n
    ensures |s| <= n
    decreases n
  {
    if |s| > 0 {
      assert s[0] < n;
    }
    if n == 0 {
    } else if n - 1 in s {
      var i :| 0 <= i < |s| && s[i] == n - 1;
      Pigeon(RemoveAt(s, i), n - 1);
    } else {
      Pigeon(s, n - 1);
    }
  }

  /** Pages already followed: distinct pages of the file. */
  ghost predicate Followed(file: seq<Page>, seen: seq<PageId>) {
    Distinct(seen) && forall i :: 0 <= i < |seen| ==> seen[i] < |file|
  }

  lemma FollowedMore(file: seq<Page>, seen: seq<PageId>, next: PageId)
    requires Followed(file, seen) && next < |file| && next !in seen
    ensures Followed(file, seen + [next]) && |seen| < |file|
  {
    Pigeon(seen + [next], |file|);
  }

  /** The chunks from a page on and the pages after it; None for a link out of the file or back into the chain.
      Every page followed is new, so this ends on every file. */
  ghost function Follow(file: seq<Page>, at: PageId, seen: seq<PageId>): Option<(Bytes, seq<PageId>)>
    requires at < |file| && Followed(file, seen)
    decreases |file| - |seen|
  {
    var next := NextOf(file[at]);
    if next == 0 then Some((file[at][..CHUNK], seen))
    else if next >= |file| || next in seen then None
    else
      FollowedMore(file, seen, next);
      var more := Follow(file, next, seen + [next]);
      if more.None? then None else Some((file[at][..CHUNK] + more.value.0, more.value.1))
  }

  method ReadCatalogChain(disk: DiskManager<Page>) returns (r: Option<(Bytes, seq<PageId>)>)
    requires |disk.file| > 0
    ensures r == Follow(disk.file, 0, [])
  {
    hide NextOf;
    var bytes: Bytes := [];
    var overflow: seq<PageId> := [];
    var id: PageId := 0;
    ghost var all := Follow(disk.file, 0, []);
    assert all.Some? ==> [] + all.value.0 == all.value.0;
    while true
      invariant id < |disk.file| && Followed(disk.file, overflow)
      invariant all == Before(bytes, Follow(disk.file, id, overflow))
      decreases |disk.file| - |overflow|
    {
      var page := disk.ReadPage(id);
      ghost var rest := Follow(disk.file, id, overflow);
      var next := NextOf(page);
      if next == 0 {
        return Some((bytes + page[..CHUNK], overflow));
      }
      if next >= |disk.file| || next in overflow {
        return None;
      }
      FollowedMore(disk.file, overflow, next);
      BeforeStep(bytes, page[..CHUNK], Follow(disk.file, next, overflow + [next]));
      bytes := bytes + page[..CHUNK];
      overflow := overflow + [next];
      id := next;
    }
  }

  ghost function Before(b: Bytes, r: Option<(Bytes, seq<PageId>)>): Option<(Bytes, seq<PageId>)> {
    if r.None? then None else Some((b + r.value.0, r.value.1))
  }

  lemma BeforeStep(b: Bytes, c: Bytes, r: Option<(Bytes, seq<PageId>)>)
    ensures Before(b, Before(c, r)) == Before(b + c, r)
  {
    if r.Some? {
      assert b + (c + r.value.0) == b + c + r.value.0;
    }
  }

  // writing the chain

  function PageOf(overflow: seq<PageId>, k: nat): PageId
    requires k <= |overflow|
  {
    if k == 0 then 0 else overflow[k - 1]
  }

  function NextAfter(overflow: seq<PageId>, n: nat, k: nat): PageId
    requires n <= |overflow| + 1
  {
    if k + 1 < n then overflow[k] else 0
  }

  /** Overflow pages: distinct pages of the file after page 0. */
  ghost predicate OverflowOk(overflow: seq<PageId>, pages: nat) {
    0 < pages < 0x1_0000_0000_0000_0000 && Distinct(overflow) && forall i :: 0 <= i < |overflow| ==> 0 < overflow[i] < pages
  }

  /** Chunk k of the bytes is on its page, linked to the next one. */
  ghost predicate OnPage(file: seq<Page>, b: Bytes, overflow: seq<PageId>, k: nat) {
    && k <= |overflow| && k < ChunkCount(|b|) <= |overflow| + 1 && PageOf(overflow, k) < |file|
    && file[PageOf(overflow, k)] == ChunkPage(Chunk(b, k), NextAfter(overflow, ChunkCount(|b|), k))
  }

  method WriteChunks(disk: DiskManager<Page>, b: Bytes, overflow: seq<PageId>)
    requires OverflowOk(overflow, |disk.file|) && ChunkCount(|b|) <= |overflow| + 1
    modifies disk`file
    ensures |disk.file| == |old(disk.file)| && forall k :: 0 <= k < ChunkCount(|b|) ==> OnPage(disk.file, b, overflow, k)
    ensures forall p :: 0 < p < |disk.file| && p !in overflow ==> disk.file[p] == old(disk.file)[p]
  {
    hide ChunkPage, Chunk;
    var n := ChunkCount(|b|);
    for i := 0 to n
      invariant |disk.file| == |old(disk.file)| && forall k :: 0 <= k < i ==> OnPage(disk.file, b, overflow, k)
      invariant forall p :: 0 < p < |disk.file| && p !in overflow ==> disk.file[p] == old(disk.file)[p]
    {
      var page := ChunkPage(Chunk(b, i), NextAfter(overflow, n, i));
      ghost var before := disk.file;
      disk.WritePage(PageOf(overflow, i), page);
      forall k | 0 <= k <= i
        ensures OnPage(disk.file, b, overflow, k)
      {
        assert k < i ==> OnPage(before, b, overflow, k);
        PagesApart(overflow, |disk.file|, k, i);
      }
    }
  }

  lemma PagesApart(overflow: seq<PageId>, pages: nat, k: nat, i: nat)
    requires OverflowOk(overflow, pages) && k <= i <= |overflow|
    ensures PageOf(overflow, i) < pages && (PageOf(overflow, k) == PageOf(overflow, i) <==> k == i)
  {
  }

  /** The chunks from k on, the last one filled up with zeros. */
  ghost function Tail(b: Bytes, k: nat): Bytes
    requires k < ChunkCount(|b|)
  {
    b[4088 * k..] + Zeros(4088 * ChunkCount(|b|) - |b|)
  }

  lemma TailStep(b: Bytes, k: nat)
    requires k < ChunkCount(|b|)
    ensures var c := Chunk(b, k); var padded := c + Zeros(CHUNK - |c|);
      Tail(b, k) == if k + 1 < ChunkCount(|b|) then padded + Tail(b, k + 1) else padded
  {
  }

  /** Following the chain of a flushed catalog gives its bytes and exactly the overflow pages in use. */
  lemma {:induction false} FollowWritten(file: seq<Page>, b: Bytes, overflow: seq<PageId>, k: nat)
    requires OverflowOk(overflow, |file|) && k < ChunkCount(|b|) <= |overflow| + 1
    requires forall i :: 0 <= i < ChunkCount(|b|) ==> OnPage(file, b, overflow, i)
    ensures PageOf(overflow, k) < |file| && Followed(file, overflow[..k])
    ensures Follow(file, PageOf(overflow, k), overflow[..k]) == Some((Tail(b, k), overflow[..ChunkCount(|b|) - 1]))
    decreases ChunkCount(|b|) - k
  {
    hide ChunkPage, Chunk, NextOf, Tail, Zeros;
    assert OnPage(file, b, overflow, k);
    var n := ChunkCount(|b|);
    ChunkPageParts(Chunk(b, k), NextAfter(overflow, n, k));
    TailStep(b, k);
    if k + 1 < n {
      FollowWritten(file, b, overflow, k + 1);
      assert overflow[..k + 1] == overflow[..k] + [overflow[k]];
    }
  }

  /** flush, then reading the chain and decoding, returns the same catalog. */
  method FlushAndReopen(disk: DiskManager<Page>, c: Catalog, overflow: seq<PageId>) returns (r: Option<Catalog>)
    requires SmallCatalog(c) && OverflowOk(overflow, |disk.file|) && ChunkCount(CatalogSize(c)) <= |overflow| + 1
    modifies disk`file
    ensures r == Some(c)
    ensures |disk.file| == |old(disk.file)| && forall p :: 0 < p < |disk.file| && p !in overflow ==> disk.file[p] == old(disk.file)[p]
  {
    hide Decode, CatalogBytes, Follow, Tail, ChunkPage, Listed, CatalogSize, SmallCatalog;
    var a, cs, ins, us := EncodeCatalog(c);
    var b := a[..];
    CatalogNotEmpty(cs, ins, us);
    WriteChunks(disk, b, overflow);
    FollowWritten(disk.file, b, overflow, 0);
    assert overflow[..0] == [];
    var chain := ReadCatalogChain(disk);
    TailAll(b);
    CatalogRoundTrip(c, cs, ins, us, Zeros(4088 * ChunkCount(|b|) - |b|));
    r := DecodeCatalog(chain.value.0);
  }

  lemma TailAll(b: Bytes)
    requires |b| > 0
    ensures ChunkCount(|b|) > 0 && 4088 * ChunkCount(|b|) >= |b| && Tail(b, 0) == b + Zeros(4088 * ChunkCount(|b|) - |b|)
  {
    assert b[4088 * 0..] == b;
  }

  lemma CatalogNotEmpty(cs: seq<KV<Text>>, ins: seq<KV<Pair>>, us: seq<Pair>)
    ensures |CatalogBytes(cs, ins, us)| > 0
  {
  }
}
