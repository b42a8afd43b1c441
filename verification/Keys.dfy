/** Byte strings and their order. */
module Bytes {
  type byte = x: int | 0 <= x < 256
  type Bytes = seq<byte>

  /** Order of byte strings as slices compare: bytewise, a proper prefix first. */
  predicate Lt(a: Bytes, b: Bytes) {
    if |b| == 0 then false
    else if |a| == 0 then true
    else if a[0] != b[0] then a[0] < b[0]
    else Lt(a[1..], b[1..])
  }

  predicate Le(a: Bytes, b: Bytes) {
    a == b || Lt(a, b)
  }

  /** Where a byte string sits in [0, 1): an order embedding of all byte strings of every length. */
  ghost function Rank(a: Bytes): (r: real)
    ensures 0.0 <= r < 1.0
  {
    if |a| == 0 then 0.0 else (a[0] as real + 1.0 + Rank(a[1..])) / 257.0
  }

  lemma {:induction false} RankOrder(a: Bytes, b: Bytes)
    ensures Lt(a, b) <==> Rank(a) < Rank(b)
    ensures a == b <==> Rank(a) == Rank(b)
  {
    if |a| == 0 || |b| == 0 {
    } else {
      RankOrder(a[1..], b[1..]);
      if a[0] == b[0] {
        assert a == [a[0]] + a[1..] && b == [b[0]] + b[1..];
      }
    }
  }

  /** The k low bytes of n, least significant first. */
  function LE(n: nat, k: nat): (b: Bytes)
    ensures |b| == k
  {
    if k == 0 then [] else [n % 256] + LE(n / 256, k - 1)
  }

  function FromLE(b: Bytes): nat {
    if |b| == 0 then 0 else b[0] + 256 * FromLE(b[1..])
  }

  function Pow256(k: nat): (r: nat)
    ensures r > 0
  {
    if k == 0 then 1 else 256 * Pow256(k - 1)
  }

  lemma {:induction false} FromLEofLE(n: nat, k: nat)
    requires n < Pow256(k)
    ensures FromLE(LE(n, k)) == n
  {
    if k == 0 {
    } else {
      assert n / 256 < Pow256(k - 1);
      FromLEofLE(n / 256, k - 1);
      assert LE(n, k)[1..] == LE(n / 256, k - 1);
    }
  }

  lemma {:induction false} LEofFromLE(b: Bytes)
    ensures FromLE(b) < Pow256(|b|) && LE(FromLE(b), |b|) == b
  {
    if |b| == 0 {
    } else {
      LEofFromLE(b[1..]);
      var n := FromLE(b[1..]);
      assert FromLE(b) % 256 == b[0] && FromLE(b) / 256 == n;
      assert b == [b[0]] + b[1..];
    }
  }

  lemma Powers()
    ensures Pow256(2) == 0x1_0000 && Pow256(4) == 0x1_0000_0000 && Pow256(8) == 0x1_0000_0000_0000_0000
  {
    assert Pow256(1) == 256 && Pow256(3) == 0x100_0000;
    assert Pow256(5) == 0x100_0000_0000 && Pow256(6) == 0x1_0000_0000_0000 && Pow256(7) == 0x100_0000_0000_0000;
  }

  /** The bytes b written over s at an offset. */
  function Put(s: Bytes, off: nat, b: Bytes): (r: Bytes)
    requires off + |b| <= |s|
    ensures |r| == |s|
  {
    s[..off] + b + s[off + |b|..]
  }

  lemma PutSame(s: Bytes, off: nat, b: Bytes)
    requires off + |b| <= |s|
    ensures Put(s, off, b)[off..off + |b|] == b
  {
  }

  lemma PutApart(s: Bytes, off: nat, b: Bytes, x: nat, y: nat)
    requires off + |b| <= |s| && x <= y <= |s| && (y <= off || off + |b| <= x)
    ensures Put(s, off, b)[x..y] == s[x..y]
  {
  }

  lemma PutInside(s: Bytes, off: nat, b: Bytes, x: nat, y: nat)
    requires off + |b| <= |s| && off <= x <= y <= off + |b|
    ensures Put(s, off, b)[x..y] == b[x - off..y - off]
  {
  }

  lemma Regroup(a: Bytes, b: Bytes, c: Bytes)
    ensures a + b + c == a + (b + c)
  {
  }

  lemma SliceSlice(s: Bytes, a: nat, b: nat, x: nat, y: nat)
    requires a <= b <= |s| && x <= y <= b - a
    ensures s[a..b][x..y] == s[a + x..a + y]
  {
    var t := s[a..b];
    forall i | 0 <= i < y - x
      ensures t[x..y][i] == s[a + x..a + y][i]
    {
      assert t[x..y][i] == t[x + i] == s[a + (x + i)];
    }
  }
}
