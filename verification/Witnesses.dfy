/** Runs of src/btree/btree.rs that end in the two failures its operations have: a delete that panics, and a key that a handle
    at an old root no longer finds. */
module Witnesses {
  import opened Bytes
  import opened Disk
  import opened Values
  import opened KeyOrder
  import opened Nodes
  import opened Tree
  import opened InOrder
  import opened BTrees
  import P = Pool

  // where keys are

  /** A page at a lower level, inside the range of page p. */
  lemma {:induction false} PageBelow(t: T, p: PageId, h: nat) returns (q: PageId)
    requires Inv(t) && p in t.shape && h <= t.shape[p].h
    ensures q in t.shape && t.shape[q].h == h && t.shape[p].lo <= t.shape[q].lo && t.shape[q].hi <= t.shape[p].hi
    decreases t.shape[p].h
  {
    hide Inv, NodeOk, Rank;
    if t.shape[p].h == h {
      q := p;
    } else {
      HeightKind(t, p);
      SplitFacts(t, p);
      Descend(t, p, 0);
      q := PageBelow(t, t.nodes[p].children[0], h);
    }
  }

  lemma RootThere(t: T)
    requires Inv(t)
    ensures t.root in t.shape
  {
    hide NodeOk;
  }

  lemma RootIsTop(t: T, p: PageId)
    requires Inv(t) && p in t.shape
    ensures t.root in t.shape && t.shape[p].h <= t.shape[t.root].h && t.shape[t.root].lo == 0.0 && t.shape[t.root].hi == 1.0
    ensures 0.0 <= t.shape[p].lo < t.shape[p].hi <= 1.0
  {
    hide NodeOk, Disjoint;
  }

  lemma Apart(t: T, p: PageId, q: PageId)
    requires Inv(t) && p in t.shape && q in t.shape && p != q && t.shape[p].h == t.shape[q].h
    ensures t.shape[p].hi <= t.shape[q].lo || t.shape[q].hi <= t.shape[p].lo
  {
    hide NodeOk;
  }

  /** Every page below the root is responsible for a key. */
  lemma KeyBelow(t: T, p: PageId) returns (key: Key)
    requires Inv(t) && t.hole.None? && p in t.shape && p != t.root
    ensures key in t.contents && Covers(t.shape[p], key)
  {
    hide Inv, Rank, Sorted;
    NotOnTop(t, p);
    var leaf := PageBelow(t, p, 0);
    InNodes(t, leaf);
    HeightKind(t, leaf);
    key := t.nodes[leaf].keys[0];
  }

  /** The root is alone on its level. */
  lemma NotOnTop(t: T, p: PageId)
    requires Inv(t) && p in t.shape && p != t.root
    ensures t.shape[p].h < t.shape[t.root].h
  {
    hide Inv;
    RootIsTop(t, p);
    if t.shape[p].h == t.shape[t.root].h {
      Apart(t, p, t.root);
    }
  }

  // a handle at an old root

  /** A handle at any page but the root misses some key of the tree. */
  lemma StaleMisses(t: T, p: PageId) returns (key: Key)
    requires Inv(t) && t.hole.None? && p in t.shape && p != t.root
    ensures key in t.contents && !Covers(t.shape[p], key)
  {
    hide Inv, Rank, NodeOk;
    NotOnTop(t, p);
    RootIsTop(t, p);
    var h := t.shape[p].h;
    HeightKind(t, t.root);
    RootBranches(t);
    Descend(t, t.root, 0);
    Descend(t, t.root, 1);
    var left := PageBelow(t, t.nodes[t.root].children[0], h);
    var right := PageBelow(t, t.nodes[t.root].children[1], h);
    var other := if left == p then right else left;
    RootIsTop(t, left);
    RootIsTop(t, right);
    assert other != p;
    Apart(t, p, other);
    key := KeyBelow(t, other);
  }

  lemma RootBranches(t: T)
    requires Inv(t) && t.shape[t.root].h > 0
    ensures t.root in t.nodes && t.nodes[t.root].Internal? && |t.nodes[t.root].children| >= 2
  {
    hide Rank;
    HeightKind(t, t.root);
    InNodes(t, t.root);
  }

  // how many keys a low tree can have

  ghost function KeysUnder(contents: Contents, x: real): set<Key> {
    set k | k in contents && Rank(k) < x
  }

  lemma {:induction false} AtMost(ks: seq<Key>, s: set<Key>)
    requires forall k :: k in s ==> k in ks
    ensures |s| <= |ks|
  {
    if |ks| == 0 {
      assert s == {};
    } else {
      AtMost(ks[1..], s - {ks[0]});
      assert s <= (s - {ks[0]}) + {ks[0]};
      Union(s - {ks[0]}, {ks[0]}, s);
    }
  }

  lemma Union(a: set<Key>, b: set<Key>, s: set<Key>)
    requires s <= a + b
    ensures |s| <= |a| + |b|
  {
    Subset(s, a + b);
    assert a + b == a + (b - a);
    Subset(b - a, b);
  }

  lemma {:induction false} Subset(a: set<Key>, b: set<Key>)
    requires a <= b
    ensures |a| <= |b|
    decreases a
  {
    if a == {} {
    } else {
      var x :| x in a;
      Subset(a - {x}, b - {x});
    }
  }

  lemma LeafHasKey(t: T, p: PageId, key: Key)
    requires Inv(t) && p in t.shape && t.shape[p].h == 0 && key in t.contents && Covers(t.shape[p], key)
    ensures p in t.nodes && t.nodes[p].Leaf? && key in t.nodes[p].keys
  {
    hide Rank, Sorted, Disjoint;
    HeightKind(t, p);
    InNodes(t, p);
  }

  /** The first i leaves of a tree of two levels have room for so many keys. */
  lemma {:induction false} KeysInChildren(t: T, i: nat)
    requires Inv(t) && t.shape[t.root].h == 1 && t.root in t.nodes && t.nodes[t.root].Internal? && i <= |t.nodes[t.root].children|
    requires Fits(t.nodes[t.root])
    ensures |KeysUnder(t.contents, Bound(t.nodes[t.root], i, t.shape[t.root]))| <= i * t.caps.leaf
  {
    hide Inv, NodeOk, Rank;
    RootThere(t);
    RootIsTop(t, t.root);
    var n, r := t.nodes[t.root], t.shape[t.root];
    if i == 0 {
      assert KeysUnder(t.contents, r.lo) == {};
    } else {
      KeysInChildren(t, i - 1);
      Descend(t, t.root, i - 1);
      var c := n.children[i - 1];
      HeightKind(t, c);
      SplitFacts(t, c);
      var before, now := KeysUnder(t.contents, Bound(n, i - 1, r)), KeysUnder(t.contents, Bound(n, i, r));
      forall k | k in now - before
        ensures k in t.nodes[c].keys
      {
        LeafHasKey(t, c, k);
      }
      AtMost(t.nodes[c].keys, now - before);
      Union(before, now - before, now);
      assert i * t.caps.leaf == (i - 1) * t.caps.leaf + t.caps.leaf;
    }
  }

  /** A tree with only a leaf, or only a root above its leaves, has no more keys than their pages can hold. */
  lemma LowTreeSmall(t: T)
    requires Inv(t)
    ensures t.shape[t.root].h == 0 ==> |t.contents| <= t.caps.leaf
    ensures t.shape[t.root].h == 1 ==> |t.contents| <= (t.caps.sep + 1) * t.caps.leaf
  {
    hide Inv, NodeOk, Rank;
    RootThere(t);
    RootIsTop(t, t.root);
    HeightKind(t, t.root);
    SplitFacts(t, t.root);
    var n, r := t.nodes[t.root], t.shape[t.root];
    SameSize(t.contents);
    if r.h == 0 {
      forall k | k in t.contents.Keys
        ensures k in n.keys
      {
        LeafHasKey(t, t.root, k);
      }
      AtMost(n.keys, t.contents.Keys);
    } else if r.h == 1 {
      KeysInChildren(t, |n.children|);
      assert KeysUnder(t.contents, 1.0) == t.contents.Keys;
      assert |n.children| * t.caps.leaf <= (t.caps.sep + 1) * t.caps.leaf by {
        Product(|n.children|, t.caps.sep + 1, t.caps.leaf);
      }
    }
  }

  lemma SameSize(m: Contents)
    ensures |m.Keys| == |m|
  {
  }

  lemma Product(a: nat, b: nat, c: nat)
    requires a <= b
    ensures a * c <= b * c
  {
  }

  lemma HighIsTall(t: T)
    requires Inv(t) && t.shape[t.root].h >= 2
    ensures Tall(t)
  {
    hide Inv, NodeOk, Rank;
    RootThere(t);
    HeightKind(t, t.root);
    SplitFacts(t, t.root);
    Descend(t, t.root, 0);
    HeightKind(t, t.nodes[t.root].children[0]);
  }

  lemma TallHasKeys(t: T)
    requires Inv(t) && t.hole.None? && Tall(t)
    ensures |t.contents| > 0
  {
    hide Inv, NodeOk, Rank;
    RootThere(t);
    Descend(t, t.root, 0);
    var key := KeyBelow(t, t.nodes[t.root].children[0]);
  }

  // deleting everything

  ghost predicate Lists(entries: seq<(Key, DocId)>, contents: Contents) {
    forall k :: k in contents ==> (k, contents[k]) in entries
  }

  /** The pair is the last one of a leaf whose parent is stuck. */
  ghost predicate LastAndStuck(t: T, pair: (Key, DocId), leaf: PageId, path: seq<PageId>) {
    && Inv(t) && pair.0 in t.contents && t.contents[pair.0] == pair.1
    && PathOk(t, path, leaf) && leaf in t.nodes && |t.nodes[leaf].keys| == 1 && Stuck(t, path, leaf)
  }

  /** Whoever deletes the entries of a tall tree, in whatever order, meets the panic before the tree is empty. */
  method DeleteAll(bt: BTree, entries: seq<(Key, DocId)>)
    returns (ok: bool, k: nat, ghost t: T, ghost leaf: PageId, ghost path: seq<PageId>)
    requires bt.Valid() && bt.root == bt.top && Tall(bt.Value()) && Lists(entries, bt.contents)
    modifies bt, bt.pool, bt.pool.disk
    ensures !ok && k < |entries| && LastAndStuck(t, entries[k], leaf, path) && t.contents.Keys <= old(bt.contents.Keys)
  {
    hide Inv, Rank, P.Flat, P.Inv, P.Packed, P.LastAccess, bt.pool.Valid, PathOk, Stuck, Tall, Elsewhere;
    k := 0;
    while k < |entries|
      invariant k <= |entries| && bt.Valid() && bt.root == bt.top && Tall(bt.Value()) && Lists(entries[k..], bt.contents)
      invariant bt.contents.Keys <= old(bt.contents.Keys)
    {
      t := bt.Value();
      var pair := entries[k];
      assert entries[k..] == [pair] + entries[k + 1..];
      ok, leaf, path := bt.Delete(pair.0, pair.1);
      if !ok {
        return;
      }
      k := k + 1;
    }
    TallHasKeys(bt.Value());
    assert false;
  }

  /** The index key of an integer. */
  function IntKey(i: nat): (k: Key)
    requires i < TWO63
    ensures |k| == 9
  {
    SerializeKey(Int(i)).value
  }

  lemma IntKeysDiffer(i: nat, j: nat)
    requires i < TWO63 && j < TWO63
    ensures IntKey(i) == IntKey(j) <==> i == j
  {
    hide BE;
    KeyOrder.KeyOrder(Int(i), Int(j));
  }

  /** Entry j is that of the integer j. */
  ghost predicate OfInts(entries: seq<(Key, DocId)>) {
    |entries| < TWO63 && forall j :: 0 <= j < |entries| ==> entries[j] == (IntKey(j), (0, j))
  }

  lemma NextKeyIsNew(entries: seq<(Key, DocId)>, contents: Contents)
    requires OfInts(entries) && Lists(entries, contents)
    ensures IntKey(|entries|) !in contents
  {
    hide IntKey;
    var i := |entries|;
    if IntKey(i) in contents {
      var j :| 0 <= j < i && entries[j] == (IntKey(i), contents[IntKey(i)]);
      IntKeysDiffer(i, j);
      assert false;
    }
  }

  /** A new tree with the integers below n under their index keys, and the page it started from. */
  method Fill(pool: P.BufferPool<Node>, n: nat) returns (bt: BTree, entries: seq<(Key, DocId)>, first: PageId)
    requires pool.Valid() && n < TWO63
    modifies pool, pool.disk
    ensures fresh(bt) && bt.pool == pool && bt.Valid() && bt.root == bt.top && bt.caps == CapsFor(9)
    ensures |bt.contents| == |entries| == n && OfInts(entries) && Lists(entries, bt.contents)
    ensures forall i :: 0 <= i < n ==> entries[i].0 in bt.contents
    ensures first in bt.shape && bt.shape[first].h == 0
  {
    hide Inv, Rank, P.Flat, P.Inv, P.Packed, P.LastAccess, pool.Valid, IntKey, Elsewhere, Full;
    NumericCaps();
    bt := new BTree.New(pool, 9);
    first, entries := bt.root, [];
    HeightKind(bt.Value(), first);
    for i := 0 to n
      invariant fresh(bt) && bt.pool == pool && bt.Valid() && bt.root == bt.top && bt.caps == CapsFor(9)
      invariant first in bt.shape && bt.shape[first].h == 0
      invariant |bt.contents| == |entries| == i && OfInts(entries) && Lists(entries, bt.contents)
      invariant forall j :: 0 <= j < i ==> entries[j].0 in bt.contents
    {
      NextKeyIsNew(entries, bt.contents);
      bt.Insert(IntKey(i), (0, i));
      entries := entries + [(IntKey(i), (0, i))];
    }
  }

  /** More keys than a tree of two levels can hold. */
  const MANY: nat := 195 * 177 + 1

  /** A tree of that many integers, built by insert alone, cannot be emptied: one of the deletes panics. */
  method FillAndEmpty(pool: P.BufferPool<Node>) returns (ok: bool, k: nat, ghost t: T, ghost leaf: PageId, ghost path: seq<PageId>)
    requires pool.Valid()
    modifies pool, pool.disk
    ensures !ok && k < MANY && LastAndStuck(t, (IntKey(k), (0, k)), leaf, path)
  {
    hide Inv, Rank, P.Flat, P.Inv, P.Packed, P.LastAccess, pool.Valid, IntKey;
    var bt, entries, _ := Fill(pool, MANY);
    NumericCaps();
    LowTreeSmall(bt.Value());
    HighIsTall(bt.Value());
    ok, k, t, leaf, path := DeleteAll(bt, entries);
  }

  /** One key more than a leaf can hold, and the handle that was opened before: search from it misses a key of the tree. */
  method FillAndSearch(pool: P.BufferPool<Node>) returns (key: Key, r: Option<DocId>, ghost t: T)
    requires pool.Valid()
    modifies pool, pool.disk
    ensures Inv(t) && |t.contents| == 178 && key in t.contents && r == None
  {
    hide Inv, Rank, P.Flat, P.Inv, P.Packed, P.LastAccess, pool.Valid, IntKey;
    var bt, entries, first := Fill(pool, 178);
    t := bt.Value();
    NumericCaps();
    LowTreeSmall(t);
    var stale := new BTree.Open(first, pool, 9, t);
    for i := 0 to 178
      invariant stale.Valid() && stale.Value() == t && stale.root == first && stale.pool == pool
      invariant forall j :: 0 <= j < i ==> Covers(t.shape[first], entries[j].0)
    {
      key := entries[i].0;
      r := stale.Search(key);
      if r.None? {
        return;
      }
    }
    ghost var lost := StaleMisses(t, first);
    assert false;
  }
}
