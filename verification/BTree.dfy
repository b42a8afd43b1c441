/** src/btree/btree.rs: the paged B+tree over the buffer pool. */
module BTrees {
  import opened Bytes
  import opened Disk
  import opened Nodes
  import opened Tree
  import opened Repair
  import opened InOrder
  import P = Pool

  const EMPTY := Leaf([], [], None)

  function CapsFor(keyLen: nat): Caps {
    Caps((PAGE_SIZE - HEADER_SIZE) / (LEAF_SLOT + keyLen), (PAGE_SIZE - HEADER_SIZE) / (INTERNAL_SLOT + keyLen), keyLen)
  }

  lemma {:induction false} UniformKeys(ks: seq<Key>, keyLen: nat)
    requires forall i :: 0 <= i < |ks| ==> |ks[i]| == keyLen
    ensures KeyBytes(ks) == |ks| * keyLen
  {
    if |ks| == 0 {
    } else {
      UniformKeys(ks[1..], keyLen);
    }
  }

  /** With keys of one length, the byte test of the node layer is a count of slots. */
  lemma SpaceIsCount(n: Node, keyLen: nat)
    requires forall i :: 0 <= i < |n.keys| ==> |n.keys[i]| == keyLen
    ensures HasSpace(n, keyLen) <==> !Full(n, CapsFor(keyLen))
  {
    UniformKeys(n.keys, keyLen);
    var slot := if n.Leaf? then LEAF_SLOT else INTERNAL_SLOT;
    QuotientBound(|n.keys|, slot + keyLen, PAGE_SIZE - HEADER_SIZE);
    assert (|n.keys| + 1) * (slot + keyLen) == (|n.keys| + 1) * slot + |n.keys| * keyLen + keyLen;
  }

  lemma QuotientBound(n: nat, d: nat, total: nat)
    requires d > 0
    ensures (n + 1) * d <= total <==> n < total / d
  {
    var q := total / d;
    assert q * d <= total < (q + 1) * d;
    if n < q {
      assert (n + 1) * d <= q * d;
    } else {
      assert (q + 1) * d <= (n + 1) * d;
    }
  }

  lemma CapsForTwo(keyLen: nat)
    requires 2 * (LEAF_SLOT + keyLen) <= PAGE_SIZE - HEADER_SIZE
    ensures CapsFor(keyLen).leaf >= 2 && CapsFor(keyLen).sep >= 2
  {
    QuotientBound(1, LEAF_SLOT + keyLen, PAGE_SIZE - HEADER_SIZE);
    QuotientBound(1, INTERNAL_SLOT + keyLen, PAGE_SIZE - HEADER_SIZE);
  }

  /** Int and Float keys take nine bytes (src/document/key.rs). */
  lemma NumericCaps()
    ensures CapsFor(9) == Caps(177, 194, 9)
  {
  }

  datatype Step = Found(doc: DocId) | NotFound | Done | GoTo(page: PageId)

  function SearchStep(n: Node, key: Key): Step
    requires Fits(n)
  {
    if n.Leaf? then
      var i := LowerBound(n.keys, key);
      if i < |n.keys| && n.keys[i] == key then Found(n.docs[i]) else NotFound
    else GoTo(n.children[UpperBound(n.keys, key)])
  }

  lemma SearchLeaf(t: T, p: PageId, key: Key)
    requires Inv(t) && p in t.shape && p in t.nodes && t.nodes[p].Leaf? && Fits(t.nodes[p])
    ensures SearchStep(t.nodes[p], key) ==
            if key in t.contents && Covers(t.shape[p], key) then Found(t.contents[key]) else NotFound
  {
    hide Rank, LowerBound, Disjoint;
    var n, i := t.nodes[p], LowerBound(t.nodes[p].keys, key);
    assert NodeOk(t, p);
    if key in n.keys {
      var j :| 0 <= j < |n.keys| && n.keys[j] == key;
      assert i <= j;
      RankOrder(n.keys[i], key);
      assert i == j;
    }
  }

  lemma SearchFacts(t: T, p: PageId, key: Key)
    requires Inv(t) && p in t.shape
    ensures p in t.nodes && Fits(t.nodes[p])
    ensures var step := SearchStep(t.nodes[p], key);
      if t.nodes[p].Leaf? then
        step == if key in t.contents && Covers(t.shape[p], key) then Found(t.contents[key]) else NotFound
      else
        && step.GoTo? && step.page in t.shape && t.shape[step.page].h < t.shape[p].h
        && t.shape[p].lo <= t.shape[step.page].lo && t.shape[step.page].hi <= t.shape[p].hi
        && (Covers(t.shape[p], key) ==> Covers(t.shape[step.page], key))
  {
    hide Rank, LowerBound, UpperBound, Sorted, Holds, Disjoint;
    InNodes(t, p);
    var n := t.nodes[p];
    if n.Leaf? {
      SearchLeaf(t, p, key);
    } else {
      Descend(t, p, UpperBound(n.keys, key));
      if Covers(t.shape[p], key) { DescendByKey(t, p, key); }
    }
  }

  function InsertStep(n: Node, key: Key, doc: DocId): (Node, Step)
    requires Fits(n)
  {
    if n.Leaf? then
      var i := SlotBound(n.keys, n.docs, key, doc);
      (Leaf(InsertAt(n.keys, i, key), InsertAt(n.docs, i, doc), n.next), Done)
    else (n, GoTo(n.children[UpperBound(n.keys, key)]))
  }

  lemma InsertLeaf(t: T, p: PageId, key: Key, doc: DocId)
    requires Inv(t) && p in t.shape && p in t.nodes && t.nodes[p].Leaf? && Fits(t.nodes[p]) && !Full(t.nodes[p], t.caps)
    requires key !in t.contents && Covers(t.shape[p], key) && |key| == t.caps.keyLen
    ensures Inv(WithLeaf(t, p, InsertStep(t.nodes[p], key, doc).0, t.contents[key := doc]))
  {
    hide Rank, LowerBound, UpperBound, Disjoint, Sorted, Holds, SlotBound;
    var n := t.nodes[p];
    assert NodeOk(t, p);
    assert key !in n.keys by { AbsentKey(t, p, key); }
    SlotBoundAbsent(n.keys, n.docs, key, doc);
    LeafInsert(t.contents, t.caps, p == t.root || t.hole == Some(p), n, t.shape[p], LowerBound(n.keys, key), key, doc);
    LeafChange(t, p, InsertStep(n, key, doc).0, t.contents[key := doc]);
  }

  lemma AbsentKey(t: T, p: PageId, key: Key)
    requires p in t.shape && p in t.nodes && t.nodes[p].Leaf? && NodeOk(t, p) && key !in t.contents
    ensures key !in t.nodes[p].keys
  {
  }

  class BTree {
    var root: PageId
    const pool: P.BufferPool<Node>
    const caps: Caps
    /** The tree's own root page, where every page sits, and the map the tree represents. */
    ghost var top: PageId
    ghost var shape: Shape
    ghost var contents: Contents

    ghost function Value(): T
      reads this, pool, pool.disk
    {
      T(top, pool.View(), shape, contents, caps, None)
    }

    /** The tree is in order. The handle may have been opened at any of its pages, as a stale root is. */
    ghost predicate Valid()
      reads this, pool, pool.disk
    {
      pool.Valid() && Inv(Value()) && root in shape && caps == CapsFor(caps.keyLen)
    }

    /** An empty tree for keys of one length: a single empty leaf. */
    constructor New(pool: P.BufferPool<Node>, keyLen: nat)
      requires pool.Valid() && 2 * (LEAF_SLOT + keyLen) <= PAGE_SIZE - HEADER_SIZE
      modifies pool, pool.disk
      ensures Valid() && this.pool == pool && caps == CapsFor(keyLen)
      ensures root == top && root !in old(pool.View()) && shape.Keys == {root} && contents == map[]
      ensures pool.View() == old(pool.View())[root := EMPTY]
    {
      hide P.Flat, P.Inv, P.Packed, P.LastAccess;
      this.pool := pool;
      this.caps := CapsFor(keyLen);
      shape := map[];
      contents := map[];
      new;
      var id, _ := pool.NewPage((_: Node) => (EMPTY, ()));
      root := id;
      top := id;
      shape := map[id := Range(0, 0.0, 1.0)];
      CapsForTwo(keyLen);
    }

    /** A handle at any page of a tree; the caller says which tree it takes the page for. */
    constructor Open(root: PageId, pool: P.BufferPool<Node>, keyLen: nat, ghost t: T)
      requires pool.Valid() && Inv(t) && t.nodes == pool.View() && root in t.shape && t.caps == CapsFor(keyLen) && t.hole.None?
      ensures Valid() && this.root == root && this.pool == pool && caps == t.caps && Value() == t
    {
      hide P.Flat, P.Inv, P.Packed, P.LastAccess, Inv;
      this.root := root;
      this.pool := pool;
      this.caps := CapsFor(keyLen);
      this.top := t.root;
      this.shape := t.shape;
      this.contents := t.contents;
    }

    method Search(key: Key) returns (r: Option<DocId>)
      requires Valid()
      modifies pool, pool.disk
      ensures Valid() && Value() == old(Value())
      ensures r == if key in contents && Covers(shape[root], key) then Some(contents[key]) else None
    {
      hide Inv, Rank, UpperBound, LowerBound, P.Flat, P.Inv, P.Packed;
      var curr := root;
      while true
        invariant pool.Valid() && Value() == old(Value()) && curr in shape
        invariant shape[root].lo <= shape[curr].lo && shape[curr].hi <= shape[root].hi
        invariant Covers(shape[root], key) ==> Covers(shape[curr], key)
        decreases shape[curr].h
      {
        SearchFacts(Value(), curr, key);
        var step := pool.WithPageMut(curr, (n: Node) requires Fits(n) => (n, SearchStep(n, key)));
        assert Value() == old(Value());
        match step {
          case GoTo(next) =>
            curr := next;
          case Found(doc) => return Some(doc);
          case _ => return None;
        }
      }
    }

    method IsFull(node: PageId) returns (full: bool)
      requires Valid() && node in shape
      modifies pool, pool.disk
      ensures Valid() && Value() == old(Value()) && full == Full(Value().nodes[node], caps)
    {
      hide Inv, Rank, P.Flat, P.Inv, P.Packed, P.LastAccess;
      InNodes(Value(), node);
      full := pool.WithPageMut(node, (n: Node) => (n, !HasSpace(n, caps.keyLen)));
      assert Value() == old(Value());
      PageKeys(Value(), node);
      SpaceIsCount(Value().nodes[node], caps.keyLen);
    }

    /** Steps 1 to 3 of a split: the upper half moves to a new page, the page keeps the lower half. */
    method CutNode(node: PageId) returns (sibling: PageId, separator: Key)
      requires Valid() && node in shape && Full(Value().nodes[node], caps)
      modifies pool, pool.disk
      ensures pool.Valid() && sibling !in old(pool.View())
      ensures var n := old(Value().nodes[node]); Fits(n) && |n.keys| > 0 && separator == Halves(n, sibling).1
      ensures var (lower, _, upper) := Halves(old(Value().nodes[node]), sibling);
              pool.View() == old(pool.View())[node := lower][sibling := upper]
    {
      hide Inv, NodeOk, Rank, P.Flat, P.Inv, P.Packed, P.LastAccess;
      ghost var nodes := pool.View();
      SplitFacts(Value(), node);
      var halves := pool.WithPageMut(node, (n: Node) requires Fits(n) && |n.keys| > 0 => (n, Halves(n, 0)));
      var (lower, sep, upper) := halves;
      separator := sep;
      assert pool.View() == nodes;
      var id, _ := pool.NewPage((_: Node) => (if upper.Leaf? then upper.(next := None) else upper, ()));
      sibling := id;
      var _ := pool.WithPageMut(node, (_: Node) => (if lower.Leaf? then lower.(next := Some(id)) else lower, ()));
      if upper.Leaf? {
        var _ := pool.WithPageMut(id, (n: Node) requires n.Leaf? => (n.(next := upper.next), ()));
      }
    }

    method SplitNode(node: PageId, parent: Option<PageId>, ghost i: nat) returns (ghost sib: PageId)
      requires Valid() && node in shape && root == top && Full(Value().nodes[node], caps)
      requires parent.None? ==> node == root
      requires parent.Some? ==> var t := Value();
        && parent.value in shape && t.nodes[parent.value].Internal? && !Full(t.nodes[parent.value], caps)
        && i < |t.nodes[parent.value].children| && t.nodes[parent.value].children[i] == node
      modifies this, pool, pool.disk
      ensures Valid() && root == top && sib !in old(pool.View())
      ensures var t := old(Value()); Fits(t.nodes[node]) && |t.nodes[node].keys| > 0
      ensures parent.None? ==> root !in old(pool.View()) && root != sib && Value() == SplitRootOf(old(Value()), sib, root)
      ensures parent.Some? ==> root == old(root) && Fits(old(Value()).nodes[parent.value]) &&
                               Value() == SplitChildOf(old(Value()), node, sib, parent.value)
    {
      hide Inv, NodeOk, Rank, LowerBound, Halves, P.Flat, P.Inv, P.Packed, P.LastAccess;
      ghost var t := Value();
      SplitFacts(t, node);
      var sibling, separator := CutNode(node);
      sib := sibling;
      shape := SplitShape(shape, node, sib, Rank(separator));
      // step 4: the parent, or a new root
      if parent.Some? {
        SplitFacts(t, parent.value);
        SplitChild(t, node, sib, parent.value, i);
        SplitFrame(t, node, sib, parent.value, i);
        var _ := pool.WithPageMut(parent.value, (n: Node) requires n.Internal? && Fits(n) => (Linked(n, separator, sibling), ()));
        assert Value() == SplitChildOf(t, node, sib, parent.value);
        return;
      }
      var newRoot, _ := pool.NewPage((_: Node) => (Internal([separator], [node, sibling]), ()));
      SplitRoot(t, sib, newRoot);
      shape := shape[newRoot := Range(t.shape[node].h + 1, 0.0, 1.0)];
      root := newRoot;
      top := newRoot;
      assert Value() == SplitRootOf(t, sib, root);
    }

    /** Splits the root if it is full. */
    method MakeRootRoom()
      requires Valid() && root == top
      modifies this, pool, pool.disk
      ensures Valid() && root == top && contents == old(contents) && root in Value().nodes && !Full(Value().nodes[root], caps)
      ensures root == old(root) <==> !Full(old(Value().nodes[root]), caps)
      ensures Elsewhere(old(Value()), Value()) && SameLevels(old(Value()), Value())
    {
      hide Elsewhere, SameLevels, Split, SplitShape, Inv, NodeOk, Rank, Halves, Full, P.Flat, P.Inv, P.Packed, P.LastAccess;
      ghost var t := Value();
      SplitFacts(t, root);
      ElsewhereSame(t);
      var full := IsFull(root);
      if full {
        ghost var sib := SplitNode(root, None, 0);
        RootSplitFacts(t, sib, root);
        InNodes(Value(), root);
      }
    }

    /** Adds one pair under a key the tree does not have yet. The root page changes exactly when it was full. */
    method Insert(key: Key, doc: DocId)
      requires Valid() && root == top && key !in contents && |key| == caps.keyLen
      modifies this, pool, pool.disk
      ensures Valid() && root == top && contents == old(contents)[key := doc]
      ensures root == old(root) <==> !Full(old(Value().nodes[root]), caps)
      ensures Elsewhere(old(Value()), Value()) && SameLevels(old(Value()), Value())
    {
      hide Elsewhere, SameLevels, NextFull, InsertStep, Split, SplitShape;
      hide Inv, NodeOk, Rank, LowerBound, UpperBound, Halves, Full, Linked, P.Flat, P.Inv, P.Packed, P.LastAccess;
      InNodes(Value(), root);
      MakeRootRoom();
      var curr := root;
      RootCovers(Value(), key);
      while true
        invariant Valid() && root == top && contents == old(contents) && Elsewhere(old(Value()), Value())
          && SameLevels(old(Value()), Value())
        invariant root == old(root) <==> !Full(old(Value().nodes[root]), caps)
        invariant curr in shape && curr in Value().nodes && Covers(shape[curr], key)
        invariant Full(Value().nodes[curr], caps) ==> Value().nodes[curr].Internal? && !NextFull(Value(), curr, key)
        decreases shape[curr].h, NextFull(Value(), curr, key)
      {
        ghost var t := Value();
        InsertFacts(t, curr, key, doc);
        var step := pool.WithPageMut(curr, (n: Node) requires Fits(n) => InsertStep(n, key, doc));
        if step == Done {
          contents := contents[key := doc];
          InsertLeaf(t, curr, key, doc);
          assert Value() == WithLeaf(t, curr, InsertStep(t.nodes[curr], key, doc).0, contents);
          LeafElsewhere(old(Value()), t, curr, InsertStep(t.nodes[curr], key, doc).0, contents);
          return;
        }
        assert Value() == t;
        var child := step.page;
        var full := IsFull(child);
        if full {
          ghost var i := UpperBound(t.nodes[curr].keys, key);
          SplitFacts(t, curr);
          SplitFacts(t, child);
          ghost var sib := SplitNode(child, Some(curr), i);
          ChildSplitFacts(t, child, sib, curr, i, key);
          SplitElsewhere(old(Value()), t, child, sib, curr);
        } else {
          curr := child;
        }
      }
    }

    /** The leaf where keys from `key` on begin: it starts no later than `key`. */
    method FindLeaf(key: Key) returns (curr: PageId)
      requires Valid() && shape[root].lo <= Rank(key)
      modifies pool, pool.disk
      ensures Valid() && Value() == old(Value())
      ensures curr in shape && curr in Value().nodes && Value().nodes[curr].Leaf? && shape[curr].lo <= Rank(key)
    {
      hide Inv, NodeOk, Rank, LowerBound, P.Flat, P.Inv, P.Packed, P.LastAccess;
      curr := root;
      while true
        invariant Valid() && Value() == old(Value()) && curr in shape && shape[curr].lo <= Rank(key)
        decreases shape[curr].h
      {
        LowerBoundFacts(Value(), curr, key);
        var next := pool.WithPageMut(curr, (n: Node) requires Fits(n) =>
          (n, if n.Leaf? then None else Some(n.children[LowerBound(n.keys, key)])));
        assert Value() == old(Value());
        if next.None? {
          return;
        }
        curr := next.value;
      }
    }

    /** The documents whose keys lie between two bounds, in key order. A handle opened at a page that starts no later
        than `low` answers for the whole tree, because the scan follows the leaf chain. */
    method RangeScan(low: Key, high: Key) returns (result: seq<DocId>, ghost keys: seq<Key>)
      requires Valid() && shape[root].lo <= Rank(low)
      modifies pool, pool.disk
      ensures Valid() && Value() == old(Value())
      ensures Sorted(keys) && forall k :: k in keys <==> k in contents && Le(low, k) && Le(k, high)
      ensures |result| == |keys| && forall i :: 0 <= i < |keys| ==> keys[i] in contents && result[i] == contents[keys[i]]
    {
      hide Inv, NodeOk, Rank, LowerBound, Sorted, Scanned, P.Flat, P.Inv, P.Packed, P.LastAccess;
      var curr := FindLeaf(low);
      result, keys := [], [];
      ScanStart(contents, low, high, shape[curr].lo);
      while true
        invariant Valid() && Value() == old(Value())
        invariant curr in shape && curr in Value().nodes && Value().nodes[curr].Leaf?
        invariant Scanned(contents, low, high, keys, result, shape[curr].lo)
        decreases Ahead(shape, shape[curr].lo)
      {
        LeafFacts(Value(), curr);
        var page := pool.WithPageMut(curr, (n: Node) => (n, n));
        assert Value() == old(Value());
        var first := LowerBound(page.keys, low);
        var left, done := first, false;
        while left < |page.keys|
          modifies {}
          invariant first <= left <= |page.keys| && !done
          invariant forall i :: first <= i < left ==> Rank(page.keys[i]) <= Rank(high)
        {
          RankOrder(high, page.keys[left]);
          if Lt(high, page.keys[left]) {
            done := true;
            break;
          }
          left := left + 1;
        }
        ScanLeaf(Value(), curr, low, high, keys, result, first, left, done);
        result, keys := result + page.docs[first..left], keys + page.keys[first..left];
        if done || page.next.None? {
          ScanEnd(contents, low, high, keys, result);
          return;
        }
        curr := page.next.value;
      }
    }

    /** A leaf's slots; None stands for the panic on a page that is not a leaf. */
    method LeafPage(node: PageId) returns (page: Option<Node>)
      requires pool.Valid() && node in pool.View()
      modifies pool, pool.disk
      ensures pool.Valid() && pool.View() == old(pool.View())
      ensures page == if pool.View()[node].Leaf? then Some(pool.View()[node]) else None
    {
      hide P.Flat, P.Inv, P.Packed, P.LastAccess;
      page := pool.WithPageMut(node, (n: Node) => (n, if n.Leaf? then Some(n) else None));
      assert pool.View() == old(pool.View());
    }

    method PutPage(node: PageId, page: Node)
      requires pool.Valid() && node in pool.View()
      modifies pool, pool.disk
      ensures pool.Valid() && pool.View() == old(pool.View())[node := page]
    {
      hide P.Flat, P.Inv, P.Packed, P.LastAccess;
      var _ := pool.WithPageMut(node, (_: Node) => (page, ()));
    }

    ghost predicate Family(parent: PageId, j: nat, a: PageId, b: PageId)
      reads this, pool, pool.disk
    {
      var v := pool.View();
      && pool.Valid() && parent in v && v[parent].Internal? && Fits(v[parent]) && j < |v[parent].keys|
      && a in v && b in v && Fits(v[a]) && Fits(v[b]) && v[a].Leaf? == v[b].Leaf?
    }

    /** Moves the last slot of the left leaf to the front of the right one, unless it is the only slot. */
    method TryRedistributeFromLeft(left: PageId, node: PageId, parent: PageId, separator: nat) returns (ok: bool, moved: bool)
      requires Family(parent, separator, left, node)
      modifies pool, pool.disk
      ensures pool.Valid() && ok == old(pool.View()[left].Leaf?)
      ensures ok ==> moved == (|old(pool.View()[left].keys)| > 1)
      ensures !moved ==> pool.View() == old(pool.View())
      ensures ok && moved ==>
        pool.View() == DealtNodes(old(pool.View()), parent, separator, left, node, |old(pool.View()[left].keys)| - 1)
    {
      hide P.Flat, P.Inv, P.Packed, P.LastAccess, pool.Valid;
      var leftPage := LeafPage(left);
      if leftPage.None? {
        return false, false;
      }
      var l := leftPage.value;
      if |l.keys| <= 1 {
        return true, false;
      }
      var nodePage := LeafPage(node);
      var n, last := nodePage.value, |l.keys| - 1;
      var newNode := Leaf([l.keys[last]] + n.keys, [l.docs[last]] + n.docs, n.next);
      PutPage(left, Leaf(l.keys[..last], l.docs[..last], l.next));
      PutPage(node, newNode);
      DealtFromLeft(l, n);
      ReplaceParentSeparator(parent, separator, newNode.keys[0]);
      return true, true;
    }

    method TryRedistributeFromRight(node: PageId, right: PageId, parent: PageId, separator: nat) returns (ok: bool, moved: bool)
      requires Family(parent, separator, node, right)
      modifies pool, pool.disk
      ensures pool.Valid() && ok == old(pool.View()[right].Leaf?)
      ensures ok ==> moved == (|old(pool.View()[right].keys)| > 1)
      ensures !moved ==> pool.View() == old(pool.View())
      ensures ok && moved ==>
        pool.View() == DealtNodes(old(pool.View()), parent, separator, node, right, |old(pool.View()[node].keys)| + 1)
    {
      hide P.Flat, P.Inv, P.Packed, P.LastAccess, pool.Valid;
      var rightPage := LeafPage(right);
      if rightPage.None? {
        return false, false;
      }
      var r := rightPage.value;
      if |r.keys| <= 1 {
        return true, false;
      }
      var nodePage := LeafPage(node);
      var n := nodePage.value;
      var newRight := Leaf(r.keys[1..], r.docs[1..], r.next);
      PutPage(node, Leaf(n.keys + [r.keys[0]], n.docs + [r.docs[0]], n.next));
      PutPage(right, newRight);
      DealtFromRight(n, r);
      ReplaceParentSeparator(parent, separator, newRight.keys[0]);
      return true, true;
    }

    method MergeNodes(left: PageId, right: PageId, parent: PageId, separator: nat) returns (ok: bool)
      requires Family(parent, separator, left, right)
      modifies pool, pool.disk
      ensures pool.Valid() && ok == old(pool.View()[left].Leaf?)
      ensures ok ==> pool.View() == MergedNodes(old(pool.View()), parent, separator, left, right)
    {
      hide P.Flat, P.Inv, P.Packed, P.LastAccess, pool.Valid;
      var l := LeafPage(left);
      if l.None? {
        return false;
      }
      var r := LeafPage(right);
      PutPage(left, Joined(l.value, r.value));
      var page := pool.WithPageMut(parent, (n: Node) requires n.Internal? && Fits(n) && separator < |n.keys| =>
        (Unlinked(n, separator), ()));
      ok := true;
    }

    method ReplaceParentSeparator(parent: PageId, separator: nat, key: Key)
      requires pool.Valid() && parent in pool.View() && pool.View()[parent].Internal? && separator < |pool.View()[parent].keys|
      modifies pool, pool.disk
      ensures pool.Valid() && pool.View() == old(pool.View())[parent := Reseparated(old(pool.View()[parent]), separator, key)]
    {
      hide P.Flat, P.Inv, P.Packed, P.LastAccess;
      var _ := pool.WithPageMut(parent, (n: Node) requires n.Internal? && separator < |n.keys| =>
        (Reseparated(n, separator, key), ()));
    }

    /** Repairs an empty page. Reading a sibling that is not a leaf is a panic, reported as not ok. */
    method FixUnderflow(node: PageId, parent: PageId, ghost i: nat) returns (ok: bool)
      requires pool.Valid() && Familiar(pool.View(), node, parent, i)
      modifies pool, pool.disk
      ensures pool.Valid()
      ensures var n := old(pool.View()[parent]);
        if |n.keys| == 0 then ok && pool.View() == old(pool.View())
        else if old(pool.View()[node].Internal?) then !ok
        else ok && LeafFamily(old(pool.View()), parent) && pool.View() == RepairNodes(old(pool.View()), parent, i)
    {
      hide P.Flat, P.Inv, P.Packed, P.LastAccess, pool.Valid, DealtNodes, MergedNodes;
      var n := pool.WithPageMut(parent, (n: Node) => (n, n));
      assert pool.View() == old(pool.View());
      var index := FindChildIndex(n, node);
      var left := if index > 0 then Some(n.children[index - 1]) else None;
      var right := if index < |n.keys| then Some(n.children[index + 1]) else None;
      var moved;
      if left.Some? {
        ok, moved := TryRedistributeFromLeft(left.value, node, parent, index - 1);
        if !ok || moved {
          return;
        }
      }
      if right.Some? {
        ok, moved := TryRedistributeFromRight(node, right.value, parent, index);
        if !ok || moved {
          return;
        }
      }
      if left.Some? {
        ok := MergeNodes(left.value, node, parent, index - 1);
      } else if right.Some? {
        ok := MergeNodes(node, right.value, parent, index);
      } else {
        ok := true;
      }
    }

    /** Descends to the key's leaf, remembering the way, and takes the pair out if it is there. */
    method RemoveFromLeaf(key: Key, doc: DocId) returns (found: bool, curr: PageId, path: seq<PageId>)
      requires Valid() && root == top
      modifies pool, pool.disk
      ensures pool.Valid() && var t := old(Value());
        && PathOk(t, path, curr) && curr in t.shape && curr in t.nodes && t.nodes[curr].Leaf? && Fits(t.nodes[curr])
        && Covers(t.shape[curr], key) && found == (key in t.contents && t.contents[key] == doc)
        && pool.View() == if found then t.nodes[curr := DeleteStep(t.nodes[curr], key, doc).0] else t.nodes
    {
      hide Inv, NodeOk, Rank, UpperBound, DeleteStep, P.Flat, P.Inv, P.Packed, P.LastAccess, pool.Valid;
      ghost var t := Value();
      curr := root;
      path := [];
      RootCovers(t, key);
      while true
        invariant pool.Valid() && Value() == t && PathOk(t, path, curr) && curr in shape && Covers(shape[curr], key)
        decreases shape[curr].h
      {
        DeleteFacts(t, curr, key, doc);
        var step := pool.WithPageMut(curr, (n: Node) requires Fits(n) => DeleteStep(n, key, doc));
        if step.Done? {
          return true, curr, path;
        }
        assert pool.View() == t.nodes;
        if step == NotFound {
          return false, curr, path;
        }
        PathStep(t, path, curr, step.page);
        path := path + [curr];
        curr := step.page;
      }
    }

    /** Walks back up the path as long as pages are empty. Tree t is the one in the pool, where `leaf` may be empty. */
    method RepairUpwards(leaf: PageId, path0: seq<PageId>, ghost t: T) returns (ok: bool, ghost t': T)
      requires pool.Valid() && Inv(t) && t.nodes == pool.View() && t.root == root && t.hole == Some(leaf)
      requires PathOk(t, path0, leaf) && leaf in t.shape && leaf in t.nodes && t.nodes[leaf].Leaf?
      modifies pool, pool.disk
      ensures pool.Valid() && ok == !(|t.nodes[leaf].keys| == 0 && Stuck(t, path0, leaf))
      ensures ok ==> Inv(t') && t'.nodes == pool.View() && t'.contents == t.contents && t'.hole.None? && t'.caps == t.caps
      ensures ok ==> Elsewhere(t, t') && root in t'.nodes && Succeeds(t'.nodes[root], root, t'.root) && (Tall(t) ==> Tall(t'))
    {
      hide Inv, NodeOk, Elsewhere, Tall, RepairNodes, LeafFamily, Stuck, Doomed, PathOk, P.Flat, P.Inv, P.Packed, P.LastAccess,
           pool.Valid;
      var curr, path := leaf, path0;
      ghost var q, repaired := leaf, false;
      ok := true;
      t' := t.(hole := None);
      while |path| > 0
        invariant pool.Valid() && ok && PathOk(t, path, curr)
        invariant !repaired ==> curr == leaf && path == path0 && pool.View() == t.nodes && t' == t.(hole := None)
        invariant repaired ==> Outcome(t, t', path0, leaf, q) && (if Stuck(t, path0, leaf)
          then Doomed(t, pool.View(), q, curr) else curr == q && pool.View() == t'.nodes && (|path| > 0 ==> |t'.nodes[q].keys| > 0))
        decreases |path|
      {
        var parent := path[|path| - 1];
        ghost var v := pool.View();
        PathPop(t, path, curr);
        if repaired && Stuck(t, path0, leaf) { DoomedCount(t, v, q, curr); }
        if curr == root {
          break;
        }
        var count := pool.WithPageMut(curr, (n: Node) => (n, |n.keys|));
        assert pool.View() == v;
        if count > 0 {
          break;
        }
        path := path[..|path| - 1];
        ghost var k := 0;
        if repaired {
          k := DoomedUp(t, v, q, curr, parent);
        } else {
          EmptiedFacts(t, leaf, parent);
          k := FirstIndex(t.nodes[parent].children, leaf);
          t' := FirstRepair(t, path0, leaf);
        }
        ok := FixUnderflow(curr, parent, k);
        if !ok {
          return;
        }
        if !repaired {
          q, repaired := parent, true;
          if |path| > 0 { NotTop(t, path, parent); }
        }
        curr := parent;
      }
      if |path| == 0 {
        assert path == [];
        PathTop(t, curr);
      }
      if repaired {
        if Stuck(t, path0, leaf) { DoomedCount(t, pool.View(), q, curr); }
      } else {
        RootHasSeps(t);
        CloseHole(t, leaf);
        Untouched(t);
        if leaf == root { TopNotStuck(t, path0, leaf); }
      }
    }

    /** A root page without separators gives way to its only child. */
    method CollapseEmptyRoot()
      requires pool.Valid() && root in pool.View() && Fits(pool.View()[root])
      modifies this`root, pool, pool.disk
      ensures pool.Valid() && pool.View() == old(pool.View())
      ensures var n := pool.View()[old(root)];
        root == if n.Internal? && |n.keys| == 0 then n.children[0] else old(root)
    {
      hide P.Flat, P.Inv, P.Packed, P.LastAccess;
      var replacement := pool.WithPageMut(root, (n: Node) requires Fits(n) =>
        (n, if n.Internal? && |n.keys| == 0 then Some(n.children[0]) else None));
      assert pool.View() == old(pool.View());
      if replacement.Some? {
        root := replacement.value;
      }
    }

    /** Removes the pair if it is there, and nothing else. The one way to fail is a panic, which happens exactly when the
        pair is the last one of a leaf below a parent that is not the root and would be left without separators. */
    method Delete(key: Key, doc: DocId) returns (ok: bool, ghost leaf: PageId, ghost path: seq<PageId>)
      requires Valid() && root == top
      modifies this, pool, pool.disk
      ensures var t := old(Value());
        && PathOk(t, path, leaf) && leaf in t.shape && leaf in t.nodes && t.nodes[leaf].Leaf? && Covers(t.shape[leaf], key)
        && var found := key in t.contents && t.contents[key] == doc;
        && ok == !(found && |t.nodes[leaf].keys| == 1 && Stuck(t, path, leaf))
        && (ok ==> Valid() && root == top && Elsewhere(t, Value()) && contents == if found then t.contents - {key} else t.contents)
        && (ok && Tall(t) ==> Tall(Value()))
    {
      hide Tall, Inv, NodeOk, Rank, DeleteStep, PathOk, Stuck, Elsewhere, WithLeaf, P.Flat, P.Inv, P.Packed, P.LastAccess, pool.Valid;
      ghost var t := Value();
      var found, curr, way := RemoveFromLeaf(key, doc);
      leaf, path, ok := curr, way, true;
      if !found {
        Untouched(t) by { InNodes(t, top); }
        return;
      }
      ghost var t1 := RemovedFacts(t, path, leaf, key, doc);
      ghost var t2;
      ok, t2 := RepairUpwards(curr, way, t1);
      if !ok {
        return;
      }
      CollapseFacts(t, t1, t2);
      CollapseEmptyRoot();
      top, shape, contents := t2.root, t2.shape, t2.contents;
    }

    /** Gives every page reachable from the root back to the disk, each once, and leaves all other pages alone. */
    method Free() returns (ok: bool, ghost freed: seq<PageId>)
      requires Valid() && root == top
      modifies pool, pool.disk
      ensures ok && pool.Valid()
      ensures Distinct(freed) && pool.disk.freeList == old(pool.disk.freeList) + freed
      ensures forall p :: p in freed <==> p in Reachable(old(pool.View()), root, shape[root].h)
      ensures pool.View() == old(pool.View()) - shape.Keys
    {
      hide Inv, NodeOk, Rank, Below, AllBelow, Reachable, P.Flat, P.Inv, P.Packed, P.LastAccess, pool.Valid;
      ghost var t := Value();
      RootReachesAll(t);
      FreeStart(t);
      var stack := [root];
      ok, freed := true, [];
      while |stack| > 0
        invariant ok && pool.Valid() && Pending(t, stack, freed)
        invariant pool.View() == t.nodes - Elements(freed) && pool.disk.freeList == old(pool.disk.freeList) + freed
        decreases t.shape.Keys - Elements(freed)
      {
        var id := stack[|stack| - 1];
        assert stack == stack[..|stack| - 1] + [id];
        stack := stack[..|stack| - 1];
        FreeStep(t, stack, id, freed);
        var children := pool.WithPageMut(id, (n: Node) => (n, if n.Leaf? then [] else n.children));
        assert pool.View() == t.nodes - Elements(freed);
        stack := stack + children;
        PageInFile(id);
        ok := pool.DeletePage(id);
        assert Elements(freed + [id]) == Elements(freed) + {id};
        freed := freed + [id];
      }
      FreeEnd(t, freed);
    }

    lemma PageInFile(id: PageId)
      requires id in pool.View()
      ensures id < |pool.disk.file|
    {
      P.InFlat(pool.Snapshot(), id);
    }
  }

  ghost function Elements(s: seq<PageId>): set<PageId> {
    set p | p in s
  }

  ghost predicate Apart(shape: Shape, ps: seq<PageId>) {
    && (forall i :: 0 <= i < |ps| ==> ps[i] in shape)
    && (|ps| > 0 ==> Apart(shape, ps[..|ps| - 1]) && Below(shape, ps[|ps| - 1]) !! AllBelow(shape, ps[..|ps| - 1]))
  }

  /** The pages below the stack are exactly those not yet freed, each below one stack entry only. */
  ghost predicate Pending(t: T, stack: seq<PageId>, freed: seq<PageId>) {
    && Apart(t.shape, stack) && Distinct(freed)
    && AllBelow(t.shape, stack) !! Elements(freed) && AllBelow(t.shape, stack) + Elements(freed) == t.shape.Keys
  }

  lemma {:induction false} PushAll(t: T, rest: seq<PageId>, id: PageId, m: nat)
    requires Inv(t) && Apart(t.shape, rest) && id in t.shape && id in t.nodes && t.nodes[id].Internal? && m <= |t.nodes[id].children|
    requires forall i :: 0 <= i < |t.nodes[id].children| ==> t.nodes[id].children[i] in t.shape
    requires AllBelow(t.shape, t.nodes[id].children) !! AllBelow(t.shape, rest)
    ensures Apart(t.shape, rest + t.nodes[id].children[..m])
    ensures AllBelow(t.shape, rest + t.nodes[id].children[..m]) == AllBelow(t.shape, rest) + AllBelow(t.shape, t.nodes[id].children[..m])
  {
    hide Inv, NodeOk, Rank, Below, Apart, AllBelow;
    var cs := t.nodes[id].children;
    ApartIn(t.shape, rest);
    if m == 0 {
      assert rest + cs[..0] == rest && cs[..0] == [];
      NoneBelow(t.shape);
    } else {
      PushAll(t, rest, id, m - 1);
      EarlierApart(t, rest, id, m - 1);
      ApartPush(t.shape, rest + cs[..m - 1], cs[m - 1]);
      AllBelowPush(t.shape, cs[..m - 1], cs[m - 1]);
      assert rest + cs[..m] == rest + cs[..m - 1] + [cs[m - 1]] && cs[..m] == cs[..m - 1] + [cs[m - 1]];
    }
  }

  lemma NoneBelow(shape: Shape)
    ensures AllBelow(shape, []) == {}
  {
  }

  lemma ApartIn(shape: Shape, ps: seq<PageId>)
    requires Apart(shape, ps)
    ensures forall i :: 0 <= i < |ps| ==> ps[i] in shape
  {
  }

  lemma AllBelowPush(shape: Shape, ps: seq<PageId>, p: PageId)
    requires p in shape && forall i :: 0 <= i < |ps| ==> ps[i] in shape
    ensures AllBelow(shape, ps + [p]) == AllBelow(shape, ps) + Below(shape, p)
  {
    hide Below;
    assert (ps + [p])[..|ps|] == ps;
  }

  lemma ApartPush(shape: Shape, ps: seq<PageId>, p: PageId)
    requires Apart(shape, ps) && p in shape && Below(shape, p) !! AllBelow(shape, ps)
    ensures Apart(shape, ps + [p]) && AllBelow(shape, ps + [p]) == AllBelow(shape, ps) + Below(shape, p)
  {
    hide Below, AllBelow;
    assert (ps + [p])[..|ps|] == ps;
    AllBelowPush(shape, ps, p);
  }

  lemma EarlierApart(t: T, rest: seq<PageId>, id: PageId, m: nat)
    requires Inv(t) && id in t.shape && id in t.nodes && t.nodes[id].Internal? && m < |t.nodes[id].children|
    requires forall i :: 0 <= i < |rest| ==> rest[i] in t.shape
    requires forall i :: 0 <= i < |t.nodes[id].children| ==> t.nodes[id].children[i] in t.shape
    requires AllBelow(t.shape, t.nodes[id].children) !! AllBelow(t.shape, rest)
    ensures Below(t.shape, t.nodes[id].children[m]) !! (AllBelow(t.shape, rest) + AllBelow(t.shape, t.nodes[id].children[..m]))
  {
    hide Inv, NodeOk, Rank, Below, AllBelow;
    var cs := t.nodes[id].children;
    forall q | q in Below(t.shape, cs[m])
      ensures q !in AllBelow(t.shape, rest) && q !in AllBelow(t.shape, cs[..m])
    {
      InAllBelow(t.shape, cs, q);
      InAllBelow(t.shape, cs[..m], q);
      if q in AllBelow(t.shape, cs[..m]) {
        var i :| 0 <= i < m && q in Below(t.shape, cs[..m][i]);
        ChildrenApart(t, id, i, m);
      }
    }
  }

  lemma FreeStart(t: T)
    requires Inv(t)
    ensures Pending(t, [t.root], [])
  {
    hide NodeOk, Rank, Disjoint;
    var stack := [t.root];
    assert stack[..|stack| - 1] == [];
    assert AllBelow(t.shape, stack[..|stack| - 1]) == {} && Elements([]) == {};
    assert Below(t.shape, t.root) == t.shape.Keys;
    assert AllBelow(t.shape, stack) == Below(t.shape, t.root);
    assert Apart(t.shape, stack[..|stack| - 1]);
    assert Apart(t.shape, stack);
  }

  lemma FreeStep(t: T, rest: seq<PageId>, id: PageId, freed: seq<PageId>)
    requires Inv(t) && Pending(t, rest + [id], freed)
    ensures id in t.shape && id in t.nodes && id !in freed
    ensures Pending(t, rest + (if t.nodes[id].Leaf? then [] else t.nodes[id].children), freed + [id])
  {
    hide Inv, NodeOk, Rank, Below;
    assert (rest + [id])[..|rest|] == rest;
    SelfBelow(t, id);
    HeightKind(t, id);
    assert Elements(freed + [id]) == Elements(freed) + {id};
    if t.nodes[id].Internal? {
      ChildrenPlaced(t, id);
      BelowIsChildren(t, id);
      PushAll(t, rest, id, |t.nodes[id].children|);
      assert t.nodes[id].children[..|t.nodes[id].children|] == t.nodes[id].children;
    } else {
      assert rest + [] == rest;
      ReachableIsBelow(t, id);
    }
  }

  lemma FreeEnd(t: T, freed: seq<PageId>)
    requires Pending(t, [], freed)
    ensures Elements(freed) == t.shape.Keys && forall p :: p in freed <==> p in t.shape
  {
    assert forall p :: p in freed <==> p in Elements(freed);
  }

  lemma RemovedFacts(t: T, path: seq<PageId>, leaf: PageId, key: Key, doc: DocId) returns (t1: T)
    requires Inv(t) && t.hole.None? && PathOk(t, path, leaf) && leaf in t.shape && leaf in t.nodes && t.nodes[leaf].Leaf?
    requires Fits(t.nodes[leaf]) && Covers(t.shape[leaf], key) && key in t.contents && t.contents[key] == doc
    ensures t1 == WithLeaf(t, leaf, DeleteStep(t.nodes[leaf], key, doc).0, t.contents - {key}).(hole := Some(leaf))
    ensures Inv(t1) && PathOk(t1, path, leaf) && t1.nodes[leaf].Leaf? && |t1.nodes[leaf].keys| == |t.nodes[leaf].keys| - 1
    ensures t1.nodes == t.nodes[leaf := DeleteStep(t.nodes[leaf], key, doc).0] && t1.contents == t.contents - {key}
    ensures t1.root == t.root && t1.shape == t.shape && t1.caps == t.caps && t1.hole == Some(leaf)
    ensures (Stuck(t1, path, leaf) <==> Stuck(t, path, leaf)) && (Tall(t) ==> Tall(t1))
  {
    hide Rank, NodeOk, SlotBound, PathOk, Stuck, Holds, SlotsOk;
    var n := t.nodes[leaf];
    DeleteFacts(t, leaf, key, doc);
    assert Holds(t.contents, n, t.shape[leaf]) && SlotsOk(t.caps, n, t.shape[leaf]) by { LeafParts(t, leaf); }
    PairBound(t.contents, t.caps, n, t.shape[leaf], key, doc);
    var i := SlotBound(n.keys, n.docs, key, doc);
    RemoveSlot(t, leaf, i);
    t1 := WithLeaf(t, leaf, DeleteStep(n, key, doc).0, t.contents - {key}).(hole := Some(leaf));
    SamePath(t, t1, path, leaf);
  }

  /** Changing a leaf changes neither the way to it nor whether its parent is stuck. */
  lemma SamePath(t: T, t1: T, path: seq<PageId>, leaf: PageId)
    requires Inv(t) && PathOk(t, path, leaf) && t1.root == t.root && t1.shape == t.shape && leaf in t.nodes && t.nodes[leaf].Leaf?
    requires t1.nodes.Keys == t.nodes.Keys && t1.nodes == t.nodes[leaf := t1.nodes[leaf]] && t1.nodes[leaf].Leaf?
    ensures PathOk(t1, path, leaf) && (Stuck(t1, path, leaf) <==> Stuck(t, path, leaf))
  {
    hide Rank, NodeOk, Inv;
    if |path| > 0 {
      PathPop(t, path, leaf);
      var q := path[|path| - 1];
      SiblingOther(t, q, leaf);
    }
  }

  lemma LeafParts(t: T, p: PageId)
    requires Inv(t) && p in t.shape && p in t.nodes && t.nodes[p].Leaf? && Fits(t.nodes[p])
    ensures SlotsOk(t.caps, t.nodes[p], t.shape[p]) && Holds(t.contents, t.nodes[p], t.shape[p])
  {
    InNodes(t, p);
  }

  /** A leaf is not its own sibling. */
  lemma SiblingOther(t: T, q: PageId, leaf: PageId)
    requires Inv(t) && q in t.shape && q in t.nodes && t.nodes[q].Internal? && leaf in t.nodes[q].children
    ensures forall j :: 0 <= j < |t.nodes[q].children| && j != FirstIndex(t.nodes[q].children, leaf) ==> t.nodes[q].children[j] != leaf
  {
    hide Rank, NodeOk;
    var i := FirstIndex(t.nodes[q].children, leaf);
    forall j | 0 <= j < |t.nodes[q].children| && j != i
      ensures t.nodes[q].children[j] != leaf
    {
      if t.nodes[q].children[j] == leaf { OneParent(t, q, i, q, j); }
    }
  }

  lemma CollapseFacts(t: T, t1: T, t2: T)
    requires Inv(t2) && t1.root == t.root && t1.shape == t.shape && t.root in t2.nodes && Succeeds(t2.nodes[t.root], t.root, t2.root)
    requires Elsewhere(t1, t2) && (forall x :: x in t.nodes && x !in t.shape ==> x in t1.nodes && t1.nodes[x] == t.nodes[x])
    ensures Fits(t2.nodes[t.root]) && t2.root in t2.shape && Elsewhere(t, t2)
    ensures var n := t2.nodes[t.root]; t2.root == if n.Internal? && |n.keys| == 0 then n.children[0] else t.root
  {
    hide NodeOk, Rank;
    RootHasSeps(t2);
    SplitFacts(t2, t2.root);
  }

  /** The root page stays, or it has no separators left and its only child takes over. */
  ghost predicate Succeeds(n: Node, root: PageId, root': PageId) {
    root' == root || (n.Internal? && n.keys == [] && n.children == [root'])
  }

  function DeleteStep(n: Node, key: Key, doc: DocId): (Node, Step)
    requires Fits(n)
  {
    if n.Leaf? then
      var i := SlotBound(n.keys, n.docs, key, doc);
      if i < |n.keys| && n.keys[i] == key && n.docs[i] == doc
      then (Leaf(RemoveAt(n.keys, i), RemoveAt(n.docs, i), n.next), Done)
      else (n, NotFound)
    else (n, GoTo(n.children[UpperBound(n.keys, key)]))
  }

  /** The pages from the root down to, and not including, page curr, each a child of the one before. */
  ghost predicate PathOk(t: T, path: seq<PageId>, curr: PageId) {
    && (path + [curr])[0] == t.root
    && forall k :: 0 <= k < |path| ==>
         path[k] in t.shape && path[k] in t.nodes && t.nodes[path[k]].Internal? &&
         (path + [curr])[k + 1] in t.nodes[path[k]].children
  }

  lemma NotTop(t: T, path: seq<PageId>, curr: PageId)
    requires Inv(t) && PathOk(t, path, curr) && |path| > 0
    ensures curr != t.root
  {
    PathPop(t, path, curr);
    var p := path[|path| - 1];
    Descend(t, p, FirstIndex(t.nodes[p].children, curr));
  }

  lemma TopNotStuck(t: T, path: seq<PageId>, leaf: PageId)
    requires Inv(t) && PathOk(t, path, leaf) && leaf == t.root
    ensures !Stuck(t, path, leaf)
  {
    if |path| > 0 { NotTop(t, path, leaf); }
  }

  lemma PathTop(t: T, curr: PageId)
    requires PathOk(t, [], curr)
    ensures curr == t.root
  {
  }

  ghost function FirstIndex(s: seq<PageId>, x: PageId): (i: nat)
    requires x in s
    ensures i < |s| && s[i] == x && forall j :: 0 <= j < i ==> s[j] != x
  {
    if s[0] == x then 0 else 1 + FirstIndex(s[1..], x)
  }

  /** After losing its empty child i, page q has no separator left: it had none, or one and a sibling with nothing to spare. */
  ghost predicate Blocked(nodes: map<PageId, Node>, q: PageId, i: nat)
    requires q in nodes && nodes[q].Internal?
  {
    var n := nodes[q];
    || |n.keys| == 0
    || (|n.keys| == 1 && |n.children| == 2 && i <= 1 && n.children[1 - i] in nodes && |nodes[n.children[1 - i]].keys| <= 1)
  }

  /** The leaf's parent is not the root and would be left without separators: the repair code cannot go on from there. */
  ghost predicate Stuck(t: T, path: seq<PageId>, leaf: PageId) {
    |path| > 0 &&
    var q := path[|path| - 1];
    && q != t.root && q in t.nodes && t.nodes[q].Internal? && leaf in t.nodes[q].children
    && Blocked(t.nodes, q, FirstIndex(t.nodes[q].children, leaf))
  }

  /** Page q lost its last separator, and page curr, at q's level or above it, has none either. */
  ghost predicate Doomed(t: T, v: map<PageId, Node>, q: PageId, curr: PageId) {
    && q in t.shape && q in v && v[q].Internal? && Fits(v[q]) && |v[q].keys| == 0
    && (forall x :: x in t.shape && x in t.nodes && t.shape[x].h >= 1 && x != q ==> x in v && v[x] == t.nodes[x])
    && curr in t.shape && t.shape[curr].h >= t.shape[q].h == 1 && curr != t.root && curr in v && |v[curr].keys| == 0
  }

  lemma DoomedCount(t: T, v: map<PageId, Node>, q: PageId, curr: PageId)
    requires Doomed(t, v, q, curr)
    ensures curr in v && |v[curr].keys| == 0 && curr != t.root
  {
  }

  /** All children of page `parent` are well formed and of one kind; child i is `node` and no earlier one is. */
  ghost predicate Familiar(v: map<PageId, Node>, node: PageId, parent: PageId, i: nat) {
    && parent in v && v[parent].Internal? && Fits(v[parent]) && node in v
    && i < |v[parent].children| && v[parent].children[i] == node && (forall j :: 0 <= j < i ==> v[parent].children[j] != node)
    && (forall j :: 0 <= j < |v[parent].children| ==>
          var c := v[parent].children[j]; c in v && Fits(v[c]) && v[c].Leaf? == v[node].Leaf?)
  }

  lemma DoomedUp(t: T, v: map<PageId, Node>, q: PageId, curr: PageId, parent: PageId) returns (k: nat)
    requires Inv(t) && Doomed(t, v, q, curr) && parent in t.shape && parent in t.nodes && t.nodes[parent].Internal?
    requires curr in t.nodes[parent].children
    ensures Familiar(v, curr, parent, k) && v[curr].Internal?
    ensures |v[parent].keys| == 0 ==> Doomed(t, v, q, parent)
  {
    hide Rank, NodeOk;
    k := FirstIndex(t.nodes[parent].children, curr);
    Descend(t, parent, k);
    SplitFacts(t, parent);
    assert v[parent] == t.nodes[parent];
    forall j | 0 <= j < |t.nodes[parent].children|
      ensures var c := t.nodes[parent].children[j]; c in v && Fits(v[c]) && v[c].Internal?
    {
      var c := t.nodes[parent].children[j];
      Descend(t, parent, j);
      SplitFacts(t, c);
      HeightKind(t, c);
    }
    RootHasSeps(t);
  }

  lemma EmptiedFacts(t: T, leaf: PageId, q: PageId)
    requires Inv(t) && t.hole == Some(leaf) && leaf in t.nodes && |t.nodes[leaf].keys| == 0 && t.nodes[leaf].Leaf?
    requires q in t.shape && q in t.nodes && t.nodes[q].Internal? && leaf in t.nodes[q].children
    ensures Emptied(t, leaf, q, FirstIndex(t.nodes[q].children, leaf)) && t.shape[q].h == 1
    ensures Familiar(t.nodes, leaf, q, FirstIndex(t.nodes[q].children, leaf))
    ensures forall j :: 0 <= j < |t.nodes[q].children| ==> t.nodes[q].children[j] in t.shape && t.shape[t.nodes[q].children[j]].h == 0
  {
    hide Rank, NodeOk;
    SplitFacts(t, q);
    Descend(t, q, FirstIndex(t.nodes[q].children, leaf));
    HeightKind(t, leaf);
    forall j | 0 <= j < |t.nodes[q].children|
      ensures var c := t.nodes[q].children[j]; c in t.shape && t.shape[c].h == 0 && c in t.nodes && Fits(t.nodes[c]) && t.nodes[c].Leaf?
    {
      Descend(t, q, j);
      SplitFacts(t, t.nodes[q].children[j]);
      HeightKind(t, t.nodes[q].children[j]);
    }
  }

  lemma BlockedIffNoSeps(t: T, leaf: PageId, q: PageId, i: nat)
    requires Emptied(t, leaf, q, i)
    ensures Blocked(t.nodes, q, i) <==> SepsAfter(t.nodes, q, i) == 0
  {
    hide Inv, Rank;
  }

  /** What the first repair leaves: a tree for the same map, unless the parent is stuck. */
  ghost predicate Outcome(t: T, t': T, path: seq<PageId>, leaf: PageId, q: PageId) {
    && |path| > 0 && q == path[|path| - 1] && leaf in t.nodes && |t.nodes[leaf].keys| == 0
    && (!Stuck(t, path, leaf) ==>
          && Inv(t') && t'.contents == t.contents && t'.hole.None? && t'.caps == t.caps && Elsewhere(t, t')
          && t.root in t'.nodes && Succeeds(t'.nodes[t.root], t.root, t'.root)
          && q in t'.nodes && (q != t.root ==> |t'.nodes[q].keys| > 0) && (Tall(t) ==> Tall(t')))
  }

  /** There is a level between the root and the leaves. */
  ghost predicate Tall(t: T) {
    && t.root in t.nodes && t.nodes[t.root].Internal? && |t.nodes[t.root].children| > 0
    && t.nodes[t.root].children[0] in t.nodes && t.nodes[t.nodes[t.root].children[0]].Internal?
  }

  /** A repair of a leaf leaves the root of a tall tree and the kind of its children. */
  lemma StaysTall(t: T, t': T, q: PageId, i: nat)
    requires LeafFamily(t.nodes, q) && i < |t.nodes[q].children| && t'.nodes == RepairNodes(t.nodes, q, i)
    requires q in t'.nodes && t'.nodes[q].Internal? && (q != t.root ==> t'.root == t.root)
    ensures Tall(t) ==> Tall(t')
  {
    hide RepairNodes;
    if !Tall(t) {
      return;
    }
    var c := t.nodes[t.root].children[0];
    assert q != t.root && t.root !in t.nodes[q].children && c !in t.nodes[q].children by {
      LeavesOnly(t.nodes, q);
    }
    RepairTouches(t.nodes, q, i, t.root);
    if c != q {
      RepairTouches(t.nodes, q, i, c);
    }
  }

  lemma LeavesOnly(nodes: map<PageId, Node>, q: PageId)
    requires LeafFamily(nodes, q)
    ensures forall c :: c in nodes[q].children ==> c in nodes && nodes[c].Leaf?
    ensures |nodes[q].children| > 0 ==> nodes[q].children[0] in nodes[q].children
  {
  }

  lemma FirstRepair(t: T, path: seq<PageId>, leaf: PageId) returns (t': T)
    requires Inv(t) && t.hole == Some(leaf) && leaf in t.nodes && |t.nodes[leaf].keys| == 0 && t.nodes[leaf].Leaf?
    requires |path| > 0 && PathOk(t, path, leaf)
    ensures var q := path[|path| - 1];
      && q in t.shape && q in t.nodes && t.nodes[q].Internal? && leaf in t.nodes[q].children
      && var i := FirstIndex(t.nodes[q].children, leaf);
      && LeafFamily(t.nodes, q) && Outcome(t, t', path, leaf, q)
      && var v := if |t.nodes[q].keys| == 0 then t.nodes else RepairNodes(t.nodes, q, i);
      && (Stuck(t, path, leaf) ==> Doomed(t, v, q, q)) && (!Stuck(t, path, leaf) ==> v == t'.nodes)
  {
    hide Inv, Rank, NodeOk, RepairNodes, Tall;
    var q := path[|path| - 1];
    PathPop(t, path, leaf);
    EmptiedFacts(t, leaf, q);
    var i := FirstIndex(t.nodes[q].children, leaf);
    BlockedIffNoSeps(t, leaf, q, i);
    RootHasSeps(t);
    SplitFacts(t, q);
    if |t.nodes[q].keys| == 0 {
      t' := t;
    } else {
      t' := RepairInv(t, leaf, q, i);
      SplitFacts(t, t.root) by { assert t.root in t.shape by { RootCovers(t, []); } }
      forall x | x in t.nodes && x != q && x !in t.nodes[q].children
        ensures x in t'.nodes && t'.nodes[x] == t.nodes[x]
      {
        RepairTouches(t.nodes, q, i, x);
      }
      StaysTall(t, t', q, i);
    }
  }

  lemma Untouched(t: T)
    requires t.root in t.nodes
    ensures Elsewhere(t, t.(hole := None)) && Succeeds(t.nodes[t.root], t.root, t.root) && (Tall(t) ==> Tall(t.(hole := None)))
  {
  }

  lemma PathStep(t: T, path: seq<PageId>, curr: PageId, child: PageId)
    requires PathOk(t, path, curr) && curr in t.shape && curr in t.nodes && t.nodes[curr].Internal?
    requires child in t.nodes[curr].children
    ensures PathOk(t, path + [curr], child)
  {
    var path' := path + [curr];
    forall k | 0 <= k < |path'|
      ensures path'[k] in t.shape && path'[k] in t.nodes && t.nodes[path'[k]].Internal? &&
              (path' + [child])[k + 1] in t.nodes[path'[k]].children
    {
      if k < |path| {
        assert (path' + [child])[k + 1] == (path + [curr])[k + 1];
      }
    }
  }

  lemma PathPop(t: T, path: seq<PageId>, curr: PageId)
    requires PathOk(t, path, curr) && |path| > 0
    ensures PathOk(t, path[..|path| - 1], path[|path| - 1])
    ensures var p := path[|path| - 1];
            p in t.shape && p in t.nodes && t.nodes[p].Internal? && curr in t.nodes[p].children
  {
    var last := |path| - 1;
    assert path == path[..last] + [path[last]];
    assert (path + [curr])[last + 1] == curr;
    forall k | 0 <= k < last
      ensures path[..last][k] in t.shape && path[..last][k] in t.nodes && t.nodes[path[..last][k]].Internal? &&
              path[k + 1] in t.nodes[path[..last][k]].children
    {
      assert (path + [curr])[k + 1] == path[k + 1];
    }
  }

  /** Present keys are found by the pair bound exactly when the document matches. */
  lemma PairBound(contents: Contents, caps: Caps, n: Node, r: Range, key: Key, doc: DocId)
    requires n.Leaf? && SlotsOk(caps, n, r) && Holds(contents, n, r) && Covers(r, key)
    ensures var i := SlotBound(n.keys, n.docs, key, doc);
      (i < |n.keys| && n.keys[i] == key && n.docs[i] == doc) <==> (key in contents && contents[key] == doc)
  {
    hide Rank;
    var i := SlotBound(n.keys, n.docs, key, doc);
    if key in contents && contents[key] == doc {
      var j :| 0 <= j < |n.keys| && n.keys[j] == key;
      if i > j {
        RankOrder(key, key);
      } else if i < j {
        RankOrder(n.keys[i], key);
      }
    }
  }

  lemma DeleteFacts(t: T, p: PageId, key: Key, doc: DocId)
    requires Inv(t) && p in t.shape && Covers(t.shape[p], key)
    ensures p in t.nodes && Fits(t.nodes[p])
    ensures t.nodes[p].Leaf? ==>
      DeleteStep(t.nodes[p], key, doc).1 == (if key in t.contents && t.contents[key] == doc then Done else NotFound)
    ensures !DeleteStep(t.nodes[p], key, doc).1.Done? ==> DeleteStep(t.nodes[p], key, doc).0 == t.nodes[p]
    ensures t.nodes[p].Internal? ==>
      var step := DeleteStep(t.nodes[p], key, doc).1;
      && step.GoTo? && step.page in t.shape && Covers(t.shape[step.page], key) && t.shape[step.page].h < t.shape[p].h
      && step.page in t.nodes[p].children
  {
    hide Rank, UpperBound, Sorted, Disjoint, SlotBound;
    SplitFacts(t, p);
    if t.nodes[p].Internal? {
      DescendByKey(t, p, key);
      Descend(t, p, UpperBound(t.nodes[p].keys, key));
    } else {
      PairBound(t.contents, t.caps, t.nodes[p], t.shape[p], key, doc);
    }
  }

  method FindChildIndex(n: Node, child: PageId) returns (index: nat)
    requires n.Internal? && child in n.children
    ensures index < |n.children| && n.children[index] == child && forall j :: 0 <= j < index ==> n.children[j] != child
  {
    index := 0;
    while n.children[index] != child
      invariant index < |n.children| && child in n.children[index..]
      invariant forall j :: 0 <= j < index ==> n.children[j] != child
      decreases |n.children| - index
    {
      index := index + 1;
    }
  }

  lemma DealtFromLeft(l: Node, n: Node)
    requires l.Leaf? && n.Leaf? && Fits(l) && Fits(n) && |l.keys| > 0
    ensures var u, c := Joined(l, n), |l.keys| - 1;
      && u.keys[..c] == l.keys[..c] && u.docs[..c] == l.docs[..c]
      && u.keys[c..] == [l.keys[c]] + n.keys && u.docs[c..] == [l.docs[c]] + n.docs
  {
  }

  lemma DealtFromRight(n: Node, r: Node)
    requires r.Leaf? && n.Leaf? && Fits(r) && Fits(n) && |r.keys| > 1
    ensures var u, c := Joined(n, r), |n.keys| + 1;
      && u.keys[..c] == n.keys + [r.keys[0]] && u.docs[..c] == n.docs + [r.docs[0]]
      && u.keys[c..] == r.keys[1..] && u.docs[c..] == r.docs[1..] && u.keys[c] == r.keys[1]
  {
  }

  lemma LowerBoundFacts(t: T, p: PageId, key: Key)
    requires Inv(t) && p in t.shape && t.shape[p].lo <= Rank(key)
    ensures p in t.nodes && Fits(t.nodes[p])
    ensures t.nodes[p].Internal? ==>
      var c := t.nodes[p].children[LowerBound(t.nodes[p].keys, key)];
      c in t.shape && t.shape[c].h < t.shape[p].h && t.shape[c].lo <= Rank(key)
  {
    hide Rank, LowerBound, NodeOk;
    SplitFacts(t, p);
    if t.nodes[p].Internal? {
      Descend(t, p, LowerBound(t.nodes[p].keys, key));
    }
  }

  /** The pages that start at or after a point. */
  ghost function Ahead(shape: Shape, lo: real): set<PageId> {
    set p | p in shape && lo <= shape[p].lo
  }

  lemma LeafFacts(t: T, p: PageId)
    requires Inv(t) && p in t.shape && p in t.nodes && t.nodes[p].Leaf?
    ensures Fits(t.nodes[p]) && ChainOk(t.shape, t.nodes[p].next, t.shape[p])
    ensures t.nodes[p].next.Some? ==> var next := t.nodes[p].next.value;
      && next in t.shape && next in t.nodes && t.nodes[next].Leaf? && t.shape[next].lo == t.shape[p].hi
      && Ahead(t.shape, t.shape[next].lo) < Ahead(t.shape, t.shape[p].lo)
  {
    hide Rank, Sorted, Holds, Disjoint;
    InNodes(t, p);
    if t.nodes[p].next.Some? {
      var next := t.nodes[p].next.value;
      InNodes(t, next);
      assert t.shape[next].lo == t.shape[p].hi;
      assert p in Ahead(t.shape, t.shape[p].lo) && p !in Ahead(t.shape, t.shape[next].lo);
    }
  }

  /** The keys of the range that lie below a point, in order, with their documents. */
  ghost predicate Scanned(contents: Contents, low: Key, high: Key, keys: seq<Key>, docs: seq<DocId>, below: real) {
    && Sorted(keys) && |docs| == |keys|
    && (forall k :: k in keys <==> k in contents && Rank(low) <= Rank(k) <= Rank(high) && Rank(k) < below)
    && (forall i :: 0 <= i < |keys| ==> keys[i] in contents && docs[i] == contents[keys[i]])
  }

  lemma ScanStart(contents: Contents, low: Key, high: Key, below: real)
    requires below <= Rank(low)
    ensures Scanned(contents, low, high, [], [], below)
  {
    hide Rank;
  }

  lemma ScanEnd(contents: Contents, low: Key, high: Key, keys: seq<Key>, docs: seq<DocId>)
    requires Scanned(contents, low, high, keys, docs, 1.0)
    ensures Sorted(keys) && |docs| == |keys|
    ensures forall k :: k in keys <==> k in contents && Le(low, k) && Le(k, high)
    ensures forall i :: 0 <= i < |keys| ==> keys[i] in contents && docs[i] == contents[keys[i]]
  {
    hide Rank;
    forall k
      ensures Le(low, k) && Le(k, high) <==> Rank(low) <= Rank(k) <= Rank(high)
    {
      RankOrder(low, k);
      RankOrder(k, high);
    }
  }

  /** How far a leaf was scanned: from the first key at or above `low` to the first key above `high`, if any. */
  ghost predicate Stretch(n: Node, low: Key, high: Key, first: nat, left: nat, done: bool)
    requires n.Leaf?
  {
    && first == LowerBound(n.keys, low) && first <= left <= |n.keys|
    && (forall i :: first <= i < left ==> Rank(n.keys[i]) <= Rank(high))
    && if done then left < |n.keys| && Rank(high) < Rank(n.keys[left]) else left == |n.keys|
  }

  lemma StretchInRange(caps: Caps, contents: Contents, n: Node, r: Range, low: Key, high: Key, first: nat, left: nat, done: bool, i: nat)
    requires n.Leaf? && SlotsOk(caps, n, r) && Holds(contents, n, r) && Stretch(n, low, high, first, left, done)
    requires first <= i < left
    ensures n.keys[i] in contents && n.docs[i] == contents[n.keys[i]] && Covers(r, n.keys[i])
    ensures Rank(low) <= Rank(n.keys[i]) <= Rank(high)
  {
    hide Rank, LowerBound;
  }

  lemma StretchComplete(caps: Caps, contents: Contents, n: Node, r: Range, low: Key, high: Key, first: nat, left: nat, done: bool, k: Key)
    requires n.Leaf? && SlotsOk(caps, n, r) && Holds(contents, n, r) && Stretch(n, low, high, first, left, done)
    requires k in contents && Rank(low) <= Rank(k) <= Rank(high) && r.lo <= Rank(k)
    requires done || Rank(k) < r.hi
    ensures k in n.keys[first..left]
  {
    hide Rank, LowerBound, Sorted, Holds, Stretch;
    StretchCovers(caps, n, r, low, high, first, left, done, k);
    var i := SlotOf(contents, n, r, k);
    StretchIndex(caps, n, r, low, high, first, left, done, i);
    InSlice(n.keys, first, left, i);
  }

  lemma StretchCovers(caps: Caps, n: Node, r: Range, low: Key, high: Key, first: nat, left: nat, done: bool, k: Key)
    requires n.Leaf? && SlotsOk(caps, n, r) && Stretch(n, low, high, first, left, done)
    requires Rank(k) <= Rank(high) && r.lo <= Rank(k) && (done || Rank(k) < r.hi)
    ensures Covers(r, k)
  {
    hide Rank, LowerBound, Sorted;
    if done { assert Covers(r, n.keys[left]); }
  }

  lemma SlotOf(contents: Contents, n: Node, r: Range, k: Key) returns (i: nat)
    requires n.Leaf? && |n.keys| == |n.docs| && Holds(contents, n, r) && k in contents && Covers(r, k)
    ensures i < |n.keys| && n.keys[i] == k
  {
    hide Rank;
    i :| 0 <= i < |n.keys| && n.keys[i] == k;
  }

  lemma StretchIndex(caps: Caps, n: Node, r: Range, low: Key, high: Key, first: nat, left: nat, done: bool, i: nat)
    requires n.Leaf? && SlotsOk(caps, n, r) && Stretch(n, low, high, first, left, done) && i < |n.keys|
    requires Rank(low) <= Rank(n.keys[i]) <= Rank(high)
    ensures first <= i < left <= |n.keys|
  {
    hide Rank, LowerBound, Sorted, Covers;
    if left < i { SortedPair(n.keys, left, i); }
  }

  lemma SortedPair(ks: seq<Key>, i: nat, j: nat)
    requires Sorted(ks) && i < j < |ks|
    ensures Rank(ks[i]) < Rank(ks[j])
  {
  }

  lemma InSlice(ks: seq<Key>, a: nat, b: nat, i: nat)
    requires a <= i < b <= |ks|
    ensures ks[i] in ks[a..b]
  {
    assert ks[a..b][i - a] == ks[i];
  }

  lemma SortedAppend(a: seq<Key>, b: seq<Key>, cut: real)
    requires Sorted(a) && Sorted(b)
    requires (forall k :: k in a ==> Rank(k) < cut) && (forall k :: k in b ==> cut <= Rank(k))
    ensures Sorted(a + b)
  {
    hide Rank;
    forall i, j | 0 <= i < j < |a + b|
      ensures Rank((a + b)[i]) < Rank((a + b)[j])
    {
      if i < |a| <= j {
        assert a[i] in a && b[j - |a|] in b;
      }
    }
  }

  lemma ScanLeaf(t: T, p: PageId, low: Key, high: Key, keys: seq<Key>, docs: seq<DocId>, first: nat, left: nat, done: bool)
    requires Inv(t) && p in t.shape && p in t.nodes && t.nodes[p].Leaf? && Fits(t.nodes[p])
    requires Scanned(t.contents, low, high, keys, docs, t.shape[p].lo)
    requires Stretch(t.nodes[p], low, high, first, left, done)
    ensures var n := t.nodes[p];
      Scanned(t.contents, low, high, keys + n.keys[first..left], docs + n.docs[first..left],
              if done || n.next.None? then 1.0 else t.shape[p].hi)
  {
    hide Rank, LowerBound, Disjoint, Holds, Stretch, Sorted, Scanned;
    assert NodeOk(t, p);
    StretchBounds(t.nodes[p], low, high, first, left, done);
    ScanSlots(t.caps, t.contents, t.nodes[p], t.shape[p], low, high, keys, docs, first, left, done,
              if done || t.nodes[p].next.None? then 1.0 else t.shape[p].hi);
  }

  lemma ScanSlots(caps: Caps, contents: Contents, n: Node, r: Range, low: Key, high: Key, keys: seq<Key>, docs: seq<DocId>,
                  first: nat, left: nat, done: bool, below: real)
    requires n.Leaf? && SlotsOk(caps, n, r) && Holds(contents, n, r) && Stretch(n, low, high, first, left, done)
    requires first <= left <= |n.keys| && Scanned(contents, low, high, keys, docs, r.lo)
    requires r.lo < r.hi <= below <= 1.0 && (done || below == r.hi)
    ensures Scanned(contents, low, high, keys + n.keys[first..left], docs + n.docs[first..left], below)
  {
    hide Rank, LowerBound, Holds, Stretch, Sorted;
    var more := n.keys[first..left];
    SortedSlice(n.keys, first, left);
    forall i | first <= i < left
      ensures Covers(r, n.keys[i]) && n.keys[i] in contents && n.docs[i] == contents[n.keys[i]]
      ensures Rank(low) <= Rank(n.keys[i]) <= Rank(high)
    {
      StretchInRange(caps, contents, n, r, low, high, first, left, done, i);
    }
    assert forall k :: k in more ==> k in contents && Covers(r, k) && Rank(low) <= Rank(k) <= Rank(high);
    SortedAppend(keys, more, r.lo);
    forall k | k in contents && Rank(low) <= Rank(k) <= Rank(high) && Rank(k) < below && k !in keys
      ensures k in more
    {
      StretchComplete(caps, contents, n, r, low, high, first, left, done, k);
    }
    var keys', docs' := keys + more, docs + n.docs[first..left];
    forall i | 0 <= i < |keys'|
      ensures keys'[i] in contents && docs'[i] == contents[keys'[i]]
    {
      if i >= |keys| {
        assert keys'[i] == n.keys[first + (i - |keys|)] && docs'[i] == n.docs[first + (i - |keys|)];
      }
    }
  }

  lemma StretchBounds(n: Node, low: Key, high: Key, first: nat, left: nat, done: bool)
    requires n.Leaf? && Stretch(n, low, high, first, left, done)
    ensures first <= left <= |n.keys|
  {
  }

  /** Pages that are not the tree's are left alone, and stay outside the tree. */
  ghost predicate Elsewhere(t: T, t': T) {
    forall p :: p in t.nodes && p !in t.shape ==> p in t'.nodes && t'.nodes[p] == t.nodes[p] && p !in t'.shape
  }

  /** Every page of the tree stays in it, at its level. */
  ghost predicate SameLevels(t: T, t': T) {
    forall p :: p in t.shape ==> p in t'.shape && t'.shape[p].h == t.shape[p].h
  }

  lemma ElsewhereSame(t: T)
    ensures Elsewhere(t, t) && SameLevels(t, t)
  {
  }

  lemma LeafElsewhere(t0: T, t: T, p: PageId, n: Node, contents: Contents)
    requires Elsewhere(t0, t) && SameLevels(t0, t) && p in t.shape
    ensures Elsewhere(t0, WithLeaf(t, p, n, contents)) && SameLevels(t0, WithLeaf(t, p, n, contents))
  {
  }

  lemma SplitElsewhere(t0: T, t: T, p: PageId, sib: PageId, parent: PageId)
    requires Inv(t) && Elsewhere(t0, t) && SameLevels(t0, t) && p in t.shape && p in t.nodes && |t.nodes[p].keys| > 0 && Fits(t.nodes[p])
    requires parent in t.shape && parent in t.nodes && t.nodes[parent].Internal? && Fits(t.nodes[parent]) && sib !in t.nodes
    ensures Elsewhere(t0, SplitChildOf(t, p, sib, parent)) && SameLevels(t0, SplitChildOf(t, p, sib, parent))
  {
    hide NodeOk, Disjoint, Halves, Linked, Rank;
  }

  /** Whether the page is internal and the child on the way to the key is full. */
  ghost predicate NextFull(t: T, p: PageId, key: Key) {
    && p in t.nodes && t.nodes[p].Internal? && Fits(t.nodes[p])
    && var c := t.nodes[p].children[UpperBound(t.nodes[p].keys, key)]; c in t.nodes && Full(t.nodes[c], t.caps)
  }

  lemma SplitFacts(t: T, p: PageId)
    requires Inv(t) && p in t.shape
    ensures p in t.nodes && NodeOk(t, p) && Fits(t.nodes[p]) && (Full(t.nodes[p], t.caps) ==> |t.nodes[p].keys| >= 2)
    ensures |t.nodes[p].keys| <= if t.nodes[p].Leaf? then t.caps.leaf else t.caps.sep
  {
    InNodes(t, p);
  }

  lemma PageKeys(t: T, p: PageId)
    requires p in t.shape && p in t.nodes && NodeOk(t, p)
    ensures forall i :: 0 <= i < |t.nodes[p].keys| ==> |t.nodes[p].keys[i]| == t.caps.keyLen
  {
  }

  lemma RootCovers(t: T, key: Key)
    requires Inv(t)
    ensures Covers(t.shape[t.root], key)
  {
    hide Rank;
  }

  lemma InsertFacts(t: T, p: PageId, key: Key, doc: DocId)
    requires Inv(t) && p in t.shape && Covers(t.shape[p], key)
    ensures p in t.nodes && Fits(t.nodes[p])
    ensures t.nodes[p].Leaf? ==> InsertStep(t.nodes[p], key, doc).1 == Done && !NextFull(t, p, key)
    ensures t.nodes[p].Internal? ==>
      var step := InsertStep(t.nodes[p], key, doc);
      && step.0 == t.nodes[p] && step.1 == GoTo(t.nodes[p].children[UpperBound(t.nodes[p].keys, key)])
      && step.1.page in t.shape && step.1.page in t.nodes && Covers(t.shape[step.1.page], key)
      && t.shape[step.1.page].h < t.shape[p].h
      && (NextFull(t, p, key) <==> Full(t.nodes[step.1.page], t.caps))
  {
    hide Rank, UpperBound;
    SplitFacts(t, p);
    if t.nodes[p].Internal? {
      DescendByKey(t, p, key);
      Descend(t, p, UpperBound(t.nodes[p].keys, key));
    }
  }

  lemma RootSplitFacts(t: T, sib: PageId, root: PageId)
    requires Inv(t) && t.root in t.nodes && Fits(t.nodes[t.root]) && |t.nodes[t.root].keys| > 0
    ensures var t' := SplitRootOf(t, sib, root); !Full(t'.nodes[root], t.caps) && t'.contents == t.contents
    ensures sib !in t.nodes && root !in t.nodes ==> Elsewhere(t, SplitRootOf(t, sib, root)) && SameLevels(t, SplitRootOf(t, sib, root))
  {
    hide NodeOk, Rank;
  }

  /** After a split below it, the way from the parent to the key is free. */
  lemma ChildSplitFacts(t: T, p: PageId, sib: PageId, parent: PageId, i: nat, key: Key)
    requires SplitBelow(t, p, sib, parent, i) && Covers(t.shape[p], key)
    ensures var t' := SplitChildOf(t, p, sib, parent);
            && parent in t'.shape && t'.shape[parent] == t.shape[parent] && t'.contents == t.contents
            && parent in t'.nodes && t'.nodes[parent].Internal? && !NextFull(t', parent, key)
  {
    hide Rank, UpperBound, LowerBound, NodeOk, LeafOk;
    var t' := SplitChildOf(t, p, sib, parent);
    SplitChild(t, p, sib, parent, i);
    SplitFrame(t, p, sib, parent, i);
    SplitFacts(t, p);
    var n := t.nodes[p];
    assert !Full(t'.nodes[p], t.caps) && !Full(t'.nodes[sib], t.caps);
    Descend(t, parent, i);
    SplitFacts(t', parent);
    DescendByKey(t', parent, key);
    Descend(t', parent, UpperBound(t'.nodes[parent].keys, key));
    var c := t'.nodes[parent].children[UpperBound(t'.nodes[parent].keys, key)];
    assert c == p || c == sib;
  }
}
