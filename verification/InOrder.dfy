/** What the flat invariant means for the tree read top down: reachable pages, in-order leaves, the leaf chain. */
module InOrder {
  import opened Bytes
  import opened Disk
  import opened Nodes
  import opened Tree

  /** Pages reachable from page p in h levels. */
  ghost function Reachable(nodes: map<PageId, Node>, p: PageId, h: nat): set<PageId>
    decreases h, 0
  {
    if h == 0 || p !in nodes || nodes[p].Leaf? then {p} else {p} + ReachableFrom(nodes, nodes[p].children, h - 1)
  }

  ghost function ReachableFrom(nodes: map<PageId, Node>, ps: seq<PageId>, h: nat): set<PageId>
    decreases h, 1, |ps|
  {
    if |ps| == 0 then {} else ReachableFrom(nodes, ps[..|ps| - 1], h) + Reachable(nodes, ps[|ps| - 1], h)
  }

  /** Pages below p: no higher than p and starting inside p's range. */
  ghost function Below(shape: Shape, p: PageId): set<PageId>
    requires p in shape
  {
    set q | q in shape && shape[q].h <= shape[p].h && shape[p].lo <= shape[q].lo < shape[p].hi
  }

  lemma BelowSame(t: T, p: PageId, q: PageId)
    requires Inv(t) && p in t.shape && q in Below(t.shape, p) && t.shape[q].h == t.shape[p].h
    ensures q == p
  {
    hide NodeOk, Rank;
  }

  /** The child whose range holds a point of the page's range. */
  lemma {:induction false} FindChild(n: Node, r: Range, x: real, i: nat) returns (k: nat)
    requires n.Internal? && i <= |n.keys| && Bound(n, i, r) <= x < r.hi
    ensures i <= k <= |n.keys| && Bound(n, k, r) <= x < Bound(n, k + 1, r)
    decreases |n.keys| - i
  {
    hide Rank;
    if x < Bound(n, i + 1, r) {
      k := i;
    } else {
      k := FindChild(n, r, x, i + 1);
    }
  }

  /** Everything below a page is the page itself or below exactly one of its children. */
  lemma BelowChild(t: T, p: PageId, q: PageId)
    requires Inv(t) && p in t.shape && p in t.nodes && t.nodes[p].Internal? && Fits(t.nodes[p])
    ensures p !in t.nodes[p].children
    ensures q in Below(t.shape, p) <==>
      q == p || exists i ::
        0 <= i < |t.nodes[p].children| && t.nodes[p].children[i] in t.shape && q in Below(t.shape, t.nodes[p].children[i])
  {
    hide NodeOk, Rank, Disjoint, Bound;
    var n, r := t.nodes[p], t.shape[p];
    forall i | 0 <= i < |n.children|
      ensures n.children[i] in t.shape && n.children[i] != p && Below(t.shape, n.children[i]) <= Below(t.shape, p)
    {
      Descend(t, p, i);
    }
    if q in Below(t.shape, p) && q != p {
      if t.shape[q].h == r.h { BelowSame(t, p, q); }
      var k := ChildAt(t, p, t.shape[q].lo);
      assert q in Below(t.shape, n.children[k]);
    }
    SelfBelow(t, p);
  }

  lemma SelfBelow(t: T, p: PageId)
    requires Inv(t) && p in t.shape
    ensures p in Below(t.shape, p)
  {
    hide NodeOk, Rank, Disjoint;
  }

  lemma ChildAt(t: T, p: PageId, x: real) returns (k: nat)
    requires Inv(t) && p in t.shape && p in t.nodes && t.nodes[p].Internal? && Fits(t.nodes[p])
    requires t.shape[p].lo <= x < t.shape[p].hi
    ensures k < |t.nodes[p].children| && t.nodes[p].children[k] in t.shape
    ensures var c := t.shape[t.nodes[p].children[k]]; c.lo <= x < c.hi && c.h == t.shape[p].h - 1
  {
    hide NodeOk, Rank, Disjoint;
    k := FindChild(t.nodes[p], t.shape[p], x, 0);
    Descend(t, p, k);
  }

  /** Two children of a page have nothing below them in common. */
  lemma ChildrenApart(t: T, p: PageId, i: nat, j: nat)
    requires Inv(t) && p in t.shape && p in t.nodes && t.nodes[p].Internal? && i < |t.nodes[p].children| && j < |t.nodes[p].children|
    requires t.nodes[p].children[i] in t.shape && t.nodes[p].children[j] in t.shape && i != j
    ensures Below(t.shape, t.nodes[p].children[i]) !! Below(t.shape, t.nodes[p].children[j])
  {
    hide NodeOk, Rank, Bound;
    Descend(t, p, i);
    Descend(t, p, j);
    if t.nodes[p].children[i] == t.nodes[p].children[j] { OneParent(t, p, i, p, j); }
  }

  ghost function AllBelow(shape: Shape, ps: seq<PageId>): set<PageId>
    requires forall i :: 0 <= i < |ps| ==> ps[i] in shape
  {
    if |ps| == 0 then {} else AllBelow(shape, ps[..|ps| - 1]) + Below(shape, ps[|ps| - 1])
  }

  lemma {:induction false} InAllBelow(shape: Shape, ps: seq<PageId>, q: PageId)
    requires forall i :: 0 <= i < |ps| ==> ps[i] in shape
    ensures q in AllBelow(shape, ps) <==> exists i :: 0 <= i < |ps| && q in Below(shape, ps[i])
  {
    if |ps| == 0 {
    } else {
      var rest := ps[..|ps| - 1];
      InAllBelow(shape, rest, q);
      if q in AllBelow(shape, rest) {
        var i :| 0 <= i < |rest| && q in Below(shape, rest[i]);
        assert ps[i] == rest[i];
      }
      if exists i :: 0 <= i < |ps| && q in Below(shape, ps[i]) {
        var i :| 0 <= i < |ps| && q in Below(shape, ps[i]);
        if i < |rest| { assert rest[i] == ps[i]; }
      }
    }
  }

  lemma ChildrenPlaced(t: T, p: PageId)
    requires Inv(t) && p in t.shape && p in t.nodes && t.nodes[p].Internal?
    ensures Fits(t.nodes[p]) && forall i :: 0 <= i < |t.nodes[p].children| ==>
      t.nodes[p].children[i] in t.shape && t.shape[t.nodes[p].children[i]].h == t.shape[p].h - 1
  {
    hide Rank, Disjoint;
    assert NodeOk(t, p);
    LowerChildren(t.shape, t.caps, p == t.root, t.nodes[p], t.shape[p]);
  }

  lemma BelowIsChildren(t: T, p: PageId)
    requires Inv(t) && p in t.shape && p in t.nodes && t.nodes[p].Internal?
    requires forall i :: 0 <= i < |t.nodes[p].children| ==> t.nodes[p].children[i] in t.shape
    ensures Below(t.shape, p) == {p} + AllBelow(t.shape, t.nodes[p].children)
    ensures p !in AllBelow(t.shape, t.nodes[p].children)
  {
    hide Inv, NodeOk, Rank, Below, AllBelow;
    ChildrenPlaced(t, p);
    var cs := t.nodes[p].children;
    forall q
      ensures q in Below(t.shape, p) <==> q == p || q in AllBelow(t.shape, cs)
    {
      BelowChild(t, p, q);
      InAllBelow(t.shape, cs, q);
    }
    InAllBelow(t.shape, cs, p);
    if p in AllBelow(t.shape, cs) {
      var i :| 0 <= i < |cs| && p in Below(t.shape, cs[i]);
      BelowHeight(t.shape, cs[i], p);
    }
  }

  lemma BelowHeight(shape: Shape, p: PageId, q: PageId)
    requires p in shape && q in Below(shape, p)
    ensures q in shape && shape[q].h <= shape[p].h
  {
  }

  /** The pages reachable from a page are the ones below it; from the root, all pages of the tree. */
  lemma {:induction false} ReachableIsBelow(t: T, p: PageId)
    requires Inv(t) && p in t.shape
    ensures Reachable(t.nodes, p, t.shape[p].h) == Below(t.shape, p)
    decreases t.shape[p].h, 0
  {
    hide Inv, NodeOk, Rank, Below;
    InNodes(t, p);
    HeightKind(t, p);
    if t.nodes[p].Internal? {
      ChildrenPlaced(t, p);
      BelowIsChildren(t, p);
      ReachableFromIsBelow(t, t.nodes[p].children, t.shape[p].h - 1);
    } else {
      forall q
        ensures q in Below(t.shape, p) <==> q == p
      {
        if q in Below(t.shape, p) {
          BelowHeight(t.shape, p, q);
          BelowSame(t, p, q);
        }
        SelfBelow(t, p);
      }
    }
  }

  lemma {:induction false} ReachableFromIsBelow(t: T, ps: seq<PageId>, h: nat)
    requires Inv(t) && forall i :: 0 <= i < |ps| ==> ps[i] in t.shape && t.shape[ps[i]].h == h
    ensures ReachableFrom(t.nodes, ps, h) == AllBelow(t.shape, ps)
    decreases h, 1, |ps|
  {
    hide Inv, NodeOk, Rank, Below;
    if |ps| == 0 {
    } else {
      ReachableFromIsBelow(t, ps[..|ps| - 1], h);
      ReachableIsBelow(t, ps[|ps| - 1]);
    }
  }

  lemma HeightKind(t: T, p: PageId)
    requires Inv(t) && p in t.shape
    ensures p in t.nodes && (t.nodes[p].Leaf? <==> t.shape[p].h == 0)
  {
    InNodes(t, p);
  }

  lemma RootReachesAll(t: T)
    requires Inv(t)
    ensures Reachable(t.nodes, t.root, t.shape[t.root].h) == t.shape.Keys
  {
    hide NodeOk, Rank, Disjoint, Reachable;
    ReachableIsBelow(t, t.root);
  }

  // in-order leaves and the leaf chain

  ghost function Leaves(nodes: map<PageId, Node>, p: PageId, h: nat): seq<PageId>
    decreases h, 0
  {
    if h == 0 || p !in nodes || nodes[p].Leaf? then [p] else LeavesFrom(nodes, nodes[p].children, h - 1)
  }

  ghost function LeavesFrom(nodes: map<PageId, Node>, ps: seq<PageId>, h: nat): seq<PageId>
    decreases h, 1, |ps|
  {
    if |ps| == 0 then [] else LeavesFrom(nodes, ps[..|ps| - 1], h) + Leaves(nodes, ps[|ps| - 1], h)
  }

  ghost predicate Meets(shape: Shape, ls: seq<PageId>, i: nat) {
    i + 1 < |ls| && ls[i] in shape && ls[i + 1] in shape && shape[ls[i]].hi == shape[ls[i + 1]].lo
  }

  /** Leaves that tile the range from lo to hi without gaps. */
  ghost predicate Tiles(shape: Shape, ls: seq<PageId>, lo: real, hi: real) {
    && (forall i :: 0 <= i < |ls| ==> ls[i] in shape && shape[ls[i]].h == 0)
    && (forall i :: 0 <= i < |ls| - 1 ==> Meets(shape, ls, i))
    && if |ls| == 0 then lo == hi else shape[ls[0]].lo == lo && shape[ls[|ls| - 1]].hi == hi
  }

  lemma TilesAppend(shape: Shape, a: seq<PageId>, b: seq<PageId>, lo: real, mid: real, hi: real)
    requires Tiles(shape, a, lo, mid) && Tiles(shape, b, mid, hi)
    ensures Tiles(shape, a + b, lo, hi)
  {
    var ls := a + b;
    forall i | 0 <= i < |ls| - 1
      ensures Meets(shape, ls, i)
    {
      if i < |a| - 1 {
        assert Meets(shape, a, i);
      } else if i >= |a| {
        assert Meets(shape, b, i - |a|);
      }
    }
  }

  lemma {:induction false} LeavesTile(t: T, p: PageId)
    requires Inv(t) && p in t.shape
    ensures Tiles(t.shape, Leaves(t.nodes, p, t.shape[p].h), t.shape[p].lo, t.shape[p].hi)
    decreases t.shape[p].h, 1, 0
  {
    hide Inv, NodeOk, Rank;
    HeightKind(t, p);
    if t.nodes[p].Internal? {
      ChildrenPlaced(t, p);
      LeavesFromTile(t, p, |t.nodes[p].children|);
      var n := t.nodes[p];
      assert n.children[..|n.children|] == n.children;
    }
  }

  lemma {:induction false} LeavesFromTile(t: T, p: PageId, m: nat)
    requires Inv(t) && p in t.shape && p in t.nodes && t.nodes[p].Internal? && Fits(t.nodes[p]) && t.shape[p].h > 0
    requires m <= |t.nodes[p].children|
    ensures Tiles(t.shape, LeavesFrom(t.nodes, t.nodes[p].children[..m], t.shape[p].h - 1), t.shape[p].lo, Bound(t.nodes[p], m, t.shape[p]))
    decreases t.shape[p].h, 0, m
  {
    hide Inv, NodeOk, Rank, Tiles;
    var n, r := t.nodes[p], t.shape[p];
    if m == 0 {
      EmptyTiles(t.shape, r.lo);
    } else {
      var ps := n.children[..m];
      assert ps[..|ps| - 1] == n.children[..m - 1] && ps[|ps| - 1] == n.children[m - 1];
      LeavesFromTile(t, p, m - 1);
      Descend(t, p, m - 1);
      LeavesTile(t, n.children[m - 1]);
      TilesAppend(t.shape, LeavesFrom(t.nodes, n.children[..m - 1], r.h - 1), Leaves(t.nodes, n.children[m - 1], r.h - 1),
                  r.lo, Bound(n, m - 1, r), Bound(n, m, r));
    }
  }

  lemma EmptyTiles(shape: Shape, lo: real)
    ensures Tiles(shape, [], lo, lo)
  {
  }

  ghost predicate LeadsOn(nodes: map<PageId, Node>, ls: seq<PageId>, i: nat)
    requires i < |ls|
  {
    ls[i] in nodes && nodes[ls[i]].Leaf? && nodes[ls[i]].next == if i + 1 < |ls| then Some(ls[i + 1]) else None
  }

  /** The pages that the next pointers spell out from the first of `ls` on. */
  ghost predicate Chained(nodes: map<PageId, Node>, ls: seq<PageId>) {
    forall i :: 0 <= i < |ls| ==> LeadsOn(nodes, ls, i)
  }

  /** Following next pointers visits exactly the in-order leaves, every leaf of the tree once. */
  lemma ChainIsInOrder(t: T)
    requires Inv(t)
    ensures var ls := Leaves(t.nodes, t.root, t.shape[t.root].h);
      && Chained(t.nodes, ls) && Distinct(ls)
      && forall p :: p in ls <==> p in t.shape && t.shape[p].h == 0
  {
    hide Inv, NodeOk, Rank, Disjoint;
    RootPlace(t);
    var ls := Leaves(t.nodes, t.root, t.shape[t.root].h);
    LeavesTile(t, t.root);
    forall i | 0 <= i < |ls|
      ensures LeadsOn(t.nodes, ls, i)
    {
      if i + 1 < |ls| { assert Meets(t.shape, ls, i); }
      NextLeaf(t, ls[i], if i + 1 < |ls| then Some(ls[i + 1]) else None);
    }
    forall i, j | 0 <= i < j < |ls|
      ensures ls[i] != ls[j]
    {
      TilesIncrease(t, ls, 0.0, 1.0, i, j);
    }
    forall p | p in t.shape && t.shape[p].h == 0
      ensures p in ls
    {
      InRange(t, p);
      var i := TileAt(t, ls, 0.0, 1.0, t.shape[p].lo);
      SameLeaf(t, p, ls[i]);
    }
  }

  lemma RootPlace(t: T)
    requires Inv(t)
    ensures t.root in t.shape && t.shape[t.root].lo == 0.0 && t.shape[t.root].hi == 1.0
  {
  }

  lemma InRange(t: T, p: PageId)
    requires Inv(t) && p in t.shape
    ensures 0.0 <= t.shape[p].lo < t.shape[p].hi <= 1.0
  {
  }

  lemma SameLeaf(t: T, p: PageId, q: PageId)
    requires Inv(t) && p in t.shape && q in t.shape && t.shape[p].h == t.shape[q].h
    requires t.shape[q].lo <= t.shape[p].lo < t.shape[q].hi
    ensures p == q
  {
    hide NodeOk, Rank;
  }

  lemma NextLeaf(t: T, p: PageId, next: Option<PageId>)
    requires Inv(t) && p in t.shape && t.shape[p].h == 0
    requires if next.None? then t.shape[p].hi == 1.0
             else next.value in t.shape && t.shape[next.value].h == 0 && t.shape[next.value].lo == t.shape[p].hi
    ensures p in t.nodes && t.nodes[p].Leaf? && t.nodes[p].next == next
  {
    hide Rank, Sorted, Holds;
    HeightKind(t, p);
    InNodes(t, p);
  }

  lemma {:induction false} TilesIncrease(t: T, ls: seq<PageId>, lo: real, hi: real, i: nat, j: nat)
    requires Inv(t) && Tiles(t.shape, ls, lo, hi) && i < j < |ls|
    ensures t.shape[ls[i]].hi <= t.shape[ls[j]].lo && t.shape[ls[i]].lo < t.shape[ls[j]].lo
    decreases j
  {
    hide Inv, Rank;
    InRange(t, ls[i]);
    if i + 1 < j {
      TilesIncrease(t, ls, lo, hi, i, j - 1);
      InRange(t, ls[j - 1]);
      assert Meets(t.shape, ls, j - 1);
    } else {
      assert Meets(t.shape, ls, i);
    }
  }

  lemma {:induction false} TileAt(t: T, ls: seq<PageId>, lo: real, hi: real, x: real) returns (i: nat)
    requires Tiles(t.shape, ls, lo, hi) && lo <= x < hi
    ensures i < |ls| && t.shape[ls[i]].lo <= x < t.shape[ls[i]].hi
    decreases |ls|
  {
    hide Rank;
    if x < t.shape[ls[0]].hi {
      i := 0;
    } else {
      assert Tiles(t.shape, ls[1..], t.shape[ls[0]].hi, hi) by {
        forall k | 0 <= k < |ls[1..]| - 1
          ensures Meets(t.shape, ls[1..], k)
        {
          assert Meets(t.shape, ls, k + 1);
        }
        assert |ls| > 1 ==> Meets(t.shape, ls, 0);
      }
      i := TileAt(t, ls[1..], t.shape[ls[0]].hi, hi, x);
      i := i + 1;
    }
  }
}
