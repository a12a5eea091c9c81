/** What a reader of raw memory finds by following pointers: the lists of `core/alloc.c` hold
    exactly what they should, and end. */
module Walks {
  import opened KernelC
  import opened HeapModel
  import opened SkipList
  import opened Layout

  /** Follow the pointer at offset `off` k times, stopping at NULL. */
  function Follow(ram: Ram, x: int, off: int, k: nat): int
    decreases k
  {
    if k == 0 || x == 0 then x
    else if x + off in ram then Follow(ram, ram[x + off], off, k - 1) else 0
  }

  /** Some number of steps from `x` lead to `y`. */
  ghost predicate Visits(ram: Ram, x: int, off: int, y: int)
  {
    exists k: nat :: Follow(ram, x, off, k) == y
  }

  ghost predicate Threaded(ram: Ram, s: seq<int>, off: int)
  {
    forall k :: 0 <= k < |s| ==> s[k] != 0 && s[k] + off in ram && ram[s[k] + off] == At(s, k + 1)
  }

  /** Step k reaches element k, and NULL when there is none. */
  lemma {:induction false} FollowList(ram: Ram, s: seq<int>, off: int, k: nat)
    requires Threaded(ram, s, off)
    ensures Follow(ram, At(s, 0), off, k) == At(s, k)
    decreases k
  {
    if k > 0 && s != [] {
      var t := s[1..];
      assert At(t, 0) == At(s, 1) && At(t, k - 1) == At(s, k);
      forall j | 0 <= j < |t| ensures t[j] != 0 && t[j] + off in ram && ram[t[j] + off] == At(t, j + 1) {
        assert t[j] == s[j + 1];
      }
      FollowList(ram, t, off, k - 1);
    }
  }

  lemma VisitsList(ram: Ram, s: seq<int>, off: int, y: int)
    requires Threaded(ram, s, off) && y != 0
    ensures Visits(ram, At(s, 0), off, y) <==> y in s
    ensures Follow(ram, At(s, 0), off, |s|) == 0
  {
    if Visits(ram, At(s, 0), off, y) {
      var k: nat :| Follow(ram, At(s, 0), off, k) == y;
      FollowList(ram, s, off, k);
    }
    if y in s {
      var k: nat :| k < |s| && s[k] == y;
      FollowList(ram, s, off, k);
    }
    FollowList(ram, s, off, |s|);
  }

  lemma ChainThreaded(ram: Ram, s: seq<int>)
    requires Chain(ram, s) && 0 !in s
    ensures Threaded(ram, s, 0)
  {
    forall k | 0 <= k < |s| ensures s[k] != 0 && s[k] in ram && ram[s[k]] == At(s, k + 1) {
      var x := s[k];
      assert x in s && Link(ram, s, k);
    }
  }

  /** List b of the bins: every page of that bin with a free cell, and nothing else. */
  lemma BinListHolds(ram: Ram, binHead: seq<int>, level: int, newestBig: int, height: map<int, int>, h: Heap, b: int, pg: int)
    requires Inv(h) && Repr(ram, binHead, level, newestBig, height, h) && 0 <= b < 10 && pg != 0
    ensures |binHead| == 10
    ensures Visits(ram, binHead[b], 0, pg) <==> pg in h.bin && h.bin[pg] == b && h.cells[pg] != []
    ensures Follow(ram, binHead[b], 0, |h.pages[b]|) == 0
  {
    NullNotTile(h);
    ChainThreaded(ram, h.pages[b]);
    VisitsList(ram, h.pages[b], 0, pg);
  }

  /** The stack of a page: every cell of it that is not live, and nothing else. */
  lemma StackHolds(ram: Ram, binHead: seq<int>, level: int, newestBig: int, height: map<int, int>, h: Heap, pg: int, c: int)
    requires Inv(h) && Repr(ram, binHead, level, newestBig, height, h) && pg in h.bin && c != 0
    ensures pg + 4 in ram
    ensures Visits(ram, ram[pg + 4], 0, c) <==> c in AllCells(pg, h.bin[pg]) && c !in h.live
    ensures Follow(ram, ram[pg + 4], 0, |h.cells[pg]|) == 0
  {
    NullNotTile(h);
    if 0 in h.cells[pg] { CellInPage(pg, h.bin[pg], 0); }
    assert PageAt(ram, pg, h.bin[pg], h.cells[pg]);
    ChainThreaded(ram, h.cells[pg]);
    VisitsList(ram, h.cells[pg], 0, c);
  }

  /** The words of the headers: a page's bin number, a block's payload size, and a block's
      head, which is NULL exactly while the block is live. */
  lemma HeaderWords(ram: Ram, binHead: seq<int>, level: int, newestBig: int, height: map<int, int>, h: Heap, t: int)
    requires Inv(h) && Repr(ram, binHead, level, newestBig, height, h)
    ensures t in h.bin ==> t + 8 in ram && ram[t + 8] == h.bin[t]
    ensures t in h.size ==> t + 8 in ram && ram[t + 8] == h.size[t]
    ensures t in h.size ==> t + 4 in ram && ram[t + 4] == if t + 44 in h.live then 0 else t + 44
  {
    hide Tiled, SmallSlots, LiveSlots, PageLists, BigChain, ListsIn, ChainIn, SkipOk, Bounded;
    if t in h.bin { assert PageAt(ram, t, h.bin[t], h.cells[t]); }
    if t in h.size { assert BlockIn(ram, h.size, h.free, t); }
  }

  lemma NullNotTile(h: Heap)
    requires Inv(h)
    ensures 0 !in h.bin && 0 !in h.size
    ensures forall t :: t in h.bin || t in h.size ==> t > 0
  {
    TilesApart(h);
  }

  /** Level i of the skip list: the free blocks whose height is at least i; on level 0, all
      of them. */
  lemma SkipLevelHolds(ram: Ram, binHead: seq<int>, level: int, newestBig: int, height: map<int, int>, h: Heap, i: int, x: int)
    requires Inv(h) && Repr(ram, binHead, level, newestBig, height, h) && 0 <= i <= 6 && x != 0
    ensures h.root + 16 + 4 * i in ram
    ensures Visits(ram, ram[h.root + 16 + 4 * i], 16 + 4 * i, x) <==> x in h.free && HeightOf(height, x) >= i
    ensures i == 0 ==>
      (Visits(ram, ram[h.root + 16 + 4 * i], 16 + 4 * i, x) <==> x in h.size && x + 44 !in h.live)
    ensures i > level ==> ram[h.root + 16 + 4 * i] == 0
  {
    var list := Level(h.free, height, i);
    assert Linked(ram, h.root, i, list);
    NullNotTile(h);
    LevelThreaded(ram, h.root, i, h.free, height);
    VisitsList(ram, list, FORWARD + 4 * i, x);
    LevelMember(h.free, height, i, x);
    assert ([h.root] + list)[0] == h.root;
    if i > level { LevelEmpty(h.free, height, i); }
  }

  lemma LevelThreaded(ram: Ram, root: int, i: int, free: seq<int>, height: map<int, int>)
    requires Linked(ram, root, i, Level(free, height, i)) && 0 !in free
    ensures Threaded(ram, Level(free, height, i), FORWARD + 4 * i)
  {
    hide Level, HeightOf;
    var list := Level(free, height, i);
    forall k | 0 <= k < |list|
      ensures list[k] != 0 && list[k] + (FORWARD + 4 * i) in ram && ram[list[k] + (FORWARD + 4 * i)] == At(list, k + 1)
    {
      var x := list[k];
      assert x in list;
      LevelMember(free, height, i, x);
      assert ([root] + list)[k + 1] == x;
    }
  }

  function Reverse(s: seq<int>): seq<int> { seq(|s|, i requires 0 <= i < |s| => s[|s| - 1 - i]) }

  /** From the newest big block, `prev` leads to every big block ever made, always downwards,
      and `next` and `prev` undo each other. */
  lemma PrevChainHolds(ram: Ram, binHead: seq<int>, level: int, newestBig: int, height: map<int, int>, h: Heap, x: int)
    requires Inv(h) && Repr(ram, binHead, level, newestBig, height, h) && x != 0
    ensures Visits(ram, newestBig, 12, x) <==> x in h.size
    ensures Follow(ram, newestBig, 12, |h.bigs|) == 0
    ensures x in h.size ==> x + 12 in ram && ram[x + 12] < x
    ensures x in h.size && ram[x + 12] != 0 ==> ram[x + 12] in ram && ram[ram[x + 12]] == x
    ensures x in h.size ==> x in ram && (ram[x] != 0 ==> ram[x] + 12 in ram && ram[ram[x] + 12] == x)
  {
    hide Tiled, SmallSlots, BigSlots, LiveSlots, PageLists, FreeList, PagesIn, ListsIn, BlocksIn, SkipOk, Bounded, Visits, Follow;
    NullNotTile(h);
    PrevVisits(ram, newestBig, h.bigs, x);
    if x in h.size {
      assert x in h.bigs;
      var k :| 0 <= k < |h.bigs| && h.bigs[k] == x;
      PrevStep(ram, newestBig, h, k);
    }
  }

  lemma PrevVisits(ram: Ram, newestBig: int, bigs: seq<int>, x: int)
    requires ChainIn(ram, newestBig, bigs) && 0 !in bigs && x != 0
    ensures Visits(ram, newestBig, PREV, x) <==> x in bigs
    ensures Follow(ram, newestBig, PREV, |bigs|) == 0
  {
    PrevThreaded(ram, newestBig, bigs);
    VisitsList(ram, Reverse(bigs), PREV, x);
    ReverseMember(bigs, x);
  }

  lemma PrevStep(ram: Ram, newestBig: int, h: Heap, k: nat)
    requires ChainIn(ram, newestBig, h.bigs) && BigChain(h) && k < |h.bigs| && forall y :: y in h.bigs ==> y > 0
    ensures var x := h.bigs[k];
            && x + PREV in ram && ram[x + PREV] < x
            && (ram[x + PREV] != 0 ==> ram[x + PREV] in ram && ram[ram[x + PREV]] == x)
            && x in ram && (ram[x] != 0 ==> ram[x] + PREV in ram && ram[ram[x] + PREV] == x)
  {
    var x := h.bigs[k];
    assert x in h.bigs && PrevLink(ram, h.bigs, k);
    if k > 0 { assert Link(ram, h.bigs, k - 1); }
    assert Link(ram, h.bigs, k);
    if k + 1 < |h.bigs| { assert PrevLink(ram, h.bigs, k + 1); }
  }

  lemma ReverseMember(s: seq<int>, x: int)
    ensures x in Reverse(s) <==> x in s
  {
    var r := Reverse(s);
    if x in s {
      var k :| 0 <= k < |s| && s[k] == x;
      assert r[|s| - 1 - k] == x;
    }
  }

  lemma PrevThreaded(ram: Ram, newestBig: int, bigs: seq<int>)
    requires ChainIn(ram, newestBig, bigs) && 0 !in bigs
    ensures Threaded(ram, Reverse(bigs), PREV) && newestBig == At(Reverse(bigs), 0)
  {
    var r := Reverse(bigs);
    forall k | 0 <= k < |r| ensures r[k] != 0 && r[k] + PREV in ram && ram[r[k] + PREV] == At(r, k + 1) {
      var x := r[k];
      assert x in bigs && PrevLink(ram, bigs, |bigs| - 1 - k);
    }
  }
}
