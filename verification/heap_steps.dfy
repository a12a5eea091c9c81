/** What `klmalloc` and `klfree` do to the abstract heap, step by step, and why each step
    keeps it well formed. */
module HeapSteps {
  import opened Machine
  import opened HeapModel

  // ---- the steps -------------------------------------------------------------------------

  /** A fresh page for bin `b`, all of its cells free, at the front of the bin's list. */
  function AddPage(h: Heap, b: nat): Heap
    requires b < |h.pages|
  {
    h.(end := h.end + PAGE_SIZE,
       tiles := h.tiles + [h.end],
       bin := h.bin[h.end := b],
       pages := h.pages[b := [h.end] + h.pages[b]],
       cells := h.cells[h.end := AllCells(h.end, b)])
  }

  /** Pop the top cell of the first page of bin `b`; a page left empty leaves the list. */
  function TakeCell(h: Heap, b: nat, n: int): Heap
    requires b < |h.pages| && h.pages[b] != []
    requires h.pages[b][0] in h.cells && h.cells[h.pages[b][0]] != []
  {
    var pg := h.pages[b][0];
    var rest := h.cells[pg][1..];
    h.(cells := h.cells[pg := rest],
       pages := if rest == [] then h.pages[b := h.pages[b][1..]] else h.pages,
       live := h.live[h.cells[pg][0] := n])
  }

  /** Push a cell back; a page that had none free returns to the front of its list. */
  function ReturnCell(h: Heap, p: int): Heap
    requires Page(p) in h.bin && Page(p) in h.cells && 0 <= h.bin[Page(p)] < |h.pages|
  {
    var pg := Page(p);
    var b := h.bin[pg];
    h.(cells := h.cells[pg := [p] + h.cells[pg]],
       pages := if h.cells[pg] == [] then h.pages[b := [pg] + h.pages[b]] else h.pages,
       live := h.live - {p})
  }

  /** Pages needed for a big request: header and payload, and always at least one byte of
      slack. */
  function BlockPages(n: nat): nat { (n + BIG_HEADER) / PAGE_SIZE + 1 }

  /** A fresh block, handed out at once. */
  function AddBlock(h: Heap, n: nat): Heap
  {
    h.(end := h.end + BlockPages(n) * PAGE_SIZE,
       tiles := h.tiles + [h.end],
       size := h.size[h.end := BlockPages(n) * PAGE_SIZE - BIG_HEADER],
       bigs := h.bigs + [h.end],
       live := h.live[h.end + BIG_HEADER := n])
  }

  function TakeBlock(h: Heap, k: nat, n: int): Heap
    requires k < |h.free|
  {
    h.(free := RemoveAt(h.free, k), live := h.live[h.free[k] + BIG_HEADER := n])
  }

  /** A freed block goes before the first block that is at least as big. */
  function ReturnBlock(h: Heap, p: int): Heap
  {
    var x := Page(p);
    h.(free := InsertAt(h.free, Cut(h.free, h.size, SizeOf(h.size, x)), x), live := h.live - {p})
  }

  // ---- slots -----------------------------------------------------------------------------

  lemma SlotPage(h: Heap, p: int)
    requires Regions(h) && Apart(h) && Slot(h.bin, h.size, p)
    ensures p % 4 == 0 && Page(p) + SMALL_HEADER <= p
    ensures Page(p) in h.size ==> p == Page(p) + BIG_HEADER
    ensures p + Room(h.bin, h.size, p) <= Page(p) + Extent(h.size, Page(p))
    ensures Room(h.bin, h.size, p) % 4 == 0 && Room(h.bin, h.size, p) >= 4
  {
    if Page(p) in h.bin {
      CellSizes(h.bin[Page(p)]);
      CellInPage(Page(p), h.bin[Page(p)], p);
    } else {
      PayloadAligned(Page(p), h.size[Page(p)]);
    }
  }

  lemma PayloadAligned(x: int, size: int)
    requires x % PAGE_SIZE == 0 && (size + BIG_HEADER) % PAGE_SIZE == 0
    ensures (x + BIG_HEADER) % 4 == 0 && size % 4 == 0
  {
    var j, k := x / PAGE_SIZE, (size + BIG_HEADER) / PAGE_SIZE;
    assert x + BIG_HEADER == 4 * (1024 * j + 11);
    assert size == 4 * (1024 * k - 11);
  }

  lemma CellIsSlot(h: Heap, pg: int, c: int)
    requires Regions(h) && Apart(h) && pg in h.bin && c in AllCells(pg, h.bin[pg])
    ensures Page(c) == pg && Slot(h.bin, h.size, c) && Room(h.bin, h.size, c) == CellSize(h.bin[pg])
  {
    CellInPage(pg, h.bin[pg], c);
  }

  lemma BlockIsSlot(h: Heap, x: int)
    requires Regions(h) && Apart(h) && x in h.size
    ensures Page(x + BIG_HEADER) == x && Slot(h.bin, h.size, x + BIG_HEADER) && Room(h.bin, h.size, x + BIG_HEADER) == h.size[x]
  {}

  // ---- each step keeps the heap well formed ------------------------------------------------

  /** A tile put at the break extends the cover. */
  lemma ExtendTiled(h: Heap, h': Heap, len: int)
    requires Tiled(h) && Regions(h') && h'.root == h.root && h'.start == h.start
    requires h'.tiles == h.tiles + [h.end] && h'.end == h.end + len
    requires len >= PAGE_SIZE && len % PAGE_SIZE == 0 && Extent(h'.size, h.end) == len
    requires forall t :: t in h.tiles ==> Extent(h'.size, t) == Extent(h.size, t)
    ensures Tiled(h') && Apart(h')
  {
    forall i | 0 <= i < |h'.tiles| ensures EndsAtNext(h'.tiles, h'.size, h'.end, i) {
      if i < |h.tiles| {
        assert EndsAtNext(h.tiles, h.size, h.end, i);
        assert h.tiles[i] in h.tiles;
      }
    }
    assert Tiled(h');
    hide Tiled, Regions;
    TilesApart(h');
  }

  lemma AddPageTiled(h: Heap, b: nat)
    requires Tiled(h) && b < BIG_BIN && |h.pages| == BIG_BIN && h.end + PAGE_SIZE < ADDRESS_SPACE
    ensures Tiled(AddPage(h, b)) && Apart(AddPage(h, b)) && Apart(h)
    ensures h.end !in h.bin && h.end !in h.size
  {
    TilesApart(h);
    ExtendTiled(h, AddPage(h, b), PAGE_SIZE);
  }

  lemma DistinctCons(x: int, s: seq<int>)
    requires Distinct(s) && x !in s
    ensures Distinct([x] + s)
  {}

  lemma DistinctTail(s: seq<int>)
    requires Distinct(s) && s != []
    ensures Distinct(s[1..]) && s[0] !in s[1..]
    ensures forall x :: x in s <==> x == s[0] || x in s[1..]
  {
    assert s == [s[0]] + s[1..];
  }

  lemma AddPageSlots(h: Heap, b: nat)
    requires Inv(h) && b < BIG_BIN && h.end + PAGE_SIZE < ADDRESS_SPACE
    ensures Regions(AddPage(h, b)) && SmallSlots(AddPage(h, b)) && BigSlots(AddPage(h, b)) && LiveSlots(AddPage(h, b))
  {
    AddPageTiled(h, b);
    AllCellsDistinct(h.end, b);
    forall c | c in AllCells(h.end, b) ensures c !in h.live {
      CellInPage(h.end, b, c);
    }
  }

  lemma AddPageKeeps(h: Heap, b: nat)
    requires Inv(h) && b < BIG_BIN && h.end + PAGE_SIZE < ADDRESS_SPACE
    ensures Inv(AddPage(h, b))
  {
    AddPageTiled(h, b);
    AddPageSlots(h, b);
    DistinctCons(h.end, h.pages[b]);
    CellSizes(b);
    assert PageLists(AddPage(h, b));
  }

  /** The cell on top of the first page's stack: a free slot of bin `b`. */
  lemma TopCell(h: Heap, b: nat) returns (pg: int, c: int)
    requires Inv(h) && b < BIG_BIN && h.pages[b] != []
    ensures pg == h.pages[b][0] && pg in h.bin && h.bin[pg] == b && h.cells[pg] != [] && c == h.cells[pg][0]
    ensures c in AllCells(pg, b) && c !in h.live && Slot(h.bin, h.size, c) && Page(c) == pg && Room(h.bin, h.size, c) == CellSize(b)
    ensures Apart(h)
  {
    TilesApart(h);
    pg := h.pages[b][0];
    assert pg in h.pages[b];
    c := h.cells[pg][0];
    assert c in h.cells[pg];
    CellIsSlot(h, pg, c);
  }

  /** The slot `c` of page `pg` is no cell of another page and no block's payload. */
  lemma OwnSlot(h: Heap, c: int)
    requires Regions(h) && Apart(h) && Slot(h.bin, h.size, c)
    ensures forall q, d :: q in h.bin && d in AllCells(q, h.bin[q]) && q != Page(c) ==> d != c
    ensures forall x :: x in h.size && x != Page(c) ==> x + BIG_HEADER != c
    ensures Page(c) in h.bin ==> forall x :: x in h.size ==> x + BIG_HEADER != c
  {
    forall q, d | q in h.bin && d in AllCells(q, h.bin[q]) && q != Page(c) ensures d != c {
      CellIsSlot(h, q, d);
    }
    forall x | x in h.size ensures Page(x + BIG_HEADER) == x {
      BlockIsSlot(h, x);
    }
  }

  lemma TakeCellSlots(h: Heap, b: nat, n: int)
    requires Inv(h) && b < BIG_BIN && h.pages[b] != [] && 1 <= n <= CellSize(b)
    ensures h.pages[b][0] in h.cells && h.cells[h.pages[b][0]] != []
    ensures SmallSlots(TakeCell(h, b, n)) && BigSlots(TakeCell(h, b, n)) && LiveSlots(TakeCell(h, b, n))
  {
    var pg, c := TopCell(h, b);
    DistinctTail(h.cells[pg]);
    OwnSlot(h, c);
  }

  lemma TakeCellKeeps(h: Heap, b: nat, n: int)
    requires Inv(h) && b < BIG_BIN && h.pages[b] != [] && 1 <= n <= CellSize(b)
    ensures h.pages[b][0] in h.cells && h.cells[h.pages[b][0]] != []
    ensures Inv(TakeCell(h, b, n))
  {
    TakeCellSlots(h, b, n);
    DistinctTail(h.pages[b]);
    assert PageLists(TakeCell(h, b, n));
  }

  lemma ReturnCellKeeps(h: Heap, p: int)
    requires Inv(h) && p in h.live && Page(p) in h.bin
    ensures Inv(ReturnCell(h, p))
  {
    hide BigSlots, LiveSlots, Apart, Slot, Room;
    TilesApart(h);
    ReturnCellSlots(h, p);
    var pg := Page(p);
    if h.cells[pg] == [] { DistinctCons(pg, h.pages[h.bin[pg]]); }
    assert PageLists(ReturnCell(h, p));
  }

  lemma ReturnCellSlots(h: Heap, p: int)
    requires Inv(h) && Apart(h) && p in h.live && Page(p) in h.bin
    ensures SmallSlots(ReturnCell(h, p)) && BigSlots(ReturnCell(h, p)) && LiveSlots(ReturnCell(h, p))
  {
    var pg := Page(p);
    DistinctCons(p, h.cells[pg]);
    OwnSlot(h, p);
  }

  lemma BlockFits(n: nat)
    ensures BlockPages(n) * PAGE_SIZE >= PAGE_SIZE && (BlockPages(n) * PAGE_SIZE) % PAGE_SIZE == 0
    ensures n < BlockPages(n) * PAGE_SIZE - BIG_HEADER <= n + PAGE_SIZE
  {}

  lemma AddBlockTiled(h: Heap, n: nat)
    requires Tiled(h) && h.end + BlockPages(n) * PAGE_SIZE < ADDRESS_SPACE
    ensures Tiled(AddBlock(h, n)) && Apart(AddBlock(h, n)) && Apart(h)
    ensures h.end !in h.bin && h.end !in h.size
  {
    TilesApart(h);
    BlockFits(n);
    ExtendTiled(h, AddBlock(h, n), BlockPages(n) * PAGE_SIZE);
  }

  lemma AddBlockSlots(h: Heap, n: nat)
    requires Inv(h) && n > 0 && h.end + BlockPages(n) * PAGE_SIZE < ADDRESS_SPACE
    ensures Regions(AddBlock(h, n)) && SmallSlots(AddBlock(h, n)) && BigSlots(AddBlock(h, n)) && LiveSlots(AddBlock(h, n))
  {
    AddBlockTiled(h, n);
    BlockFits(n);
    BlockIsSlot(AddBlock(h, n), h.end);
    OwnSlot(AddBlock(h, n), h.end + BIG_HEADER);
    BlockAdded(h, h.end, AddBlock(h, n));
  }

  lemma BlockAdded(h: Heap, x: int, h': Heap)
    requires Regions(h) && SmallSlots(h) && BigSlots(h) && LiveSlots(h) && Regions(h')
    requires h' == h.(end := h'.end, tiles := h'.tiles, size := h'.size, bigs := h'.bigs, live := h'.live)
    requires x !in h.bin && x !in h.size && h'.size.Keys == h.size.Keys + {x}
    requires forall y :: y in h.size ==> h'.size[y] == h.size[y]
    requires h'.live.Keys == h.live.Keys + {x + BIG_HEADER}
    requires forall q :: q in h.live && q != x + BIG_HEADER ==> h'.live[q] == h.live[q]
    requires Slot(h'.bin, h'.size, x + BIG_HEADER) && 1 <= h'.live[x + BIG_HEADER] <= Room(h'.bin, h'.size, x + BIG_HEADER)
    requires forall q, d :: q in h.bin && d in AllCells(q, h.bin[q]) ==> d != x + BIG_HEADER
    ensures SmallSlots(h') && BigSlots(h') && LiveSlots(h')
  {
    hide AllCells;
  }

  lemma AddBlockKeeps(h: Heap, n: nat)
    requires Inv(h) && n > 0 && h.end + BlockPages(n) * PAGE_SIZE < ADDRESS_SPACE
    ensures Inv(AddBlock(h, n))
  {
    AddBlockTiled(h, n);
    AddBlockSlots(h, n);
    assert forall i :: 0 <= i < |h.bigs| ==> h.bigs[i] in h.bigs;
    assert BigChain(AddBlock(h, n));
    assert forall i :: 0 <= i < |h.free| ==> h.free[i] in h.free;
    assert FreeList(AddBlock(h, n));
  }

  lemma TakeBlockSlots(h: Heap, k: nat, n: int)
    requires Inv(h) && k < |h.free| && 1 <= n <= SizeOf(h.size, h.free[k])
    ensures SmallSlots(TakeBlock(h, k, n)) && BigSlots(TakeBlock(h, k, n)) && LiveSlots(TakeBlock(h, k, n))
  {
    TilesApart(h);
    var x := h.free[k];
    assert x in h.free;
    BlockIsSlot(h, x);
    OwnSlot(h, x + BIG_HEADER);
    RemoveAtDistinct(h.free, k);
    BlockTaken(h, k, x, TakeBlock(h, k, n));
  }

  lemma BlockTaken(h: Heap, k: nat, x: int, h': Heap)
    requires Regions(h) && SmallSlots(h) && BigSlots(h) && LiveSlots(h) && x in h.size
    requires h' == h.(free := h'.free, live := h'.live)
    requires forall y :: y in h'.free <==> y in h.free && y != x
    requires h'.live.Keys == h.live.Keys + {x + BIG_HEADER} && forall q :: q in h.live && q != x + BIG_HEADER ==> h'.live[q] == h.live[q]
    requires Slot(h.bin, h.size, x + BIG_HEADER) && 1 <= h'.live[x + BIG_HEADER] <= Room(h.bin, h.size, x + BIG_HEADER)
    requires forall q, d :: q in h.bin && d in AllCells(q, h.bin[q]) ==> d != x + BIG_HEADER
    ensures SmallSlots(h') && BigSlots(h') && LiveSlots(h')
  {
    hide Slot, Room, AllCells;
  }

  lemma TakeBlockKeeps(h: Heap, k: nat, n: int)
    requires Inv(h) && k < |h.free| && 1 <= n <= SizeOf(h.size, h.free[k])
    ensures Inv(TakeBlock(h, k, n))
  {
    TakeBlockSlots(h, k, n);
    RemoveAtDistinct(h.free, k);
    assert FreeList(TakeBlock(h, k, n));
  }

  lemma RemoveAtDistinct(s: seq<int>, k: nat)
    requires Distinct(s) && k < |s|
    ensures Distinct(RemoveAt(s, k))
    ensures forall x :: x in RemoveAt(s, k) <==> x in s && x != s[k]
  {
    var r := RemoveAt(s, k);
    assert forall i :: 0 <= i < |r| ==> r[i] == s[if i < k then i else i + 1];
    forall x | x in s && x != s[k] ensures x in r {
      var i :| 0 <= i < |s| && s[i] == x;
      assert r[if i < k then i else i - 1] == x;
    }
  }

  lemma InsertAtDistinct(s: seq<int>, k: nat, x: int)
    requires Distinct(s) && k <= |s| && x !in s
    ensures Distinct(InsertAt(s, k, x))
    ensures forall y :: y in InsertAt(s, k, x) <==> y in s || y == x
  {
    var r := InsertAt(s, k, x);
    assert r == s[..k] + [x] + s[k..];
    assert s == s[..k] + s[k..];
  }

  lemma ReturnBlockSlots(h: Heap, x: int, h': Heap)
    requires Inv(h) && x in h.size && x + BIG_HEADER in h.live
    requires h' == h.(free := h'.free, live := h.live - {x + BIG_HEADER})
    requires forall y :: y in h'.free <==> y in h.free || y == x
    ensures SmallSlots(h') && BigSlots(h') && LiveSlots(h')
  {
    TilesApart(h);
    BlockIsSlot(h, x);
    OwnSlot(h, x + BIG_HEADER);
  }

  lemma ReturnBlockKeeps(h: Heap, p: int)
    requires Inv(h) && p in h.live && Page(p) in h.size
    ensures Inv(ReturnBlock(h, p))
  {
    TilesApart(h);
    SlotPage(h, p);
    var x := Page(p);
    InsertAtDistinct(h.free, Cut(h.free, h.size, SizeOf(h.size, x)), x);
    InsertAtSorted(h.free, h.size, x);
    ReturnBlockSlots(h, x, ReturnBlock(h, p));
    ReturnBlockRest(h, x, ReturnBlock(h, p));
  }

  /** What a change of free list and live blocks cannot disturb. */
  lemma ReturnBlockRest(h: Heap, x: int, h': Heap)
    requires Tiled(h) && PageLists(h) && BigChain(h) && FreeList(h) && x in h.size
    requires h' == h.(free := h'.free, live := h'.live)
    requires forall y :: y in h'.free <==> y in h.free || y == x
    requires Distinct(h'.free) && Sorted(h'.free, h.size)
    ensures Tiled(h') && PageLists(h') && BigChain(h') && FreeList(h')
  {}

  lemma InsertAtSorted(s: seq<int>, size: map<int, int>, x: int)
    requires Sorted(s, size)
    ensures Sorted(InsertAt(s, Cut(s, size, SizeOf(size, x)), x), size)
  {
    var n := SizeOf(size, x);
    var k := Cut(s, size, n);
    CutSplits(s, size, n);
    var r := InsertAt(s, k, x);
    forall i | 0 <= i < |r|
      ensures i < k ==> r[i] == s[i]
      ensures i > k ==> r[i] == s[i - 1]
    {}
    assert r[k] == x;
  }
}
