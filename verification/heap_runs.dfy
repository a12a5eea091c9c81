/** `malloc`, `free` and `realloc` as functions on the abstract heap, whole client runs, and
    what those runs guarantee. */
module HeapRuns {
  import opened Machine
  import opened HeapModel
  import opened HeapSteps

  // ---- the operations --------------------------------------------------------------------

  /** The big block a request of `n` bytes will get, as an index into the free list. */
  function Fit(h: Heap, n: nat): nat { Cut(h.free, h.size, n) }

  /** Bytes that a request of `n` makes the allocator ask `sbrk` for. */
  function Growth(h: Heap, n: nat): nat
  {
    if n == 0 then 0
    else if BinSize(n) < BIG_BIN then
      if BinSize(n) < |h.pages| && h.pages[BinSize(n)] != [] then 0 else PAGE_SIZE
    else if Fit(h, n) < |h.free| then 0
    else BlockPages(n) * PAGE_SIZE
  }

  /** The break stays below the top of the address space, and the request, rounded to pages,
      is a size. */
  predicate NoWrap(h: Heap, n: nat)
  {
    h.end + Growth(h, n) < ADDRESS_SPACE && BlockPages(n) * PAGE_SIZE < SIZE_LIMIT
  }

  /** The heap that a small request is served from. */
  function Stocked(h: Heap, b: nat): Heap
    requires b < |h.pages|
  {
    if h.pages[b] == [] then AddPage(h, b) else h
  }

  lemma StockedKeeps(h: Heap, n: nat)
    requires Inv(h) && n > 0 && NoWrap(h, n) && BinSize(n) < BIG_BIN
    ensures var h0 := Stocked(h, BinSize(n));
            Inv(h0) && h0.pages[BinSize(n)] != [] && h0.live == h.live && 1 <= n <= CellSize(BinSize(n))
    ensures Stocked(h, BinSize(n)) == h || Stocked(h, BinSize(n)) == AddPage(h, BinSize(n))
  {
    BinSizeIsBest(n);
    if h.pages[BinSize(n)] == [] { AddPageKeeps(h, BinSize(n)); }
  }

  lemma StockTop(h: Heap, b: nat)
    requires Inv(h) && b < BIG_BIN && h.pages[b] != []
    ensures h.pages[b][0] in h.cells && h.cells[h.pages[b][0]] != []
  {
    var pg, c := TopCell(h, b);
  }

  /** The heap after `malloc(n)`, and the pointer returned. */
  function Malloc(h: Heap, n: nat): (r: (Heap, int))
    requires Inv(h) && NoWrap(h, n)
  {
    if n == 0 then (h, 0)
    else
      BinSizeIsBest(n);
      var b := BinSize(n);
      if b < BIG_BIN then
        StockedKeeps(h, n);
        StockTop(Stocked(h, b), b);
        var h0 := Stocked(h, b);
        (TakeCell(h0, b, n), h0.cells[h0.pages[b][0]][0])
      else if Fit(h, n) < |h.free| then
        (TakeBlock(h, Fit(h, n), n), h.free[Fit(h, n)] + BIG_HEADER)
      else
        (AddBlock(h, n), h.end + BIG_HEADER)
  }

  /** The heap after `free(p)`: nothing happens to NULL. */
  function Free(h: Heap, p: int): Heap
    requires Inv(h) && (p == 0 || p in h.live)
  {
    if p == 0 then h else if Page(p) in h.bin then ReturnCell(h, p) else ReturnBlock(h, p)
  }

  /** The `size` word of the header that `p` belongs to: a bin number or a block's payload. */
  function SizeWord(h: Heap, p: int): int
  {
    if Page(p) in h.bin then h.bin[Page(p)] else SizeOf(h.size, Page(p))
  }

  /** Bytes that `realloc` copies when it moves a block. */
  function CopyLength(h: Heap, p: int): int
  {
    if 0 <= SizeWord(h, p) < BIG_BIN then CellSize(SizeWord(h, p)) else SizeWord(h, p)
  }

  predicate Moves(h: Heap, p: int, n: nat) { p != 0 && n > 0 && SizeWord(h, p) < n }

  function Realloc(h: Heap, p: int, n: nat): (Heap, int)
    requires Inv(h) && (p == 0 || p in h.live)
    requires (p == 0 || Moves(h, p, n)) ==> NoWrap(h, n)
  {
    if p == 0 then Malloc(h, n)
    else if n == 0 then (Free(h, p), 0)
    else if SizeWord(h, p) >= n then (h.(live := h.live[p := n]), p)
    else
      MallocKeeps(h, n);
      var (h1, q) := Malloc(h, n);
      (Free(h1, p), q)
  }

  // ---- each operation keeps the heap well formed --------------------------------------------

  /** Pointer `p`, dead before, is live with size `n` after, and it has room for them. */
  ghost predicate Served(h: Heap, h1: Heap, p: int, n: nat)
  {
    && Inv(h1)
    && h1.start == h.start && h1.root == h.root
    && p != 0 && p !in h.live && h1.live == h.live[p := n]
    && Slot(h1.bin, h1.size, p) && n <= Room(h1.bin, h1.size, p)
  }

  lemma ServeCell(h: Heap, b: nat, n: nat)
    requires Inv(h) && b < BIG_BIN && h.pages[b] != [] && 1 <= n <= CellSize(b)
    ensures h.pages[b][0] in h.cells && h.cells[h.pages[b][0]] != []
    ensures Served(h, TakeCell(h, b, n), h.cells[h.pages[b][0]][0], n)
    ensures Room(h.bin, h.size, h.cells[h.pages[b][0]][0]) == CellSize(b)
  {
    var pg, c := TopCell(h, b);
    TakeCellKeeps(h, b, n);
    SlotPage(h, c);
  }

  lemma ServeBlock(h: Heap, k: nat, n: nat)
    requires Inv(h) && k < |h.free| && 1 <= n <= SizeOf(h.size, h.free[k])
    ensures Served(h, TakeBlock(h, k, n), h.free[k] + BIG_HEADER, n)
  {
    var x := h.free[k];
    assert x in h.free;
    TilesApart(h);
    BlockIsSlot(h, x);
    TakeBlockKeeps(h, k, n);
  }

  lemma ServeNewBlock(h: Heap, n: nat)
    requires Inv(h) && n > 0 && h.end + BlockPages(n) * PAGE_SIZE < ADDRESS_SPACE
    ensures Served(h, AddBlock(h, n), h.end + BIG_HEADER, n)
  {
    AddBlockTiled(h, n);
    AddBlockKeeps(h, n);
    BlockFits(n);
    BlockIsSlot(AddBlock(h, n), h.end);
    if h.end + BIG_HEADER in h.live { SlotPage(h, h.end + BIG_HEADER); }
  }

  lemma ServeSmall(h: Heap, n: nat)
    requires Inv(h) && n > 0 && NoWrap(h, n) && BinSize(n) < BIG_BIN
    ensures Served(h, Malloc(h, n).0, Malloc(h, n).1, n)
    ensures Malloc(h, n).0.end == h.end + Growth(h, n)
  {
    StockedKeeps(h, n);
    ServeCell(Stocked(h, BinSize(n)), BinSize(n), n);
  }

  lemma ServeBig(h: Heap, n: nat)
    requires Inv(h) && n > 0 && NoWrap(h, n) && BinSize(n) == BIG_BIN
    ensures Served(h, Malloc(h, n).0, Malloc(h, n).1, n)
    ensures Malloc(h, n).0.end == h.end + Growth(h, n)
  {
    if Fit(h, n) < |h.free| {
      CutSplits(h.free, h.size, n);
      ServeBlock(h, Fit(h, n), n);
    } else {
      ServeNewBlock(h, n);
    }
  }

  /** `malloc` of a positive size makes exactly one free slot live, one big enough, and
      touches no other pointer. */
  lemma MallocKeeps(h: Heap, n: nat)
    requires Inv(h) && NoWrap(h, n)
    ensures Inv(Malloc(h, n).0) && Malloc(h, n).0.end == h.end + Growth(h, n)
    ensures if n == 0 then Malloc(h, n) == (h, 0) else Served(h, Malloc(h, n).0, Malloc(h, n).1, n)
  {
    if n > 0 {
      BinSizeIsBest(n);
      if BinSize(n) < BIG_BIN { ServeSmall(h, n); } else { ServeBig(h, n); }
    }
  }

  lemma FreeKeeps(h: Heap, p: int)
    requires Inv(h) && (p == 0 || p in h.live)
    ensures Inv(Free(h, p)) && Free(h, p).live == h.live - {p}
    ensures Free(h, p).bin == h.bin && Free(h, p).size == h.size && Free(h, p).end == h.end
    ensures p == 0 ==> Free(h, p) == h
  {
    TilesApart(h);
    if 0 in h.live { SlotPage(h, 0); }
    if p != 0 {
      if Page(p) in h.bin { ReturnCellKeeps(h, p); } else { ReturnBlockKeeps(h, p); }
    }
  }

  /** A block whose `size` word covers the request has room for it. */
  lemma StayingFits(h: Heap, p: int, n: nat)
    requires Inv(h) && p in h.live && SizeWord(h, p) >= n > 0
    ensures n <= Room(h.bin, h.size, p)
    ensures Inv(h.(live := h.live[p := n]))
  {
    if Page(p) in h.bin { CellSizes(h.bin[Page(p)]); }
  }

  /** Moving a block makes the new pointer live and the old one dead. */
  lemma MoveKeeps(h: Heap, p: int, n: nat)
    requires Inv(h) && p in h.live && n > 0 && NoWrap(h, n)
    ensures Served(h, Malloc(h, n).0, Malloc(h, n).1, n) && p in Malloc(h, n).0.live
    ensures Inv(Free(Malloc(h, n).0, p))
    ensures Free(Malloc(h, n).0, p).live == (h.live - {p})[Malloc(h, n).1 := n]
  {
    hide Inv, Malloc, Free;
    MallocKeeps(h, n);
    var (h1, q) := Malloc(h, n);
    FreeKeeps(h1, p);
    WithoutThen(h.live, p, q, n);
  }

  lemma WithoutThen(m: map<int, int>, p: int, q: int, n: int)
    requires p != q
    ensures m[q := n] - {p} == (m - {p})[q := n]
  {}

  lemma ReallocKeeps(h: Heap, p: int, n: nat)
    requires Inv(h) && (p == 0 || p in h.live)
    requires (p == 0 || Moves(h, p, n)) ==> NoWrap(h, n)
    ensures Inv(Realloc(h, p, n).0)
    ensures n == 0 ==> Realloc(h, p, n).1 == 0 && Realloc(h, p, n).0.live == h.live - {p}
    ensures n > 0 ==> Realloc(h, p, n).0.live == (h.live - {p})[Realloc(h, p, n).1 := n]
  {
    if p == 0 {
      FreeKeeps(h, 0);
      MallocKeeps(h, n);
    } else if n == 0 {
      FreeKeeps(h, p);
    } else if SizeWord(h, p) >= n {
      StayingFits(h, p, n);
      assert h.live[p := n] == (h.live - {p})[p := n];
    } else {
      MoveKeeps(h, p, n);
    }
  }
}
