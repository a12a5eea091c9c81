/** What the allocator promises its clients, over every run. */
module HeapTheorems {
  import opened Bits
  import opened Machine
  import opened HeapModel
  import opened HeapSteps
  import opened HeapRuns

  // ---- live blocks -------------------------------------------------------------------------

  function HeaderLength(h: Heap, t: int): int { if t in h.size then BIG_HEADER else SMALL_HEADER }

  /** Live blocks are big enough, inside the heap, pairwise disjoint and clear of every
      header. */
  ghost predicate Safe(h: Heap)
  {
    && (forall p :: p in h.live ==> 1 <= h.live[p] <= Room(h.bin, h.size, p))
    && (forall p :: p in h.live ==> h.start <= p && p + Room(h.bin, h.size, p) <= h.end)
    && (forall p, q :: p in h.live && q in h.live && p != q ==>
          p + Room(h.bin, h.size, p) <= q || q + Room(h.bin, h.size, q) <= p)
    && (forall p, t :: p in h.live && t in h.tiles ==>
          p + Room(h.bin, h.size, p) <= t || t + HeaderLength(h, t) <= p)
  }

  /** Any two slots of the heap are disjoint, whether live or free. */
  lemma SlotsApart(h: Heap, p: int, q: int)
    requires Regions(h) && Apart(h) && Slot(h.bin, h.size, p) && Slot(h.bin, h.size, q) && p != q
    ensures p + Room(h.bin, h.size, p) <= q || q + Room(h.bin, h.size, q) <= p
  {
    SlotPage(h, p);
    SlotPage(h, q);
    if Page(p) == Page(q) {
      CellsApart(Page(p), h.bin[Page(p)], p, q);
    }
  }

  lemma SlotClearOfHeader(h: Heap, p: int, t: int)
    requires Regions(h) && Apart(h) && Slot(h.bin, h.size, p) && (t in h.bin || t in h.size)
    ensures p + Room(h.bin, h.size, p) <= t || t + HeaderLength(h, t) <= p
    ensures h.start <= p && p + Room(h.bin, h.size, p) <= h.end
  {
    SlotPage(h, p);
  }

  lemma InvIsSafe(h: Heap)
    requires Inv(h)
    ensures Safe(h)
  {
    TilesApart(h);
    forall p | p in h.live ensures h.start <= p && p + Room(h.bin, h.size, p) <= h.end {
      SlotClearOfHeader(h, p, Page(p));
    }
    forall p, q | p in h.live && q in h.live && p != q
      ensures p + Room(h.bin, h.size, p) <= q || q + Room(h.bin, h.size, q) <= p
    {
      SlotsApart(h, p, q);
    }
    forall p, t | p in h.live && t in h.tiles
      ensures p + Room(h.bin, h.size, p) <= t || t + HeaderLength(h, t) <= p
    {
      SlotClearOfHeader(h, p, t);
    }
  }

  // ---- runs --------------------------------------------------------------------------------

  /** What a client may call; `calloc` takes the same step as `malloc`. */
  datatype Call = CallMalloc(n: nat) | CallFree(p: int) | CallRealloc(p: int, n: nat)

  /** A well-behaved client passes NULL or live pointers, asks for no more than the address
      space holds, and does not shrink a small block through `realloc`. */
  ghost predicate Allowed(h: Heap, c: Call)
  {
    match c
    case CallMalloc(n) => NoWrap(h, n)
    case CallFree(p) => p == 0 || p in h.live
    case CallRealloc(p, n) =>
      && (p == 0 || p in h.live)
      && (p == 0 || Moves(h, p, n) ==> NoWrap(h, n))
      && CopyFits(h, p, n)
  }

  /** The condition under which `realloc` copies no more than the new block holds. */
  predicate CopyFits(h: Heap, p: int, n: nat)
  {
    Moves(h, p, n) && Page(p) in h.bin ==> h.bin[Page(p)] <= BinSize(n)
  }

  ghost function Step(h: Heap, c: Call): Heap
    requires Inv(h) && Allowed(h, c)
  {
    match c
    case CallMalloc(n) => Malloc(h, n).0
    case CallFree(p) => Free(h, p)
    case CallRealloc(p, n) => Realloc(h, p, n).0
  }

  lemma StepKeeps(h: Heap, c: Call)
    requires Inv(h) && Allowed(h, c)
    ensures Inv(Step(h, c))
  {
    match c
    case CallMalloc(n) => MallocKeeps(h, n);
    case CallFree(p) => FreeKeeps(h, p);
    case CallRealloc(p, n) => ReallocKeeps(h, p, n);
  }

  ghost predicate Behaved(h: Heap, calls: seq<Call>)
    requires Inv(h)
    decreases |calls|
  {
    calls == [] ||
    (Allowed(h, calls[0]) && (StepKeeps(h, calls[0]); Behaved(Step(h, calls[0]), calls[1..])))
  }

  ghost function Run(h: Heap, calls: seq<Call>): Heap
    requires Inv(h) && Behaved(h, calls)
    decreases |calls|
  {
    if calls == [] then h
    else
      StepKeeps(h, calls[0]);
      Run(Step(h, calls[0]), calls[1..])
  }

  function EmptyHeap(root: int, start: int): Heap
  {
    Heap(root, start, start, [], map[], map[], [], seq(BIG_BIN, i => []), map[], [], map[])
  }

  lemma EmptyHeapInv(root: int, start: int)
    requires 0 < root && root % 4 == 0 && root + BIG_HEADER <= start < ADDRESS_SPACE && start % PAGE_SIZE == 0
    ensures Inv(EmptyHeap(root, start))
  {}

  /** Over every run of a well-behaved client, live blocks are disjoint and safe. */
  lemma {:induction false} RunSafe(h: Heap, calls: seq<Call>)
    requires Inv(h) && Behaved(h, calls)
    ensures Inv(Run(h, calls)) && Safe(Run(h, calls))
    decreases |calls|
  {
    if calls == [] {
      InvIsSafe(h);
    } else {
      StepKeeps(h, calls[0]);
      RunSafe(Step(h, calls[0]), calls[1..]);
    }
  }

  /** Sizes of blocks that are positive as signed words, so that the comparisons of the skip
      list mean what they do here. */
  ghost predicate Narrow(h: Heap)
  {
    forall x :: x in h.size ==> 0 < h.size[x] < SIZE_LIMIT
  }

  lemma {:induction false} RunNarrow(h: Heap, calls: seq<Call>)
    requires Inv(h) && Narrow(h) && Behaved(h, calls)
    ensures Narrow(Run(h, calls))
    decreases |calls|
  {
    if calls != [] {
      StepKeeps(h, calls[0]);
      StepNarrow(h, calls[0]);
      RunNarrow(Step(h, calls[0]), calls[1..]);
    }
  }

  lemma StepNarrow(h: Heap, c: Call)
    requires Inv(h) && Narrow(h) && Allowed(h, c)
    ensures Narrow(Step(h, c))
  {
    hide Inv;
    match c
    case CallMalloc(n) => MallocNarrow(h, n);
    case CallFree(p) => FreeKeeps(h, p);
    case CallRealloc(p, n) =>
      if p == 0 || Moves(h, p, n) {
        MallocNarrow(h, n);
        if p != 0 { MoveKeeps(h, p, n); FreeKeeps(Malloc(h, n).0, p); }
      } else {
        FreeKeeps(h, p);
      }
  }

  lemma MallocNarrow(h: Heap, n: nat)
    requires Inv(h) && Narrow(h) && NoWrap(h, n)
    ensures Narrow(Malloc(h, n).0)
  {
    BlockFits(n);
  }

  // ---- which block is chosen ---------------------------------------------------------------

  /** A big request gets a smallest free block that is large enough, and grows the heap
      exactly when there is none. */
  lemma BestFit(h: Heap, n: nat)
    requires Inv(h) && n > 2048 && NoWrap(h, n)
    ensures Growth(h, n) == 0 <==> exists x :: x in h.free && h.size[x] >= n
    ensures Growth(h, n) == 0 ==>
      var x := Malloc(h, n).1 - 44;
      x in h.free && h.size[x] >= n && forall y :: y in h.free && h.size[y] >= n ==> h.size[x] <= h.size[y]
    ensures Growth(h, n) > 0 ==> Malloc(h, n).1 == h.end + 44
  {
    hide Malloc, Growth, NoWrap, BinSize, Tiled, SmallSlots, LiveSlots, PageLists, BigChain;
    CellSizes(BIG_BIN - 1);
    BinSizeIsBest(n);
    MallocByBlock(h, n);
    CutSplits(h.free, h.size, n);
    var k := Fit(h, n);
    if k < |h.free| {
      var x := h.free[k];
      assert x in h.free && h.size[x] >= n;
      forall y | y in h.free && h.size[y] >= n ensures h.size[x] <= h.size[y] {
        var j :| 0 <= j < |h.free| && h.free[j] == y;
        assert SizeOf(h.size, h.free[k]) <= SizeOf(h.size, h.free[j]);
      }
    } else {
      forall y | y in h.free ensures h.size[y] < n {
        var j :| 0 <= j < |h.free| && h.free[j] == y;
      }
      BlockFits(n);
    }
  }

  // ---- reuse -------------------------------------------------------------------------------

  lemma ReuseCell(h: Heap, b: nat, n: nat)
    requires Inv(h) && b < BIG_BIN && h.pages[b] != [] && 1 <= n <= CellSize(b)
    ensures h.pages[b][0] in h.cells && h.cells[h.pages[b][0]] != []
    ensures var c := h.cells[h.pages[b][0]][0];
            Page(c) in h.bin && h.bin[Page(c)] == b && Page(c) in h.cells
            && ReturnCell(TakeCell(h, b, n), c) == h
  {
    var pg, c := TopCell(h, b);
    var h1 := TakeCell(h, b, n);
    var h2 := ReturnCell(h1, c);
    assert h2.cells[pg] == [c] + h.cells[pg][1..] == h.cells[pg];
    assert h2.cells == h.cells;
    assert h.pages[b] == [pg] + h.pages[b][1..];
    assert h2.pages == h.pages;
    assert h2.live == h.live;
  }

  /** A block taken from a sorted list goes back to the place it came from. */
  lemma ReinsertRestores(s: seq<int>, size: map<int, int>, n: int)
    requires Sorted(s, size) && Cut(s, size, n) < |s|
    ensures var k := Cut(s, size, n);
            Cut(RemoveAt(s, k), size, SizeOf(size, s[k])) == k && InsertAt(RemoveAt(s, k), k, s[k]) == s
  {
    var k := Cut(s, size, n);
    CutSplits(s, size, n);
    var rest := RemoveAt(s, k);
    assert forall i :: 0 <= i < k ==> rest[i] == s[i];
    assert k < |rest| ==> rest[k] == s[k + 1];
    CutIs(rest, size, SizeOf(size, s[k]), k);
    RemoveInsert(s, k);
  }

  lemma RemoveInsert(s: seq<int>, k: nat)
    requires k < |s|
    ensures InsertAt(RemoveAt(s, k), k, s[k]) == s
  {
    var rest := RemoveAt(s, k);
    assert rest[..k] == s[..k] && rest[k..] == s[k + 1..];
    assert s == s[..k] + [s[k]] + s[k + 1..];
  }

  lemma PutAndRemove(m: map<int, int>, k: int, v: int)
    requires k !in m
    ensures m[k := v] - {k} == m
  {}

  /** Freeing a block puts it back where it was taken from. */
  lemma ReuseBlock(h: Heap, n: nat)
    requires Inv(h) && Fit(h, n) < |h.free|
    ensures h.free[Fit(h, n)] in h.free
    ensures var x := h.free[Fit(h, n)];
            Page(x + BIG_HEADER) == x && ReturnBlock(TakeBlock(h, Fit(h, n), n), x + BIG_HEADER) == h
  {
    var x := h.free[Fit(h, n)];
    FreeIsDead(h, x);
    hide Inv, Cut, InsertAt, RemoveAt, Sorted, Page;
    ReinsertRestores(h.free, h.size, n);
    PutAndRemove(h.live, x + BIG_HEADER, n);
    var h2 := ReturnBlock(TakeBlock(h, Fit(h, n), n), x + BIG_HEADER);
    assert h2.free == h.free && h2.live == h.live;
  }

  lemma FreeIsDead(h: Heap, x: int)
    requires Inv(h) && x in h.free
    ensures Page(x + BIG_HEADER) == x && x in h.size && x !in h.bin && x + BIG_HEADER !in h.live && Sorted(h.free, h.size)
  {
    TilesApart(h);
    BlockIsSlot(h, x);
  }

  /** The cut is where small turns to large. */
  lemma {:induction false} CutIs(s: seq<int>, size: map<int, int>, n: int, k: nat)
    requires k <= |s|
    requires forall i :: 0 <= i < k ==> SizeOf(size, s[i]) < n
    requires k < |s| ==> SizeOf(size, s[k]) >= n
    ensures Cut(s, size, n) == k
  {
    if k > 0 { CutIs(s[1..], size, n, k - 1); }
  }

  /** Freeing what `malloc` just returned makes it what the next `malloc` returns, and
      restores the heap if it had not grown. */
  ghost predicate Reuses(h: Heap, n: nat)
    requires Inv(h) && n > 0 && NoWrap(h, n)
  {
    var (h1, p) := Malloc(h, n);
    && Inv(h1) && p in h1.live && Inv(Free(h1, p)) && Growth(Free(h1, p), n) == 0
    && Malloc(Free(h1, p), n).1 == p
    && (Growth(h, n) == 0 ==> Free(h1, p) == h)
  }

  /** After `p = malloc(n); free(p)`, the next `malloc(n)` returns `p` again; and the pair
      restores the heap whenever it was served without growing. */
  lemma MallocFreeMalloc(h: Heap, n: nat)
    requires Inv(h) && n > 0 && NoWrap(h, n)
    ensures Reuses(h, n)
  {
    BinSizeIsBest(n);
    if BinSize(n) < BIG_BIN {
      MallocFreeSmall(h, n);
    } else if Fit(h, n) < |h.free| {
      MallocFreeFit(h, n);
    } else {
      MallocFreeNew(h, n);
    }
  }

  lemma MallocFreeSmall(h: Heap, n: nat)
    requires Inv(h) && n > 0 && NoWrap(h, n) && BinSize(n) < BIG_BIN
    ensures Reuses(h, n)
  {
    MallocKeeps(h, n);
    var (h1, p) := Malloc(h, n);
    FreeKeeps(h1, p);
    StockedKeeps(h, n);
    ReuseCell(Stocked(h, BinSize(n)), BinSize(n), n);
    hide Tiled, SmallSlots, BigSlots, LiveSlots, FreeList, BigChain, BinSize, AllCells;
    assert Free(h1, p) == Stocked(h, BinSize(n));
  }

  lemma MallocFreeFit(h: Heap, n: nat)
    requires Inv(h) && n > 0 && NoWrap(h, n) && BinSize(n) == BIG_BIN && Fit(h, n) < |h.free|
    ensures Reuses(h, n)
  {
    MallocKeeps(h, n);
    var (h1, p) := Malloc(h, n);
    FreeKeeps(h1, p);
    ReuseBlock(h, n);
    FreeIsDead(h, h.free[Fit(h, n)]);
    MallocByBlock(h, n);
    hide Inv, TakeBlock, ReturnBlock, HeapRuns.Malloc;
    assert Free(h1, p) == h;
  }

  lemma MallocFreeNew(h: Heap, n: nat)
    requires Inv(h) && n > 0 && NoWrap(h, n) && BinSize(n) == BIG_BIN && Fit(h, n) == |h.free|
    ensures Reuses(h, n)
  {
    MallocKeeps(h, n);
    var (h1, p) := Malloc(h, n);
    FreeKeeps(h1, p);
    ReuseNewBlock(h, n);
    BreakIsFresh(h);
    MallocByBlock(h, n);
    hide Inv, AddBlock, ReturnBlock;
    assert Free(h1, p) == ReturnBlock(h1, p);
    MallocByBlock(Free(h1, p), n);
  }

  /** Where a big request is served from. */
  lemma MallocByBlock(h: Heap, n: nat)
    requires Inv(h) && n > 0 && NoWrap(h, n) && BinSize(n) == BIG_BIN
    ensures Fit(h, n) < |h.free| ==>
      Growth(h, n) == 0 && Malloc(h, n) == (TakeBlock(h, Fit(h, n), n), h.free[Fit(h, n)] + BIG_HEADER)
    ensures Fit(h, n) >= |h.free| ==> Growth(h, n) > 0 && Malloc(h, n) == (AddBlock(h, n), h.end + BIG_HEADER)
  {
    BlockFits(n);
  }

  lemma BreakIsFresh(h: Heap)
    requires Inv(h)
    ensures h.end !in h.bin && h.end !in h.size && h.end !in h.free && Page(h.end + BIG_HEADER) == h.end
  {
    TilesApart(h);
  }

  lemma ReuseNewBlock(h: Heap, n: nat)
    requires Inv(h) && n > 0 && BinSize(n) == BIG_BIN && NoWrap(h, n) && Fit(h, n) == |h.free|
    ensures Inv(AddBlock(h, n)) && Page(h.end + BIG_HEADER) == h.end
    ensures var h2 := ReturnBlock(AddBlock(h, n), h.end + BIG_HEADER);
            h2.free == h.free + [h.end] && Fit(h2, n) == |h.free|
  {
    AddBlockKeeps(h, n);
    BreakIsFresh(h);
    OldSmaller(h, n);
    AllSmaller(h.free, AddBlock(h, n).size, n, h.end);
  }

  lemma OldSmaller(h: Heap, n: nat)
    requires Inv(h) && Fit(h, n) == |h.free|
    ensures forall x :: x in h.free ==> SizeOf(AddBlock(h, n).size, x) < n
    ensures SizeOf(AddBlock(h, n).size, h.end) >= n
  {
    BlockFits(n);
    CutSplits(h.free, h.size, n);
    BreakIsFresh(h);
    forall x | x in h.free ensures SizeOf(AddBlock(h, n).size, x) < n {
      var i :| 0 <= i < |h.free| && h.free[i] == x;
    }
  }

  lemma AllSmaller(s: seq<int>, size: map<int, int>, n: int, x: int)
    requires forall y :: y in s ==> SizeOf(size, y) < n
    requires SizeOf(size, x) >= n
    ensures InsertAt(s, Cut(s, size, SizeOf(size, x)), x) == s + [x]
    ensures Cut(s + [x], size, n) == |s|
  {
    CutIs(s, size, SizeOf(size, x), |s|);
    CutIs(s + [x], size, n, |s|);
  }

  // ---- sizes in figures ----------------------------------------------------------------------

  /** Requests of up to 2048 bytes are served from cells, larger ones with blocks. */
  lemma SmallRequests(n: nat)
    requires n > 0
    ensures BinSize(n) < BIG_BIN <==> n <= 2048
    ensures n <= 4 ==> BinSize(n) == 0
  {
    BinSizeIsBest(n);
    CellSizes(BIG_BIN - 1);
    CellSizes(0);
  }

  /** How many cells a page of each bin has. */
  lemma CellCounts()
    ensures CellCount(0) == 1021 && CellCount(1) == 510 && CellCount(2) == 255 && CellCount(3) == 127 && CellCount(4) == 63
    ensures CellCount(5) == 31 && CellCount(6) == 15 && CellCount(7) == 7 && CellCount(8) == 3 && CellCount(9) == 1
  {
    hide CellSize;
    CellSizes(0); CellSizes(1); CellSizes(2); CellSizes(3); CellSizes(4);
    CellSizes(5); CellSizes(6); CellSizes(7); CellSizes(8); CellSizes(9);
  }

  /** The first pointer of all, if to a cell: 12 bytes into its page. */
  lemma FirstCellPointer(root: int, start: int)
    requires 0 < root && root % 4 == 0 && root + 44 <= start && start % 0x1000 == 0 && start + 0x1000 < 0x1_0000_0000
    ensures Inv(EmptyHeap(root, start)) && NoWrap(EmptyHeap(root, start), 4)
    ensures Malloc(EmptyHeap(root, start), 4).1 == start + 12 && Malloc(EmptyHeap(root, start), 4).0.end == start + 0x1000
  {
    hide BinSize, CellCount, AllCells, Malloc;
    EmptyHeapInv(root, start);
    SmallRequests(4);
    CellCounts();
    FirstOfPage(EmptyHeap(root, start), 0, 4);
  }

  /** ... and if to a block: 44 bytes into it.  A request of 4000 gets all that is left of the
      page behind the header. */
  lemma FirstBlockPointer(root: int, start: int)
    requires 0 < root && root % 4 == 0 && root + 44 <= start && start % 0x1000 == 0 && start + 0x1000 < 0x1_0000_0000
    ensures Inv(EmptyHeap(root, start)) && NoWrap(EmptyHeap(root, start), 4000)
    ensures var (h, p) := Malloc(EmptyHeap(root, start), 4000);
            p == start + 44 && h.end == start + 0x1000 && h.size == map[start := 4052]
  {
    hide BinSize, Malloc;
    EmptyHeapInv(root, start);
    SmallRequests(4000);
    BinSizeIsBest(4000);
    MallocByBlock(EmptyHeap(root, start), 4000);
  }

  /** A small request makes the heap grow, by one page, exactly when no page of its bin has a
      free cell; a big one by as many pages as hold it, its header and at least one byte. */
  lemma GrowthInPages(h: Heap, n: nat)
    requires Inv(h) && n > 0 && NoWrap(h, n)
    ensures n <= 2048 ==>
      (Growth(h, n) == 0 <==> exists pg :: pg in h.bin && h.bin[pg] == BinSize(n) && h.cells[pg] != [])
    ensures n <= 2048 && Growth(h, n) > 0 ==> Growth(h, n) == 0x1000
    ensures n > 2048 && Growth(h, n) > 0 ==>
      Growth(h, n) % 0x1000 == 0 && n + 44 < Growth(h, n) <= n + 44 + 0x1000
  {
    hide BinSize, Tiled, BigSlots, LiveSlots, FreeList, BigChain;
    SmallRequests(n);
    BlockFits(n);
    BinSizeIsBest(n);
    var b := BinSize(n);
    if n <= 2048 {
      if h.pages[b] != [] {
        var pg := h.pages[b][0];
        assert pg in h.pages[b];
      }
      forall pg | pg in h.bin && h.bin[pg] == b && h.cells[pg] != [] ensures h.pages[b] != [] {
        assert pg in h.pages[b];
      }
    }
  }

  // ---- realloc -----------------------------------------------------------------------------

  /** A block stays where it is exactly when its payload is large enough; a cell, exactly when
      the request is not above the number of its bin. */
  lemma ReallocStays(h: Heap, p: int, n: nat)
    requires Inv(h) && p in h.live && n > 0
    ensures p != 0 && (Page(p) in h.bin || Page(p) in h.size)
    ensures Page(p) in h.size ==> (Moves(h, p, n) <==> h.size[Page(p)] < n)
    ensures Page(p) in h.bin ==> (Moves(h, p, n) <==> h.bin[Page(p)] < n)
    ensures Page(p) in h.size && n <= h.size[Page(p)] ==> Realloc(h, p, n) == (h.(live := h.live[p := n]), p)
    ensures Page(p) in h.bin && n <= h.bin[Page(p)] ==> Realloc(h, p, n) == (h.(live := h.live[p := n]), p)
  {
    HeaderRecovery(h, p);
    hide Inv, Malloc, Free;
    NullNotLive(h);
  }

  /** What moves goes to a pointer that was not live, the one that `malloc` would return. */
  lemma ReallocMoves(h: Heap, p: int, n: nat)
    requires Inv(h) && p in h.live && NoWrap(h, n) && n > 0
    requires (Page(p) in h.size && h.size[Page(p)] < n) || (Page(p) in h.bin && h.bin[Page(p)] < n)
    ensures var (h', q) := Realloc(h, p, n);
            q != p && q !in h.live && p !in h'.live && h'.live == (h.live - {p})[q := n] && q == Malloc(h, n).1
  {
    ReallocStays(h, p, n);
    hide Inv, Malloc, Free;
    NullNotLive(h);
    MoveKeeps(h, p, n);
  }

  lemma NullNotLive(h: Heap)
    requires Inv(h)
    ensures 0 !in h.live
  {
    TilesApart(h);
    if 0 in h.live { SlotPage(h, 0); }
  }

  /** `realloc` copies the old block's whole room; that fits the new block exactly when the
      new bin is not a lower one. */
  lemma ReallocCopyFits(h: Heap, p: int, n: nat)
    requires Inv(h) && p in h.live && Moves(h, p, n) && NoWrap(h, n)
    ensures CopyLength(h, p) == Room(h.bin, h.size, p)
    ensures var (h1, q) := Malloc(h, n);
            CopyLength(h, p) <= Room(h1.bin, h1.size, q) <==> CopyFits(h, p, n)
  {
    hide Inv, Malloc, BinSize;
    MallocKeeps(h, n);
    BinSizeIsBest(n);
    var b' := BinSize(n);
    if Page(p) in h.bin {
      LiveBin(h, p);
      CellOrder(h.bin[Page(p)], b');
      if b' < BIG_BIN { MallocCell(h, n); }
    } else {
      LiveBin(h, p);
    }
  }

  lemma LiveBin(h: Heap, p: int)
    requires Inv(h) && p in h.live
    ensures Page(p) in h.bin ==> 0 <= h.bin[Page(p)] < BIG_BIN
    ensures Page(p) !in h.bin ==> SizeOf(h.size, Page(p)) >= BIG_BIN
    ensures CopyLength(h, p) == Room(h.bin, h.size, p)
  {}

  lemma MallocCell(h: Heap, n: nat)
    requires Inv(h) && n > 0 && NoWrap(h, n) && BinSize(n) < BIG_BIN
    ensures Room(Malloc(h, n).0.bin, Malloc(h, n).0.size, Malloc(h, n).1) == CellSize(BinSize(n))
  {
    StockedKeeps(h, n);
    ServeCell(Stocked(h, BinSize(n)), BinSize(n), n);
  }

  lemma CellOrder(b: nat, c: nat)
    requires b < BIG_BIN && c <= BIG_BIN
    ensures c < BIG_BIN ==> (CellSize(b) <= CellSize(c) <==> b <= c)
    ensures CellSize(b) <= CellSize(BIG_BIN - 1)
  {
    CellSizes(b);
    CellSizes(BIG_BIN - 1);
    if c < BIG_BIN { CellSizes(c); }
  }

  /** Serving the first request of a bin that has no page: the page's first cell. */
  lemma FirstOfPage(h: Heap, b: nat, n: nat)
    requires Inv(h) && n > 0 && NoWrap(h, n) && BinSize(n) == b < BIG_BIN && h.pages[b] == [] && CellCount(b) >= 2
    ensures var (h1, c) := Malloc(h, n);
            && Inv(h1) && h1.end == h.end + PAGE_SIZE && c == h.end + SMALL_HEADER && h1.live == h.live[c := n]
            && h1.pages == h.pages[b := [h.end]] && h1.cells == h.cells[h.end := AllCells(h.end, b)[1..]]
            && h1.bin == h.bin[h.end := b] && |h1.pages| == |h.pages| == BIG_BIN
  {
    hide Tiled, SmallSlots, BigSlots, LiveSlots, FreeList, BigChain, BinSize, AllCells, CellCount;
    MallocKeeps(h, n);
    StockedKeeps(h, n);
    FirstTaken(h, b, n);
  }

  lemma FirstTaken(h: Heap, b: nat, n: nat)
    requires b < |h.pages| && h.pages[b] == [] && CellCount(b) >= 2
    ensures var h0 := AddPage(h, b);
            && |h0.pages| == |h.pages| && h0.pages[b] == [h.end] && h.end in h0.cells && h0.cells[h.end] != []
            && h0.cells[h.end][0] == h.end + SMALL_HEADER
            && TakeCell(h0, b, n).pages == h.pages[b := [h.end]]
            && TakeCell(h0, b, n).cells == h.cells[h.end := AllCells(h.end, b)[1..]]
  {
    hide CellCount;
    assert AllCells(h.end, b)[0] == CellAt(h.end, b, 0) == h.end + SMALL_HEADER;
    assert |AllCells(h.end, b)[1..]| >= 1;
  }

  lemma NextOfPage(h: Heap, b: nat, n: nat, pg: int)
    requires Inv(h) && n > 0 && NoWrap(h, n) && BinSize(n) == b < BIG_BIN
    requires h.pages[b] == [pg] && pg in h.cells && |h.cells[pg]| >= 2
    ensures Malloc(h, n) == (h.(cells := h.cells[pg := h.cells[pg][1..]], live := h.live[h.cells[pg][0] := n]), h.cells[pg][0])
    ensures Inv(Malloc(h, n).0)
  {
    hide Tiled, SmallSlots, BigSlots, LiveSlots, FreeList, BigChain, BinSize;
    MallocKeeps(h, n);
  }

  lemma BackToPage(h: Heap, pg: int)
    requires Inv(h) && pg in h.bin && pg + SMALL_HEADER in h.live && pg in h.cells && h.cells[pg] != []
    ensures Free(h, pg + SMALL_HEADER)
         == h.(cells := h.cells[pg := [pg + SMALL_HEADER] + h.cells[pg]], live := h.live - {pg + SMALL_HEADER})
    ensures Inv(Free(h, pg + SMALL_HEADER))
  {
    FreeKeeps(h, pg + SMALL_HEADER);
    TilesApart(h);
    SlotPage(h, pg + SMALL_HEADER);
  }

  lemma RunCons(h: Heap, c: Call, rest: seq<Call>)
    requires Inv(h) && Allowed(h, c) && Inv(Step(h, c)) && Behaved(Step(h, c), rest)
    ensures Behaved(h, [c] + rest) && Run(h, [c] + rest) == Run(Step(h, c), rest)
  {
    assert ([c] + rest)[1..] == rest;
  }

  /** Shrinking through `realloc` can overrun, and destroy what another block holds: after
      three requests and a free, 128 bytes are to be copied to a cell of 8 whose neighbour
      is live. */
  lemma ReallocShrinkOverruns(root: int, start: int) returns (h: Heap, p: int, q: int, r: int)
    requires 0 < root && root % 4 == 0 && root + BIG_HEADER <= start && start % PAGE_SIZE == 0
    requires start + 2 * PAGE_SIZE < ADDRESS_SPACE
    ensures Inv(EmptyHeap(root, start))
    ensures var calls := [CallMalloc(128), CallMalloc(8), CallMalloc(8), CallFree(q)];
            Behaved(EmptyHeap(root, start), calls) && h == Run(EmptyHeap(root, start), calls)
    ensures Inv(h) && p in h.live && r in h.live && p != r && Moves(h, p, 8) && NoWrap(h, 8)
    ensures CopyLength(h, p) == 128 && Room(Malloc(h, 8).0.bin, Malloc(h, 8).0.size, Malloc(h, 8).1) == 8
    ensures Malloc(h, 8).1 == q && r == q + 8 && p + 128 <= q
  {
    var h0 := EmptyHeap(root, start);
    EmptyHeapInv(root, start);
    var h1, h2, h3;
    h1, p, h2, q, h3, r, h := ShrinkSteps(h0);
    ShrinkRun(h0, h1, h2, h3, q, h);
  }

  lemma ShrinkRun(h0: Heap, h1: Heap, h2: Heap, h3: Heap, q: int, h: Heap)
    requires Inv(h0) && NoWrap(h0, 128) && h1 == Malloc(h0, 128).0
    requires Inv(h1) && NoWrap(h1, 8) && h2 == Malloc(h1, 8).0
    requires Inv(h2) && NoWrap(h2, 8) && h3 == Malloc(h2, 8).0
    requires Inv(h3) && q in h3.live && h == Free(h3, q) && Inv(h)
    ensures var calls := [CallMalloc(128), CallMalloc(8), CallMalloc(8), CallFree(q)];
            Behaved(h0, calls) && h == Run(h0, calls)
  {
    hide Malloc, Free, Inv, NoWrap;
    RunCons(h3, CallFree(q), []);
    RunCons(h2, CallMalloc(8), [CallFree(q)]);
    RunCons(h1, CallMalloc(8), [CallMalloc(8), CallFree(q)]);
    RunCons(h0, CallMalloc(128), [CallMalloc(8), CallMalloc(8), CallFree(q)]);
    assert [CallMalloc(8)] + [CallFree(q)] == [CallMalloc(8), CallFree(q)];
    assert [CallMalloc(8)] + [CallMalloc(8), CallFree(q)] == [CallMalloc(8), CallMalloc(8), CallFree(q)];
    assert [CallMalloc(128)] + [CallMalloc(8), CallMalloc(8), CallFree(q)]
        == [CallMalloc(128), CallMalloc(8), CallMalloc(8), CallFree(q)];
  }

  /** The requests one by one: a page for the cells of 128, a page for the cells of 8, and
      the first cell of that page free again. */
  lemma ShrinkSteps(h0: Heap) returns (h1: Heap, p: int, h2: Heap, q: int, h3: Heap, r: int, h: Heap)
    requires Inv(h0) && h0.pages[1] == [] && h0.pages[5] == [] && h0.live == map[] && h0.end + 2 * PAGE_SIZE < ADDRESS_SPACE
    ensures NoWrap(h0, 128) && (h1, p) == Malloc(h0, 128) && Inv(h1)
    ensures NoWrap(h1, 8) && (h2, q) == Malloc(h1, 8) && Inv(h2)
    ensures NoWrap(h2, 8) && (h3, r) == Malloc(h2, 8) && Inv(h3)
    ensures q in h3.live && h == Free(h3, q) && Inv(h)
    ensures p in h.live && r in h.live && p != r && Moves(h, p, 8) && NoWrap(h, 8) && CopyLength(h, p) == 128
    ensures Malloc(h, 8).1 == q && r == q + 8 && p + 128 <= q
    ensures Room(Malloc(h, 8).0.bin, Malloc(h, 8).0.size, q) == 8
  {
    hide Inv, Malloc, Free, BinSize, AllCells;
    BinSizeOf128And8();
    CellSizes(5);
    CellSizes(1);
    var pg := h0.end + PAGE_SIZE;
    BreakPage(h0);
    FirstOfPage(h0, 5, 128);
    h1, p := Malloc(h0, 128).0, Malloc(h0, 128).1;
    FirstOfPage(h1, 1, 8);
    h2, q := Malloc(h1, 8).0, Malloc(h1, 8).1;
    SecondCell(pg, 1);
    NextOfPage(h2, 1, 8, pg);
    h3, r := Malloc(h2, 8).0, Malloc(h2, 8).1;
    BackToPage(h3, pg);
    h := Free(h3, q);
    NextOfPage(h, 1, 8, pg);
  }

  lemma BreakPage(h: Heap)
    requires Inv(h)
    ensures Page(h.end + SMALL_HEADER) == h.end && Page(h.end + PAGE_SIZE + SMALL_HEADER) == h.end + PAGE_SIZE
  {
    PageOf(h.end, 0);
    PageOf(h.end + PAGE_SIZE, 0);
  }

  lemma SecondCell(pg: int, b: nat)
    requires b < BIG_BIN && CellCount(b) >= 3
    ensures |AllCells(pg, b)| == CellCount(b) && AllCells(pg, b)[1..][0] == pg + SMALL_HEADER + CellSize(b)
  {
    assert AllCells(pg, b)[1] == CellAt(pg, b, 1);
  }

  lemma BinSizeOf128And8()
    ensures BinSize(128) == 5 && BinSize(8) == 1
  {
    BinSizeIsBest(128);
    BinSizeIsBest(8);
    CellSizes(0); CellSizes(1); CellSizes(4); CellSizes(5); CellSizes(9);
    if BinSize(128) != 5 {
      CellSizes(BinSize(128));
    }
    if BinSize(8) != 1 {
      CellSizes(BinSize(8));
    }
  }

  // ---- header recovery ---------------------------------------------------------------------

  /** Masking a live pointer gives the header of its own page or block, and the size word
      there tells which of the two it is. */
  lemma HeaderRecovery(h: Heap, p: int)
    requires Inv(h) && p in h.live
    ensures 0 <= p < ADDRESS_SPACE && BitAnd(p, ADDRESS_SPACE - PAGE_SIZE) == Page(p)
    ensures Page(p) in h.bin || Page(p) in h.size
    ensures SizeWord(h, p) > 11 <==> Page(p) in h.size
    ensures Page(p) in h.size ==> p == Page(p) + 44
    ensures Page(p) in h.bin ==> Page(p) + 12 <= p && SizeWord(h, p) <= 9
  {
    InvIsSafe(h);
    TilesApart(h);
    SlotPage(h, p);
    MaskIsPage(p);
  }

  lemma MaskIsPage(p: nat)
    requires p < ADDRESS_SPACE
    ensures BitAnd(p, ADDRESS_SPACE - PAGE_SIZE) == Page(p)
  {
    Pow2Values();
    AndHighMask(p, 12, 20);
  }

  // ---- conservation ------------------------------------------------------------------------

  /** Every cell of a page is either on its free stack or live. */
  lemma CellsConserved(h: Heap, pg: int)
    requires Inv(h) && pg in h.bin
    ensures |h.cells[pg]| + |set p | p in h.live && Page(p) == pg| == CellCount(h.bin[pg])
  {
    PageSlots(h, pg);
    hide Inv, AllCells, Page, Distinct;
    Partition(AllCells(pg, h.bin[pg]), h.cells[pg], set p | p in h.live && Page(p) == pg);
  }

  lemma Partition(all: seq<int>, some: seq<int>, others: set<int>)
    requires Distinct(all) && Distinct(some)
    requires forall x :: x in all <==> x in some || x in others
    requires forall x :: x in some ==> x !in others
    ensures |some| + |others| == |all|
  {
    hide Distinct;
    DistinctSize(all);
    DistinctSize(some);
    var a, b := set x | x in all, set x | x in some;
    assert forall x :: x in a <==> x in all;
    assert forall x :: x in b <==> x in some;
    forall x ensures x in a <==> x in b + others {
      assert x in all <==> x in some || x in others;
    }
    assert a == b + others;
    forall x | x in b ensures x !in others {
      assert x in some;
    }
  }

  /** A cell of a page is free or live, and no other pointer into the page is live. */
  lemma PageSlots(h: Heap, pg: int)
    requires Inv(h) && pg in h.bin
    ensures 0 <= h.bin[pg] && pg in h.cells
    ensures var all := AllCells(pg, h.bin[pg]);
            && Distinct(all) && |all| == CellCount(h.bin[pg]) && Distinct(h.cells[pg])
            && (forall c :: c in h.cells[pg] ==> c in all)
            && (forall c :: c in all ==> Page(c) == pg && (c in h.cells[pg] <==> c !in h.live))
            && (forall p :: p in h.live && Page(p) == pg ==> p in all)
  {
    TilesApart(h);
    AllCellsDistinct(pg, h.bin[pg]);
    forall c | c in AllCells(pg, h.bin[pg]) ensures Page(c) == pg {
      CellInPage(pg, h.bin[pg], c);
    }
  }

  lemma {:induction false} DistinctSize(s: seq<int>)
    requires Distinct(s)
    ensures |set x | x in s| == |s|
  {
    if s != [] {
      var last := |s| - 1;
      DistinctSize(s[..last]);
      assert (set x | x in s) == (set x | x in s[..last]) + {s[last]} by {
        assert s == s[..last] + [s[last]];
      }
    }
  }

  /** Bytes in big blocks, headers included. */
  function BlockBytes(bigs: seq<int>, size: map<int, int>): int
  {
    if bigs == [] then 0 else BlockBytes(bigs[..|bigs| - 1], size) + Extent(size, bigs[|bigs| - 1])
  }

  lemma TilesIncrease(h: Heap)
    requires Tiled(h)
    ensures Increasing(h.tiles)
  {
    forall i, j | 0 <= i < j < |h.tiles| ensures h.tiles[i] < h.tiles[j] {
      TileOrder(h, i, j);
      assert h.tiles[i] in h.tiles;
    }
  }

  /** Pages and blocks account for every byte obtained from `sbrk`. */
  lemma HeapBytes(h: Heap)
    requires Inv(h)
    ensures PAGE_SIZE * |h.bin| + BlockBytes(h.bigs, h.size) == h.end - h.start
  {
    var n := |h.tiles|;
    PrefixBytes(h, n);
    assert SmallTiles(h, n) == h.bin.Keys by {
      assert h.tiles[..n] == h.tiles;
      forall t ensures t in SmallTiles(h, n) <==> t in h.bin {
        assert t in h.bin ==> t in h.tiles;
      }
    }
    assert Blocks(h, n) == h.bigs by {
      TilesIncrease(h);
      BlocksIncrease(h, n);
      assert h.tiles[..n] == h.tiles;
      IncreasingUnique(Blocks(h, n), h.bigs);
    }
  }

  ghost function SmallTiles(h: Heap, n: nat): set<int>
    requires n <= |h.tiles|
  {
    set t | t in h.tiles[..n] && t in h.bin
  }

  function Blocks(h: Heap, n: nat): seq<int>
    requires n <= |h.tiles|
  {
    if n == 0 then []
    else Blocks(h, n - 1) + if h.tiles[n - 1] in h.size then [h.tiles[n - 1]] else []
  }

  /** Bytes in the first n tiles. */
  ghost function TileBytes(h: Heap, n: nat): int
    requires n <= |h.tiles|
  {
    PAGE_SIZE * |SmallTiles(h, n)| + BlockBytes(Blocks(h, n), h.size)
  }

  lemma {:induction false} PrefixBytes(h: Heap, n: nat)
    requires Tiled(h) && n <= |h.tiles|
    ensures TileBytes(h, n) == (if n < |h.tiles| then h.tiles[n] else h.end) - h.start
  {
    if n > 0 {
      PrefixBytes(h, n - 1);
      OneTile(h, n);
      assert EndsAtNext(h.tiles, h.size, h.end, n - 1);
    } else {
      assert SmallTiles(h, 0) == {};
    }
  }

  lemma OneTile(h: Heap, n: nat)
    requires Tiled(h) && 0 < n <= |h.tiles|
    ensures TileBytes(h, n) == TileBytes(h, n - 1) + Extent(h.size, h.tiles[n - 1])
  {
    var t := h.tiles[n - 1];
    assert t in h.tiles;
    assert h.tiles[..n] == h.tiles[..n - 1] + [t];
    FreshTile(h, n - 1);
    hide Tiled;
    if t in h.bin {
      assert SmallTiles(h, n) == SmallTiles(h, n - 1) + {t};
      assert Blocks(h, n) == Blocks(h, n - 1);
    } else {
      assert SmallTiles(h, n) == SmallTiles(h, n - 1);
      BlockBytesGrow(Blocks(h, n - 1), t, h.size);
      assert Blocks(h, n) == Blocks(h, n - 1) + [t];
    }
  }

  lemma BlockBytesGrow(s: seq<int>, t: int, size: map<int, int>)
    ensures BlockBytes(s + [t], size) == BlockBytes(s, size) + Extent(size, t)
  {
    assert (s + [t])[..|s|] == s;
  }

  lemma FreshTile(h: Heap, i: nat)
    requires Tiled(h) && i < |h.tiles|
    ensures h.tiles[i] !in h.tiles[..i]
    ensures h.tiles[i] in h.bin <==> h.tiles[i] !in h.size
  {
    TilesIncrease(h);
  }

  ghost predicate Increasing(s: seq<int>)
  {
    forall i, j :: 0 <= i < j < |s| ==> s[i] < s[j]
  }

  lemma {:induction false} BlocksIncrease(h: Heap, n: nat)
    requires Tiled(h) && n <= |h.tiles| && Increasing(h.tiles)
    ensures Increasing(Blocks(h, n))
    ensures forall t :: t in Blocks(h, n) <==> t in h.tiles[..n] && t in h.size
  {
    if n > 0 {
      BlocksIncrease(h, n - 1);
      var t := h.tiles[n - 1];
      assert h.tiles[..n] == h.tiles[..n - 1] + [t];
      FreshTile(h, n - 1);
      hide Tiled;
      var before := Blocks(h, n - 1);
      forall x | x in before ensures x < t {
        var i :| 0 <= i < n - 1 && h.tiles[..n - 1][i] == x;
      }
      IncreasingAppend(before, t);
    }
  }

  lemma IncreasingAppend(s: seq<int>, t: int)
    requires Increasing(s) && forall x :: x in s ==> x < t
    ensures Increasing(s + [t])
  {
    forall i | 0 <= i < |s| ensures s[i] < t {
      var x := s[i];
      assert x in s;
    }
  }

  lemma {:induction false} IncreasingUnique(s: seq<int>, t: seq<int>)
    requires Increasing(s) && Increasing(t) && forall x :: x in s <==> x in t
    ensures s == t
  {
    if s == [] {
      if t != [] { HasMember(t); }
    } else {
      if t == [] { HasMember(s); }
      hide Increasing;
      LastIsLargest(s);
      LastIsLargest(t);
      var a, b := |s| - 1, |t| - 1;
      assert s[a] == t[b];
      PrefixMembers(s);
      PrefixMembers(t);
      forall x ensures x in s[..a] <==> x in t[..b] {
        assert x in s[..a] <==> x in s && x != s[a];
        assert x in t[..b] <==> x in t && x != t[b];
      }
      assert s == s[..a] + [s[a]] && t == t[..b] + [t[b]];
      IncreasingUnique(s[..a], t[..b]);
    }
  }

  lemma LastIsLargest(s: seq<int>)
    requires Increasing(s) && s != []
    ensures s[|s| - 1] in s && forall x :: x in s ==> x <= s[|s| - 1]
  {}

  lemma HasMember(s: seq<int>)
    requires s != []
    ensures exists x :: x in s
  {
    var x := s[0];
    assert x in s;
  }

  lemma PrefixMembers(s: seq<int>)
    requires Increasing(s) && s != []
    ensures Increasing(s[..|s| - 1])
    ensures forall x :: x in s[..|s| - 1] <==> x in s && x != s[|s| - 1]
  {
    assert s == s[..|s| - 1] + [s[|s| - 1]];
  }
}
