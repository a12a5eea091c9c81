/** `core/alloc.c`: the slab allocator, over the words of memory. */
module Alloc {
  import opened Bits
  import opened KernelC
  import opened Machine
  import opened HeapModel
  import opened HeapSteps
  import opened HeapRuns
  import opened HeapTheorems
  import opened SkipList
  import opened Layout
  import opened LayoutSteps
  import opened PagingModel
  import opened Paging

  const SKIP_P := 0x7FFF_FFFF

  type uint32 = x: int | 0 <= x < 0x1_0000_0000

  datatype Xorshift = Xorshift(x: uint32, y: uint32, z: uint32, w: uint32)

  function Xor32(a: uint32, b: uint32): uint32
  {
    Pow2Values();
    XorBound(a, b, 32);
    BitXor(a, b)
  }

  function Shl32(a: uint32, k: nat): uint32 { (a * Pow2(k)) % 0x1_0000_0000 }

  function Shr32(a: uint32, k: nat): uint32
  {
    QuotientBound(a, Pow2(k));
    a / Pow2(k)
  }

  lemma QuotientBound(a: nat, d: nat)
    requires d >= 1
    ensures 0 <= a / d <= a
  {}

  /** One round of the xor-shift generator; its result is the new `w`. */
  function SkipRand(g: Xorshift): Xorshift
  {
    var t := Xor32(g.x, Shl32(g.x, 11));
    Xorshift(g.y, g.z, g.w, Xor32(Xor32(Xor32(g.w, Shr32(g.w, 19)), t), Shr32(t, 8)))
  }

  /** The generator after `k` rounds. */
  function Draws(g: Xorshift, k: nat): Xorshift { if k == 0 then g else SkipRand(Draws(g, k - 1)) }

  /** The statically zeroed head node of the skip list. */
  function BootRam(root: int): Ram
  {
    map[Forward(root, 0) := 0, Forward(root, 1) := 0, Forward(root, 2) := 0, Forward(root, 3) := 0,
        Forward(root, 4) := 0, Forward(root, 5) := 0, Forward(root, 6) := 0]
  }

  class Allocator {
    const mem: Memory
    const pager: Pager
    const root: int                  // &klmalloc_big_bins.head
    const binHead: array<int>        // klmalloc_bin_head[].first
    var level: int                   // klmalloc_big_bins.level
    var newestBig: int               // klmalloc_newest_big
    var rng: Xorshift                // the four words of klmalloc_skip_rand
    ghost var heap: Heap
    ghost var height: map<int, int>

    ghost predicate Valid()
      reads this, mem, binHead, pager, pager.repr
    {
      && PagerAt(heap.end)
      && Inv(heap) && heap.root == root
      && Repr(mem.ram, binHead[..], level, newestBig, height, heap)
    }

    /** The pager has mapped everything below the break, and shares no object with the
        allocator. */
    ghost predicate PagerAt(end: int)
      reads pager, pager.repr
    {
      && this !in pager.repr && mem !in pager.repr && binHead !in pager.repr
      && pager.HeapReady() && pager.heapEnd == end
    }

    /** The break is within the frames. */
    lemma EndMapped()
      requires Valid()
      ensures heap.end <= pager.Capacity()
    {
      IdentityBound(pager.frames[..], pager.flat, pager.heapEnd / PAGE_SIZE);
    }

    /** After `heap_install`: no bins, no blocks, no heap. */
    constructor (pager: Pager, root: int)
      requires pager.HeapReady()
      requires 0 < root && root % 4 == 0 && root + BIG_HEADER <= pager.heapEnd
      ensures Valid() && this.pager == pager && heap == EmptyHeap(root, pager.heapEnd)
      ensures rng == Xorshift(123456789, 362436069, 521288629, 88675123)
    {
      mem := new Memory(BootRam(root));
      this.pager, this.root := pager, root;
      binHead := new int[BIG_BIN](_ => 0);
      level, newestBig := 0, 0;
      rng := Xorshift(123456789, 362436069, 521288629, 88675123);
      heap, height := EmptyHeap(root, pager.heapEnd), map[];
      new;
      EmptyHeapInv(root, pager.heapEnd);
      BootRepr(root, pager.heapEnd, binHead[..]);
    }

    ghost predicate SkipValid()
      reads this, mem
    {
      SkipOk(mem.ram, root, level, heap.free, height, heap.size)
    }

    /** Toss coins with the generator's low half: some level from 0 to SKIP_MAX_LEVEL. */
    method RandomLevel() returns (newLevel: int)
      modifies this`rng
      ensures 0 <= newLevel <= SKIP_MAX_LEVEL && rng == Draws(old(rng), newLevel + 1)
      ensures forall k :: 1 <= k <= newLevel ==> Draws(old(rng), k).w < 0x7FFF_FFFF
      ensures newLevel < 6 ==> rng.w >= 0x7FFF_FFFF
    {
      hide SkipRand;
      newLevel := 0;
      rng := SkipRand(rng);
      assert Draws(old(rng), 0) == old(rng);
      while rng.w < SKIP_P && newLevel < SKIP_MAX_LEVEL
        invariant 0 <= newLevel <= SKIP_MAX_LEVEL && rng == Draws(old(rng), newLevel + 1)
        invariant forall k :: 1 <= k <= newLevel ==> Draws(old(rng), k).w < SKIP_P
        decreases SKIP_MAX_LEVEL - newLevel
      {
        newLevel := newLevel + 1;
        rng := SkipRand(rng);
      }
    }

    // ---- cells and lists -------------------------------------------------------------------

    method StackPop(header: int) returns (item: int)
      requires header != 0 && header + HEAD in mem.ram && mem.ram[header + HEAD] != 0
      requires mem.ram[header + HEAD] in mem.ram
      modifies mem
      ensures item == old(mem.ram[header + HEAD])
      ensures mem.ram == old(mem.ram[header + HEAD := mem.ram[mem.ram[header + HEAD]]])
    {
      assert header != 0 && mem.ram[header + HEAD] != 0;                  // ASSERT, lines 462-463
      item := mem.ram[header + HEAD];
      var next := mem.ram[item];
      mem.ram := mem.ram[header + HEAD := next];
    }

    method StackPush(header: int, ptr: int)
      requires ptr != 0 && header + HEAD in mem.ram
      modifies mem
      ensures mem.ram == old(mem.ram[ptr := mem.ram[header + HEAD]][header + HEAD := ptr])
    {
      assert ptr != 0;                                                    // ASSERT, line 484
      var item := ptr;
      mem.ram := mem.ram[item := mem.ram[header + HEAD]];
      mem.ram := mem.ram[header + HEAD := item];
    }

    method ListInsert(b: int, node: int)
      requires 0 <= b < binHead.Length
      modifies mem, binHead
      ensures mem.ram == old(mem.ram[node := binHead[b]]) && binHead[..] == old(binHead[..])[b := node]
    {
      mem.ram := mem.ram[node := binHead[b]];
      binHead[b] := node;
    }

    method ListDecouple(b: int, node: int)
      requires 0 <= b < binHead.Length && node in mem.ram
      modifies mem, binHead
      ensures mem.ram == old(mem.ram[node := 0]) && binHead[..] == old(binHead[..])[b := old(mem.ram[node])]
    {
      var next := mem.ram[node];
      binHead[b] := next;
      mem.ram := mem.ram[node := 0];
    }

    // ---- the skip list ---------------------------------------------------------------------

    /** The descent shared by the three skip list operations: on every level, the last of the
        nodes `small` whose blocks are smaller than `n`. */
    method Descend(n: int, ghost small: seq<int>) returns (update: array<int>)
      requires Searchable(mem.ram, root, level, small, height, n)
      ensures fresh(update) && update.Length == SKIP_MAX_LEVEL + 1
      ensures forall i :: 0 <= i <= level ==> update[i] == Last(root, Level(small, height, i))
    {
      ghost var ram, height := mem.ram, height;
      update := new int[SKIP_MAX_LEVEL + 1];
      var node := root;
      var i := level;
      while i >= 0
        invariant -1 <= i <= level
        invariant node == Last(root, Level(small, height, i + 1))
        invariant forall j :: i < j <= level ==> update[j] == Last(root, Level(small, height, j))
      {
        ghost var at := Descended(root, small, height, i);
        ghost var here := Level(small, height, i);
        assert Ahead(ram, root, here, n, i, at);
        while mem.ram[Forward(node, i)] != 0 && mem.ram[mem.ram[Forward(node, i)] + SIZE] < n
          invariant 0 <= at <= |here| && node == ([root] + here)[at] && Ahead(ram, root, here, n, i, at)
          decreases |here| - at
          modifies {}
        {
          node := mem.ram[Forward(node, i)];
          assert (mem.ram[node + SIZE] + BIG_HEADER) % PAGE_SIZE == 0;   // ASSERT, lines 307, 351, 416
          at := at + 1;
          assert Ahead(ram, root, here, n, i, at);
        }
        assert node == Last(root, here);
        update[i] := node;
        i := i - 1;
      }
    }

    /** Best fit: the first block of the bottom list that is at least `searchSize` big. */
    method FindBest(searchSize: int) returns (node: int)
      requires SkipValid()
      ensures node == At(heap.free, Cut(heap.free, heap.size, searchSize))
    {
      SkipSearchable(mem.ram, root, level, heap.free, height, heap.size, searchSize);
      var update := Descend(searchSize, heap.free[..Cut(heap.free, heap.size, searchSize)]);
      BottomNext(mem.ram, root, level, heap.free, height, heap.size, searchSize);
      node := mem.ram[Forward(update[0], 0)];
      if node != 0 {
        assert node in heap.free;
        assert node % PAGE_SIZE == 0;                                     // ASSERT, line 316
        assert (mem.ram[node + SIZE] + BIG_HEADER) % PAGE_SIZE == 0;      // ASSERT, line 317
      }
    }

    /** Pick the new node's level; on levels not in use so far its predecessor is the head. */
    method ChooseLevel(update: array<int>, ghost k: nat) returns (newLevel: int)
      requires SkipValid() && update.Length == SKIP_MAX_LEVEL + 1 && k <= |heap.free|
      requires forall j :: 0 <= j <= level ==> update[j] == Last(root, Level(heap.free[..k], height, j))
      modifies update, this`level, this`rng
      ensures 0 <= newLevel <= SKIP_MAX_LEVEL && level == if newLevel > old(level) then newLevel else old(level)
      ensures forall j :: 0 <= j <= newLevel ==> update[j] == Last(root, Level(heap.free[..k], height, j))
    {
      hide Level, Last, Separate, Sorted, Block, Linked;
      newLevel := RandomLevel();
      if newLevel > level {
        var i := level + 1;
        while i <= newLevel
          invariant level < i <= newLevel + 1
          invariant forall j :: 0 <= j < i ==> update[j] == Last(root, Level(heap.free[..k], height, j))
          modifies update
        {
          NoneAbove(heap.free[..k], height, i, root);
          update[i] := root;
          i := i + 1;
        }
        level := newLevel;
      }
    }

    /** Point the predecessors on levels 0 to `top` at the new node. */
    method LinkIn(node: int, top: int, update: array<int>, ghost k: nat)
      requires k <= |heap.free| && 0 <= top <= SKIP_MAX_LEVEL && update.Length == SKIP_MAX_LEVEL + 1
      requires forall j :: 0 <= j <= top ==> update[j] == Last(root, Level(heap.free[..k], height, j))
      requires Separate([root] + heap.free + [node])
      requires AllLinked(mem.ram, root, Levels(heap.free, height))
      requires forall x :: x in heap.free ==> Block(mem.ram, heap.size, x)
      requires Bounded(mem.ram, heap.end) && heap.end < ADDRESS_SPACE && Placed([root] + heap.free + [node], heap.end)
      modifies mem
      ensures Bounded(mem.ram, heap.end)
      ensures AllLinked(mem.ram, root, Spliced(heap.free, k, height, node, top + 1))
      ensures OnlyForwards(old(mem.ram), mem.ram, [root] + heap.free + [node])
    {
      hide AllLinked, Separate, OnlyForwards, Bounded, Placed, Level, Spliced;
      ghost var free, ht := heap.free, height;
      SplicedNone(free, k, ht, node);
      OnlyForwardsRefl(mem.ram, [root] + free + [node]);
      var i := 0;
      while i <= top
        invariant 0 <= i <= top + 1
        invariant AllLinked(mem.ram, root, Spliced(free, k, ht, node, i))
        invariant OnlyForwards(old(mem.ram), mem.ram, [root] + free + [node]) && Bounded(mem.ram, heap.end)
      {
        LinkInStep(old(mem.ram), mem.ram, root, free, k, ht, heap.size, node, i, heap.end);
        var next := mem.ram[Forward(update[i], i)];
        mem.ram := mem.ram[Forward(node, i) := next];
        if next != 0 {
          assert Block(mem.ram, heap.size, next);
          assert (mem.ram[next + SIZE] + BIG_HEADER) % PAGE_SIZE == 0;    // ASSERT, line 385
        }
        mem.ram := mem.ram[Forward(update[i], i) := node];
        i := i + 1;
      }
    }

    /** Put a free block in front of the first one that is at least as big, on a random
        number of levels. */
    method SkipInsert(value: int)
      requires SkipValid()
      requires Separate([root] + heap.free + [value]) && Block(mem.ram, heap.size, value)
      requires value + HEAD in mem.ram && mem.ram[value + HEAD] != 0
      requires Bounded(mem.ram, heap.end) && heap.end < ADDRESS_SPACE && Placed([root] + heap.free + [value], heap.end)
      modifies mem, this`level, this`height, this`rng
      ensures Bounded(mem.ram, heap.end)
      ensures SkipOk(mem.ram, root, level, InsertAt(heap.free, Cut(heap.free, heap.size, heap.size[value]), value), height, heap.size)
      ensures OnlyForwards(old(mem.ram), mem.ram, [root] + heap.free + [value])
    {
      assert value != 0 && mem.ram[value + HEAD] != 0;                    // ASSERT, lines 330-334
      assert value % PAGE_SIZE == 0 && (mem.ram[value + SIZE] + BIG_HEADER) % PAGE_SIZE == 0;
      assert mem.ram[value + SIZE] != 0;
      ghost var free, size, ht, lv := heap.free, heap.size, height, level;
      ghost var k := Cut(free, size, size[value]);
      SkipSearchable(mem.ram, root, level, free, height, size, size[value]);
      var update := Descend(mem.ram[value + SIZE], free[..k]);
      BottomNext(mem.ram, root, level, free, height, size, size[value]);
      var node := mem.ram[Forward(update[0], 0)];
      assert node != value by { NotAmong(root, free, value); }            // so the test of line 361 succeeds
      var newLevel := ChooseLevel(update, k);
      LinkIn(value, newLevel, update, k);
      Inserted(old(mem.ram), mem.ram, root, lv, free, ht, size, value, newLevel);
      height := height[value := newLevel];
      assert SkipOk(mem.ram, root, level, InsertAt(free, k, value), height, size);
    }

    /** Unlink a free block that is the first of its size, as the result of FindBest is. */
    method SkipDelete(value: int)
      requires SkipValid() && value != 0 && value in heap.free && value in heap.size
      requires At(heap.free, Cut(heap.free, heap.size, heap.size[value])) == value
      requires value + HEAD in mem.ram && mem.ram[value + HEAD] != 0
      requires Bounded(mem.ram, heap.end) && Placed([root] + heap.free, heap.end)
      modifies mem, this`level
      ensures Bounded(mem.ram, heap.end)
      ensures SkipOk(mem.ram, root, level, RemoveAt(heap.free, Cut(heap.free, heap.size, heap.size[value])), height, heap.size)
      ensures OnlyForwards(old(mem.ram), mem.ram, [root] + heap.free)
    {
      hide SkipOk, Searchable, Cutting, SkipBelow, Separate, Placed, Bounded, Block, OnlyForwards;
      ghost var free, size, k := heap.free, heap.size, Cut(heap.free, heap.size, heap.size[value]);
      CuttingStarts(mem.ram, root, level, free, k, height, size, heap.end);
      assert value != 0 && mem.ram[value + HEAD] != 0;                    // ASSERT, lines 399-400
      SkipSearchable(mem.ram, root, level, free, height, size, size[value]);
      var update := Descend(mem.ram[value + SIZE], free[..k]);
      BottomNext(mem.ram, root, level, free, height, size, size[value]);
      // The bottom search has already arrived, so the loop of line 421 and the fallback of
      // line 425 do nothing.
      assert mem.ram[Forward(update[0], 0)] == value;
      UnlinkFrom(value, update, k);
      CuttingEnds(old(mem.ram), mem.ram, root, level, free, k, height, size, heap.end);
      TopLevel(mem.ram, root, level, RemoveAt(free, k), height, size);
      while level > 0 && mem.ram[Forward(root, level)] == 0
        invariant SkipBelow(mem.ram, root, level, RemoveAt(free, k), height, size)
        invariant 0 <= level && Forward(root, level) in mem.ram
        modifies this`level
      {
        SkipLower(mem.ram, root, level, RemoveAt(free, k), height, size);
        level := level - 1;
      }
      SkipWhole(mem.ram, root, level, RemoveAt(free, k), height, size);
    }

    /** Cut the node out of each level it is on, from the bottom up, stopping at the first
        level whose predecessor does not point at it. */
    method UnlinkFrom(value: int, update: array<int>, ghost k: nat)
      requires k < |heap.free| && heap.free[k] == value != 0 && update.Length == SKIP_MAX_LEVEL + 1
      requires 0 <= HeightOf(height, value) <= level <= SKIP_MAX_LEVEL
      requires forall j :: 0 <= j <= level ==> update[j] == Last(root, Level(heap.free[..k], height, j))
      requires Cutting(mem.ram, mem.ram, root, heap.free, k, height, heap.end, 0) && Separate([root] + heap.free)
      requires (forall x :: x in heap.free ==> Block(mem.ram, heap.size, x)) && Placed([root] + heap.free, heap.end)
      modifies mem
      ensures Cutting(old(mem.ram), mem.ram, root, heap.free, k, height, heap.end, HeightOf(height, value) + 1)
    {
      hide Cutting, Separate, Placed, Level, Unspliced;
      ghost var free, ht := heap.free, height;
      SeparateRemove(root, free, k);
      var i := 0;
      CuttingTest(mem.ram, mem.ram, root, free, k, ht, heap.end, 0);
      while i <= level && mem.ram[Forward(update[i], i)] == value
        invariant 0 <= i <= level + 1 && HeightOf(ht, value) >= i - 1
        invariant Cutting(old(mem.ram), mem.ram, root, free, k, ht, heap.end, i)
        invariant i <= level ==> Forward(update[i], i) in mem.ram
        invariant i <= level ==> (mem.ram[Forward(update[i], i)] == value <==> HeightOf(ht, value) >= i)
      {
        LinkOutStep(old(mem.ram), mem.ram, root, free, k, ht, heap.size, i, heap.end);
        var next := mem.ram[Forward(value, i)];
        mem.ram := mem.ram[Forward(update[i], i) := next];
        if next != 0 {
          assert Block(mem.ram, heap.size, next);
          assert next % PAGE_SIZE == 0;                                   // ASSERT, line 443
          assert (mem.ram[next + SIZE] + BIG_HEADER) % PAGE_SIZE == 0;    // ASSERT, line 444
        }
        i := i + 1;
        if i <= level { CuttingTest(old(mem.ram), mem.ram, root, free, k, ht, heap.end, i); }
      }
    }

    // ---- malloc ----------------------------------------------------------------------------

    /** Thread the cells of a fresh page into a stack, lowest address on top. */
    method BuildStack(pg: int, b: int)
      requires 0 <= b < BIG_BIN && 0 < pg && pg % PAGE_SIZE == 0 && pg + PAGE_SIZE < ADDRESS_SPACE
      requires Bounded(mem.ram, pg + PAGE_SIZE)
      modifies mem
      ensures Bounded(mem.ram, pg + PAGE_SIZE)
      ensures OnlyInside(old(mem.ram), mem.ram, pg + SMALL_HEADER, pg + PAGE_SIZE)
      ensures Chain(mem.ram, AllCells(pg, b))
    {
      hide Bounded, OnlyInside, Link;
      ghost var cells := AllCells(pg, b);
      CellSizes(b);
      InsideNothing(mem.ram, pg + SMALL_HEADER, pg + PAGE_SIZE);
      var adj := SMALLEST_BIN_LOG + b;
      var available := (PAGE_SIZE - SMALL_HEADER) / Pow2(adj) - 1;
      var base := pg + SMALL_HEADER;
      var i := 0;
      while i < available
        invariant 0 <= i <= available
        invariant Bounded(mem.ram, pg + PAGE_SIZE)
        invariant OnlyInside(old(mem.ram), mem.ram, pg + SMALL_HEADER, pg + PAGE_SIZE)
        invariant forall k :: 0 <= k < i ==> Link(mem.ram, cells, k)
      {
        WordIndex(pg, b, i);
        WordIndex(pg, b, i + 1);
        ThreadCell(old(mem.ram), mem.ram, pg, b, i, cells[i + 1]);
        mem.ram := mem.ram[base + 4 * (i * Pow2(b)) := base + 4 * ((i + 1) * Pow2(b))];
        i := i + 1;
      }
      WordIndex(pg, b, available);
      ThreadCell(old(mem.ram), mem.ram, pg, b, available, 0);
      mem.ram := mem.ram[base + 4 * (available * Pow2(b)) := 0];
    }

    /** Header and stack of a fresh page, put at the front of its bin's list. */
    method FormatPage(header: int, b: int)
      requires 0 <= b < binHead.Length == BIG_BIN && 0 <= binHead[b] < ADDRESS_SPACE
      requires 0 < header && header % PAGE_SIZE == 0 && header + PAGE_SIZE < ADDRESS_SPACE && Bounded(mem.ram, header)
      modifies mem, binHead
      ensures PageBuilt(old(mem.ram), mem.ram, header, b, old(binHead[b]))
      ensures binHead[..] == old(binHead[..])[b := header]
    {
      ghost var ram, first := mem.ram, binHead[b];
      HeaderBounded(ram, header, first);
      mem.ram := mem.ram[header + HEAD := header + SMALL_HEADER];
      ListInsert(b, header);
      BuildStack(header, b);
      PageFinished(ram, mem.ram, header, b, first);
      mem.ram := mem.ram[header + SIZE := b];
    }

    /** Get memory from `sbrk`. */
    method Grow(increment: int) returns (halted: bool, address: int)
      requires Valid() && 0 <= increment && increment % PAGE_SIZE == 0 && heap.end + increment < ADDRESS_SPACE
      modifies pager.repr
      ensures fresh(pager.repr - old(pager.repr)) && pager.Capacity() == old(pager.Capacity())
      ensures halted <==> old(pager.Capacity()) < heap.end + increment
      ensures !halted ==> address == heap.end && PagerAt(heap.end + increment)
    {
      halted, address := pager.Sbrk(increment);
    }

    /** A small request found no page with a free cell: make one. */
    method GrowBin(b: int) returns (halted: bool)
      requires Valid() && 0 <= b < BIG_BIN && heap.pages[b] == [] && heap.end + PAGE_SIZE < ADDRESS_SPACE
      modifies this`heap, mem, binHead, pager.repr
      ensures fresh(pager.repr - old(pager.repr)) && pager.Capacity() == old(pager.Capacity())
      ensures halted <==> old(pager.Capacity() < heap.end + PAGE_SIZE)
      ensures !halted ==> Valid() && heap == AddPage(old(heap), b)
      ensures !halted ==> OnlyMeta(old(mem.ram), mem.ram, old(heap), 0)
    {
      hide Pager.HeapReady, PageBuilt, Repr, Inv, OnlyMeta, Bounded;
      ghost var h, ram, first := heap, mem.ram, binHead[..];
      ReprFacts(ram, first, level, newestBig, height, h);
      var header;
      halted, header := Grow(0x1000);
      if halted { return; }
      assert header % PAGE_SIZE == 0;                                     // ASSERT, line 526
      FormatPage(header, b);
      NewPage(ram, mem.ram, h, b, first, level, newestBig, height);
      AddPageKeeps(h, b);
      NewPageMeta(ram, mem.ram, h, b, first[b]);
      heap := AddPage(h, b);
    }

    /** Pop the top cell of the first page of the bin's list. */
    method TakeTop(b: int, size: int) returns (item: int)
      requires Valid() && 0 <= b < BIG_BIN && heap.pages[b] != [] && 1 <= size <= CellSize(b)
      modifies this`heap, mem, binHead
      ensures old(heap).pages[b][0] in old(heap).cells && old(heap).cells[old(heap).pages[b][0]] != []
      ensures Valid() && heap == TakeCell(old(heap), b, size) && item == old(heap).cells[old(heap).pages[b][0]][0]
      ensures OnlyMeta(old(mem.ram), mem.ram, old(heap), 0)
    {
      hide Pager.HeapReady, Repr, Inv, OnlyMeta;
      ghost var h, ram, bins := heap, mem.ram, binHead[..];
      PopCellFacts(ram, bins, level, newestBig, height, h, b);
      PopCell(ram, h, b, size, bins, level, newestBig, height);
      TakeCellKeeps(h, b, size);
      var header := binHead[b];
      item := StackPop(header);
      if mem.ram[header + HEAD] == 0 {
        ListDecouple(b, header);
      }
      heap := TakeCell(h, b, size);
    }

    /** A request that some bin's cells can hold. */
    method MallocSmall(b: int, size: int) returns (halted: bool, item: int)
      requires Valid() && size > 0 && BinSize(size) == b < BIG_BIN && NoWrap(heap, size)
      modifies this`heap, mem, binHead, pager.repr
      ensures fresh(pager.repr - old(pager.repr)) && pager.Capacity() == old(pager.Capacity())
      ensures halted <==> 0 < old(Growth(heap, size)) && old(pager.Capacity() < heap.end + Growth(heap, size))
      ensures !halted ==> Valid() && (heap, item) == HeapRuns.Malloc(old(heap), size)
      ensures !halted ==> OnlyMeta(old(mem.ram), mem.ram, old(heap), 0)
    {
      hide Pager.HeapReady, Repr, Inv, OnlyMeta;
      ghost var h, ram := heap, mem.ram;
      ReprFacts(mem.ram, binHead[..], level, newestBig, height, heap);
      StockedKeeps(h, size);
      halted, item := false, 0;
      if binHead[b] == 0 {
        halted := GrowBin(b);
        if halted { return; }
      }
      ghost var ram1 := mem.ram;
      item := TakeTop(b, size);
      StockedMeta(ram, ram1, mem.ram, h, b);
    }

    /** Take the block that `FindBest` found off the free list. */
    method TakeFit(header: int, size: int) returns (item: int)
      requires Valid() && size > 0 && header != 0 && header == At(heap.free, Fit(heap, size))
      modifies this`heap, this`level, mem
      ensures Fit(old(heap), size) < |old(heap.free)| && item == header + BIG_HEADER
      ensures Valid() && heap == TakeBlock(old(heap), Fit(old(heap), size), size)
      ensures OnlyMeta(old(mem.ram), mem.ram, old(heap), 0)
    {
      hide Pager.HeapReady, Repr, Inv, OnlyMeta, Bounded, Words, SkipOk, Placed, OnlyForwards, PagesIn, ListsIn, BlocksIn, ChainIn, TakeBlock;
      ghost var h, ram, bins, lv := heap, mem.ram, binHead[..], level;
      FitSearch(ram, bins, level, newestBig, height, h, size);
      SkipDelete(header);
      AfterUnlink(ram, mem.ram, bins, lv, newestBig, height, h, size);
      PopBlock(mem.ram, h, Fit(h, size), size, bins, level, newestBig, height);
      TakeBlockKeeps(h, Fit(h, size), size);
      TakeBlockEnd(h, Fit(h, size), size);
      item := StackPop(header);
      heap := TakeBlock(h, Fit(h, size), size);
    }

    /** No free block fits: get a block of its own from `sbrk`. */
    method GrowBlock(size: int) returns (halted: bool, item: int)
      requires Valid() && size > 0 && heap.end + BlockPages(size) * PAGE_SIZE < ADDRESS_SPACE
      modifies this`heap, this`newestBig, mem, pager.repr
      ensures fresh(pager.repr - old(pager.repr)) && pager.Capacity() == old(pager.Capacity())
      ensures halted <==> old(pager.Capacity() < heap.end + BlockPages(size) * PAGE_SIZE)
      ensures !halted ==> Valid() && heap == AddBlock(old(heap), size) && item == old(heap).end + BIG_HEADER
      ensures !halted ==> OnlyMeta(old(mem.ram), mem.ram, old(heap), 0)
    {
      hide Pager.HeapReady, Repr, Inv, OnlyMeta;
      ghost var h, ram, bins := heap, mem.ram, binHead[..];
      var pages := (size + BIG_HEADER) / PAGE_SIZE + 1;
      var header;
      halted, header := Grow(PAGE_SIZE * pages);
      item := header + BIG_HEADER;
      if halted { return; }
      ReprFacts(ram, bins, level, newestBig, height, h);
      NewBlock(ram, h, size, bins, level, newestBig, height);
      NewBlockOnlyMeta(ram, h, size, bins, level, newestBig, height);
      AddBlockKeeps(h, size);
      assert header % PAGE_SIZE == 0;                                     // ASSERT, line 628
      FormatBlock(header, pages);
      heap := AddBlock(h, size);
    }

    /** Header of a new block, linked behind the newest one in memory. */
    method FormatBlock(header: int, pages: int)
      requires newestBig != 0 ==> newestBig != header + PREV && newestBig != header + SIZE
      modifies this`newestBig, mem
      ensures mem.ram == NewBlockRam(old(mem.ram), header, pages * PAGE_SIZE - BIG_HEADER, old(newestBig))
      ensures newestBig == header
    {
      mem.ram := mem.ram[header + SIZE := pages * PAGE_SIZE - BIG_HEADER];
      assert (mem.ram[header + SIZE] + BIG_HEADER) % PAGE_SIZE == 0;      // ASSERT, line 633
      mem.ram := mem.ram[header + PREV := newestBig];
      if mem.ram[header + PREV] != 0 {
        mem.ram := mem.ram[mem.ram[header + PREV] := header];
      }
      newestBig := header;
      mem.ram := mem.ram[header := 0];
      mem.ram := mem.ram[header + HEAD := 0];
    }

    /** A block of at least `size` bytes: the best fit, or else a new one. */
    method MallocBig(size: int) returns (halted: bool, item: int)
      requires Valid() && size > 0 && BinSize(size) == BIG_BIN && NoWrap(heap, size)
      modifies this`heap, this`level, this`newestBig, mem, pager.repr
      ensures fresh(pager.repr - old(pager.repr)) && pager.Capacity() == old(pager.Capacity())
      ensures halted <==> 0 < old(Growth(heap, size)) && old(pager.Capacity() < heap.end + Growth(heap, size))
      ensures !halted ==> Valid() && (heap, item) == HeapRuns.Malloc(old(heap), size)
      ensures !halted ==> OnlyMeta(old(mem.ram), mem.ram, old(heap), 0)
    {
      hide Pager.HeapReady, Repr, Inv, OnlyMeta;
      halted := false;
      FitSearch(mem.ram, binHead[..], level, newestBig, height, heap, size);
      var header := FindBest(size);
      if header != 0 {
        item := TakeFit(header, size);
      } else {
        halted, item := GrowBlock(size);
      }
    }

    /** `klmalloc`. */
    method Malloc(size: int) returns (halted: bool, p: int)
      requires Valid() && 0 <= size && NoWrap(heap, size)
      modifies this`heap, this`level, this`newestBig, mem, binHead, pager.repr
      ensures fresh(pager.repr - old(pager.repr)) && pager.Capacity() == old(pager.Capacity())
      ensures halted <==> 0 < old(Growth(heap, size)) && old(pager.Capacity() < heap.end + Growth(heap, size))
      ensures !halted ==> Valid() && (heap, p) == HeapRuns.Malloc(old(heap), size)
      ensures !halted ==> KeepsLive(old(mem.ram), mem.ram, old(heap), 0)
    {
      hide Pager.HeapReady, Repr, Inv, OnlyMeta;
      ghost var h, ram := heap, mem.ram;
      OnlyMetaRefl(ram, h);
      halted, p := false, 0;
      if size != 0 {
        BinSizeIsBest(size);
        var bucket := BinSize(size);
        if bucket < BIG_BIN {
          halted, p := MallocSmall(bucket, size);
        } else {
          halted, p := MallocBig(size);
        }
      }
      if !halted { OnlyMetaKeepsLive(ram, mem.ram, h, 0); }
    }

    // ---- free ------------------------------------------------------------------------------

    /** A big block goes back to the skip list. */
    method FreeBlock(bheader: int)
      requires Valid() && bheader in heap.size && bheader + BIG_HEADER in heap.live && Page(bheader + BIG_HEADER) == bheader
      modifies this`heap, this`level, this`height, this`rng, mem
      ensures Valid() && heap == ReturnBlock(old(heap), bheader + BIG_HEADER)
      ensures OnlyMeta(old(mem.ram), mem.ram, old(heap), bheader + BIG_HEADER)
    {
      hide Pager.HeapReady, Repr, Inv, OnlyMeta, SkipOk, Separate, Block, Placed, Bounded, OnlyForwards;
      ghost var h, ram, bins, lv, ht := heap, mem.ram, binHead[..], level, height;
      FreeFacts(ram, bins, level, newestBig, height, h, bheader + BIG_HEADER);
      assert bheader != 0 && mem.ram[bheader + HEAD] == 0;                // ASSERT, lines 678-680
      assert (mem.ram[bheader + SIZE] + BIG_HEADER) % PAGE_SIZE == 0;
      FreedBlock(ram, bins, level, newestBig, height, h, bheader);
      StackPush(bheader, bheader + BIG_HEADER);
      assert mem.ram[bheader + HEAD] != 0;                                // ASSERT, line 752
      SkipInsert(bheader);
      BlockReturned(ram, mem.ram, bins, lv, level, newestBig, ht, height, h, bheader);
      ReturnBlockKeeps(h, bheader + BIG_HEADER);
      heap := ReturnBlock(h, bheader + BIG_HEADER);
    }

    /** A cell goes back on top of its page's stack. */
    method FreeCell(header: int, ptr: int)
      requires Valid() && ptr in heap.live && header == Page(ptr) && header in heap.bin
      modifies this`heap, mem, binHead
      ensures Valid() && 0 <= old(heap).bin[header] < |old(heap).pages| && header in old(heap).cells
      ensures heap == ReturnCell(old(heap), ptr)
      ensures OnlyMeta(old(mem.ram), mem.ram, old(heap), ptr)
    {
      hide Pager.HeapReady, Repr, Inv, OnlyMeta;
      ghost var h, ram, bins := heap, mem.ram, binHead[..];
      PageOfCell(h, header);
      FreeFacts(ram, bins, level, newestBig, height, h, ptr);
      var bucket := mem.ram[header + SIZE];
      PushCell(ram, h, ptr, bins, level, newestBig, height);
      PushMeta(ram, h, ptr, bins[bucket]);
      ReturnCellKeeps(h, ptr);
      if mem.ram[header + HEAD] == 0 {
        ListInsert(bucket, header);
      }
      StackPush(header, ptr);
      heap := ReturnCell(h, ptr);
    }

    /** `klfree`. */
    method Free(ptr: int)
      requires Valid() && (ptr == 0 || ptr in heap.live)
      modifies this`heap, this`level, this`height, this`rng, mem, binHead
      ensures Valid() && heap == HeapRuns.Free(old(heap), ptr)
      ensures KeepsLive(old(mem.ram), mem.ram, old(heap), ptr)
      ensures ptr == 0 ==> mem.ram == old(mem.ram) && heap == old(heap)
    {
      hide Pager.HeapReady, Repr, Inv, OnlyMeta;
      ghost var h, ram := heap, mem.ram;
      OnlyMetaRefl(ram, h);
      if ptr == 0 {
        OnlyMetaKeepsLive(ram, mem.ram, h, 0);
        return;
      }
      FreeFacts(ram, binHead[..], level, newestBig, height, h, ptr);
      LiveIsSlot(h, ptr);
      var header := BitAnd(ptr, ADDRESS_SPACE - PAGE_SIZE);
      assert header % PAGE_SIZE == 0;                                     // ASSERT, line 665
      var bucket := mem.ram[header + SIZE];
      if bucket > NUM_BINS {
        FreeBlock(header);
      } else {
        FreeCell(header, ptr);
      }
      OnlyMetaKeepsLive(ram, mem.ram, h, ptr);
    }

    // ---- calloc ----------------------------------------------------------------------------

    /** `klcalloc`: as `malloc`, and every byte asked for is zero. */
    method Calloc(nmemb: int, size: int) returns (halted: bool, ptr: int)
      requires Valid() && 0 <= nmemb && 0 <= size && 0 <= nmemb * size && NoWrap(heap, nmemb * size)
      modifies this`heap, this`level, this`newestBig, mem, binHead, pager.repr
      ensures fresh(pager.repr - old(pager.repr)) && pager.Capacity() == old(pager.Capacity())
      ensures halted <==> 0 < old(Growth(heap, nmemb * size)) && old(pager.Capacity() < heap.end + Growth(heap, nmemb * size))
      ensures !halted ==> Valid() && (heap, ptr) == HeapRuns.Malloc(old(heap), nmemb * size)
      ensures !halted ==> KeepsLive(old(mem.ram), mem.ram, old(heap), 0)
      ensures !halted && ptr != 0 ==> Filled(mem.ram, ptr, ptr + nmemb * size, 0)
    {
      hide Pager.HeapReady, Repr, Inv, NoWrap, Growth, HeapRuns.Malloc, Filled;
      halted, ptr := Malloc(nmemb * size);
      if !halted && ptr != 0 {
        Clear(ptr, nmemb * size, old(heap), old(mem.ram));
      }
    }

    /** Zero a block just obtained. */
    method Clear(ptr: int, n: int, ghost h: Heap, ghost ram: Ram)
      requires Valid() && Inv(h) && n >= 0 && NoWrap(h, n) && ptr != 0 && (heap, ptr) == HeapRuns.Malloc(h, n)
      requires KeepsLive(ram, mem.ram, h, 0)
      modifies mem
      ensures Valid() && KeepsLive(ram, mem.ram, h, 0)
      ensures Filled(mem.ram, ptr, ptr + n, 0)
    {
      hide Pager.HeapReady, Repr, Inv, NoWrap, Growth, HeapRuns.Malloc, Words, OnlyWithin, SameBytesOutside, Filled;
      ghost var ram1 := mem.ram;
      MallocKeeps(h, n);
      MallocNull(h, n);
      ReprFacts(ram1, binHead[..], level, newestBig, height, heap);
      mem.Memset(ptr, 0x00, n);
      WithinMore(ram1, mem.ram, ptr, ptr + n, ptr, ptr + Room(heap.bin, heap.size, ptr));
      LiveStore(ram1, mem.ram, heap, ptr, binHead[..], level, newestBig, height);
      FillKeepsLive(ram, ram1, mem.ram, h, n);
    }

    // ---- realloc ---------------------------------------------------------------------------

    /** `klrealloc` in the case that the block must move: the old contents are copied, as far
        as the old block goes. */
    method Move(ptr: int, size: int) returns (halted: bool, newptr: int)
      requires Valid() && ptr in heap.live && size > 0 && Moves(heap, ptr, size) && NoWrap(heap, size) && CopyFits(heap, ptr, size)
      modifies this`heap, this`level, this`newestBig, this`height, this`rng, mem, binHead, pager.repr
      ensures fresh(pager.repr - old(pager.repr)) && pager.Capacity() == old(pager.Capacity())
      ensures halted <==> 0 < old(Growth(heap, size)) && old(pager.Capacity() < heap.end + Growth(heap, size))
      ensures !halted ==> Valid() && (heap, newptr) == HeapRuns.Realloc(old(heap), ptr, size)
      ensures !halted ==> KeepsLive(old(mem.ram), mem.ram, old(heap), ptr)
      ensures !halted ==> forall i :: 0 <= i < old(Room(heap.bin, heap.size, ptr)) ==> Copied(old(mem.ram), mem.ram, newptr, ptr, i)
    {
      hide Pager.HeapReady, Repr, Inv, NoWrap, Growth, HeapRuns.Malloc, Words, OnlyWithin, SameBytesOutside, Copied;
      ghost var h, ram := heap, mem.ram;
      MallocKeeps(h, size);
      ReallocCopyFits(h, ptr, size);
      halted, newptr := Malloc(size);
      if halted { return; }
      ghost var ram1 := mem.ram;
      MovesPositive(h, ptr, size);
      assert newptr != 0;              // so the failure path of lines 835-841 is never taken
      MoveFacts(ram1, binHead[..], level, newestBig, height, h, ptr, size);
      var oldSize := mem.ram[BitAnd(ptr, ADDRESS_SPACE - PAGE_SIZE) + SIZE];
      if oldSize < BIG_BIN {
        oldSize := Pow2(SMALLEST_BIN_LOG + oldSize);
      }
      mem.Memcpy(newptr, ptr, oldSize);
      ghost var ram2 := mem.ram;
      MoveStored(ram, ram1, ram2, binHead[..], level, newestBig, height, h, ptr, size);
      Free(ptr);
      MoveDone(ram, ram2, mem.ram, h, ptr, size);
    }

    /** `klrealloc`. */
    method Realloc(ptr: int, size: int) returns (halted: bool, newptr: int)
      requires Valid() && (ptr == 0 || ptr in heap.live) && size >= 0
      requires (ptr == 0 || Moves(heap, ptr, size) ==> NoWrap(heap, size)) && CopyFits(heap, ptr, size)
      modifies this`heap, this`level, this`newestBig, this`height, this`rng, mem, binHead, pager.repr
      ensures fresh(pager.repr - old(pager.repr)) && pager.Capacity() == old(pager.Capacity())
      ensures halted <==> old((ptr == 0 || Moves(heap, ptr, size)) && 0 < Growth(heap, size)
        && pager.Capacity() < heap.end + Growth(heap, size))
      ensures !halted ==> Valid() && (heap, newptr) == HeapRuns.Realloc(old(heap), ptr, size)
      ensures !halted ==> KeepsLive(old(mem.ram), mem.ram, old(heap), ptr)
      ensures ptr != 0 && size > 0 && old(Page(ptr) in heap.size && size <= heap.size[Page(ptr)]) ==>
        !halted && newptr == ptr && mem.ram == old(mem.ram) && heap == old(heap).(live := old(heap).live[ptr := size])
      ensures ptr != 0 && size > 0 && old(Page(ptr) in heap.bin && size <= heap.bin[Page(ptr)]) ==>
        !halted && newptr == ptr && mem.ram == old(mem.ram) && heap == old(heap).(live := old(heap).live[ptr := size])
      ensures (!halted && ptr != 0 && size > 0
          && old(Page(ptr) in heap.size ==> heap.size[Page(ptr)] < size)
          && old(Page(ptr) in heap.bin ==> heap.bin[Page(ptr)] < size)) ==>
        newptr !in old(heap).live && heap.live == (old(heap).live - {ptr})[newptr := size]
      ensures !halted && ptr != 0 && size > 0 ==>
        forall i :: 0 <= i < old(Room(heap.bin, heap.size, ptr)) ==> Copied(old(mem.ram), mem.ram, newptr, ptr, i)
    {
      hide Pager.HeapReady, Repr, Inv, NoWrap, Growth, HeapRuns.Malloc, Copied, CopyFits;
      ghost var h, ram := heap, mem.ram;
      if ptr == 0 {
        halted, newptr := Malloc(size);
        return;
      }
      NullNotLive(h);
      if size > 0 {
        ReallocStays(h, ptr, size);
        if Moves(h, ptr, size) { ReallocMoves(h, ptr, size); }
      }
      halted := false;
      if size == 0 {
        Free(ptr);
        newptr := 0;
        return;
      }
      FreeFacts(ram, binHead[..], level, newestBig, height, h, ptr);
      var header := BitAnd(ptr, ADDRESS_SPACE - PAGE_SIZE);
      if mem.ram[header + SIZE] >= size {
        StayingFits(h, ptr, size);
        ResizedRepr(ram, binHead[..], level, newestBig, height, h, ptr, size);
        heap := heap.(live := heap.live[ptr := size]);
        newptr := ptr;
      } else {
        halted, newptr := Move(ptr, size);
      }
    }
  }

  /** On a level not in use the predecessor is the head. */
  lemma NoneAbove(s: seq<int>, height: map<int, int>, i: int, root: int)
    requires forall x :: x in s ==> HeightOf(height, x) < i
    ensures Last(root, Level(s, height, i)) == root
  {
    LevelEmpty(s, height, i);
  }

  lemma PageOfCell(h: Heap, pg: int)
    requires Inv(h) && pg in h.bin
    ensures 0 <= h.bin[pg] < BIG_BIN == |h.pages| && pg in h.cells
  {}

  /** `&base[k << b]` is the address of cell `k`. */
  lemma WordIndex(pg: int, b: int, k: nat)
    requires 0 <= b < BIG_BIN
    ensures pg + SMALL_HEADER + 4 * (k * Pow2(b)) == CellAt(pg, b, k)
  {
    assert Pow2(2 + b) == 4 * Pow2(b) by { assert Pow2(1 + b) == 2 * Pow2(b); }
    TimesFour(k, Pow2(b));
  }

  lemma TimesFour(k: int, p: int)
    ensures k * (4 * p) == 4 * (k * p)
  {}

  lemma InsideNothing(ram: Ram, lo: int, hi: int)
    ensures OnlyInside(ram, ram, lo, hi)
  {}

  /** Linking cell `k` to its successor extends the threaded prefix. */
  lemma ThreadCell(first: Ram, ram: Ram, pg: int, b: int, k: nat, v: int)
    requires 0 <= b < BIG_BIN && 0 < pg && pg % PAGE_SIZE == 0 && pg + PAGE_SIZE < ADDRESS_SPACE && k < CellCount(b)
    requires Bounded(ram, pg + PAGE_SIZE) && v == At(AllCells(pg, b), k + 1)
    requires forall j :: 0 <= j < k ==> Link(ram, AllCells(pg, b), j)
    requires OnlyInside(first, ram, pg + SMALL_HEADER, pg + PAGE_SIZE)
    ensures var ram' := ram[CellAt(pg, b, k) := v];
            && Bounded(ram', pg + PAGE_SIZE)
            && OnlyInside(first, ram', pg + SMALL_HEADER, pg + PAGE_SIZE)
            && forall j :: 0 <= j <= k ==> Link(ram', AllCells(pg, b), j)
  {
    var cells := AllCells(pg, b);
    var c := cells[k];
    assert c in cells;
    CellSizes(b);
    CellInPage(pg, b, c);
    if v != 0 {
      assert v in cells;
      CellInPage(pg, b, v);
    }
    AllCellsDistinct(pg, b);
    BoundedStore(ram, pg + PAGE_SIZE, c, v);
    var ram' := ram[c := v];
    forall j | 0 <= j <= k ensures Link(ram', cells, j) {
      if j < k { assert Link(ram, cells, j) && cells[j] != cells[k]; }
    }
  }

  lemma BootRepr(root: int, start: int, binHead: seq<int>)
    requires 0 < root && root % 4 == 0 && root + BIG_HEADER <= start < ADDRESS_SPACE
    requires |binHead| == BIG_BIN && forall b :: 0 <= b < BIG_BIN ==> binHead[b] == 0
    ensures Repr(BootRam(root), binHead, 0, 0, map[], EmptyHeap(root, start))
  {
    var h := EmptyHeap(root, start);
    forall i | 0 <= i <= SKIP_MAX_LEVEL ensures Linked(BootRam(root), root, i, Level([], map[], i)) {}
    assert SkipOk(BootRam(root), root, 0, h.free, map[], h.size);
  }
}
