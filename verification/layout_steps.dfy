/** Each group of stores that `core/alloc.c` makes, and the abstract step it carries out. */
module LayoutSteps {
  import opened Bits
  import opened KernelC
  import opened Machine
  import opened HeapModel
  import opened HeapSteps
  import opened HeapRuns
  import opened HeapTheorems
  import opened SkipList
  import opened Layout

  // ---- frames ------------------------------------------------------------------------------

  lemma PageFrame(ram: Ram, ram': Ram, h: Heap, q: int)
    requires Inv(h) && q in h.bin && PageAt(ram, q, h.bin[q], h.cells[q])
    requires SameBlock(ram, ram', q + HEAD, q + PAGE_SIZE)
    ensures PageAt(ram', q, h.bin[q], h.cells[q])
  {
    forall c | c in h.cells[q] ensures q + SMALL_HEADER <= c < q + PAGE_SIZE {
      CellSizes(h.bin[q]);
      CellInPage(q, h.bin[q], c);
    }
    ChainFrame(ram, ram', h.cells[q]);
  }

  /** The words of a block that the allocator reads. */
  ghost predicate BigSame(ram: Ram, ram': Ram, h: Heap)
  {
    && SameBlock(ram, ram', h.root, h.root + BIG_HEADER)
    && forall x :: x in h.size ==> SameBlock(ram, ram', x, x + BIG_HEADER + 4)
  }

  lemma BlocksSame(ram: Ram, ram': Ram, h: Heap)
    requires BlocksIn(ram, h) && BigSame(ram, ram', h)
    ensures BlocksIn(ram', h)
  {
    forall x | x in h.size ensures BlockIn(ram', h.size, h.free, x) {
      assert BlockIn(ram, h.size, h.free, x);
    }
  }

  lemma ChainSame(ram: Ram, ram': Ram, newestBig: int, h: Heap)
    requires BigChain(h) && ChainIn(ram, newestBig, h.bigs) && BigSame(ram, ram', h)
    ensures ChainIn(ram', newestBig, h.bigs)
  {
    ChainFrame(ram, ram', h.bigs);
    forall k | 0 <= k < |h.bigs| ensures PrevLink(ram', h.bigs, k) {
      assert PrevLink(ram, h.bigs, k);
      var x := h.bigs[k];
      assert x in h.bigs;
    }
  }

  lemma SkipSame(ram: Ram, ram': Ram, h: Heap, level: int, height: map<int, int>)
    requires FreeList(h) && SkipOk(ram, h.root, level, h.free, height, h.size) && BigSame(ram, ram', h)
    ensures SkipOk(ram', h.root, level, h.free, height, h.size)
  {
    forall x | x in h.free ensures Block(ram', h.size, x) {
      assert Block(ram, h.size, x);
    }
    forall i | 0 <= i <= SKIP_MAX_LEVEL ensures Linked(ram', h.root, i, Level(h.free, height, i)) {
      assert Linked(ram, h.root, i, Level(h.free, height, i));
      forall x | x in [h.root] + Level(h.free, height, i) && Forward(x, i) in ram
        ensures Forward(x, i) in ram' && ram'[Forward(x, i)] == ram[Forward(x, i)]
      {
        LevelMember(h.free, height, i, x);
      }
      LinkFrame(ram, ram', h.root, i, Level(h.free, height, i));
    }
  }

  /** Stores confined to one small page leave the blocks and the other pages alone. */
  lemma WithinPage(ram: Ram, ram': Ram, h: Heap, pg: int)
    requires Inv(h) && pg in h.bin && OnlyInside(ram, ram', pg, pg + PAGE_SIZE)
    ensures BigSame(ram, ram', h)
    ensures forall q :: q in h.bin && q != pg ==> SameBlock(ram, ram', q, q + PAGE_SIZE)
  {
    hide Tiled, SmallSlots, BigSlots, LiveSlots, PageLists, FreeList, BigChain, Apart, SameBlock, OnlyInside;
    TilesApart(h);
    TilesAway(h, pg);
    hide Inv;
    InsideAway(ram, ram', pg, h.root, h.root + BIG_HEADER);
    forall x | x in h.size ensures SameBlock(ram, ram', x, x + BIG_HEADER + 4) {
      InsideAway(ram, ram', pg, x, x + BIG_HEADER + 4);
    }
    forall q | q in h.bin && q != pg ensures SameBlock(ram, ram', q, q + PAGE_SIZE) {
      InsideAway(ram, ram', pg, q, q + PAGE_SIZE);
    }
  }

  lemma TilesAway(h: Heap, pg: int)
    requires Inv(h) && Apart(h) && pg in h.bin
    ensures h.root + BIG_HEADER <= pg
    ensures forall x :: x in h.size ==> x + BIG_HEADER + 4 <= pg || pg + PAGE_SIZE <= x
    ensures forall q :: q in h.bin && q != pg ==> q + PAGE_SIZE <= pg || pg + PAGE_SIZE <= q
  {
    hide SmallSlots, BigSlots, LiveSlots, PageLists, FreeList, BigChain;
  }

  lemma InsideAway(ram: Ram, ram': Ram, pg: int, lo: int, hi: int)
    requires OnlyInside(ram, ram', pg, pg + PAGE_SIZE) && (hi <= pg || pg + PAGE_SIZE <= lo)
    ensures SameBlock(ram, ram', lo, hi)
  {}

  /** Everything but page `pg` and the bin lists survives stores confined to that page. */
  lemma PageStep(ram: Ram, ram': Ram, h: Heap, pg: int, binHead: seq<int>, level: int, newestBig: int, height: map<int, int>)
    requires Inv(h) && Repr(ram, binHead, level, newestBig, height, h)
    requires pg in h.bin && OnlyInside(ram, ram', pg, pg + PAGE_SIZE)
    ensures forall q :: q in h.bin && q != pg ==> PageAt(ram', q, h.bin[q], h.cells[q])
    ensures BlocksIn(ram', h) && ChainIn(ram', newestBig, h.bigs)
    ensures SkipOk(ram', h.root, level, h.free, height, h.size)
  {
    WithinPage(ram, ram', h, pg);
    forall q | q in h.bin && q != pg ensures PageAt(ram', q, h.bin[q], h.cells[q]) {
      PageFrame(ram, ram', h, q);
    }
    BlocksSame(ram, ram', h);
    ChainSame(ram, ram', newestBig, h);
    SkipSame(ram, ram', h, level, height);
  }

  // ---- popping a cell ------------------------------------------------------------------------

  /** `klmalloc_stack_pop`, and `klmalloc_list_decouple` if it took the last cell. */
  function PopRam(ram: Ram, pg: int, c: int, emptied: bool): Ram
    requires c in ram
  {
    var popped := ram[pg + HEAD := ram[c]];
    if emptied then popped[pg := 0] else popped
  }

  lemma PopFacts(ram: Ram, h: Heap, b: int, binHead: seq<int>)
    requires Inv(h) && 0 <= b < BIG_BIN && h.pages[b] != [] && PagesIn(ram, h) && ListsIn(ram, binHead, h)
    ensures h.pages[b][0] in h.bin && h.cells[h.pages[b][0]] != []
    ensures var pg := h.pages[b][0]; var c := h.cells[pg][0];
            && pg == binHead[b] && h.bin[pg] == b && pg > 0 && pg in ram && ram[pg] == At(h.pages[b][1..], 0)
            && pg + HEAD in ram && ram[pg + HEAD] == c && c in ram && ram[c] == At(h.cells[pg][1..], 0)
            && pg + SMALL_HEADER <= c < pg + PAGE_SIZE && (ram[c] == 0 <==> |h.cells[pg]| == 1)
            && Chain(ram, h.cells[pg][1..]) && Chain(ram, h.pages[b][1..])
  {
    var pg, c := TopCell(h, b);
    assert PageAt(ram, pg, h.bin[pg], h.cells[pg]);
    ChainTail(ram, h.cells[pg]);
    ChainTail(ram, h.pages[b]);
    CellSizes(b);
    CellInPage(pg, b, c);
    if |h.cells[pg]| > 1 {
      var d := h.cells[pg][1];
      assert d in h.cells[pg];
      CellInPage(pg, b, d);
    }
  }

  lemma PopPage(ram: Ram, h: Heap, b: int, binHead: seq<int>)
    requires Inv(h) && 0 <= b < BIG_BIN && h.pages[b] != [] && PagesIn(ram, h) && ListsIn(ram, binHead, h)
    ensures h.pages[b][0] in h.bin && h.cells[h.pages[b][0]] != []
    ensures var pg := h.pages[b][0]; var c := h.cells[pg][0];
            c in ram && PageAt(PopRam(ram, pg, c, |h.cells[pg]| == 1), pg, b, h.cells[pg][1..])
  {
    PopFacts(ram, h, b, binHead);
    var pg := h.pages[b][0];
    var rest := h.cells[pg][1..];
    assert PageAt(ram, pg, h.bin[pg], h.cells[pg]);
    forall d | d in rest ensures pg + SMALL_HEADER <= d {
      assert d in h.cells[pg];
      CellSizes(b);
      CellInPage(pg, b, d);
    }
    ChainFrame(ram, PopRam(ram, pg, h.cells[pg][0], |h.cells[pg]| == 1), rest);
  }

  lemma PopLists(ram: Ram, h: Heap, b: int, n: int, binHead: seq<int>)
    requires Inv(h) && 0 <= b < BIG_BIN && h.pages[b] != [] && PagesIn(ram, h) && ListsIn(ram, binHead, h)
    ensures h.pages[b][0] in h.bin && h.cells[h.pages[b][0]] != []
    ensures var pg := h.pages[b][0]; var c := h.cells[pg][0]; var last := |h.cells[pg]| == 1;
            c in ram && pg in ram && ListsIn(PopRam(ram, pg, c, last), if last then binHead[b := ram[pg]] else binHead, TakeCell(h, b, n))
  {
    PopFacts(ram, h, b, binHead);
    TilesApart(h);
    var pg := h.pages[b][0];
    var last := |h.cells[pg]| == 1;
    var ram' := PopRam(ram, pg, h.cells[pg][0], last);
    var h' := TakeCell(h, b, n);
    assert last <==> h.cells[pg][1..] == [];
    DistinctTail(h.pages[b]);
    forall i | 0 <= i < BIG_BIN ensures Chain(ram', h'.pages[i]) {
      assert Chain(ram, h.pages[i]);
      forall q | q in h'.pages[i] ensures q % PAGE_SIZE == 0 && (last ==> q != pg) {
        assert q in h.pages[i];
      }
      ChainFrame(ram, ram', h'.pages[i]);
    }
  }

  lemma PageBounds(h: Heap, pg: int)
    requires Tiled(h) && (pg in h.bin || pg in h.size)
    ensures 0 < h.start <= pg && pg + PAGE_SIZE <= h.end < ADDRESS_SPACE && pg % PAGE_SIZE == 0 && pg % 4 == 0
  {
    TilesApart(h);
    assert Extent(h.size, pg) >= PAGE_SIZE;
    WordAligned(pg);
  }

  lemma WordAligned(a: int)
    requires a % PAGE_SIZE == 0
    ensures a % 4 == 0
  {
    assert a == 4 * (1024 * (a / PAGE_SIZE));
  }

  lemma PopMeta(ram: Ram, h: Heap, pg: int, c: int, last: bool)
    requires Inv(h) && pg in h.bin && c in ram
    ensures OnlyMeta(ram, PopRam(ram, pg, c, last), h, 0)
  {
    assert pg in h.tiles && Meta(h, pg) && Meta(h, pg + HEAD);
  }

  /** Serving a small request. */
  lemma PopCell(ram: Ram, h: Heap, b: int, n: int, binHead: seq<int>, level: int, newestBig: int, height: map<int, int>)
    requires Inv(h) && Repr(ram, binHead, level, newestBig, height, h)
    requires 0 <= b < BIG_BIN && h.pages[b] != [] && 1 <= n <= CellSize(b)
    ensures h.pages[b][0] in h.bin && h.cells[h.pages[b][0]] != []
    ensures var pg := h.pages[b][0]; var c := h.cells[pg][0]; var last := |h.cells[pg]| == 1;
            && c in ram && pg in ram
            && Repr(PopRam(ram, pg, c, last), if last then binHead[b := ram[pg]] else binHead,
                    level, newestBig, height, TakeCell(h, b, n))
  {
    PopFacts(ram, h, b, binHead);
    var pg := h.pages[b][0];
    var c := h.cells[pg][0];
    var ram' := PopRam(ram, pg, c, |h.cells[pg]| == 1);
    var h' := TakeCell(h, b, n);
    assert OnlyInside(ram, ram', pg, pg + PAGE_SIZE);
    PageStep(ram, ram', h, pg, binHead, level, newestBig, height);
    assert PagesIn(ram', h') by { PopPage(ram, h, b, binHead); }
    PopLists(ram, h, b, n, binHead);
    PageBounds(h, pg);
    BoundedStore(ram, h.end, pg + HEAD, ram[c]);
    BoundedStore(ram[pg + HEAD := ram[c]], h.end, pg, 0);
  }

  // ---- pushing a cell ------------------------------------------------------------------------

  /** `klmalloc_stack_push`, after `klmalloc_list_insert` if the page had no free cell. */
  function PushRam(ram: Ram, pg: int, p: int, first: int): Ram
    requires pg + HEAD in ram
  {
    var listed := if ram[pg + HEAD] == 0 then ram[pg := first] else ram;
    listed[p := ram[pg + HEAD]][pg + HEAD := p]
  }

  lemma PushFacts(ram: Ram, h: Heap, p: int)
    requires Inv(h) && p in h.live && Page(p) in h.bin && PagesIn(ram, h)
    ensures var pg := Page(p); var b := h.bin[pg];
            && 0 < pg && pg + SIZE in ram && ram[pg + SIZE] == b && pg + HEAD in ram
            && ram[pg + HEAD] == At(h.cells[pg], 0)
            && (ram[pg + HEAD] == 0 <==> h.cells[pg] == [])
            && pg + SMALL_HEADER <= p < pg + PAGE_SIZE && p % 4 == 0
            && p in AllCells(pg, b) && p !in h.cells[pg]
  {
    var pg := Page(p);
    assert PageAt(ram, pg, h.bin[pg], h.cells[pg]);
    PageBounds(h, pg);
    CellSizes(h.bin[pg]);
    CellInPage(pg, h.bin[pg], p);
    if h.cells[pg] != [] {
      var c := h.cells[pg][0];
      assert c in h.cells[pg];
      CellInPage(pg, h.bin[pg], c);
    }
  }

  lemma PushPage(ram: Ram, h: Heap, p: int, first: int)
    requires Inv(h) && p in h.live && Page(p) in h.bin && PagesIn(ram, h)
    ensures Page(p) + HEAD in ram
    ensures PageAt(PushRam(ram, Page(p), p, first), Page(p), h.bin[Page(p)], [p] + h.cells[Page(p)])
  {
    PushFacts(ram, h, p);
    var pg := Page(p);
    var ram' := PushRam(ram, pg, p, first);
    assert PageAt(ram, pg, h.bin[pg], h.cells[pg]);
    forall d | d in h.cells[pg] ensures pg + SMALL_HEADER <= d && d != p {
      CellSizes(h.bin[pg]);
      CellInPage(pg, h.bin[pg], d);
    }
    ChainFrame(ram, ram', h.cells[pg]);
    ChainCons(ram', p, h.cells[pg]);
  }

  lemma PushLists(ram: Ram, h: Heap, p: int, binHead: seq<int>)
    requires Inv(h) && p in h.live && Page(p) in h.bin && PagesIn(ram, h) && ListsIn(ram, binHead, h)
    ensures Page(p) + HEAD in ram
    ensures var pg := Page(p); var b := h.bin[pg];
            ListsIn(PushRam(ram, pg, p, binHead[b]), if ram[pg + HEAD] == 0 then binHead[b := pg] else binHead, ReturnCell(h, p))
  {
    PushFacts(ram, h, p);
    TilesApart(h);
    var pg := Page(p);
    var b := h.bin[pg];
    var ram' := PushRam(ram, pg, p, binHead[b]);
    var h' := ReturnCell(h, p);
    forall i | 0 <= i < BIG_BIN ensures Chain(ram', h'.pages[i]) {
      assert Chain(ram, h.pages[i]);
      forall q | q in h.pages[i] ensures q % PAGE_SIZE == 0 && q != p && (h.cells[pg] == [] ==> q != pg) {
        if q == p { PageOfBase(p); }
      }
      ChainFrame(ram, ram', h.pages[i]);
      if i == b && h.cells[pg] == [] { ChainCons(ram', pg, h.pages[b]); }
    }
  }

  lemma PageOfBase(q: int)
    requires q % PAGE_SIZE == 0
    ensures Page(q) == q
  {}

  /** Taking back a cell. */
  lemma PushCell(ram: Ram, h: Heap, p: int, binHead: seq<int>, level: int, newestBig: int, height: map<int, int>)
    requires Inv(h) && Repr(ram, binHead, level, newestBig, height, h)
    requires p in h.live && Page(p) in h.bin
    ensures Page(p) + HEAD in ram
    ensures var pg := Page(p); var b := h.bin[pg];
            Repr(PushRam(ram, pg, p, binHead[b]), if ram[pg + HEAD] == 0 then binHead[b := pg] else binHead,
                 level, newestBig, height, ReturnCell(h, p))
  {
    PushFacts(ram, h, p);
    var pg := Page(p);
    var b := h.bin[pg];
    var ram' := PushRam(ram, pg, p, binHead[b]);
    var h' := ReturnCell(h, p);
    assert OnlyInside(ram, ram', pg, pg + PAGE_SIZE);
    PageStep(ram, ram', h, pg, binHead, level, newestBig, height);
    assert PagesIn(ram', h') by { PushPage(ram, h, p, binHead[b]); }
    PushLists(ram, h, p, binHead);
    PushBounded(ram, h, p, binHead);
  }

  lemma PushBounded(ram: Ram, h: Heap, p: int, binHead: seq<int>)
    requires Inv(h) && p in h.live && Page(p) in h.bin && PagesIn(ram, h) && ListsIn(ram, binHead, h) && Bounded(ram, h.end)
    ensures Page(p) + HEAD in ram
    ensures Bounded(PushRam(ram, Page(p), p, binHead[h.bin[Page(p)]]), h.end)
  {
    PushFacts(ram, h, p);
    var pg := Page(p);
    var first := binHead[h.bin[pg]];
    PageBounds(h, pg);
    if first != 0 {
      assert first in h.pages[h.bin[pg]];
      PageBounds(h, first);
    }
    BoundedStore(ram, h.end, pg, first);
    var listed := if ram[pg + HEAD] == 0 then ram[pg := first] else ram;
    BoundedStore(listed, h.end, p, ram[pg + HEAD]);
    BoundedStore(listed[p := ram[pg + HEAD]], h.end, pg + HEAD, p);
  }

  lemma PushMeta(ram: Ram, h: Heap, p: int, first: int)
    requires Inv(h) && p in h.live && Page(p) in h.bin && Page(p) + HEAD in ram
    ensures OnlyMeta(ram, PushRam(ram, Page(p), p, first), h, p)
  {
    var pg := Page(p);
    assert pg in h.tiles && Meta(h, pg) && Meta(h, pg + HEAD);
  }

  // ---- a fresh page --------------------------------------------------------------------------

  /** The header and the threaded cells of a page just obtained at the break. */
  ghost predicate PageBuilt(ram: Ram, ram': Ram, pg: int, b: int, next: int)
    requires 0 <= b
  {
    && OnlyInside(ram, ram', pg, pg + PAGE_SIZE)
    && pg in ram' && ram'[pg] == next
    && PageAt(ram', pg, b, AllCells(pg, b))
    && Bounded(ram', pg + PAGE_SIZE)
  }

  /** The two header words stored before the stack is built. */
  function HeaderRam(ram: Ram, pg: int, next: int): Ram
  {
    ram[pg + HEAD := pg + SMALL_HEADER][pg := next]
  }

  lemma HeaderBounded(ram: Ram, pg: int, next: int)
    requires Bounded(ram, pg) && 0 < pg && pg % PAGE_SIZE == 0 && pg + PAGE_SIZE < ADDRESS_SPACE && 0 <= next < ADDRESS_SPACE
    ensures Bounded(HeaderRam(ram, pg, next), pg + PAGE_SIZE)
  {
    WordAligned(pg);
    WordOffsets(pg);
    BoundedStore(ram, pg + PAGE_SIZE, pg + HEAD, pg + SMALL_HEADER);
    BoundedStore(ram[pg + HEAD := pg + SMALL_HEADER], pg + PAGE_SIZE, pg, next);
  }

  lemma FirstCell(pg: int, b: int)
    requires 0 <= b < BIG_BIN
    ensures At(AllCells(pg, b), 0) == pg + SMALL_HEADER
    ensures forall c :: c in AllCells(pg, b) ==> pg + SMALL_HEADER <= c
  {
    CellSizes(b);
    forall c | c in AllCells(pg, b) ensures pg + SMALL_HEADER <= c { CellInPage(pg, b, c); }
    assert CellAt(pg, b, 0) == pg + SMALL_HEADER;
  }

  /** Header, stack and bin number make a page. */
  lemma PageFinished(ram: Ram, stacked: Ram, pg: int, b: int, next: int)
    requires 0 <= b < BIG_BIN && 0 < pg && pg % PAGE_SIZE == 0
    requires OnlyInside(HeaderRam(ram, pg, next), stacked, pg + SMALL_HEADER, pg + PAGE_SIZE)
    requires Chain(stacked, AllCells(pg, b)) && Bounded(stacked, pg + PAGE_SIZE)
    ensures PageBuilt(ram, stacked[pg + SIZE := b], pg, b, next)
  {
    var ram' := stacked[pg + SIZE := b];
    FirstCell(pg, b);
    ChainFrame(stacked, ram', AllCells(pg, b));
    WordAligned(pg);
    BoundedStore(stacked, pg + PAGE_SIZE, pg + SIZE, b);
    HeaderKept(ram, stacked, pg, next);
  }

  lemma HeaderKept(ram: Ram, stacked: Ram, pg: int, next: int)
    requires OnlyInside(HeaderRam(ram, pg, next), stacked, pg + SMALL_HEADER, pg + PAGE_SIZE)
    ensures OnlyInside(ram, stacked, pg, pg + PAGE_SIZE)
    ensures pg in stacked && stacked[pg] == next && pg + HEAD in stacked && stacked[pg + HEAD] == pg + SMALL_HEADER
  {
    assert pg in HeaderRam(ram, pg, next) && pg + HEAD in HeaderRam(ram, pg, next);
    assert pg in stacked && pg + HEAD in stacked;
  }

  lemma NewPage(ram: Ram, ram': Ram, h: Heap, b: int, binHead: seq<int>, level: int, newestBig: int, height: map<int, int>)
    requires Inv(h) && Repr(ram, binHead, level, newestBig, height, h)
    requires 0 <= b < BIG_BIN && h.end + PAGE_SIZE < ADDRESS_SPACE
    requires PageBuilt(ram, ram', h.end, b, binHead[b])
    ensures Repr(ram', binHead[b := h.end], level, newestBig, height, AddPage(h, b))
  {
    NewPageFrame(ram, ram', h);
    BlocksSame(ram, ram', h);
    ChainSame(ram, ram', newestBig, h);
    SkipSame(ram, ram', h, level, height);
    NewPagePages(ram, ram', h, b, binHead);
    NewPageLists(ram, ram', h, b, binHead);
  }

  lemma NewPagePages(ram: Ram, ram': Ram, h: Heap, b: int, binHead: seq<int>)
    requires Inv(h) && PagesIn(ram, h) && 0 <= b < BIG_BIN && |binHead| == BIG_BIN && h.end + PAGE_SIZE < ADDRESS_SPACE
    requires PageBuilt(ram, ram', h.end, b, binHead[b])
    ensures PagesIn(ram', AddPage(h, b))
  {
    hide Inv, PageAt;
    BreakIsFresh(h);
    NewPageFrame(ram, ram', h);
    forall q | q in h.bin ensures PageAt(ram', q, h.bin[q], h.cells[q]) { PageFrame(ram, ram', h, q); }
  }

  lemma NewPageLists(ram: Ram, ram': Ram, h: Heap, b: int, binHead: seq<int>)
    requires Inv(h) && ListsIn(ram, binHead, h) && 0 <= b < BIG_BIN && h.end + PAGE_SIZE < ADDRESS_SPACE
    requires OnlyInside(ram, ram', h.end, ADDRESS_SPACE) && h.end in ram' && ram'[h.end] == binHead[b]
    ensures ListsIn(ram', binHead[b := h.end], AddPage(h, b))
  {
    NewPageFrame(ram, ram', h);
    var h' := AddPage(h, b);
    forall i | 0 <= i < BIG_BIN ensures Chain(ram', h'.pages[i]) {
      assert Chain(ram, h.pages[i]);
      forall q | q in h.pages[i] ensures q in h.bin {}
      ChainFrame(ram, ram', h.pages[i]);
      if i == b { ChainCons(ram', h.end, h.pages[b]); }
    }
  }

  /** Stores beyond the old break change nothing that was there. */
  lemma NewPageFrame(ram: Ram, ram': Ram, h: Heap)
    requires Inv(h) && OnlyInside(ram, ram', h.end, ADDRESS_SPACE)
    ensures BigSame(ram, ram', h)
    ensures forall q :: q in h.bin ==> SameBlock(ram, ram', q, q + PAGE_SIZE)
  {
    StartBelowEnd(h);
    forall x | x in h.size ensures SameBlock(ram, ram', x, x + BIG_HEADER + 4) { PageBounds(h, x); }
    forall q | q in h.bin ensures SameBlock(ram, ram', q, q + PAGE_SIZE) { PageBounds(h, q); }
  }

  lemma NewPageMeta(ram: Ram, ram': Ram, h: Heap, b: nat, next: int)
    requires PageBuilt(ram, ram', h.end, b, next)
    ensures OnlyMeta(ram, ram', h, 0)
  {}

  lemma StartBelowEnd(h: Heap)
    requires Tiled(h)
    ensures 0 < h.start <= h.end < ADDRESS_SPACE && h.end % 4 == 0
  {
    if h.tiles != [] { TileBounds(h, 0); }
    WordAligned(h.end);
  }

  // ---- stores on the side of the big blocks ----------------------------------------------------

  /** Words on the small side are the same: pages keep their headers, links and stacks. */
  lemma SmallSame(ram: Ram, ram': Ram, h: Heap, binHead: seq<int>)
    requires Inv(h) && PagesIn(ram, h) && ListsIn(ram, binHead, h)
    requires forall q :: q in h.bin ==> SameBlock(ram, ram', q, q + PAGE_SIZE)
    ensures PagesIn(ram', h) && ListsIn(ram', binHead, h)
  {
    forall q | q in h.bin ensures PageAt(ram', q, h.bin[q], h.cells[q]) { PageFrame(ram, ram', h, q); }
    forall i | 0 <= i < BIG_BIN ensures Chain(ram', h.pages[i]) {
      assert Chain(ram, h.pages[i]);
      forall q | q in h.pages[i] ensures q in h.bin {}
      ChainFrame(ram, ram', h.pages[i]);
    }
  }

  ghost predicate HeapNodes(h: Heap, nodes: seq<int>)
  {
    forall x :: x in nodes ==> x == h.root || x in h.size
  }

  /** Forward arrays are apart from everything else the allocator reads. */
  lemma ForwardsApart(h: Heap, nodes: seq<int>)
    requires Inv(h) && HeapNodes(h, nodes)
    ensures forall q, a :: q in h.bin && q <= a < q + PAGE_SIZE ==> !ForwardWord(nodes, a)
    ensures forall x, a :: x in h.size && (x <= a < x + FORWARD || a == x + BIG_HEADER) ==> !ForwardWord(nodes, a)
  {
    TilesApart(h);
    StartBelowEnd(h);
  }

  lemma ForwardsStep(ram: Ram, ram': Ram, h: Heap, nodes: seq<int>, binHead: seq<int>, newestBig: int)
    requires Inv(h) && HeapNodes(h, nodes) && OnlyForwards(ram, ram', nodes)
    requires PagesIn(ram, h) && ListsIn(ram, binHead, h) && BlocksIn(ram, h) && ChainIn(ram, newestBig, h.bigs)
    ensures PagesIn(ram', h) && ListsIn(ram', binHead, h) && BlocksIn(ram', h) && ChainIn(ram', newestBig, h.bigs)
  {
    ForwardsApart(h, nodes);
    SmallSame(ram, ram', h, binHead);
    forall x | x in h.size ensures BlockIn(ram', h.size, h.free, x) {
      assert BlockIn(ram, h.size, h.free, x);
    }
    forall x | x in h.size ensures KeptLinks(ram, ram', x) {
      assert !ForwardWord(nodes, x) && !ForwardWord(nodes, x + PREV);
    }
    ChainStep(ram, ram', newestBig, h);
  }

  /** Block `x` keeps its two chain links. */
  ghost predicate KeptLinks(ram: Ram, ram': Ram, x: int)
  {
    && (x in ram ==> x in ram' && ram'[x] == ram[x])
    && (x + PREV in ram ==> x + PREV in ram' && ram'[x + PREV] == ram[x + PREV])
  }

  lemma ChainStep(ram: Ram, ram': Ram, newestBig: int, h: Heap)
    requires BigChain(h) && ChainIn(ram, newestBig, h.bigs)
    requires forall x :: x in h.size ==> KeptLinks(ram, ram', x)
    ensures ChainIn(ram', newestBig, h.bigs)
  {
    ChainFrame(ram, ram', h.bigs);
    forall k | 0 <= k < |h.bigs| ensures PrevLink(ram', h.bigs, k) {
      assert PrevLink(ram, h.bigs, k);
      var x := h.bigs[k];
      assert x in h.bigs && KeptLinks(ram, ram', x);
    }
  }

  lemma ForwardsMeta(ram: Ram, ram': Ram, h: Heap, nodes: seq<int>)
    requires Inv(h) && HeapNodes(h, nodes) && OnlyForwards(ram, ram', nodes)
    ensures OnlyMeta(ram, ram', h, 0)
  {
    forall a | ForwardWord(nodes, a) ensures Meta(h, a) {
      var x :| x in nodes && x + FORWARD <= a < x + BIG_HEADER;
      if x != h.root { assert x in h.tiles; }
    }
  }

  /** Only the head word of block `x` and its first payload word have changed. */
  ghost predicate OnlyHead(ram: Ram, ram': Ram, x: int)
  {
    forall a {:trigger a in ram'} {:trigger ram'[a]} :: a != x + HEAD && a != x + BIG_HEADER ==>
      (a in ram' <==> a in ram) && (a in ram ==> ram'[a] == ram[a])
  }

  /** Pushing or popping a block's single cell touches nothing else. */
  lemma HeadStep(ram: Ram, ram': Ram, h: Heap, x: int, binHead: seq<int>, newestBig: int)
    requires Inv(h) && x in h.size && OnlyHead(ram, ram', x)
    requires PagesIn(ram, h) && ListsIn(ram, binHead, h) && BlocksIn(ram, h) && ChainIn(ram, newestBig, h.bigs)
    ensures PagesIn(ram', h) && ListsIn(ram', binHead, h) && ChainIn(ram', newestBig, h.bigs)
    ensures forall y {:trigger BlockIn(ram', h.size, h.free, y)} :: y in h.size && y != x ==> BlockIn(ram', h.size, h.free, y)
    ensures x + SIZE in ram' && ram'[x + SIZE] == h.size[x]
  {
    assert BlockIn(ram, h.size, h.free, x);
    forall q | q in h.bin ensures SameBlock(ram, ram', q, q + PAGE_SIZE) { TwoTiles(h, x, q); }
    SmallSame(ram, ram', h, binHead);
    forall y | y in h.size && y != x ensures BlockIn(ram', h.size, h.free, y) {
      TwoTiles(h, x, y);
      assert BlockIn(ram, h.size, h.free, y);
    }
    forall y | y in h.size ensures KeptLinks(ram, ram', y) {
      if y != x { TwoTiles(h, x, y); }
    }
    ChainStep(ram, ram', newestBig, h);
  }

  lemma TwoTiles(h: Heap, t: int, u: int)
    requires Tiled(h) && t != u && (t in h.bin || t in h.size) && (u in h.bin || u in h.size)
    ensures t + PAGE_SIZE <= u || u + PAGE_SIZE <= t
  {
    TilesApart(h);
  }

  lemma HeadSkip(ram: Ram, ram': Ram, h: Heap, x: int, free: seq<int>, level: int, height: map<int, int>)
    requires Inv(h) && x in h.size && OnlyHead(ram, ram', x)
    requires SkipOk(ram, h.root, level, free, height, h.size)
    ensures SkipOk(ram', h.root, level, free, height, h.size)
  {
    TilesApart(h);
    StartBelowEnd(h);
    forall y | y in free ensures Block(ram', h.size, y) {
      assert Block(ram, h.size, y);
    }
    forall i | 0 <= i <= SKIP_MAX_LEVEL ensures Linked(ram', h.root, i, Level(free, height, i)) {
      assert Linked(ram, h.root, i, Level(free, height, i));
      forall y | y in [h.root] + Level(free, height, i)
        ensures Forward(y, i) != x + HEAD && Forward(y, i) != x + BIG_HEADER
      {
        if y != h.root {
          LevelMember(free, height, i, y);
          assert Block(ram, h.size, y);
        }
      }
      LinkFrame(ram, ram', h.root, i, Level(free, height, i));
    }
  }

  // ---- taking a free block -------------------------------------------------------------------

  /** The store that marks block `x` as taken. */
  lemma PopHead(ram: Ram, h: Heap, k: nat, n: int, binHead: seq<int>, newestBig: int)
    requires Inv(h) && k < |h.free| && h.free[k] in h.size
    requires PagesIn(ram, h) && ListsIn(ram, binHead, h) && BlocksIn(ram, h) && ChainIn(ram, newestBig, h.bigs)
    ensures var ram' := ram[h.free[k] + HEAD := 0]; var h' := TakeBlock(h, k, n);
            PagesIn(ram', h') && ListsIn(ram', binHead, h') && BlocksIn(ram', h') && ChainIn(ram', newestBig, h'.bigs)
  {
    var x := h.free[k];
    var ram', h' := ram[x + HEAD := 0], TakeBlock(h, k, n);
    HeadStep(ram, ram', h, x, binHead, newestBig);
    RemoveAtDistinct(h.free, k);
    forall y | y in h.size ensures BlockIn(ram', h'.size, h'.free, y) {
      if y != x { assert BlockIn(ram', h.size, h.free, y); }
    }
  }

  lemma HeadBounded(ram: Ram, h: Heap, x: int, v: int)
    requires Inv(h) && x in h.size && Bounded(ram, h.end) && 0 <= v < ADDRESS_SPACE
    ensures Bounded(ram[x + HEAD := v], h.end) && Bounded(ram[x + BIG_HEADER := v], h.end)
  {
    PageBounds(h, x);
    WordOffsets(x);
    BoundedStore(ram, h.end, x + HEAD, v);
    BoundedStore(ram, h.end, x + BIG_HEADER, v);
  }

  lemma WordOffsets(x: int)
    requires x % 4 == 0
    ensures (x + HEAD) % 4 == 0 && (x + BIG_HEADER) % 4 == 0
  {}

  /** The block that a request fits is free, and its header says so. */
  lemma FitFacts(ram: Ram, h: Heap, n: int)
    requires Inv(h) && n > 0 && Fit(h, n) < |h.free| && BlocksIn(ram, h)
    ensures var x := h.free[Fit(h, n)];
            && x in h.free && x in h.size && n <= h.size[x] && 0 < x
            && x + HEAD in ram && ram[x + HEAD] == x + BIG_HEADER
            && x + BIG_HEADER in ram && ram[x + BIG_HEADER] == 0
  {
    var x := h.free[Fit(h, n)];
    assert x in h.free;
    assert BlockIn(ram, h.size, h.free, x);
    CutSplits(h.free, h.size, n);
    PageBounds(h, x);
  }

  /** `klmalloc_stack_pop` on a big header, after it has been unlinked. */
  lemma PopBlock(ram: Ram, h: Heap, k: nat, n: int, binHead: seq<int>, level: int, newestBig: int, height: map<int, int>)
    requires Inv(h) && k < |h.free| && h.free[k] in h.size
    requires PagesIn(ram, h) && ListsIn(ram, binHead, h) && BlocksIn(ram, h) && ChainIn(ram, newestBig, h.bigs) && Bounded(ram, h.end)
    requires SkipOk(ram, h.root, level, RemoveAt(h.free, k), height, h.size)
    ensures Repr(ram[h.free[k] + HEAD := 0], binHead, level, newestBig, height, TakeBlock(h, k, n))
  {
    PopHead(ram, h, k, n, binHead, newestBig);
    HeadSkip(ram, ram[h.free[k] + HEAD := 0], h, h.free[k], RemoveAt(h.free, k), level, height);
    HeadBounded(ram, h, h.free[k], 0);
  }

  /** Serving a big request from the free list writes headers only. */
  lemma PopBlockMeta(ram: Ram, ram': Ram, h: Heap, x: int, v: int)
    requires Inv(h) && x in h.free && OnlyForwards(ram, ram', [h.root] + h.free)
    ensures OnlyMeta(ram, ram'[x + HEAD := v], h, 0)
  {
    assert HeapNodes(h, [h.root] + h.free);
    ForwardsMeta(ram, ram', h, [h.root] + h.free);
    assert x in h.tiles && Meta(h, x + HEAD);
  }

  // ---- returning a block ---------------------------------------------------------------------

  /** `klmalloc_stack_push` on a big header. */
  function PushBlockRam(ram: Ram, x: int): Ram
    requires x + HEAD in ram
  {
    ram[x + BIG_HEADER := ram[x + HEAD]][x + HEAD := x + BIG_HEADER]
  }

  /** The header of a live block. */
  lemma LiveBlockFacts(ram: Ram, h: Heap, x: int)
    requires Inv(h) && BlocksIn(ram, h) && x in h.size && x + BIG_HEADER in h.live
    ensures x > 0 && x % PAGE_SIZE == 0 && x !in h.free
    ensures x + SIZE in ram && ram[x + SIZE] == h.size[x] && x + HEAD in ram && ram[x + HEAD] == 0
    ensures 0 < h.size[x] < ADDRESS_SPACE && (h.size[x] + BIG_HEADER) % PAGE_SIZE == 0
  {
    assert x !in h.free;
    assert BlockIn(ram, h.size, h.free, x);
    TilesApart(h);
  }

  lemma PushHead(ram: Ram, h: Heap, x: int, binHead: seq<int>, newestBig: int)
    requires Inv(h) && x in h.size && x + BIG_HEADER in h.live
    requires PagesIn(ram, h) && ListsIn(ram, binHead, h) && BlocksIn(ram, h) && ChainIn(ram, newestBig, h.bigs)
    ensures x + HEAD in ram
    ensures var ram' := PushBlockRam(ram, x);
            && PagesIn(ram', h) && ListsIn(ram', binHead, h) && ChainIn(ram', newestBig, h.bigs)
            && (forall y {:trigger BlockIn(ram', h.size, h.free + [x], y)} :: y in h.size ==> BlockIn(ram', h.size, h.free + [x], y))
  {
    LiveBlockFacts(ram, h, x);
    var ram' := PushBlockRam(ram, x);
    HeadStep(ram, ram', h, x, binHead, newestBig);
    forall y | y in h.size ensures BlockIn(ram', h.size, h.free + [x], y) {
      if y != x { assert BlockIn(ram', h.size, h.free, y); }
    }
  }

  lemma PushBlock(ram: Ram, h: Heap, x: int, binHead: seq<int>, level: int, newestBig: int, height: map<int, int>)
    requires Inv(h) && Repr(ram, binHead, level, newestBig, height, h)
    requires x in h.size && x + BIG_HEADER in h.live
    ensures x + HEAD in ram
    ensures var ram' := PushBlockRam(ram, x);
            Bounded(ram', h.end) && SkipOk(ram', h.root, level, h.free, height, h.size)
            && Block(ram', h.size, x) && Separate([h.root] + h.free + [x])
  {
    LiveBlockFacts(ram, h, x);
    var ram' := PushBlockRam(ram, x);
    HeadSkip(ram, ram', h, x, h.free, level, height);
    HeadBounded(ram, h, x, 0);
    PageBounds(h, x);
    HeadBounded(ram[x + BIG_HEADER := 0], h, x, x + BIG_HEADER);
    SeparateNew(h, x);
  }

  lemma SeparateNew(h: Heap, x: int)
    requires Inv(h) && x in h.size && x !in h.free
    ensures Separate([h.root] + h.free + [x])
  {
    RootApart(h);
    DistinctCons(h.root, h.free);
    DistinctEnd([h.root] + h.free, x);
    var nodes := [h.root] + h.free + [x];
    forall y, z | y in nodes && z in nodes && y != z ensures y + BIG_HEADER <= z || z + BIG_HEADER <= y {
      if y != h.root && z != h.root { TwoTiles(h, y, z); }
    }
  }

  lemma DistinctEnd(s: seq<int>, x: int)
    requires Distinct(s) && x !in s
    ensures Distinct(s + [x])
  {}

  lemma RootApart(h: Heap)
    requires Tiled(h)
    ensures forall y :: y in h.size ==> h.root + BIG_HEADER <= y
  {
    forall y | y in h.size ensures h.root + BIG_HEADER <= y { PageBounds(h, y); }
  }

  /** The block linked in again: the heap is as if it had never been taken. */
  lemma LinkBlock(ram: Ram, ram': Ram, h: Heap, x: int, binHead: seq<int>, level: int, newestBig: int, height: map<int, int>)
    requires Inv(h) && x in h.size && x + BIG_HEADER in h.live && Page(x + BIG_HEADER) == x
    requires PagesIn(ram, h) && ListsIn(ram, binHead, h) && ChainIn(ram, newestBig, h.bigs) && Bounded(ram', h.end)
    requires forall y {:trigger BlockIn(ram, h.size, h.free + [x], y)} :: y in h.size ==> BlockIn(ram, h.size, h.free + [x], y)
    requires OnlyForwards(ram, ram', [h.root] + h.free + [x])
    requires SkipOk(ram', h.root, level, InsertAt(h.free, Cut(h.free, h.size, h.size[x]), x), height, h.size)
    ensures Repr(ram', binHead, level, newestBig, height, ReturnBlock(h, x + BIG_HEADER))
  {
    var h' := ReturnBlock(h, x + BIG_HEADER);
    ReturnBlockKeeps(h, x + BIG_HEADER);
    ReturnedBlocks(ram, h, x);
    assert PagesIn(ram, h') && ListsIn(ram, binHead, h');
    assert HeapNodes(h', [h.root] + h.free + [x]);
    ForwardsStep(ram, ram', h', [h.root] + h.free + [x], binHead, newestBig);
  }

  lemma ReturnedBlocks(ram: Ram, h: Heap, x: int)
    requires Inv(h) && x in h.size && x + BIG_HEADER in h.live && Page(x + BIG_HEADER) == x
    requires forall y {:trigger BlockIn(ram, h.size, h.free + [x], y)} :: y in h.size ==> BlockIn(ram, h.size, h.free + [x], y)
    ensures BlocksIn(ram, ReturnBlock(h, x + BIG_HEADER))
  {
    var h' := ReturnBlock(h, x + BIG_HEADER);
    assert x !in h.free;
    InsertAtDistinct(h.free, Cut(h.free, h.size, h.size[x]), x);
    forall y | y in h'.size ensures BlockIn(ram, h'.size, h'.free, y) {
      assert BlockIn(ram, h.size, h.free + [x], y);
    }
  }

  lemma PushBlockMeta(ram: Ram, ram': Ram, h: Heap, x: int)
    requires Inv(h) && x in h.size && x + HEAD in ram
    requires OnlyForwards(PushBlockRam(ram, x), ram', [h.root] + h.free + [x])
    ensures OnlyMeta(ram, ram', h, x + BIG_HEADER)
  {
    ForwardsMeta(PushBlockRam(ram, x), ram', h, [h.root] + h.free + [x]);
    assert x in h.tiles && Meta(h, x + HEAD);
  }

  // ---- a fresh block -------------------------------------------------------------------------

  /** Header of a block at the break, linked behind the newest one. */
  function NewBlockRam(ram: Ram, x: int, size: int, newestBig: int): Ram
  {
    var sized := ram[x + SIZE := size][x + PREV := newestBig];
    var linked := if newestBig != 0 then sized[newestBig := x] else sized;
    linked[x := 0][x + HEAD := 0]
  }

  /** The stores go to the new header and to the newest block's `next`. */
  ghost predicate OnlyNew(ram: Ram, ram': Ram, x: int, newestBig: int)
  {
    forall a {:trigger a in ram'} {:trigger ram'[a]} :: a < x && a != newestBig ==>
      (a in ram' <==> a in ram) && (a in ram ==> ram'[a] == ram[a])
  }

  lemma Newest(h: Heap, ram: Ram, newestBig: int)
    requires Inv(h) && ChainIn(ram, newestBig, h.bigs)
    ensures newestBig != 0 ==> h.bigs != [] && newestBig == h.bigs[|h.bigs| - 1] && newestBig in h.size && newestBig in ram
    ensures newestBig == 0 ==> h.bigs == []
    ensures forall y :: y in h.bigs ==> y < h.end
  {
    forall y | y in h.bigs ensures 0 < y < h.end { PageBounds(h, y); }
    if h.bigs != [] {
      assert newestBig in h.bigs;
      assert Link(ram, h.bigs, |h.bigs| - 1);
    }
  }

  lemma NewBlockSame(ram: Ram, ram': Ram, h: Heap, newestBig: int, binHead: seq<int>)
    requires Inv(h) && (newestBig != 0 ==> newestBig in h.size) && OnlyNew(ram, ram', h.end, newestBig)
    requires PagesIn(ram, h) && ListsIn(ram, binHead, h) && BlocksIn(ram, h)
    ensures PagesIn(ram', h) && ListsIn(ram', binHead, h) && BlocksIn(ram', h)
  {
    forall q | q in h.bin ensures SameBlock(ram, ram', q, q + PAGE_SIZE) {
      PageBounds(h, q);
      if newestBig != 0 { TwoTiles(h, q, newestBig); }
    }
    SmallSame(ram, ram', h, binHead);
    forall y | y in h.size ensures BlockIn(ram', h.size, h.free, y) {
      PageBounds(h, y);
      assert BlockIn(ram, h.size, h.free, y);
      if newestBig != 0 && y != newestBig { TwoTiles(h, y, newestBig); }
    }
  }

  lemma NewBlockSkip(ram: Ram, ram': Ram, h: Heap, newestBig: int, level: int, height: map<int, int>)
    requires Inv(h) && (newestBig != 0 ==> newestBig in h.size) && OnlyNew(ram, ram', h.end, newestBig)
    requires SkipOk(ram, h.root, level, h.free, height, h.size)
    ensures SkipOk(ram', h.root, level, h.free, height, h.size)
  {
    forall y | y in h.free ensures Block(ram', h.size, y) {
      assert Block(ram, h.size, y);
      PageBounds(h, y);
      if newestBig != 0 && y != newestBig { TwoTiles(h, y, newestBig); }
    }
    StartBelowEnd(h);
    if newestBig != 0 { PageBounds(h, newestBig); }
    forall i | 0 <= i <= SKIP_MAX_LEVEL ensures Linked(ram', h.root, i, Level(h.free, height, i)) {
      assert Linked(ram, h.root, i, Level(h.free, height, i));
      forall y | y in [h.root] + Level(h.free, height, i) ensures Forward(y, i) < h.end && Forward(y, i) != newestBig {
        if y != h.root {
          LevelMember(h.free, height, i, y);
          PageBounds(h, y);
          if newestBig != 0 && y != newestBig { TwoTiles(h, y, newestBig); }
        }
      }
      LinkFrame(ram, ram', h.root, i, Level(h.free, height, i));
    }
  }

  lemma NewBlockChain(ram: Ram, h: Heap, size: int, newestBig: int)
    requires Inv(h) && ChainIn(ram, newestBig, h.bigs)
    ensures ChainIn(NewBlockRam(ram, h.end, size, newestBig), h.end, h.bigs + [h.end])
  {
    Newest(h, ram, newestBig);
    var x, bigs := h.end, h.bigs;
    var ram' := NewBlockRam(ram, x, size, newestBig);
    var all := bigs + [x];
    forall k | 0 <= k < |bigs|
      ensures bigs[k] % PAGE_SIZE == 0 && 0 < bigs[k] && bigs[k] + PAGE_SIZE <= x
      ensures newestBig != bigs[k] ==> newestBig + PAGE_SIZE <= bigs[k] || bigs[k] + PAGE_SIZE <= newestBig
    {
      var y := bigs[k];
      assert y in bigs;
      PageBounds(h, y);
      if y != newestBig { TwoTiles(h, y, newestBig); }
    }
    forall k | 0 <= k < |all| ensures Link(ram', all, k) && PrevLink(ram', all, k) {
      if k < |bigs| {
        assert Link(ram, bigs, k) && PrevLink(ram, bigs, k);
        assert k < |bigs| - 1 ==> bigs[k] < bigs[|bigs| - 1];
      }
    }
  }

  lemma NewBlockBounded(ram: Ram, x: int, end: int, size: int, newestBig: int)
    requires Bounded(ram, x) && 0 < x && x + BIG_HEADER <= end < ADDRESS_SPACE && x % 4 == 0
    requires 0 <= newestBig < x && newestBig % 4 == 0 && 0 <= size < ADDRESS_SPACE
    ensures Bounded(NewBlockRam(ram, x, size, newestBig), end)
  {
    BoundedStore(ram, end, x + SIZE, size);
    var r1 := ram[x + SIZE := size];
    BoundedStore(r1, end, x + PREV, newestBig);
    var r2 := r1[x + PREV := newestBig];
    BoundedStore(r2, end, newestBig, x);
    var r3 := if newestBig != 0 then r2[newestBig := x] else r2;
    BoundedStore(r3, end, x, 0);
    BoundedStore(r3[x := 0], end, x + HEAD, 0);
  }

  /** Serving a big request with a block of its own. */
  lemma NewBlock(ram: Ram, h: Heap, n: nat, binHead: seq<int>, level: int, newestBig: int, height: map<int, int>)
    requires Inv(h) && Repr(ram, binHead, level, newestBig, height, h)
    requires n > 0 && h.end + BlockPages(n) * PAGE_SIZE < ADDRESS_SPACE
    ensures Repr(NewBlockRam(ram, h.end, BlockPages(n) * PAGE_SIZE - BIG_HEADER, newestBig), binHead, level, h.end, height, AddBlock(h, n))
  {
    hide Inv, PagesIn, ListsIn, BlocksIn, ChainIn, SkipOk, Bounded, BlockAt, NewBlockRam, OnlyNew, BlockPages;
    var x, size := h.end, BlockPages(n) * PAGE_SIZE - BIG_HEADER;
    var ram', h' := NewBlockRam(ram, x, size, newestBig), AddBlock(h, n);
    Newest(h, ram, newestBig);
    NewestBelow(h, newestBig);
    NewBlockStores(ram, x, size, newestBig);
    NewBlockSame(ram, ram', h, newestBig, binHead);
    NewBlockSkip(ram, ram', h, newestBig, level, height);
    NewBlockChain(ram, h, size, newestBig);
    BlockFits(n);
    BreakIsFresh(h);
    NewBlockBounded(ram, x, h'.end, size, newestBig);
    NewBlockBlocks(ram', h, n);
    NewBlockSmall(ram', h, n, binHead);
    SkipGrown(ram', h, n, level, height);
  }

  lemma NewestBelow(h: Heap, newestBig: int)
    requires Inv(h) && (newestBig != 0 ==> newestBig in h.size)
    ensures 0 <= newestBig && newestBig % 4 == 0 && newestBig < h.end
    ensures newestBig != 0 ==> newestBig + PAGE_SIZE <= h.end
    ensures 0 < h.end && h.end % 4 == 0
  {
    StartBelowEnd(h);
    if newestBig != 0 { PageBounds(h, newestBig); }
  }

  lemma NewBlockStores(ram: Ram, x: int, size: int, newestBig: int)
    requires newestBig != 0 ==> newestBig < x
    ensures OnlyNew(ram, NewBlockRam(ram, x, size, newestBig), x, newestBig)
    ensures BlockAt(NewBlockRam(ram, x, size, newestBig), x, size, false)
  {}

  /** Pages and their lists are not about blocks. */
  lemma NewBlockSmall(ram: Ram, h: Heap, n: nat, binHead: seq<int>)
    requires PagesIn(ram, h) && ListsIn(ram, binHead, h)
    ensures PagesIn(ram, AddBlock(h, n)) && ListsIn(ram, binHead, AddBlock(h, n))
  {}

  lemma NewBlockBlocks(ram: Ram, h: Heap, n: nat)
    requires BlocksIn(ram, h) && h.end !in h.free
    requires BlockAt(ram, h.end, BlockPages(n) * PAGE_SIZE - BIG_HEADER, false)
    ensures BlocksIn(ram, AddBlock(h, n))
  {
    var h' := AddBlock(h, n);
    forall y | y in h'.size ensures BlockIn(ram, h'.size, h'.free, y) {
      if y != h.end { assert BlockIn(ram, h.size, h.free, y); }
    }
  }

  /** Recording one more block's size does not concern the free list. */
  lemma SkipGrown(ram: Ram, h: Heap, n: nat, level: int, height: map<int, int>)
    requires Inv(h) && h.end !in h.size && SkipOk(ram, h.root, level, h.free, height, h.size)
    ensures SkipOk(ram, h.root, level, h.free, height, AddBlock(h, n).size)
  {
    var size' := AddBlock(h, n).size;
    forall y | y in h.free ensures Block(ram, size', y) && SizeOf(size', y) == SizeOf(h.size, y) {
      assert Block(ram, h.size, y);
    }
    assert forall i :: 0 <= i < |h.free| ==> h.free[i] in h.free;
  }

  lemma NewBlockMeta(ram: Ram, h: Heap, size: int, newestBig: int)
    requires Inv(h) && (newestBig != 0 ==> newestBig in h.size)
    ensures OnlyMeta(ram, NewBlockRam(ram, h.end, size, newestBig), h, 0)
  {
    if newestBig != 0 { assert newestBig in h.tiles && Meta(h, newestBig); }
  }

  // ---- client stores -------------------------------------------------------------------------

  /** Address `a` is outside the block at `p`. */
  ghost predicate Outside(h: Heap, p: int, a: int) { a < p || p + Room(h.bin, h.size, p) <= a }

  lemma HeaderOutside(h: Heap, p: int, t: int, a: int)
    requires Inv(h) && p in h.live && (t in h.bin || t in h.size) && t <= a < t + HeaderLength(h, t)
    ensures Outside(h, p, a)
  {
    TilesApart(h);
    SlotClearOfHeader(h, p, t);
  }

  lemma FreeCellOutside(h: Heap, p: int, q: int, c: int)
    requires Inv(h) && p in h.live && q in h.bin && c in h.cells[q]
    ensures Outside(h, p, c)
  {
    TilesApart(h);
    CellIsSlot(h, q, c);
    CellSizes(h.bin[q]);
    assert c !in h.live;
    SlotsApart(h, p, c);
  }

  lemma FreeBlockOutside(h: Heap, p: int, x: int)
    requires Inv(h) && p in h.live && x in h.free
    ensures Outside(h, p, x + BIG_HEADER)
  {
    TilesApart(h);
    BlockIsSlot(h, x);
    SlotsApart(h, p, x + BIG_HEADER);
  }

  lemma LivePages(ram: Ram, ram': Ram, h: Heap, p: int, binHead: seq<int>)
    requires Inv(h) && p in h.live && OnlyInside(ram, ram', p, p + Room(h.bin, h.size, p))
    requires PagesIn(ram, h) && ListsIn(ram, binHead, h)
    ensures PagesIn(ram', h) && ListsIn(ram', binHead, h)
  {
    forall q | q in h.bin ensures PageAt(ram', q, h.bin[q], h.cells[q]) {
      HeaderOutside(h, p, q, q + HEAD);
      HeaderOutside(h, p, q, q + SIZE);
      forall c | c in h.cells[q] ensures Outside(h, p, c) { FreeCellOutside(h, p, q, c); }
      ChainFrame(ram, ram', h.cells[q]);
    }
    forall i | 0 <= i < BIG_BIN ensures Chain(ram', h.pages[i]) {
      assert Chain(ram, h.pages[i]);
      forall q | q in h.pages[i] ensures Outside(h, p, q) { HeaderOutside(h, p, q, q); }
      ChainFrame(ram, ram', h.pages[i]);
    }
  }

  lemma LiveBlocks(ram: Ram, ram': Ram, h: Heap, p: int, newestBig: int)
    requires Inv(h) && p in h.live && OnlyInside(ram, ram', p, p + Room(h.bin, h.size, p))
    requires BlocksIn(ram, h) && ChainIn(ram, newestBig, h.bigs)
    ensures BlocksIn(ram', h) && ChainIn(ram', newestBig, h.bigs)
  {
    forall x | x in h.size ensures BlockIn(ram', h.size, h.free, x) && KeptLinks(ram, ram', x) {
      HeaderOutside(h, p, x, x);
      HeaderOutside(h, p, x, x + HEAD);
      HeaderOutside(h, p, x, x + SIZE);
      HeaderOutside(h, p, x, x + PREV);
      assert BlockIn(ram, h.size, h.free, x);
      if x in h.free { FreeBlockOutside(h, p, x); }
    }
    ChainStep(ram, ram', newestBig, h);
  }

  lemma LiveSkip(ram: Ram, ram': Ram, h: Heap, p: int, level: int, height: map<int, int>)
    requires Inv(h) && p in h.live && OnlyInside(ram, ram', p, p + Room(h.bin, h.size, p))
    requires SkipOk(ram, h.root, level, h.free, height, h.size)
    ensures SkipOk(ram', h.root, level, h.free, height, h.size)
  {
    forall y | y in h.free ensures Block(ram', h.size, y) {
      assert Block(ram, h.size, y);
      HeaderOutside(h, p, y, y + SIZE);
    }
    TilesApart(h);
    SlotClearOfHeader(h, p, Page(p));
    forall i | 0 <= i <= SKIP_MAX_LEVEL ensures Linked(ram', h.root, i, Level(h.free, height, i)) {
      assert Linked(ram, h.root, i, Level(h.free, height, i));
      forall y | y in [h.root] + Level(h.free, height, i) ensures Outside(h, p, Forward(y, i)) {
        if y != h.root {
          LevelMember(h.free, height, i, y);
          HeaderOutside(h, p, y, Forward(y, i));
        }
      }
      LinkFrame(ram, ram', h.root, i, Level(h.free, height, i));
    }
  }

  /** Whatever a client stores in its own block, the allocator's data are untouched. */
  lemma LiveStore(ram: Ram, ram': Ram, h: Heap, p: int, binHead: seq<int>, level: int, newestBig: int, height: map<int, int>)
    requires Inv(h) && p in h.live && Repr(ram, binHead, level, newestBig, height, h)
    requires OnlyWithin(ram, ram', p, p + Room(h.bin, h.size, p)) && Words(ram')
    ensures Repr(ram', binHead, level, newestBig, height, h)
    ensures forall q :: q in h.live && q != p ==> SameBlock(ram, ram', q, q + Room(h.bin, h.size, q))
  {
    TilesApart(h);
    SlotPage(h, p);
    StoreInside(ram, ram', p, p + Room(h.bin, h.size, p));
    LivePages(ram, ram', h, p, binHead);
    LiveBlocks(ram, ram', h, p, newestBig);
    LiveSkip(ram, ram', h, p, level, height);
    SlotClearOfHeader(h, p, Page(p));
    forall a | a in ram' ensures 0 <= a < h.end { if a < p || p + Room(h.bin, h.size, p) <= a { assert a in ram; } }
    forall q | q in h.live && q != p ensures SameBlock(ram, ram', q, q + Room(h.bin, h.size, q)) {
      SlotsApart(h, p, q);
    }
  }

  /** Between aligned bounds no word straddles the boundary. */
  lemma StoreInside(ram: Ram, ram': Ram, lo: int, hi: int)
    requires Words(ram) && Words(ram') && OnlyWithin(ram, ram', lo, hi) && lo % 4 == 0
    ensures OnlyInside(ram, ram', lo, hi)
  {
    forall a | a < lo ensures (a in ram' <==> a in ram) && (a in ram ==> ram'[a] == ram[a]) {
      if a % 4 == 0 { assert a + 4 <= lo; }
    }
  }

  // ---- forward stores stay in bounds -----------------------------------------------------------

  ghost predicate Placed(nodes: seq<int>, end: int)
  {
    forall x :: x in nodes ==> 0 <= x && x % 4 == 0 && x + BIG_HEADER <= end
  }

  lemma ForwardBounded(ram: Ram, end: int, nodes: seq<int>, x: int, i: int, v: int)
    requires Bounded(ram, end) && Placed(nodes, end) && x in nodes && 0 <= i <= SKIP_MAX_LEVEL && 0 <= v < ADDRESS_SPACE
    ensures Bounded(ram[Forward(x, i) := v], end)
  {
    BoundedStore(ram, end, Forward(x, i), v);
  }

  lemma NodesPlaced(h: Heap, nodes: seq<int>)
    requires Inv(h) && HeapNodes(h, nodes)
    ensures Placed(nodes, h.end)
  {
    StartBelowEnd(h);
    forall x | x in nodes && x != h.root ensures 0 <= x && x % 4 == 0 && x + BIG_HEADER <= h.end { PageBounds(h, x); }
  }

  /** One round of the loop that links a node in, in a memory that differs from `first` in
      forward words only. */
  lemma LinkInStep(first: Ram, ram: Ram, root: int, free: seq<int>, k: nat, height: map<int, int>, size: map<int, int>,
                   v: int, i: int, end: int)
    requires k <= |free| && 0 <= i <= SKIP_MAX_LEVEL && Separate([root] + free + [v])
    requires AllLinked(ram, root, Spliced(free, k, height, v, i)) && OnlyForwards(first, ram, [root] + free + [v])
    requires forall x :: x in free ==> Block(first, size, x)
    requires Bounded(ram, end) && end < ADDRESS_SPACE && Placed([root] + free + [v], end)
    ensures Forward(Last(root, Level(free[..k], height, i)), i) in ram
    ensures var p := Last(root, Level(free[..k], height, i));
            var linked := ram[Forward(v, i) := ram[Forward(p, i)]];
            var ram' := linked[Forward(p, i) := v];
            && (ram[Forward(p, i)] != 0 ==> Block(linked, size, ram[Forward(p, i)]))
            && AllLinked(ram', root, Spliced(free, k, height, v, i + 1))
            && OnlyForwards(first, ram', [root] + free + [v]) && Bounded(ram', end)
  {
    var nodes := [root] + free + [v];
    var p := Last(root, Level(free[..k], height, i));
    SpliceStep(ram, root, free, k, height, v, i);
    LastAmong(root, free, k, height, i);
    assert v in nodes by { assert nodes[|free| + 1] == v; }
    var next := ram[Forward(p, i)];
    if next != 0 { SizeAfterStore(first, ram, nodes, size, v, i, next); }
    ForwardBounded(ram, end, nodes, v, i, next);
    ForwardBounded(ram[Forward(v, i) := next], end, nodes, p, i, v);
    OnlyForwardsTrans(first, ram, ram[Forward(v, i) := next][Forward(p, i) := v], nodes);
  }

  /** The block at `k` is off the levels below `i`, and only forward words have changed. */
  ghost predicate Cutting(first: Ram, ram: Ram, root: int, free: seq<int>, k: nat, height: map<int, int>, end: int, i: int)
    requires k < |free|
  {
    && AllLinked(ram, root, Unspliced(free, k, height, i))
    && OnlyForwards(first, ram, [root] + free)
    && Bounded(ram, end)
  }

  /** Nothing has been cut yet. */
  lemma CuttingStarts(ram: Ram, root: int, level: int, free: seq<int>, k: nat, height: map<int, int>, size: map<int, int>, end: int)
    requires SkipOk(ram, root, level, free, height, size) && k < |free| && Bounded(ram, end)
    ensures Cutting(ram, ram, root, free, k, height, end, 0) && Separate([root] + free)
    ensures forall x :: x in free ==> Block(ram, size, x)
    ensures 0 <= HeightOf(height, free[k]) <= level <= SKIP_MAX_LEVEL && free[k] > 0
    ensures free[k] in size && free[k] + SIZE in ram && ram[free[k] + SIZE] == size[free[k]]
  {
    var x := free[k];
    assert x in free && Block(ram, size, x);
    assert Levels(free, height) == Unspliced(free, k, height, 0);
  }

  /** All cut: what remains is a skip list, but for its top level. */
  lemma CuttingEnds(first: Ram, ram: Ram, root: int, level: int, free: seq<int>, k: nat, height: map<int, int>,
                    size: map<int, int>, end: int)
    requires SkipOk(first, root, level, free, height, size) && k < |free|
    requires Cutting(first, ram, root, free, k, height, end, HeightOf(height, free[k]) + 1)
    ensures SkipBelow(ram, root, level, RemoveAt(free, k), height, size)
    ensures OnlyForwards(first, ram, [root] + free) && Bounded(ram, end)
  {
    Unlinked(first, ram, root, level, free, height, size, k, HeightOf(height, free[k]) + 1);
  }

  lemma CuttingTest(first: Ram, ram: Ram, root: int, free: seq<int>, k: nat, height: map<int, int>, end: int, i: int)
    requires k < |free| && 0 <= i <= SKIP_MAX_LEVEL && Distinct(free) && free[k] != 0
    requires Cutting(first, ram, root, free, k, height, end, i)
    ensures var p := Last(root, Level(free[..k], height, i));
            Forward(p, i) in ram && (ram[Forward(p, i)] == free[k] <==> HeightOf(height, free[k]) >= i)
  {
    UnlinkTest(ram, root, free, k, height, i);
  }

  /** One round of the loop that cuts a block out. */
  lemma LinkOutStep(first: Ram, ram: Ram, root: int, free: seq<int>, k: nat, height: map<int, int>, size: map<int, int>,
                    i: int, end: int)
    requires k < |free| && 0 <= i <= SKIP_MAX_LEVEL && HeightOf(height, free[k]) >= i && Separate([root] + free)
    requires Cutting(first, ram, root, free, k, height, end, i)
    requires forall x :: x in free ==> Block(first, size, x)
    requires Placed([root] + free, end)
    ensures Forward(free[k], i) in ram
    ensures var p := Last(root, Level(free[..k], height, i));
            var next := ram[Forward(free[k], i)];
            var ram' := ram[Forward(p, i) := next];
            && (next != 0 ==> Block(ram', size, next))
            && Cutting(first, ram', root, free, k, height, end, i + 1)
  {
    var nodes := [root] + free;
    var p := Last(root, Level(free[..k], height, i));
    UnlinkNext(ram, root, free, k, height, i);
    UnspliceStep(ram, root, free, k, height, i);
    LastAmong(root, free, k, height, i);
    var next := ram[Forward(free[k], i)];
    if next != 0 { SizeAfterStore(first, ram, nodes, size, p, i, next); }
    ForwardBounded(ram, end, nodes, p, i, next);
    OnlyForwardsTrans(first, ram, ram[Forward(p, i) := next], nodes);
  }

  // ---- what the methods read off the representation ----------------------------------------------

  lemma ReprFacts(ram: Ram, binHead: seq<int>, level: int, newestBig: int, height: map<int, int>, h: Heap)
    requires Inv(h) && Repr(ram, binHead, level, newestBig, height, h)
    ensures 0 < h.start <= h.end < ADDRESS_SPACE && h.end % PAGE_SIZE == 0
    ensures |binHead| == |h.pages| == BIG_BIN && Bounded(ram, h.end) && Words(ram)
    ensures forall b :: 0 <= b < BIG_BIN ==> 0 <= binHead[b] < ADDRESS_SPACE
    ensures forall b :: 0 <= b < BIG_BIN ==> (binHead[b] == 0 <==> h.pages[b] == [])
  {
    StartBelowEnd(h);
    forall b | 0 <= b < BIG_BIN && h.pages[b] != [] ensures 0 < binHead[b] < ADDRESS_SPACE {
      var pg := h.pages[b][0];
      assert pg in h.pages[b];
      PageBounds(h, pg);
    }
  }

  lemma PopCellFacts(ram: Ram, binHead: seq<int>, level: int, newestBig: int, height: map<int, int>, h: Heap, b: int)
    requires Inv(h) && Repr(ram, binHead, level, newestBig, height, h) && 0 <= b < BIG_BIN && h.pages[b] != []
    ensures h.pages[b][0] in h.bin && h.pages[b][0] in h.cells && h.cells[h.pages[b][0]] != []
    ensures |binHead| == |h.pages| == BIG_BIN
    ensures var pg := binHead[b]; var c := h.cells[pg][0]; var last := |h.cells[pg]| == 1;
            && pg == h.pages[b][0] && pg != 0 && pg in ram && pg + HEAD in ram && ram[pg + HEAD] == c != 0 && c in ram
            && (ram[c] == 0 <==> last) && c != pg + HEAD && c != pg
    ensures OnlyMeta(ram, PopRam(ram, binHead[b], h.cells[binHead[b]][0], |h.cells[binHead[b]]| == 1), h, 0)
  {
    PopFacts(ram, h, b, binHead);
    PopMeta(ram, h, binHead[b], h.cells[binHead[b]][0], |h.cells[binHead[b]]| == 1);
  }

  /** What is the allocator's after the heap has grown was the allocator's before. */
  lemma OnlyMetaTrans(a: Ram, b: Ram, c: Ram, h: Heap, h1: Heap)
    requires OnlyMeta(a, b, h, 0) && OnlyMeta(b, c, h1, 0)
    requires 0 < h.start == h1.start && h1.end >= h.end
    requires forall t :: t in h1.tiles ==> t in h.tiles || t >= h.end
    requires forall t :: t in h.tiles ==> (t in h.size <==> t in h1.size)
    ensures OnlyMeta(a, c, h, 0)
  {
    forall w | !Meta(h, w) ensures !Meta(h1, w) {
      if t :| t in h1.tiles && t <= w < t + HeaderLength(h1, t) {
        assert t in h.tiles;
      }
    }
    forall w | !Meta(h, w) ensures (w in c <==> w in a) && (w in a ==> c[w] == a[w]) {
      assert w in c <==> w in b;
      assert w in b <==> w in a;
    }
  }

  lemma StockedMeta(a: Ram, b: Ram, c: Ram, h: Heap, bin: int)
    requires Inv(h) && 0 <= bin < BIG_BIN && OnlyMeta(b, c, Stocked(h, bin), 0)
    requires if h.pages[bin] == [] then OnlyMeta(a, b, h, 0) else a == b
    ensures OnlyMeta(a, c, h, 0)
  {
    StartBelowEnd(h);
    if h.pages[bin] == [] {
      TilesApart(h);
      OnlyMetaTrans(a, b, c, h, AddPage(h, bin));
    }
  }

  /** Everything but the skip list and the block itself is as before the unlinking. */
  lemma AfterUnlink(ram: Ram, ram': Ram, binHead: seq<int>, level: int, newestBig: int, height: map<int, int>, h: Heap, n: int)
    requires Inv(h) && Repr(ram, binHead, level, newestBig, height, h) && n > 0 && Fit(h, n) < |h.free|
    requires OnlyForwards(ram, ram', [h.root] + h.free)
    ensures PagesIn(ram', h) && ListsIn(ram', binHead, h) && BlocksIn(ram', h) && ChainIn(ram', newestBig, h.bigs)
    ensures var x := h.free[Fit(h, n)];
            && x in h.size && n <= SizeOf(h.size, x) && x != 0
            && x + HEAD in ram' && ram'[x + HEAD] == x + BIG_HEADER
            && x + BIG_HEADER in ram' && ram'[x + BIG_HEADER] == 0
            && OnlyMeta(ram, ram'[x + HEAD := 0], h, 0)
  {
    assert HeapNodes(h, [h.root] + h.free);
    ForwardsStep(ram, ram', h, [h.root] + h.free, binHead, newestBig);
    FitFacts(ram', h, n);
    PopBlockMeta(ram, ram', h, h.free[Fit(h, n)], 0);
  }

  /** What the search for a fit returns, and why it may be deleted. */
  lemma FitSearch(ram: Ram, binHead: seq<int>, level: int, newestBig: int, height: map<int, int>, h: Heap, n: int)
    requires Inv(h) && Repr(ram, binHead, level, newestBig, height, h) && n > 0
    ensures SkipOk(ram, h.root, level, h.free, height, h.size)
    ensures Bounded(ram, h.end) && h.end < ADDRESS_SPACE && Placed([h.root] + h.free, h.end)
    ensures At(h.free, Fit(h, n)) != 0 <==> Fit(h, n) < |h.free|
    ensures Fit(h, n) < |h.free| ==>
      var x := h.free[Fit(h, n)];
      && x in h.free && x in h.size && Cut(h.free, h.size, h.size[x]) == Fit(h, n)
      && x + HEAD in ram && ram[x + HEAD] != 0
  {
    assert HeapNodes(h, [h.root] + h.free);
    NodesPlaced(h, [h.root] + h.free);
    if Fit(h, n) < |h.free| {
      FitFacts(ram, h, n);
      CutSplits(h.free, h.size, n);
      CutIs(h.free, h.size, SizeOf(h.size, h.free[Fit(h, n)]), Fit(h, n));
    }
  }

  /** Before a block is freed: its header as `klfree` finds it. */
  lemma FreeFacts(ram: Ram, binHead: seq<int>, level: int, newestBig: int, height: map<int, int>, h: Heap, p: int)
    requires Inv(h) && Repr(ram, binHead, level, newestBig, height, h) && p in h.live
    ensures 0 < p < ADDRESS_SPACE && BitAnd(p, ADDRESS_SPACE - PAGE_SIZE) == Page(p) && Page(p) % PAGE_SIZE == 0 && Page(p) != 0
    ensures Page(p) + SIZE in ram && Page(p) + HEAD in ram && ram[Page(p) + SIZE] == SizeWord(h, p)
    ensures ram[Page(p) + SIZE] > NUM_BINS <==> Page(p) in h.size
    ensures Page(p) in h.size ==> Page(p) !in h.bin && p == Page(p) + BIG_HEADER && ram[Page(p) + HEAD] == 0
    ensures Page(p) in h.size ==> h.size[Page(p)] == ram[Page(p) + SIZE] && (ram[Page(p) + SIZE] + BIG_HEADER) % PAGE_SIZE == 0
    ensures Page(p) !in h.size ==> Page(p) in h.bin && h.bin[Page(p)] == ram[Page(p) + SIZE] && 0 <= ram[Page(p) + SIZE] < BIG_BIN
    ensures Page(p) !in h.size ==> |binHead| == BIG_BIN && p != Page(p) + HEAD && p != Page(p)
  {
    HeaderRecovery(h, p);
    PageBounds(h, Page(p));
    if Page(p) in h.size {
      LiveBlockFacts(ram, h, Page(p));
    } else {
      PushFacts(ram, h, p);
    }
  }

  /** A freed block in front of its successors: what `klmalloc_skip_list_insert` needs. */
  lemma FreedBlock(ram: Ram, binHead: seq<int>, level: int, newestBig: int, height: map<int, int>, h: Heap, x: int)
    requires Inv(h) && Repr(ram, binHead, level, newestBig, height, h) && x in h.size && x + BIG_HEADER in h.live
    ensures x + HEAD in ram
    ensures var ram' := PushBlockRam(ram, x);
            && SkipOk(ram', h.root, level, h.free, height, h.size) && Separate([h.root] + h.free + [x])
            && Block(ram', h.size, x) && x + HEAD in ram' && ram'[x + HEAD] != 0
            && Bounded(ram', h.end) && h.end < ADDRESS_SPACE && Placed([h.root] + h.free + [x], h.end)
  {
    LiveBlockFacts(ram, h, x);
    PushBlock(ram, h, x, binHead, level, newestBig, height);
    assert HeapNodes(h, [h.root] + h.free + [x]);
    NodesPlaced(h, [h.root] + h.free + [x]);
  }

  lemma BlockReturned(ram: Ram, ram': Ram, binHead: seq<int>, level: int, level': int, newestBig: int,
                      height: map<int, int>, height': map<int, int>, h: Heap, x: int)
    requires Inv(h) && Repr(ram, binHead, level, newestBig, height, h) && x in h.size && x + BIG_HEADER in h.live
    requires Page(x + BIG_HEADER) == x && x + HEAD in ram && OnlyForwards(PushBlockRam(ram, x), ram', [h.root] + h.free + [x])
    requires SkipOk(ram', h.root, level', InsertAt(h.free, Cut(h.free, h.size, h.size[x]), x), height', h.size)
    requires Bounded(ram', h.end)
    ensures Repr(ram', binHead, level', newestBig, height', ReturnBlock(h, x + BIG_HEADER))
    ensures OnlyMeta(ram, ram', h, x + BIG_HEADER)
  {
    PushHead(ram, h, x, binHead, newestBig);
    LinkBlock(PushBlockRam(ram, x), ram', h, x, binHead, level', newestBig, height');
    PushBlockMeta(ram, ram', h, x);
  }

  lemma NewBlockOnlyMeta(ram: Ram, h: Heap, n: nat, binHead: seq<int>, level: int, newestBig: int, height: map<int, int>)
    requires Inv(h) && Repr(ram, binHead, level, newestBig, height, h)
    ensures OnlyMeta(ram, NewBlockRam(ram, h.end, BlockPages(n) * PAGE_SIZE - BIG_HEADER, newestBig), h, 0)
    ensures newestBig != 0 ==> newestBig != h.end + PREV && newestBig != h.end + SIZE
  {
    Newest(h, ram, newestBig);
    NewBlockMeta(ram, h, BlockPages(n) * PAGE_SIZE - BIG_HEADER, newestBig);
    if newestBig != 0 { assert newestBig in h.bigs; }
  }

  lemma OnlyMetaRefl(ram: Ram, h: Heap)
    ensures OnlyMeta(ram, ram, h, 0)
  {}

  lemma LiveIsSlot(h: Heap, p: int)
    requires Inv(h) && p in h.live
    ensures Slot(h.bin, h.size, p)
  {}

  lemma TakeBlockEnd(h: Heap, k: nat, n: int)
    requires k < |h.free|
    ensures TakeBlock(h, k, n).end == h.end && TakeBlock(h, k, n).root == h.root
  {}

  // ---- contents ----------------------------------------------------------------------------------

  /** Growing or shrinking the free lists changes no slot. */
  lemma RoomKept(h: Heap, n: nat, q: int)
    requires Inv(h) && NoWrap(h, n) && q in h.live
    ensures var h1 := HeapRuns.Malloc(h, n).0;
            Slot(h1.bin, h1.size, q) && Room(h1.bin, h1.size, q) == Room(h.bin, h.size, q)
  {
    TilesApart(h);
    SlotPage(h, q);
    if n > 0 && BinSize(n) < BIG_BIN && h.pages[BinSize(n)] == [] { AddPageTiled(h, BinSize(n)); }
  }

  lemma BytesKept(before: Ram, after: Ram, lo: int, hi: int, b: int)
    requires SameBlock(before, after, lo, hi) && lo <= b < hi && lo % 4 == 0
    ensures Written(after, b) <==> Written(before, b)
    ensures Written(before, b) ==> ByteAt(after, b) == ByteAt(before, b)
  {
    assert lo <= WordOf(b) < hi;
    assert WordOf(b) in after <==> WordOf(b) in before;
  }

  /** After `malloc`, stores inside the new block keep every older block as it was. */
  lemma FillKeepsLive(a: Ram, b: Ram, c: Ram, h: Heap, n: nat)
    requires Inv(h) && NoWrap(h, n) && n > 0 && KeepsLive(a, b, h, 0)
    requires var (h1, p) := HeapRuns.Malloc(h, n);
             p !in h.live && h1.live == h.live[p := n]
             && forall q :: q in h1.live && q != p ==> SameBlock(b, c, q, q + Room(h1.bin, h1.size, q))
    ensures forall q :: q in h.live && q != 0 ==> SameBlock(a, c, q, q + Room(h.bin, h.size, q))
  {
    var (h1, p) := HeapRuns.Malloc(h, n);
    forall q | q in h.live && q != 0 ensures SameBlock(a, c, q, q + Room(h.bin, h.size, q)) {
      RoomKept(h, n, q);
      assert q in h1.live && SameBlock(b, c, q, q + Room(h1.bin, h1.size, q));
      SameTrans(a, b, c, q, q + Room(h.bin, h.size, q));
    }
  }

  lemma SameTrans(a: Ram, b: Ram, c: Ram, lo: int, hi: int)
    requires SameBlock(a, b, lo, hi) && SameBlock(b, c, lo, hi)
    ensures SameBlock(a, c, lo, hi)
  {
    forall w | lo <= w < hi ensures (w in c <==> w in a) && (w in a ==> c[w] == a[w]) {
      assert w in c <==> w in b;
    }
  }

  lemma WithinMore(a: Ram, b: Ram, lo: int, hi: int, less: int, more: int)
    requires OnlyWithin(a, b, lo, hi) && less <= lo && hi <= more
    ensures OnlyWithin(a, b, less, more)
  {}

  lemma MallocNull(h: Heap, n: nat)
    requires Inv(h) && NoWrap(h, n)
    ensures n == 0 ==> HeapRuns.Malloc(h, n) == (h, 0)
  {}

  // ---- realloc -----------------------------------------------------------------------------------

  /** Right after the new block has been obtained. */
  lemma MoveFacts(ram: Ram, binHead: seq<int>, level: int, newestBig: int, height: map<int, int>, h: Heap, p: int, n: nat)
    requires Inv(h) && p in h.live && Moves(h, p, n) && NoWrap(h, n) && CopyFits(h, p, n)
    requires Inv(HeapRuns.Malloc(h, n).0) && Repr(ram, binHead, level, newestBig, height, HeapRuns.Malloc(h, n).0)
    ensures 0 <= p
    ensures var (h1, q) := HeapRuns.Malloc(h, n);
            && p in h1.live && q in h1.live && q != 0 && q != p && Words(ram)
            && BitAnd(p, ADDRESS_SPACE - PAGE_SIZE) + SIZE in ram
            && ram[BitAnd(p, ADDRESS_SPACE - PAGE_SIZE) + SIZE] == SizeWord(h, p) && 0 <= SizeWord(h, p)
            && (if SizeWord(h, p) < BIG_BIN then CellSize(SizeWord(h, p)) else SizeWord(h, p)) == Room(h.bin, h.size, p)
            && Room(h.bin, h.size, p) <= Room(h1.bin, h1.size, q)
            && (q + Room(h.bin, h.size, p) <= p || p + Room(h.bin, h.size, p) <= q)
  {
    hide Repr, Inv, HeapRuns.Malloc, NoWrap;
    MallocKeeps(h, n);
    ReallocCopyFits(h, p, n);
    var (h1, q) := HeapRuns.Malloc(h, n);
    ReprFacts(ram, binHead, level, newestBig, height, h1);
    FreeFacts(ram, binHead, level, newestBig, height, h1, p);
    RoomKept(h, n, p);
    LiveApart(h1, p, q);
    PageKept(h, n, p);
    SizeWordSign(h, p);
  }

  lemma LiveApart(h: Heap, p: int, q: int)
    requires Inv(h) && p in h.live && q in h.live && p != q
    ensures p + Room(h.bin, h.size, p) <= q || q + Room(h.bin, h.size, q) <= p
  {
    InvIsSafe(h);
  }

  lemma PageKept(h: Heap, n: nat, p: int)
    requires Inv(h) && NoWrap(h, n) && p in h.live
    ensures SizeWord(HeapRuns.Malloc(h, n).0, p) == SizeWord(h, p)
  {
    TilesApart(h);
    SlotPage(h, p);
    if n > 0 && BinSize(n) < BIG_BIN && h.pages[BinSize(n)] == [] { AddPageTiled(h, BinSize(n)); }
  }

  lemma SizeWordSign(h: Heap, p: int)
    requires Inv(h) && p in h.live
    ensures 0 <= SizeWord(h, p)
  {}

  /** After the copy: the allocator is intact and the new block holds the old contents. */
  lemma MoveStored(ram: Ram, ram1: Ram, ram2: Ram, binHead: seq<int>, level: int, newestBig: int, height: map<int, int>,
                   h: Heap, p: int, n: nat)
    requires Inv(h) && p in h.live && Moves(h, p, n) && NoWrap(h, n) && CopyFits(h, p, n)
    requires KeepsLive(ram, ram1, h, 0)
    requires var (h1, q) := HeapRuns.Malloc(h, n); var room := Room(h.bin, h.size, p);
             && Inv(h1) && Repr(ram1, binHead, level, newestBig, height, h1)
             && OnlyWithin(ram1, ram2, q, q + room) && Words(ram2)
             && forall i :: 0 <= i < room ==> Copied(ram1, ram2, q, p, i)
    ensures Repr(ram2, binHead, level, newestBig, height, HeapRuns.Malloc(h, n).0)
    ensures KeepsLive(ram, ram2, h, 0)
    ensures forall i :: 0 <= i < Room(h.bin, h.size, p) ==> Copied(ram, ram2, HeapRuns.Malloc(h, n).1, p, i)
  {
    hide Repr, Inv, Words, OnlyWithin, HeapRuns.Malloc, Room, Moves, NoWrap, CopyFits;
    var (h1, q) := HeapRuns.Malloc(h, n);
    var room := Room(h.bin, h.size, p);
    MallocKeeps(h, n);
    MovesPositive(h, p, n);
    MoveFacts(ram1, binHead, level, newestBig, height, h, p, n);
    WithinMore(ram1, ram2, q, q + room, q, q + Room(h1.bin, h1.size, q));
    LiveStore(ram1, ram2, h1, q, binHead, level, newestBig, height);
    FillKeepsLive(ram, ram1, ram2, h, n);
    SlotAligned(h, p);
    forall i | 0 <= i < room ensures Copied(ram, ram2, q, p, i) {
      assert Copied(ram1, ram2, q, p, i);
      BytesKept(ram, ram1, p, p + room, p + i);
    }
  }

  lemma MovesPositive(h: Heap, p: int, n: nat)
    requires Moves(h, p, n)
    ensures p != 0 && n > 0
  {}

  lemma SlotAligned(h: Heap, p: int)
    requires Inv(h) && p in h.live
    ensures p % 4 == 0
  {
    TilesApart(h);
    SlotPage(h, p);
  }

  /** After the old block has been freed. */
  lemma MoveDone(ram: Ram, ram2: Ram, ram3: Ram, h: Heap, p: int, n: nat)
    requires Inv(h) && p in h.live && Moves(h, p, n) && NoWrap(h, n) && CopyFits(h, p, n)
    requires KeepsLive(ram, ram2, h, 0) && KeepsLive(ram2, ram3, HeapRuns.Malloc(h, n).0, p)
    requires forall i :: 0 <= i < Room(h.bin, h.size, p) ==> Copied(ram, ram2, HeapRuns.Malloc(h, n).1, p, i)
    ensures KeepsLive(ram, ram3, h, p)
    ensures forall i :: 0 <= i < Room(h.bin, h.size, p) ==> Copied(ram, ram3, HeapRuns.Malloc(h, n).1, p, i)
  {
    hide Inv, HeapRuns.Malloc, Room, Moves, NoWrap, CopyFits, SameBlock;
    var (h1, q) := HeapRuns.Malloc(h, n);
    var room := Room(h.bin, h.size, p);
    MallocKeeps(h, n);
    MovesPositive(h, p, n);
    NullNotLive(h);
    forall r | r in h.live && r != p ensures SameBlock(ram, ram3, r, r + Room(h.bin, h.size, r)) {
      RoomKept(h, n, r);
      SameTrans(ram, ram2, ram3, r, r + Room(h.bin, h.size, r));
    }
    ReallocCopyFits(h, p, n);
    SlotAligned(h1, q);
    forall i | 0 <= i < room ensures Copied(ram, ram3, q, p, i) {
      assert Copied(ram, ram2, q, p, i);
      BytesKept(ram2, ram3, q, q + Room(h1.bin, h1.size, q), q + i);
    }
  }

  /** Recording another size for a live block is no business of memory; and a block that
      stays where it is has kept its bytes. */
  lemma ResizedRepr(ram: Ram, binHead: seq<int>, level: int, newestBig: int, height: map<int, int>, h: Heap, p: int, n: int)
    requires Repr(ram, binHead, level, newestBig, height, h)
    ensures Repr(ram, binHead, level, newestBig, height, h.(live := h.live[p := n]))
    ensures forall q :: q in h.live ==> SameBlock(ram, ram, q, q + Room(h.bin, h.size, q))
    ensures forall i :: Copied(ram, ram, p, p, i)
  {}
}
