/** The abstract heap that `core/alloc.c` maintains: which pages and blocks exist, which of
    their slots are free and in what order they will be handed out, and which are live. */
module HeapModel {
  import opened Machine
  import opened Bits

  // core/alloc.c:103-133, core/alloc.c:192-209 on a 32-bit machine
  const NUM_BINS := 11
  const BIG_BIN := NUM_BINS - 1
  const SMALLEST_BIN_LOG := 2
  const SMALL_HEADER := 12
  const BIG_HEADER := 44
  const SIZE_LIMIT := 0x8000_0000      // size_t is a signed 32-bit long

  // ---- sizes and bins ------------------------------------------------------------------

  function AdjustBin(bin: nat): nat
  {
    if bin <= SMALLEST_BIN_LOG then 0
    else if bin - (SMALLEST_BIN_LOG + 1) > BIG_BIN then BIG_BIN
    else bin - (SMALLEST_BIN_LOG + 1)
  }

  /** Bin for a request: significant bits, plus one unless a power of two. */
  function BinSize(size: nat): nat
    requires size > 0
  {
    AdjustBin(BitLength(size) + Digit(BitAnd(size, size - 1) != 0))
  }

  function CellSize(b: nat): nat { Pow2(SMALLEST_BIN_LOG + b) }

  function CellCount(b: nat): nat { (PAGE_SIZE - SMALL_HEADER) / CellSize(b) }

  lemma CellSizes(b: nat)
    requires b < BIG_BIN
    ensures CellSize(b) ==
      if b == 0 then 4 else if b == 1 then 8 else if b == 2 then 16 else if b == 3 then 32
      else if b == 4 then 64 else if b == 5 then 128 else if b == 6 then 256
      else if b == 7 then 512 else if b == 8 then 1024 else 2048
    ensures CellSize(b) % 4 == 0 && 4 <= CellSize(b) <= 2048 && 1 <= CellCount(b)
    ensures CellCount(b) * CellSize(b) <= PAGE_SIZE - SMALL_HEADER < (CellCount(b) + 1) * CellSize(b)
  {
    assert Pow2(2) == 4 && Pow2(3) == 8 && Pow2(4) == 16 && Pow2(5) == 32 && Pow2(6) == 64;
    assert Pow2(7) == 128 && Pow2(8) == 256 && Pow2(9) == 512 && Pow2(10) == 1024 && Pow2(11) == 2048;
  }

  /** A request goes to the smallest bin whose cells hold it, and to the big bin exactly when
      no cell does. */
  lemma BinSizeIsBest(size: nat)
    requires size > 0
    ensures BinSize(size) <= BIG_BIN
    ensures BinSize(size) == BIG_BIN <==> size > CellSize(BIG_BIN - 1)
    ensures BinSize(size) < BIG_BIN ==> size <= CellSize(BinSize(size))
    ensures forall b :: 0 <= b < BinSize(size) && b < BIG_BIN ==> CellSize(b) < size
  {
    hide BitAnd, BitLength, AdjustBin, CellSize, Pow2;
    AndPredecessor(size);
    RoundedLog(size, BitAnd(size, size - 1) == 0);
    AdjustedBin(size, BitLength(size) + Digit(BitAnd(size, size - 1) != 0));
  }

  /** The significant bits, rounded up, are one more than the logarithm rounded up. */
  lemma RoundedLog(size: nat, power: bool)
    requires size > 0 && BitLength(size) >= 1 && (power <==> size == Pow2(BitLength(size) - 1))
    ensures var bits := BitLength(size) + Digit(!power);
            bits >= 1 && size <= Pow2(bits - 1) && (bits >= 2 ==> Pow2(bits - 2) < size)
  {
    hide Pow2, BitLength;
    var l := BitLength(size);
    BitLengthBounds(size);                     // Pow2(l - 1) <= size < Pow2(l)
    if power && l >= 2 { DoublePow2(l - 1); }
  }

  lemma DoublePow2(k: nat)
    requires k >= 1
    ensures Pow2(k - 1) < Pow2(k) == 2 * Pow2(k - 1)
  {}

  lemma AdjustedBin(size: nat, bits: nat)
    requires bits >= 1 && size <= Pow2(bits - 1) && (bits >= 2 ==> Pow2(bits - 2) < size)
    ensures var b := AdjustBin(bits);
            && b <= BIG_BIN
            && (b == BIG_BIN <==> size > CellSize(BIG_BIN - 1))
            && (b < BIG_BIN ==> size <= CellSize(b))
            && forall c :: 0 <= c < b && c < BIG_BIN ==> CellSize(c) < size
  {
    hide Pow2;
    var b := AdjustBin(bits);
    if bits <= 3 {
      Pow2Monotone(bits - 1, 2);
    } else {
      forall c | 0 <= c < b && c < BIG_BIN ensures CellSize(c) < size {
        Pow2Monotone(CellLog(c), bits - 2);
      }
    }
    if b < BIG_BIN {
      Pow2Monotone(CellLog(b), CellLog(BIG_BIN - 1));
    }
  }

  function CellLog(b: nat): nat { SMALLEST_BIN_LOG + b }

  // ---- cells of a small page -----------------------------------------------------------

  function Page(p: int): int { p - p % PAGE_SIZE }

  function CellAt(pg: int, b: nat, k: nat): int { pg + SMALL_HEADER + k * CellSize(b) }

  function AllCells(pg: int, b: nat): seq<int> { seq(CellCount(b), k requires k >= 0 => CellAt(pg, b, k)) }

  /** Cells lie behind the header and inside their page. */
  lemma CellInPage(pg: int, b: nat, c: int)
    requires b < BIG_BIN && c in AllCells(pg, b)
    ensures pg + SMALL_HEADER <= c && c + CellSize(b) <= pg + PAGE_SIZE
    ensures pg % PAGE_SIZE == 0 ==> c % 4 == 0 && Page(c) == pg
  {
    hide CellSize, CellCount;
    var k: nat :| k < CellCount(b) && c == CellAt(pg, b, k);
    CellRange(b, k);
    if pg % PAGE_SIZE == 0 { PageOf(pg, k * CellSize(b)); }
  }

  lemma CellRange(b: nat, k: nat)
    requires b < BIG_BIN && k < CellCount(b)
    ensures k * CellSize(b) + CellSize(b) <= PAGE_SIZE - SMALL_HEADER
    ensures (k * CellSize(b)) % 4 == 0 && CellSize(b) >= 4
  {
    CellSizes(b);
    NextMultiple(k, CellCount(b), CellSize(b));
    MultipleOfFour(k, CellSize(b));
  }

  lemma PageOf(pg: int, offset: int)
    requires pg % PAGE_SIZE == 0 && 0 <= offset && SMALL_HEADER + offset < PAGE_SIZE && offset % 4 == 0
    ensures Page(pg + SMALL_HEADER + offset) == pg && (pg + SMALL_HEADER + offset) % 4 == 0
  {}

  lemma NextMultiple(j: nat, k: nat, s: nat)
    requires j < k
    ensures j * s + s <= k * s
  {
    var d := k - j - 1;
    assert k == j + 1 + d;
    assert k * s == j * s + 1 * s + d * s;
    assert d * s >= 0;
  }

  lemma MultipleOfFour(k: nat, s: nat)
    requires s % 4 == 0
    ensures (k * s) % 4 == 0
  {
    assert k * s == 4 * (k * (s / 4));
  }

  /** Different cells of a page do not overlap. */
  lemma CellsApart(pg: int, b: nat, c: int, d: int)
    requires c in AllCells(pg, b) && d in AllCells(pg, b) && c != d
    ensures c + CellSize(b) <= d || d + CellSize(b) <= c
  {
    var j: nat :| j < CellCount(b) && c == CellAt(pg, b, j);
    var k: nat :| k < CellCount(b) && d == CellAt(pg, b, k);
    if j < k {
      NextMultiple(j, k, CellSize(b));
    } else {
      assert j != k;
      NextMultiple(k, j, CellSize(b));
    }
  }

  lemma AllCellsDistinct(pg: int, b: nat)
    ensures Distinct(AllCells(pg, b))
  {
    forall i, j | 0 <= i < j < CellCount(b) ensures AllCells(pg, b)[i] != AllCells(pg, b)[j] {
      NextMultiple(i, j, CellSize(b));
    }
  }

  // ---- sequences -----------------------------------------------------------------------

  ghost predicate Distinct(s: seq<int>)
  {
    forall i, j :: 0 <= i < j < |s| ==> s[i] != s[j]
  }

  /** The element at `k`, or NULL past the end. */
  function At(s: seq<int>, k: int): int
  {
    if 0 <= k < |s| then s[k] else 0
  }

  function InsertAt(s: seq<int>, k: nat, x: int): seq<int>
    requires k <= |s|
  {
    s[..k] + [x] + s[k..]
  }

  function RemoveAt(s: seq<int>, k: nat): seq<int>
    requires k < |s|
  {
    s[..k] + s[k + 1..]
  }

  function SizeOf(size: map<int, int>, x: int): int { if x in size then size[x] else 0 }

  /** How many leading blocks are smaller than `n`. */
  function Cut(s: seq<int>, size: map<int, int>, n: int): (k: nat)
    ensures k <= |s|
  {
    if s == [] || SizeOf(size, s[0]) >= n then 0 else 1 + Cut(s[1..], size, n)
  }

  ghost predicate Sorted(s: seq<int>, size: map<int, int>)
  {
    forall i, j :: 0 <= i < j < |s| ==> SizeOf(size, s[i]) <= SizeOf(size, s[j])
  }

  lemma {:induction false} CutSplits(s: seq<int>, size: map<int, int>, n: int)
    requires Sorted(s, size)
    ensures forall i :: 0 <= i < Cut(s, size, n) ==> SizeOf(size, s[i]) < n
    ensures forall i :: Cut(s, size, n) <= i < |s| ==> SizeOf(size, s[i]) >= n
  {
    if s != [] && SizeOf(size, s[0]) < n {
      var t := s[1..];
      CutSplits(t, size, n);
      assert forall i :: 0 < i < |s| ==> s[i] == t[i - 1];
    }
  }

  // ---- the heap --------------------------------------------------------------------------

  datatype Heap = Heap(
    root: int,                    // address of the skip list's head node
    start: int,                   // where the first page obtained from sbrk lies
    end: int,                     // the break
    tiles: seq<int>,              // bases of all pages and blocks, in creation order
    bin: map<int, int>,           // small page -> its bin
    size: map<int, int>,          // big block -> payload size
    bigs: seq<int>,               // big blocks, oldest first
    pages: seq<seq<int>>,         // per bin: pages with a free cell, in list order
    cells: map<int, seq<int>>,    // small page -> free cells, top of the stack first
    free: seq<int>,               // free big blocks, in list order
    live: map<int, int>)          // client pointer -> requested size

  /** Bytes between one tile's base and the next tile's. */
  function Extent(size: map<int, int>, t: int): int
  {
    if t in size then size[t] + BIG_HEADER else PAGE_SIZE
  }

  ghost predicate Regions(h: Heap)
  {
    && 0 < h.root && h.root % 4 == 0 && h.root + BIG_HEADER <= h.start
    && h.end < ADDRESS_SPACE
    && h.bin.Keys !! h.size.Keys
    && (forall t :: t in h.bin ==> 0 <= h.bin[t] < BIG_BIN)
    && (forall t :: t in h.size ==> h.size[t] >= PAGE_SIZE - BIG_HEADER && (h.size[t] + BIG_HEADER) % PAGE_SIZE == 0)
    && (forall t :: t in h.tiles <==> t in h.bin || t in h.size)
  }

  /** The tiles cover [start, end) page by page, without gap or overlap. */
  ghost predicate Tiled(h: Heap)
  {
    && Regions(h)
    && h.start % PAGE_SIZE == 0 && h.end % PAGE_SIZE == 0
    && At(h.tiles, 0) == (if h.tiles == [] then 0 else h.start)
    && (h.tiles == [] ==> h.end == h.start)
    && (forall i :: 0 <= i < |h.tiles| ==> EndsAtNext(h.tiles, h.size, h.end, i))
  }

  ghost predicate EndsAtNext(tiles: seq<int>, size: map<int, int>, end: int, i: nat)
    requires i < |tiles|
  {
    tiles[i] + Extent(size, tiles[i]) == if i + 1 < |tiles| then tiles[i + 1] else end
  }

  /** The addresses handed to clients: a cell of a small page, or a block's payload. */
  predicate Slot(bin: map<int, int>, size: map<int, int>, p: int)
  {
    || (Page(p) in bin && 0 <= bin[Page(p)] && p in AllCells(Page(p), bin[Page(p)]))
    || (Page(p) in size && p == Page(p) + BIG_HEADER)
  }

  /** Bytes available to the client at slot `p`. */
  function Room(bin: map<int, int>, size: map<int, int>, p: int): int
  {
    if Page(p) in bin && 0 <= bin[Page(p)] then CellSize(bin[Page(p)]) else SizeOf(size, Page(p))
  }

  /** A slot is either free in exactly one place or live, never both. */
  ghost predicate SmallSlots(h: Heap)
    requires Regions(h)
  {
    && h.cells.Keys == h.bin.Keys
    && (forall pg :: pg in h.bin ==> Distinct(h.cells[pg]))
    && (forall pg, c {:trigger c in h.cells[pg]} :: pg in h.bin && c in h.cells[pg] ==>
          c in AllCells(pg, h.bin[pg]))
    && (forall pg, c {:trigger c in AllCells(pg, h.bin[pg])} :: pg in h.bin && c in AllCells(pg, h.bin[pg]) ==>
          (c in h.cells[pg] <==> c !in h.live))
  }

  ghost predicate BigSlots(h: Heap)
  {
    && (forall x :: x in h.free ==> x in h.size)
    && (forall x {:trigger x in h.free} :: x in h.size ==> (x in h.free <==> x + BIG_HEADER !in h.live))
  }

  ghost predicate LiveSlots(h: Heap)
  {
    forall p :: p in h.live ==> Slot(h.bin, h.size, p) && 1 <= h.live[p] <= Room(h.bin, h.size, p)
  }

  /** Bin lists hold exactly the pages of that bin that have a free cell. */
  ghost predicate PageLists(h: Heap)
  {
    && |h.pages| == BIG_BIN
    && h.cells.Keys == h.bin.Keys
    && (forall b :: 0 <= b < BIG_BIN ==> Distinct(h.pages[b]))
    && (forall b, pg {:trigger pg in h.pages[b]} :: 0 <= b < BIG_BIN ==>
          (pg in h.pages[b] <==> pg in h.bin && h.bin[pg] == b && h.cells[pg] != []))
  }

  ghost predicate FreeList(h: Heap)
  {
    && (forall x :: x in h.free ==> x in h.size)
    && Distinct(h.free)
    && Sorted(h.free, h.size)
  }

  /** Every big block ever made, in increasing address order. */
  ghost predicate BigChain(h: Heap)
  {
    && (forall x :: x in h.bigs <==> x in h.size)
    && (forall i, j :: 0 <= i < j < |h.bigs| ==> h.bigs[i] < h.bigs[j])
  }

  ghost predicate Inv(h: Heap)
  {
    && Tiled(h)
    && SmallSlots(h)
    && BigSlots(h)
    && LiveSlots(h)
    && PageLists(h)
    && FreeList(h)
    && BigChain(h)
  }

  // ---- geometry of tiles -----------------------------------------------------------------

  lemma {:induction false} TileOrder(h: Heap, i: nat, j: nat)
    requires Tiled(h) && i < j < |h.tiles|
    ensures h.tiles[i] + Extent(h.size, h.tiles[i]) <= h.tiles[j]
    decreases j
  {
    assert EndsAtNext(h.tiles, h.size, h.end, j - 1);
    if i + 1 < j {
      TileOrder(h, i, j - 1);
      assert h.tiles[j - 1] in h.tiles;
    }
  }

  lemma {:induction false} TileAligned(h: Heap, i: nat)
    requires Tiled(h) && i < |h.tiles|
    ensures h.start <= h.tiles[i] && h.tiles[i] % PAGE_SIZE == 0
  {
    if i > 0 {
      TileAligned(h, i - 1);
      assert EndsAtNext(h.tiles, h.size, h.end, i - 1);
      assert h.tiles[i - 1] in h.tiles;
    }
  }

  lemma TileBounds(h: Heap, i: nat)
    requires Tiled(h) && i < |h.tiles|
    ensures h.start <= h.tiles[i] && h.tiles[i] + Extent(h.size, h.tiles[i]) <= h.end
    ensures h.tiles[i] % PAGE_SIZE == 0
  {
    TileAligned(h, i);
    var last := |h.tiles| - 1;
    assert EndsAtNext(h.tiles, h.size, h.end, last);
    if i < last {
      TileOrder(h, i, last);
      assert h.tiles[last] in h.tiles;
    }
  }

  /** Different tiles are disjoint, page-aligned and inside the heap. */
  ghost predicate Apart(h: Heap)
  {
    && (forall t :: t in h.bin || t in h.size ==>
          h.start <= t && t + Extent(h.size, t) <= h.end && t % PAGE_SIZE == 0)
    && (forall t, u :: (t in h.bin || t in h.size) && (u in h.bin || u in h.size) && t != u ==>
          t + Extent(h.size, t) <= u || u + Extent(h.size, u) <= t)
  }

  lemma TilesApart(h: Heap)
    requires Tiled(h)
    ensures Apart(h)
  {
    forall t | t in h.bin || t in h.size
      ensures h.start <= t && t + Extent(h.size, t) <= h.end && t % PAGE_SIZE == 0
    {
      assert t in h.tiles;
      var i :| 0 <= i < |h.tiles| && h.tiles[i] == t;
      TileBounds(h, i);
    }
    forall t, u | (t in h.bin || t in h.size) && (u in h.bin || u in h.size) && t != u
      ensures t + Extent(h.size, t) <= u || u + Extent(h.size, u) <= t
    {
      assert t in h.tiles && u in h.tiles;
      var i :| 0 <= i < |h.tiles| && h.tiles[i] == t;
      var j :| 0 <= j < |h.tiles| && h.tiles[j] == u;
      if i < j { TileOrder(h, i, j); } else { TileOrder(h, j, i); }
    }
  }
}
