/** What `core/mem.c` works on, as values: the frame bitmap as a set, pages paired off with
    frames, and where the page tables come to lie. */
module PagingModel {
  import opened Bits
  import opened Machine

  const ENTRIES := 1024
  const NO_FRAME := 0xFFFF_FFFF      // (uint32) -1

  datatype Entry = Entry(present: int, rw: int, user: int, accessed: int, dirty: int, unused: int, frame: int)

  const EMPTY := Entry(0, 0, 0, 0, 0, 0, 0)

  const DIRECTORY_SIZE := 4 * ENTRIES + 4 * ENTRIES + 4     // sizeof(page_directory_t)

  /** Rounding down happens only past the first page. */
  function RoundDown(p: int): int { if p >= PAGE_SIZE then p - p % PAGE_SIZE else p }

  lemma WholePages(base: int, c: int)
    requires base % PAGE_SIZE == 0 && base + PAGE_SIZE * c >= 0
    ensures RoundDown(base + PAGE_SIZE * c) == base + PAGE_SIZE * c
    ensures (base + PAGE_SIZE * c) % PAGE_SIZE == 0
  {}

  // ---- the frame bitmap as a set -----------------------------------------------------------

  predicate Bitmap(words: seq<int>) { forall i :: 0 <= i < |words| ==> 0 <= words[i] < ADDRESS_SPACE }

  /** Is frame `f` marked in the bitmap? */
  predicate Marked(words: seq<int>, f: int)
    requires Bitmap(words)
  {
    0 <= f < 32 * |words| && Bit(words[f / 32], f % 32)
  }

  lemma WordPowers()
    ensures Pow2(32) == ADDRESS_SPACE && forall j: nat :: j < 32 ==> 1 <= Pow2(j) < ADDRESS_SPACE
  {
    Pow2Values();
    forall j: nat | j < 32 ensures Pow2(j) < ADDRESS_SPACE {
      Pow2Monotone(j + 1, 32);
    }
  }

  /** `frames[f / 32] |= 1 << f % 32` marks frame f and no other. */
  lemma MarkOne(words: seq<int>, f: int)
    requires Bitmap(words) && 0 <= f < 32 * |words|
    ensures var words' := words[f / 32 := BitOr(words[f / 32], Pow2(f % 32))];
            Bitmap(words') && forall g :: Marked(words', g) <==> Marked(words, g) || g == f
  {
    WordPowers();
    OrBound(words[f / 32], Pow2(f % 32), 32);
    var words' := words[f / 32 := BitOr(words[f / 32], Pow2(f % 32))];
    forall g ensures Marked(words', g) <==> Marked(words, g) || g == f {
      if 0 <= g < 32 * |words| && g / 32 == f / 32 {
        BitOfOr(words[f / 32], Pow2(f % 32), g % 32);
        BitOfPow2(f % 32, g % 32);
      }
    }
  }

  /** `frames[f / 32] &= ~(1 << f % 32)` unmarks frame f and no other. */
  lemma UnmarkOne(words: seq<int>, f: int)
    requires Bitmap(words) && 0 <= f < 32 * |words|
    ensures Pow2(f % 32) < ADDRESS_SPACE
    ensures var words' := words[f / 32 := BitAnd(words[f / 32], ADDRESS_SPACE - 1 - Pow2(f % 32))];
            Bitmap(words') && forall g :: Marked(words', g) <==> Marked(words, g) && g != f
  {
    WordPowers();
    var mask := ADDRESS_SPACE - 1 - Pow2(f % 32);
    AndBound(words[f / 32], mask);
    var words' := words[f / 32 := BitAnd(words[f / 32], mask)];
    forall g ensures Marked(words', g) <==> Marked(words, g) && g != f {
      if 0 <= g < 32 * |words| && g / 32 == f / 32 {
        BitOfAnd(words[f / 32], mask, g % 32);
        BitOfComplement(Pow2(f % 32), 32, g % 32);
        BitOfPow2(f % 32, g % 32);
      }
    }
  }

  /** A word equal to all ones has 32 marked frames; any other word has a clear one. */
  lemma FullWord(words: seq<int>, i: int)
    requires Bitmap(words) && 0 <= i < |words|
    ensures words[i] == ADDRESS_SPACE - 1 ==> forall f :: 32 * i <= f < 32 * i + 32 ==> Marked(words, f)
    ensures words[i] != ADDRESS_SPACE - 1 ==> exists j :: 0 <= j < 32 && !Bit(words[i], j)
  {
    WordPowers();
    if words[i] == ADDRESS_SPACE - 1 {
      forall f | 32 * i <= f < 32 * i + 32 ensures Marked(words, f) {
        OnesBit(32, f - 32 * i);
      }
    } else {
      var j := HasClearBit(words[i], 32);
    }
  }

  ghost predicate IsLeast(words: seq<int>, f: int)
    requires Bitmap(words)
  {
    0 <= f < 32 * |words| && !Marked(words, f) && forall g :: 0 <= g < f ==> Marked(words, g)
  }

  // ---- pages and frames -------------------------------------------------------------------

  /** The first `k` pages are backed by the frames of the same numbers, read-only and open to
      user code; the other frames are free and the other entries empty. */
  ghost predicate Identity(words: seq<int>, flat: seq<Entry>, k: int)
    requires Bitmap(words) && |flat| == ENTRIES * ENTRIES
  {
    && 0 <= k <= 32 * |words|
    && (forall f :: Marked(words, f) <==> 0 <= f < k)
    && (forall n :: 0 <= n < k && n < |flat| ==> flat[n] == EMPTY.(present := 1, rw := 0, user := 1, frame := n))
    && (forall n :: k <= n < |flat| ==> flat[n] == EMPTY)
  }

  /** The least free frame is the number of the next page. */
  lemma Frontier(words: seq<int>, flat: seq<Entry>, k: int)
    requires Bitmap(words) && |flat| == ENTRIES * ENTRIES && k < |flat| && Identity(words, flat, k)
    ensures flat[k] == EMPTY
    ensures (forall f :: 0 <= f < 32 * |words| ==> Marked(words, f)) <==> k == 32 * |words|
    ensures forall f :: IsLeast(words, f) ==> f == k
  {
    if k < 32 * |words| { assert !Marked(words, k); }
  }

  lemma IdentityStep(words: seq<int>, flat: seq<Entry>, k: int, words': seq<int>, flat': seq<Entry>)
    requires Bitmap(words) && |flat| == ENTRIES * ENTRIES && k < |flat| && Identity(words, flat, k) && k < 32 * |words|
    requires Bitmap(words') && |words'| == |words|
    requires forall g :: Marked(words', g) <==> Marked(words, g) || g == k
    requires k >= 0 && |flat'| == |flat| && flat' == flat[k := flat'[k]]
    requires flat'[k] == EMPTY.(present := 1, rw := 0, user := 1, frame := k)
    ensures Identity(words', flat', k + 1)
  {}

  lemma IdentityBound(words: seq<int>, flat: seq<Entry>, k: int)
    requires Bitmap(words) && |flat| == ENTRIES * ENTRIES && Identity(words, flat, k)
    ensures 0 <= k <= 32 * |words|
  {}

  lemma EmptyIdentity(words: seq<int>, flat: seq<Entry>)
    requires |flat| == ENTRIES * ENTRIES
    requires forall i :: 0 <= i < |words| ==> words[i] == 0
    requires forall n :: 0 <= n < |flat| ==> flat[n] == EMPTY
    ensures Bitmap(words) && Identity(words, flat, 0)
  {
    forall f ensures !Marked(words, f) {
      if 0 <= f < 32 * |words| { BitOfZero(f % 32); }
    }
  }

  // ---- counting missing tables -------------------------------------------------------------

  function Missing(tables: seq<array?<Entry>>): nat
  {
    if tables == [] then 0 else (if tables[0] == null then 1 else 0) + Missing(tables[1..])
  }

  lemma {:induction false} FillOne(tables: seq<array?<Entry>>, i: int, t: array<Entry>)
    requires 0 <= i < |tables| && tables[i] == null
    ensures Missing(tables[i := t]) == Missing(tables) - 1
  {
    if i > 0 {
      FillOne(tables[1..], i - 1, t);
      assert tables[i := t][1..] == tables[1..][i - 1 := t];
    } else {
      assert tables[i := t][1..] == tables[1..];
    }
  }

  lemma {:induction false} MissingBound(tables: seq<array?<Entry>>)
    ensures Missing(tables) <= |tables|
  {
    if tables != [] { MissingBound(tables[1..]); }
  }

  // ---- words -------------------------------------------------------------------------------

  lemma MaskPage(p: int)
    requires 0 <= p < ADDRESS_SPACE
    ensures BitAnd(p, 0xFFFF_F000) == p - p % PAGE_SIZE
    ensures BitAnd(p, 0xFFFF_F000) != 0 <==> p >= PAGE_SIZE
  {
    Pow2Values();
    AndHighMask(p, 12, 20);
  }

  lemma AlignedParts(p: int) returns (e: nat)
    requires 0 <= p && p % PAGE_SIZE == 0
    ensures 8 * e == p && (p + 7) % PAGE_SIZE == 7
    ensures p < ADDRESS_SPACE ==> p + 7 < ADDRESS_SPACE
  {
    e := p / 8;
  }

  lemma LowThree(e: nat)
    ensures BitOr(8 * e, 7) == 8 * e + 7 && BitAnd(8 * e + 7, 7) == 7
  {
    assert Pow2(3) == 8;
    hide Pow2, BitOr, BitAnd;
    OrDisjoint(7, e, 3);
    OrCommutes(8 * e, 7);
    AndLowMask(8 * e + 7, 3);
  }

  /** A directory word keeps a page-aligned table address and the three flags apart. */
  lemma DirectoryWord(p: int)
    requires 0 <= p < ADDRESS_SPACE && p % PAGE_SIZE == 0
    ensures BitOr(p, 7) == p + 7
    ensures BitAnd(BitOr(p, 7), 0xFFFF_F000) == p && BitAnd(BitOr(p, 7), 7) == 7
  {
    hide BitOr, BitAnd;
    var e := AlignedParts(p);
    LowThree(e);
    MaskPage(p + 7);
  }

  /** Whatever tables are still missing can be placed below the top of the address space. */
  ghost predicate RoomLeft(placement: int, tables: seq<array?<Entry>>)
  {
    && (placement == 0 || placement >= PAGE_SIZE)
    && placement + PAGE_SIZE * Missing(tables) + PAGE_SIZE < ADDRESS_SPACE
  }

  lemma RoomFacts(placement: int, tables: seq<array?<Entry>>)
    requires RoomLeft(placement, tables)
    ensures 0 <= placement && placement + PAGE_SIZE < ADDRESS_SPACE
    ensures RoundDown(placement) % PAGE_SIZE == 0 && (placement > 0 ==> RoundDown(placement) > 0)
  {}

  lemma RoomStart(placement: int, tables: seq<array?<Entry>>)
    requires PAGE_SIZE <= placement < ADDRESS_SPACE - PAGE_SIZE * (ENTRIES + 1) && |tables| == ENTRIES
    ensures RoomLeft(placement, tables)
  {
    MissingBound(tables);
  }

  lemma RoomStep(placement: int, tables: seq<array?<Entry>>, i: int, t: array?<Entry>)
    requires RoomLeft(placement, tables) && (t != null || RoundDown(placement) == 0) && 0 <= i < |tables| <= ENTRIES && tables[i] == null
    ensures var p, ts := RoundDown(placement), tables[i := if RoundDown(placement) == 0 then null else t];
            && RoomLeft(p + PAGE_SIZE, ts)
            && (placement > 0 ==> p + PAGE_SIZE + PAGE_SIZE * Missing(ts) <= placement + PAGE_SIZE * Missing(tables))
  {
    if t != null { FillOne(tables, i, t); }
    MissingBound(tables);
    assert tables[i := null] == tables;
  }

  // ---- where the tables lie ----------------------------------------------------------------

  const SPAN := 0x40_0000          // bytes that one table maps

  /** Tables that map the bytes below `x`. */
  function Slots(x: int): int { (x + SPAN - 1) / SPAN }

  lemma SlotStep(i: int)
    requires 0 <= i < ADDRESS_SPACE && i % PAGE_SIZE == 0
    ensures var s := i / PAGE_SIZE / ENTRIES;
            0 <= s < ENTRIES && Slots(i + PAGE_SIZE) == s + 1 && Slots(i) == if i % SPAN == 0 then s else s + 1
  {
    assert i / PAGE_SIZE / ENTRIES == i / SPAN;
  }

  /** Does `w` hold the page-aligned address `a` and the flags present, writeable, user? */
  predicate DirectoryEntry(a: int, w: int)
  {
    0 < a < ADDRESS_SPACE && a % PAGE_SIZE == 0 && w == BitOr(a, 7)
  }

  /** The directory's words hold the addresses of the tables. */
  ghost predicate Directory(tables: seq<array?<Entry>>, words: seq<int>, place: seq<int>)
    requires |tables| == |words| == |place|
  {
    forall i :: 0 <= i < |tables| && tables[i] != null ==> DirectoryEntry(place[i], words[i])
  }

  lemma DirectoryStep(tables: seq<array?<Entry>>, words: seq<int>, place: seq<int>, i: int, p: int, t: array<Entry>)
    requires |tables| == |words| == |place| && Directory(tables, words, place)
    requires 0 <= i < |tables| && tables[i] == null && 0 <= p < ADDRESS_SPACE && p % PAGE_SIZE == 0
    ensures Directory(tables[i := if p == 0 then null else t], words[i := BitOr(p, 7)], place[i := p])
  {
    hide BitOr;
  }

  /** Address of table `j`: one page after another from `base` on for the `early` tables
      made while paging is installed, and again from the second page of memory on for the
      tables made by `sbrk`. */
  function TableAddress(base: int, early: int, j: int): int
  {
    if j < early then base + PAGE_SIZE * j else PAGE_SIZE * (j - early + 1)
  }

  /** The placement pointer after `sbrk` has made `k` tables.  The first one that is made, at
      address 0, is lost. */
  function HeapPlacement(k: int): int { if k <= 0 then 0 else PAGE_SIZE * (k + 1) }

  /** The first `c` tables are there, and no others, each at its address. */
  ghost predicate Laid(tables: seq<array?<Entry>>, place: seq<int>, base: int, early: int, c: int)
    requires |tables| == |place| == ENTRIES
  {
    && 0 <= c <= ENTRIES
    && (forall j :: 0 <= j < ENTRIES ==> (tables[j] != null <==> j < c))
    && (forall j :: 0 <= j < c ==> place[j] == TableAddress(base, early, j))
  }

  lemma LaidAt(tables: seq<array?<Entry>>, place: seq<int>, base: int, early: int, i: int)
    requires |tables| == |place| == ENTRIES
    requires 0 <= i < ADDRESS_SPACE && i % PAGE_SIZE == 0 && Laid(tables, place, base, early, Slots(i))
    ensures var s := i / PAGE_SIZE / ENTRIES;
            0 <= s < ENTRIES && (tables[s] == null <==> i % SPAN == 0) && (tables[s] == null <==> Slots(i) == s)
  {
    SlotStep(i);
  }

  /** Going on to the page at `i` makes table number `Slots(i)` if it is a new one. */
  lemma LaidStep(tables: seq<array?<Entry>>, place: seq<int>, base: int, early: int, i: int,
                 tables': seq<array?<Entry>>, place': seq<int>)
    requires |tables| == |place| == |tables'| == |place'| == ENTRIES
    requires 0 <= i < ADDRESS_SPACE && i % PAGE_SIZE == 0 && Laid(tables, place, base, early, Slots(i))
    requires var s := i / PAGE_SIZE / ENTRIES; 0 <= s < ENTRIES && tables'[s] != null
    requires var s := i / PAGE_SIZE / ENTRIES; tables' == tables[s := tables'[s]]
    requires var s := i / PAGE_SIZE / ENTRIES;
             place' == if tables[s] == null then place[s := TableAddress(base, early, s)] else place
    ensures Laid(tables', place', base, early, Slots(i + PAGE_SIZE))
  {
    SlotStep(i);
  }

  lemma EmptyLaid(tables: seq<array?<Entry>>, place: seq<int>, base: int, early: int)
    requires |tables| == |place| == ENTRIES && forall j :: 0 <= j < ENTRIES ==> tables[j] == null
    ensures Slots(0) == 0 && Laid(tables, place, base, early, 0)
  {}

  /** How many tables `paging_install` makes when the first comes to lie at `base`: the least
      number that maps everything up to the end of the last of them. */
  function BootTables(base: int): int { (base + SPAN - PAGE_SIZE - 1) / (SPAN - PAGE_SIZE) }

  /** Where the placement pointer comes to rest. */
  function BootEnd(base: int): int { base + PAGE_SIZE * BootTables(base) }

  lemma BootFixpoint(base: int)
    requires base > 0
    ensures BootTables(base) >= 1 && Slots(BootEnd(base)) == BootTables(base)
    ensures forall c :: c < BootTables(base) ==> Slots(base + PAGE_SIZE * c) > c
  {
    var c := BootTables(base);
    assert (SPAN - PAGE_SIZE) * (c - 1) < base <= (SPAN - PAGE_SIZE) * c;
  }

  lemma BootEndAbove(base: int)
    requires base > 0
    ensures BootEnd(base) >= base + PAGE_SIZE
  {
    BootFixpoint(base);
  }

  lemma BootStart(base: int)
    requires base > 0
    ensures 0 < BootEnd(base) && Slots(0) == 0
  {
    BootFixpoint(base);
  }

  /** While the loop runs it is below its final bound, and so is the next page. */
  lemma BootBound(base: int, i: int, placement: int)
    requires base >= PAGE_SIZE && base % PAGE_SIZE == 0 && 0 <= i <= BootEnd(base) && i < placement && i % PAGE_SIZE == 0
    requires if i == 0 then RoundDown(placement) == base else placement == base + PAGE_SIZE * Slots(i)
    ensures i + PAGE_SIZE <= BootEnd(base)
  {
    BootFixpoint(base);
    BelowEnd(base, i);
    hide BootTables, Slots;
    PageMultiples(base, i, BootTables(base));
  }

  lemma BelowEnd(base: int, i: int)
    requires base > 0 && i <= BootEnd(base)
    ensures Slots(i) <= BootTables(base)
  {
    BootFixpoint(base);
    hide BootTables, BootEnd;
  }

  lemma PageMultiples(base: int, i: int, c: int)
    requires base % PAGE_SIZE == 0 && i % PAGE_SIZE == 0 && i < base + PAGE_SIZE * c
    ensures i + PAGE_SIZE <= base + PAGE_SIZE * c
  {
    var a, b := base / PAGE_SIZE, i / PAGE_SIZE;
    assert base == PAGE_SIZE * a && i == PAGE_SIZE * b;
  }

  /** When the loop ends, it has reached that bound. */
  lemma BootDone(base: int, i: int, placement: int)
    requires base >= PAGE_SIZE && base % PAGE_SIZE == 0 && placement <= i <= BootEnd(base) && placement > 0
    requires if i == 0 then RoundDown(placement) == base else placement == base + PAGE_SIZE * Slots(i)
    ensures i == placement == BootEnd(base)
  {
    BootFixpoint(base);
    BelowEnd(base, i);
    hide BootTables;
  }

  /** Where the first table comes to lie when memory is handed out from `start` on: behind
      the bitmap and the directory. */
  function TablesFrom(start: int, frameCount: int): int
  {
    RoundDown(RoundDown(start + frameCount / 32) + DIRECTORY_SIZE)
  }
}
