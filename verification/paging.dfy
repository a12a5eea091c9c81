/** `core/mem.c`: the placement allocator, the frame bitmap, the two-level page tables and
    `sbrk`. */
module Paging {
  import opened Bits
  import opened Machine
  import opened PagingModel

  class Pager {
    var placement: int                     // placement_pointer
    var heapEnd: int                       // heap_end
    var nframes: int
    var frames: array<int>
    var tables: array<array?<Entry>>       // kernel_directory->tables
    var physical: array<int>               // kernel_directory->physical_tables
    ghost var flat: seq<Entry>             // the two levels as one array, by page number
    ghost var place: seq<int>              // the address of each table
    ghost var base: int                    // the address of the first table
    ghost var early: int                   // tables made before the heap was installed
    ghost var repr: set<object>

    ghost predicate Valid()
      reads this, repr
      ensures Valid() ==> this in repr
    {
      && Objects() && 0 <= nframes <= 0x10_0000 && frames.Length == nframes / 32 && Bitmap(frames[..])
      && RoomLeft(placement, tables[..])
      && |place| == ENTRIES && Directory(tables[..], physical[..], place)
      && FlatMap()
    }

    /** The arrays are there, and no two of them are the same. */
    ghost predicate Objects()
      reads this, repr
      ensures Objects() ==> this in repr && tables in repr
    {
      && this in repr && frames in repr && tables in repr && physical in repr
      && frames != physical && tables.Length == physical.Length == ENTRIES
      && (forall i :: 0 <= i < ENTRIES && tables[i] != null ==> tables[i] in repr && tables[i].Length == ENTRIES)
      && (forall i, j :: 0 <= i < j < ENTRIES && tables[i] != null ==> tables[i] != tables[j])
    }

    /** The two levels together are one flat table. */
    ghost predicate FlatMap()
      requires Objects()
      reads this, repr
    {
      && |flat| == ENTRIES * ENTRIES
      && (forall n :: 0 <= n < |flat| ==>
            flat[n] == if tables[n / ENTRIES] == null then EMPTY else tables[n / ENTRIES][n % ENTRIES])
    }

    constructor (address: int)
      requires PAGE_SIZE <= address < ADDRESS_SPACE - PAGE_SIZE * (ENTRIES + 1)
      ensures Valid() && fresh(repr) && placement == address && heapEnd == 0
    {
      placement, heapEnd, nframes := address, 0, 0;
      frames := new int[0];
      tables := new array?<Entry>[ENTRIES](_ => null);
      physical := new int[ENTRIES](_ => 0);
      flat, place := seq(ENTRIES * ENTRIES, n => EMPTY), seq(ENTRIES, _ => 0);
      base, early := 0, ENTRIES;
      new;
      repr := {this, frames, tables, physical};
      BlankValid();
    }

    // ---- placement allocation --------------------------------------------------------------

    /** Round down to a page if asked to and past the first page, then bump. */
    method KmallocReal(size: int, align: bool) returns (address: int)
      requires 0 <= size && 0 <= placement && placement + size < ADDRESS_SPACE
      modifies this`placement
      ensures address == if align then RoundDown(old(placement)) else old(placement)
      ensures old(placement) - PAGE_SIZE < address <= old(placement) && (old(placement) >= PAGE_SIZE ==> address >= PAGE_SIZE)
      ensures placement == address + size
    {
      hide BitAnd;
      MaskPage(placement);
      if align && BitAnd(placement, 0xFFFF_F000) != 0 {
        placement := BitAnd(placement, 0xFFFF_F000);
      }
      address := placement;
      placement := placement + size;
    }

    // ---- frames ----------------------------------------------------------------------------

    method SetFrame(frameAddr: int)
      requires Valid() && 0 <= frameAddr / PAGE_SIZE < 32 * frames.Length
      modifies frames
      ensures Valid() && forall g :: Marked(frames[..], g) <==> old(Marked(frames[..], g)) || g == frameAddr / PAGE_SIZE
    {
      var frame := frameAddr / PAGE_SIZE;
      MarkOne(frames[..], frame);
      ghost var before := frames[..];
      frames[frame / 32] := BitOr(frames[frame / 32], Pow2(frame % 32));
      assert frames[..] == before[frame / 32 := BitOr(before[frame / 32], Pow2(frame % 32))];
    }

    method ClearFrame(frameAddr: int)
      requires Valid() && 0 <= frameAddr / PAGE_SIZE < 32 * frames.Length
      modifies frames
      ensures Valid() && forall g :: Marked(frames[..], g) <==> old(Marked(frames[..], g)) && g != frameAddr / PAGE_SIZE
    {
      var frame := frameAddr / PAGE_SIZE;
      UnmarkOne(frames[..], frame);
      ghost var before := frames[..];
      frames[frame / 32] := BitAnd(frames[frame / 32], ADDRESS_SPACE - 1 - Pow2(frame % 32));
      assert frames[..] == before[frame / 32 := BitAnd(before[frame / 32], ADDRESS_SPACE - 1 - Pow2(frame % 32))];
    }

    method TestFrame(frameAddr: int) returns (r: int)
      requires Valid() && 0 <= frameAddr / PAGE_SIZE < 32 * frames.Length
      ensures r != 0 <==> Marked(frames[..], frameAddr / PAGE_SIZE)
    {
      var frame := frameAddr / PAGE_SIZE;
      AndOneBit(frames[frame / 32], frame % 32);
      r := BitAnd(frames[frame / 32], Pow2(frame % 32));
    }

    /** The least unmarked frame, or NO_FRAME when every frame is marked. */
    method FirstFrame() returns (index: int)
      requires Valid()
      ensures index == NO_FRAME || 0 <= index < 32 * frames.Length
      ensures index != NO_FRAME ==> !Marked(frames[..], index) && forall f :: 0 <= f < index ==> Marked(frames[..], f)
      ensures index == NO_FRAME ==> forall f :: 0 <= f < 32 * frames.Length ==> Marked(frames[..], f)
    {
      var i := 0;
      while i < nframes / 32
        invariant 0 <= i <= frames.Length
        invariant forall f :: 0 <= f < 32 * i ==> Marked(frames[..], f)
      {
        FullWord(frames[..], i);
        if frames[i] != 0xFFFF_FFFF {
          var j := 0;
          while j < 32
            invariant 0 <= j <= 32
            invariant forall g :: 0 <= g < j ==> Bit(frames[i], g)
          {
            AndOneBit(frames[i], j);
            if BitAnd(frames[i], Pow2(j)) == 0 {
              return i * 32 + j;
            }
            j := j + 1;
          }
        }
        i := i + 1;
      }
      index := NO_FRAME;
    }

    /** Back page `n`, given by a pointer to its entry, with the first free frame unless it
        has one; the machine halts when no frame is free. */
    method AllocFrame(page: array<Entry>, k: int, isKernel: bool, isWriteable: bool, ghost n: int) returns (halted: bool)
      requires Valid() && 0 <= n < ENTRIES * ENTRIES && page == tables[n / ENTRIES] && k == n % ENTRIES
      modifies page, frames, this`flat
      ensures Valid()
      ensures halted <==> old(flat[n].frame) == 0 && forall f :: 0 <= f < 32 * frames.Length ==> old(Marked(frames[..], f))
      ensures halted || old(flat[n].frame) != 0 ==> flat == old(flat) && frames[..] == old(frames[..])
      ensures !halted && old(flat[n].frame) == 0 ==>
        IsLeast(old(frames[..]), flat[n].frame)
        && forall g :: Marked(frames[..], g) <==> old(Marked(frames[..], g)) || g == flat[n].frame
      ensures !halted && old(flat[n].frame) == 0 ==>
        && flat == old(flat)[n := flat[n]] && flat[n].present == 1
        && (flat[n].rw == 1 <==> isWriteable) && (flat[n].rw == 0 <==> !isWriteable)
        && (flat[n].user == 0 <==> isKernel) && (flat[n].user == 1 <==> !isKernel)
        && flat[n] == old(flat[n]).(present := 1, rw := flat[n].rw, user := flat[n].user, frame := flat[n].frame)
    {
      hide Pow2, Bit, Directory, RoomLeft, Bitmap;
      halted := false;
      if page[k].frame != 0 {
        return;
      } else {
        var index := FirstFrame();
        if index == NO_FRAME {
          return true;   // HALT_AND_CATCH_FIRE
        }
        assert IsLeast(frames[..], index);
        SetFrame(index * 0x1000);
        page[k] := page[k].(present := 1);
        page[k] := page[k].(rw := if isWriteable then 1 else 0);
        page[k] := page[k].(user := if isKernel then 0 else 1);
        page[k] := page[k].(frame := index);
        flat := flat[n := page[k]];
      }
    }

    // ---- page tables -----------------------------------------------------------------------

    /** The entry for an address, as a place in its table.  A missing table is created if
        `make`; a table that the placement allocator puts at address 0 cannot be told from a
        missing one, so it is handed out but does not stay in the directory. */
    method GetPage(address: int, make: bool) returns (table: array?<Entry>, k: int)
      requires Valid() && 0 <= address < ADDRESS_SPACE
      modifies this`placement, this`place, this`repr, tables, physical
      ensures Valid() && fresh(repr - old(repr)) && old(repr) <= repr
      ensures k == address / PAGE_SIZE % ENTRIES
      ensures table == null <==> !make && old(tables[address / PAGE_SIZE / ENTRIES]) == null
      ensures table != null ==> table in repr && table.Length == ENTRIES && table[k] == flat[address / PAGE_SIZE]
      ensures flat == old(flat)
      ensures old(placement) % PAGE_SIZE == 0 ==> placement % PAGE_SIZE == 0
      ensures old(placement) > 0 ==>
        placement + PAGE_SIZE * Missing(tables[..]) <= old(placement) + PAGE_SIZE * Missing(old(tables[..]))
      ensures old(tables[address / PAGE_SIZE / ENTRIES]) != null ==> table == old(tables[address / PAGE_SIZE / ENTRIES])
      ensures old(tables[address / PAGE_SIZE / ENTRIES]) != null || !make ==>
        placement == old(placement) && tables[..] == old(tables[..]) && physical[..] == old(physical[..]) && place == old(place)
      ensures old(tables[address / PAGE_SIZE / ENTRIES]) == null && make ==>
        && placement == RoundDown(old(placement)) + PAGE_SIZE
        && physical[..] == old(physical[..])[address / PAGE_SIZE / ENTRIES := BitOr(RoundDown(old(placement)), 7)]
        && tables[..] == old(tables[..])[address / PAGE_SIZE / ENTRIES := if RoundDown(old(placement)) == 0 then null else table]
        && place == old(place)[address / PAGE_SIZE / ENTRIES := RoundDown(old(placement))]
    {
      hide BitOr, Missing;
      var n := address / 0x1000;
      var ti := n / 1024;
      k := n % 1024;
      if tables[ti] != null {
        table := tables[ti];
      } else if make {
        ghost var ts := tables[..];
        table := MakeTable(ti);
        RoomStep(old(placement), ts, ti, table);
      } else {
        table := null;
      }
    }

    /** A zeroed table in slot `ti`, unless it came to lie at address 0. */
    method MakeTable(ti: int) returns (table: array<Entry>)
      requires Valid() && 0 <= ti < ENTRIES && tables[ti] == null
      modifies this`placement, this`place, this`repr, tables, physical
      ensures Valid() && fresh(repr - old(repr)) && old(repr) <= repr
      ensures table in repr && table.Length == ENTRIES && forall k :: 0 <= k < ENTRIES ==> table[k] == EMPTY
      ensures placement == RoundDown(old(placement)) + PAGE_SIZE
      ensures physical[..] == old(physical[..])[ti := BitOr(RoundDown(old(placement)), 7)]
      ensures tables[..] == old(tables[..])[ti := if RoundDown(old(placement)) == 0 then null else table]
      ensures place == old(place)[ti := RoundDown(old(placement))]
    {
      hide BitOr, RoomLeft, Directory, Bitmap, RoundDown;
      ghost var ts := tables[..];
      RoomFacts(placement, ts);
      var temp := KmallocReal(0x1000, true);
      table := new Entry[1024](_ => EMPTY);
      DirectoryStep(ts, physical[..], place, ti, temp, table);
      RoomStep(old(placement), ts, ti, table);
      PutTable(ti, temp, table);
    }

    /** Enter a zeroed table and its address. */
    method PutTable(ti: int, temp: int, table: array<Entry>)
      requires Objects() && FlatMap() && |place| == ENTRIES
      requires 0 <= ti < ENTRIES && tables[ti] == null && temp >= 0 && table !in repr
      requires table.Length == ENTRIES && forall k :: 0 <= k < ENTRIES ==> table[k] == EMPTY
      modifies this`place, this`repr, tables, physical
      ensures Objects() && FlatMap() && repr == old(repr) + {table}
      ensures physical[..] == old(physical[..])[ti := BitOr(temp, 7)] && place == old(place)[ti := temp]
      ensures tables[..] == old(tables[..])[ti := if temp == 0 then null else table]
    {
      hide BitOr;
      if temp != 0 { tables[ti] := table; }
      physical[ti] := BitOr(temp, 0x7);   // present, writeable, user
      place := place[ti := temp];
      repr := repr + {table};
    }

    // ---- installing paging -----------------------------------------------------------------

    /** Frames and pages are paired off in order: the first `k` and no others. */
    ghost predicate Mapped(k: int)
      requires Valid()
      reads this, repr
    {
      Identity(frames[..], flat, k)
    }

    /** Bytes that the bitmap can back. */
    function Capacity(): int
      reads this
    {
      PAGE_SIZE * 32 * (nframes / 32)
    }

    /** Map one page, the next in order: `alloc_frame(get_page(i, 1, kernel_directory), 0, 0)`.
        The page's table must be there or get an address other than 0. */
    method MapPage(i: int) returns (halted: bool)
      requires Valid() && 0 <= i < ADDRESS_SPACE && i % PAGE_SIZE == 0 && Mapped(i / PAGE_SIZE)
      requires placement > 0 || tables[i / PAGE_SIZE / ENTRIES] != null
      modifies repr
      ensures Valid() && fresh(repr - old(repr)) && Kept(old(heapEnd), old(nframes), old(base), old(early))
      ensures old(placement) > 0 ==>
        placement + PAGE_SIZE * Missing(tables[..]) <= old(placement) + PAGE_SIZE * Missing(old(tables[..]))
      ensures tables[i / PAGE_SIZE / ENTRIES] != null
      ensures tables[..] == old(tables[..])[i / PAGE_SIZE / ENTRIES := tables[i / PAGE_SIZE / ENTRIES]]
      ensures old(tables[i / PAGE_SIZE / ENTRIES]) == null ==>
        placement == RoundDown(old(placement)) + PAGE_SIZE
        && place == old(place)[i / PAGE_SIZE / ENTRIES := RoundDown(old(placement))]
      ensures old(tables[i / PAGE_SIZE / ENTRIES]) != null ==> placement == old(placement) && place == old(place)
      ensures if halted then i == Capacity() else i + PAGE_SIZE <= Capacity()
      ensures Mapped(if halted then i / PAGE_SIZE else i / PAGE_SIZE + 1)
    {
      hide Identity, Directory, RoomLeft, Missing, RoundDown;
      RoomFacts(placement, tables[..]);
      var table, k := GetPage(i, true);
      label before:
      IdentityBound(frames[..], flat, i / PAGE_SIZE);
      Frontier(frames[..], flat, i / PAGE_SIZE);
      ghost var words := frames[..];
      halted := AllocFrame(table, k, false, false, i / PAGE_SIZE);
      if !halted { IdentityStep(words, old@before(flat), i / PAGE_SIZE, frames[..], flat); }
      assert tables == old@before(tables) && tables[..] == old@before(tables[..]);
    }

    /** What mapping pages leaves alone. */
    ghost predicate Kept(end: int, count: int, first: int, made: int)
      reads this
    {
      heapEnd == end && nframes == count && base == first && early == made
    }

    /** While paging is installed: the tables for the bytes below `i` lie one after another
        from `base` on, and the placement pointer behind them. */
    ghost predicate BootLaid(i: int)
      requires Valid()
      reads this, repr
    {
      && early == ENTRIES && base % PAGE_SIZE == 0 && base >= PAGE_SIZE
      && Laid(tables[..], place, base, early, Slots(i))
      && (if i == 0 then RoundDown(placement) == base else placement == base + PAGE_SIZE * Slots(i))
    }

    /** One round of the loop in `paging_install`. */
    method MapBoot(i: int) returns (halted: bool)
      requires Valid() && 0 <= i < placement && i % PAGE_SIZE == 0 && Mapped(i / PAGE_SIZE) && BootLaid(i)
      modifies repr
      ensures Valid() && fresh(repr - old(repr)) && Kept(old(heapEnd), old(nframes), old(base), old(early))
      ensures placement + PAGE_SIZE * Missing(tables[..]) <= old(placement) + PAGE_SIZE * Missing(old(tables[..]))
      ensures if halted then i == Capacity() else i + PAGE_SIZE <= Capacity()
      ensures Mapped(if halted then i / PAGE_SIZE else i / PAGE_SIZE + 1)
      ensures BootLaid(i + PAGE_SIZE) && placement > 0
    {
      hide Identity, Laid, Missing, FlatMap, Directory, Bitmap, RoundDown, Slots;
      ghost var ts, ps := tables[..], place;
      SlotStep(i);
      LaidAt(ts, ps, base, early, i);
      WholePages(base, Slots(i));
      halted := MapPage(i);
      LaidStep(ts, ps, base, early, i, tables[..], place);
    }

    /** Identity-map everything below the placement pointer, which moves as tables are made. */
    method MapBelowPlacement() returns (halted: bool)
      requires Valid() && Mapped(0) && BootLaid(0) && placement > 0
      modifies repr
      ensures Valid() && fresh(repr - old(repr)) && Kept(old(heapEnd), old(nframes), old(base), old(early))
      ensures halted <==> Capacity() < BootEnd(base)
      ensures !halted ==> placement == BootEnd(base) && Mapped(placement / PAGE_SIZE) && BootLaid(placement)
    {
      hide Identity, Laid, BootEnd, BootTables, Slots, Missing, RoundDown;
      BootStart(base);
      var i := 0;
      while i < placement
        invariant Valid() && fresh(repr - old(repr)) && Kept(old(heapEnd), old(nframes), old(base), old(early))
        invariant 0 <= i <= BootEnd(base) && i % PAGE_SIZE == 0 && placement > 0
        invariant Mapped(i / PAGE_SIZE) && BootLaid(i)
        decreases placement + PAGE_SIZE * Missing(tables[..]) - i
      {
        BootBound(base, i, placement);
        halted := MapBoot(i);
        if halted { return; }
        i := i + 0x1000;
      }
      BootDone(base, i, placement);
      IdentityBound(frames[..], flat, i / PAGE_SIZE);
      halted := false;
    }

    /** The bitmap and the directory, both cleared. */
    method Reset(memsize: int)
      requires Valid() && 0 <= memsize && memsize / 4 <= 0x10_0000
      requires PAGE_SIZE <= placement < ADDRESS_SPACE - PAGE_SIZE * (ENTRIES + 4) - 0x8000
      modifies this
      ensures Valid() && fresh(repr - {this}) && heapEnd == old(heapEnd) && nframes == memsize / 4
      ensures base == TablesFrom(old(placement), nframes) >= old(placement)
      ensures placement > 0 && Mapped(0) && BootLaid(0)
    {
      hide Identity, Laid, Slots, Valid, Blank;
      nframes := memsize / 4;
      var bitmap := KmallocReal(nframes / 32, false);
      var directory := KmallocReal(DIRECTORY_SIZE, true);
      ClearTables();
      BlankValid();
    }

    /** Fresh, zeroed objects for what was just placed. */
    method ClearTables()
      requires 0 <= nframes
      modifies this`frames, this`tables, this`physical, this`flat, this`place, this`base, this`early, this`repr
      ensures Blank() && fresh(frames) && fresh(tables) && fresh(physical)
      ensures repr == {this, frames, tables, physical} && base == RoundDown(placement) && early == ENTRIES
    {
      frames := new int[nframes / 32](_ => 0);
      tables := new array?<Entry>[ENTRIES](_ => null);
      physical := new int[ENTRIES](_ => 0);
      flat, place := seq(ENTRIES * ENTRIES, n => EMPTY), seq(ENTRIES, _ => 0);
      base, early := RoundDown(placement), ENTRIES;
      repr := {this, frames, tables, physical};
    }

    /** No frame taken, no table there. */
    ghost predicate Blank()
      reads this, frames, tables
    {
      && frames.Length == nframes / 32 && frames != physical && tables.Length == physical.Length == |place| == ENTRIES
      && (forall k :: 0 <= k < frames.Length ==> frames[k] == 0)
      && (forall j :: 0 <= j < ENTRIES ==> tables[j] == null)
      && |flat| == ENTRIES * ENTRIES && (forall n :: 0 <= n < |flat| ==> flat[n] == EMPTY)
    }

    lemma BlankValid()
      requires Blank() && {this, frames, tables, physical} <= repr && 0 <= nframes <= 0x10_0000
      requires PAGE_SIZE <= placement < ADDRESS_SPACE - PAGE_SIZE * (ENTRIES + 1)
      ensures Valid() && Identity(frames[..], flat, 0) && Slots(0) == 0 && Laid(tables[..], place, base, early, 0)
    {
      hide RoomLeft, Identity, Laid, Slots;
      RoomStart(placement, tables[..]);
      EmptyIdentity(frames[..], flat);
      EmptyLaid(tables[..], place, base, early);
    }

    /** Whether there are frames enough can be told beforehand. */
    method PagingInstall(memsize: int) returns (halted: bool)
      requires Valid() && 0 <= memsize && memsize / 4 <= 0x10_0000
      requires PAGE_SIZE <= placement < ADDRESS_SPACE - PAGE_SIZE * (ENTRIES + 4) - 0x8000
      modifies repr
      ensures Valid() && fresh(repr - old(repr)) && heapEnd == old(heapEnd) && nframes == memsize / 4
      ensures base == TablesFrom(old(placement), memsize / 4) >= old(placement)
      ensures halted <==> Capacity() < BootEnd(base)
      ensures !halted ==> placement == BootEnd(base) && Mapped(placement / PAGE_SIZE) && BootLaid(placement)
    {
      Reset(memsize);
      halted := MapBelowPlacement();
    }

    // ---- the heap --------------------------------------------------------------------------

    /** Once the heap is installed: the tables for the bytes below `i`, early ones and late. */
    ghost predicate HeapLaid(i: int)
      requires Valid()
      reads this, repr
    {
      && base % PAGE_SIZE == 0 && base >= PAGE_SIZE && 1 <= early <= Slots(i)
      && Laid(tables[..], place, base, early, Slots(i))
      && placement == HeapPlacement(Slots(i) - early)
    }

    /** The break is page-aligned and everything below it, and nothing else, is mapped. */
    ghost predicate HeapReady()
      reads this, repr
    {
      && Valid() && 0 <= heapEnd < ADDRESS_SPACE && heapEnd % PAGE_SIZE == 0
      && Mapped(heapEnd / PAGE_SIZE) && HeapLaid(heapEnd)
    }

    method HeapInstall()
      requires Valid() && 0 < placement && placement % PAGE_SIZE == 0 && Mapped(placement / PAGE_SIZE) && BootLaid(placement)
      modifies this`heapEnd, this`placement, this`early
      ensures HeapReady() && heapEnd == old(placement) && repr == old(repr) && nframes == old(nframes)
      ensures base == old(base) && early == Slots(heapEnd)
    {
      heapEnd := placement;
      placement := 0;
      early := Slots(heapEnd);
    }

    /** Move the break up and map the pages it passes.  Asking for more frames than there are
        halts the machine; wrapping around the address space maps nothing at all. */
    method Sbrk(increment: int) returns (halted: bool, address: int)
      requires HeapReady() && 0 <= increment < ADDRESS_SPACE && increment % PAGE_SIZE == 0
      modifies repr
      ensures Valid() && fresh(repr - old(repr)) && nframes == old(nframes) && base == old(base) && early == old(early)
      ensures halted <==> Capacity() < old(heapEnd) + increment < ADDRESS_SPACE
      ensures !halted ==> address == old(heapEnd) && heapEnd == (old(heapEnd) + increment) % ADDRESS_SPACE
      ensures !halted && old(heapEnd) + increment < ADDRESS_SPACE ==> heapEnd == old(heapEnd) + increment
      ensures !halted && old(heapEnd) + increment < ADDRESS_SPACE ==> HeapReady()
      ensures old(heapEnd) + increment >= ADDRESS_SPACE ==> Mapped(old(heapEnd) / PAGE_SIZE)
    {
      hide Identity, Laid, Slots, HeapPlacement, Directory, RoomLeft, Bitmap;
      assert increment % PAGE_SIZE == 0;     // ASSERT, line 253
      IdentityBound(frames[..], flat, heapEnd / PAGE_SIZE);
      address := heapEnd;
      heapEnd := (heapEnd + increment) % ADDRESS_SPACE;
      halted := MapRange(address);
    }

    /** The body of the loop in `sbrk`: asking for the page twice, so that the entry backed
        is one the directory can find even if the first answer was a table at address 0. */
    method MapNext(i: int) returns (halted: bool)
      requires Valid() && 0 <= i < ADDRESS_SPACE && i % PAGE_SIZE == 0 && Mapped(i / PAGE_SIZE) && HeapLaid(i)
      modifies repr
      ensures Valid() && fresh(repr - old(repr)) && Kept(old(heapEnd), old(nframes), old(base), old(early))
      ensures if halted then i == Capacity() else i + PAGE_SIZE <= Capacity()
      ensures Mapped(if halted then i / PAGE_SIZE else i / PAGE_SIZE + 1)
      ensures HeapLaid(i + PAGE_SIZE)
    {
      hide Identity, Laid, Missing, FlatMap, Directory, Bitmap, RoundDown, Slots;
      ghost var ts, ps := tables[..], place;
      SlotStep(i);
      LaidAt(ts, ps, base, early, i);
      WholePages(0, 0);
      WholePages(0, Slots(i) - early + 1);
      WholePages(0, 1);
      var first, _ := GetPage(i, true);
      halted := MapPage(i);
      LaidStep(ts, ps, base, early, i, tables[..], place);
    }

    method MapRange(address: int) returns (halted: bool)
      requires Valid() && 0 <= address < ADDRESS_SPACE && address % PAGE_SIZE == 0
      requires 0 <= heapEnd < ADDRESS_SPACE && heapEnd % PAGE_SIZE == 0
      requires Mapped(address / PAGE_SIZE) && HeapLaid(address)
      modifies repr
      ensures Valid() && fresh(repr - old(repr)) && Kept(old(heapEnd), old(nframes), old(base), old(early))
      ensures halted <==> Capacity() < heapEnd && address < heapEnd
      ensures !halted ==> Mapped((if address < heapEnd then heapEnd else address) / PAGE_SIZE)
      ensures !halted ==> HeapLaid(if address < heapEnd then heapEnd else address)
    {
      hide Identity, Laid, Slots, HeapPlacement;
      var i := address;
      while i < heapEnd
        invariant Valid() && fresh(repr - old(repr)) && Kept(old(heapEnd), old(nframes), old(base), old(early))
        invariant i % PAGE_SIZE == 0 && address <= i && (i <= heapEnd || i == address)
        invariant (i == address || i <= Capacity()) && Mapped(i / PAGE_SIZE) && HeapLaid(i)
        decreases heapEnd - i
      {
        halted := MapNext(i);
        if halted { return; }
        i := i + 0x1000;
      }
      halted := false;
    }
  }
}
