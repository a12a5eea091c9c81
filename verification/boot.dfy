/** `main.c`, as far as memory goes: what the allocator relies on is what start-up gives it. */
module Boot {
  import opened Machine
  import opened HeapModel
  import opened HeapTheorems
  import opened PagingModel
  import opened Paging
  import opened PagingWalk
  import opened Alloc
  import opened Clients

  /** `placement` is where the kernel image ends, or the modules behind it; `root` is the
      allocator's static list head, inside the image.  Start-up halts exactly when there are
      too few frames for the image, the bitmap, the directory and the tables. */
  method Start(placement: int, memUpper: int, multibootSize: int, root: int) returns (halted: bool, a: Allocator?)
    requires 0 < root && root % 4 == 0 && PAGE_SIZE <= placement && root + BIG_HEADER <= placement
    requires 0 <= multibootSize && 0 <= memUpper && memUpper / 4 <= 0x10_0000
    requires placement + multibootSize < ADDRESS_SPACE - PAGE_SIZE * (ENTRIES + 4) - 0x8000
    ensures halted <==>
      PAGE_SIZE * 32 * (memUpper / 4 / 32) < BootEnd(TablesFrom(placement + multibootSize, memUpper / 4))
    ensures if halted then a == null else a != null && fresh(a) && a.Valid()
    ensures !halted ==> Inv(a.heap) && a.heap == EmptyHeap(root, a.pager.heapEnd)
    ensures !halted ==> a.heap.start == BootEnd(TablesFrom(placement + multibootSize, memUpper / 4))
    ensures !halted ==> placement <= a.heap.start && a.pager.Mapped(a.heap.start / PAGE_SIZE)
    ensures !halted ==> Holds(a.mem.ram, a.heap.live, map[])
  {
    hide BootEnd, TablesFrom, Laid, Identity, Slots, Directory, RoomLeft, Missing;
    var pager := new Pager(placement);
    var copy := pager.KmallocReal(multibootSize, false);    // copy_multiboot
    RoomStart(pager.placement, pager.tables[..]);
    halted := pager.PagingInstall(memUpper);
    BootEndAbove(pager.base);
    if halted { return true, null; }
    pager.HeapInstall();
    a := new Allocator(pager, root);
  }

  /** Two gigabytes of memory and a heap of a little more than one: the first table made by
      `paging_install` and the 263rd of all are one and the same piece of memory. */
  method LargeHeap() returns (pager: Pager)
    ensures pager.HeapReady() && pager.heapEnd == 0x4210_7000 && !PlacesDistinct(pager)
    ensures pager.tables[0] != null && pager.tables[262] != null
    ensures pager.tables[0] != pager.tables[262] && pager.place[0] == pager.place[262] == 0x10_6000
  {
    hide BootEnd, TablesFrom, Slots, HeapPlacement, Laid, Identity, PlacesDistinct;
    LargeNumbers();
    pager := new Pager(0x10_0000);
    var halted := pager.PagingInstall(0x20_0000);
    pager.HeapInstall();
    var address;
    halted, address := pager.Sbrk(0x4200_0000);
    WalkIsUnambiguous(pager);
    var j := SharedAddress(pager);
  }

  lemma LargeNumbers()
    ensures TablesFrom(0x10_0000, 0x8_0000) == 0x10_6000 && BootEnd(0x10_6000) == 0x10_7000
    ensures Slots(0x10_7000) == 1 && HeapPlacement(Slots(0x4210_7000) - 1) == 0x10_9000
  {}
}
