/** How the abstract heap lies in memory, and which words each allocator step may write. */
module Layout {
  import opened KernelC
  import opened Machine
  import opened HeapModel
  import opened HeapSteps
  import opened HeapTheorems
  import opened SkipList

  const HEAD := 4        // offset of a header's head word
  const PREV := 12       // offset of a big header's prev word

  // ---- lists threaded through memory -------------------------------------------------------

  ghost predicate Link(ram: Ram, s: seq<int>, k: int)
    requires 0 <= k < |s|
  {
    s[k] in ram && ram[s[k]] == At(s, k + 1)
  }

  /** Each element's first word points at the next; the last one's is NULL. */
  ghost predicate Chain(ram: Ram, s: seq<int>)
  {
    forall k :: 0 <= k < |s| ==> Link(ram, s, k)
  }

  lemma ChainFrame(ram: Ram, ram': Ram, s: seq<int>)
    requires Chain(ram, s)
    requires forall x :: x in s && x in ram ==> x in ram' && ram'[x] == ram[x]
    ensures Chain(ram', s)
  {
    forall k | 0 <= k < |s| ensures Link(ram', s, k) {
      assert Link(ram, s, k);
      var x := s[k];
      assert x in s;
    }
  }

  lemma ChainTail(ram: Ram, s: seq<int>)
    requires Chain(ram, s) && s != []
    ensures s[0] in ram && ram[s[0]] == At(s[1..], 0) && Chain(ram, s[1..])
  {
    assert Link(ram, s, 0);
    forall k | 0 <= k < |s[1..]| ensures Link(ram, s[1..], k) {
      assert Link(ram, s, k + 1);
    }
  }

  lemma ChainCons(ram: Ram, x: int, s: seq<int>)
    requires Chain(ram, s) && x in ram && ram[x] == At(s, 0)
    ensures Chain(ram, [x] + s)
  {
    forall k | 0 <= k < |s| + 1 ensures Link(ram, [x] + s, k) {
      if k > 0 { assert Link(ram, s, k - 1); }
    }
  }

  // ---- the representation ------------------------------------------------------------------

  ghost predicate PageAt(ram: Ram, p: int, b: int, stack: seq<int>)
  {
    && p + HEAD in ram && ram[p + HEAD] == At(stack, 0)
    && p + SIZE in ram && ram[p + SIZE] == b
    && Chain(ram, stack)
  }

  ghost predicate BlockAt(ram: Ram, x: int, size: int, isFree: bool)
  {
    && x + SIZE in ram && ram[x + SIZE] == size
    && x + HEAD in ram && ram[x + HEAD] == (if isFree then x + BIG_HEADER else 0)
    && (isFree ==> x + BIG_HEADER in ram && ram[x + BIG_HEADER] == 0)
  }

  ghost predicate PagesIn(ram: Ram, h: Heap)
  {
    forall p :: p in h.bin ==> p in h.cells && PageAt(ram, p, h.bin[p], h.cells[p])
  }

  ghost predicate ListsIn(ram: Ram, binHead: seq<int>, h: Heap)
  {
    && |binHead| == |h.pages| == BIG_BIN
    && (forall b :: 0 <= b < BIG_BIN ==> binHead[b] == At(h.pages[b], 0))
    && (forall b :: 0 <= b < BIG_BIN ==> Chain(ram, h.pages[b]))
  }

  ghost predicate BlocksIn(ram: Ram, h: Heap)
  {
    forall x {:trigger BlockIn(ram, h.size, h.free, x)} :: x in h.size ==> BlockIn(ram, h.size, h.free, x)
  }

  ghost predicate BlockIn(ram: Ram, size: map<int, int>, free: seq<int>, x: int)
    requires x in size
  {
    BlockAt(ram, x, size[x], x in free)
  }

  /** `next` runs up from the oldest big block, `prev` down from the newest. */
  ghost predicate ChainIn(ram: Ram, newestBig: int, bigs: seq<int>)
  {
    && newestBig == At(bigs, |bigs| - 1)
    && Chain(ram, bigs)
    && (forall k :: 0 <= k < |bigs| ==> PrevLink(ram, bigs, k))
  }

  ghost predicate PrevLink(ram: Ram, bigs: seq<int>, k: int)
    requires 0 <= k < |bigs|
  {
    bigs[k] + PREV in ram && ram[bigs[k] + PREV] == At(bigs, k - 1)
  }

  ghost predicate Bounded(ram: Ram, end: int)
  {
    Words(ram) && forall a :: a in ram ==> 0 <= a < end
  }

  lemma BoundedStore(ram: Ram, end: int, a: int, v: int)
    requires Bounded(ram, end) && 0 <= a < end && a % 4 == 0 && 0 <= v < ADDRESS_SPACE
    ensures Bounded(ram[a := v], end)
  {}

  /** The words of memory and the allocator's variables represent the abstract heap. */
  ghost predicate Repr(ram: Ram, binHead: seq<int>, level: int, newestBig: int, height: map<int, int>, h: Heap)
  {
    && PagesIn(ram, h)
    && ListsIn(ram, binHead, h)
    && BlocksIn(ram, h)
    && ChainIn(ram, newestBig, h.bigs)
    && SkipOk(ram, h.root, level, h.free, height, h.size)
    && Bounded(ram, h.end)
  }

  // ---- what steps may write ------------------------------------------------------------------

  /** Words that belong to the allocator whatever is live: the list head, headers, and
      everything not yet obtained from `sbrk`. */
  ghost predicate Meta(h: Heap, a: int)
  {
    || a < h.start || a >= h.end
    || (exists t :: t in h.tiles && t <= a < t + HeaderLength(h, t))
  }

  /** Only the allocator's own words, and the word at `p`, have changed. */
  ghost predicate OnlyMeta(before: Ram, after: Ram, h: Heap, p: int)
  {
    forall a {:trigger a in after} {:trigger after[a]} :: !Meta(h, a) && a != p ==>
      (a in after <==> a in before) && (a in before ==> after[a] == before[a])
  }

  /** The words of the block at `q` are what they were. */
  ghost predicate SameBlock(before: Ram, after: Ram, lo: int, hi: int)
  {
    forall a {:trigger a in after} {:trigger after[a]} :: lo <= a < hi ==>
      (a in after <==> a in before) && (a in before ==> after[a] == before[a])
  }

  /** Only words at addresses from `lo` to below `hi` have changed. */
  ghost predicate OnlyInside(before: Ram, after: Ram, lo: int, hi: int)
  {
    forall a {:trigger a in after} {:trigger after[a]} :: a < lo || hi <= a ==>
      (a in after <==> a in before) && (a in before ==> after[a] == before[a])
  }

  /** Every block live in `h`, except the one at `p`, has kept its contents. */
  ghost predicate KeepsLive(before: Ram, after: Ram, h: Heap, p: int)
  {
    forall q :: q in h.live && q != p ==> SameBlock(before, after, q, q + Room(h.bin, h.size, q))
  }

  lemma LiveNotMeta(h: Heap, q: int, a: int)
    requires Inv(h) && Slot(h.bin, h.size, q) && q <= a < q + Room(h.bin, h.size, q)
    ensures !Meta(h, a)
  {
    TilesApart(h);
    SlotClearOfHeader(h, q, Page(q));
    forall t | t in h.tiles ensures !(t <= a < t + HeaderLength(h, t)) {
      SlotClearOfHeader(h, q, t);
    }
  }

  lemma OnlyMetaKeepsLive(before: Ram, after: Ram, h: Heap, p: int)
    requires Inv(h) && OnlyMeta(before, after, h, p) && (p == 0 || Slot(h.bin, h.size, p))
    ensures KeepsLive(before, after, h, p)
  {
    InvIsSafe(h);
    TilesApart(h);
    forall q | q in h.live && q != p ensures SameBlock(before, after, q, q + Room(h.bin, h.size, q)) {
      forall a | q <= a < q + Room(h.bin, h.size, q) ensures !Meta(h, a) && a != p {
        LiveNotMeta(h, q, a);
        SlotPage(h, q);
        if p != 0 { SlotsApart(h, p, q); SlotPage(h, p); }
      }
    }
  }
}
