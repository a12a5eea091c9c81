/** The processor's walk through `physical_tables`, against `get_page`. */
module PagingWalk {
  import opened Bits
  import opened Machine
  import opened PagingModel
  import opened Paging

  /** A directory word without its flags. */
  function Masked(w: nat): nat { BitAnd(w, 0xFFFF_F000) }

  /** Does table `t` lie at address `a`? */
  ghost predicate LiesAt(p: Pager, a: int, t: array<Entry>)
    requires p.Valid()
    reads p, p.repr
  {
    exists j :: 0 <= j < ENTRIES && p.tables[j] == t && p.place[j] == a
  }

  /** No two tables share an address. */
  ghost predicate PlacesDistinct(p: Pager)
    requires p.Valid()
    reads p, p.repr
  {
    forall i, j :: 0 <= i < j < ENTRIES && p.tables[i] != null && p.tables[j] != null ==> p.place[i] != p.place[j]
  }

  /** The directory word of any table holds the address of the table that `get_page` uses,
      and the flags present, writeable and user. */
  lemma DirectoryWalk(p: Pager, s: int)
    requires p.Valid() && 0 <= s < ENTRIES && p.tables[s] != null
    ensures p.physical[s] >= 0 && Masked(p.physical[s]) == p.place[s] && BitAnd(p.physical[s], 7) == 7
    ensures LiesAt(p, Masked(p.physical[s]), p.tables[s])
  {
    hide BitOr, BitAnd;
    assert p.tables[..][s] != null;
    DirectoryWord(p.place[s]);
  }

  /** For every mapped page the walk finds the page's own table, and there the frame of the
      same number. */
  lemma ProcessorWalk(p: Pager, n: int)
    requires p.HeapReady() && 0 <= n < p.heapEnd / PAGE_SIZE
    ensures var s, k := n / ENTRIES, n % ENTRIES;
            && 0 <= s < ENTRIES && p.tables[s] != null
            && p.physical[s] >= 0 && BitAnd(p.physical[s], 1) == 1
            && Masked(p.physical[s]) == p.place[s] == TableAddress(p.base, p.early, s)
            && LiesAt(p, Masked(p.physical[s]), p.tables[s])
            && p.tables[s][k].present == 1 && p.tables[s][k].rw == 0 && p.tables[s][k].user == 1
            && p.tables[s][k].frame == n
  {
    hide BitOr, BitAnd;
    var s := n / ENTRIES;
    MappedSlot(p.heapEnd, n);
    assert p.tables[..][s] != null;
    DirectoryWalk(p, s);
    PresentFlag(p.place[s]);
    assert p.flat[n].frame == n;
  }

  lemma MappedSlot(end: int, n: int)
    requires 0 <= end < ADDRESS_SPACE && 0 <= n < end / PAGE_SIZE
    ensures 0 <= n / ENTRIES < Slots(end)
  {}

  lemma PresentFlag(p: int)
    requires 0 <= p && p % PAGE_SIZE == 0
    ensures BitAnd(BitOr(p, 7), 1) == 1
  {
    var e := AlignedParts(p);
    LowThree(e);
    assert Pow2(1) == 2;
    AndLowMask(p + 7, 1);
  }

  /** ... and no other table, exactly as long as the tables made by `sbrk` have not reached
      the first of those made while paging was installed. */
  lemma WalkIsUnambiguous(p: Pager)
    requires p.HeapReady()
    ensures PlacesDistinct(p) <==> p.placement <= p.base
    ensures p.placement == HeapPlacement(Slots(p.heapEnd) - p.early)
  {
    if p.placement <= p.base {
      forall i, j | 0 <= i < j < ENTRIES && p.tables[i] != null && p.tables[j] != null ensures p.place[i] != p.place[j] {
        assert p.tables[..][i] != null && p.tables[..][j] != null;
        AddressesDiffer(p.base, p.early, Slots(p.heapEnd), i, j);
      }
    } else {
      var j := SharedAddress(p);
    }
  }

  /** Then the address in a directory word determines the table. */
  lemma OneTablePerAddress(p: Pager, s: int, t: array<Entry>)
    requires p.HeapReady() && PlacesDistinct(p) && 0 <= s < ENTRIES && p.tables[s] != null
    ensures p.physical[s] >= 0 && (LiesAt(p, Masked(p.physical[s]), t) <==> t == p.tables[s])
  {
    DirectoryWalk(p, s);
  }

  lemma AddressesDiffer(base: int, early: int, c: int, i: int, j: int)
    requires 0 <= i < j < c && HeapPlacement(c - early) <= base
    ensures TableAddress(base, early, i) != TableAddress(base, early, j)
  {}

  /** Beyond that, the first table of all shares its address with a later one. */
  lemma SharedAddress(p: Pager) returns (j: int)
    requires p.HeapReady() && p.placement > p.base
    ensures j == p.early + p.base / PAGE_SIZE - 1
    ensures 0 < j < ENTRIES && p.tables[0] != null && p.tables[j] != null && p.place[0] == p.place[j] && p.tables[0] != p.tables[j]
    ensures p.place[0] == p.base && !PlacesDistinct(p)
  {
    j := p.early + p.base / PAGE_SIZE - 1;
    assert p.base == PAGE_SIZE * (p.base / PAGE_SIZE);
    assert p.tables[..][0] != null && p.tables[..][j] != null;
  }
}
