/** Whole runs of a client on the allocator, down to the bytes: what the client has stored
    in its blocks is what it finds there. */
module Clients {
  import opened KernelC
  import opened HeapModel
  import opened HeapRuns
  import opened HeapTheorems
  import opened Layout
  import opened LayoutSteps
  import opened Alloc

  // ---- ideal memory ------------------------------------------------------------------------

  /** A client's view: for each block it holds, the bytes it can rely on, by offset. */
  type Contents = map<int, map<int, int>>

  datatype Event = Request(call: Call) | Zeroed(nmemb: nat, size: nat) | Store(p: int, i: int, v: int)

  ghost predicate Permitted(h: Heap, e: Event)
  {
    match e
    case Request(call) => Allowed(h, call)
    case Zeroed(nmemb, size) => 0 <= nmemb * size && NoWrap(h, nmemb * size)
    case Store(p, i, v) => p in h.live && 0 <= i < h.live[p] && IsByte(v)
  }

  function Zeros(n: nat): (m: map<int, int>)
    ensures forall i :: i in m <==> 0 <= i < n
    ensures forall i :: i in m ==> m[i] == 0
  {
    if n == 0 then map[] else Zeros(n - 1)[n - 1 := 0]
  }

  /** What `realloc` must preserve: the first `n` bytes. */
  function FirstBytes(m: map<int, int>, n: nat): map<int, int> { map i | i in m && i < n :: m[i] }

  ghost function HeapAfter(h: Heap, e: Event): Heap
    requires Inv(h) && Permitted(h, e)
  {
    match e
    case Request(call) => Step(h, call)
    case Zeroed(nmemb, size) => HeapRuns.Malloc(h, nmemb * size).0
    case Store(_, _, _) => h
  }

  ghost function Carried(c: Contents, p: int, q: int, n: nat): Contents
    requires p in c
  {
    (c - {p})[q := FirstBytes(c[p], n)]
  }

  ghost function Granted(c: Contents, q: int, m: map<int, int>): Contents
  {
    if q == 0 then c else c[q := m]
  }

  /** The ideal effect of each event: only the block in question changes. */
  ghost function ContentsAfter(h: Heap, c: Contents, e: Event): Contents
    requires Inv(h) && Permitted(h, e) && c.Keys == h.live.Keys
  {
    match e
    case Request(CallMalloc(n)) => Granted(c, HeapRuns.Malloc(h, n).1, map[])
    case Request(CallFree(p)) => c - {p}
    case Request(CallRealloc(p, n)) =>
      if p == 0 then Granted(c, HeapRuns.Malloc(h, n).1, map[])
      else if n == 0 then c - {p}
      else Carried(c, p, HeapRuns.Realloc(h, p, n).1, n)
    case Zeroed(nmemb, size) => Granted(c, HeapRuns.Malloc(h, nmemb * size).1, Zeros(nmemb * size))
    case Store(p, i, v) => c[p := c[p][i := v]]
  }

  lemma AfterKeeps(h: Heap, c: Contents, e: Event)
    requires Inv(h) && Permitted(h, e) && c.Keys == h.live.Keys
    ensures Inv(HeapAfter(h, e)) && ContentsAfter(h, c, e).Keys == HeapAfter(h, e).live.Keys
  {
    hide Inv, NoWrap, HeapRuns.Malloc, HeapRuns.Free, HeapRuns.Realloc, CopyFits;
    match e
    case Request(CallMalloc(n)) => MallocKeeps(h, n);
    case Request(CallFree(p)) => FreeKeeps(h, p);
    case Request(CallRealloc(p, n)) =>
      ReallocKeeps(h, p, n);
      if p == 0 { ReallocNull(h, n); }
    case Zeroed(nmemb, size) => MallocKeeps(h, nmemb * size);
    case Store(_, _, _) =>
  }

  lemma ReallocNull(h: Heap, n: nat)
    requires Inv(h) && NoWrap(h, n)
    ensures HeapRuns.Realloc(h, 0, n) == HeapRuns.Malloc(h, n) && 0 !in h.live
    ensures n == 0 ==> HeapRuns.Malloc(h, n) == (h, 0)
    ensures n > 0 ==> HeapRuns.Malloc(h, n).1 != 0
  {
    MallocKeeps(h, n);
    NullNotLive(h);
  }

  ghost predicate Behaves(h: Heap, c: Contents, events: seq<Event>)
    requires Inv(h) && c.Keys == h.live.Keys
    decreases |events|
  {
    events == [] ||
    (Permitted(h, events[0])
     && (AfterKeeps(h, c, events[0]);
         Behaves(HeapAfter(h, events[0]), ContentsAfter(h, c, events[0]), events[1..])))
  }

  /** Heap and contents at the end of a run. */
  ghost function After(h: Heap, c: Contents, events: seq<Event>): (r: (Heap, Contents))
    requires Inv(h) && c.Keys == h.live.Keys && Behaves(h, c, events)
    ensures Inv(r.0) && r.1.Keys == r.0.live.Keys
    decreases |events|
  {
    if events == [] then (h, c)
    else
      AfterKeeps(h, c, events[0]);
      After(HeapAfter(h, events[0]), ContentsAfter(h, c, events[0]), events[1..])
  }

  /** An event moves the break up by what it makes the allocator ask `sbrk` for. */
  lemma EndAfter(h: Heap, e: Event)
    requires Inv(h) && Permitted(h, e)
    ensures HeapAfter(h, e).end == h.end + Demand(h, e)
  {
    hide Inv, NoWrap, HeapRuns.Malloc, Growth, CopyFits, Moves;
    match e
    case Request(CallMalloc(n)) => MallocKeeps(h, n);
    case Request(CallFree(p)) => FreeKeeps(h, p);
    case Request(CallRealloc(p, n)) => ReallocEnd(h, p, n);
    case Zeroed(nmemb, size) => MallocKeeps(h, nmemb * size);
    case Store(_, _, _) =>
  }

  ghost function Demand(h: Heap, e: Event): nat
    requires Permitted(h, e)
  {
    match e
    case Request(CallMalloc(n)) => Growth(h, n)
    case Request(CallFree(_)) => 0
    case Request(CallRealloc(p, n)) => if p == 0 || Moves(h, p, n) then Growth(h, n) else 0
    case Zeroed(nmemb, size) => Growth(h, nmemb * size)
    case Store(_, _, _) => 0
  }

  lemma ReallocEnd(h: Heap, p: int, n: nat)
    requires Inv(h) && Allowed(h, CallRealloc(p, n))
    ensures HeapRuns.Realloc(h, p, n).0.end == h.end + (if p == 0 || Moves(h, p, n) then Growth(h, n) else 0)
  {
    hide Inv, HeapRuns.Malloc, HeapRuns.Free, Growth;
    if p == 0 || Moves(h, p, n) {
      MallocKeeps(h, n);
      if p != 0 { MoveKeeps(h, p, n); FreeKeeps(HeapRuns.Malloc(h, n).0, p); }
    } else {
      FreeKeeps(h, p);
    }
  }

  /** The break never moves down. */
  lemma {:induction false} EndGrows(h: Heap, c: Contents, events: seq<Event>)
    requires Inv(h) && c.Keys == h.live.Keys && Behaves(h, c, events)
    ensures h.end <= After(h, c, events).0.end
    decreases |events|
  {
    if events != [] {
      AfterKeeps(h, c, events[0]);
      EndAfter(h, events[0]);
      EndGrows(HeapAfter(h, events[0]), ContentsAfter(h, c, events[0]), events[1..]);
    }
  }

  /** Does the event free, move or store into the block at `p`? */
  predicate Touches(e: Event, p: int)
  {
    match e
    case Request(CallMalloc(_)) => false
    case Request(CallFree(q)) => q == p
    case Request(CallRealloc(q, _)) => q == p
    case Zeroed(_, _) => false
    case Store(q, _, _) => q == p
  }

  lemma UntouchedOnce(h: Heap, c: Contents, e: Event, p: int)
    requires Inv(h) && Permitted(h, e) && c.Keys == h.live.Keys && p in c && !Touches(e, p)
    ensures p in ContentsAfter(h, c, e) && ContentsAfter(h, c, e)[p] == c[p]
  {
    hide Inv, NoWrap, HeapRuns.Malloc, HeapRuns.Free, HeapRuns.Realloc, CopyFits, Moves;
    match e
    case Request(CallMalloc(n)) => MallocKeeps(h, n);
    case Request(CallFree(q)) =>
    case Request(CallRealloc(q, n)) => ReallocFresh(h, q, n, p);
    case Zeroed(nmemb, size) => MallocKeeps(h, nmemb * size);
    case Store(_, _, _) =>
  }

  lemma ReallocFresh(h: Heap, q: int, n: nat, p: int)
    requires Inv(h) && Allowed(h, CallRealloc(q, n)) && p in h.live && p != q
    ensures q == 0 ==> HeapRuns.Malloc(h, n).1 != p
    ensures q != 0 && n > 0 ==> HeapRuns.Realloc(h, q, n).1 != p
  {
    hide Inv, HeapRuns.Malloc, HeapRuns.Free;
    NullNotLive(h);
    if q == 0 || Moves(h, q, n) { MallocKeeps(h, n); }
  }

  /** Whatever else a client does, a block that it leaves alone keeps its contents. */
  lemma {:induction false} UntouchedKept(h: Heap, c: Contents, events: seq<Event>, p: int)
    requires Inv(h) && c.Keys == h.live.Keys && Behaves(h, c, events) && p in c
    requires forall e :: e in events ==> !Touches(e, p)
    ensures p in After(h, c, events).1 && After(h, c, events).1[p] == c[p]
    decreases |events|
  {
    if events != [] {
      var e := events[0];
      assert e in events;
      UntouchedOnce(h, c, e, p);
      AfterKeeps(h, c, e);
      UntouchedKept(HeapAfter(h, e), ContentsAfter(h, c, e), events[1..], p);
    }
  }

  // ---- what a run must not forget ------------------------------------------------------------

  /** The event neither frees nor moves the block at `p`, nor stores to byte `i` of it. */
  ghost predicate Leaves(e: Event, p: int, i: int)
  {
    && e != Request(CallFree(p))
    && (forall n: nat :: e != Request(CallRealloc(p, n)))
    && (forall v :: e != Store(p, i, v))
  }

  /** Byte `i` of the block at `p` is, after the event with result `r`, byte `i` of the block
      at `q`: it was left alone, or moved by `realloc` to a block that still includes it. */
  ghost predicate Carries(e: Event, r: int, p: int, q: int, i: int)
  {
    || (q == p && Leaves(e, p, i))
    || (q == r && exists n: nat :: i < n && e == Request(CallRealloc(p, n)))
  }

  /** The blocks that byte `i` is in, one after another, from after event `k` to the end. */
  ghost predicate Trail(events: seq<Event>, results: seq<int>, k: int, path: seq<int>, i: int)
    requires |results| == |events| && -1 <= k < |events|
  {
    && |path| == |events| - k
    && forall j :: k < j < |events| ==> Carries(events[j], results[j], path[j - k - 1], path[j - k], i)
  }

  predicate Reads(ram: Ram, a: int, v: int) { Written(ram, a) && ByteAt(ram, a) == v }

  /** Every byte stored, and every zero that `calloc` promised, is in memory at the end of the
      run, wherever it has got to, unless it was stored to again or let go. */
  ghost predicate Remembers(ram: Ram, events: seq<Event>, results: seq<int>)
    requires |results| == |events|
  {
    && (forall k, path, p, i, v {:trigger Trail(events, results, k, path, i), Store(p, i, v)} ::
          0 <= k < |events| && events[k] == Store(p, i, v) && Trail(events, results, k, path, i) && path[0] == p ==>
            Reads(ram, path[|path| - 1] + i, v))
    && (forall k, path, i, nmemb: nat, size: nat {:trigger Trail(events, results, k, path, i), Zeroed(nmemb, size)} ::
          0 <= k < |events| && events[k] == Zeroed(nmemb, size) && 0 <= i < nmemb * size
            && Trail(events, results, k, path, i) && path[0] == results[k] ==>
            Reads(ram, path[|path| - 1] + i, 0))
  }

  /** What was stored is read back, if nothing later has stored to that byte, or freed or
      moved its block. */
  lemma ReadAfterWrite(ram: Ram, events: seq<Event>, results: seq<int>, k: nat, p: int, i: int, v: int)
    requires |results| == |events| && Remembers(ram, events, results) && k < |events| && events[k] == Store(p, i, v)
    requires forall j :: k < j < |events| ==> Leaves(events[j], p, i)
    ensures Written(ram, p + i) && ByteAt(ram, p + i) == v
  {
    assert Trail(events, results, k, seq(|events| - k, _ => p), i);
  }

  /** ... and if its block has been moved by `realloc` in between, to one that still includes
      the byte, it is read back there. */
  lemma ReadAfterMove(ram: Ram, events: seq<Event>, results: seq<int>, k: nat, m: nat, p: int, i: int, v: int, n: nat)
    requires |results| == |events| && Remembers(ram, events, results) && k < m < |events|
    requires events[k] == Store(p, i, v) && events[m] == Request(CallRealloc(p, n)) && i < n
    requires forall j :: k < j < m ==> Leaves(events[j], p, i)
    requires forall j :: m < j < |events| ==> Leaves(events[j], results[m], i)
    ensures Written(ram, results[m] + i) && ByteAt(ram, results[m] + i) == v
  {
    var path := seq(|events| - k, j => if j < m - k then p else results[m]);
    assert Trail(events, results, k, path, i);
  }

  /** A byte of a block obtained with `calloc` is zero until something is stored there. */
  lemma ReadZero(ram: Ram, events: seq<Event>, results: seq<int>, k: nat, nmemb: nat, size: nat, i: int)
    requires |results| == |events| && Remembers(ram, events, results) && k < |events| && events[k] == Zeroed(nmemb, size)
    requires 0 <= i < nmemb * size && forall j :: k < j < |events| ==> Leaves(events[j], results[k], i)
    ensures Written(ram, results[k] + i) && ByteAt(ram, results[k] + i) == 0
  {
    assert Trail(events, results, k, seq(|events| - k, _ => results[k]), i);
  }

  /** The pointer that an event returns. */
  ghost function Answer(h: Heap, e: Event): int
    requires Inv(h) && Permitted(h, e)
  {
    match e
    case Request(CallMalloc(n)) => HeapRuns.Malloc(h, n).1
    case Request(CallFree(_)) => 0
    case Request(CallRealloc(p, n)) => HeapRuns.Realloc(h, p, n).1
    case Zeroed(nmemb, size) => HeapRuns.Malloc(h, nmemb * size).1
    case Store(_, _, _) => 0
  }

  ghost function Answers(h: Heap, c: Contents, events: seq<Event>): (r: seq<int>)
    requires Inv(h) && c.Keys == h.live.Keys && Behaves(h, c, events)
    ensures |r| == |events|
    decreases |events|
  {
    if events == [] then []
    else
      AfterKeeps(h, c, events[0]);
      [Answer(h, events[0])] + Answers(HeapAfter(h, events[0]), ContentsAfter(h, c, events[0]), events[1..])
  }

  /** Whoever asks for bytes is answered with a pointer that was not live, and is. */
  lemma AnswerServes(h: Heap, e: Event)
    requires Inv(h) && Permitted(h, e)
    ensures forall n: nat :: e == Request(CallMalloc(n)) && n > 0 ==>
      Answer(h, e) != 0 && Answer(h, e) !in h.live && HeapAfter(h, e).live == h.live[Answer(h, e) := n]
    ensures forall p, n: nat :: e == Request(CallRealloc(p, n)) && n > 0 ==>
      Answer(h, e) != 0 && HeapAfter(h, e).live == (h.live - {p})[Answer(h, e) := n]
    ensures forall nmemb: nat, size: nat :: e == Zeroed(nmemb, size) && nmemb * size > 0 ==>
      Answer(h, e) != 0 && Answer(h, e) !in h.live && HeapAfter(h, e).live == h.live[Answer(h, e) := nmemb * size]
  {
    hide Inv, NoWrap, HeapRuns.Malloc, HeapRuns.Free, CopyFits;
    NullNotLive(h);
    match e
    case Request(CallMalloc(n)) => MallocKeeps(h, n);
    case Request(CallFree(_)) =>
    case Request(CallRealloc(p, n)) =>
      ReallocKeeps(h, p, n);
      if p == 0 || Moves(h, p, n) { MallocKeeps(h, n); }
    case Zeroed(nmemb, size) => MallocKeeps(h, nmemb * size);
    case Store(_, _, _) =>
  }

  /** One event carries a byte of the ideal memory on. */
  lemma CarriedOnce(h: Heap, c: Contents, e: Event, p: int, q: int, i: int)
    requires Inv(h) && Permitted(h, e) && c.Keys == h.live.Keys && p in c && i in c[p] && i >= 0
    requires Carries(e, Answer(h, e), p, q, i)
    ensures q in ContentsAfter(h, c, e) && i in ContentsAfter(h, c, e)[q] && ContentsAfter(h, c, e)[q][i] == c[p][i]
  {
    hide Inv, NoWrap, HeapRuns.Malloc, HeapRuns.Free, HeapRuns.Realloc, CopyFits, Moves;
    NullNotLive(h);
    match e
    case Request(CallMalloc(n)) => MallocKeeps(h, n);
    case Request(CallFree(_)) =>
    case Request(CallRealloc(r, n)) => if r != p { ReallocFresh(h, r, n, p); }
    case Zeroed(nmemb, size) => MallocKeeps(h, nmemb * size);
    case Store(_, _, _) =>
  }

  /** Dropping the first event from a trail that starts before it, or later. */
  lemma TrailTail(events: seq<Event>, results: seq<int>, k: int, path: seq<int>, i: int)
    requires |results| == |events| > 0 && -1 <= k < |events| && Trail(events, results, k, path, i)
    ensures k == -1 ==> Trail(events[1..], results[1..], -1, path[1..], i) && Carries(events[0], results[0], path[0], path[1], i)
    ensures k >= 0 ==> Trail(events[1..], results[1..], k - 1, path, i)
  {
    hide Carries;
    var es, rs := events[1..], results[1..];
    if k == -1 {
      forall j | -1 < j < |es| ensures Carries(es[j], rs[j], path[1..][j], path[1..][j + 1], i) {
        assert Carries(events[j + 1], results[j + 1], path[j + 1], path[j + 2], i);
      }
    } else {
      forall j | k - 1 < j < |es| ensures Carries(es[j], rs[j], path[j - (k - 1) - 1], path[j - (k - 1)], i) {
        assert Carries(events[j + 1], results[j + 1], path[j + 1 - k - 1], path[j + 1 - k], i);
      }
    }
  }

  lemma {:induction false} CarriedAlong(h: Heap, c: Contents, events: seq<Event>, path: seq<int>, i: int)
    requires Inv(h) && c.Keys == h.live.Keys && Behaves(h, c, events)
    requires Trail(events, Answers(h, c, events), -1, path, i) && path[0] in c && i in c[path[0]] && i >= 0
    ensures var c', q := After(h, c, events).1, path[|path| - 1];
            q in c' && i in c'[q] && c'[q][i] == c[path[0]][i]
    decreases |events|
  {
    if events != [] {
      var e, results := events[0], Answers(h, c, events);
      CarriedOnce(h, c, e, path[0], path[1], i);
      AfterKeeps(h, c, e);
      TrailTail(events, results, -1, path, i);
      assert Answers(HeapAfter(h, e), ContentsAfter(h, c, e), events[1..]) == results[1..];
      CarriedAlong(HeapAfter(h, e), ContentsAfter(h, c, e), events[1..], path[1..], i);
    }
  }

  /** The byte that event `k` leaves at offset `i` of the block at `p`, if it leaves one. */
  ghost predicate Puts(e: Event, r: int, p: int, i: int, v: int)
  {
    e == Store(p, i, v) || (v == 0 && p == r && exists nmemb: nat, size: nat :: 0 <= i < nmemb * size && e == Zeroed(nmemb, size))
  }

  lemma {:induction false} PutAndCarried(h: Heap, c: Contents, events: seq<Event>, k: nat, path: seq<int>, i: int, v: int)
    requires Inv(h) && c.Keys == h.live.Keys && Behaves(h, c, events) && k < |events|
    requires var results := Answers(h, c, events);
             Trail(events, results, k, path, i) && Puts(events[k], results[k], path[0], i, v)
    ensures var c', q := After(h, c, events).1, path[|path| - 1]; q in c' && i in c'[q] && c'[q][i] == v
    decreases |events|
  {
    hide Inv, Carries, HeapAfter, ContentsAfter, Answer, Permitted;
    var e, results := events[0], Answers(h, c, events);
    AfterKeeps(h, c, e);
    TrailTail(events, results, k, path, i);
    assert Answers(HeapAfter(h, e), ContentsAfter(h, c, e), events[1..]) == results[1..];
    if k == 0 {
      PutOnce(h, c, e, path[0], i, v);
      CarriedAlong(HeapAfter(h, e), ContentsAfter(h, c, e), events[1..], path, i);
    } else {
      PutAndCarried(HeapAfter(h, e), ContentsAfter(h, c, e), events[1..], k - 1, path, i, v);
    }
  }

  lemma PutOnce(h: Heap, c: Contents, e: Event, p: int, i: int, v: int)
    requires Inv(h) && Permitted(h, e) && c.Keys == h.live.Keys && Puts(e, Answer(h, e), p, i, v)
    ensures i >= 0 && p in ContentsAfter(h, c, e) && i in ContentsAfter(h, c, e)[p] && ContentsAfter(h, c, e)[p][i] == v
  {
    hide Inv, NoWrap, HeapRuns.Malloc;
    AnswerServes(h, e);
  }

  // ---- real memory holds the ideal one -----------------------------------------------------

  ghost predicate BlockHolds(ram: Ram, p: int, n: int, m: map<int, int>)
  {
    forall i :: i in m ==> 0 <= i < n && Written(ram, p + i) && ByteAt(ram, p + i) == m[i]
  }

  ghost predicate Holds(ram: Ram, live: map<int, int>, c: Contents)
  {
    c.Keys == live.Keys && forall p :: p in c ==> BlockHolds(ram, p, live[p], c[p])
  }

  lemma HoldsSame(ram: Ram, ram': Ram, h: Heap, p: int, m: map<int, int>)
    requires Inv(h) && p in h.live && BlockHolds(ram, p, h.live[p], m)
    requires SameBlock(ram, ram', p, p + Room(h.bin, h.size, p))
    ensures BlockHolds(ram', p, h.live[p], m)
  {
    SlotAligned(h, p);
    InvIsSafe(h);
    hide Inv, SameBlock, Room, Written, ByteAt;
    forall i | i in m ensures 0 <= i < h.live[p] && Written(ram', p + i) && ByteAt(ram', p + i) == m[i] {
      BytesKept(ram, ram', p, p + Room(h.bin, h.size, p), p + i);
    }
  }

  /** Blocks that an operation was not asked about still hold what they held. */
  lemma OthersHold(ram: Ram, ram': Ram, h: Heap, c: Contents, q: int)
    requires Inv(h) && Holds(ram, h.live, c) && KeepsLive(ram, ram', h, q)
    ensures forall p :: p in c && p != q ==> BlockHolds(ram', p, h.live[p], c[p])
  {
    hide Inv, SameBlock, BlockHolds, Room;
    forall p | p in c && p != q ensures BlockHolds(ram', p, h.live[p], c[p]) {
      HoldsSame(ram, ram', h, p, c[p]);
    }
  }

  lemma MallocHolds(ram: Ram, ram': Ram, h: Heap, c: Contents, n: nat, m: map<int, int>)
    requires Inv(h) && NoWrap(h, n) && Holds(ram, h.live, c) && KeepsLive(ram, ram', h, 0)
    requires var q := HeapRuns.Malloc(h, n).1; q != 0 ==> BlockHolds(ram', q, n, m)
    ensures Holds(ram', HeapRuns.Malloc(h, n).0.live, Granted(c, HeapRuns.Malloc(h, n).1, m))
  {
    hide Inv, NoWrap, HeapRuns.Malloc, KeepsLive, BlockHolds;
    MallocKeeps(h, n);
    NullNotLive(h);
    OthersHold(ram, ram', h, c, 0);
  }

  lemma FreeHolds(ram: Ram, ram': Ram, h: Heap, c: Contents, p: int)
    requires Inv(h) && (p == 0 || p in h.live) && Holds(ram, h.live, c) && KeepsLive(ram, ram', h, p)
    ensures Holds(ram', HeapRuns.Free(h, p).live, c - {p})
  {
    hide Inv, HeapRuns.Free, KeepsLive, BlockHolds;
    FreeKeeps(h, p);
    OthersHold(ram, ram', h, c, p);
  }

  ghost predicate CopiedAll(ram: Ram, ram': Ram, q: int, p: int, room: int)
  {
    forall i :: 0 <= i < room ==> Copied(ram, ram', q, p, i)
  }

  lemma MoveHolds(ram: Ram, ram': Ram, h: Heap, c: Contents, p: int, n: nat, h': Heap, q: int)
    requires Inv(h) && p in h.live && n > 0 && (Moves(h, p, n) ==> NoWrap(h, n)) && (h', q) == HeapRuns.Realloc(h, p, n)
    requires Holds(ram, h.live, c) && KeepsLive(ram, ram', h, p)
    requires CopiedAll(ram, ram', q, p, Room(h.bin, h.size, p))
    ensures Holds(ram', h'.live, Carried(c, p, q, n))
  {
    hide Inv, NoWrap, HeapRuns.Realloc, KeepsLive, Room, CopyFits, Moves, BlockHolds, Copied;
    NullNotLive(h);
    ReallocKeeps(h, p, n);
    OthersHold(ram, ram', h, c, p);
    InvIsSafe(h);
    CopyHolds(ram, ram', q, p, c[p], h.live[p], Room(h.bin, h.size, p), n);
  }

  lemma CopyHolds(ram: Ram, ram': Ram, q: int, p: int, m: map<int, int>, held: int, room: int, n: nat)
    requires BlockHolds(ram, p, held, m) && held <= room
    requires CopiedAll(ram, ram', q, p, room)
    ensures BlockHolds(ram', q, n, FirstBytes(m, n))
  {
    hide Written, ByteAt;
    var m' := FirstBytes(m, n);
    forall i | i in m' ensures 0 <= i < n && Written(ram', q + i) && ByteAt(ram', q + i) == m'[i] {
      assert Copied(ram, ram', q, p, i);
    }
  }

  lemma StoreHolds(ram: Ram, ram': Ram, h: Heap, c: Contents, p: int, i: int, v: int)
    requires Inv(h) && p in h.live && 0 <= i < h.live[p] && Holds(ram, h.live, c)
    requires SameBytesOutside(ram, ram', p + i, p + i + 1) && Written(ram', p + i) && ByteAt(ram', p + i) == v
    requires forall q :: q in h.live && q != p ==> SameBlock(ram, ram', q, q + Room(h.bin, h.size, q))
    ensures Holds(ram', h.live, c[p := c[p][i := v]])
  {
    hide Inv, Room, Written, ByteAt;
    assert KeepsLive(ram, ram', h, p);
    OthersHold(ram, ram', h, c, p);
    var m := c[p][i := v];
    assert BlockHolds(ram, p, h.live[p], c[p]);
    forall j | j in m ensures 0 <= j < h.live[p] && Written(ram', p + j) && ByteAt(ram', p + j) == m[j] {}
    assert BlockHolds(ram', p, h.live[p], m);
  }

  /** Memory that holds the ideal contents at the end of a run remembers. */
  lemma RunRemembers(ram: Ram, h: Heap, c: Contents, events: seq<Event>)
    requires Inv(h) && c.Keys == h.live.Keys && Behaves(h, c, events)
    requires var (h', c') := After(h, c, events); Holds(ram, h'.live, c')
    ensures Remembers(ram, events, Answers(h, c, events))
  {
    hide Inv, Behaves, Carries;
    var results, c' := Answers(h, c, events), After(h, c, events).1;
    forall k, path, p, i, v | 0 <= k < |events| && events[k] == Store(p, i, v) && Trail(events, results, k, path, i) && path[0] == p
      ensures Reads(ram, path[|path| - 1] + i, v)
    {
      PutAndCarried(h, c, events, k, path, i, v);
      HeldByte(ram, h, c, events, path[|path| - 1], i, v);
    }
    forall k, path, i, nmemb: nat, size: nat | 0 <= k < |events| && events[k] == Zeroed(nmemb, size) && 0 <= i < nmemb * size
        && Trail(events, results, k, path, i) && path[0] == results[k]
      ensures Reads(ram, path[|path| - 1] + i, 0)
    {
      PutAndCarried(h, c, events, k, path, i, 0);
      HeldByte(ram, h, c, events, path[|path| - 1], i, 0);
    }
  }

  lemma HeldByte(ram: Ram, h: Heap, c: Contents, events: seq<Event>, q: int, i: int, v: int)
    requires Inv(h) && c.Keys == h.live.Keys && Behaves(h, c, events)
    requires var (h', c') := After(h, c, events); Holds(ram, h'.live, c') && q in c' && i in c'[q] && c'[q][i] == v
    ensures Reads(ram, q + i, v)
  {
    hide Inv, Behaves, After;
    var (h', c') := After(h, c, events);
    assert BlockHolds(ram, q, h'.live[q], c'[q]);
  }

  // ---- running ------------------------------------------------------------------------------

  /** Carry out one event on the real allocator.  The machine halts exactly when the event
      would move the break beyond the frames. */
  method Perform(a: Allocator, e: Event, ghost c: Contents) returns (halted: bool, result: int, ghost c': Contents)
    requires a.Valid() && Permitted(a.heap, e) && Holds(a.mem.ram, a.heap.live, c)
    modifies a, a.mem, a.binHead, a.pager.repr
    ensures fresh(a.pager.repr - old(a.pager.repr)) && a.pager.Capacity() == old(a.pager.Capacity())
    ensures halted <==> old(a.pager.Capacity() < HeapAfter(a.heap, e).end)
    ensures !halted ==> a.Valid() && Inv(old(a.heap)) && a.heap == HeapAfter(old(a.heap), e)
    ensures !halted ==> c' == ContentsAfter(old(a.heap), c, e) && Holds(a.mem.ram, a.heap.live, c')
    ensures !halted ==> result == Answer(old(a.heap), e)
    ensures !halted && e.Store? ==> Reads(a.mem.ram, e.p + e.i, e.v)
    ensures !halted && e.Zeroed? && result != 0 ==> Filled(a.mem.ram, result, result + e.nmemb * e.size, 0)
  {
    hide Inv, Repr, NoWrap, HeapRuns.Malloc, HeapRuns.Free, HeapRuns.Realloc, KeepsLive, BlockHolds, CopyFits, Moves, Growth, Copied, Filled;
    ghost var h, ram := a.heap, a.mem.ram;
    a.EndMapped();
    EndAfter(h, e);
    c' := ContentsAfter(h, c, e);
    halted, result := false, 0;
    match e
    case Request(CallMalloc(n)) =>
      halted, result := a.Malloc(n);
      if !halted { GrantEmpty(a.mem.ram, result, n); MallocHolds(ram, a.mem.ram, h, c, n, map[]); }
    case Request(CallFree(q)) =>
      a.Free(q);
      FreeHolds(ram, a.mem.ram, h, c, q);
    case Request(CallRealloc(q, n)) =>
      halted, result := a.Realloc(q, n);
      if !halted { ReallocHolds(ram, a.mem.ram, h, c, q, n); }
    case Zeroed(nmemb, size) =>
      halted, result := a.Calloc(nmemb, size);
      if !halted {
        if result != 0 { ZerosHold(a.mem.ram, result, nmemb * size); }
        MallocHolds(ram, a.mem.ram, h, c, nmemb * size, Zeros(nmemb * size));
      }
    case Store(q, i, v) =>
      Put(a, q, i, v, c);
  }

  /** A client's own store. */
  method Put(a: Allocator, p: int, i: int, v: int, ghost c: Contents)
    requires a.Valid() && p in a.heap.live && 0 <= i < a.heap.live[p] && IsByte(v)
    requires Holds(a.mem.ram, a.heap.live, c)
    modifies a.mem
    ensures a.Valid() && Holds(a.mem.ram, a.heap.live, c[p := c[p][i := v]])
    ensures Reads(a.mem.ram, p + i, v)
  {
    hide Inv, Repr, BlockHolds, Words, OnlyWithin, SameBytesOutside, Room, Written, ByteAt;
    ghost var h, ram := a.heap, a.mem.ram;
    ReprFacts(ram, a.binHead[..], a.level, a.newestBig, a.height, h);
    InvIsSafe(h);
    a.mem.StoreByte(p + i, v);
    WithinMore(ram, a.mem.ram, p + i, p + i + 1, p, p + Room(h.bin, h.size, p));
    LiveStore(ram, a.mem.ram, h, p, a.binHead[..], a.level, a.newestBig, a.height);
    StoreHolds(ram, a.mem.ram, h, c, p, i, v);
  }

  lemma ZerosHold(ram: Ram, p: int, n: nat)
    requires Filled(ram, p, p + n, 0)
    ensures BlockHolds(ram, p, n, Zeros(n))
  {
    forall i | i in Zeros(n) ensures 0 <= i < n && Written(ram, p + i) && ByteAt(ram, p + i) == 0 {
      assert p <= p + i < p + n;
    }
  }

  lemma ReallocHolds(ram: Ram, ram': Ram, h: Heap, c: Contents, p: int, n: nat)
    requires Inv(h) && Allowed(h, CallRealloc(p, n)) && Holds(ram, h.live, c) && KeepsLive(ram, ram', h, p)
    requires p != 0 && n > 0 ==>
      forall i :: 0 <= i < Room(h.bin, h.size, p) ==> Copied(ram, ram', HeapRuns.Realloc(h, p, n).1, p, i)
    ensures Holds(ram', HeapRuns.Realloc(h, p, n).0.live, ContentsAfter(h, c, Request(CallRealloc(p, n))))
  {
    hide Inv, NoWrap, HeapRuns.Malloc, HeapRuns.Free, KeepsLive, BlockHolds, CopyFits, Moves, Growth, Copied, Room;
    if p == 0 {
      ReallocNull(h, n);
      GrantEmpty(ram', HeapRuns.Malloc(h, n).1, n);
      MallocHolds(ram, ram', h, c, n, map[]);
    } else if n == 0 {
      FreeHolds(ram, ram', h, c, p);
    } else {
      hide HeapRuns.Realloc;
      var (h', q) := HeapRuns.Realloc(h, p, n);
      MoveHolds(ram, ram', h, c, p, n, h', q);
    }
  }

  /** Carry out a whole run.  The machine halts exactly when the run's heap outgrows the
      frames.  Otherwise the heap ends up as the model says, live blocks are safe, and memory
      holds every byte the client relies on: in the ideal contents, and as stored. */
  method Execute(a: Allocator, events: seq<Event>, ghost c: Contents)
    returns (halted: bool, results: seq<int>, ghost c': Contents)
    requires a.Valid() && Holds(a.mem.ram, a.heap.live, c) && Behaves(a.heap, c, events)
    modifies a, a.mem, a.binHead, a.pager.repr
    ensures fresh(a.pager.repr - old(a.pager.repr)) && a.pager.Capacity() == old(a.pager.Capacity())
    ensures halted <==> old(a.pager.Capacity() < After(a.heap, c, events).0.end)
    ensures !halted ==> a.Valid() && (a.heap, c') == old(After(a.heap, c, events))
    ensures !halted ==> Safe(a.heap) && Holds(a.mem.ram, a.heap.live, c')
    ensures !halted ==> |results| == |events| && results == old(Answers(a.heap, c, events))
    ensures !halted ==> Remembers(a.mem.ram, events, results)
    decreases |events|
  {
    ghost var h0 := a.heap;
    halted, results, c' := ExecuteEach(a, events, c);
    if !halted { RunRemembers(a.mem.ram, h0, c, events); }
  }

  /** The run, event by event. */
  method ExecuteEach(a: Allocator, events: seq<Event>, ghost c: Contents)
    returns (halted: bool, results: seq<int>, ghost c': Contents)
    requires a.Valid() && Holds(a.mem.ram, a.heap.live, c) && Behaves(a.heap, c, events)
    modifies a, a.mem, a.binHead, a.pager.repr
    ensures fresh(a.pager.repr - old(a.pager.repr)) && a.pager.Capacity() == old(a.pager.Capacity())
    ensures halted <==> old(a.pager.Capacity() < After(a.heap, c, events).0.end)
    ensures !halted ==> a.Valid() && (a.heap, c') == old(After(a.heap, c, events))
    ensures !halted ==> Safe(a.heap) && Holds(a.mem.ram, a.heap.live, c') && results == old(Answers(a.heap, c, events))
    decreases |events|
  {
    hide Inv, Repr, Answer, Holds, Permitted, HeapAfter, ContentsAfter, Safe;
    a.EndMapped();
    if events == [] {
      InvIsSafe(a.heap);
      return false, [], c;
    }
    ghost var h := a.heap;
    HoldsKeys(a.mem.ram, h.live, c);
    AfterKeeps(h, c, events[0]);
    EndGrows(HeapAfter(h, events[0]), ContentsAfter(h, c, events[0]), events[1..]);
    ghost var c1;
    var first;
    halted, first, c1 := Perform(a, events[0], c);
    if halted { return true, [], c1; }
    halted, results, c' := ExecuteEach(a, events[1..], c1);
    results := [first] + results;
  }

  lemma GrantEmpty(ram: Ram, p: int, n: int)
    ensures BlockHolds(ram, p, n, map[])
  {}

  lemma HoldsKeys(ram: Ram, live: map<int, int>, c: Contents)
    requires Holds(ram, live, c)
    ensures c.Keys == live.Keys
  {}

  /** Copying `room` bytes from `p` to `q` puts another byte where `r` begins. */
  ghost predicate InTheWay(c: Contents, p: int, r: int, q: int, room: int)
  {
    && 0 <= r - q < room && (q + room <= p || p + room <= q)
    && p in c && r in c && 0 in c[r] && r - q in c[p] && c[p][r - q] != c[r][0]
  }

  /** Lines 813 to 830 of `realloc` where the copy does not fit: a live block `r` that lies
      within the copied length of the new one loses what its owner stored there. */
  method CopyOverwrites(a: Allocator, p: int, n: int, room: int, ghost r: int, ghost c: Contents) returns (halted: bool, q: int)
    requires a.Valid() && p in a.heap.live && r in a.heap.live && n > 0 && NoWrap(a.heap, n)
    requires room == CopyLength(a.heap, p) && Holds(a.mem.ram, a.heap.live, c)
    requires InTheWay(c, p, r, HeapRuns.Malloc(a.heap, n).1, room)
    modifies a, a.mem, a.binHead, a.pager.repr
    ensures halted <==> 0 < old(Growth(a.heap, n)) && old(a.pager.Capacity() < a.heap.end + Growth(a.heap, n))
    ensures !halted ==> q == old(HeapRuns.Malloc(a.heap, n).1)
    ensures !halted ==> !BlockHolds(a.mem.ram, r, old(a.heap.live[r]), c[r])
  {
    hide Inv, Repr, NoWrap, HeapRuns.Malloc, Growth, Words, OnlyWithin, SameBytesOutside, Written, ByteAt, CopyLength;
    ghost var h, ram := a.heap, a.mem.ram;
    MallocKeeps(h, n);
    NullNotLive(h);
    halted, q := a.Malloc(n);
    if halted { return; }
    ghost var ram1 := a.mem.ram;
    HoldsSame(ram, ram1, h, p, c[p]);
    ReprFacts(ram1, a.binHead[..], a.level, a.newestBig, a.height, a.heap);
    a.mem.Memcpy(q, p, room);
    assert Copied(ram1, a.mem.ram, q, p, r - q);
  }
}
