/** `core/kernel.c`: the copy and fill loops, over word-addressed memory and over the
    screen's buffer of 16-bit cells. */
module KernelC {

  /** Memory is a map from 4-byte aligned addresses to 32-bit little-endian words.  Its
      domain is the set of words written so far, so every word load carries a proof that
      the word has been initialised. */
  type Ram = map<int, int>

  /** Byte `j` of word `w`, least significant first. */
  function ByteOf(w: int, j: int): int
  {
    if j == 0 then w % 0x100
    else if j == 1 then (w / 0x100) % 0x100
    else if j == 2 then (w / 0x1_0000) % 0x100
    else (w / 0x100_0000) % 0x100
  }

  /** A word is determined by its four bytes. */
  function FromBytes(a: int, b: int, c: int, d: int): int
  {
    a + 0x100 * b + 0x1_0000 * c + 0x100_0000 * d
  }

  /** Little-endian: the byte at the lowest address is the least significant. */
  lemma LittleEndian(w: int)
    requires 0 <= w < 0x1_0000_0000
    ensures w == ByteOf(w, 0) + 0x100 * ByteOf(w, 1) + 0x1_0000 * ByteOf(w, 2) + 0x100_0000 * ByteOf(w, 3)
    ensures forall j :: 0 <= j < 4 ==> 0 <= ByteOf(w, j) < 0x100
  {
    assert w / 0x1_0000 == w / 0x100 / 0x100;
    assert w / 0x100_0000 == w / 0x1_0000 / 0x100;
  }

  predicate IsByte(v: int) { 0 <= v < 0x100 }

  lemma BytesOf(a: int, b: int, c: int, d: int)
    requires IsByte(a) && IsByte(b) && IsByte(c) && IsByte(d)
    ensures 0 <= FromBytes(a, b, c, d) < 0x1_0000_0000
    ensures ByteOf(FromBytes(a, b, c, d), 0) == a && ByteOf(FromBytes(a, b, c, d), 1) == b
    ensures ByteOf(FromBytes(a, b, c, d), 2) == c && ByteOf(FromBytes(a, b, c, d), 3) == d
  {
    var w := FromBytes(a, b, c, d);
    assert w / 0x100 == b + 0x100 * c + 0x1_0000 * d;
    assert w / 0x1_0000 == c + 0x100 * d;
    assert w / 0x100_0000 == d;
  }

  /** Replacing one byte of a word leaves the other three alone. */
  method PutByte(w: int, j: int, v: int) returns (r: int)
    requires 0 <= j < 4 && IsByte(v)
    ensures 0 <= r < 0x1_0000_0000
    ensures forall k :: 0 <= k < 4 ==> ByteOf(r, k) == if k == j then v else ByteOf(w, k)
  {
    var a, b, c, d := ByteOf(w, 0), ByteOf(w, 1), ByteOf(w, 2), ByteOf(w, 3);
    if j == 0 { a := v; } else if j == 1 { b := v; } else if j == 2 { c := v; } else { d := v; }
    BytesOf(a, b, c, d);
    r := FromBytes(a, b, c, d);
  }

  /** The word that holds the byte at address `a`. */
  function WordOf(a: int): int { a - a % 4 }

  predicate Written(ram: Ram, a: int) { WordOf(a) in ram }

  function ByteAt(ram: Ram, a: int): int
    requires Written(ram, a)
  {
    ByteOf(ram[WordOf(a)], a % 4)
  }

  ghost predicate Words(ram: Ram)
  {
    forall a :: a in ram ==> a % 4 == 0 && 0 <= ram[a] < 0x1_0000_0000
  }

  /** Every word outside those that overlap bytes [lo, hi) is the same in both memories,
      or unwritten in both. */
  ghost predicate OnlyWithin(before: Ram, after: Ram, lo: int, hi: int)
  {
    forall a {:trigger a in after} {:trigger after[a]} ::
      a + 4 <= lo || hi <= a ==>
        (a in after <==> a in before) && (a in before ==> after[a] == before[a])
  }

  /** No written byte outside [lo, hi) has changed. */
  ghost predicate SameBytesOutside(before: Ram, after: Ram, lo: int, hi: int)
  {
    forall b {:trigger Written(after, b)} {:trigger ByteAt(after, b)} ::
      (b < lo || hi <= b) && Written(before, b) ==>
        Written(after, b) && ByteAt(after, b) == ByteAt(before, b)
  }

  /** Every byte of [lo, hi) has been written and is `v`. */
  ghost predicate Filled(ram: Ram, lo: int, hi: int, v: int)
  {
    forall b {:trigger Written(ram, b)} :: lo <= b < hi ==> Written(ram, b) && ByteAt(ram, b) == v
  }

  /** Byte `i` of the range at `dest` now holds what byte `i` of the range at `src` held. */
  ghost predicate Copied(before: Ram, after: Ram, dest: int, src: int, i: int)
  {
    Written(before, src + i) ==>
      Written(after, dest + i) && ByteAt(after, dest + i) == ByteAt(before, src + i)
  }

  /** Replacing the word at `a` by one that differs in that byte only changes no other
      byte. */
  lemma StoredWord(ram: Ram, a: int, nw: int)
    requires Words(ram) && 0 <= nw < 0x1_0000_0000
    requires Written(ram, a) ==>
      forall k :: 0 <= k < 4 && k != a % 4 ==> ByteOf(nw, k) == ByteOf(ram[WordOf(a)], k)
    ensures Words(ram[WordOf(a) := nw]) && OnlyWithin(ram, ram[WordOf(a) := nw], a, a + 1)
    ensures SameBytesOutside(ram, ram[WordOf(a) := nw], a, a + 1)
  {
    var after := ram[WordOf(a) := nw];
    forall b | b != a && Written(ram, b)
      ensures Written(after, b) && ByteAt(after, b) == ByteAt(ram, b)
    {
      if WordOf(b) == WordOf(a) {
        var k := b % 4;
        assert k != a % 4;
        assert ByteOf(nw, k) == ByteOf(ram[WordOf(a)], k);
      }
    }
  }

  class Memory {
    var ram: Ram

    constructor (initial: Ram)
      ensures ram == initial
    {
      ram := initial;
    }

    /** A byte store.  The other bytes of a word never written before get some value. */
    method StoreByte(a: int, v: int)
      requires Words(ram) && IsByte(v)
      modifies this
      ensures Words(ram) && OnlyWithin(old(ram), ram, a, a + 1)
      ensures SameBytesOutside(old(ram), ram, a, a + 1)
      ensures Written(ram, a) && ByteAt(ram, a) == v
    {
      var w: int;
      if WordOf(a) in ram {
        w := ram[WordOf(a)];
      } else {
        w :| 0 <= w < 0x1_0000_0000;
      }
      var nw := PutByte(w, a % 4, v);
      StoredWord(ram, a, nw);
      ram := ram[WordOf(a) := nw];
    }

    /** Fill `count` bytes from `dest`. */
    method Memset(dest: int, val: int, count: int)
      requires Words(ram)
      modifies this
      ensures Words(ram) && OnlyWithin(old(ram), ram, dest, dest + count)
      ensures SameBytesOutside(old(ram), ram, dest, dest + count)
      ensures Filled(ram, dest, dest + count, val % 0x100)
    {
      var i := 0;
      while i < count
        invariant 0 <= i && (i <= count || i == 0)
        invariant Words(ram) && OnlyWithin(old(ram), ram, dest, dest + count)
        invariant SameBytesOutside(old(ram), ram, dest, dest + count)
        invariant Filled(ram, dest, dest + i, val % 0x100)
      {
        StoreByte(dest + i, val % 0x100);
        i := i + 1;
      }
    }

    /** Copy `count` bytes between disjoint ranges.  A byte of a word never written copies
        as some byte. */
    method Memcpy(dest: int, src: int, count: int)
      requires Words(ram)
      requires dest + count <= src || src + count <= dest
      modifies this
      ensures Words(ram) && OnlyWithin(old(ram), ram, dest, dest + count)
      ensures SameBytesOutside(old(ram), ram, dest, dest + count)
      ensures forall i :: 0 <= i < count ==> Copied(old(ram), ram, dest, src, i)
    {
      var i := 0;
      while i < count
        invariant 0 <= i && (i <= count || i == 0)
        invariant Words(ram) && OnlyWithin(old(ram), ram, dest, dest + count)
        invariant SameBytesOutside(old(ram), ram, dest, dest + count)
        invariant forall k :: 0 <= k < i ==> Copied(old(ram), ram, dest, src, k)
      {
        var v: int;
        if Written(ram, src + i) {
          v := ByteAt(ram, src + i);
        } else {
          v :| 0 <= v < 0x100;
        }
        ghost var before := ram;
        StoreByte(dest + i, v);
        assert Copied(old(ram), ram, dest, src, i);
        forall k | 0 <= k < i ensures Copied(old(ram), ram, dest, src, k) {
          assert Copied(old(ram), before, dest, src, k);
        }
        i := i + 1;
      }
    }
  }

  // ---- cells of the screen -----------------------------------------------------------

  /** What copying `count` cells forwards, one at a time, makes of a buffer. */
  function ForwardCopy(s: seq<int>, dest: nat, src: nat, count: nat): (r: seq<int>)
    requires dest + count <= |s| && src + count <= |s|
    ensures |r| == |s|
    decreases count
  {
    if count == 0 then s
    else
      var t := ForwardCopy(s, dest, src, count - 1);
      t[dest + count - 1 := t[src + count - 1]]
  }

  method Memcpyw(buf: array<int>, dest: nat, src: nat, count: nat)
    requires dest + count <= buf.Length && src + count <= buf.Length
    modifies buf
    ensures buf[..] == ForwardCopy(old(buf[..]), dest, src, count)
  {
    for i := 0 to count
      invariant buf[..] == ForwardCopy(old(buf[..]), dest, src, i)
    {
      buf[dest + i] := buf[src + i];
    }
  }

  /** The buffer with the `count` cells at `dest` replaced by the original cells at `src`. */
  function Moved(s: seq<int>, dest: nat, src: nat, count: nat): seq<int>
    requires dest + count <= |s| && src + count <= |s|
  {
    s[..dest] + s[src..src + count] + s[dest + count..]
  }

  /** Overlap is harmless as long as the destination does not start inside the source. */
  lemma {:induction false} ForwardCopyMoves(s: seq<int>, dest: nat, src: nat, count: nat)
    requires dest + count <= |s| && src + count <= |s|
    requires dest <= src || src + count <= dest
    ensures ForwardCopy(s, dest, src, count) == Moved(s, dest, src, count)
  {
    if count > 0 {
      ForwardCopyMoves(s, dest, src, count - 1);
      MovedMore(s, dest, src, count);
    } else {
      assert s == s[..dest] + s[dest..];
    }
  }

  lemma MovedMore(s: seq<int>, dest: nat, src: nat, count: nat)
    requires 0 < count && dest + count <= |s| && src + count <= |s|
    requires dest <= src || src + count <= dest
    ensures var t := Moved(s, dest, src, count - 1);
            |t| == |s| && t[dest + count - 1 := t[src + count - 1]] == Moved(s, dest, src, count)
  {
    var t, u := Moved(s, dest, src, count - 1), Moved(s, dest, src, count);
    assert t[src + count - 1] == s[src + count - 1];
    forall k | 0 <= k < |s|
      ensures t[dest + count - 1 := t[src + count - 1]][k] == u[k]
    {}
  }

  /** ... and only then: otherwise some contents come out wrong. */
  lemma OverlapReplicates(dest: nat, src: nat, count: nat) returns (s: seq<int>)
    requires src < dest < src + count
    ensures |s| == dest + count && ForwardCopy(s, dest, src, count) != Moved(s, dest, src, count)
  {
    s := seq(dest + count, i => i);
    var d := dest - src;
    ReplicaAt(s, dest, src, count);
    assert Moved(s, dest, src, count)[dest + d] == s[src + d];
  }

  lemma {:induction false} ReplicaAt(s: seq<int>, dest: nat, src: nat, count: nat)
    requires dest + count <= |s| && src + count <= |s| && src < dest
    ensures 0 < count ==> ForwardCopy(s, dest, src, count)[dest] == s[src]
    ensures 0 < count ==> ForwardCopy(s, dest, src, count)[src] == s[src]
    ensures dest - src < count ==> ForwardCopy(s, dest, src, count)[2 * dest - src] == s[src]
    ensures forall i :: dest + count <= i < |s| ==> ForwardCopy(s, dest, src, count)[i] == s[i]
  {
    if count > 0 {
      ReplicaAt(s, dest, src, count - 1);
    }
  }

  method Memsetw(buf: array<int>, dest: nat, val: int, count: nat)
    requires dest + count <= buf.Length
    modifies buf
    ensures buf[..] == old(buf[..dest]) + seq(count, _ => val % 0x1_0000) + old(buf[dest + count..])
  {
    for i := 0 to count
      invariant buf[..] == old(buf[..dest]) + seq(i, _ => val % 0x1_0000) + old(buf[dest + i..])
    {
      buf[dest + i] := val % 0x1_0000;
    }
  }

  /** Length of the C string at the front of a buffer that holds a terminator. */
  method Strlen(str: array<int>) returns (len: nat)
    requires exists i :: 0 <= i < str.Length && str[i] == 0
    ensures len < str.Length && str[len] == 0
    ensures forall i :: 0 <= i < len ==> str[i] != 0
  {
    len := 0;
    while str[len] != 0
      invariant len < str.Length
      invariant forall i :: 0 <= i < len ==> str[i] != 0
      decreases str.Length - len
    {
      len := len + 1;
    }
  }
}
