/** The skip list of free big blocks as it lies in memory: one linked list per level, each
    running through the blocks whose height reaches that level. */
module SkipList {
  import opened KernelC
  import opened Machine
  import opened HeapModel
  import opened HeapSteps

  const SKIP_MAX_LEVEL := 6
  const SIZE := 8        // offset of a header's size word
  const FORWARD := 16    // offset of a big header's forward array

  /** Address of `node->forward[i]`. */
  function Forward(node: int, i: int): int { node + FORWARD + 4 * i }

  function HeightOf(height: map<int, int>, x: int): int { if x in height then height[x] else -1 }

  /** The blocks that appear on level `i`, in list order. */
  function Level(s: seq<int>, height: map<int, int>, i: int): seq<int>
  {
    if s == [] then []
    else (if HeightOf(height, s[0]) >= i then [s[0]] else []) + Level(s[1..], height, i)
  }

  /** The level-i list hangs off the head node and ends in NULL. */
  ghost predicate Linked(ram: Ram, root: int, i: int, list: seq<int>)
  {
    forall k {:trigger ([root] + list)[k]} :: 0 <= k <= |list| ==>
      Forward(([root] + list)[k], i) in ram && ram[Forward(([root] + list)[k], i)] == At(list, k)
  }

  /** Headers do not overlap. */
  ghost predicate Separate(nodes: seq<int>)
  {
    && Distinct(nodes)
    && (forall x, y :: x in nodes && y in nodes && x != y ==> x + BIG_HEADER <= y || y + BIG_HEADER <= x)
  }

  ghost predicate Block(ram: Ram, size: map<int, int>, x: int)
  {
    && x > 0 && x % PAGE_SIZE == 0
    && x in size && size[x] > 0 && (size[x] + BIG_HEADER) % PAGE_SIZE == 0
    && x + SIZE in ram && ram[x + SIZE] == size[x]
  }

  ghost predicate SkipOk(ram: Ram, root: int, level: int, free: seq<int>, height: map<int, int>, size: map<int, int>)
  {
    && 0 <= level <= SKIP_MAX_LEVEL
    && Separate([root] + free)
    && Sorted(free, size)
    && (forall x :: x in free ==> Block(ram, size, x))
    && (forall x :: x in free ==> 0 <= HeightOf(height, x) <= level)
    && (level > 0 ==> Level(free, height, level) != [])
    && (forall i :: 0 <= i <= SKIP_MAX_LEVEL ==> Linked(ram, root, i, Level(free, height, i)))
  }

  // ---- levels ------------------------------------------------------------------------------

  lemma {:induction false} LevelConcat(s: seq<int>, t: seq<int>, height: map<int, int>, i: int)
    ensures Level(s + t, height, i) == Level(s, height, i) + Level(t, height, i)
  {
    if s == [] {
      assert s + t == t;
    } else {
      assert (s + t)[1..] == s[1..] + t;
      LevelConcat(s[1..], t, height, i);
    }
  }

  /** Level i holds exactly the blocks whose height is at least i. */
  lemma {:induction false} LevelMember(s: seq<int>, height: map<int, int>, i: int, x: int)
    ensures x in Level(s, height, i) <==> x in s && HeightOf(height, x) >= i
  {
    if s != [] {
      LevelMember(s[1..], height, i, x);
      assert s == [s[0]] + s[1..];
    }
  }

  lemma {:induction false} LevelFrame(s: seq<int>, height: map<int, int>, height': map<int, int>, i: int)
    requires forall x :: x in s ==> HeightOf(height, x) == HeightOf(height', x)
    ensures Level(s, height, i) == Level(s, height', i)
  {
    if s != [] {
      assert s[0] in s;
      LevelFrame(s[1..], height, height', i);
    }
  }

  /** Every block is on level 0. */
  lemma {:induction false} LevelZero(s: seq<int>, height: map<int, int>)
    requires forall x :: x in s ==> HeightOf(height, x) >= 0
    ensures Level(s, height, 0) == s
  {
    if s != [] {
      assert s[0] in s;
      LevelZero(s[1..], height);
      assert s == [s[0]] + s[1..];
    }
  }

  /** Level i + 1 is what level i keeps at one height more: a subsequence of it. */
  lemma {:induction false} LevelNested(s: seq<int>, height: map<int, int>, i: int)
    ensures Level(Level(s, height, i), height, i + 1) == Level(s, height, i + 1)
  {
    if s != [] {
      var one := if HeightOf(height, s[0]) >= i then [s[0]] else [];
      LevelNested(s[1..], height, i);
      LevelConcat(one, Level(s[1..], height, i), height, i + 1);
    }
  }

  lemma {:induction false} LevelDistinct(s: seq<int>, height: map<int, int>, i: int)
    requires Distinct(s)
    ensures Distinct(Level(s, height, i))
  {
    if s != [] {
      LevelDistinct(s[1..], height, i);
      LevelMember(s[1..], height, i, s[0]);
    }
  }

  /** A level is empty above every height. */
  lemma {:induction false} LevelEmpty(s: seq<int>, height: map<int, int>, i: int)
    requires forall x :: x in s ==> HeightOf(height, x) < i
    ensures Level(s, height, i) == []
  {
    if s != [] {
      assert s[0] in s;
      LevelEmpty(s[1..], height, i);
    }
  }

  lemma LevelSplit(s: seq<int>, k: nat, height: map<int, int>, i: int)
    requires k <= |s|
    ensures Level(s, height, i) == Level(s[..k], height, i) + Level(s[k..], height, i)
  {
    LevelConcat(s[..k], s[k..], height, i);
    assert s == s[..k] + s[k..];
  }

  /** On every level the blocks smaller than `n` come first. */
  lemma LevelSizes(s: seq<int>, size: map<int, int>, n: int, height: map<int, int>, i: int)
    requires Sorted(s, size)
    ensures var k := Cut(s, size, n);
            && (forall x :: x in Level(s[..k], height, i) ==> x in s && SizeOf(size, x) < n)
            && (forall x :: x in Level(s[k..], height, i) ==> x in s && SizeOf(size, x) >= n)
  {
    var k := Cut(s, size, n);
    CutSplits(s, size, n);
    forall x | x in Level(s[..k], height, i) ensures x in s && SizeOf(size, x) < n {
      LevelMember(s[..k], height, i, x);
    }
    forall x | x in Level(s[k..], height, i) ensures x in s && SizeOf(size, x) >= n {
      LevelMember(s[k..], height, i, x);
    }
  }

  /** Going down a level continues from a node that is on the lower level too. */
  lemma Descended(root: int, s: seq<int>, height: map<int, int>, i: int) returns (at: nat)
    ensures at <= |Level(s, height, i)|
    ensures ([root] + Level(s, height, i))[at] == Last(root, Level(s, height, i + 1))
  {
    var upper, lower := Level(s, height, i + 1), Level(s, height, i);
    if upper == [] {
      at := 0;
    } else {
      var x := upper[|upper| - 1];
      assert x in upper;
      LevelMember(s, height, i + 1, x);
      LevelMember(s, height, i, x);
      var j :| 0 <= j < |lower| && lower[j] == x;
      at := j + 1;
    }
  }

  // ---- links -------------------------------------------------------------------------------

  function Last(root: int, list: seq<int>): int { ([root] + list)[|list|] }

  /** The last node before position `k` on a level is the head or a block of the list. */
  lemma LastAmong(root: int, free: seq<int>, k: nat, height: map<int, int>, i: int)
    requires k <= |free|
    ensures Last(root, Level(free[..k], height, i)) in [root] + free
  {
    var l := Level(free[..k], height, i);
    if l != [] {
      var x := l[|l| - 1];
      assert x in l;
      LevelMember(free[..k], height, i, x);
    }
  }

  /** Splicing `v` in after the last node of `a`. */
  lemma LinkInsert(ram: Ram, root: int, i: int, a: seq<int>, b: seq<int>, v: int)
    requires Linked(ram, root, i, a + b)
    requires Distinct([root] + a + b) && v != root && v !in a && v !in b
    ensures Forward(Last(root, a), i) in ram
    ensures var p := Last(root, a);
            Linked(ram[Forward(v, i) := ram[Forward(p, i)]][Forward(p, i) := v], root, i, a + [v] + b)
  {
    var p := Last(root, a);
    var s, t := [root] + (a + b), [root] + (a + [v] + b);
    assert s[|a|] == p;
    var ram' := ram[Forward(v, i) := ram[Forward(p, i)]][Forward(p, i) := v];
    assert s == [root] + a + b;
    forall k | 0 <= k <= |a + [v] + b|
      ensures Forward(t[k], i) in ram' && ram'[Forward(t[k], i)] == At(a + [v] + b, k)
    {
      if k < |a| {
        assert t[k] == s[k] != p;
      } else if k == |a| {
        assert t[k] == p;
      } else if k == |a| + 1 {
        assert t[k] == v;
        assert At(a + b, |a|) == At(a + [v] + b, k);
      } else {
        assert t[k] == s[k - 1] != p;
        assert t[k] in b;
        assert At(a + b, k - 1) == At(a + [v] + b, k);
      }
    }
  }

  /** Cutting `v` out behind the last node of `a`. */
  lemma LinkRemove(ram: Ram, root: int, i: int, a: seq<int>, b: seq<int>, v: int)
    requires Linked(ram, root, i, a + [v] + b)
    requires Distinct([root] + a + [v] + b)
    ensures Forward(v, i) in ram
    ensures Linked(ram[Forward(Last(root, a), i) := ram[Forward(v, i)]], root, i, a + b)
  {
    var p := Last(root, a);
    var s, t := [root] + (a + b), [root] + (a + [v] + b);
    assert t[|a|] == p && t[|a| + 1] == v;
    assert t == [root] + a + [v] + b;
    var ram' := ram[Forward(p, i) := ram[Forward(v, i)]];
    forall k | 0 <= k <= |a + b|
      ensures Forward(s[k], i) in ram' && ram'[Forward(s[k], i)] == At(a + b, k)
    {
      if k < |a| {
        assert s[k] == t[k] != p;
      } else if k == |a| {
        assert s[k] == p;
        assert At(a + [v] + b, k + 1) == At(a + b, k);
      } else {
        assert s[k] == t[k + 1] != p;
        assert At(a + [v] + b, k + 1) == At(a + b, k);
      }
    }
  }

  /** Writing the forward words of level i disturbs no other level. */
  lemma LinkFrame(ram: Ram, ram': Ram, root: int, j: int, list: seq<int>)
    requires Linked(ram, root, j, list)
    requires forall x :: x in [root] + list ==>
      (Forward(x, j) in ram ==> Forward(x, j) in ram' && ram'[Forward(x, j)] == ram[Forward(x, j)])
    ensures Linked(ram', root, j, list)
  {
    var s := [root] + list;
    forall k | 0 <= k <= |list|
      ensures Forward(s[k], j) in ram' && ram'[Forward(s[k], j)] == At(list, k)
    {
      assert s[k] in s;
    }
  }

  // ---- descent -----------------------------------------------------------------------------

  /** What one look ahead on level `i` shows, from the node at position `at` among the
      smaller blocks: the walk goes on exactly while there is another smaller block. */
  ghost predicate Ahead(ram: Ram, root: int, small: seq<int>, n: int, i: int, at: nat)
    requires at <= |small|
  {
    var node := ([root] + small)[at];
    && Forward(node, i) in ram
    && var next := ram[Forward(node, i)];
    && (next != 0 ==> next + SIZE in ram && (ram[next + SIZE] + BIG_HEADER) % PAGE_SIZE == 0)
    && (next != 0 && ram[next + SIZE] < n <==> at < |small|)
    && (at < |small| ==> next == ([root] + small)[at + 1])
  }

  lemma LookAhead(ram: Ram, root: int, level: int, free: seq<int>, height: map<int, int>, size: map<int, int>,
                  n: int, i: int, at: nat)
    requires SkipOk(ram, root, level, free, height, size) && 0 <= i <= level
    requires at <= |Level(free[..Cut(free, size, n)], height, i)|
    ensures Ahead(ram, root, Level(free[..Cut(free, size, n)], height, i), n, i, at)
  {
    hide Level, HeightOf, Separate, Sorted;
    var k := Cut(free, size, n);
    var small, large := Level(free[..k], height, i), Level(free[k..], height, i);
    LevelSplit(free, k, height, i);
    LevelSizes(free, size, n, height, i);
    var all := Level(free, height, i);
    assert ([root] + all)[at] == ([root] + small)[at];
    assert Linked(ram, root, i, all);
    if at < |all| {
      assert all[at] == if at < |small| then small[at] else large[at - |small|];
      assert at < |small| ==> small[at] in small;
      assert at >= |small| ==> large[at - |small|] in large;
      assert Block(ram, size, all[at]);
    }
  }

  /** A descent for `n` can start: above the top level there is nothing to see. */
  ghost predicate Searchable(ram: Ram, root: int, level: int, small: seq<int>, height: map<int, int>, n: int)
  {
    && 0 <= level <= SKIP_MAX_LEVEL && Level(small, height, level + 1) == []
    && forall i, at: nat :: 0 <= i <= level && at <= |Level(small, height, i)| ==>
         Ahead(ram, root, Level(small, height, i), n, i, at)
  }

  lemma SkipSearchable(ram: Ram, root: int, level: int, free: seq<int>, height: map<int, int>, size: map<int, int>, n: int)
    requires SkipOk(ram, root, level, free, height, size)
    ensures Searchable(ram, root, level, free[..Cut(free, size, n)], height, n)
  {
    var small := free[..Cut(free, size, n)];
    forall x | x in small ensures HeightOf(height, x) < level + 1 { assert x in free; }
    LevelEmpty(small, height, level + 1);
    forall i, at: nat | 0 <= i <= level && at <= |Level(small, height, i)|
      ensures Ahead(ram, root, Level(small, height, i), n, i, at)
    {
      LookAhead(ram, root, level, free, height, size, n, i, at);
    }
  }

  /** What a search for `n` finds at the bottom: the first block at least that big. */
  lemma BottomNext(ram: Ram, root: int, level: int, free: seq<int>, height: map<int, int>, size: map<int, int>, n: int)
    requires SkipOk(ram, root, level, free, height, size)
    ensures var k := Cut(free, size, n);
            var node := Last(root, Level(free[..k], height, 0));
            Forward(node, 0) in ram && ram[Forward(node, 0)] == At(free, k)
  {
    var k := Cut(free, size, n);
    LevelZero(free, height);
    forall x | x in free[..k] ensures HeightOf(height, x) >= 0 { assert x in free; }
    LevelZero(free[..k], height);
    assert Linked(ram, root, 0, free);
    assert ([root] + free)[k] == ([root] + free[..k])[k];
  }

  // ---- changing one level at a time ----------------------------------------------------------

  ghost predicate AllLinked(ram: Ram, root: int, lists: seq<seq<int>>)
  {
    && |lists| == SKIP_MAX_LEVEL + 1
    && forall i :: 0 <= i <= SKIP_MAX_LEVEL ==> Linked(ram, root, i, lists[i])
  }

  /** Words of the forward arrays of `nodes`. */
  ghost predicate ForwardWord(nodes: seq<int>, a: int)
  {
    exists x :: x in nodes && x + FORWARD <= a < x + BIG_HEADER
  }

  /** Nothing but forward arrays of `nodes` has changed. */
  ghost predicate OnlyForwards(before: Ram, after: Ram, nodes: seq<int>)
  {
    forall a {:trigger a in after} {:trigger after[a]} :: !ForwardWord(nodes, a) ==>
      (a in after <==> a in before) && (a in before ==> after[a] == before[a])
  }

  lemma OnlyForwardsRefl(ram: Ram, nodes: seq<int>)
    ensures OnlyForwards(ram, ram, nodes)
  {}

  /** A store to `x->forward[i]` touches neither another level nor anything outside the
      forward arrays. */
  lemma StoreForward(ram: Ram, nodes: seq<int>, x: int, i: int, v: int)
    requires Separate(nodes) && x in nodes && 0 <= i <= SKIP_MAX_LEVEL
    ensures OnlyForwards(ram, ram[Forward(x, i) := v], nodes)
    ensures forall y, j :: y in nodes && 0 <= j <= SKIP_MAX_LEVEL && j != i ==> Forward(y, j) != Forward(x, i)
  {
    assert ForwardWord(nodes, Forward(x, i));
  }

  lemma OnlyForwardsTrans(a: Ram, b: Ram, c: Ram, nodes: seq<int>)
    requires OnlyForwards(a, b, nodes) && OnlyForwards(b, c, nodes)
    ensures OnlyForwards(a, c, nodes)
  {
    forall w | !ForwardWord(nodes, w)
      ensures (w in c <==> w in a) && (w in a ==> c[w] == a[w])
    {
      assert w in c <==> w in b;
    }
  }

  lemma ReplaceLevel(ram: Ram, ram': Ram, root: int, lists: seq<seq<int>>, i: int, list: seq<int>, nodes: seq<int>)
    requires AllLinked(ram, root, lists) && 0 <= i <= SKIP_MAX_LEVEL && Linked(ram', root, i, list)
    requires root in nodes && forall j, x :: 0 <= j <= SKIP_MAX_LEVEL && x in lists[j] ==> x in nodes
    requires forall y, j :: y in nodes && 0 <= j <= SKIP_MAX_LEVEL && j != i && Forward(y, j) in ram ==>
      Forward(y, j) in ram' && ram'[Forward(y, j)] == ram[Forward(y, j)]
    ensures AllLinked(ram', root, lists[i := list])
  {
    forall j | 0 <= j <= SKIP_MAX_LEVEL && j != i ensures Linked(ram', root, j, lists[j]) {
      assert Linked(ram, root, j, lists[j]);
      LinkFrame(ram, ram', root, j, lists[j]);
    }
  }

  /** The levels of a list, bottom first. */
  function Levels(s: seq<int>, height: map<int, int>): seq<seq<int>>
  {
    seq(SKIP_MAX_LEVEL + 1, i => Level(s, height, i))
  }

  /** Splicing `v` in between `a` and `b` on level `i`. */
  lemma SpliceLevel(ram: Ram, root: int, lists: seq<seq<int>>, i: int, a: seq<int>, b: seq<int>, v: int, nodes: seq<int>)
    requires AllLinked(ram, root, lists) && 0 <= i <= SKIP_MAX_LEVEL && lists[i] == a + b
    requires Separate(nodes) && root in nodes && v in nodes
    requires forall j, x :: 0 <= j <= SKIP_MAX_LEVEL && x in lists[j] ==> x in nodes
    requires Distinct([root] + a + b) && v != root && v !in a && v !in b
    ensures Forward(Last(root, a), i) in ram
    ensures var p := Last(root, a);
            var ram' := ram[Forward(v, i) := ram[Forward(p, i)]][Forward(p, i) := v];
            AllLinked(ram', root, lists[i := a + [v] + b]) && OnlyForwards(ram, ram', nodes)
  {
    var p := Last(root, a);
    assert Linked(ram, root, i, lists[i]);
    LinkInsert(ram, root, i, a, b, v);
    assert p in nodes by { if a != [] { assert p == a[|a| - 1]; assert p in lists[i]; } }
    var ram1 := ram[Forward(v, i) := ram[Forward(p, i)]];
    StoreForward(ram, nodes, v, i, ram[Forward(p, i)]);
    StoreForward(ram1, nodes, p, i, v);
    OnlyForwardsTrans(ram, ram1, ram1[Forward(p, i) := v], nodes);
    ReplaceLevel(ram, ram1[Forward(p, i) := v], root, lists, i, a + [v] + b, nodes);
  }

  /** Cutting `v` out from between `a` and `b` on level `i`. */
  lemma UnspliceLevel(ram: Ram, root: int, lists: seq<seq<int>>, i: int, a: seq<int>, b: seq<int>, v: int, nodes: seq<int>)
    requires AllLinked(ram, root, lists) && 0 <= i <= SKIP_MAX_LEVEL && lists[i] == a + [v] + b
    requires Separate(nodes) && root in nodes
    requires forall j, x :: 0 <= j <= SKIP_MAX_LEVEL && x in lists[j] ==> x in nodes
    requires Distinct([root] + a + [v] + b)
    ensures Forward(v, i) in ram
    ensures var ram' := ram[Forward(Last(root, a), i) := ram[Forward(v, i)]];
            AllLinked(ram', root, lists[i := a + b]) && OnlyForwards(ram, ram', nodes)
  {
    var p := Last(root, a);
    assert Linked(ram, root, i, lists[i]);
    LinkRemove(ram, root, i, a, b, v);
    assert p in nodes by { if a != [] { assert p == a[|a| - 1]; assert p in lists[i]; } }
    StoreForward(ram, nodes, p, i, ram[Forward(v, i)]);
    ReplaceLevel(ram, ram[Forward(p, i) := ram[Forward(v, i)]], root, lists, i, a + b, nodes);
  }

  // ---- insertion -----------------------------------------------------------------------------

  /** The lists when `v` has been spliced in before position `k` on the levels below `i`. */
  function Spliced(free: seq<int>, k: nat, height: map<int, int>, v: int, i: int): seq<seq<int>>
    requires k <= |free|
  {
    seq(SKIP_MAX_LEVEL + 1, j =>
      if j < i then Level(free[..k], height, j) + [v] + Level(free[k..], height, j) else Level(free, height, j))
  }

  lemma SplicedNone(free: seq<int>, k: nat, height: map<int, int>, v: int)
    requires k <= |free|
    ensures Spliced(free, k, height, v, 0) == Levels(free, height)
  {}

  lemma SplicedMembers(free: seq<int>, k: nat, height: map<int, int>, v: int, i: int)
    requires k <= |free|
    ensures forall j, x :: 0 <= j <= SKIP_MAX_LEVEL && x in Spliced(free, k, height, v, i)[j] ==> x in free || x == v
  {
    forall j, x | 0 <= j <= SKIP_MAX_LEVEL && x in Spliced(free, k, height, v, i)[j] ensures x in free || x == v {
      LevelMember(free, height, j, x);
      LevelMember(free[..k], height, j, x);
      LevelMember(free[k..], height, j, x);
    }
  }

  lemma LevelPathDistinct(root: int, free: seq<int>, height: map<int, int>, i: int)
    requires Distinct([root] + free)
    ensures Distinct([root] + Level(free, height, i))
  {
    assert free == ([root] + free)[1..];
    LevelDistinct(free, height, i);
    LevelMember(free, height, i, root);
    assert forall j :: 0 <= j < |free| ==> ([root] + free)[j + 1] == free[j];
  }

  lemma SpliceStep(ram: Ram, root: int, free: seq<int>, k: nat, height: map<int, int>, v: int, i: int)
    requires k <= |free| && 0 <= i <= SKIP_MAX_LEVEL
    requires Separate([root] + free + [v]) && AllLinked(ram, root, Spliced(free, k, height, v, i))
    ensures Forward(Last(root, Level(free[..k], height, i)), i) in ram
    ensures var next := ram[Forward(Last(root, Level(free[..k], height, i)), i)]; next == 0 || next in free
    ensures var p := Last(root, Level(free[..k], height, i));
            var ram' := ram[Forward(v, i) := ram[Forward(p, i)]][Forward(p, i) := v];
            && AllLinked(ram', root, Spliced(free, k, height, v, i + 1))
            && OnlyForwards(ram, ram', [root] + free + [v])
  {
    var nodes := [root] + free + [v];
    var a, b := Level(free[..k], height, i), Level(free[k..], height, i);
    var lists := Spliced(free, k, height, v, i);
    LevelSplit(free, k, height, i);
    SplicedMembers(free, k, height, v, i);
    assert nodes[..|free| + 1] == [root] + free;
    LevelPathDistinct(root, free, height, i);
    assert [root] + (a + b) == [root] + a + b;
    LevelMember(free, height, i, v);
    assert v in nodes by { assert nodes[|free| + 1] == v; }
    assert v != root && v !in free by { assert nodes[0] == root && nodes[|free| + 1] == v; NotAmong(root, free, v); }
    assert lists[i] == a + b && Linked(ram, root, i, lists[i]);
    assert ([root] + (a + b))[|a|] == Last(root, a);
    assert |b| > 0 ==> (a + b)[|a|] in lists[i];
    SpliceLevel(ram, root, lists, i, a, b, v, nodes);
    assert lists[i := a + [v] + b] == Spliced(free, k, height, v, i + 1);
  }

  lemma NotAmong(root: int, free: seq<int>, v: int)
    requires Distinct([root] + free + [v])
    ensures v != root && v !in free && root !in free && Distinct([root] + free) && Distinct(free)
  {
    var nodes := [root] + free + [v];
    assert forall j :: 0 <= j < |free| ==> nodes[j + 1] == free[j];
    assert nodes[0] == root && nodes[|free| + 1] == v;
  }

  /** Giving `v` a height of `h` puts it on levels 0 to h, just where it was spliced. */
  lemma LevelInsert(free: seq<int>, k: nat, height: map<int, int>, v: int, h: int, j: int)
    requires k <= |free| && v !in free
    ensures Level(InsertAt(free, k, v), height[v := h], j) ==
      if j <= h then Level(free[..k], height, j) + [v] + Level(free[k..], height, j) else Level(free, height, j)
  {
    var height' := height[v := h];
    LevelFrame(free[..k], height, height', j);
    LevelFrame(free[k..], height, height', j);
    LevelConcat(free[..k] + [v], free[k..], height', j);
    LevelConcat(free[..k], [v], height', j);
    LevelSplit(free, k, height, j);
    assert Level([v], height', j) == if h >= j then [v] else [];
  }

  lemma SeparateInsert(root: int, free: seq<int>, k: nat, v: int)
    requires Separate([root] + free + [v]) && k <= |free|
    ensures Separate([root] + InsertAt(free, k, v))
    ensures forall x :: x in [root] + InsertAt(free, k, v) <==> x in [root] + free + [v]
  {
    NotAmong(root, free, v);
    InsertAtDistinct(free, k, v);
    DistinctCons(root, InsertAt(free, k, v));
    var nodes, now := [root] + free + [v], [root] + InsertAt(free, k, v);
    assert forall x :: x in now <==> x in nodes;
  }

  /** Blocks read only their size words, which no forward array overlaps. */
  lemma BlocksFrame(ram: Ram, ram': Ram, size: map<int, int>, nodes: seq<int>, x: int)
    requires OnlyForwards(ram, ram', nodes) && Separate(nodes) && x in nodes && Block(ram, size, x)
    ensures Block(ram', size, x)
  {
    assert !ForwardWord(nodes, x + SIZE);
  }

  lemma InsertedHeights(free: seq<int>, k: nat, height: map<int, int>, level: int, v: int, h: int)
    requires k <= |free| && v !in free && 0 <= h
    requires forall x :: x in free ==> 0 <= HeightOf(height, x) <= level
    requires level > 0 ==> Level(free, height, level) != []
    ensures var level' := if h > level then h else level;
            var free', height' := InsertAt(free, k, v), height[v := h];
            && (forall x :: x in free' ==> 0 <= HeightOf(height', x) <= level')
            && (level' > 0 ==> Level(free', height', level') != [])
  {
    var level' := if h > level then h else level;
    LevelInsert(free, k, height, v, h, level');
    LevelSplit(free, k, height, level');
    forall x | x in InsertAt(free, k, v) ensures x in free || x == v {}
  }

  /** A block's size word can be read in the middle of relinking. */
  lemma SizeAfterStore(first: Ram, ram: Ram, nodes: seq<int>, size: map<int, int>, x: int, i: int, v: int)
    requires OnlyForwards(first, ram, nodes) && Separate(nodes) && x in nodes && v in nodes && Block(first, size, v)
    requires 0 <= i <= SKIP_MAX_LEVEL
    ensures Block(ram[Forward(x, i) := v], size, v)
  {
    StoreForward(ram, nodes, x, i, v);
    OnlyForwardsTrans(first, ram, ram[Forward(x, i) := v], nodes);
    BlocksFrame(first, ram[Forward(x, i) := v], size, nodes, v);
  }

  /** The finished insertion. */
  lemma Inserted(ram: Ram, ram': Ram, root: int, level: int, free: seq<int>, height: map<int, int>, size: map<int, int>,
                 v: int, h: int)
    requires SkipOk(ram, root, level, free, height, size) && Separate([root] + free + [v]) && Block(ram, size, v)
    requires 0 <= h <= SKIP_MAX_LEVEL
    requires AllLinked(ram', root, Spliced(free, Cut(free, size, size[v]), height, v, h + 1))
    requires OnlyForwards(ram, ram', [root] + free + [v])
    ensures SkipOk(ram', root, if h > level then h else level, InsertAt(free, Cut(free, size, size[v]), v), height[v := h], size)
  {
    var k := Cut(free, size, size[v]);
    var nodes := [root] + free + [v];
    var free', height' := InsertAt(free, k, v), height[v := h];
    NotAmong(root, free, v);
    SeparateInsert(root, free, k, v);
    InsertAtSorted(free, size, v);
    InsertedHeights(free, k, height, level, v, h);
    forall x | x in free' ensures Block(ram', size, x) {
      assert x in nodes;
      BlocksFrame(ram, ram', size, nodes, x);
    }
    InsertedLevels(ram', root, free, k, height, v, h, free', height');
  }

  lemma InsertedLevels(ram: Ram, root: int, free: seq<int>, k: nat, height: map<int, int>, v: int, h: int,
                       free': seq<int>, height': map<int, int>)
    requires k <= |free| && v !in free && AllLinked(ram, root, Spliced(free, k, height, v, h + 1))
    requires free' == InsertAt(free, k, v) && height' == height[v := h]
    ensures forall i :: 0 <= i <= SKIP_MAX_LEVEL ==> Linked(ram, root, i, Level(free', height', i))
  {
    hide Linked, Level, InsertAt;
    var lists := Spliced(free, k, height, v, h + 1);
    forall i | 0 <= i <= SKIP_MAX_LEVEL ensures Linked(ram, root, i, Level(free', height', i)) {
      assert Linked(ram, root, i, lists[i]);
      LevelInsert(free, k, height, v, h, i);
    }
  }

  // ---- deletion ------------------------------------------------------------------------------

  /** The lists when the block at position `k` has been cut out of the levels below `i`. */
  function Unspliced(free: seq<int>, k: nat, height: map<int, int>, i: int): seq<seq<int>>
    requires k < |free|
  {
    seq(SKIP_MAX_LEVEL + 1, j =>
      if j < i then Level(free[..k], height, j) + Level(free[k + 1..], height, j) else Level(free, height, j))
  }

  lemma UnsplicedMembers(free: seq<int>, k: nat, height: map<int, int>, i: int)
    requires k < |free|
    ensures forall j, x :: 0 <= j <= SKIP_MAX_LEVEL && x in Unspliced(free, k, height, i)[j] ==> x in free
  {
    forall j, x | 0 <= j <= SKIP_MAX_LEVEL && x in Unspliced(free, k, height, i)[j] ensures x in free {
      LevelMember(free, height, j, x);
      LevelMember(free[..k], height, j, x);
      LevelMember(free[k + 1..], height, j, x);
    }
  }

  /** On each level, `v` sits between what precedes and what follows it, if it is there. */
  lemma LevelAround(free: seq<int>, k: nat, height: map<int, int>, j: int)
    requires k < |free|
    ensures var a, b := Level(free[..k], height, j), Level(free[k + 1..], height, j);
            && Level(free, height, j) == (if HeightOf(height, free[k]) >= j then a + [free[k]] + b else a + b)
            && Level(RemoveAt(free, k), height, j) == a + b
  {
    var v := free[k];
    LevelSplit(free, k, height, j);
    assert free[k..] == [v] + free[k + 1..];
    LevelConcat([v], free[k + 1..], height, j);
    assert Level([v], height, j) == if HeightOf(height, v) >= j then [v] else [];
    LevelConcat(free[..k], free[k + 1..], height, j);
  }

  /** The test that ends the unlinking loop tells exactly whether `v` is on level `i`. */
  lemma UnlinkTest(ram: Ram, root: int, free: seq<int>, k: nat, height: map<int, int>, i: int)
    requires k < |free| && 0 <= i <= SKIP_MAX_LEVEL && Distinct(free) && free[k] != 0
    requires AllLinked(ram, root, Unspliced(free, k, height, i))
    ensures var p := Last(root, Level(free[..k], height, i));
            Forward(p, i) in ram && (ram[Forward(p, i)] == free[k] <==> HeightOf(height, free[k]) >= i)
  {
    var v := free[k];
    var a, b := Level(free[..k], height, i), Level(free[k + 1..], height, i);
    LevelAround(free, k, height, i);
    var list := Level(free, height, i);
    assert Unspliced(free, k, height, i)[i] == list;
    assert Linked(ram, root, i, list);
    assert ([root] + list)[|a|] == ([root] + a)[|a|];
    if HeightOf(height, v) >= i {
      assert list[|a|] == v;
    } else if |a| < |list| {
      assert list[|a|] == b[0];
      assert b[0] in b;
      LevelMember(free[k + 1..], height, i, b[0]);
      assert v !in free[k + 1..];
    }
  }

  /** What follows the block on its levels is another block of the list. */
  lemma UnlinkNext(ram: Ram, root: int, free: seq<int>, k: nat, height: map<int, int>, i: int)
    requires k < |free| && 0 <= i <= SKIP_MAX_LEVEL && HeightOf(height, free[k]) >= i
    requires AllLinked(ram, root, Unspliced(free, k, height, i))
    ensures Forward(free[k], i) in ram && (ram[Forward(free[k], i)] == 0 || ram[Forward(free[k], i)] in free)
  {
    hide Level, HeightOf;
    var a, b := Level(free[..k], height, i), Level(free[k + 1..], height, i);
    LevelAround(free, k, height, i);
    var list := Level(free, height, i);
    assert Unspliced(free, k, height, i)[i] == list;
    assert Linked(ram, root, i, list);
    assert ([root] + list)[|a| + 1] == free[k];
    if |b| > 0 {
      assert list[|a| + 1] == b[0] && b[0] in b;
      LevelMember(free[k + 1..], height, i, b[0]);
    }
  }

  lemma UnspliceStep(ram: Ram, root: int, free: seq<int>, k: nat, height: map<int, int>, i: int)
    requires k < |free| && 0 <= i <= SKIP_MAX_LEVEL && HeightOf(height, free[k]) >= i
    requires Separate([root] + free) && AllLinked(ram, root, Unspliced(free, k, height, i))
    ensures Forward(free[k], i) in ram
    ensures var p := Last(root, Level(free[..k], height, i));
            var ram' := ram[Forward(p, i) := ram[Forward(free[k], i)]];
            && AllLinked(ram', root, Unspliced(free, k, height, i + 1))
            && OnlyForwards(ram, ram', [root] + free)
  {
    var a, b := Level(free[..k], height, i), Level(free[k + 1..], height, i);
    var lists := Unspliced(free, k, height, i);
    LevelAround(free, k, height, i);
    UnsplicedMembers(free, k, height, i);
    LevelPathDistinct(root, free, height, i);
    assert [root] + (a + [free[k]] + b) == [root] + a + [free[k]] + b;
    UnspliceLevel(ram, root, lists, i, a, b, free[k], [root] + free);
    assert lists[i := a + b] == Unspliced(free, k, height, i + 1);
  }

  /** Everything a skip list needs, except that `level` may still be too high. */
  ghost predicate SkipBelow(ram: Ram, root: int, level: int, free: seq<int>, height: map<int, int>, size: map<int, int>)
  {
    && 0 <= level <= SKIP_MAX_LEVEL
    && Separate([root] + free)
    && Sorted(free, size)
    && (forall x :: x in free ==> Block(ram, size, x))
    && (forall x :: x in free ==> 0 <= HeightOf(height, x) <= level)
    && (forall i :: 0 <= i <= SKIP_MAX_LEVEL ==> Linked(ram, root, i, Level(free, height, i)))
  }

  lemma SeparateRemove(root: int, free: seq<int>, k: nat)
    requires Separate([root] + free) && k < |free|
    ensures Separate([root] + RemoveAt(free, k)) && Distinct(free)
    ensures forall x :: x in RemoveAt(free, k) <==> x in free && x != free[k]
  {
    var nodes := [root] + free;
    assert forall j :: 0 <= j < |free| ==> nodes[j + 1] == free[j];
    assert nodes[0] == root;
    RemoveAtDistinct(free, k);
    DistinctCons(root, RemoveAt(free, k));
    var now := [root] + RemoveAt(free, k);
    assert forall x :: x in now ==> x in nodes;
  }

  /** The unlinking is complete once every level that held the block has been treated. */
  lemma Unlinked(ram: Ram, ram': Ram, root: int, level: int, free: seq<int>, height: map<int, int>, size: map<int, int>,
                 k: nat, i: int)
    requires SkipOk(ram, root, level, free, height, size) && k < |free|
    requires HeightOf(height, free[k]) < i
    requires AllLinked(ram', root, Unspliced(free, k, height, i)) && OnlyForwards(ram, ram', [root] + free)
    ensures SkipBelow(ram', root, level, RemoveAt(free, k), height, size)
  {
    var free' := RemoveAt(free, k);
    SeparateRemove(root, free, k);
    RemoveSorted(free, size, k);
    forall x | x in free' ensures Block(ram', size, x) {
      assert x in [root] + free;
      BlocksFrame(ram, ram', size, [root] + free, x);
    }
    UnlinkedLevels(ram', root, free, height, k, i);
  }

  lemma RemoveSorted(s: seq<int>, size: map<int, int>, k: nat)
    requires Sorted(s, size) && k < |s|
    ensures Sorted(RemoveAt(s, k), size)
  {
    var r := RemoveAt(s, k);
    assert forall j :: 0 <= j < |r| ==> r[j] == s[if j < k then j else j + 1];
  }

  lemma UnlinkedLevels(ram: Ram, root: int, free: seq<int>, height: map<int, int>, k: nat, i: int)
    requires k < |free| && HeightOf(height, free[k]) < i && AllLinked(ram, root, Unspliced(free, k, height, i))
    ensures forall j :: 0 <= j <= SKIP_MAX_LEVEL ==> Linked(ram, root, j, Level(RemoveAt(free, k), height, j))
  {
    var lists := Unspliced(free, k, height, i);
    forall j | 0 <= j <= SKIP_MAX_LEVEL ensures Linked(ram, root, j, Level(RemoveAt(free, k), height, j)) {
      assert Linked(ram, root, j, lists[j]);
      LevelAround(free, k, height, j);
    }
  }

  /** The head's link on the top level is NULL exactly when no block reaches that level. */
  lemma TopLevel(ram: Ram, root: int, level: int, free: seq<int>, height: map<int, int>, size: map<int, int>)
    requires SkipBelow(ram, root, level, free, height, size)
    ensures Forward(root, level) in ram
    ensures ram[Forward(root, level)] == 0 <==> Level(free, height, level) == []
    ensures ram[Forward(root, level)] == 0 ==> forall x :: x in free ==> HeightOf(height, x) < level
  {
    var list := Level(free, height, level);
    assert Linked(ram, root, level, list);
    assert ([root] + list)[0] == root;
    if list != [] {
      var x := list[0];
      assert x in list;
      LevelMember(free, height, level, x);
      assert Block(ram, size, x);
    } else {
      forall x | x in free ensures HeightOf(height, x) < level { LevelMember(free, height, level, x); }
    }
  }

  /** A top level that is in use, or level 0, makes the list whole again. */
  lemma SkipWhole(ram: Ram, root: int, level: int, free: seq<int>, height: map<int, int>, size: map<int, int>)
    requires SkipBelow(ram, root, level, free, height, size)
    requires level == 0 || (Forward(root, level) in ram && ram[Forward(root, level)] != 0)
    ensures SkipOk(ram, root, level, free, height, size)
  {
    TopLevel(ram, root, level, free, height, size);
  }

  /** An unused top level can be dropped. */
  lemma SkipLower(ram: Ram, root: int, level: int, free: seq<int>, height: map<int, int>, size: map<int, int>)
    requires SkipBelow(ram, root, level, free, height, size) && level > 0
    requires Forward(root, level) in ram && ram[Forward(root, level)] == 0
    ensures SkipBelow(ram, root, level - 1, free, height, size) && Forward(root, level - 1) in ram
  {
    TopLevel(ram, root, level, free, height, size);
    assert Linked(ram, root, level - 1, Level(free, height, level - 1));
    assert ([root] + Level(free, height, level - 1))[0] == root;
  }
}
