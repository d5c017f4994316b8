/** What the invariant of the buddy allocator means for its callers. */
module BuddyTheorems {
  import opened Options
  import opened Powers
  import opened BuddyTree
  import opened CircularList
  import opened BuddyState
  import opened Malloc

  /** The allocated payload of size bytes lies inside its block, after the preamble and before the
      postamble, and distinct live blocks do not overlap. */
  lemma PayloadsDisjoint(t: Tree, o: int, size: nat, o': int, size': nat)
    requires size + 9 <= Pow2(TOP + 5) && size' + 9 <= Pow2(TOP + 5) && o != o'
    requires IsLive(t, TOP, o, Entry(size)) && IsLive(t, TOP, o', Entry(size'))
    ensures var p, p' := 8 * (POOL + o) + 8, 8 * (POOL + o') + 8;
            && p + size < 8 * (POOL + o + Words(Entry(size)))
            && 0 <= o && o + Words(Entry(size)) <= Words(TOP)
            && (p + size <= p' - 8 || p' + size' <= p - 8)
  {
    SubBounds(t, TOP, o, Entry(size));
    LeafApart(t, TOP, o, Entry(size), o', Entry(size'));
  }

  /** l without one of its blocks, the others in their order. */
  ghost predicate OneLess(l: seq<nat>, l': seq<nat>) { exists i: nat :: i < |l| && l' == Removed(l, i) }

  lemma {:induction false} WithoutOne(l: seq<nat>, x: nat)
    ensures Without(l, x) == l || OneLess(l, Without(l, x))
  {
    if l != [] {
      if l[0] == x {
        assert Removed(l, 0) == l[1..];
      } else {
        WithoutOne(l[1..], x);
        assert [l[0]] + l[1..] == l;
        if Without(l[1..], x) != l[1..] {
          var i: nat :| i < |l| - 1 && Without(l[1..], x) == Removed(l[1..], i);
          assert Removed(l, i + 1) == [l[0]] + Removed(l[1..], i);
        }
      }
    }
  }

  /** l is ls with x in front of bucket c; the buckets from k up to c at most lose a block, all others stay. */
  ghost predicate InFront(ls: Buckets, l: Buckets, k: nat, x: nat, c: nat) {
    && k <= c < |ls| == |l| && l[c] == [x] + ls[c]
    && forall j :: 0 <= j < |ls| && j != c ==> l[j] == ls[j] || (k <= j < c && OneLess(ls[j], l[j]))
  }

  lemma InFrontDown(ls: Buckets, l1: Buckets, l: Buckets, k: nat, x: nat, c: nat)
    requires k < |ls| && (exists y: nat :: l1 == ls[k := Without(ls[k], y)]) && InFront(l1, l, k + 1, x, c)
    ensures InFront(ls, l, k, x, c)
  {
    var y: nat :| l1 == ls[k := Without(ls[k], y)];
    WithoutOne(ls[k], y);
  }

  /** Releasing a block with a free buddy is releasing the parent of the two. */
  lemma ReleaseParent(t: Tree, e: nat, o: int, k: nat, p: int)
    requires k < e && Sub(t, e, o, k).Some? && IsFree(t, e, Buddy(e, o, k), k) && p == Parent(e, o, k)
    ensures Sub(t, e, p, k + 1).Some? && p <= o && o + Words(k) <= p + Words(k + 1)
    ensures Release(t, e, o, k) == Release(t, e, p, k + 1)
  {
    ParentSub(t, e, o, k);
    ReleaseMerge(t, e, o, k);
    ReleaseGraft(t, e, p, k + 1, Free);
  }

  lemma ReleaseAlone(t: Tree, e: nat, o: int, k: nat)
    requires Sub(t, e, o, k).Some? && (k < e ==> !IsFree(t, e, Buddy(e, o, k), k))
    ensures IsFree(Release(t, e, o, k), e, o, k)
  {
    ReleaseStop(t, e, o, k);
    GraftSub(t, e, o, k, Free);
  }

  lemma ListedAlone(t: Tree, ls: Buckets, b: nat, k: nat)
    requires b >= POOL && k <= TOP && |ls| == ENTRIES && Sub(t, TOP, b - POOL, k).Some?
    requires k < TOP ==> !IsFree(t, TOP, Buddy(TOP, b - POOL, k), k)
    ensures IsFree(Release(t, TOP, b - POOL, k), TOP, b - POOL, k) && InFront(ls, ReleaseLists(t, ls, b, k), k, b, k)
  {
    ReleaseAlone(t, TOP, b - POOL, k);
    assert ReleaseLists(t, ls, b, k) == ls[k := [b] + ls[k]];
  }

  lemma ListedParent(t: Tree, ls: Buckets, b: nat, k: nat) returns (z: nat, l: Buckets)
    requires b >= POOL && k < TOP && |ls| == ENTRIES && Sub(t, TOP, b - POOL, k).Some?
    requires IsFree(t, TOP, Buddy(TOP, b - POOL, k), k)
    ensures POOL <= z <= b && b + Words(k) <= z + Words(k + 1) && Sub(t, TOP, z - POOL, k + 1).Some?
    ensures Release(t, TOP, b - POOL, k) == Release(t, TOP, z - POOL, k + 1)
    ensures |l| == ENTRIES && ReleaseLists(t, ls, b, k) == ReleaseLists(t, l, z, k + 1)
    ensures exists y: nat :: l == ls[k := Without(ls[k], y)]
  {
    ReleaseListsUnfold(t, ls, b, k);
    z := POOL + Parent(TOP, b - POOL, k);
    ReleaseParent(t, TOP, b - POOL, k, z - POOL);
    l := ls[k := Without(ls[k], POOL + Buddy(TOP, b - POOL, k))];
  }

  /** free puts the merged block x that holds b, a free block of order c then, in front of its bucket. */
  lemma {:induction false} ReleasedFirst(t: Tree, ls: Buckets, b: nat, k: nat) returns (x: nat, c: nat)
    requires b >= POOL && k <= TOP && |ls| == ENTRIES && Sub(t, TOP, b - POOL, k).Some?
    ensures k <= c <= TOP && POOL <= x <= b && b + Words(k) <= x + Words(c)
    ensures IsFree(Release(t, TOP, b - POOL, k), TOP, x - POOL, c) && InFront(ls, ReleaseLists(t, ls, b, k), k, x, c)
    decreases TOP - k
  {
    if k < TOP && IsFree(t, TOP, Buddy(TOP, b - POOL, k), k) {
      var z, l := ListedParent(t, ls, b, k);
      x, c := ReleasedFirst(t, l, z, k + 1);
      InFrontDown(ls, l, ReleaseLists(t, l, z, k + 1), k, x, c);
    } else {
      ListedAlone(t, ls, b, k);
      x, c := b, k;
    }
  }

  /** malloc's search fails for entry k exactly when no size-aligned window of that entry is clear of
      live blocks: the panic is never premature. */
  lemma OutOfMemory(bs: nat, m: Memory, count: seq<nat>, t: Tree, ls: Buckets, k: nat)
    requires Inv(bs, m, count, t, ls) && k < ENTRIES
    ensures (forall j :: k <= j < ENTRIES ==> ls[j] == []) <==>
            (forall o: int :: Window(TOP, o, k) ==> !NoLiveIn(t, TOP, o, k))
  {
    if forall j :: k <= j < ENTRIES ==> ls[j] == [] {
      forall o: int | Window(TOP, o, k) ensures !NoLiveIn(t, TOP, o, k) {
        if NoLiveIn(t, TOP, o, k) {
          var o', k' := WindowInFree(t, TOP, o, k);
          SubBounds(t, TOP, o', k');
          assert FreeNode(t, k', POOL + o');
          assert false;
        }
      }
    }
    if j :| k <= j < ENTRIES && ls[j] != [] {
      var x := ls[j][0];
      assert x in ls[j];
      assert FreeNode(t, j, x);
      FreeWindow(t, x - POOL, j, k);
    }
  }

  lemma FreeWindow(t: Tree, o: int, j: nat, k: nat)
    requires IsFree(t, TOP, o, j) && k <= j
    ensures Window(TOP, o, k) && NoLiveIn(t, TOP, o, k)
  {
    SubWindow(t, TOP, o, j);
    WindowDown(TOP, o, j, k);
    WordsMonotone1(k, j);
    forall o': int, k': nat | IsLive(t, TOP, o', k') ensures Apart(o, k, o', k') {
      LeafApart(t, TOP, o, j, o', k');
    }
  }

  lemma {:induction false} WindowDown(e: nat, o: int, j: nat, k: nat)
    requires Window(e, o, j) && k <= j
    ensures Window(e, o, k)
  {
    if j < e {
      if o < Words(e - 1) {
        WindowDown(e - 1, o, j, k);
      } else {
        WindowDown(e - 1, o - Words(e - 1), j, k);
      }
    } else if k < e {
      WindowDown(e - 1, o, e - 1, k);
    }
  }

  /** History independence: two allocators with the same live blocks have the same free blocks, hence
      the same blocks in every bucket, whatever calls led there. */
  lemma FreeBlocksFromLive(bs: nat, m: Memory, count: seq<nat>, t: Tree, ls: Buckets,
                           bs': nat, m': Memory, count': seq<nat>, t': Tree, ls': Buckets, e: nat, x: nat)
    requires Inv(bs, m, count, t, ls) && Inv(bs', m', count', t', ls') && e < ENTRIES
    requires SameLive(t, t', TOP)
    ensures t == t' && (x in ls[e] <==> x in ls'[e]) && count[e] == count'[e]
  {
    LiveDeterminesFree(t, t', TOP);
    CountIsLeaves(bs, m, count, t, ls, e);
    CountIsLeaves(bs', m', count', t', ls', e);
    assert x in ls[e] <==> FreeNode(t, e, x);
    assert x in ls'[e] <==> FreeNode(t', e, x);
  }

  /** When every block has been freed, the pool is one 4 MB block again. */
  lemma EverythingFreed(bs: nat, m: Memory, count: seq<nat>, t: Tree, ls: Buckets)
    requires Inv(bs, m, count, t, ls) && forall o: int, k: nat :: !IsLive(t, TOP, o, k)
    ensures t == Free && ls[TOP] == [POOL] && forall e :: 0 <= e < TOP ==> ls[e] == []
  {
    AllFree(t, TOP);
    forall e: nat, x: nat | e < ENTRIES && x in ls[e] ensures e == TOP && x == POOL {
      assert FreeNode(t, e, x);
    }
    assert FreeNode(t, TOP, POOL);
    CountIsLeaves(bs, m, count, t, ls, TOP);
    assert |ls[TOP]| == 1 && ls[TOP][0] in ls[TOP];
    forall e | 0 <= e < TOP ensures ls[e] == [] {
      CountIsLeaves(bs, m, count, t, ls, e);
    }
  }

  // ----- counters and conservation -----

  predicate Distinct<T(==)>(l: seq<T>) { forall i, j :: 0 <= i < j < |l| ==> l[i] != l[j] }

  /** The offsets of the leaves of one kind and entry, each once. */
  lemma {:induction false} LeafOffsets(t: Tree, e: nat, kind: Tree, k: nat) returns (l: seq<int>)
    requires Fits(t, e) && !kind.Node?
    ensures |l| == Leaves(t, e, kind, k) && Distinct(l)
    ensures forall o: int :: o in l <==> Sub(t, e, o, k) == Some(kind)
  {
    if t.Node? {
      var h := Words(e - 1);
      var a: seq<int> := LeafOffsets(t.left, e - 1, kind, k);
      var b: seq<int> := LeafOffsets(t.right, e - 1, kind, k);
      l := a + Shifted(b, h);
      forall o: int ensures o in l <==> Sub(t, e, o, k) == Some(kind) {
        ShiftedMembers(b, h, o);
        if o in a { SubBounds(t.left, e - 1, o, k); }
        if o - h in b { SubBounds(t.right, e - 1, o - h, k); }
      }
      forall i, j | 0 <= i < j < |l| ensures l[i] != l[j] {
        if i < |a| { assert l[i] in a; SubBounds(t.left, e - 1, l[i], k); }
        if j >= |a| { assert b[j - |a|] in b; SubBounds(t.right, e - 1, b[j - |a|], k); }
      }
    } else {
      l := if t == kind && e == k then [0] else [];
      forall o: int ensures o in l <==> Sub(t, e, o, k) == Some(kind) {
        SingleLeaf(t, e, o, k);
      }
    }
  }

  function Shifted(l: seq<int>, h: int): (r: seq<int>)
    ensures |r| == |l| && forall i :: 0 <= i < |l| ==> r[i] == l[i] + h
  {
    seq(|l|, i requires 0 <= i < |l| => l[i] + h)
  }

  lemma ShiftedMembers(l: seq<int>, h: int, o: int)
    ensures o in Shifted(l, h) <==> o - h in l
  {
    if o - h in l {
      var i :| 0 <= i < |l| && l[i] == o - h;
      assert Shifted(l, h)[i] == o;
    }
  }

  /** Two lists with the same elements, each once, have the same length. */
  lemma {:induction false} SameLength<T>(a: seq<T>, b: seq<T>)
    requires Distinct(a) && Distinct(b) && forall x :: x in a <==> x in b
    ensures |a| == |b|
  {
    DistinctSize(a);
    DistinctSize(b);
    assert (set x | x in a) == (set x | x in b);
  }

  lemma {:induction false} DistinctSize<T>(a: seq<T>)
    requires Distinct(a)
    ensures |set x | x in a| == |a|
  {
    if a != [] {
      DistinctSize(a[1..]);
      assert (set x | x in a) == (set x | x in a[1..]) + {a[0]};
    }
  }

  /** bsystem[e].count is the number of free blocks of entry e. */
  lemma CountIsLeaves(bs: nat, m: Memory, count: seq<nat>, t: Tree, ls: Buckets, e: nat)
    requires Inv(bs, m, count, t, ls) && e < ENTRIES
    ensures count[e] == |ls[e]| == Leaves(t, TOP, Free, e)
  {
    var l: seq<int> := LeafOffsets(t, TOP, Free, e);
    var b := Shifted(ls[e], 0 - POOL as int);
    var r := RingOf(bs, ls, e);
    assert Ring(m, r);
    assert Distinct(b) by {
      forall i, j | 0 <= i < j < |b| ensures b[i] != b[j] {
        assert r[i + 1] == ls[e][i] && r[j + 1] == ls[e][j] && Clear(r[i + 1], r[j + 1]);
      }
    }
    forall o: int ensures o in l <==> o in b {
      ShiftedMembers(ls[e], 0 - POOL as int, o);
      if o in l { SubBounds(t, TOP, o, e); assert FreeNode(t, e, POOL + o); }
      if o in b { assert FreeNode(t, e, o + POOL); }
    }
    SameLength(l, b);
  }

  /** Words in the buckets below n, as the counters tell it. */
  function Counters(count: seq<nat>, n: nat): nat
    requires n <= |count|
  {
    if n == 0 then 0 else Counters(count, n - 1) + Times(count[n - 1], Words(n - 1))
  }

  /** Conservation: the counters' words and the live words always make up the whole pool. */
  lemma {:induction false} PoolConserved(bs: nat, m: Memory, count: seq<nat>, t: Tree, ls: Buckets)
    requires Inv(bs, m, count, t, ls)
    ensures Counters(count, ENTRIES) + Sum(t, TOP, Live, ENTRIES) == Words(TOP)
  {
    CanonicalNoHeld(t);
    Conservation(t, TOP, ENTRIES);
    CountersSum(bs, m, count, t, ls, ENTRIES);
  }

  lemma {:induction false} CountersSum(bs: nat, m: Memory, count: seq<nat>, t: Tree, ls: Buckets, n: nat)
    requires Inv(bs, m, count, t, ls) && n <= ENTRIES
    ensures Counters(count, n) == Sum(t, TOP, Free, n)
  {
    if n > 0 {
      CountersSum(bs, m, count, t, ls, n - 1);
      CountIsLeaves(bs, m, count, t, ls, n - 1);
    }
  }

  /** next_power2 doubles a uint32_t: its loop ends if and only if v is at most 2^31; beyond, the power wraps to 0. */
  lemma NextPower2Ends(v: nat)
    requires 32 <= v < 0x1_0000_0000
    ensures (exists c: nat :: c >= 5 && Pow2(c) % 0x1_0000_0000 >= v) <==> v <= Pow2(31)
  {
    Pow2Of32();
    if v <= Pow2(31) {
      assert Pow2(31) % 0x1_0000_0000 >= v;
    }
    if c: nat :| c >= 5 && Pow2(c) % 0x1_0000_0000 >= v {
      if c >= 32 {
        Pow2Add(32, c - 32);
        WrapsToZero(Pow2(c - 32));
      } else {
        Pow2Monotone(c, 31);
      }
    }
  }

  lemma WrapsToZero(q: nat)
    ensures Times(0x1_0000_0000, q) % 0x1_0000_0000 == 0
  {
  }

  /** malloc computes in uint32_t.  The order it finds for (size + 9) mod 2^32 is in the bucket table and
      large enough for the request exactly when size + 9 does not exceed the pool. */
  lemma RequestServed(size: nat, order: nat)
    requires size < 0x1_0000_0000
    requires var v := (size + 9) % 0x1_0000_0000;
             order >= 5 && v <= Pow2(order) && (order > 5 ==> Pow2(order - 1) < v)
    ensures order - 5 < ENTRIES && size + 9 <= Pow2(order) <==> size + 9 <= Pow2(22)
  {
    if order <= 22 {
      Pow2Monotone(order, 22);
    } else {
      Pow2Monotone(22, order - 1);
    }
    Pow2Of22();
  }

  /** The last nine requests before 2^32 wrap around: the order found for them is 5, a block of 32 bytes. */
  lemma WrappedRequest(size: nat, order: nat)
    requires size < WORD32 <= size + 9
    requires order >= 5 && Asked(size) <= Pow2(order) && (order > 5 ==> Pow2(order - 1) < Asked(size))
    ensures order == 5 && Asked(size) <= Pow2(TOP + 5) && Smallest(Asked(size)) == 0 && 8 * Words(0) < size
  {
    assert Asked(size) < 9;
    Pow2Of22();
    assert Pow2(5) == 32;
    if order > 5 {
      Pow2Monotone(5, order - 1);
    }
    EntryOrder(Asked(size), order);
  }

  // ----- freeing twice -----

  /** A pool whose bucket table starts at word 13 and whose one free block still holds 0xFF from an earlier owner in
      byte 31.  Its list links to the head of bucket 17, whose address is a multiple of 256. */
  function StaleWord(w: nat): Word {
    if 13 <= w < 64 then (if (w - 13) % 3 == 2 then Raw(0, 0, 0) else Ptr(w - (w - 13) % 3))
    else if w == 64 || w == 65 then Ptr(POOL)
    else if w == POOL || w == POOL + 1 then Ptr(64)
    else if w == POOL + 3 then Raw(0, 0, USED)
    else if w == POOL + Words(TOP) - 1 then Raw(0, 0, TOP)
    else Raw(0, 0, 0)
  }

  function StaleMemory(): Memory { seq(POOL + Words(TOP), w requires 0 <= w => StaleWord(w)) }

  function OneBlock(e: nat): seq<nat> { if e == TOP then [POOL] else [] }

  function StaleLists(): Buckets { seq(ENTRIES, e requires 0 <= e => OneBlock(e)) }

  function StaleCounts(): seq<nat> { seq(ENTRIES, e requires 0 <= e => |OneBlock(e)|) }

  /** Freeing a free block again is not always noticed: in this state of the allocator the first word of the free block
      is a link, its low byte is read as entry 0, and the stale byte passes for USED. */
  lemma DoubleFreeMissed()
    ensures Inv(13, StaleMemory(), StaleCounts(), Free, StaleLists())
    ensures IsFree(Free, TOP, 0, TOP) && LooksLive(StaleMemory(), POOL)
  {
    StaleListing();
    StaleTags();
    StaleMarks();
  }

  lemma StaleMarks()
    ensures LooksLive(StaleMemory(), POOL)
  {
    var m := StaleMemory();
    assert m[POOL] == StaleWord(POOL) && m[POOL + 3] == StaleWord(POOL + 3);
    assert Words(0) == 4;
  }

  lemma StaleListing()
    ensures Listing(13, StaleMemory(), Free, StaleLists())
  {
    var ls := StaleLists();
    forall e: nat, x: nat | e < ENTRIES ensures x in ls[e] <==> FreeNode(Free, e, x) {
      assert ls[e] == OneBlock(e);
      if x >= POOL { SingleLeaf(Free, TOP, x - POOL, e); }
    }
    forall e | 0 <= e < ENTRIES ensures Ring(StaleMemory(), RingOf(13, ls, e)) {
      StaleRing(e);
    }
  }

  lemma RingOfNone(m: Memory, h: nat)
    requires h + 1 < |m| && m[h] == m[h + 1] == Ptr(h)
    ensures Ring(m, [h])
  {
    assert LinksAt(m, [h], 0);
  }

  lemma RingOfOne(m: Memory, h: nat, x: nat)
    requires h + 1 < |m| && x + 1 < |m| && Clear(h, x) && m[h] == m[h + 1] == Ptr(x) && m[x] == m[x + 1] == Ptr(h)
    ensures Ring(m, [h, x])
  {
    assert LinksAt(m, [h, x], 0) && LinksAt(m, [h, x], 1);
  }

  lemma StaleRing(e: nat)
    requires e < ENTRIES
    ensures Ring(StaleMemory(), RingOf(13, StaleLists(), e))
  {
    var m, h := StaleMemory(), Head(13, e);
    StaleHead(e);
    assert m[h] == StaleWord(h) && m[h + 1] == StaleWord(h + 1);
    if e < TOP {
      RingOfNone(m, h);
      assert RingOf(13, StaleLists(), e) == [h];
    } else {
      assert m[POOL] == StaleWord(POOL) && m[POOL + 1] == StaleWord(POOL + 1);
      RingOfOne(m, h, POOL);
      assert RingOf(13, StaleLists(), e) == [h, POOL];
    }
  }

  lemma StaleHead(e: nat)
    requires e < ENTRIES
    ensures var h := Head(13, e); var n := if e < TOP then h else POOL; StaleWord(h) == StaleWord(h + 1) == Ptr(n)
  {
    assert (3 * e) % 3 == 0 && (3 * e + 1) % 3 == 1;
  }

  lemma StaleTags()
    ensures Tags(StaleMemory(), Free)
  {
    forall o: int, k: nat | IsFree(Free, TOP, o, k) || IsLive(Free, TOP, o, k) ensures o == 0 && k == TOP && IsFree(Free, TOP, o, k) {
      SingleLeaf(Free, TOP, o, k);
    }
  }
}
