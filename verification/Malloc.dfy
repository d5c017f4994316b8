/** kernel/mm/malloc.c: the buddy allocator, in place on its pool. */
module Malloc {
  import opened Options
  import opened Powers
  import opened BuddyTree
  import opened CircularList
  import opened BuddyState

  class BuddyAllocator {
    const bsystem: nat            // word index of the bucket table
    const mem: array<Word>        // memory below MALLOC_END, one element per 64-bit word
    const count: array<nat>       // bsystem[e].count
    ghost var tree: Tree          // the blocks
    ghost var lists: Buckets      // the blocks of each bucket, in list order

    ghost predicate Valid()
      reads this, mem, count
    {
      Inv(bsystem, mem[..], count[..], tree, lists)
    }

    /** list_del of the block at position i of bucket e. */
    method Unlist(e: nat, b: nat, ghost i: nat, ghost t: Tree, ghost u: Tree, ghost ls: Buckets)
      requires Listing(bsystem, mem[..], t, ls) && Tags(mem[..], u) && ListedIdle(ls, u)
      requires e < ENTRIES && i < |ls[e]| && b == ls[e][i]
      modifies mem
      ensures FreeNode(t, e, b)
      ensures Listing(bsystem, mem[..], Graft(t, TOP, b - POOL, e, Held), ls[e := Removed(ls[e], i)])
      ensures Tags(mem[..], u) && Untouched(old(mem[..]), mem[..], u) && OnlyLinks(old(mem[..]), mem[..], Blocks(ls), 0)
    {
      Detach(bsystem, mem[..], t, ls, e, i);
      ghost var r := RingOf(bsystem, ls, e);
      UnlinkLinks(bsystem, mem[..], ls, e, Prev(r, i + 1), Next(r, i + 1));
      assert Ring(mem[..], r) && r[i + 1] == b;
      UnlinkIdle(bsystem, mem[..], u, ls, e, Prev(r, i + 1), Next(r, i + 1));
      ListDel(mem, b, r, i + 1);
    }

    /** list_add of the held block b to bucket e. */
    method Enlist(e: nat, b: nat, ghost t: Tree, ghost u: Tree, ghost ls: Buckets)
      requires Listing(bsystem, mem[..], t, ls) && Tags(mem[..], u) && ListedIdle(ls, u)
      requires e < ENTRIES && b >= POOL && Sub(t, TOP, b - POOL, e) == Some(Held)
      requires Sub(u, TOP, b - POOL, e) == Some(Held) || Sub(u, TOP, b - POOL, e) == Some(Free)
      modifies mem
      ensures Listing(bsystem, mem[..], Graft(t, TOP, b - POOL, e, Free), ls[e := [b] + ls[e]])
      ensures Tags(mem[..], u) && Untouched(old(mem[..]), mem[..], u) && ListedIdle(ls[e := [b] + ls[e]], u)
      ensures OnlyLinks(old(mem[..]), mem[..], Blocks(ls[e := [b] + ls[e]]), 0)
      ensures Last(b - POOL, e) < mem.Length && mem[..][Last(b - POOL, e)] == old(mem[..])[Last(b - POOL, e)]
    {
      Attach(bsystem, mem[..], t, ls, e, b);
      LastKept(bsystem, mem[..], t, ls, e, b);
      LinkLinks(bsystem, mem[..], ls, e, b);
      ghost var r := RingOf(bsystem, ls, e);
      assert Ring(mem[..], r);
      LinkIdleWrites(bsystem, mem[..], u, ls, e, Next(r, 0), b, e);
      ListAdd(mem, b, Head(bsystem, e), r);
    }

    /** The bucket's first block: list_first_entry. */
    method First(e: nat) returns (b: nat)
      requires Listing(bsystem, mem[..], tree, lists) && e < ENTRIES && lists[e] != []
      ensures b == lists[e][0] && FreeNode(tree, e, b)
    {
      ghost var r := RingOf(bsystem, lists, e);
      assert Ring(mem[..], r);
      assert LinksAt(mem[..], r, 0);
      RingNode(bsystem, tree, lists, e, 1);
      b := Target(mem[Head(bsystem, e)]);
    }

    /** Store the tag byte of the block b of entry k, which is not live. */
    method SetTag(b: nat, k: nat, tag: nat, ghost t: Tree, ghost u: Tree, ghost ls: Buckets)
      requires Listing(bsystem, mem[..], t, ls) && Tags(mem[..], u)
      requires b >= POOL && IsLeaf(t, TOP, b - POOL, k) && Sub(u, TOP, b - POOL, k) == Some(Held)
      modifies mem
      ensures Listing(bsystem, mem[..], t, ls) && Tags(mem[..], u)
      ensures Untouched(old(mem[..]), mem[..], u) && TagIs(mem[..], b - POOL, k, tag)
      ensures 0 <= Last(b - POOL, k) < mem.Length
      ensures mem[..] == old(mem[..])[Last(b - POOL, k) := SetHi(old(mem[..])[Last(b - POOL, k)], tag)]
    {
      var post := b + Words(k) - 1;
      TagWrite(bsystem, mem[..], t, u, ls, b - POOL, k, post, tag);
      ghost var m1 := mem[..][post := SetHi(mem[..][post], tag)];
      mem[post] := SetHi(mem[post], tag);
      assert mem[..] == m1;
    }

    /** The postambles of the two halves. */
    method TagHalves(left: nat, right: nat, d: nat, ghost u: Tree, ghost v: Tree, ghost w: Tree, ghost ls: Buckets)
      requires d < ENTRIES && left >= POOL && right >= POOL && HalfSteps(u, v, w, left - POOL, right - POOL, d)
      requires Listing(bsystem, mem[..], w, ls) && Tags(mem[..], u)
      modifies mem
      ensures Listing(bsystem, mem[..], w, ls) && Tags(mem[..], w)
      ensures Untouched(old(mem[..]), mem[..], u)
    {
      ghost var m0 := mem[..];
      SetTag(left, d, d, w, u, ls);
      ghost var m1 := mem[..];
      SetTag(right, d, d, w, u, ls);
      UntouchedTrans(m0, m1, mem[..], u);
      HalvesTagged(m1, mem[..], u, v, w, left - POOL, right - POOL, d);
    }

    /** The first block of bucket e leaves its list and becomes two held halves. */
    method UnlistFirst(e: nat) returns (blt: nat)
      requires 0 < e < ENTRIES && Fits(tree, TOP) && NoHeld(tree)
      requires Listing(bsystem, mem[..], tree, lists) && Tags(mem[..], tree) && lists[e] != []
      modifies mem
      ensures blt == lists[e][0] && FreeNode(tree, e, blt)
      ensures var u := Graft(tree, TOP, blt - POOL, e, Node(Held, Held));
              var l1 := lists[e := Removed(lists[e], 0)];
              && Listing(bsystem, mem[..], u, l1) && Tags(mem[..], u) && ListedIdle(l1, u)
              && Untouched(old(mem[..]), mem[..], u)
    {
      ghost var m0 := mem[..];
      blt := First(e);
      MembersIdle(tree, lists);
      Unlist(e, blt, 0, tree, tree, lists);
      Halve(bsystem, mem[..], tree, blt - POOL, e, lists[e := Removed(lists[e], 0)]);
      UntouchedWeaken(m0, mem[..], Graft(tree, TOP, blt - POOL, e, Node(Held, Held)), tree);
    }

    /** The list half of buddy_split; the new blocks still lack their postambles.  w and ls are the blocks and buckets
        it leaves, u and v the steps towards w. */
    method RelinkHalves(e: nat) returns (blt: nat, ghost u: Tree, ghost v: Tree, ghost w: Tree, ghost ls: Buckets)
      requires 0 < e < ENTRIES && Fits(tree, TOP) && NoHeld(tree)
      requires Listing(bsystem, mem[..], tree, lists) && Tags(mem[..], tree) && lists[e] != []
      modifies mem
      ensures blt == lists[e][0] && FreeNode(tree, e, blt) && Sub(tree, TOP, blt - POOL, e).Some?
      ensures w == Graft(tree, TOP, blt - POOL, e, Node(Free, Free)) && ls == SplitLists(lists, e, blt, blt + Words(e - 1))
      ensures HalfSteps(u, v, w, blt - POOL, blt + Words(e - 1) - POOL, e - 1) && LiveIn(tree, u)
      ensures Listing(bsystem, mem[..], w, ls) && Tags(mem[..], u) && Untouched(old(mem[..]), mem[..], u)
    {
      ghost var m0 := mem[..];
      blt := UnlistFirst(e);
      ghost var m1 := mem[..];
      ghost var l1 := lists[e := Removed(lists[e], 0)];
      u, v, w := HalfTrees(tree, blt - POOL, e);
      ls := SplitLists(lists, e, blt, blt + Words(e - 1));
      SplitListsSteps(lists, e, blt, blt + Words(e - 1));
      HalvesLiveIn(tree, blt - POOL, e);
      EnlistHalves(blt, blt + Words(e - 1), e - 1, l1, ls, u, v, w);
      UntouchedTrans(m0, m1, mem[..], u);
    }

    /** list_add of the right half, then of the left. */
    method EnlistHalves(left: nat, right: nat, d: nat, ghost ls: Buckets, ghost ls': Buckets, ghost u: Tree, ghost v: Tree, ghost w: Tree)
      requires d < ENTRIES && left >= POOL && right >= POOL && HalfSteps(u, v, w, left - POOL, right - POOL, d)
      requires Listing(bsystem, mem[..], u, ls) && Tags(mem[..], u) && ListedIdle(ls, u)
      requires var l2 := ls[d := [right] + ls[d]]; ls' == l2[d := [left] + l2[d]]
      modifies mem
      ensures Listing(bsystem, mem[..], w, ls')
      ensures Tags(mem[..], u) && Untouched(old(mem[..]), mem[..], u)
    {
      ghost var m1 := mem[..];
      Enlist(d, right, u, u, ls);
      ghost var m2 := mem[..];
      Enlist(d, left, v, u, ls[d := [right] + ls[d]]);
      UntouchedTrans(m1, m2, mem[..], u);
    }

    /** The stores of buddy_split, to links, counters and postambles; w and ls are the blocks and buckets they leave. */
    method SplitFirst(e: nat) returns (blt: nat, ghost w: Tree, ghost ls: Buckets)
      requires 0 < e < ENTRIES && Fits(tree, TOP) && NoHeld(tree)
      requires Listing(bsystem, mem[..], tree, lists) && Tags(mem[..], tree) && Counted(count[..], lists)
      requires lists[e] != []
      modifies mem, count
      ensures blt == lists[e][0] && FreeNode(tree, e, blt) && Sub(tree, TOP, blt - POOL, e).Some?
      ensures w == Graft(tree, TOP, blt - POOL, e, Node(Free, Free))
      ensures ls == SplitLists(lists, e, blt, blt + Words(e - 1))
      ensures Listing(bsystem, mem[..], w, ls) && Tags(mem[..], w) && Counted(count[..], ls)
      ensures Untouched(old(mem[..]), mem[..], tree)
    {
      ghost var m0 := mem[..];
      ghost var u, v;
      blt, u, v, w, ls := RelinkHalves(e);
      CountHalves(e, blt);
      ghost var m1 := mem[..];
      TagHalves(blt, blt + Words(e - 1), e - 1, u, v, w, ls);
      UntouchedTrans(m0, m1, mem[..], u);
      UntouchedWeaken(m0, mem[..], tree, u);
    }

    /** buddy_split: the first block of bucket e becomes the first two of bucket e - 1. */
    method BuddySplit(e: nat) returns (ghost b: nat)
      requires 0 < e < ENTRIES && Fits(tree, TOP) && NoHeld(tree)
      requires Listing(bsystem, mem[..], tree, lists) && Tags(mem[..], tree) && Counted(count[..], lists)
      requires lists[e] != []
      modifies this, mem, count
      ensures b == old(lists)[e][0] && FreeNode(old(tree), e, b) && Sub(old(tree), TOP, b - POOL, e).Some?
      ensures tree == Graft(old(tree), TOP, b - POOL, e, Node(Free, Free))
      ensures lists == SplitLists(old(lists), e, b, b + Words(e - 1))
      ensures Fits(tree, TOP) && NoHeld(tree)
      ensures Listing(bsystem, mem[..], tree, lists) && Tags(mem[..], tree) && Counted(count[..], lists)
      ensures Untouched(old(mem[..]), mem[..], old(tree))
    {
      var blt;
      ghost var w, ls;
      blt, w, ls := SplitFirst(e);
      SplitShape(tree, blt - POOL, e);
      tree, lists, b := w, ls, blt;
    }

    /** The counters of the two buckets of a split. */
    method CountHalves(e: nat, ghost b: nat)
      requires 0 < e < ENTRIES && Counted(count[..], lists) && lists[e] != []
      modifies count
      ensures Counted(count[..], SplitLists(lists, e, b, b + Words(e - 1)))
    {
      CountSplit(count[..], lists, e, b, b + Words(e - 1));
      ghost var counts := count[..][e := count[e] - 1][e - 1 := count[e - 1] + 2];
      count[e] := count[e] - 1;
      count[e - 1] := count[e - 1] + 2;
      assert count[..] == counts;
    }

    /** The loop over bsystem[entry].count: the first bucket from k up that is not empty. */
    method FindBucket(k: nat) returns (e: nat)
      requires Counted(count[..], lists) && k < ENTRIES
      ensures k <= e <= ENTRIES && (e < ENTRIES ==> lists[e] != [])
      ensures forall j :: k <= j < e ==> lists[j] == []
    {
      e := k;
      while e < ENTRIES && count[e] == 0
        invariant k <= e <= ENTRIES && forall j :: k <= j < e ==> lists[j] == []
      {
        assert count[..][e] == |lists[e]|;
        e := e + 1;
      }
    }

    /** Take the first block of bucket k and write its preamble and postamble. */
    method TakeFirst(k: nat) returns (blt: nat)
      requires k < ENTRIES && Fits(tree, TOP) && NoHeld(tree)
      requires Listing(bsystem, mem[..], tree, lists) && Tags(mem[..], tree) && Counted(count[..], lists)
      requires lists[k] != []
      modifies this, mem, count
      ensures blt == old(lists)[k][0] && FreeNode(old(tree), k, blt)
      ensures tree == Graft(old(tree), TOP, blt - POOL, k, Live) && lists == old(lists)[k := old(lists)[k][1..]]
      ensures Listing(bsystem, mem[..], tree, lists) && Tags(mem[..], tree) && Counted(count[..], lists)
      ensures Untouched(old(mem[..]), mem[..], old(tree))
    {
      ghost var m0, t0 := mem[..], tree;
      blt := First(k);
      ghost var o := blt - POOL;
      MembersIdle(tree, lists);
      Unlist(k, blt, 0, tree, tree, lists);
      assert Removed(lists[k], 0) == lists[k][1..];
      count[k] := count[k] - 1;
      tree, lists := Graft(t0, TOP, o, k, Held), lists[k := lists[k][1..]];
      ghost var m1 := mem[..];
      HoldFree(mem[..], t0, o, k);
      MarkUsed(blt, k, t0);
      UntouchedTrans(m0, m1, mem[..], t0);
    }

    /** *pre = entry and *post = USED. */
    method MarkUsed(blt: nat, k: nat, ghost t0: Tree)
      requires blt >= POOL && IsFree(t0, TOP, blt - POOL, k) && k < ENTRIES
      requires Sub(t0, TOP, blt - POOL, k) == Some(Free)
      requires tree == Graft(t0, TOP, blt - POOL, k, Held) && IsLeaf(tree, TOP, blt - POOL, k)
      requires Sub(tree, TOP, blt - POOL, k) == Some(Held) && LiveIn(t0, tree)
      requires Listing(bsystem, mem[..], tree, lists) && Tags(mem[..], tree)
      modifies `tree, mem
      ensures tree == Graft(t0, TOP, blt - POOL, k, Live)
      ensures Listing(bsystem, mem[..], tree, lists) && Tags(mem[..], tree)
      ensures Untouched(old(mem[..]), mem[..], t0)
    {
      WriteMarks(blt, k);
      UntouchedWeaken(old(mem[..]), mem[..], t0, tree);
      HeldToLive(bsystem, mem[..], t0, blt - POOL, k, lists);
      tree := Graft(t0, TOP, blt - POOL, k, Live);
    }

    /** Both stores, into a block that is neither free nor live. */
    method WriteMarks(blt: nat, k: nat)
      requires blt >= POOL && IsLeaf(tree, TOP, blt - POOL, k) && Sub(tree, TOP, blt - POOL, k) == Some(Held)
      requires Listing(bsystem, mem[..], tree, lists) && Tags(mem[..], tree)
      modifies mem
      ensures Listing(bsystem, mem[..], tree, lists) && Tags(mem[..], tree)
      ensures Untouched(old(mem[..]), mem[..], tree)
      ensures TagIs(mem[..], blt - POOL, k, USED) && PreambleIs(mem[..], blt - POOL, k)
    {
      ghost var m0 := mem[..];
      PreambleWrite(bsystem, m0, tree, lists, blt - POOL, k, blt);
      ghost var m1 := m0[blt := SetLo(m0[blt], k)];
      mem[blt] := SetLo(mem[blt], k);
      assert mem[..] == m1;
      SetTag(blt, k, USED, tree, tree, lists);
      assert mem[..][blt] == m1[blt];
      UntouchedTrans(m0, m1, mem[..], tree);
    }

    /** The invariant inside malloc, while the tree need not be canonical. */
    ghost predicate Working()
      reads this, mem, count
    {
      && Fits(tree, TOP) && NoHeld(tree)
      && Listing(bsystem, mem[..], tree, lists) && Tags(mem[..], tree) && Counted(count[..], lists)
    }

    /** One turn of the splitting loop. */
    method SplitTurn(c: nat, ghost m0: Memory, ghost t0: Tree, ghost ls0: Buckets, ghost e: nat)
      requires 0 < c && Working() && SplitTo(m0, t0, ls0, e, c, mem[..], tree, lists)
      modifies this, mem, count
      ensures Working() && SplitTo(m0, t0, ls0, e, c - 1, mem[..], tree, lists)
    {
      ghost var m1, t1, ls1 := mem[..], tree, lists;
      SplitReady(m0, t0, ls0, e, c, m1, t1, ls1);
      ghost var b := BuddySplit(c);
      SplitStep(m0, t0, ls0, e, c, b, m1, t1, ls1, mem[..], tree, lists);
    }

    /** buddy_split from bucket e down to bucket k. */
    method SplitDown(e: nat, k: nat)
      requires k <= e < ENTRIES && Working() && lists[e] != []
      modifies this, mem, count
      ensures Working()
      ensures SplitTo(old(mem[..]), old(tree), old(lists), e, k, mem[..], tree, lists)
    {
      ghost var m0, t0, ls0 := mem[..], tree, lists;
      SplitStart(mem[..], tree, lists, e);
      var c := e;
      while c > k
        invariant k <= c <= e && Working() && SplitTo(m0, t0, ls0, e, c, mem[..], tree, lists)
      {
        SplitTurn(c, m0, t0, ls0, e);
        c := c - 1;
      }
    }

    /** Cut a block of entry k out of the first block of bucket e. */
    method Carve(e: nat, k: nat) returns (blt: nat)
      requires Valid() && k <= e < ENTRIES && lists[e] != []
      modifies this, mem, count
      ensures Valid() && old(lists)[e] != [] && blt == old(lists)[e][0]
      ensures Carved(old(mem[..]), old(tree), old(lists), e, k, mem[..], tree, lists)
    {
      ghost var m0, t0, ls0 := mem[..], tree, lists;
      CanonicalNoHeld(tree);
      SplitDown(e, k);
      ghost var m1, t1, ls1 := mem[..], tree, lists;
      SplitReady(m0, t0, ls0, e, k, m1, t1, ls1);
      blt := TakeFirst(k);
      CarveFinish(m0, t0, ls0, e, k, m1, t1, ls1, mem[..], tree, lists);
    }

    /** malloc from the search for a bucket on.  None is the out-of-memory panic, which changes nothing; the result
        is the payload's byte address.  The ghost results name the bucket and the block the memory was cut from. */
    method Serve(k: nat) returns (ptr: Option<nat>, ghost e: nat, ghost b: nat)
      requires Valid() && k < ENTRIES
      modifies this, mem, count
      ensures Valid()
      ensures ptr.None? <==> forall j :: k <= j < ENTRIES ==> old(lists)[j] == []
      ensures ptr.None? ==> tree == old(tree) && lists == old(lists) && mem[..] == old(mem[..])
      ensures ptr.Some? ==>
                && k <= e < ENTRIES && old(lists)[e] != [] && b == old(lists)[e][0]
                && (forall j :: k <= j < e ==> old(lists)[j] == [])
                && Carved(old(mem[..]), old(tree), old(lists), e, k, mem[..], tree, lists)
                && ptr.value == 8 * b + 8
    {
      var f := FindBucket(k);
      e, b := f, 0;
      if f == ENTRIES {
        ptr := None;
      } else {
        var blt := Carve(f, k);
        b := blt;
        ptr := Some(8 * blt + 8);
      }
    }

    /** malloc of any uint32_t size. */
    method Allocate(size: nat) returns (r: AllocOutcome, ghost e: nat, ghost b: nat)
      requires Valid() && size < WORD32
      modifies this, mem, count
      ensures Valid()
      ensures r.Endless? <==> Asked(size) > Pow2(31)
      ensures r.OutsideTable? <==> Pow2(TOP + 5) < Asked(size) <= Pow2(31)
      ensures !r.Served? ==> tree == old(tree) && lists == old(lists) && mem[..] == old(mem[..])
      ensures Asked(size) <= Pow2(TOP + 5) ==>
                (r.OutOfMemory? <==> forall j :: Smallest(Asked(size)) <= j < ENTRIES ==> old(lists)[j] == [])
      ensures r.Served? ==>
                var k := Smallest(Asked(size));
                && k <= e < ENTRIES && old(lists)[e] != [] && b == old(lists)[e][0]
                && (forall j :: k <= j < e ==> old(lists)[j] == [])
                && Carved(old(mem[..]), old(tree), old(lists), e, k, mem[..], tree, lists)
                && r.ptr == 8 * b + 8
    {
      e, b := 0, 0;
      var entry, endless := FindEntry(Asked(size));
      if endless {
        r := Endless;
      } else if entry.None? {
        r := OutsideTable;
      } else {
        var ptr;
        ptr, e, b := Serve(entry.value);
        r := if ptr.Some? then Served(ptr.value) else OutOfMemory;
      }
    }

    /** The block x that is being freed leaves its bucket, if an earlier turn of buddy_try_merge put it in one. */
    method HoldBlock(x: nat, c: nat, merged: bool, ghost h: Tree)
      requires c < ENTRIES && Listing(bsystem, mem[..], tree, lists) && Counted(count[..], lists)
      requires x >= POOL && Sub(tree, TOP, x - POOL, c) == Some(if merged then Free else Live)
      requires Tags(mem[..], h) && ListedIdle(lists, h)
      modifies mem, count
      ensures Listing(bsystem, mem[..], Graft(tree, TOP, x - POOL, c, Held), BlockRemoved(lists, c, x, merged))
      ensures Counted(count[..], BlockRemoved(lists, c, x, merged))
      ensures Tags(mem[..], h) && Untouched(old(mem[..]), mem[..], h) && OnlyLinks(old(mem[..]), mem[..], Blocks(lists), 0)
    {
      if merged {
        ghost var i := Position(tree, lists, c, x);
        Unlist(c, x, i, tree, h, lists);
        RemovedIsWithout(lists[c], i, x);
        count[c] := count[c] - 1;
      } else {
        HoldLive(bsystem, mem[..], tree, x - POOL, c, lists);
        assert lists[c := lists[c]] == lists;
      }
    }

    /** The two list_del calls of one turn of buddy_try_merge, and their counts: x and its buddy y. */
    method UnlistPair(x: nat, y: nat, c: nat, merged: bool)
      requires c < TOP && Working() && x >= POOL && y >= POOL
      requires Sub(tree, TOP, x - POOL, c) == Some(if merged then Free else Live)
      requires IsFree(tree, TOP, y - POOL, c) && y - POOL == Buddy(TOP, x - POOL, c)
      modifies mem, count
      ensures Counted(count[..], PairRemoved(lists, c, x, y, merged)) && OnlyLinks(old(mem[..]), mem[..], Blocks(lists), 0)
      ensures var p := Parent(TOP, x - POOL, c);
              && Sub(tree, TOP, p, c + 1).Some?
              && Listing(bsystem, mem[..], Graft(tree, TOP, p, c + 1, Held), PairRemoved(lists, c, x, y, merged))
              && Tags(mem[..], Graft(tree, TOP, p, c + 1, Held))
              && Untouched(old(mem[..]), mem[..], Graft(tree, TOP, p, c + 1, Held))
    {
      ghost var m0, o := mem[..], x - POOL;
      ghost var g := Graft(tree, TOP, o, c, Held);
      HoldPair(m0, tree, o, c, lists);
      ghost var h := Graft(g, TOP, y - POOL, c, Held);
      HoldBlock(x, c, merged, h);
      ghost var m1 := mem[..];
      ghost var l1 := BlockRemoved(lists, c, x, merged);
      HoldIdle(g, l1, y - POOL, c);
      ghost var j := Position(g, l1, c, y);
      Unlist(c, y, j, g, h, l1);
      RemovedIsWithout(l1[c], j, y);
      count[c] := count[c] - 1;
      UntouchedTrans(m0, m1, mem[..], h);
      BlockListed(lists, c, x, merged);
      OnlyTrans(m0, m1, mem[..], Blocks(lists), 0, Blocks(l1), 0, Blocks(lists), 0);
      MergePair(bsystem, m0, mem[..], tree, o, c, PairRemoved(lists, c, x, y, merged));
    }

    /** One merge of buddy_try_merge: x and its buddy y become a block of the next bucket. */
    method MergeTurn(x: nat, y: nat, c: nat, merged: bool) returns (z: nat)
      requires c < TOP && Working() && x >= POOL && y >= POOL
      requires Sub(tree, TOP, x - POOL, c) == Some(if merged then Free else Live)
      requires IsFree(tree, TOP, y - POOL, c) && y - POOL == Buddy(TOP, x - POOL, c)
      modifies this, mem, count
      ensures Working()
      ensures z >= POOL && z - POOL == Parent(TOP, x - POOL, c) && Sub(old(tree), TOP, z - POOL, c + 1).Some?
      ensures tree == Graft(old(tree), TOP, z - POOL, c + 1, Free)
      ensures lists == PairMerged(old(lists), c, x, y, z, merged)
      ensures Untouched(old(mem[..]), mem[..], Graft(old(tree), TOP, z - POOL, c + 1, Held))
      ensures |old(lists)| == ENTRIES
      ensures OnlyLinks(old(mem[..]), mem[..], Blocks(With(old(lists), c + 1, z)), Last(z - POOL, c + 1))
    {
      ghost var m0, t0, p := mem[..], tree, Parent(TOP, x - POOL, c);
      ghost var ls0 := lists;
      BuddyApart(t0, TOP, x - POOL, c, Held);
      UnlistPair(x, y, c, merged);
      z := if x < y then x else y;
      ghost var m1 := mem[..];
      ghost var u := Graft(t0, TOP, p, c + 1, Held);
      GraftSub(t0, TOP, p, c + 1, Held);
      tree, lists := u, PairRemoved(lists, c, x, y, merged);
      ListTagged(z, c + 1);
      UntouchedTrans(m0, m1, mem[..], u);
      PairListed(ls0, c, x, y, z, merged);
      OnlyTrans(m0, m1, mem[..], Blocks(ls0), 0, Blocks(With(PairRemoved(ls0, c, x, y, merged), c + 1, z)), Last(z - POOL, c + 1),
                Blocks(With(ls0, c + 1, z)), Last(z - POOL, c + 1));
      GraftGraft(t0, TOP, p, c + 1, Held, Free);
      GraftFits(t0, TOP, p, c + 1, Free);
      GraftNoHeld(t0, TOP, p, c + 1, Free);
    }

    /** Tag the held block z as free and list it. */
    method ListTagged(z: nat, d: nat)
      requires d <= TOP && z >= POOL && Sub(tree, TOP, z - POOL, d) == Some(Held)
      requires Listing(bsystem, mem[..], tree, lists) && Tags(mem[..], tree) && Counted(count[..], lists)
      modifies this, mem, count
      ensures Sub(old(tree), TOP, z - POOL, d).Some? && tree == Graft(old(tree), TOP, z - POOL, d, Free)
      ensures |old(lists)| == ENTRIES && lists == old(lists)[d := [z] + old(lists)[d]]
      ensures Listing(bsystem, mem[..], tree, lists) && Tags(mem[..], tree) && Counted(count[..], lists)
      ensures Untouched(old(mem[..]), mem[..], old(tree))
      ensures OnlyLinks(old(mem[..]), mem[..], Blocks(With(old(lists), d, z)), Last(z - POOL, d))
    {
      TagEnlist(z, d);
      CountMore(count[..], lists, d, z);
      ghost var counts := count[..][d := count[d] + 1];
      count[d] := count[d] + 1;
      assert count[..] == counts;
      tree, lists := Graft(tree, TOP, z - POOL, d, Free), lists[d := [z] + lists[d]];
    }

    /** *post = d and list_add. */
    method TagEnlist(z: nat, d: nat)
      requires d <= TOP && z >= POOL && Sub(tree, TOP, z - POOL, d) == Some(Held)
      requires Listing(bsystem, mem[..], tree, lists) && Tags(mem[..], tree)
      modifies mem
      ensures Listing(bsystem, mem[..], Graft(tree, TOP, z - POOL, d, Free), lists[d := [z] + lists[d]])
      ensures Tags(mem[..], Graft(tree, TOP, z - POOL, d, Free))
      ensures Untouched(old(mem[..]), mem[..], tree)
      ensures |lists| == ENTRIES && OnlyLinks(old(mem[..]), mem[..], Blocks(With(lists, d, z)), Last(z - POOL, d))
    {
      ghost var m0 := mem[..];
      SetTag(z, d, d, tree, tree, lists);
      ghost var m1 := mem[..];
      MembersIdle(tree, lists);
      Enlist(d, z, tree, tree, lists);
      UntouchedTrans(m0, m1, mem[..], tree);
      TagLinks(m0, m1, mem[..], Blocks(With(lists, d, z)), Last(z - POOL, d));
      TagsGraft(mem[..], tree, z - POOL, d, Free);
    }

    /** The test of buddy_try_merge: one byte, at the end of the buddy's region, decides. */
    method BuddyIsFree(x: nat, c: nat) returns (y: nat, free: bool)
      requires c < TOP && Working() && x >= POOL && Sub(tree, TOP, x - POOL, c).Some?
      ensures y >= POOL && y - POOL == Buddy(TOP, x - POOL, c)
      ensures free <==> IsFree(tree, TOP, y - POOL, c)
    {
      var addr := 8 * (x - POOL);
      XorIsBuddy(tree, TOP, x - POOL, c);
      BuddyApart(tree, TOP, x - POOL, c, Held);
      EndTag(mem[..], tree, Buddy(TOP, x - POOL, c), c);
      addr := Xor(addr, 8 * Words(c));
      y := POOL + addr / 8;
      free := Hi(mem[y + Words(c) - 1]) == c;
    }

    /** buddy_try_merge. */
    method TryMerge(blt: nat, k: nat) returns (mergeCount: nat)
      requires Valid() && blt >= POOL && k <= TOP && Sub(tree, TOP, blt - POOL, k) == Some(Live)
      modifies this, mem, count
      ensures Working() && Sub(old(tree), TOP, blt - POOL, k).Some? && |old(lists)| == ENTRIES
      ensures MergeDone(old(mem[..]), old(tree), old(lists), blt, k, mergeCount > 0, mem[..], tree, lists)
      ensures LeftFirst(old(tree), blt, k) ==> mergeCount > 0 && LooksFreed(mem[..], blt)
    {
      ghost var m0, t0, ls0 := mem[..], tree, lists;
      CanonicalNoHeld(tree);
      mergeCount := 0;
      var entry, x := k, blt;
      MergeStart(m0, t0, ls0, blt, k);
      if count[entry] == 0 {
        assert count[..][k] == |lists[k]|;
        NoFreeBuddy(t0, ls0, blt - POOL, k);
        MergeStop(m0, t0, ls0, blt, k, x, entry, false, mem[..], tree, lists);
        return;
      }
      while entry < TOP
        invariant k <= entry <= TOP && Working()
        invariant MergeTo(m0, t0, ls0, blt, k, x, entry, mergeCount > 0, mem[..], tree, lists)
        invariant Marching(mem[..], t0, blt, k, x, entry, mergeCount > 0)
      {
        var z, free := MergeOnce(x, entry, mergeCount > 0, m0, t0, ls0, blt, k);
        if !free {
          MarchEnd(mem[..], t0, blt, k, x, entry, mergeCount > 0);
          return;
        }
        x, entry, mergeCount := z, entry + 1, mergeCount + 1;
      }
      MarchEnd(mem[..], t0, blt, k, x, entry, mergeCount > 0);
      MergeStop(m0, t0, ls0, blt, k, x, entry, mergeCount > 0, mem[..], tree, lists);
    }

    /** One turn of buddy_try_merge: merge with the buddy, or stop because it is not free. */
    method MergeOnce(x: nat, entry: nat, merged: bool, ghost m0: Memory, ghost t0: Tree, ghost ls0: Buckets, ghost b: nat, ghost k: nat)
        returns (z: nat, free: bool)
      requires entry < TOP && Working() && MergeTo(m0, t0, ls0, b, k, x, entry, merged, mem[..], tree, lists)
      modifies this, mem, count
      ensures Working()
      ensures free ==> MergeTo(m0, t0, ls0, b, k, z, entry + 1, true, mem[..], tree, lists)
      ensures !free ==> b >= POOL && k <= TOP && Sub(t0, TOP, b - POOL, k).Some? && |ls0| == ENTRIES
      ensures !free ==> MergeDone(m0, t0, ls0, b, k, merged, mem[..], tree, lists)
      ensures !free ==> mem[..] == old(mem[..]) && (LeftFirst(t0, b, k) ==> merged)
      ensures free && Marching(old(mem[..]), t0, b, k, x, entry, merged) ==> Marching(mem[..], t0, b, k, z, entry + 1, true)
    {
      ghost var m1, t1, ls1 := mem[..], tree, lists;
      var y: nat;
      y, free := BuddyIsFree(x, entry);
      z := x;
      if free {
        z := MergeTurn(x, y, entry, merged);
        MergeStep(m0, t0, ls0, b, k, x, y, z, entry, merged, m1, t1, ls1, mem[..], tree, lists);
        March(bsystem, t0, t1, ls1, m1, mem[..], tree, b, k, x, y, z, entry, merged);
      } else {
        MergeStop(m0, t0, ls0, b, k, x, entry, merged, mem[..], tree, lists);
      }
    }

    /** Nothing merged: the freed block goes to its own bucket. */
    method ListAlone(b: nat, k: nat)
      requires b >= POOL && k <= TOP && Sub(tree, TOP, b - POOL, k) == Some(Live)
      requires Listing(bsystem, mem[..], tree, lists) && Tags(mem[..], tree) && Counted(count[..], lists)
      modifies this, mem, count
      ensures Sub(old(tree), TOP, b - POOL, k).Some? && tree == Graft(old(tree), TOP, b - POOL, k, Free)
      ensures |old(lists)| == ENTRIES && lists == old(lists)[k := [b] + old(lists)[k]]
      ensures Listing(bsystem, mem[..], tree, lists) && Tags(mem[..], tree) && Counted(count[..], lists)
      ensures Untouched(old(mem[..]), mem[..], Graft(old(tree), TOP, b - POOL, k, Held))
    {
      HoldLive(bsystem, mem[..], tree, b - POOL, k, lists);
      DropLive(mem[..], tree, b - POOL, k);
      GraftGraft(tree, TOP, b - POOL, k, Held, Free);
      tree := Graft(tree, TOP, b - POOL, k, Held);
      ListTagged(b, k);
    }

    /** buddy_try_merge, and the block's own bucket if nothing merged. */
    method Return(b: nat, k: nat)
      requires Valid() && b >= POOL && k <= TOP && Sub(tree, TOP, b - POOL, k) == Some(Live)
      modifies this, mem, count
      ensures Working() && Sub(old(tree), TOP, b - POOL, k).Some? && |old(lists)| == ENTRIES
      ensures tree == Release(old(tree), TOP, b - POOL, k) && lists == ReleaseLists(old(tree), old(lists), b, k)
      ensures Untouched(old(mem[..]), mem[..], Graft(old(tree), TOP, b - POOL, k, Held))
      ensures LeftFirst(old(tree), b, k) ==> LooksFreed(mem[..], b)
    {
      var merged := TryMerge(b, k);
      if merged == 0 {
        GraftNoHeld(tree, TOP, b - POOL, k, Free);
        GraftFits(tree, TOP, b - POOL, k, Free);
        ListAlone(b, k);
      }
    }

    /** The two bytes that free reads of the block at word b, and whether it prints the double-free message. */
    method ReadMarks(ptr: nat, ghost b: nat) returns (entry: nat, doubleFree: bool)
      requires ptr == 8 * b + 8 && Marked(mem[..], b)
      ensures entry == Lo(mem[..][b]) && (doubleFree <==> LooksFreed(mem[..], b))
    {
      var addr := (ptr - 8) / 8;
      assert addr == b;
      entry := Lo(mem[addr]);
      doubleFree := Hi(mem[addr + Words(entry) - 1]) != USED;
    }

    /** free of the block at word b: a live block, or one whose marks do not look live.  The result says whether the
        double-free message is printed. */
    method Deallocate(ptr: nat, ghost b: nat, ghost k: nat) returns (doubleFree: bool)
      requires Valid() && b >= POOL && ptr == 8 * b + 8
      requires IsLive(tree, TOP, b - POOL, k) || LooksFreed(mem[..], b)
      modifies this, mem, count
      ensures Valid()
      ensures doubleFree <==> !old(IsLive(tree, TOP, b - POOL, k))
      ensures doubleFree ==> tree == old(tree) && lists == old(lists) && mem[..] == old(mem[..])
      ensures !doubleFree ==>
                && k <= TOP && |old(lists)| == ENTRIES && Sub(old(tree), TOP, b - POOL, k).Some?
                && tree == Release(old(tree), TOP, b - POOL, k)
                && lists == ReleaseLists(old(tree), old(lists), b, k)
                && Untouched(old(mem[..]), mem[..], Graft(old(tree), TOP, b - POOL, k, Held))
      ensures !doubleFree && LeftFirst(old(tree), b, k) ==> LooksFreed(mem[..], b)
    {
      MarksTell(mem[..], tree, b, k);
      var entry;
      entry, doubleFree := ReadMarks(ptr, b);
      if !doubleFree {
        FreeBlock((ptr - 8) / 8, entry);
      }
    }

    /** A block that merged with the block on its left when it was freed: freeing it again is announced and changes nothing. */
    method FreeTwice(ptr: nat, ghost b: nat, ghost k: nat) returns (first: bool, second: bool)
      requires Valid() && b >= POOL && ptr == 8 * b + 8 && IsLive(tree, TOP, b - POOL, k) && LeftFirst(tree, b, k)
      modifies this, mem, count
      ensures Valid() && !first && second
      ensures k <= TOP && Sub(old(tree), TOP, b - POOL, k).Some? && tree == Release(old(tree), TOP, b - POOL, k)
    {
      ghost var t0 := tree;
      first := Deallocate(ptr, b, k);
      assert !IsLive(tree, TOP, b - POOL, k) by {
        ReleaseLive(t0, TOP, b - POOL, k, b - POOL, k);
      }
      second := Deallocate(ptr, b, k);
    }

    /** The rest of free, for a live block. */
    method FreeBlock(b: nat, k: nat)
      requires Valid() && b >= POOL && k <= TOP && Sub(tree, TOP, b - POOL, k) == Some(Live)
      modifies this, mem, count
      ensures Valid() && |old(lists)| == ENTRIES && Sub(old(tree), TOP, b - POOL, k).Some?
      ensures tree == Release(old(tree), TOP, b - POOL, k)
      ensures lists == ReleaseLists(old(tree), old(lists), b, k)
      ensures Untouched(old(mem[..]), mem[..], Graft(old(tree), TOP, b - POOL, k, Held))
      ensures LeftFirst(old(tree), b, k) ==> LooksFreed(mem[..], b)
    {
      ReleaseCanonical(tree, TOP, b - POOL, k);
      Return(b, k);
    }

    /** A client writes word j of its live block; the last byte of the block is not part of the payload. */
    method ClientWrite(b: nat, j: nat, v: Word, ghost k: nat)
      requires Valid() && b >= POOL && IsLive(tree, TOP, b - POOL, k)
      requires 1 <= j < Words(k) && b + j < mem.Length && (j == Words(k) - 1 ==> Hi(v) == Hi(mem[b + j]))
      modifies mem
      ensures Valid() && mem[..] == old(mem[..])[b + j := v]
      ensures forall o': int, k': nat :: IsLive(tree, TOP, o', k') && (o', k') != (b - POOL, k) ==> SameBlock(old(mem[..]), mem[..], o', k')
    {
      PayloadWrite(bsystem, mem[..], tree, lists, b - POOL, k, b + j, v);
      mem[b + j] := v;
    }

    /** free undoes malloc exactly: not only the free words but the blocks they form come back. */
    method RoundTrip(size: nat) returns (served: bool)
      requires Valid() && size < WORD32
      modifies this, mem, count
      ensures Valid() && tree == old(tree)
      ensures Untouched(old(mem[..]), mem[..], old(tree))
    {
      ghost var m0, t0, ls0 := mem[..], tree, lists;
      var r, e, b := Allocate(size);
      served := r.Served?;
      if served {
        ghost var m1 := mem[..];
        CarvedReleased(m0, t0, ls0, e, Smallest(Asked(size)), b, m1, tree, lists);
        Restore(r.ptr, b, Smallest(Asked(size)), t0);
        UntouchedTrans(m0, m1, mem[..], t0);
      }
    }

    /** Free a block whose release gives the tree t back. */
    method Restore(ptr: nat, ghost b: nat, ghost k: nat, ghost t: Tree)
      requires Valid() && b >= POOL && ptr == 8 * b + 8 && Sub(tree, TOP, b - POOL, k) == Some(Live)
      requires Release(tree, TOP, b - POOL, k) == t && LiveIn(t, Graft(tree, TOP, b - POOL, k, Held))
      modifies this, mem, count
      ensures Valid() && tree == t && Untouched(old(mem[..]), mem[..], t)
    {
      ghost var m0, h := mem[..], Graft(tree, TOP, b - POOL, k, Held);
      var doubleFree := Deallocate(ptr, b, k);
      UntouchedWeaken(m0, mem[..], t, h);
    }

    /** A block that does not merge is the next one of its order: malloc of a request of that order returns it again. */
    method Reuse(ptr: nat, size: nat, ghost b: nat, ghost k: nat) returns (r: AllocOutcome)
      requires Valid() && b >= POOL && ptr == 8 * b + 8 && IsLive(tree, TOP, b - POOL, k)
      requires k < TOP ==> !IsFree(tree, TOP, Buddy(TOP, b - POOL, k), k)
      requires size < WORD32 && Asked(size) <= Pow2(TOP + 5) && Smallest(Asked(size)) == k
      modifies this, mem, count
      ensures Valid() && r == Served(ptr) && lists == old(lists)
    {
      ghost var ls0 := lists;
      var doubleFree := Deallocate(ptr, b, k);
      r := AllocateFirst(size, b, k);
      TakenBack(ls0, k, b);
    }

    /** malloc takes the first block of the bucket it asks for. */
    method AllocateFirst(size: nat, ghost b: nat, ghost k: nat) returns (r: AllocOutcome)
      requires Valid() && size < WORD32 && Asked(size) <= Pow2(TOP + 5) && Smallest(Asked(size)) == k
      requires k < |lists| && lists[k] != [] && lists[k][0] == b
      modifies this, mem, count
      ensures Valid() && r == Served(8 * b + 8) && lists == old(lists)[k := old(lists)[k][1..]]
    {
      ghost var ls0 := lists;
      Pow2Monotone(TOP + 5, 31);
      ghost var e, x;
      r, e, x := Allocate(size);
      assert e == k;
      CarveSame(ls0, k, b);
    }

    /** The loop of malloc_init: every bucket is empty. */
    method InitBuckets()
      requires bsystem + 3 * ENTRIES <= mem.Length && count.Length == ENTRIES
      modifies mem, count
      ensures forall e :: 0 <= e < ENTRIES ==> count[e] == 0 && Ring(mem[..], [Head(bsystem, e)])
    {
      var i := 0;
      while i < ENTRIES
        invariant i <= ENTRIES
        invariant forall e :: 0 <= e < i ==> count[e] == 0 && Ring(mem[..], [Head(bsystem, e)])
      {
        ghost var m0 := mem[..];
        InitListHead(mem, Head(bsystem, i));
        count[i] := 0;
        forall e | 0 <= e < i ensures Ring(mem[..], [Head(bsystem, e)]) {
          RingFrame(m0, mem[..], [Head(bsystem, e)]);
        }
        i := i + 1;
      }
    }

    /** After the loop the buckets describe a pool that is one held block. */
    method EmptyBuckets()
      requires bsystem + 3 * ENTRIES <= POOL && mem.Length == POOL + Words(TOP) && count.Length == ENTRIES
      modifies this`lists, mem, count
      ensures Listing(bsystem, mem[..], Held, lists) && Tags(mem[..], Held) && Counted(count[..], lists)
    {
      InitBuckets();
      lists := seq(ENTRIES, j => []);
      EmptyPool(bsystem, mem[..], lists);
    }

    /** malloc_init on a pool with arbitrary contents. */
    constructor (bs: nat)
      requires bs + 3 * ENTRIES <= POOL
      ensures Valid() && tree == BuddyTree.Free && bsystem == bs && fresh(mem) && fresh(count)
    {
      bsystem := bs;
      mem := new Word[POOL + Words(TOP)];
      count := new nat[ENTRIES];
      tree := Held;
      new;
      EmptyBuckets();
      ListTagged(POOL, TOP);
    }
  }

  /** list_add keeps the last word of the block it lists. */
  lemma LastKept(bs: nat, m: Memory, t: Tree, ls: Buckets, e: nat, b: nat)
    requires Members(t, ls) && bs + 3 * ENTRIES <= POOL && e < ENTRIES && b >= POOL && Sub(t, TOP, b - POOL, e) == Some(Held)
    requires Last(b - POOL, e) < |m|
    requires var r := RingOf(bs, ls, e); b + 1 < |m| && r[0] + 1 < |m| && r[Next(r, 0)] + 1 < |m|
    ensures var r := RingOf(bs, ls, e); Linked(m, b, r[0], r[Next(r, 0)])[Last(b - POOL, e)] == m[Last(b - POOL, e)]
  {
    var r := RingOf(bs, ls, e);
    RingNode(bs, t, ls, e, Next(r, 0));
    if |ls[e]| > 0 { FreeLinksOutside(t, b - POOL, e, Last(b - POOL, e), e, ls[e][0]); }
  }

  /** What storing a tag byte keeps. */
  lemma TagWrite(bs: nat, m: Memory, t: Tree, u: Tree, ls: Buckets, o: int, k: nat, w: nat, tag: nat)
    requires Listing(bs, m, t, ls) && Tags(m, u)
    requires IsLeaf(t, TOP, o, k) && Sub(u, TOP, o, k) == Some(Held) && w == Last(o, k)
    ensures w < |m|
    ensures var m' := m[w := SetHi(m[w], tag)];
            Listing(bs, m', t, ls) && Tags(m', u) && Untouched(m, m', u) && TagIs(m', o, k, tag)
  {
    SubBounds(t, TOP, o, k);
    LeafWordNotLink(bs, t, o, k, w);
    LinkIdle(u, o, k, w);
    ListingWrite(bs, m, t, ls, w, SetHi(m[w], tag));
    WriteIdle(m, m[w := SetHi(m[w], tag)], u);
  }

  /** The second postamble stored, both halves are tagged. */
  lemma HalvesTagged(m1: Memory, m: Memory, u: Tree, v: Tree, w: Tree, o: int, h: int, d: nat)
    requires HalfSteps(u, v, w, o, h, d) && Tags(m, u) && TagIs(m1, o, d, d) && TagIs(m, h, d, d)
    requires 0 <= Last(h, d) < |m1| && m == m1[Last(h, d) := SetHi(m1[Last(h, d)], d)]
    ensures Tags(m, w)
  {
    TagsGraft(m, u, h, d, Free);
    TagsGraft(m, v, o, d, Free);
  }

  /** What storing a preamble byte keeps. */
  lemma PreambleWrite(bs: nat, m: Memory, t: Tree, ls: Buckets, o: int, k: nat, w: nat)
    requires Listing(bs, m, t, ls) && Tags(m, t) && IsLeaf(t, TOP, o, k) && Sub(t, TOP, o, k) == Some(Held)
    requires w == POOL + o
    ensures w < |m|
    ensures var m' := m[w := SetLo(m[w], k)]; Listing(bs, m', t, ls) && Tags(m', t) && Untouched(m, m', t)
  {
    SubBounds(t, TOP, o, k);
    LeafWordNotLink(bs, t, o, k, w);
    LinkIdle(t, o, k, w);
    ListingWrite(bs, m, t, ls, w, SetLo(m[w], k));
    WriteIdle(m, m[w := SetLo(m[w], k)], t);
  }

  lemma CountMore(count: seq<nat>, ls: Buckets, d: nat, z: nat)
    requires Counted(count, ls) && d < ENTRIES
    ensures Counted(count[d := count[d] + 1], ls[d := [z] + ls[d]])
  {
  }

  lemma CountSplit(count: seq<nat>, ls: Buckets, e: nat, b: nat, c: nat)
    requires Counted(count, ls) && 0 < e < ENTRIES && ls[e] != []
    ensures count[e] > 0 && Counted(count[e := count[e] - 1][e - 1 := count[e - 1] + 2], SplitLists(ls, e, b, c))
  {
  }

  /** Before the first block is listed: one held block, empty buckets. */
  lemma EmptyPool(bs: nat, m: Memory, ls: Buckets)
    requires |m| == POOL + Words(TOP) && bs + 3 * ENTRIES <= POOL
    requires |ls| == ENTRIES && forall e :: 0 <= e < ENTRIES ==> ls[e] == [] && Ring(m, [Head(bs, e)])
    ensures Listing(bs, m, Held, ls) && Tags(m, Held)
  {
    forall e | 0 <= e < ENTRIES ensures Ring(m, RingOf(bs, ls, e)) {
      assert RingOf(bs, ls, e) == [Head(bs, e)];
    }
  }

  lemma PayloadWrite(bs: nat, m: Memory, t: Tree, ls: Buckets, o: int, k: nat, w: nat, v: Word)
    requires Listing(bs, m, t, ls) && Tags(m, t) && IsLive(t, TOP, o, k)
    requires POOL + o < w <= Last(o, k) && w < |m| && (w == Last(o, k) ==> Hi(v) == Hi(m[w]))
    ensures Listing(bs, m[w := v], t, ls) && Tags(m[w := v], t)
    ensures forall o': int, k': nat :: IsLive(t, TOP, o', k') && (o', k') != (o, k) ==> SameBlock(m, m[w := v], o', k')
  {
    LeafWordNotLink(bs, t, o, k, w);
    ListingWrite(bs, m, t, ls, w, v);
    var m' := m[w := v];
    forall o': int, k': nat | IsFree(t, TOP, o', k') ensures TagIs(m', o', k', k') {
      assert TagIs(m, o', k', k');
      PayloadLeaf(m, t, o, k, w, v, o', k', k');
    }
    forall o': int, k': nat | IsLive(t, TOP, o', k')
      ensures TagIs(m', o', k', USED) && PreambleIs(m', o', k')
      ensures (o', k') != (o, k) ==> SameBlock(m, m', o', k')
    {
      assert TagIs(m, o', k', USED) && PreambleIs(m, o', k');
      PayloadLeaf(m, t, o, k, w, v, o', k', USED);
    }
  }

  /** One leaf after the write: its marks, and all its words if it is another block's. */
  lemma PayloadLeaf(m: Memory, t: Tree, o: int, k: nat, w: nat, v: Word, o': int, k': nat, tag: nat)
    requires IsLive(t, TOP, o, k) && IsLeaf(t, TOP, o', k') && TagIs(m, o', k', tag)
    requires POOL + o < w <= Last(o, k) && w < |m| && (w == Last(o, k) ==> Hi(v) == Hi(m[w]))
    ensures TagIs(m[w := v], o', k', tag) && (PreambleIs(m, o', k') ==> PreambleIs(m[w := v], o', k'))
    ensures (o', k') != (o, k) ==> SameBlock(m, m[w := v], o', k')
  {
    LeafApart(t, TOP, o, k, o', k');
  }

  /** The block malloc cut out is live, and releasing it brings back the blocks. */
  lemma CarvedReleased(m0: Memory, t0: Tree, ls0: Buckets, e: nat, k: nat, b: nat, m: Memory, t: Tree, ls: Buckets)
    requires Fits(t0, TOP) && Canonical(t0) && Carved(m0, t0, ls0, e, k, m, t, ls) && b == ls0[e][0]
    ensures b >= POOL && Sub(t, TOP, b - POOL, k) == Some(Live) && Release(t, TOP, b - POOL, k) == t0
    ensures LiveIn(t0, Graft(t, TOP, b - POOL, k, Held)) && Untouched(m0, m, t0)
  {
    var o := b - POOL;
    CarveRelease(t0, TOP, o, e, k);
    CarveLive(t0, TOP, o, e, k, o, k);
    CarvedLiveIn(t0, t, o, e, k);
  }

  lemma CarvedLiveIn(t: Tree, u: Tree, o: int, e: nat, k: nat)
    requires IsFree(t, TOP, o, e) && k <= e && Sub(t, TOP, o, e).Some? && u == Graft(t, TOP, o, e, Spine(e, k, Live))
    ensures Sub(u, TOP, o, k).Some? && LiveIn(t, Graft(u, TOP, o, k, Held))
  {
    CarveLive(t, TOP, o, e, k, o, k);
    forall o': int, k': nat | IsLive(t, TOP, o', k') ensures IsLive(Graft(u, TOP, o, k, Held), TOP, o', k') {
      CarveLive(t, TOP, o, e, k, o', k');
      GraftLeaf(u, TOP, o, k, Held, o', k', Live);
      LeafApart(t, TOP, o, e, o', k');
      LeafApart(u, TOP, o, k, o', k');
    }
  }

  /** What free reads at the block at word b: an entry, and the last byte of a block of that entry. */
  predicate Marked(m: Memory, b: nat) { b < |m| && Lo(m[b]) < ENTRIES && b + Words(Lo(m[b])) <= |m| }

  predicate LooksLive(m: Memory, b: nat) { Marked(m, b) && Hi(m[b + Words(Lo(m[b])) - 1]) == USED }

  predicate LooksFreed(m: Memory, b: nat) { Marked(m, b) && Hi(m[b + Words(Lo(m[b])) - 1]) != USED }

  /** A live block starts at offset o. */
  ghost predicate LiveAt(t: Tree, o: int) { exists k: nat :: IsLive(t, TOP, o, k) }

  /** The double-free message is right about a block exactly when the block is live or its marks look freed. */
  lemma MessageExactly(m: Memory, t: Tree, b: nat)
    requires Tags(m, t) && b >= POOL && Marked(m, b)
    ensures (LooksFreed(m, b) <==> !LiveAt(t, b - POOL)) <==> (LiveAt(t, b - POOL) || LooksFreed(m, b))
  {
    if LiveAt(t, b - POOL) {
      var k: nat :| IsLive(t, TOP, b - POOL, k);
      MarksTell(m, t, b, k);
    }
  }

  /** A live block looks live, whatever its owner wrote into it. */
  lemma MarksTell(m: Memory, t: Tree, b: nat, k: nat)
    requires Tags(m, t) && b >= POOL && (IsLive(t, TOP, b - POOL, k) || LooksFreed(m, b))
    ensures IsLive(t, TOP, b - POOL, k) <==> LooksLive(m, b)
    ensures IsLive(t, TOP, b - POOL, k) ==> k <= TOP && Lo(m[b]) == k
  {
    if IsLive(t, TOP, b - POOL, k) {
      LiveTags(m, t, b - POOL, k);
    }
  }

  /** Where free reads, a live block has its entry and USED. */
  lemma LiveTags(m: Memory, t: Tree, o: int, k: nat)
    requires Tags(m, t) && Sub(t, TOP, o, k) == Some(Live)
    ensures k <= TOP && 0 <= POOL + o < |m| && Lo(m[POOL + o]) == k
    ensures 0 <= Last(o, k) < |m| && Hi(m[Last(o, k)]) == USED
  {
    SubBounds(t, TOP, o, k);
    assert IsLive(t, TOP, o, k) && TagIs(m, o, k, USED) && PreambleIs(m, o, k);
  }

  lemma DropLive(m: Memory, t: Tree, o: int, k: nat)
    requires Tags(m, t) && Sub(t, TOP, o, k).Some?
    ensures Tags(m, Graft(t, TOP, o, k, Held)) && Sub(Graft(t, TOP, o, k, Held), TOP, o, k) == Some(Held)
  {
    forall o': int, k': nat ensures !IsLive(Held, k, o', k') && !IsFree(Held, k, o', k') {
    }
    TagsHold(m, t, o, k, Held);
    GraftSub(t, TOP, o, k, Held);
  }

  /** Where buddy_try_merge has got to: the freed block (b, k) has become (x, c). */
  ghost predicate MergeTo(m0: Memory, t0: Tree, ls0: Buckets, b: nat, k: nat, x: nat, c: nat, merged: bool,
                          m: Memory, t: Tree, ls: Buckets)
  {
    && MergeAt(t0, ls0, b, k, x, c, merged, t, ls)
    && (!merged ==> m == m0)
    && Untouched(m0, m, Graft(t0, TOP, b - POOL, k, Held))
    && LiveIn(Graft(t0, TOP, b - POOL, k, Held), Graft(t, TOP, x - POOL, c, Held))
  }

  /** The blocks and the buckets at that point. */
  ghost predicate MergeAt(t0: Tree, ls0: Buckets, b: nat, k: nat, x: nat, c: nat, merged: bool, t: Tree, ls: Buckets) {
    && b >= POOL && x >= POOL && c <= TOP && |ls0| == |ls| == ENTRIES
    && Sub(t0, TOP, b - POOL, k) == Some(Live) && k <= TOP && Sub(t0, TOP, x - POOL, c).Some?
    && (!merged ==> (x, c) == (b, k) && t == t0 && ls == ls0)
    && (merged ==> t == Graft(t0, TOP, x - POOL, c, Free) && ls[c] != [] && ls[c][0] == x)
    && Sub(t, TOP, x - POOL, c) == Some(if merged then Free else Live)
    && Release(t0, TOP, b - POOL, k) == Release(t0, TOP, x - POOL, c)
    && ReleaseLists(t0, ls0, b, k) == ReleaseLists(t0, BlockRemoved(ls, c, x, merged), x, c)
  }

  /** The first merge of the block (b, k) is with the block on its left. */
  predicate LeftFirst(t: Tree, b: nat, k: nat) {
    b >= POOL && k < TOP && IsFree(t, TOP, Buddy(TOP, b - POOL, k), k) && Buddy(TOP, b - POOL, k) < b - POOL
  }

  /** The freed block (b, k) lies inside (x, c), not at its start; its preamble is as it was, its last byte an entry. */
  ghost predicate Buried(m: Memory, b: nat, k: nat, x: nat, c: nat) {
    && k < c <= TOP && x + Words(k) <= b && b + Words(k) <= x + Words(c) && b + Words(k) <= |m|
    && Lo(m[b]) == k && Hi(m[b + Words(k) - 1]) <= TOP
  }

  /** On the way up, after the first turn: the block is buried if its first merge was to the left. */
  ghost predicate Marching(m: Memory, t0: Tree, b: nat, k: nat, x: nat, c: nat, merged: bool) {
    LeftFirst(t0, b, k) ==> if merged then Buried(m, b, k, x, c) else c < TOP
  }

  lemma MarchEnd(m: Memory, t0: Tree, b: nat, k: nat, x: nat, c: nat, merged: bool)
    requires Marching(m, t0, b, k, x, c, merged) && (LeftFirst(t0, b, k) ==> merged || c == TOP)
    ensures LeftFirst(t0, b, k) ==> merged && LooksFreed(m, b)
  {
  }

  lemma March(bs: nat, t0: Tree, t: Tree, ls: Buckets, m: Memory, m': Memory, t': Tree, b: nat, k: nat, x: nat, y: nat, z: nat,
              c: nat, merged: bool)
    requires c < TOP && x >= POOL && y >= POOL && z >= POOL && Tags(m, t) && Members(t, ls)
    requires Sub(t, TOP, x - POOL, c) == Some(if merged then Free else Live) && (!merged ==> x == b && c == k)
    requires y - POOL == Buddy(TOP, x - POOL, c) && z - POOL == Parent(TOP, x - POOL, c)
    requires OnlyLinks(m, m', Blocks(With(ls, c + 1, z)), Last(z - POOL, c + 1))
    requires Tags(m', t') && IsFree(t', TOP, z - POOL, c + 1)
    ensures Marching(m, t0, b, k, x, c, merged) ==> Marching(m', t0, b, k, z, c + 1, true)
  {
    if LeftFirst(t0, b, k) && Marching(m, t0, b, k, x, c, merged) {
      BuryReady(t, m', t', x, y, z, c);
      Bury(bs, t, ls, m, m', b, k, x, z, c, merged);
    }
  }

  /** The bucket list ls with z added in front of bucket d. */
  function With(ls: Buckets, d: nat, z: nat): Buckets
    requires d < |ls|
  {
    ls[d := [z] + ls[d]]
  }

  lemma TagLinks(m: Memory, m1: Memory, m2: Memory, xs: set<nat>, w0: int)
    requires 0 <= w0 < |m| && |m1| == |m| && (forall w :: 0 <= w < |m| && w != w0 ==> m1[w] == m[w]) && OnlyLinks(m1, m2, xs, 0)
    ensures OnlyLinks(m, m2, xs, w0)
  {
  }

  lemma WithoutIn(l: seq<nat>, x: nat, y: nat)
    requires y in Without(l, x)
    ensures y in l
  {
    if l[0] != x && y != l[0] { WithoutIn(l[1..], x, y); }
  }

  lemma BlockListed(ls: Buckets, c: nat, x: nat, merged: bool)
    requires c < |ls|
    ensures Blocks(BlockRemoved(ls, c, x, merged)) <= Blocks(ls)
  {
    var l := BlockRemoved(ls, c, x, merged);
    forall e: nat, u: nat | e < |l| && u in l[e] ensures u in ls[e] {
      if e == c && merged { WithoutIn(ls[c], x, u); }
    }
    BlocksFewer(l, ls);
  }

  lemma PairListed(ls: Buckets, c: nat, x: nat, y: nat, z: nat, merged: bool)
    requires c + 1 < |ls|
    ensures Blocks(With(PairRemoved(ls, c, x, y, merged), c + 1, z)) <= Blocks(With(ls, c + 1, z))
    ensures Blocks(ls) <= Blocks(With(ls, c + 1, z))
  {
    var l, l', w := BlockRemoved(ls, c, x, merged), With(PairRemoved(ls, c, x, y, merged), c + 1, z), With(ls, c + 1, z);
    forall e: nat, u: nat | e < |l'| && u in l'[e] ensures u in w[e] {
      if e == c {
        WithoutIn(l[c], y, u);
        if merged { WithoutIn(ls[c], x, u); }
      }
    }
    BlocksFewer(l', w);
    BlocksFewer(ls, w);
  }

  /** One turn keeps the freed block's marks, once it is buried or if it is about to be. */
  lemma Bury(bs: nat, t: Tree, ls: Buckets, m: Memory, m': Memory, b: nat, k: nat, x: nat, z: nat, c: nat, merged: bool)
    requires c < TOP && x >= POOL && z >= POOL && Tags(m, t) && Members(t, ls)
    requires Sub(t, TOP, x - POOL, c) == Some(if merged then Free else Live)
    requires NearlyBuried(m, b, k, x, z, c, merged) && z <= x && x + Words(c) <= z + Words(c + 1)
    requires OnlyLinks(m, m', Blocks(With(ls, c + 1, z)), Last(z - POOL, c + 1))
    requires 0 <= Last(z - POOL, c + 1) < |m'| && Hi(m'[Last(z - POOL, c + 1)]) == c + 1
    ensures Buried(m', b, k, z, c + 1)
  {
    if !merged { LiveTags(m, t, b - POOL, k); }
    StaysInside(bs, t, ls, m, m', x, z, c, b);
    BuryEnd(bs, t, ls, m, m', b, k, x, z, c, merged);
  }

  /** Before the turn: buried in (x, c), or x itself with its left half z. */
  ghost predicate NearlyBuried(m: Memory, b: nat, k: nat, x: nat, z: nat, c: nat, merged: bool) {
    if merged then Buried(m, b, k, x, c) else x == b && c == k && z + Words(k) == x
  }

  lemma BuryEnd(bs: nat, t: Tree, ls: Buckets, m: Memory, m': Memory, b: nat, k: nat, x: nat, z: nat, c: nat, merged: bool)
    requires c < TOP && x >= POOL && z >= POOL && Members(t, ls) && IsLeaf(t, TOP, x - POOL, c)
    requires NearlyBuried(m, b, k, x, z, c, merged) && z <= x && x + Words(c) <= z + Words(c + 1) && b + Words(k) <= |m|
    requires OnlyLinks(m, m', Blocks(With(ls, c + 1, z)), Last(z - POOL, c + 1))
    requires 0 <= Last(z - POOL, c + 1) < |m'| && Hi(m'[Last(z - POOL, c + 1)]) == c + 1
    ensures Hi(m'[b + Words(k) - 1]) <= TOP
  {
    var w := b + Words(k) - 1;
    if w != Last(z - POOL, c + 1) {
      StaysInside(bs, t, ls, m, m', x, z, c, w);
    }
  }

  /** The place and the tag of the merged block. */
  lemma BuryReady(t: Tree, m': Memory, t': Tree, x: nat, y: nat, z: nat, c: nat)
    requires c < TOP && x >= POOL && y >= POOL && z >= POOL && Sub(t, TOP, x - POOL, c).Some?
    requires y - POOL == Buddy(TOP, x - POOL, c) && z - POOL == Parent(TOP, x - POOL, c)
    requires Tags(m', t') && IsFree(t', TOP, z - POOL, c + 1)
    ensures z <= x && x + Words(c) <= z + Words(c + 1) && (y < x ==> z + Words(c) == x)
    ensures 0 <= Last(z - POOL, c + 1) < |m'| && Hi(m'[Last(z - POOL, c + 1)]) == c + 1
  {
    ParentSub(t, TOP, x - POOL, c);
    assert TagIs(m', z - POOL, c + 1, c + 1);
  }

  /** A word of a block that is no link, nor the last of the merged one, is not written by the turn. */
  lemma StaysInside(bs: nat, t: Tree, ls: Buckets, m: Memory, m': Memory, x: nat, z: nat, c: nat, w: nat)
    requires c < TOP && x >= POOL && z >= POOL && Members(t, ls) && IsLeaf(t, TOP, x - POOL, c) && x <= w < x + Words(c) && w < |m|
    requires IsFree(t, TOP, x - POOL, c) ==> w > x + 1
    requires w != z && w != z + 1 && w != Last(z - POOL, c + 1)
    requires OnlyLinks(m, m', Blocks(With(ls, c + 1, z)), Last(z - POOL, c + 1))
    ensures m'[w] == m[w]
  {
    LeafWordNotLink(bs, t, x - POOL, c, w);
    NotInLinks(bs, t, ls, w);
    var l := With(ls, c + 1, z);
    forall e: nat, u: nat | e < |l| && u in l[e] ensures w != u && w - 1 != u {
      if u in ls[e] { assert u in Blocks(ls); }
    }
    assert w !in Blocks(l) && w - 1 !in Blocks(l);
  }

  /** The result of buddy_try_merge.  Without a merge nothing has changed, and listing the block is all that is left. */
  ghost predicate MergeDone(m0: Memory, t0: Tree, ls0: Buckets, b: nat, k: nat, merged: bool, m: Memory, t: Tree, ls: Buckets)
    requires b >= POOL && k <= TOP && Sub(t0, TOP, b - POOL, k).Some? && |ls0| == ENTRIES
  {
    && Untouched(m0, m, Graft(t0, TOP, b - POOL, k, Held))
    && (merged ==> t == Release(t0, TOP, b - POOL, k) && ls == ReleaseLists(t0, ls0, b, k))
    && (!merged ==>
         && m == m0 && t == t0 && ls == ls0
         && Release(t0, TOP, b - POOL, k) == Graft(t0, TOP, b - POOL, k, Free)
         && ReleaseLists(t0, ls0, b, k) == ls0[k := [b] + ls0[k]])
  }

  /** The buckets after freeing the block b of entry k, every merge included. */
  ghost function ReleaseLists(t: Tree, ls: Buckets, b: nat, k: nat): Buckets
    requires b >= POOL && k <= TOP && |ls| == ENTRIES && Sub(t, TOP, b - POOL, k).Some?
    decreases TOP - k
  {
    if k < TOP && IsFree(t, TOP, Buddy(TOP, b - POOL, k), k) then
      ReleaseReady(t, b - POOL, k);
      ReleaseLists(t, ls[k := Without(ls[k], POOL + Buddy(TOP, b - POOL, k))], POOL + Parent(TOP, b - POOL, k), k + 1)
    else
      ls[k := [b] + ls[k]]
  }

  lemma ReleaseReady(t: Tree, o: int, k: nat)
    requires k < TOP && Sub(t, TOP, o, k).Some?
    ensures Sub(t, TOP, Parent(TOP, o, k), k + 1).Some? && Parent(TOP, o, k) >= 0 && Buddy(TOP, o, k) >= 0
  {
    ParentSub(t, TOP, o, k);
    SubBounds(t, TOP, Parent(TOP, o, k), k + 1);
    SubBounds(t, TOP, Buddy(TOP, o, k), k);
  }

  lemma MergeStart(m: Memory, t: Tree, ls: Buckets, b: nat, k: nat)
    requires b >= POOL && k <= TOP && Sub(t, TOP, b - POOL, k) == Some(Live) && |ls| == ENTRIES
    ensures MergeTo(m, t, ls, b, k, b, k, false, m, t, ls)
  {
    assert BlockRemoved(ls, k, b, false) == ls;
  }

  lemma NoFreeBuddy(t: Tree, ls: Buckets, o: int, k: nat)
    requires Members(t, ls) && k <= TOP && ls[k] == [] && Sub(t, TOP, o, k).Some?
    ensures k < TOP ==> !IsFree(t, TOP, Buddy(TOP, o, k), k)
  {
    if k < TOP {
      BuddyApart(t, TOP, o, k, Held);
      SubBounds(t, TOP, Buddy(TOP, o, k), k);
      assert POOL + Buddy(TOP, o, k) !in ls[k];
    }
  }

  lemma MergeStop(m0: Memory, t0: Tree, ls0: Buckets, b: nat, k: nat, x: nat, c: nat, merged: bool,
                  m: Memory, t: Tree, ls: Buckets)
    requires MergeTo(m0, t0, ls0, b, k, x, c, merged, m, t, ls)
    requires c < TOP ==> !IsFree(t, TOP, Buddy(TOP, x - POOL, c), c)
    ensures MergeDone(m0, t0, ls0, b, k, merged, m, t, ls)
  {
    if c < TOP {
      BuddyApart(t0, TOP, x - POOL, c, Free);
    }
    ReleaseStop(t0, TOP, x - POOL, c);
    if merged {
      assert [x] + ls[c][1..] == ls[c];
      var base := BlockRemoved(ls, c, x, merged);
      assert base[c := [x] + base[c]] == ls;
    }
  }

  lemma MergeStep(m0: Memory, t0: Tree, ls0: Buckets, b: nat, k: nat, x: nat, y: nat, z: nat, c: nat, merged: bool,
                  m1: Memory, t1: Tree, ls1: Buckets, m: Memory, t: Tree, ls: Buckets)
    requires c < TOP && MergeTo(m0, t0, ls0, b, k, x, c, merged, m1, t1, ls1)
    requires y >= POOL && y - POOL == Buddy(TOP, x - POOL, c) && IsFree(t1, TOP, y - POOL, c)
    requires z >= POOL && z - POOL == Parent(TOP, x - POOL, c) && Sub(t1, TOP, z - POOL, c + 1).Some?
    requires t == Graft(t1, TOP, z - POOL, c + 1, Free) && ls == PairMerged(ls1, c, x, y, z, merged)
    requires Untouched(m1, m, Graft(t1, TOP, z - POOL, c + 1, Held))
    ensures MergeTo(m0, t0, ls0, b, k, z, c + 1, true, m, t, ls)
  {
    MergeAtStep(t0, ls0, b, k, x, y, z, c, merged, t1, ls1, t, ls);
    MergeUntouched(m0, m1, m, Graft(t0, TOP, b - POOL, k, Held), t1, x - POOL, z - POOL, c);
  }

  lemma MergeAtStep(t0: Tree, ls0: Buckets, b: nat, k: nat, x: nat, y: nat, z: nat, c: nat, merged: bool,
                    t1: Tree, ls1: Buckets, t: Tree, ls: Buckets)
    requires c < TOP && MergeAt(t0, ls0, b, k, x, c, merged, t1, ls1)
    requires y >= POOL && y - POOL == Buddy(TOP, x - POOL, c) && IsFree(t1, TOP, y - POOL, c)
    requires z >= POOL && z - POOL == Parent(TOP, x - POOL, c) && Sub(t1, TOP, z - POOL, c + 1).Some?
    requires t == Graft(t1, TOP, z - POOL, c + 1, Free) && ls == PairMerged(ls1, c, x, y, z, merged)
    ensures MergeAt(t0, ls0, b, k, z, c + 1, true, t, ls)
  {
    MergeTrees(t0, x - POOL, y - POOL, z - POOL, c, t1);
    MergeLists(t0, ls1, x, y, z, c, merged);
  }

  /** Nothing live in h is touched by the turn or lost from the blocks it leaves. */
  lemma MergeUntouched(m0: Memory, m1: Memory, m: Memory, h: Tree, t: Tree, o: int, p: int, c: nat)
    requires c < TOP && Sub(t, TOP, o, c).Some? && IsFree(t, TOP, Buddy(TOP, o, c), c) && p == Parent(TOP, o, c)
    requires Sub(t, TOP, p, c + 1).Some?
    requires Untouched(m0, m1, h) && LiveIn(h, Graft(t, TOP, o, c, Held)) && Untouched(m1, m, Graft(t, TOP, p, c + 1, Held))
    ensures Sub(Graft(t, TOP, p, c + 1, Free), TOP, p, c + 1).Some?
    ensures Untouched(m0, m, h) && LiveIn(h, Graft(Graft(t, TOP, p, c + 1, Free), TOP, p, c + 1, Held))
  {
    var v := Graft(t, TOP, p, c + 1, Held);
    MergeLive(t, o, c);
    LiveInTrans(h, Graft(t, TOP, o, c, Held), v);
    UntouchedWeaken(m1, m, h, v);
    UntouchedTrans(m0, m1, m, h);
    GraftGraft(t, TOP, p, c + 1, Free, Held);
  }

  lemma LiveInTrans(t: Tree, u: Tree, v: Tree)
    requires LiveIn(t, u) && LiveIn(u, v)
    ensures LiveIn(t, v)
  {
  }

  /** The tree after a merge turn, seen from the tree before the whole call. */
  lemma MergeTrees(t0: Tree, o: int, y: int, p: int, c: nat, t1: Tree)
    requires c < TOP && Sub(t0, TOP, o, c).Some? && (t1 == t0 || t1 == Graft(t0, TOP, o, c, Free))
    requires y == Buddy(TOP, o, c) && p == Parent(TOP, o, c) && IsFree(t1, TOP, y, c)
    ensures IsFree(t0, TOP, y, c) && Sub(t0, TOP, p, c + 1).Some? && Sub(t1, TOP, p, c + 1).Some?
    ensures Graft(t1, TOP, p, c + 1, Free) == Graft(t0, TOP, p, c + 1, Free)
    ensures Sub(Graft(t0, TOP, p, c + 1, Free), TOP, p, c + 1) == Some(Free)
    ensures Release(t0, TOP, o, c) == Release(t0, TOP, p, c + 1)
  {
    BuddyApart(t0, TOP, o, c, Free);
    GraftParent(t0, TOP, o, c, Free, Free);
    ReleaseMerge(t0, TOP, o, c);
    ReleaseGraft(t0, TOP, p, c + 1, Free);
  }

  lemma MergeLists(t0: Tree, ls: Buckets, x: nat, y: nat, z: nat, c: nat, merged: bool)
    requires c < TOP && |ls| == ENTRIES && x >= POOL && y >= POOL && z >= POOL
    requires Sub(t0, TOP, x - POOL, c).Some? && y - POOL == Buddy(TOP, x - POOL, c) && IsFree(t0, TOP, y - POOL, c)
    requires z - POOL == Parent(TOP, x - POOL, c) && Sub(t0, TOP, z - POOL, c + 1).Some?
    ensures var l := PairMerged(ls, c, x, y, z, merged);
            && |l| == ENTRIES && l[c + 1] != [] && l[c + 1][0] == z
            && ReleaseLists(t0, BlockRemoved(ls, c, x, merged), x, c)
               == ReleaseLists(t0, BlockRemoved(l, c + 1, z, true), z, c + 1)
  {
    PairMergedFront(ls, c, x, y, z, merged);
    ReleaseListsStep(t0, BlockRemoved(ls, c, x, merged), x, y, z, c);
  }

  lemma PairMergedFront(ls: Buckets, c: nat, x: nat, y: nat, z: nat, merged: bool)
    requires c + 1 < |ls|
    ensures var l := PairMerged(ls, c, x, y, z, merged);
            && l[c + 1] != [] && l[c + 1][0] == z
            && BlockRemoved(l, c + 1, z, true) == PairRemoved(ls, c, x, y, merged)
  {
  }

  lemma ReleaseListsStep(t: Tree, ls: Buckets, x: nat, y: nat, z: nat, c: nat)
    requires c < TOP && |ls| == ENTRIES && x >= POOL && y >= POOL && z >= POOL
    requires Sub(t, TOP, x - POOL, c).Some? && y - POOL == Buddy(TOP, x - POOL, c) && IsFree(t, TOP, y - POOL, c)
    requires z - POOL == Parent(TOP, x - POOL, c) && Sub(t, TOP, z - POOL, c + 1).Some?
    ensures ReleaseLists(t, ls, x, c) == ReleaseLists(t, ls[c := Without(ls[c], y)], z, c + 1)
  {
    ReleaseListsUnfold(t, ls, x, c);
    assert y == POOL + Buddy(TOP, x - POOL, c) && z == POOL + Parent(TOP, x - POOL, c);
  }

  lemma ReleaseListsUnfold(t: Tree, ls: Buckets, x: nat, c: nat)
    requires c < TOP && |ls| == ENTRIES && x >= POOL && Sub(t, TOP, x - POOL, c).Some?
    requires IsFree(t, TOP, Buddy(TOP, x - POOL, c), c)
    ensures var y, z := POOL + Buddy(TOP, x - POOL, c), POOL + Parent(TOP, x - POOL, c);
            && y >= POOL && z >= POOL && Sub(t, TOP, z - POOL, c + 1).Some?
            && ReleaseLists(t, ls, x, c) == ReleaseLists(t, ls[c := Without(ls[c], y)], z, c + 1)
  {
    ReleaseReady(t, x - POOL, c);
  }

  /** Between the turns nothing that is live outside the freed block is lost. */
  lemma MergeLive(t: Tree, o: int, c: nat)
    requires c < TOP && Sub(t, TOP, o, c).Some? && IsFree(t, TOP, Buddy(TOP, o, c), c)
    ensures var p := Parent(TOP, o, c);
            Sub(t, TOP, p, c + 1).Some? && LiveIn(Graft(t, TOP, o, c, Held), Graft(t, TOP, p, c + 1, Held))
  {
    var g, p, d := Graft(t, TOP, o, c, Held), Parent(TOP, o, c), c + 1;
    BuddyApart(t, TOP, o, c, Held);
    GraftSub(t, TOP, o, c, Held);
    GraftParent(t, TOP, o, c, Held, Held);
    ParentSub(g, TOP, o, c);
    var n := Sub(g, TOP, p, d).value;
    forall o': int, k': nat ensures !IsLive(Held, d, o', k') && !IsLive(n, d, o', k') {
      SingleLeaf(n.left, c, o', k');
      SingleLeaf(n.right, c, o' - Words(c), k');
    }
    GraftLiveIn(g, p, d, Held);
  }

  /** Buckets after one merge turn. */
  function PairMerged(ls: Buckets, c: nat, x: nat, y: nat, z: nat, merged: bool): Buckets
    requires c + 1 < |ls|
  {
    var l := PairRemoved(ls, c, x, y, merged);
    l[c + 1 := [z] + l[c + 1]]
  }

  /** A listed block may be held. */
  lemma HoldIdle(t: Tree, ls: Buckets, o: int, k: nat)
    requires IsLeaf(t, TOP, o, k) && (ListedIdle(ls, t) || Members(t, ls))
    ensures ListedIdle(ls, Graft(t, TOP, o, k, Held))
  {
    if Members(t, ls) { MembersIdle(t, ls); }
    forall e: nat, x: nat | e < ENTRIES && x in ls[e] ensures IdleNode(Graft(t, TOP, o, k, Held), e, x) {
      HoldIdleNode(t, o, k, e, x);
    }
  }

  lemma HoldIdleNode(t: Tree, o: int, k: nat, e: nat, x: nat)
    requires IsLeaf(t, TOP, o, k) && IdleNode(t, e, x)
    ensures IdleNode(Graft(t, TOP, o, k, Held), e, x)
  {
    GraftLeaf(t, TOP, o, k, Held, x - POOL, e, Free);
    GraftLeaf(t, TOP, o, k, Held, x - POOL, e, Held);
    LeafApart(t, TOP, o, k, x - POOL, e);
  }

  /** The working trees of a merge turn: the block is held, then its buddy too. */
  lemma HoldPair(m: Memory, t: Tree, o: int, c: nat, ls: Buckets)
    requires c < TOP && Tags(m, t) && Members(t, ls) && IsLeaf(t, TOP, o, c) && IsFree(t, TOP, Buddy(TOP, o, c), c)
    ensures var g, y := Graft(t, TOP, o, c, Held), Buddy(TOP, o, c);
            && IsFree(g, TOP, y, c) && Sub(g, TOP, y, c).Some?
            && Tags(m, Graft(g, TOP, y, c, Held)) && ListedIdle(ls, Graft(g, TOP, y, c, Held))
  {
    var g, y := Graft(t, TOP, o, c, Held), Buddy(TOP, o, c);
    forall o': int, k': nat ensures !IsLive(Held, c, o', k') && !IsFree(Held, c, o', k') {
    }
    BuddyApart(t, TOP, o, c, Held);
    TagsHold(m, t, o, c, Held);
    TagsHold(m, g, y, c, Held);
    HoldIdle(t, ls, o, c);
    HoldIdle(g, ls, y, c);
  }

  lemma HoldLive(bs: nat, m: Memory, t: Tree, o: int, c: nat, ls: Buckets)
    requires Listing(bs, m, t, ls) && Sub(t, TOP, o, c) == Some(Live)
    ensures Listing(bs, m, Graft(t, TOP, o, c, Held), ls)
  {
    forall o': int, k': nat ensures !IsFree(Live, c, o', k') && !IsFree(Held, c, o', k') {
    }
    ListingReshape(bs, m, t, ls, o, c, Held);
  }

  /** The end of a merge turn's removals: the two held halves are their held parent. */
  lemma MergePair(bs: nat, m0: Memory, m: Memory, t: Tree, o: int, c: nat, ls: Buckets)
    requires c < TOP && Sub(t, TOP, o, c).Some? && Sub(Graft(t, TOP, o, c, Held), TOP, Buddy(TOP, o, c), c).Some?
    requires var h := Graft(Graft(t, TOP, o, c, Held), TOP, Buddy(TOP, o, c), c, Held);
             Listing(bs, m, h, ls) && Tags(m, h) && Untouched(m0, m, h)
    ensures var p := Parent(TOP, o, c);
            && Sub(t, TOP, p, c + 1).Some?
            && Listing(bs, m, Graft(t, TOP, p, c + 1, Held), ls)
            && Tags(m, Graft(t, TOP, p, c + 1, Held)) && Untouched(m0, m, Graft(t, TOP, p, c + 1, Held))
  {
    PairTrees(t, o, c, Held);
    HeldNode(bs, m0, m, Graft(Graft(t, TOP, o, c, Held), TOP, Buddy(TOP, o, c), c, Held), Parent(TOP, o, c), c + 1, ls);
  }

  /** Two held halves are a held block. */
  lemma HeldNode(bs: nat, m0: Memory, m: Memory, h: Tree, p: int, d: nat, ls: Buckets)
    requires d > 0 && Sub(h, TOP, p, d) == Some(Node(Held, Held))
    requires Listing(bs, m, h, ls) && Tags(m, h) && Untouched(m0, m, h)
    ensures var u := Graft(h, TOP, p, d, Held); Listing(bs, m, u, ls) && Tags(m, u) && Untouched(m0, m, u)
  {
    forall o': int, k': nat
      ensures !IsFree(Held, d, o', k') && !IsFree(Node(Held, Held), d, o', k')
      ensures !IsLive(Held, d, o', k')
    {
      HeldHalves(d, o', k');
    }
    ListingReshape(bs, m, h, ls, p, d, Held);
    TagsHold(m, h, p, d, Held);
    GraftLiveIn(h, p, d, Held);
    UntouchedWeaken(m0, m, Graft(h, TOP, p, d, Held), h);
  }

  /** The position of a listed block. */
  ghost function Position(t: Tree, ls: Buckets, c: nat, x: nat): (i: nat)
    requires Members(t, ls) && c < ENTRIES && FreeNode(t, c, x)
    ensures i < |ls[c]| && ls[c][i] == x && x !in ls[c][..i]
  {
    assert x in ls[c];
    IndexOf(ls[c], x)
  }

  ghost function IndexOf(l: seq<nat>, x: nat): (i: nat)
    requires x in l
    ensures i < |l| && l[i] == x && x !in l[..i]
  {
    if l[0] == x then 0 else
      var i := IndexOf(l[1..], x);
      assert l[..i + 1] == [l[0]] + l[1..][..i];
      i + 1
  }

  /** l without the first occurrence of x. */
  function Without(l: seq<nat>, x: nat): seq<nat> {
    if l == [] then [] else if l[0] == x then l[1..] else [l[0]] + Without(l[1..], x)
  }

  lemma {:induction false} RemovedIsWithout(l: seq<nat>, i: nat, x: nat)
    requires i < |l| && l[i] == x && x !in l[..i]
    ensures Removed(l, i) == Without(l, x)
  {
    if i == 0 {
      assert l[..0] + l[1..] == l[1..];
    } else {
      assert l[0] in l[..i];
      assert l[1..][..i - 1] == l[..i][1..];
      RemovedIsWithout(l[1..], i - 1, x);
      assert Removed(l, i) == [l[0]] + Removed(l[1..], i - 1);
    }
  }

  /** Buckets after one turn's removals. */
  function PairRemoved(ls: Buckets, c: nat, x: nat, y: nat, merged: bool): Buckets
    requires c < |ls|
  {
    var l := BlockRemoved(ls, c, x, merged);
    l[c := Without(l[c], y)]
  }

  function BlockRemoved(ls: Buckets, c: nat, x: nat, merged: bool): Buckets
    requires c < |ls|
  {
    ls[c := if merged then Without(ls[c], x) else ls[c]]
  }

  /** Replacing a block, its buddy and then their parent is replacing the parent. */
  lemma PairTrees(t: Tree, o: int, c: nat, s: Tree)
    requires Sub(t, TOP, o, c).Some? && c < TOP
    ensures var p, y := Parent(TOP, o, c), Buddy(TOP, o, c);
            var g := Graft(t, TOP, o, c, Held);
            && Sub(t, TOP, p, c + 1).Some? && Sub(g, TOP, y, c).Some?
            && Sub(Graft(g, TOP, y, c, Held), TOP, p, c + 1) == Some(Node(Held, Held))
            && Graft(Graft(g, TOP, y, c, Held), TOP, p, c + 1, s) == Graft(t, TOP, p, c + 1, s)
  {
    var y, p := Buddy(TOP, o, c), Parent(TOP, o, c);
    BuddyApart(t, TOP, o, c, Held);
    var g := Graft(t, TOP, o, c, Held);
    GraftSub(t, TOP, o, c, Held);
    GraftParent(t, TOP, o, c, Held, s);
    PairNode(g, o, c, Held);
    GraftParent(g, TOP, y, c, Held, s);
  }

  lemma PairNode(g: Tree, o: int, c: nat, s: Tree)
    requires c < TOP && Sub(g, TOP, o, c) == Some(s) && Sub(g, TOP, Buddy(TOP, o, c), c).Some?
    ensures var p, y := Parent(TOP, o, c), Buddy(TOP, o, c);
            Sub(Graft(g, TOP, y, c, s), TOP, p, c + 1) == Some(Node(s, s))
  {
    var y := Buddy(TOP, o, c);
    BuddyApart(g, TOP, o, c, s);
    BuddyApart(g, TOP, y, c, s);
    GraftSub(g, TOP, y, c, s);
    ParentSub(Graft(g, TOP, y, c, s), TOP, o, c);
  }

  /** Buckets after splitting the first block b of bucket e down to entry c. */
  function PartLists(ls: Buckets, e: nat, c: nat, b: nat): Buckets
    requires c <= e < |ls| && ls[e] != []
  {
    seq(|ls|, j requires 0 <= j < |ls| => PartList(ls[j], e, c, b, j))
  }

  function PartList(l: seq<nat>, e: nat, c: nat, b: nat, j: nat): seq<nat>
    requires j == e ==> l != []
  {
    if c == e || j < c || j > e then l
    else if j == e then l[1..]
    else if j == c then [b, b + Words(j)] + l
    else [b + Words(j)] + l
  }

  /** Buckets after malloc cut a block of entry k out of the first block b of bucket e. */
  function CarveLists(ls: Buckets, e: nat, k: nat, b: nat): Buckets
    requires k <= e < |ls| && ls[e] != []
  {
    seq(|ls|, j requires 0 <= j < |ls| => CarveList(ls[j], e, k, b, j))
  }

  lemma TakenBack(ls: Buckets, k: nat, b: nat)
    requires k < |ls|
    ensures ls[k := [b] + ls[k]][k := ([b] + ls[k])[1..]] == ls
  {
  }

  /** Without a split the block is only taken off its bucket. */
  lemma CarveSame(ls: Buckets, k: nat, b: nat)
    requires k < |ls| && ls[k] != []
    ensures CarveLists(ls, k, k, b) == ls[k := ls[k][1..]]
  {
  }

  function CarveList(l: seq<nat>, e: nat, k: nat, b: nat, j: nat): seq<nat>
    requires j == e ==> l != []
  {
    if j == e then l[1..] else if k <= j < e then [b + Words(j)] + l else l
  }

  lemma PartListsStep(ls: Buckets, e: nat, c: nat, b: nat)
    requires 0 < c <= e < |ls| && ls[e] != [] && b == ls[e][0]
    ensures PartLists(ls, e, c, b)[c] != [] && PartLists(ls, e, c, b)[c][0] == b
    ensures SplitLists(PartLists(ls, e, c, b), c, b, b + Words(c - 1)) == PartLists(ls, e, c - 1, b)
  {
    var p := PartLists(ls, e, c, b);
    var q, r := SplitLists(p, c, b, b + Words(c - 1)), PartLists(ls, e, c - 1, b);
    forall j | 0 <= j < |ls| ensures q[j] == r[j] {
      PartListStep(ls[j], e, c, b, j);
    }
    PartListStep(ls[c], e, c, b, c);
  }

  lemma PartListStep(l: seq<nat>, e: nat, c: nat, b: nat, j: nat)
    requires 0 < c <= e && (j == e ==> l != [] && l[0] == b)
    ensures j == c ==> PartList(l, e, c, b, j) != [] && PartList(l, e, c, b, j)[0] == b
    ensures j == c ==> PartList(l, e, c, b, j)[1..] == PartList(l, e, c - 1, b, j)
    ensures j == c - 1 ==> [b, b + Words(j)] + PartList(l, e, c, b, j) == PartList(l, e, c - 1, b, j)
    ensures j != c && j != c - 1 ==> PartList(l, e, c, b, j) == PartList(l, e, c - 1, b, j)
  {
    if j == c && c < e {
      assert ([b, b + Words(j)] + l)[1..] == [b + Words(j)] + l;
    }
  }

  lemma SpineStep(t: Tree, o: int, e: nat, c: nat)
    requires IsFree(t, TOP, o, e) && 0 < c <= e
    ensures Sub(t, TOP, o, e).Some?
    ensures var u := Graft(t, TOP, o, e, Spine(e, c, Free));
            && Sub(u, TOP, o, c) == Some(Free)
            && Graft(u, TOP, o, c, Node(Free, Free)) == Graft(t, TOP, o, e, Spine(e, c - 1, Free))
  {
    SpineGraft(e, c, Free, Node(Free, Free));
    SpineDown(e, c);
    GraftInside(t, TOP, o, e, Spine(e, c, Free), 0, c, Node(Free, Free));
  }

  /** Splitting a free block keeps the live blocks. */
  lemma HalvesTransfer(t: Tree, o: int, e: nat)
    requires 0 < e && IsFree(t, TOP, o, e)
    ensures Sub(t, TOP, o, e).Some?
    ensures LiveIn(t, Graft(t, TOP, o, e, Node(Free, Free)))
  {
    forall o': int, k': nat ensures !IsLive(Free, e, o', k') && !IsLive(Node(Free, Free), e, o', k') {
      SingleLeaf(Free, e - 1, o', k');
      SingleLeaf(Free, e - 1, o' - Words(e - 1), k');
    }
    GraftLiveIn(t, o, e, Node(Free, Free));
  }

  /** What the splitting loop has reached: bucket e's first block split down to bucket c. */
  ghost predicate SplitTo(m0: Memory, t0: Tree, ls0: Buckets, e: nat, c: nat, m: Memory, t: Tree, ls: Buckets) {
    && c <= e < |ls0| && ls0[e] != [] && ls0[e][0] >= POOL
    && Sub(t0, TOP, ls0[e][0] - POOL, e) == Some(Free)
    && t == Graft(t0, TOP, ls0[e][0] - POOL, e, Spine(e, c, Free))
    && ls == PartLists(ls0, e, c, ls0[e][0])
    && Untouched(m0, m, t0) && LiveIn(t0, t)
  }

  lemma SplitStart(m: Memory, t: Tree, ls: Buckets, e: nat)
    requires Members(t, ls) && e < ENTRIES && ls[e] != []
    ensures SplitTo(m, t, ls, e, e, m, t, ls)
  {
    assert ls[e][0] in ls[e];
    GraftSame(t, TOP, ls[e][0] - POOL, e);
    assert PartLists(ls, e, e, ls[e][0]) == ls;
  }

  lemma SplitReady(m0: Memory, t0: Tree, ls0: Buckets, e: nat, c: nat, m: Memory, t: Tree, ls: Buckets)
    requires SplitTo(m0, t0, ls0, e, c, m, t, ls)
    ensures c < |ls| && ls[c] != [] && ls[c][0] == ls0[e][0]
  {
  }

  lemma SplitStep(m0: Memory, t0: Tree, ls0: Buckets, e: nat, c: nat, b: nat,
                  m1: Memory, t1: Tree, ls1: Buckets, m: Memory, t: Tree, ls: Buckets)
    requires 0 < c && SplitTo(m0, t0, ls0, e, c, m1, t1, ls1)
    requires b == ls0[e][0] && Sub(t1, TOP, b - POOL, c).Some?
    requires t == Graft(t1, TOP, b - POOL, c, Node(Free, Free))
    requires c < |ls1| && ls1[c] != [] && ls == SplitLists(ls1, c, b, b + Words(c - 1))
    requires Untouched(m1, m, t1)
    ensures SplitTo(m0, t0, ls0, e, c - 1, m, t, ls)
  {
    PartListsStep(ls0, e, c, b);
    SpineStep(t0, b - POOL, e, c);
    UntouchedWeaken(m1, m, t0, t1);
    UntouchedTrans(m0, m1, m, t0);
    HalvesTransfer(t1, b - POOL, c);
    LiveInTrans(t0, t1, t);
  }

  lemma CarveListsStep(ls: Buckets, e: nat, k: nat, b: nat)
    requires k <= e < |ls| && ls[e] != [] && b == ls[e][0]
    ensures var p := PartLists(ls, e, k, b); p[k] != [] && p[k := p[k][1..]] == CarveLists(ls, e, k, b)
  {
    var p := PartLists(ls, e, k, b);
    CarveListStep(ls[k], e, k, b, k);
    var q, r := p[k := p[k][1..]], CarveLists(ls, e, k, b);
    forall j | 0 <= j < |ls| ensures q[j] == r[j] {
      CarveListStep(ls[j], e, k, b, j);
    }
  }

  lemma CarveListStep(l: seq<nat>, e: nat, k: nat, b: nat, j: nat)
    requires k <= e && (j == e ==> l != [])
    ensures j == k ==> PartList(l, e, k, b, j) != [] && PartList(l, e, k, b, j)[1..] == CarveList(l, e, k, b, j)
    ensures j != k ==> PartList(l, e, k, b, j) == CarveList(l, e, k, b, j)
  {
    if j == k && k < e {
      assert ([b, b + Words(j)] + l)[1..] == [b + Words(j)] + l;
    }
  }

  /** What malloc does to memory, blocks and buckets when it serves entry k from bucket e. */
  ghost predicate Carved(m0: Memory, t0: Tree, ls0: Buckets, e: nat, k: nat, m: Memory, t: Tree, ls: Buckets) {
    && k <= e < |ls0| && ls0[e] != [] && FreeNode(t0, e, ls0[e][0])
    && Sub(t0, TOP, ls0[e][0] - POOL, e).Some?
    && t == Graft(t0, TOP, ls0[e][0] - POOL, e, Spine(e, k, Live))
    && ls == CarveLists(ls0, e, k, ls0[e][0])
    && Untouched(m0, m, t0)
  }

  lemma CarveFinish(m0: Memory, t0: Tree, ls0: Buckets, e: nat, k: nat,
                    m1: Memory, t1: Tree, ls1: Buckets, m: Memory, t: Tree, ls: Buckets)
    requires SplitTo(m0, t0, ls0, e, k, m1, t1, ls1) && Fits(t0, TOP) && Canonical(t0)
    requires Sub(t1, TOP, ls0[e][0] - POOL, k).Some?
    requires t == Graft(t1, TOP, ls0[e][0] - POOL, k, Live)
    requires k < |ls1| && ls1[k] != [] && ls == ls1[k := ls1[k][1..]]
    requires Untouched(m1, m, t1)
    ensures Carved(m0, t0, ls0, e, k, m, t, ls) && Fits(t, TOP) && Canonical(t)
  {
    var o := ls0[e][0] - POOL;
    SpineGraft(e, k, Free, Live);
    GraftInside(t0, TOP, o, e, Spine(e, k, Free), 0, k, Live);
    SpineFits(e, k, Live);
    GraftCanonical(t0, TOP, o, e, Spine(e, k, Live));
    GraftFits(t0, TOP, o, e, Spine(e, k, Live));
    CarveListsStep(ls0, e, k, ls0[e][0]);
    UntouchedWeaken(m1, m, t0, t1);
    UntouchedTrans(m0, m1, m, t0);
  }

  /** The entry whose blocks are the smallest that hold size bytes, the 8-byte preamble and the postamble. */
  function Entry(size: nat): (k: nat)
    requires size + 9 <= Pow2(TOP + 5)
    ensures k <= TOP && size + 9 <= 8 * Words(k) && (k > 0 ==> 8 * Words(k - 1) < size + 9)
  {
    Smallest(size + 9)
  }

  /** The same for v bytes, overhead included. */
  function Smallest(v: nat): (k: nat)
    requires v <= Pow2(TOP + 5)
    ensures k <= TOP && v <= 8 * Words(k) && (k > 0 ==> 8 * Words(k - 1) < v)
  {
    EntryAux(v, TOP)
  }

  /** What malloc asks next_power2 for: size + 9 in uint32_t. */
  function Asked(size: nat): nat { (size + 9) % WORD32 }

  /** A request that fits the pool is not wrapped, so it is served from its own bucket up. */
  lemma AskedExact(size: nat)
    requires size + 9 <= Pow2(TOP + 5)
    ensures size < WORD32 && Asked(size) == size + 9 && Smallest(Asked(size)) == Entry(size)
  {
    Pow2Of22();
  }

  /** A pointer, the out-of-memory panic, a bucket index past the table, or the loop that never ends.  Of the last two
      nothing is claimed about the C function. */
  datatype AllocOutcome = Served(ptr: nat) | OutOfMemory | OutsideTable | Endless

  lemma OrderInTable(v: nat, order: nat)
    requires order >= 5 && v <= Pow2(order) && (order > 5 ==> Pow2(order - 1) < v)
    ensures order - 5 < ENTRIES <==> v <= Pow2(TOP + 5)
  {
    if order <= TOP + 5 {
      Pow2Monotone(order, TOP + 5);
    } else {
      Pow2Monotone(TOP + 5, order - 1);
    }
  }

  function EntryAux(v: nat, top: nat): (k: nat)
    requires v <= Pow2(top + 5)
    ensures k <= top && v <= 8 * Words(k) && (k > 0 ==> 8 * Words(k - 1) < v)
  {
    OrderWords(top);
    if top == 0 || v > 8 * Words(top - 1) then top
    else
      OrderWords(top - 1);
      EntryAux(v, top - 1)
  }

  lemma PowEight(n: nat)
    ensures Pow2(n + 3) == 8 * Pow2(n)
  {
    assert Pow2(n + 3) == 2 * Pow2(n + 2) == 4 * Pow2(n + 1);
  }

  lemma EntryOrder(v: nat, order: nat)
    requires v <= Pow2(TOP + 5)
    requires order >= 5 && v <= Pow2(order) && (order > 5 ==> Pow2(order - 1) < v)
    ensures order - 5 == Smallest(v)
  {
    var k := Smallest(v);
    OrderWords(k);
    if k > 0 { OrderWords(k - 1); }
    LeastOrder(v, k, order);
  }

  lemma OrderWords(k: nat)
    ensures 8 * Words(k) == Pow2(k + 5)
  {
    WordsPow2(k);
    PowEight(k + 2);
  }

  lemma LeastOrder(v: nat, k: nat, order: nat)
    requires v <= Pow2(k + 5) && (k > 0 ==> Pow2(k + 4) < v)
    requires order >= 5 && v <= Pow2(order) && (order > 5 ==> Pow2(order - 1) < v)
    ensures order == k + 5
  {
    if order < k + 5 {
      Pow2Monotone(order, k + 4);
    } else if order > k + 5 {
      Pow2Monotone(k + 5, order - 1);
    }
  }

  /** next_power2: the least order from BUDDY_MIN_ORDER up whose power of two is at least v.  Doubling a uint32_t
      ends in 0; endless says that it did, and then the loop never ends. */
  method NextPower2(v: nat) returns (cnt: nat, endless: bool)
    requires v < WORD32
    ensures endless <==> v > Pow2(31)
    ensures !endless ==> 5 <= cnt <= 31 && v <= Pow2(cnt) && (cnt > 5 ==> Pow2(cnt - 1) < v)
  {
    cnt, endless := 5, false;
    var p := Pow2(cnt);
    if v < 32 {
      Pow2Monotone(5, 31);
      assert Pow2(5) == 32;
      return;
    }
    Pow2Monotone(cnt, 31);
    while p < v
      invariant 5 <= cnt <= 31 && p == Pow2(cnt) && (cnt > 5 ==> Pow2(cnt - 1) < v)
      decreases 31 - cnt
    {
      DoubleWrapped(cnt);
      p := 2 * p % WORD32;
      cnt := cnt + 1;
      if p == 0 {
        endless := true;
        return;
      }
    }
    Pow2Monotone(cnt, 31);
  }

  /** Doubling a uint32_t power of two: the next one, or 0 after the last. */
  lemma DoubleWrapped(c: nat)
    requires c <= 31
    ensures 2 * Pow2(c) % WORD32 == if c == 31 then 0 else Pow2(c + 1)
  {
    Pow2Of32();
    assert 2 * Pow2(c) == Pow2(c + 1);
    if c < 31 { Pow2Monotone(c + 1, 31); }
  }

  /** The bucket that malloc starts from for v bytes, if next_power2 ends and the bucket is in the table. */
  method FindEntry(v: nat) returns (entry: Option<nat>, endless: bool)
    requires v < WORD32
    ensures endless <==> v > Pow2(31)
    ensures entry.Some? <==> v <= Pow2(TOP + 5)
    ensures entry.Some? ==> v <= Pow2(TOP + 5) && entry.value == Smallest(v)
  {
    Pow2Monotone(TOP + 5, 31);
    var order;
    order, endless := NextPower2(v);
    entry := None;
    if !endless {
      OrderInTable(v, order);
      if order - 5 < ENTRIES {
        EntryOrder(v, order);
        entry := Some(order - 5);
      }
    }
  }

  lemma HoldFree(m: Memory, t0: Tree, o: int, k: nat)
    requires IsFree(t0, TOP, o, k) && Tags(m, t0)
    ensures Sub(t0, TOP, o, k).Some?
    ensures var u := Graft(t0, TOP, o, k, Held);
            Tags(m, u) && Sub(u, TOP, o, k) == Some(Held) && IsLeaf(u, TOP, o, k) && LiveIn(t0, u)
  {
    forall o': int, k': nat
      ensures !IsLive(Free, k, o', k') && !IsLive(Held, k, o', k') && !IsFree(Held, k, o', k')
    {
    }
    GraftLiveIn(t0, o, k, Held);
    TagsHold(m, t0, o, k, Held);
    GraftSub(t0, TOP, o, k, Held);
  }

  lemma HeldToLive(bs: nat, m: Memory, t0: Tree, o: int, k: nat, ls: Buckets)
    requires IsFree(t0, TOP, o, k) && Sub(t0, TOP, o, k).Some?
    requires Listing(bs, m, Graft(t0, TOP, o, k, Held), ls) && Tags(m, Graft(t0, TOP, o, k, Held))
    requires TagIs(m, o, k, USED) && PreambleIs(m, o, k)
    ensures Listing(bs, m, Graft(t0, TOP, o, k, Live), ls) && Tags(m, Graft(t0, TOP, o, k, Live))
  {
    var u := Graft(t0, TOP, o, k, Held);
    GraftSub(t0, TOP, o, k, Held);
    GraftGraft(t0, TOP, o, k, Held, Live);
    forall o': int, k': nat ensures !IsFree(Held, k, o', k') && !IsFree(Live, k, o', k') {
    }
    ListingReshape(bs, m, u, ls, o, k, Live);
    TagsGraft(m, u, o, k, Live);
  }

  /** Splitting a free block keeps the live blocks. */
  lemma HalvesLiveIn(t: Tree, o: int, e: nat)
    requires 0 < e && IsFree(t, TOP, o, e)
    ensures Sub(t, TOP, o, e).Some?
    ensures LiveIn(t, Graft(t, TOP, o, e, Node(Held, Held))) && LiveIn(Graft(t, TOP, o, e, Node(Held, Held)), t)
  {
    forall o': int, k': nat ensures !IsLive(Free, e, o', k') && !IsLive(Node(Held, Held), e, o', k') {
      HeldHalves(e, o', k');
    }
    GraftLiveIn(t, o, e, Node(Held, Held));
  }

  lemma SplitShape(t: Tree, o: int, e: nat)
    requires 0 < e && Fits(t, TOP) && NoHeld(t) && Sub(t, TOP, o, e).Some?
    ensures Fits(Graft(t, TOP, o, e, Node(Free, Free)), TOP) && NoHeld(Graft(t, TOP, o, e, Node(Free, Free)))
  {
    GraftFits(t, TOP, o, e, Node(Free, Free));
    GraftNoHeld(t, TOP, o, e, Node(Free, Free));
  }

  /** The buckets after splitting the first block of bucket e into b and c. */
  function SplitLists(ls: Buckets, e: nat, b: nat, c: nat): Buckets
    requires 0 < e < |ls| && ls[e] != []
  {
    ls[e := ls[e][1..]][e - 1 := [b, c] + ls[e - 1]]
  }

  lemma SplitListsSteps(ls: Buckets, e: nat, b: nat, c: nat)
    requires 0 < e < |ls| && ls[e] != []
    ensures var l1 := ls[e := Removed(ls[e], 0)];
            var l2 := l1[e - 1 := [c] + l1[e - 1]];
            l2[e - 1 := [b] + l2[e - 1]] == SplitLists(ls, e, b, c)
  {
    assert Removed(ls[e], 0) == ls[e][1..];
    assert [b] + ([c] + ls[e - 1]) == [b, c] + ls[e - 1];
  }

  /** The trees of a split, seen from the halves: both held, the right one free, both free. */
  lemma HalfTrees(t: Tree, o: int, e: nat) returns (u: Tree, v: Tree, w: Tree)
    requires 0 < e && Sub(t, TOP, o, e).Some?
    ensures u == Graft(t, TOP, o, e, Node(Held, Held)) && w == Graft(t, TOP, o, e, Node(Free, Free))
    ensures HalfSteps(u, v, w, o, o + Words(e - 1), e - 1)
  {
    SplitGraft(t, TOP, o, e, Held, Held, Free, Free);
    SplitGraft(t, TOP, o, e, Held, Free, Free, Free);
    SplitGraft(t, TOP, o, e, Free, Free, Free, Free);
    u, v, w := Graft(t, TOP, o, e, Node(Held, Held)), Graft(t, TOP, o, e, Node(Held, Free)), Graft(t, TOP, o, e, Node(Free, Free));
  }

  /** u holds both halves (o, d) and (h, d); freeing the second gives v, freeing the first then gives w. */
  ghost predicate HalfSteps(u: Tree, v: Tree, w: Tree, o: int, h: int, d: nat) {
    && Sub(u, TOP, o, d) == Some(Held) && Sub(u, TOP, h, d) == Some(Held) && v == Graft(u, TOP, h, d, Free)
    && Sub(v, TOP, o, d) == Some(Held) && w == Graft(v, TOP, o, d, Free)
    && Sub(w, TOP, o, d) == Some(Free) && Sub(w, TOP, h, d) == Some(Free)
  }

  /** The working trees of a split: the removed block becomes two held halves. */
  lemma Halve(bs: nat, m: Memory, t0: Tree, o: int, e: nat, ls: Buckets)
    requires 0 < e < ENTRIES && Fits(t0, TOP) && NoHeld(t0) && IsFree(t0, TOP, o, e)
    requires Sub(t0, TOP, o, e) == Some(Free)
    requires Listing(bs, m, Graft(t0, TOP, o, e, Held), ls) && Tags(m, t0)
    ensures var u := Graft(t0, TOP, o, e, Node(Held, Held));
            Listing(bs, m, u, ls) && Tags(m, u) && ListedIdle(ls, u) && LiveIn(u, t0)
  {
    var u := Graft(t0, TOP, o, e, Node(Held, Held));
    GraftGraft(t0, TOP, o, e, Held, Node(Held, Held));
    GraftSub(t0, TOP, o, e, Held);
    forall o': int, k': nat
      ensures !IsFree(Held, e, o', k') && !IsFree(Node(Held, Held), e, o', k')
      ensures !IsLive(Free, e, o', k') && !IsLive(Node(Held, Held), e, o', k')
    {
      HeldHalves(e, o', k');
    }
    ListingReshape(bs, m, Graft(t0, TOP, o, e, Held), ls, o, e, Node(Held, Held));
    MembersIdle(u, ls);
    GraftLiveIn(t0, o, e, Node(Held, Held));
    TagsHold(m, t0, o, e, Node(Held, Held));
  }

  lemma HeldHalves(e: nat, o: int, k: nat)
    requires e > 0
    ensures !IsFree(Held, e, o, k) && !IsFree(Node(Held, Held), e, o, k)
    ensures !IsLive(Free, e, o, k) && !IsLive(Node(Held, Held), e, o, k)
  {
    SingleLeaf(Held, e - 1, o, k);
    SingleLeaf(Held, e - 1, o - Words(e - 1), k);
  }
}
