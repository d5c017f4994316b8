/** What kernel/mm/malloc.c keeps true of its memory: bucket lists, counters and boundary tags all
    describe the leaves of one tree. */
module BuddyState {
  import opened Options
  import opened BuddyTree
  import opened CircularList

  const POOL: nat := 0xC0000      // MALLOC_BASE as a word index
  const TOP: nat := 17            // BUDDY_MAX_ORDER - BUDDY_MIN_ORDER
  const ENTRIES: nat := 18        // BUDDY_ENTRIES
  const USED: nat := 0xFF

  type Buckets = seq<seq<nat>>

  function Lo(w: Word): nat { if w.Ptr? then 8 * w.target % 256 else w.lo }
  function Mid(w: Word): nat { if w.Ptr? then 8 * w.target / 256 else w.mid }
  /** Addresses stay below 2^56, so a stored pointer has a zero top byte. */
  function Hi(w: Word): nat { if w.Ptr? then 0 else w.hi }

  /** Storing one byte at the low or at the high end of a word. */
  function SetLo(w: Word, b: nat): Word { Raw(b, Mid(w), Hi(w)) }
  function SetHi(w: Word, b: nat): Word { Raw(Lo(w), Mid(w), b) }

  /** &bsystem[e].ptr: a bucket is 24 bytes, list head first. */
  function Head(bs: nat, e: nat): nat { bs + 3 * e }

  function RingOf(bs: nat, ls: Buckets, e: nat): seq<nat>
    requires e < |ls|
  {
    [Head(bs, e)] + ls[e]
  }

  ghost predicate FreeNode(t: Tree, e: nat, x: nat) {
    x >= POOL && IsFree(t, TOP, x - POOL, e)
  }

  /** The bucket lists are well formed and hold exactly the free leaves. */
  ghost predicate Listing(bs: nat, m: Memory, t: Tree, ls: Buckets) {
    && |m| == POOL + Words(TOP) && bs + 3 * ENTRIES <= POOL
    && Members(t, ls)
    && (forall e :: 0 <= e < ENTRIES ==> Ring(m, RingOf(bs, ls, e)))
  }

  ghost predicate Counted(count: seq<nat>, ls: Buckets) {
    |count| == |ls| == ENTRIES && forall e :: 0 <= e < ENTRIES ==> count[e] == |ls[e]|
  }

  ghost predicate Members(t: Tree, ls: Buckets) {
    && |ls| == ENTRIES
    && (forall e: nat, x: nat :: e < ENTRIES ==> (x in ls[e] <==> FreeNode(t, e, x)))
  }

  /** A ring node is the bucket's head or a free block of the pool. */
  lemma RingNode(bs: nat, t: Tree, ls: Buckets, e: nat, i: nat)
    requires Members(t, ls) && e < ENTRIES && i <= |ls[e]| && bs + 3 * ENTRIES <= POOL
    ensures i == 0 ==> RingOf(bs, ls, e)[i] == Head(bs, e)
    ensures i > 0 ==> RingOf(bs, ls, e)[i] == ls[e][i - 1] && FreeNode(t, e, ls[e][i - 1])
  {
    if i > 0 { assert ls[e][i - 1] in ls[e]; }
  }

  /** Index of the last word of the block at (o, k). */
  function Last(o: int, k: nat): int { POOL + o + Words(k) - 1 }

  ghost predicate TagIs(m: Memory, o: int, k: nat, tag: nat) {
    0 <= Last(o, k) < |m| && Hi(m[Last(o, k)]) == tag
  }

  ghost predicate PreambleIs(m: Memory, o: int, k: nat) {
    0 <= POOL + o < |m| && Lo(m[POOL + o]) == k
  }

  /** A free block carries its entry in its last byte; a live block carries USED there and its entry in its first. */
  ghost predicate Tags(m: Memory, t: Tree) {
    && (forall o: int, k: nat :: IsFree(t, TOP, o, k) ==> TagIs(m, o, k, k))
    && (forall o: int, k: nat :: IsLive(t, TOP, o, k) ==> TagIs(m, o, k, USED) && PreambleIs(m, o, k))
  }

  /** The invariant between calls. */
  ghost predicate Inv(bs: nat, m: Memory, count: seq<nat>, t: Tree, ls: Buckets) {
    Fits(t, TOP) && Canonical(t) && Listing(bs, m, t, ls) && Counted(count, ls) && Tags(m, t)
  }

  // ----- the one-byte test -----

  /** Boundary-tag soundness: the last byte of any block position in the tree equals k exactly when a
      whole free block of entry k is there, whatever stale bytes lie inside. */
  lemma {:induction false} EndTag(m: Memory, t: Tree, o: int, k: nat)
    requires Fits(t, TOP) && NoHeld(t) && Tags(m, t) && Sub(t, TOP, o, k).Some? && k <= TOP
    ensures 0 <= Last(o, k) < |m|
    ensures IsFree(t, TOP, o, k) <==> Hi(m[Last(o, k)]) == k
    ensures Hi(m[Last(o, k)]) == USED || Hi(m[Last(o, k)]) <= k
    decreases k
  {
    SubFits(t, TOP, o, k);
    SubNoHeld(t, TOP, o, k);
    SubBounds(t, TOP, o, k);
    var s := Sub(t, TOP, o, k).value;
    if s.Node? {
      var r := o + Words(k - 1);
      SubSub(t, TOP, o, k, r, k - 1);
      EndTag(m, t, r, k - 1);
      assert Last(r, k - 1) == Last(o, k);
    } else if s.Live? {
      assert IsLive(t, TOP, o, k) && TagIs(m, o, k, USED);
    } else {
      assert IsFree(t, TOP, o, k) && TagIs(m, o, k, k);
    }
  }

  // ----- primitive steps on the lists -----

  /** Word w is not a link word of a head or of a free block. */
  ghost predicate NotLink(bs: nat, t: Tree, w: nat) {
    && w >= POOL
    && (forall e: nat, x: nat :: FreeNode(t, e, x) ==> w != x && w != x + 1)
  }

  /** Writing a word that is no link keeps the lists. */
  lemma ListingWrite(bs: nat, m: Memory, t: Tree, ls: Buckets, w: nat, v: Word)
    requires Listing(bs, m, t, ls) && w < |m| && NotLink(bs, t, w)
    ensures Listing(bs, m[w := v], t, ls)
  {
    forall e | 0 <= e < ENTRIES ensures Ring(m[w := v], RingOf(bs, ls, e)) {
      var r := RingOf(bs, ls, e);
      forall i | 0 <= i < |r| ensures w != r[i] && w != r[i] + 1 {
        RingNode(bs, t, ls, e, i);
      }
      RingFrame(m, m[w := v], r);
    }
  }

  /** The words of a leaf that is not free are no links; nor are the words of a free leaf after the first two. */
  lemma LeafWordNotLink(bs: nat, t: Tree, o: int, k: nat, w: nat)
    requires IsLeaf(t, TOP, o, k) && POOL + o <= w < POOL + o + Words(k)
    requires IsFree(t, TOP, o, k) ==> w > POOL + o + 1
    ensures NotLink(bs, t, w)
  {
    SubBounds(t, TOP, o, k);
    forall e: nat, x: nat | FreeNode(t, e, x) ensures w != x && w != x + 1 {
      FreeLinksOutside(t, o, k, w, e, x);
    }
  }

  lemma FreeLinksOutside(t: Tree, o: int, k: nat, w: nat, e: nat, x: nat)
    requires IsLeaf(t, TOP, o, k) && POOL + o <= w < POOL + o + Words(k) && FreeNode(t, e, x)
    requires IsFree(t, TOP, o, k) ==> w > POOL + o + 1
    ensures w != x && w != x + 1
  {
    LeafApart(t, TOP, o, k, x - POOL, e);
  }

  /** Changing the tree where no leaf is free before or after keeps the lists. */
  lemma ListingReshape(bs: nat, m: Memory, t: Tree, ls: Buckets, o: int, k: nat, s: Tree)
    requires Listing(bs, m, t, ls) && Sub(t, TOP, o, k).Some?
    requires forall o': int, k': nat :: !IsFree(Sub(t, TOP, o, k).value, k, o', k') && !IsFree(s, k, o', k')
    ensures Listing(bs, m, Graft(t, TOP, o, k, s), ls)
  {
    forall e: nat, x: nat | 0 <= e < ENTRIES ensures x in ls[e] <==> FreeNode(Graft(t, TOP, o, k, s), e, x) {
      assert x in ls[e] <==> FreeNode(t, e, x);
      if x >= POOL { GraftNotFree(t, TOP, o, k, s, x - POOL, e); }
    }
  }

  /** Rings of different buckets share no word. */
  lemma RingsApart(bs: nat, t: Tree, ls: Buckets, e: nat, i: nat, e': nat)
    requires Members(t, ls) && e < ENTRIES && e' < ENTRIES && e != e' && bs + 3 * ENTRIES <= POOL && i <= |ls[e]|
    ensures ClearOf(RingOf(bs, ls, e'), RingOf(bs, ls, e)[i])
  {
    RingNode(bs, t, ls, e, i);
    forall i' | 0 <= i' < |RingOf(bs, ls, e')| ensures Clear(RingOf(bs, ls, e)[i], RingOf(bs, ls, e')[i']) {
      RingNode(bs, t, ls, e', i');
      if i > 0 && i' > 0 {
        LeafApart(t, TOP, ls[e][i - 1] - POOL, e, ls[e'][i' - 1] - POOL, e');
      }
    }
  }

  /** list_del of the block at position i of bucket e. */
  lemma Detach(bs: nat, m: Memory, t: Tree, ls: Buckets, e: nat, i: nat)
    requires Listing(bs, m, t, ls) && e < ENTRIES && i < |ls[e]|
    ensures FreeNode(t, e, ls[e][i])
    ensures var r := RingOf(bs, ls, e);
            var p, x := r[Prev(r, i + 1)], r[Next(r, i + 1)];
            && p + 1 < |m| && x + 1 < |m|
            && Listing(bs, Unlinked(m, p, x), Graft(t, TOP, ls[e][i] - POOL, e, Held), ls[e := Removed(ls[e], i)])
  {
    RingNode(bs, t, ls, e, i + 1);
    var r := RingOf(bs, ls, e);
    assert Ring(m, r);
    var p, x := r[Prev(r, i + 1)], r[Next(r, i + 1)];
    var ls' := ls[e := Removed(ls[e], i)];
    forall e' | 0 <= e' < ENTRIES ensures Ring(Unlinked(m, p, x), RingOf(bs, ls', e')) {
      DetachRing(bs, m, t, ls, e, i, e');
    }
    DetachMembers(bs, m, t, ls, e, i);
  }

  lemma DetachRing(bs: nat, m: Memory, t: Tree, ls: Buckets, e: nat, i: nat, e': nat)
    requires Members(t, ls) && bs + 3 * ENTRIES <= POOL && e < ENTRIES && i < |ls[e]| && e' < ENTRIES
    requires Ring(m, RingOf(bs, ls, e)) && Ring(m, RingOf(bs, ls, e'))
    ensures var r := RingOf(bs, ls, e);
            Ring(Unlinked(m, r[Prev(r, i + 1)], r[Next(r, i + 1)]), RingOf(bs, ls[e := Removed(ls[e], i)], e'))
  {
    var r := RingOf(bs, ls, e);
    RemovedRing(bs, ls, e, i, e');
    if e' == e {
      UnlinkedRing(m, r, i + 1);
    } else {
      DetachElsewhere(bs, m, t, ls, e, i + 1, e');
    }
  }

  lemma RemovedRing(bs: nat, ls: Buckets, e: nat, i: nat, e': nat)
    requires e < |ls| && e' < |ls| && i < |ls[e]|
    ensures RingOf(bs, ls[e := Removed(ls[e], i)], e') == if e' == e then Removed(RingOf(bs, ls, e), i + 1) else RingOf(bs, ls, e')
  {
  }

  lemma DetachElsewhere(bs: nat, m: Memory, t: Tree, ls: Buckets, e: nat, i: nat, e': nat)
    requires Members(t, ls) && bs + 3 * ENTRIES <= POOL && e < ENTRIES && i <= |ls[e]| && e' < ENTRIES && e != e'
    requires var r := RingOf(bs, ls, e); r[Prev(r, i)] + 1 < |m| && r[Next(r, i)] + 1 < |m|
    requires Ring(m, RingOf(bs, ls, e'))
    ensures var r := RingOf(bs, ls, e); Ring(Unlinked(m, r[Prev(r, i)], r[Next(r, i)]), RingOf(bs, ls, e'))
  {
    var r := RingOf(bs, ls, e);
    RingsApart(bs, t, ls, e, Prev(r, i), e');
    RingsApart(bs, t, ls, e, Next(r, i), e');
    UnlinkedElsewhere(m, r[Prev(r, i)], r[Next(r, i)], RingOf(bs, ls, e'));
  }

  lemma DetachMembers(bs: nat, m: Memory, t: Tree, ls: Buckets, e: nat, i: nat)
    requires Members(t, ls) && e < ENTRIES && i < |ls[e]| && Ring(m, RingOf(bs, ls, e))
    requires FreeNode(t, e, ls[e][i])
    ensures Members(Graft(t, TOP, ls[e][i] - POOL, e, Held), ls[e := Removed(ls[e], i)])
  {
    var b := ls[e][i];
    var t' := Graft(t, TOP, b - POOL, e, Held);
    var ls' := ls[e := Removed(ls[e], i)];
    assert forall j :: 0 <= j < |ls[e]| && j != i ==> ls[e][j] != b by {
      var r := RingOf(bs, ls, e);
      RemovedMembers(r, i + 1);
      assert forall j :: 0 <= j < |ls[e]| ==> ls[e][j] == r[j + 1];
    }
    forall e': nat, y: nat | e' < ENTRIES ensures y in ls'[e'] <==> FreeNode(t', e', y) {
      assert y in ls[e'] <==> FreeNode(t, e', y);
      FreeGrafted(t, e, b, Held, e', y);
      if e' == e { RemovedIn(ls[e], i, y); }
    }
  }

  lemma RemovedMembers(r: seq<nat>, i: nat)
    requires i < |r|
    requires forall i, j :: 0 <= i < j < |r| ==> Clear(r[i], r[j])
    ensures forall j :: 0 <= j < |r| && j != i ==> r[j] != r[i]
  {
  }

  lemma RemovedIn(l: seq<nat>, i: nat, y: nat)
    requires i < |l| && forall j :: 0 <= j < |l| && j != i ==> l[j] != l[i]
    ensures y in Removed(l, i) <==> y in l && y != l[i]
  {
    var q := Removed(l, i);
    if y in l && y != l[i] {
      var j :| 0 <= j < |l| && l[j] == y;
      assert q[if j < i then j else j - 1] == y;
    }
    if y in q {
      var j :| 0 <= j < |q| && q[j] == y;
      assert l[if j < i then j else j + 1] == y;
    }
  }

  /** A block has its first two words and its last inside the memory. */
  lemma BlockInside(t: Tree, b: nat, e: nat)
    requires b >= POOL && Sub(t, TOP, b - POOL, e).Some?
    ensures b + 1 < POOL + Words(TOP) && Last(b - POOL, e) < POOL + Words(TOP)
  {
    SubBounds(t, TOP, b - POOL, e);
  }

  /** list_add of a held block to the front of bucket e. */
  lemma Attach(bs: nat, m: Memory, t: Tree, ls: Buckets, e: nat, b: nat)
    requires Listing(bs, m, t, ls) && e < ENTRIES && b >= POOL && Sub(t, TOP, b - POOL, e) == Some(Held)
    ensures var r := RingOf(bs, ls, e);
            && b + 1 < |m| && Last(b - POOL, e) < |m| && ClearOf(r, b) && r[Next(r, 0)] + 1 < |m| && r[0] + 1 < |m|
            && Listing(bs, Linked(m, b, r[0], r[Next(r, 0)]), Graft(t, TOP, b - POOL, e, Free), ls[e := [b] + ls[e]])
  {
    BlockInside(t, b, e);
    var r := RingOf(bs, ls, e);
    assert Ring(m, r);
    HeldClear(bs, t, ls, e, b, e);
    var m' := Linked(m, b, r[0], r[Next(r, 0)]);
    var ls' := ls[e := [b] + ls[e]];
    forall e' | 0 <= e' < ENTRIES ensures Ring(m', RingOf(bs, ls', e')) {
      AttachRing(bs, m, t, ls, e, b, e');
    }
    AttachMembers(t, ls, e, b);
  }

  lemma AttachRing(bs: nat, m: Memory, t: Tree, ls: Buckets, e: nat, b: nat, e': nat)
    requires Members(t, ls) && bs + 3 * ENTRIES <= POOL && e < ENTRIES && e' < ENTRIES && b + 1 < |m|
    requires b >= POOL && Sub(t, TOP, b - POOL, e) == Some(Held)
    requires Ring(m, RingOf(bs, ls, e)) && Ring(m, RingOf(bs, ls, e'))
    ensures var r := RingOf(bs, ls, e);
            Ring(Linked(m, b, r[0], r[Next(r, 0)]), RingOf(bs, ls[e := [b] + ls[e]], e'))
  {
    var r := RingOf(bs, ls, e);
    var ls' := ls[e := [b] + ls[e]];
    HeldClear(bs, t, ls, e, b, e');
    if e' == e {
      LinkedRing(m, r, 0, b);
      assert RingOf(bs, ls', e) == Inserted(r, 0, b);
    } else {
      assert RingOf(bs, ls', e') == RingOf(bs, ls, e');
      RingsApart(bs, t, ls, e, 0, e');
      RingsApart(bs, t, ls, e, Next(r, 0), e');
      LinkedElsewhere(m, b, r[0], r[Next(r, 0)], RingOf(bs, ls, e'));
    }
  }

  lemma AttachMembers(t: Tree, ls: Buckets, e: nat, b: nat)
    requires Members(t, ls) && e < ENTRIES && b >= POOL && Sub(t, TOP, b - POOL, e) == Some(Held)
    ensures Members(Graft(t, TOP, b - POOL, e, Free), ls[e := [b] + ls[e]])
  {
    var t' := Graft(t, TOP, b - POOL, e, Free);
    var ls' := ls[e := [b] + ls[e]];
    forall e': nat, y: nat | e' < ENTRIES ensures y in ls'[e'] <==> FreeNode(t', e', y) {
      assert y in ls[e'] <==> FreeNode(t, e', y);
      FreeGrafted(t, e, b, Free, e', y);
    }
  }

  /** Replacing a leaf at b by a leaf s changes whether b is free and nothing else. */
  lemma FreeGrafted(t: Tree, e: nat, b: nat, s: Tree, e': nat, y: nat)
    requires b >= POOL && IsLeaf(t, TOP, b - POOL, e) && !s.Node?
    ensures FreeNode(Graft(t, TOP, b - POOL, e, s), e', y) <==> if y == b && e' == e then s == Free else FreeNode(t, e', y)
  {
    if y >= POOL { GraftKind(t, TOP, b - POOL, e, s, y - POOL, e', Free); }
  }

  lemma HeldClear(bs: nat, t: Tree, ls: Buckets, e: nat, b: nat, e': nat)
    requires Members(t, ls) && bs + 3 * ENTRIES <= POOL && b >= POOL
    requires Sub(t, TOP, b - POOL, e) == Some(Held) && e' < ENTRIES
    ensures ClearOf(RingOf(bs, ls, e'), b)
  {
    var r := RingOf(bs, ls, e');
    forall i | 0 <= i < |r| ensures Clear(b, r[i]) {
      RingNode(bs, t, ls, e', i);
      if i > 0 {
        LeafApart(t, TOP, b - POOL, e, r[i] - POOL, e');
      }
    }
  }

  // ----- which words the list steps write -----

  /** All listed blocks. */
  ghost function Blocks(ls: Buckets): set<nat> { set e: nat, x: nat | e < |ls| && x in ls[e] :: x }

  /** In the pool only the links of blocks of xs have changed, and perhaps word w0. */
  ghost predicate OnlyLinks(m: Memory, m': Memory, xs: set<nat>, w0: int) {
    |m'| == |m| && forall w: nat :: POOL <= w < |m| && w != w0 && w !in xs && w - 1 !in xs ==> m'[w] == m[w]
  }

  lemma OnlyTrans(m: Memory, m1: Memory, m2: Memory, xs: set<nat>, w1: int, ys: set<nat>, w2: int, zs: set<nat>, w0: int)
    requires OnlyLinks(m, m1, xs, w1) && OnlyLinks(m1, m2, ys, w2) && xs <= zs && ys <= zs
    requires (w1 == w0 || w1 < POOL) && (w2 == w0 || w2 < POOL)
    ensures OnlyLinks(m, m2, zs, w0)
  {
  }

  /** Fewer listed blocks. */
  lemma BlocksFewer(ls: Buckets, ls': Buckets)
    requires |ls| == |ls'| && forall e: nat, x: nat :: e < |ls| && x in ls[e] ==> x in ls'[e]
    ensures Blocks(ls) <= Blocks(ls')
  {
  }

  /** list_del writes links of the block's neighbours. */
  lemma UnlinkLinks(bs: nat, m: Memory, ls: Buckets, e: nat, i: nat, j: nat)
    requires |ls| == ENTRIES && e < ENTRIES && i <= |ls[e]| && j <= |ls[e]| && bs + 3 * ENTRIES <= POOL
    requires RingOf(bs, ls, e)[i] + 1 < |m| && RingOf(bs, ls, e)[j] + 1 < |m|
    ensures OnlyLinks(m, Unlinked(m, RingOf(bs, ls, e)[i], RingOf(bs, ls, e)[j]), Blocks(ls), 0)
  {
    RingLink(bs, ls, e, i);
    RingLink(bs, ls, e, j);
  }

  lemma RingLink(bs: nat, ls: Buckets, e: nat, i: nat)
    requires |ls| == ENTRIES && e < ENTRIES && i <= |ls[e]| && bs + 3 * ENTRIES <= POOL
    ensures var x := RingOf(bs, ls, e)[i]; x + 1 < POOL || x in Blocks(ls)
  {
    if i > 0 { assert ls[e][i - 1] in ls[e]; }
  }

  /** list_add writes links of the new block, of the head and of the block that was first. */
  lemma LinkLinks(bs: nat, m: Memory, ls: Buckets, e: nat, b: nat)
    requires |ls| == ENTRIES && e < ENTRIES && bs + 3 * ENTRIES <= POOL && b + 1 < |m|
    requires var r := RingOf(bs, ls, e); r[0] + 1 < |m| && r[Next(r, 0)] + 1 < |m|
    ensures var r := RingOf(bs, ls, e); OnlyLinks(m, Linked(m, b, r[0], r[Next(r, 0)]), Blocks(ls[e := [b] + ls[e]]), 0)
  {
    var r, ls' := RingOf(bs, ls, e), ls[e := [b] + ls[e]];
    RingLink(bs, ls, e, Next(r, 0));
    assert ls'[e][0] == b;
    assert b in ls'[e];
    BlocksFewer(ls, ls');
    assert b in Blocks(ls');
  }

  /** The words of a block that is not free, and all but the first two of one that is, are no links. */
  lemma NotInLinks(bs: nat, t: Tree, ls: Buckets, w: nat)
    requires NotLink(bs, t, w) && Members(t, ls)
    ensures w !in Blocks(ls) && w - 1 !in Blocks(ls)
  {
    forall e: nat, x: nat | e < |ls| && x in ls[e] ensures w != x && w - 1 != x {
      assert FreeNode(t, e, x);
    }
  }

  // ----- primitive steps on the tags and on the clients' data -----

  /** Word w belongs to no live block and holds no free block's tag. */
  ghost predicate Idle(t: Tree, w: nat) {
    && (forall o: int, k: nat :: IsLive(t, TOP, o, k) ==> !(POOL + o <= w <= Last(o, k)))
    && (forall o: int, k: nat :: IsFree(t, TOP, o, k) ==> w != Last(o, k))
  }

  /** The words of one block are the same in both memories. */
  ghost predicate SameBlock(m: Memory, m': Memory, o: int, k: nat) {
    forall w :: 0 <= w < |m| && w < |m'| && POOL + o <= w <= Last(o, k) ==> m'[w] == m[w]
  }

  /** Every live block of t keeps all its words: preamble, payload and tag. */
  ghost predicate Untouched(m: Memory, m': Memory, t: Tree) {
    |m'| == |m| && forall o: int, k: nat :: IsLive(t, TOP, o, k) ==> SameBlock(m, m', o, k)
  }

  lemma UntouchedTrans(m: Memory, m1: Memory, m2: Memory, t: Tree)
    requires Untouched(m, m1, t) && Untouched(m1, m2, t)
    ensures Untouched(m, m2, t)
  {
    forall o: int, k: nat | IsLive(t, TOP, o, k) ensures SameBlock(m, m2, o, k) {
      assert SameBlock(m, m1, o, k) && SameBlock(m1, m2, o, k);
    }
  }

  /** Changing idle words only keeps every tag and every live block. */
  lemma WriteIdle(m: Memory, m': Memory, t: Tree)
    requires Tags(m, t) && |m'| == |m|
    requires forall w :: 0 <= w < |m| && m'[w] != m[w] ==> Idle(t, w)
    ensures Tags(m', t) && Untouched(m, m', t)
  {
    forall o: int, k: nat | IsFree(t, TOP, o, k) ensures TagIs(m', o, k, k) {
      assert TagIs(m, o, k, k);
      assert m'[Last(o, k)] == m[Last(o, k)];
    }
    forall o: int, k: nat | IsLive(t, TOP, o, k) ensures TagIs(m', o, k, USED) && PreambleIs(m', o, k) && SameBlock(m, m', o, k) {
      assert TagIs(m, o, k, USED) && PreambleIs(m, o, k);
      SubBounds(t, TOP, o, k);
      forall w | 0 <= w < |m| && POOL + o <= w <= Last(o, k) ensures m'[w] == m[w] {
      }
      assert m'[Last(o, k)] == m[Last(o, k)] && m'[POOL + o] == m[POOL + o];
    }
  }

  /** The link words of heads and of blocks that are not live are idle; so is any word of a held block. */
  lemma LinkIdle(t: Tree, o: int, k: nat, w: nat)
    requires IsLeaf(t, TOP, o, k) && !IsLive(t, TOP, o, k)
    requires POOL + o <= w < POOL + o + Words(k) && (IsFree(t, TOP, o, k) ==> w <= POOL + o + 1)
    ensures Idle(t, w)
  {
    forall o': int, k': nat | IsLive(t, TOP, o', k') ensures !(POOL + o' <= w <= Last(o', k')) {
      LeafApart(t, TOP, o, k, o', k');
    }
    forall o': int, k': nat | IsFree(t, TOP, o', k') ensures w != Last(o', k') {
      LeafApart(t, TOP, o, k, o', k');
    }
  }

  lemma HeadIdle(t: Tree, w: nat)
    requires w < POOL
    ensures Idle(t, w)
  {
    forall o: int, k: nat | IsLeaf(t, TOP, o, k) ensures o >= 0 {
      SubBounds(t, TOP, o, k);
    }
    assert forall o: int, k: nat :: IsLive(t, TOP, o, k) ==> IsLeaf(t, TOP, o, k);
    assert forall o: int, k: nat :: IsFree(t, TOP, o, k) ==> IsLeaf(t, TOP, o, k);
  }

  /** Every listed block is, in the tree t, a block that is not live. */
  ghost predicate ListedIdle(ls: Buckets, t: Tree) {
    |ls| == ENTRIES && forall e: nat, x: nat :: e < ENTRIES && x in ls[e] ==> IdleNode(t, e, x)
  }

  ghost predicate IdleNode(t: Tree, e: nat, x: nat) {
    x >= POOL && (Sub(t, TOP, x - POOL, e) == Some(Free) || Sub(t, TOP, x - POOL, e) == Some(Held))
  }

  lemma MembersIdle(t: Tree, ls: Buckets)
    requires Members(t, ls)
    ensures ListedIdle(ls, t)
  {
    forall e: nat, x: nat | e < ENTRIES && x in ls[e] ensures IdleNode(t, e, x) {
      assert FreeNode(t, e, x);
    }
  }

  lemma NodeIdle(t: Tree, e: nat, x: nat)
    requires IdleNode(t, e, x)
    ensures Idle(t, x) && Idle(t, x + 1)
  {
    LinkIdle(t, x - POOL, e, x);
    LinkIdle(t, x - POOL, e, x + 1);
  }

  lemma RingIdle(bs: nat, t: Tree, ls: Buckets, e: nat, i: nat)
    requires ListedIdle(ls, t) && e < ENTRIES && i <= |ls[e]| && bs + 3 * ENTRIES <= POOL
    ensures Idle(t, RingOf(bs, ls, e)[i]) && Idle(t, RingOf(bs, ls, e)[i] + 1)
  {
    var x := RingOf(bs, ls, e)[i];
    if i > 0 {
      assert x == ls[e][i - 1];
      assert x in ls[e];
      NodeIdle(t, e, x);
    } else {
      HeadIdle(t, x);
      HeadIdle(t, x + 1);
    }
  }

  /** list_del writes only idle words. */
  lemma UnlinkIdle(bs: nat, m: Memory, t: Tree, ls: Buckets, e: nat, i: nat, j: nat)
    requires Tags(m, t) && ListedIdle(ls, t) && e < ENTRIES && i <= |ls[e]| && j <= |ls[e]| && bs + 3 * ENTRIES <= POOL
    requires RingOf(bs, ls, e)[i] + 1 < |m| && RingOf(bs, ls, e)[j] + 1 < |m|
    ensures var m' := Unlinked(m, RingOf(bs, ls, e)[i], RingOf(bs, ls, e)[j]);
            Tags(m', t) && Untouched(m, m', t)
  {
    var p, x := RingOf(bs, ls, e)[i], RingOf(bs, ls, e)[j];
    RingIdle(bs, t, ls, e, i);
    RingIdle(bs, t, ls, e, j);
    WriteIdle(m, Unlinked(m, p, x), t);
  }

  lemma IdleLinked(m: Memory, t: Tree, n: nat, p: nat, x: nat)
    requires n + 1 < |m| && p + 1 < |m| && x + 1 < |m| && Tags(m, t)
    requires Idle(t, n) && Idle(t, n + 1) && Idle(t, p) && Idle(t, x + 1)
    ensures Tags(Linked(m, n, p, x), t) && Untouched(m, Linked(m, n, p, x), t)
  {
    var m' := Linked(m, n, p, x);
    forall w | 0 <= w < |m| && m'[w] != m[w] ensures Idle(t, w) {
      assert w == n || w == n + 1 || w == p || w == x + 1;
    }
    WriteIdle(m, m', t);
  }

  /** list_add writes only idle words. */
  lemma LinkIdleWrites(bs: nat, m: Memory, t: Tree, ls: Buckets, e: nat, j: nat, b: nat, k: nat)
    requires Tags(m, t) && ListedIdle(ls, t) && e < ENTRIES && j <= |ls[e]| && bs + 3 * ENTRIES <= POOL
    requires RingOf(bs, ls, e)[j] + 1 < |m| && Head(bs, e) + 1 < |m| && b + 1 < |m|
    requires b >= POOL && (Sub(t, TOP, b - POOL, k) == Some(Held) || Sub(t, TOP, b - POOL, k) == Some(Free))
    ensures var m' := Linked(m, b, Head(bs, e), RingOf(bs, ls, e)[j]);
            Tags(m', t) && Untouched(m, m', t)
  {
    var x := RingOf(bs, ls, e)[j];
    RingIdle(bs, t, ls, e, 0);
    RingIdle(bs, t, ls, e, j);
    LinkIdle(t, b - POOL, k, b);
    LinkIdle(t, b - POOL, k, b + 1);
    IdleLinked(m, t, b, Head(bs, e), x);
  }

  /** Replacing a subtree keeps the tags when the new leaves have theirs. */
  lemma TagsGraft(m: Memory, t: Tree, o: int, k: nat, s: Tree)
    requires Tags(m, t) && Sub(t, TOP, o, k).Some? && !s.Node?
    requires s == Free ==> TagIs(m, o, k, k)
    requires s == Live ==> TagIs(m, o, k, USED) && PreambleIs(m, o, k)
    ensures Tags(m, Graft(t, TOP, o, k, s))
  {
    var t' := Graft(t, TOP, o, k, s);
    forall o': int, k': nat | IsFree(t', TOP, o', k') ensures TagIs(m, o', k', k') {
      GraftNew(t, TOP, o, k, s, o', k', Free);
      if (o', k') != (o, k) || s != Free { assert IsFree(t, TOP, o', k'); }
    }
    forall o': int, k': nat | IsLive(t', TOP, o', k') ensures TagIs(m, o', k', USED) && PreambleIs(m, o', k') {
      GraftNew(t, TOP, o, k, s, o', k', Live);
      if (o', k') != (o, k) || s != Live { assert IsLive(t, TOP, o', k'); }
    }
  }

  /** Taking leaves out of the tree asks for no tag. */
  lemma TagsHold(m: Memory, t: Tree, o: int, k: nat, s: Tree)
    requires Tags(m, t) && Sub(t, TOP, o, k).Some?
    requires forall o': int, k': nat :: !IsFree(s, k, o', k') && !IsLive(s, k, o', k')
    ensures Tags(m, Graft(t, TOP, o, k, s))
  {
    var t' := Graft(t, TOP, o, k, s);
    forall o': int, k': nat | IsFree(t', TOP, o', k') ensures IsFree(t, TOP, o', k') {
      GraftLeaf(t, TOP, o, k, s, o', k', Free);
      assert !IsFree(s, k, o' - o, k');
    }
    forall o': int, k': nat | IsLive(t', TOP, o', k') ensures IsLive(t, TOP, o', k') {
      GraftLeaf(t, TOP, o, k, s, o', k', Live);
      assert !IsLive(s, k, o' - o, k');
    }
  }

  /** Live blocks of t are live in u. */
  ghost predicate LiveIn(t: Tree, u: Tree) {
    forall o: int, k: nat :: IsLive(t, TOP, o, k) ==> IsLive(u, TOP, o, k)
  }

  lemma UntouchedWeaken(m: Memory, m': Memory, t: Tree, u: Tree)
    requires Untouched(m, m', u) && LiveIn(t, u)
    ensures Untouched(m, m', t)
  {
  }

  /** Replacing a subtree by one without live leaves adds no live block; if the old one had none, it loses none. */
  lemma GraftLiveIn(t: Tree, o: int, k: nat, s: Tree)
    requires Sub(t, TOP, o, k).Some?
    requires forall o': int, k': nat :: !IsLive(s, k, o', k')
    ensures LiveIn(Graft(t, TOP, o, k, s), t)
    ensures (forall o': int, k': nat :: !IsLive(Sub(t, TOP, o, k).value, k, o', k')) ==>
              LiveIn(t, Graft(t, TOP, o, k, s))
  {
    var t' := Graft(t, TOP, o, k, s);
    forall o': int, k': nat ensures IsLive(t', TOP, o', k') ==> IsLive(t, TOP, o', k') {
      GraftLeaf(t, TOP, o, k, s, o', k', Live);
      assert !IsLive(s, k, o' - o, k');
    }
    if forall o': int, k': nat :: !IsLive(Sub(t, TOP, o, k).value, k, o', k') {
      forall o': int, k': nat ensures IsLive(t, TOP, o', k') ==> IsLive(t', TOP, o', k') {
        GraftLeaf(t, TOP, o, k, s, o', k', Live);
        assert !IsLive(Sub(t, TOP, o, k).value, k, o' - o, k');
        if IsLive(t, TOP, o', k') && o <= o' < o + Words(k) {
          LeafInside(t, TOP, o, k, o', k');
          SubSub(t, TOP, o, k, o', k');
        }
      }
    }
  }
}
