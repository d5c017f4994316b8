/** The abstract pool of the buddy allocator: a binary tree whose leaves are the free and the live
    blocks.  A node of entry k covers Words(k) 64-bit words, so the partition of the pool into
    aligned blocks is structural; what has to be proved is that the boundary tags, the bucket
    lists and the counters of malloc.c all speak about the same tree. */
module BuddyTree {
  import opened Options
  import opened Powers

  /** Held marks a block that is neither in a bucket nor handed out: it occurs only while malloc or
      free is working on it. */
  datatype Tree = Free | Live | Held | Node(left: Tree, right: Tree)

  /** Size in 64-bit words of a block of bucket entry k: 2^(k + BUDDY_MIN_ORDER) bytes. */
  function Words(k: nat): (w: nat)
    ensures w >= 4
  {
    if k == 0 then 4 else 2 * Words(k - 1)
  }

  lemma {:induction false} WordsMonotone(j: nat, k: nat)
    requires j < k
    ensures 2 * Words(j) <= Words(k)
  {
    if j + 1 < k {
      WordsMonotone(j, k - 1);
    }
  }

  /** t does not go deeper than the smallest block. */
  predicate Fits(t: Tree, e: nat) {
    t.Node? ==> e > 0 && Fits(t.left, e - 1) && Fits(t.right, e - 1)
  }

  predicate NoHeld(t: Tree) {
    !t.Held? && (t.Node? ==> NoHeld(t.left) && NoHeld(t.right))
  }

  /** Only free and live blocks, and no two free buddies side by side. */
  predicate Canonical(t: Tree) {
    && !t.Held?
    && (t.Node? ==> Canonical(t.left) && Canonical(t.right) && !(t.left == Free && t.right == Free))
  }

  /** The subtree covering the block at word offset o of entry k, if the tree goes that deep there. */
  function Sub(t: Tree, e: nat, o: int, k: nat): Option<Tree> {
    if k >= e then
      if k == e && o == 0 then Some(t) else None
    else if !t.Node? then None
    else if o < Words(e - 1) then Sub(t.left, e - 1, o, k)
    else Sub(t.right, e - 1, o - Words(e - 1), k)
  }

  predicate IsFree(t: Tree, e: nat, o: int, k: nat) { Sub(t, e, o, k) == Some(Free) }
  predicate IsLive(t: Tree, e: nat, o: int, k: nat) { Sub(t, e, o, k) == Some(Live) }
  predicate IsLeaf(t: Tree, e: nat, o: int, k: nat) {
    Sub(t, e, o, k).Some? && !Sub(t, e, o, k).value.Node?
  }

  /** The words at (o, k) and at (o', k') do not meet. */
  predicate Apart(o: int, k: nat, o': int, k': nat) {
    o + Words(k) <= o' || o' + Words(k') <= o
  }

  /** t with the subtree at (o, k) replaced by s. */
  function Graft(t: Tree, e: nat, o: int, k: nat, s: Tree): Tree
    requires Sub(t, e, o, k).Some?
  {
    if k == e then s
    else if o < Words(e - 1) then Node(Graft(t.left, e - 1, o, k, s), t.right)
    else Node(t.left, Graft(t.right, e - 1, o - Words(e - 1), k, s))
  }

  /** Blocks lie inside the pool and are word-quadruple aligned. */
  lemma {:induction false} SubBounds(t: Tree, e: nat, o: int, k: nat)
    requires Sub(t, e, o, k).Some?
    ensures k <= e && 0 <= o && o + Words(k) <= Words(e)
  {
    if k < e {
      if o < Words(e - 1) {
        SubBounds(t.left, e - 1, o, k);
      } else {
        SubBounds(t.right, e - 1, o - Words(e - 1), k);
      }
    }
  }

  lemma {:induction false} SubFits(t: Tree, e: nat, o: int, k: nat)
    requires Fits(t, e) && Sub(t, e, o, k).Some?
    ensures Fits(Sub(t, e, o, k).value, k)
  {
    if k < e {
      if o < Words(e - 1) {
        SubFits(t.left, e - 1, o, k);
      } else {
        SubFits(t.right, e - 1, o - Words(e - 1), k);
      }
    }
  }

  /** Subtrees of subtrees. */
  lemma {:induction false} SubSub(t: Tree, e: nat, o: int, k: nat, o': int, k': nat)
    requires Sub(t, e, o, k).Some? && k' <= k && o <= o' < o + Words(k)
    ensures Sub(t, e, o', k') == Sub(Sub(t, e, o, k).value, k, o' - o, k')
  {
    SubBounds(t, e, o, k);
    if k < e {
      var h := Words(e - 1);
      if o < h {
        SubBounds(t.left, e - 1, o, k);
        SubSub(t.left, e - 1, o, k, o', k');
      } else {
        SubSub(t.right, e - 1, o - h, k, o' - h, k');
      }
    }
  }

  /** A leaf that does not start inside the block at (o, k) does not overlap it. */
  lemma {:induction false} LeafOutside(t: Tree, e: nat, o: int, k: nat, o': int, k': nat)
    requires Sub(t, e, o, k).Some? && IsLeaf(t, e, o', k')
    requires !(o <= o' < o + Words(k))
    ensures o' + Words(k') <= o || o + Words(k) <= o'
  {
    SubBounds(t, e, o, k);
    SubBounds(t, e, o', k');
    if k < e && k' < e {
      var h := Words(e - 1);
      if o < h && o' < h {
        LeafOutside(t.left, e - 1, o, k, o', k');
      } else if o >= h && o' >= h {
        LeafOutside(t.right, e - 1, o - h, k, o' - h, k');
      } else if o < h {
        SubBounds(t.left, e - 1, o, k);
      } else {
        SubBounds(t.left, e - 1, o', k');
      }
    }
  }

  /** A leaf that starts inside an existing block lies inside it. */
  lemma {:induction false} LeafInside(t: Tree, e: nat, o: int, k: nat, o': int, k': nat)
    requires Sub(t, e, o, k).Some? && IsLeaf(t, e, o', k')
    requires o <= o' < o + Words(k)
    ensures k' <= k && o' + Words(k') <= o + Words(k)
  {
    SubBounds(t, e, o, k);
    SubBounds(t, e, o', k');
    if k < e && k' < e {
      var h := Words(e - 1);
      if o < h {
        SubBounds(t.left, e - 1, o, k);
        LeafInside(t.left, e - 1, o, k, o', k');
      } else {
        LeafInside(t.right, e - 1, o - h, k, o' - h, k');
      }
    }
  }

  /** Replacing the subtree at (o, k) changes the leaves inside it and no others. */
  lemma {:induction false} GraftLeaf(t: Tree, e: nat, o: int, k: nat, s: Tree, o': int, k': nat, leaf: Tree)
    requires Sub(t, e, o, k).Some? && !leaf.Node?
    ensures Sub(Graft(t, e, o, k, s), e, o', k') == Some(leaf) <==>
            if o <= o' < o + Words(k) then k' <= k && Sub(s, k, o' - o, k') == Some(leaf)
            else Sub(t, e, o', k') == Some(leaf)
  {
    SubBounds(t, e, o, k);
    if k < e {
      var h := Words(e - 1);
      if o < h {
        SubBounds(t.left, e - 1, o, k);
        if o' < h && k' < e {
          GraftLeaf(t.left, e - 1, o, k, s, o', k', leaf);
        }
      } else if k' < e {
        if o' >= h {
          GraftLeaf(t.right, e - 1, o - h, k, s, o' - h, k', leaf);
        }
      }
    } else if o <= o' < o + Words(k) {
    } else {
      if Sub(t, e, o', k').Some? { SubBounds(t, e, o', k'); WordsMonotone1(k', e); }
      if Sub(s, e, o', k').Some? { SubBounds(s, e, o', k'); WordsMonotone1(k', e); }
    }
  }

  lemma WordsMonotone1(j: nat, k: nat)
    requires j <= k
    ensures Words(j) <= Words(k)
  {
    if j < k { WordsMonotone(j, k); }
  }

  lemma {:induction false} GraftSub(t: Tree, e: nat, o: int, k: nat, s: Tree)
    requires Sub(t, e, o, k).Some?
    ensures Sub(Graft(t, e, o, k, s), e, o, k) == Some(s)
  {
    if k < e {
      if o < Words(e - 1) {
        GraftSub(t.left, e - 1, o, k, s);
      } else {
        GraftSub(t.right, e - 1, o - Words(e - 1), k, s);
      }
    }
  }

  lemma {:induction false} GraftFits(t: Tree, e: nat, o: int, k: nat, s: Tree)
    requires Fits(t, e) && Sub(t, e, o, k).Some? && Fits(s, k)
    ensures Fits(Graft(t, e, o, k, s), e)
  {
    if k < e {
      if o < Words(e - 1) {
        GraftFits(t.left, e - 1, o, k, s);
      } else {
        GraftFits(t.right, e - 1, o - Words(e - 1), k, s);
      }
    }
  }

  /** Two leaves at the same offset are the same leaf. */
  lemma {:induction false} LeafUnique(t: Tree, e: nat, o: int, k: nat, k': nat)
    requires IsLeaf(t, e, o, k) && IsLeaf(t, e, o, k')
    ensures k == k'
  {
    SubBounds(t, e, o, k);
    SubBounds(t, e, o, k');
    if k < e && k' < e {
      if o < Words(e - 1) {
        LeafUnique(t.left, e - 1, o, k, k');
      } else {
        LeafUnique(t.right, e - 1, o - Words(e - 1), k, k');
      }
    }
  }

  /** Different leaves do not overlap. */
  lemma LeafApart(t: Tree, e: nat, o: int, k: nat, o': int, k': nat)
    requires IsLeaf(t, e, o, k) && IsLeaf(t, e, o', k')
    ensures (o, k) == (o', k') || Apart(o, k, o', k')
  {
    if o <= o' < o + Words(k) {
      LeafInside(t, e, o, k, o', k');
      SubSub(t, e, o, k, o', k');
    } else {
      LeafOutside(t, e, o, k, o', k');
    }
  }

  /** Replacing a leaf by a leaf s changes what is there and nothing else. */
  lemma GraftKind(t: Tree, e: nat, o: int, k: nat, s: Tree, o': int, k': nat, leaf: Tree)
    requires IsLeaf(t, e, o, k) && !s.Node? && !leaf.Node?
    ensures Sub(Graft(t, e, o, k, s), e, o', k') == Some(leaf) <==>
            if (o', k') == (o, k) then s == leaf else Sub(t, e, o', k') == Some(leaf)
  {
    GraftLeaf(t, e, o, k, s, o', k', leaf);
    SingleLeaf(s, k, o' - o, k');
    if Sub(t, e, o', k') == Some(leaf) { LeafApart(t, e, o, k, o', k'); }
  }

  /** A leaf found after replacing a subtree by a leaf is the new one, or was there before. */
  lemma GraftNew(t: Tree, e: nat, o: int, k: nat, s: Tree, o': int, k': nat, leaf: Tree)
    requires Sub(t, e, o, k).Some? && !s.Node? && !leaf.Node? && Sub(Graft(t, e, o, k, s), e, o', k') == Some(leaf)
    ensures ((o', k') == (o, k) && s == leaf) || Sub(t, e, o', k') == Some(leaf)
  {
    GraftLeaf(t, e, o, k, s, o', k', leaf);
    SingleLeaf(s, k, o' - o, k');
  }

  /** Replacing a subtree without a free leaf at (o', k') by another one. */
  lemma GraftNotFree(t: Tree, e: nat, o: int, k: nat, s: Tree, o': int, k': nat)
    requires Sub(t, e, o, k).Some?
    requires !IsFree(Sub(t, e, o, k).value, k, o' - o, k') && !IsFree(s, k, o' - o, k')
    ensures IsFree(Graft(t, e, o, k, s), e, o', k') <==> IsFree(t, e, o', k')
  {
    GraftLeaf(t, e, o, k, s, o', k', Free);
    if IsFree(t, e, o', k') && o <= o' < o + Words(k) {
      LeafInside(t, e, o, k, o', k');
      SubSub(t, e, o, k, o', k');
    }
  }

  lemma SingleLeaf(s: Tree, k: nat, o: int, j: nat)
    requires !s.Node?
    ensures Sub(s, k, o, j) == if j == k && o == 0 then Some(s) else None
  {
  }

  lemma {:induction false} GraftSame(t: Tree, e: nat, o: int, k: nat)
    requires Sub(t, e, o, k).Some?
    ensures Graft(t, e, o, k, Sub(t, e, o, k).value) == t
  {
    if k < e {
      if o < Words(e - 1) {
        GraftSame(t.left, e - 1, o, k);
      } else {
        GraftSame(t.right, e - 1, o - Words(e - 1), k);
      }
    }
  }

  lemma {:induction false} GraftGraft(t: Tree, e: nat, o: int, k: nat, r: Tree, s: Tree)
    requires Sub(t, e, o, k).Some?
    ensures Sub(Graft(t, e, o, k, r), e, o, k).Some?
    ensures Graft(Graft(t, e, o, k, r), e, o, k, s) == Graft(t, e, o, k, s)
  {
    if k < e {
      if o < Words(e - 1) {
        GraftGraft(t.left, e - 1, o, k, r, s);
      } else {
        GraftGraft(t.right, e - 1, o - Words(e - 1), k, r, s);
      }
    }
  }

  lemma {:induction false} GraftNoHeld(t: Tree, e: nat, o: int, k: nat, s: Tree)
    requires NoHeld(t) && Sub(t, e, o, k).Some? && NoHeld(s)
    ensures NoHeld(Graft(t, e, o, k, s))
  {
    if k < e {
      if o < Words(e - 1) {
        GraftNoHeld(t.left, e - 1, o, k, s);
      } else {
        GraftNoHeld(t.right, e - 1, o - Words(e - 1), k, s);
      }
    }
  }

  lemma {:induction false} SubNoHeld(t: Tree, e: nat, o: int, k: nat)
    requires NoHeld(t) && Sub(t, e, o, k).Some?
    ensures NoHeld(Sub(t, e, o, k).value)
  {
    if k < e {
      if o < Words(e - 1) {
        SubNoHeld(t.left, e - 1, o, k);
      } else {
        SubNoHeld(t.right, e - 1, o - Words(e - 1), k);
      }
    }
  }

  lemma {:induction false} CanonicalNoHeld(t: Tree)
    requires Canonical(t)
    ensures NoHeld(t)
  {
    if t.Node? {
      CanonicalNoHeld(t.left);
      CanonicalNoHeld(t.right);
    }
  }

  // ----- buddies -----

  /** Word offset of the parent of the block at o of entry k. */
  function Parent(e: nat, o: int, k: nat): int
    requires k < e
  {
    if k + 1 == e then 0
    else if o < Words(e - 1) then Parent(e - 1, o, k)
    else Words(e - 1) + Parent(e - 1, o - Words(e - 1), k)
  }

  /** Word offset of the other half of the parent. */
  function Buddy(e: nat, o: int, k: nat): int
    requires k < e
  {
    2 * Parent(e, o, k) + Words(k) - o
  }

  /** Below the top, every block of the tree is one half of a node. */
  lemma {:induction false} ParentSub(t: Tree, e: nat, o: int, k: nat)
    requires Sub(t, e, o, k).Some? && k < e
    ensures var p := Parent(e, o, k);
            var n := Sub(t, e, p, k + 1);
            && n.Some? && n.value.Node?
            && (o == p || o == p + Words(k))
            && Sub(t, e, p, k) == Some(n.value.left)
            && Sub(t, e, p + Words(k), k) == Some(n.value.right)
  {
    SubBounds(t, e, o, k);
    var h := Words(e - 1);
    if k + 1 == e {
      assert Sub(t, e, 0, k) == Some(t.left);
      assert Sub(t, e, h, k) == Some(t.right);
    } else if o < h {
      ParentSub(t.left, e - 1, o, k);
      SubBounds(t.left, e - 1, Parent(e - 1, o, k) + Words(k), k);
    } else {
      ParentSub(t.right, e - 1, o - h, k);
      SubBounds(t.right, e - 1, Parent(e - 1, o - h, k), k);
    }
  }

  /** Parents are computed in the half that holds the block. */
  lemma ParentDown(t: Tree, e: nat, o: int, k: nat)
    requires Sub(t, e, o, k).Some? && k + 1 < e
    ensures var h := Words(e - 1);
            var c, x := if o < h then t.left else t.right, if o < h then o else o - h;
            var p := Parent(e - 1, x, k);
            && Sub(c, e - 1, x, k).Some? && Sub(c, e - 1, p, k + 1).Some?
            && 0 <= x && x + Words(k) <= h && 0 <= p && p + Words(k + 1) <= h
            && Parent(e, o, k) == if o < h then p else h + p
  {
    var h := Words(e - 1);
    var c, x := if o < h then t.left else t.right, if o < h then o else o - h;
    SubBounds(c, e - 1, x, k);
    ParentSub(c, e - 1, x, k);
    SubBounds(c, e - 1, Parent(e - 1, x, k), k + 1);
  }

  lemma BuddyDown(t: Tree, e: nat, o: int, k: nat)
    requires Sub(t, e, o, k).Some? && k + 1 < e
    ensures var h := Words(e - 1);
            var c, x := if o < h then t.left else t.right, if o < h then o else o - h;
            && Sub(c, e - 1, x, k).Some?
            && Buddy(e, o, k) == (if o < h then 0 else h) + Buddy(e - 1, x, k)
            && Sub(t, e, Buddy(e, o, k), k) == Sub(c, e - 1, Buddy(e - 1, x, k), k)
  {
    ParentDown(t, e, o, k);
    var h := Words(e - 1);
    var c, x := if o < h then t.left else t.right, if o < h then o else o - h;
    ParentSub(c, e - 1, x, k);
    SubBounds(c, e - 1, Buddy(e - 1, x, k), k);
  }

  /** Bitwise exclusive or of two natural numbers. */
  function Xor(a: nat, b: nat): nat
    decreases a + b
  {
    if a == 0 && b == 0 then 0 else (a % 2 + b % 2) % 2 + 2 * Xor(a / 2, b / 2)
  }

  lemma XorZero(a: nat)
    ensures Xor(a, 0) == a
  {
  }

  lemma {:induction false} XorDouble(a: nat, b: nat)
    ensures Xor(2 * a, 2 * b) == 2 * Xor(a, b)
  {
  }

  lemma {:induction false} XorTop(a: nat, i: nat, j: nat)
    requires i < j && a < Pow2(j)
    ensures Xor(Pow2(j) + a, Pow2(i)) == Pow2(j) + Xor(a, Pow2(i))
  {
    if i == 0 {
      XorZero(a / 2);
      XorZero((Pow2(j) + a) / 2);
      assert Pow2(0) == 1;
      assert (Pow2(j) + a) % 2 == a % 2;
      if a == 0 { assert Xor(0, 1) == 1; }
    } else {
      XorTop(a / 2, i - 1, j - 1);
      assert (Pow2(j) + a) / 2 == Pow2(j - 1) + a / 2;
      assert (Pow2(j) + a) % 2 == a % 2;
      assert Pow2(i) / 2 == Pow2(i - 1) && Pow2(i) % 2 == 0;
    }
  }

  lemma {:induction false} WordsPow2(k: nat)
    ensures Words(k) == Pow2(k + 2)
  {
    if k == 0 { assert Pow2(2) == 2 * Pow2(1) == 4 * Pow2(0); } else { WordsPow2(k - 1); }
  }

  lemma {:induction false} XorHalves(k: nat)
    ensures Xor(0, Pow2(k)) == Pow2(k) && Xor(Pow2(k), Pow2(k)) == 0
  {
    if k > 0 {
      XorHalves(k - 1);
      XorDouble(0, Pow2(k - 1));
      XorDouble(Pow2(k - 1), Pow2(k - 1));
    }
  }

  /** The last two facts for block sizes. */
  lemma XorSizes(a: nat, k: nat, d: nat)
    requires k < d && a < Words(d)
    ensures Xor(Words(d) + a, Words(k)) == Words(d) + Xor(a, Words(k))
    ensures Xor(0, Words(k)) == Words(k) && Xor(Words(k), Words(k)) == 0
  {
    WordsPow2(k);
    WordsPow2(d);
    XorTop(a, k + 2, d + 2);
    XorHalves(k + 2);
  }

  /** Flipping the size bit of a block offset, as buddy_try_merge does, gives the buddy's offset. */
  lemma {:induction false} XorWordsIsBuddy(t: Tree, e: nat, o: int, k: nat)
    requires Sub(t, e, o, k).Some? && k < e
    ensures o >= 0 && Xor(o, Words(k)) == Buddy(e, o, k)
  {
    SubBounds(t, e, o, k);
    if k + 1 == e {
      ParentSub(t, e, o, k);
      XorSizes(0, k, e);
    } else {
      BuddyDown(t, e, o, k);
      var h := Words(e - 1);
      if o < h {
        XorWordsIsBuddy(t.left, e - 1, o, k);
      } else {
        SubBounds(t.right, e - 1, o - h, k);
        XorWordsIsBuddy(t.right, e - 1, o - h, k);
        XorSizes(o - h, k, e - 1);
        assert h + (o - h) == o;
      }
    }
  }

  /** The same on byte offsets: (addr - mem_base) ^ size. */
  lemma XorIsBuddy(t: Tree, e: nat, o: int, k: nat)
    requires Sub(t, e, o, k).Some? && k < e
    ensures o >= 0 && Xor(8 * o, 8 * Words(k)) == 8 * Buddy(e, o, k)
  {
    XorWordsIsBuddy(t, e, o, k);
    XorDouble(o, Words(k));
    XorDouble(2 * o, 2 * Words(k));
    XorDouble(4 * o, 4 * Words(k));
  }

  // ----- the meaning of free and of coalescing -----

  function Join(l: Tree, r: Tree): Tree {
    if l == Free && r == Free then Free else Node(l, r)
  }

  /** The tree after freeing the block at (o, k), coalescing all the way up. */
  function Release(t: Tree, e: nat, o: int, k: nat): Tree
    requires Sub(t, e, o, k).Some?
  {
    if k == e then Free
    else if o < Words(e - 1) then Join(Release(t.left, e - 1, o, k), t.right)
    else Join(t.left, Release(t.right, e - 1, o - Words(e - 1), k))
  }

  /** Freeing keeps the tree canonical. */
  lemma {:induction false} ReleaseCanonical(t: Tree, e: nat, o: int, k: nat)
    requires Sub(t, e, o, k).Some? && Canonical(t)
    ensures Canonical(Release(t, e, o, k))
  {
    if k < e {
      if o < Words(e - 1) {
        ReleaseCanonical(t.left, e - 1, o, k);
      } else {
        ReleaseCanonical(t.right, e - 1, o - Words(e - 1), k);
      }
    }
  }

  /** One turn of the merge loop: when the buddy is free, freeing the block is freeing the parent. */
  lemma {:induction false} ReleaseMerge(t: Tree, e: nat, o: int, k: nat)
    requires Sub(t, e, o, k).Some? && k < e && IsFree(t, e, Buddy(e, o, k), k)
    ensures var p := Parent(e, o, k);
            && Sub(t, e, p, k + 1).Some?
            && Sub(Graft(t, e, p, k + 1, Free), e, p, k + 1) == Some(Free)
            && Release(t, e, o, k) == Release(Graft(t, e, p, k + 1, Free), e, p, k + 1)
  {
    ParentSub(t, e, o, k);
    var p := Parent(e, o, k);
    GraftSub(t, e, p, k + 1, Free);
    ReleaseMergeEq(t, e, o, k);
  }

  lemma {:induction false} ReleaseMergeEq(t: Tree, e: nat, o: int, k: nat)
    requires Sub(t, e, o, k).Some? && k < e && IsFree(t, e, Buddy(e, o, k), k)
    requires Sub(t, e, Parent(e, o, k), k + 1).Some?
    requires IsFree(Graft(t, e, Parent(e, o, k), k + 1, Free), e, Parent(e, o, k), k + 1)
    ensures var p := Parent(e, o, k);
            Release(t, e, o, k) == Release(Graft(t, e, p, k + 1, Free), e, p, k + 1)
  {
    ParentSub(t, e, o, k);
    if k + 1 < e {
      ParentDown(t, e, o, k);
      BuddyDown(t, e, o, k);
      var h := Words(e - 1);
      if o < h {
        ReleaseMergeEq(t.left, e - 1, o, k);
      } else {
        ReleaseMergeEq(t.right, e - 1, o - h, k);
      }
    }
  }

  /** The loop's exit: when the buddy is not free, or at the top, freeing touches only the block. */
  lemma {:induction false} ReleaseStop(t: Tree, e: nat, o: int, k: nat)
    requires Sub(t, e, o, k).Some? && (k < e ==> !IsFree(t, e, Buddy(e, o, k), k))
    ensures Release(t, e, o, k) == Graft(t, e, o, k, Free)
  {
    if k + 1 < e {
      BuddyDown(t, e, o, k);
      var h := Words(e - 1);
      if o < h {
        ReleaseStop(t.left, e - 1, o, k);
      } else {
        ReleaseStop(t.right, e - 1, o - h, k);
      }
    } else if k < e {
      ParentSub(t, e, o, k);
    }
  }

  // ----- history independence, conservation, completeness -----

  /** Freeing gives back exactly the words of the block: no other block becomes live or stops being live. */
  lemma {:induction false} ReleaseLive(t: Tree, e: nat, o: int, k: nat, o': int, k': nat)
    requires IsLive(t, e, o, k)
    ensures IsLive(Release(t, e, o, k), e, o', k') <==> IsLive(t, e, o', k') && (o', k') != (o, k)
  {
    SubBounds(t, e, o, k);
    if k < e && k' < e {
      var h, d := Words(e - 1), e - 1;
      var left := o < h;
      var l := if left then Release(t.left, d, o, k) else t.left;
      var r := if left then t.right else Release(t.right, d, o - h, k);
      assert Release(t, e, o, k) == Join(l, r);
      assert Sub(Join(l, r), e, o', k') == Some(Live) <==>
             (if o' < h then IsLive(l, d, o', k') else IsLive(r, d, o' - h, k'));
      if left && o' < h {
        ReleaseLive(t.left, d, o, k, o', k');
      } else if !left && o' >= h {
        ReleaseLive(t.right, d, o - h, k, o' - h, k');
      }
    }
  }

  ghost predicate SameLive(t: Tree, u: Tree, e: nat) {
    forall o: int, k: nat :: IsLive(t, e, o, k) <==> IsLive(u, e, o, k)
  }

  lemma SameLiveHalves(t: Tree, u: Tree, e: nat)
    requires e > 0 && t.Node? && u.Node? && SameLive(t, u, e)
    ensures SameLive(t.left, u.left, e - 1) && SameLive(t.right, u.right, e - 1)
  {
    var h, d := Words(e - 1), e - 1;
    forall o: int, k: nat
      ensures IsLive(t.left, d, o, k) <==> IsLive(u.left, d, o, k)
    {
      assert IsLive(t, e, o, k) <==> IsLive(u, e, o, k);
      if IsLive(t.left, d, o, k) { SubBounds(t.left, d, o, k); }
      if IsLive(u.left, d, o, k) { SubBounds(u.left, d, o, k); }
    }
    forall o: int, k: nat
      ensures IsLive(t.right, d, o, k) <==> IsLive(u.right, d, o, k)
    {
      assert IsLive(t, e, o + h, k) <==> IsLive(u, e, o + h, k);
      if IsLive(t.right, d, o, k) { SubBounds(t.right, d, o, k); }
      if IsLive(u.right, d, o, k) { SubBounds(u.right, d, o, k); }
    }
  }

  /** A canonical tree that is not one free block has a live block. */
  lemma {:induction false} SomeLive(t: Tree, e: nat) returns (o: int, k: nat)
    requires Canonical(t) && Fits(t, e) && t != Free
    ensures IsLive(t, e, o, k)
  {
    if t.Live? {
      o, k := 0, e;
    } else if t.left != Free {
      o, k := SomeLive(t.left, e - 1);
      SubBounds(t.left, e - 1, o, k);
    } else {
      o, k := SomeLive(t.right, e - 1);
      SubBounds(t.right, e - 1, o, k);
      o := o + Words(e - 1);
    }
  }

  /** History independence: with coalescing complete, the live blocks determine the free blocks. */
  lemma {:induction false} LiveDeterminesFree(t: Tree, u: Tree, e: nat)
    requires Canonical(t) && Canonical(u) && Fits(t, e) && Fits(u, e)
    requires SameLive(t, u, e)
    ensures t == u
  {
    if t == Free || u == Free {
      if t != Free { var o, k := SomeLive(t, e); assert false; }
      if u != Free { var o, k := SomeLive(u, e); assert false; }
    } else if t == Live || u == Live {
      assert IsLive(t, e, 0, e) <==> IsLive(u, e, 0, e);
    } else {
      SameLiveHalves(t, u, e);
      LiveDeterminesFree(t.left, u.left, e - 1);
      LiveDeterminesFree(t.right, u.right, e - 1);
    }
  }

  /** Number of leaves of one kind and entry. */
  function Leaves(t: Tree, e: nat, kind: Tree, k: nat): nat {
    if t.Node? then
      if e == 0 then 0 else Leaves(t.left, e - 1, kind, k) + Leaves(t.right, e - 1, kind, k)
    else if t == kind && e == k then 1 else 0
  }

  /** Words covered by the leaves of one kind, of entries below n. */
  function Sum(t: Tree, e: nat, kind: Tree, n: nat): nat {
    if n == 0 then 0 else Sum(t, e, kind, n - 1) + Times(Leaves(t, e, kind, n - 1), Words(n - 1))
  }

  lemma {:induction false} SumSplit(t: Tree, e: nat, kind: Tree, n: nat)
    requires t.Node? && e > 0
    ensures Sum(t, e, kind, n) == Sum(t.left, e - 1, kind, n) + Sum(t.right, e - 1, kind, n)
  {
    if n > 0 {
      SumSplit(t, e, kind, n - 1);
      TimesAdd(Leaves(t.left, e - 1, kind, n - 1), Leaves(t.right, e - 1, kind, n - 1), Words(n - 1));
    }
  }

  lemma {:induction false} SumLeaf(t: Tree, e: nat, kind: Tree, n: nat)
    requires !t.Node?
    ensures Sum(t, e, kind, n) == if t == kind && e < n then Words(e) else 0
  {
    if n > 0 {
      SumLeaf(t, e, kind, n - 1);
    }
  }

  /** Conservation: free and live words always add up to the pool. */
  lemma {:induction false} Conservation(t: Tree, e: nat, n: nat)
    requires Fits(t, e) && NoHeld(t) && e < n
    ensures Sum(t, e, Free, n) + Sum(t, e, Live, n) == Words(e)
  {
    if t.Node? {
      SumSplit(t, e, Free, n);
      SumSplit(t, e, Live, n);
      Conservation(t.left, e - 1, n);
      Conservation(t.right, e - 1, n);
    } else {
      SumLeaf(t, e, Free, n);
      SumLeaf(t, e, Live, n);
    }
  }

  /** o is the offset of a size-aligned window of entry k inside a pool of entry e. */
  predicate Window(e: nat, o: int, k: nat) {
    if k >= e then k == e && o == 0
    else if o < Words(e - 1) then Window(e - 1, o, k)
    else Window(e - 1, o - Words(e - 1), k)
  }

  ghost predicate NoLiveIn(t: Tree, e: nat, o: int, k: nat) {
    forall o': int, k': nat :: IsLive(t, e, o', k') ==> Apart(o, k, o', k')
  }

  ghost predicate Aligned(o: int, w: int) { exists q: int :: Times(q, w) == o }

  lemma AlignedShift(o: int, q: int, w: int)
    ensures Aligned(o, w) <==> Aligned(o - Times(q, w), w)
  {
    if Aligned(o, w) {
      var r :| Times(r, w) == o;
      TimesAdd(r - q, q, w);
    }
    if Aligned(o - Times(q, w), w) {
      var r :| Times(r, w) == o - Times(q, w);
      TimesAdd(r, q, w);
    }
  }

  lemma {:induction false} AlignedFits(o: int, q: int, w: int)
    requires w > 0 && Aligned(o, w) && o < Times(q, w)
    ensures o + w <= Times(q, w)
  {
    var r :| Times(r, w) == o;
    if r < q {
      TimesMonotone(r + 1, q, w);
      TimesAdd(r, 1, w);
    } else {
      TimesMonotone(q, r, w);
    }
  }

  lemma {:induction false} WordsMultiple(e: nat, k: nat) returns (q: nat)
    requires k <= e
    ensures Words(e) == Times(q, Words(k))
  {
    if k == e {
      q := 1;
    } else {
      var p := WordsMultiple(e - 1, k);
      q := 2 * p;
      TimesAdd(p, p, Words(k));
    }
  }

  /** Windows are exactly the size-aligned ranges of the pool. */
  lemma {:induction false} WindowAligned(e: nat, o: int, k: nat)
    ensures Window(e, o, k) <==> k <= e && 0 <= o && o + Words(k) <= Words(e) && Aligned(o, Words(k))
  {
    if k < e {
      var h := Words(e - 1);
      var q := WordsMultiple(e - 1, k);
      WindowAligned(e - 1, o, k);
      WindowAligned(e - 1, o - h, k);
      AlignedShift(o, q, Words(k));
      if o < h && Aligned(o, Words(k)) {
        AlignedFits(o, q, Words(k));
      }
    } else if k == e {
      assert Times(0, Words(k)) == 0;
    }
  }

  lemma {:induction false} WindowBounds(e: nat, o: int, k: nat)
    requires Window(e, o, k)
    ensures k <= e && 0 <= o && o + Words(k) <= Words(e)
  {
    if k < e {
      if o < Words(e - 1) {
        WindowBounds(e - 1, o, k);
      } else {
        WindowBounds(e - 1, o - Words(e - 1), k);
      }
    }
  }

  /** Completeness: a window clear of live blocks lies inside one free block, so if no bucket of
      entry k or more has a block then every window of entry k meets a live block. */
  lemma {:induction false} WindowInFree(t: Tree, e: nat, o: int, k: nat) returns (o': int, k': nat)
    requires Canonical(t) && Fits(t, e) && Window(e, o, k) && NoLiveIn(t, e, o, k)
    ensures k <= k' && IsFree(t, e, o', k') && o' <= o && o + Words(k) <= o' + Words(k')
  {
    WindowBounds(e, o, k);
    if t == Free {
      o', k' := 0, e;
    } else if t == Live || k == e {
      var x, y := SomeLive(t, e);
      SubBounds(t, e, x, y);
      assert false;
    } else {
      var h, d := Words(e - 1), e - 1;
      if o < h {
        WindowBounds(d, o, k);
        forall x: int, y: nat | IsLive(t.left, d, x, y) ensures Apart(o, k, x, y) {
          SubBounds(t.left, d, x, y);
          assert IsLive(t, e, x, y);
        }
        o', k' := WindowInFree(t.left, e - 1, o, k);
        SubBounds(t.left, e - 1, o', k');
      } else {
        forall x: int, y: nat | IsLive(t.right, d, x, y) ensures Apart(o - h, k, x, y) {
          SubBounds(t.right, d, x, y);
          assert IsLive(t, e, x + h, y);
        }
        o', k' := WindowInFree(t.right, e - 1, o - h, k);
        SubBounds(t.right, e - 1, o', k');
        o' := o' + h;
      }
    }
  }

  // ----- splitting -----

  /** Splitting the block at (o, k) one level and then replacing the halves is replacing it by a node. */
  lemma {:induction false} SplitGraft(t: Tree, e: nat, o: int, k: nat, l: Tree, r: Tree, l': Tree, r': Tree)
    requires Sub(t, e, o, k).Some? && k > 0
    ensures var n := Graft(t, e, o, k, Node(l, r));
            var h := o + Words(k - 1);
            && Sub(n, e, o, k - 1) == Some(l) && Sub(n, e, h, k - 1) == Some(r)
            && Graft(n, e, o, k - 1, l') == Graft(t, e, o, k, Node(l', r))
            && Graft(n, e, h, k - 1, r') == Graft(t, e, o, k, Node(l, r'))
  {
    SubBounds(t, e, o, k);
    if k < e {
      if o < Words(e - 1) {
        SubBounds(t.left, e - 1, o, k);
        SplitGraft(t.left, e - 1, o, k, l, r, l', r');
      } else {
        SplitGraft(t.right, e - 1, o - Words(e - 1), k, l, r, l', r');
      }
    }
  }

  /** A block of entry e split along its left edge down to entry c, with leaf at the left end. */
  function Spine(e: nat, c: nat, leaf: Tree): Tree
    requires c <= e
  {
    if e == c then leaf else Node(Spine(e - 1, c, leaf), Free)
  }

  lemma {:induction false} SpineDown(e: nat, c: nat)
    requires 0 < c <= e
    ensures Spine(e, c, Node(Free, Free)) == Spine(e, c - 1, Free)
  {
    if c < e {
      SpineDown(e - 1, c);
    }
  }

  lemma {:induction false} SpineGraft(e: nat, c: nat, a: Tree, b: Tree)
    requires c <= e
    ensures Sub(Spine(e, c, a), e, 0, c) == Some(a)
    ensures Graft(Spine(e, c, a), e, 0, c, b) == Spine(e, c, b)
  {
    if c < e {
      SpineGraft(e - 1, c, a, b);
    }
  }

  lemma {:induction false} SpineFits(e: nat, c: nat, leaf: Tree)
    requires c <= e && !leaf.Node?
    ensures Fits(Spine(e, c, leaf), e)
    ensures leaf.Live? ==> Canonical(Spine(e, c, leaf))
  {
    if c < e {
      SpineFits(e - 1, c, leaf);
    }
  }

  /** The only live block of a spine is its left end. */
  lemma {:induction false} SpineLive(e: nat, c: nat, o: int, k: nat)
    requires c <= e
    ensures IsLive(Spine(e, c, Live), e, o, k) <==> o == 0 && k == c
  {
    if c < e {
      SpineLive(e - 1, c, o, k);
      assert !IsLive(Free, e - 1, o - Words(e - 1), k);
    }
  }

  /** Grafting inside a grafted subtree. */
  lemma {:induction false} GraftInside(t: Tree, e: nat, o: int, k: nat, s: Tree, o': int, k': nat, r: Tree)
    requires Sub(t, e, o, k).Some? && k' <= k && 0 <= o' < Words(k) && Sub(s, k, o', k').Some?
    ensures var g := Graft(t, e, o, k, s);
            && Sub(g, e, o + o', k') == Sub(s, k, o', k')
            && Graft(g, e, o + o', k', r) == Graft(t, e, o, k, Graft(s, k, o', k', r))
  {
    SubBounds(t, e, o, k);
    if k < e {
      if o < Words(e - 1) {
        SubBounds(t.left, e - 1, o, k);
        GraftInside(t.left, e - 1, o, k, s, o', k', r);
      } else {
        GraftInside(t.right, e - 1, o - Words(e - 1), k, s, o', k', r);
      }
    }
  }

  /** Replacing one free block by something canonical keeps the tree canonical. */
  lemma {:induction false} GraftCanonical(t: Tree, e: nat, o: int, k: nat, s: Tree)
    requires Canonical(t) && Sub(t, e, o, k).Some? && Canonical(s) && s != Free
    ensures Canonical(Graft(t, e, o, k, s)) && Graft(t, e, o, k, s) != Free
  {
    if k < e {
      if o < Words(e - 1) {
        GraftCanonical(t.left, e - 1, o, k, s);
      } else {
        GraftCanonical(t.right, e - 1, o - Words(e - 1), k, s);
      }
    }
  }

  /** Carving a live block of entry c out of the free block (o, e) makes exactly that block live. */
  lemma CarveLive(t: Tree, top: nat, o: int, e: nat, c: nat, o': int, k': nat)
    requires IsFree(t, top, o, e) && c <= e
    ensures Sub(t, top, o, e).Some?
    ensures IsLive(Graft(t, top, o, e, Spine(e, c, Live)), top, o', k') <==>
            IsLive(t, top, o', k') || (o', k') == (o, c)
  {
    GraftLeaf(t, top, o, e, Spine(e, c, Live), o', k', Live);
    SpineLive(e, c, o' - o, k');
    if IsLive(t, top, o', k') {
      LeafApart(t, top, o, e, o', k');
    }
  }

  /** Exact round trip: freeing what was just carved out restores the tree. */
  lemma CarveRelease(t: Tree, top: nat, o: int, e: nat, c: nat)
    requires Canonical(t) && Fits(t, top) && IsFree(t, top, o, e) && c <= e
    ensures Sub(t, top, o, e).Some?
    ensures var u := Graft(t, top, o, e, Spine(e, c, Live));
            Sub(u, top, o, c).Some? && Release(u, top, o, c) == t
  {
    var u := Graft(t, top, o, e, Spine(e, c, Live));
    SpineFits(e, c, Live);
    GraftCanonical(t, top, o, e, Spine(e, c, Live));
    GraftFits(t, top, o, e, Spine(e, c, Live));
    CarveLive(t, top, o, e, c, o, c);
    ReleaseCanonical(u, top, o, c);
    ReleaseFits(u, top, o, c);
    var v := Release(u, top, o, c);
    forall o': int, k': nat ensures IsLive(v, top, o', k') <==> IsLive(t, top, o', k') {
      CarveLive(t, top, o, e, c, o', k');
      ReleaseLive(u, top, o, c, o', k');
      if (o', k') == (o, c) && IsLive(t, top, o', k') {
        LeafUnique(t, top, o, e, c);
      }
    }
    LiveDeterminesFree(v, t, top);
  }

  lemma {:induction false} ReleaseFits(t: Tree, e: nat, o: int, k: nat)
    requires Sub(t, e, o, k).Some? && Fits(t, e)
    ensures Fits(Release(t, e, o, k), e)
  {
    if k < e {
      if o < Words(e - 1) {
        ReleaseFits(t.left, e - 1, o, k);
      } else {
        ReleaseFits(t.right, e - 1, o - Words(e - 1), k);
      }
    }
  }

  /** When nothing is live the pool is one free block. */
  lemma AllFree(t: Tree, e: nat)
    requires Canonical(t) && Fits(t, e) && forall o: int, k: nat :: !IsLive(t, e, o, k)
    ensures t == Free
  {
    if t != Free {
      var o, k := SomeLive(t, e);
    }
  }

  // ----- merging -----

  /** What was at a block does not matter when it is released. */
  lemma {:induction false} ReleaseGraft(t: Tree, e: nat, o: int, k: nat, s: Tree)
    requires Sub(t, e, o, k).Some?
    ensures Sub(Graft(t, e, o, k, s), e, o, k).Some?
    ensures Release(Graft(t, e, o, k, s), e, o, k) == Release(t, e, o, k)
  {
    if k < e {
      if o < Words(e - 1) {
        ReleaseGraft(t.left, e - 1, o, k, s);
      } else {
        ReleaseGraft(t.right, e - 1, o - Words(e - 1), k, s);
      }
    }
  }

  /** Replacing a child and then its parent is replacing the parent. */
  lemma {:induction false} GraftParent(t: Tree, e: nat, o: int, k: nat, r: Tree, s: Tree)
    requires Sub(t, e, o, k).Some? && k < e
    ensures var p := Parent(e, o, k);
            var g := Graft(t, e, o, k, r);
            && Sub(t, e, p, k + 1).Some? && Sub(g, e, p, k + 1).Some?
            && Graft(g, e, p, k + 1, s) == Graft(t, e, p, k + 1, s)
  {
    if k + 1 < e {
      ParentDown(t, e, o, k);
      var h := Words(e - 1);
      if o < h {
        GraftParent(t.left, e - 1, o, k, r, s);
      } else {
        GraftParent(t.right, e - 1, o - h, k, r, s);
      }
    }
  }

  /** The buddy of a block lies outside it and stays where it was when the block is replaced. */
  lemma BuddyApart(t: Tree, e: nat, o: int, k: nat, s: Tree)
    requires Sub(t, e, o, k).Some? && k < e
    ensures var b := Buddy(e, o, k);
            && Sub(t, e, b, k).Some? && Sub(Graft(t, e, o, k, s), e, b, k) == Sub(t, e, b, k)
            && Apart(o, k, b, k) && Buddy(e, b, k) == o
            && Parent(e, o, k) == (if o < b then o else b) == Parent(e, b, k)
  {
    ParentSub(t, e, o, k);
    var b, p := Buddy(e, o, k), Parent(e, o, k);
    SubWindow(t, e, b, k);
    SubWindow(t, e, p, k + 1);
    ParentInside(e, b, k, p);
    GraftElsewhere(t, e, o, k, s, b, k);
  }

  /** Replacing a block does not change the blocks apart from it. */
  lemma {:induction false} GraftElsewhere(t: Tree, e: nat, o: int, k: nat, s: Tree, o': int, k': nat)
    requires Sub(t, e, o, k).Some? && Sub(t, e, o', k').Some? && Apart(o, k, o', k')
    ensures Sub(Graft(t, e, o, k, s), e, o', k') == Sub(t, e, o', k')
  {
    SubBounds(t, e, o, k);
    SubBounds(t, e, o', k');
    if k < e && k' < e {
      var h := Words(e - 1);
      if o < h {
        SubBounds(t.left, e - 1, o, k);
        if o' < h {
          GraftElsewhere(t.left, e - 1, o, k, s, o', k');
        }
      } else if o' >= h {
        GraftElsewhere(t.right, e - 1, o - h, k, s, o' - h, k');
      }
    }
  }

  lemma {:induction false} ParentInside(e: nat, o: int, k: nat, p: int)
    requires k < e && Window(e, o, k) && Window(e, p, k + 1) && p <= o < p + Words(k + 1)
    ensures Parent(e, o, k) == p
  {
    WindowBounds(e, o, k);
    WindowBounds(e, p, k + 1);
    if k + 1 < e {
      var h := Words(e - 1);
      if o < h {
        if p < h {
          ParentInside(e - 1, o, k, p);
        }
      } else {
        if p < h { WindowBounds(e - 1, p, k + 1); }
        ParentInside(e - 1, o - h, k, p - h);
      }
    }
  }

  lemma {:induction false} SubWindow(t: Tree, e: nat, o: int, k: nat)
    requires Sub(t, e, o, k).Some?
    ensures Window(e, o, k)
  {
    if k < e {
      if o < Words(e - 1) {
        SubWindow(t.left, e - 1, o, k);
      } else {
        SubWindow(t.right, e - 1, o - Words(e - 1), k);
      }
    }
  }
}
