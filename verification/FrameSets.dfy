/** kernel/mm/physical.c: what the bits of mm_table say about page frames, one bit per 4 KB frame. */
module FrameSets {
  import opened Bits
  import opened Bitmap

  const PG_SIZE: nat := 4096
  const LOW: nat := 256           // frames of the first megabyte

  /** Frame i is free. */
  predicate FreeAt(m: Table, i: nat) {
    i < 64 * |m| && BitAt(m, i)
  }

  ghost predicate AllFree(m: Table, a: nat, n: nat) {
    forall i: nat :: a <= i < a + n ==> FreeAt(m, i)
  }

  ghost predicate NoneFree(m: Table, a: nat, b: nat) {
    forall i: nat :: a <= i < b ==> !FreeAt(m, i)
  }

  /** The set of free frames. */
  ghost function Frames(m: Table): set<nat> {
    set i: nat | i < 64 * |m| && BitAt(m, i)
  }

  predicate Within(i: nat, a: nat, n: nat) { a <= i < a + n }

  ghost function Interval(a: nat, n: nat): set<nat> {
    set i: nat | a <= i < a + n && Within(i, a, n)
  }

  /** A zero word has no free frame, a full word only free ones. */
  lemma WordFrames(m: Table, i: nat)
    requires i < |m|
    ensures m[i] == 0 <==> NoneFree(m, 64 * i, 64 * i + 64)
    ensures m[i] == ONES <==> AllFree(m, 64 * i, 64)
  {
    ZeroWord(m[i]);
    OnesWord(m[i]);
    if m[i] == 0 {
      forall f: nat | 64 * i <= f < 64 * i + 64 ensures !FreeAt(m, f) {
        assert !Bit(m[i], f - 64 * i);
      }
    } else {
      var j: nat :| j < 64 && Bit(m[i], j);
      assert FreeAt(m, 64 * i + j);
    }
    if m[i] == ONES {
      forall f: nat | 64 * i <= f < 64 * i + 64 ensures FreeAt(m, f) {
        assert Bit(m[i], f - 64 * i);
      }
    } else {
      var j: nat :| j < 64 && !Bit(m[i], j);
      assert !FreeAt(m, 64 * i + j);
    }
  }

  /** The lowest set bit of a word is its first free frame. */
  lemma FirstInWord(m: Table, i: nat)
    requires i < |m| && m[i] != 0
    ensures FreeAt(m, 64 * i + Ctz(m[i])) && NoneFree(m, 64 * i, 64 * i + Ctz(m[i]))
  {
    var c := Ctz(m[i]);
    assert (64 * i + c) / 64 == i && (64 * i + c) % 64 == c;
    forall f: nat | 64 * i <= f < 64 * i + c ensures !FreeAt(m, f) {
      assert !Bit(m[i], f - 64 * i);
    }
  }

  /** The lowest clear bit of a word ends the run of free frames at its start. */
  lemma RunInWord(m: Table, i: nat)
    requires i < |m| && m[i] != ONES
    ensures Not(m[i]) != 0
    ensures AllFree(m, 64 * i, Ctz(Not(m[i]))) && !FreeAt(m, 64 * i + Ctz(Not(m[i])))
  {
    var c := Ctz(Not(m[i]));
    NotBit(m[i], c);
    assert (64 * i + c) / 64 == i && (64 * i + c) % 64 == c;
    forall f: nat | 64 * i <= f < 64 * i + c ensures FreeAt(m, f) {
      NotBit(m[i], f - 64 * i);
      assert !Bit(Not(m[i]), f - 64 * i);
    }
  }

  /** No frame from the limit on is free. */
  ghost predicate Bounded(m: Table, limit: nat) { forall i: nat :: limit <= i ==> !FreeAt(m, i) }

  /** [s, s + n) is the first run of free frames at or after b, and it is maximal on the right. */
  ghost predicate FirstRun(m: Table, b: nat, s: nat, n: nat) {
    n > 0 && b <= s && NoneFree(m, b, s) && AllFree(m, s, n) && !FreeAt(m, s + n)
  }

  /** A run that starts at or after b shows a free frame below the limit. */
  lemma RunTaken(m: Table, b: nat, s: nat, limit: nat)
    requires b <= s && FreeAt(m, s) && Bounded(m, limit)
    ensures !NoneFree(m, b, limit)
  {
  }

  lemma RunBelow(m: Table, s: nat, n: nat, limit: nat)
    requires n > 0 && AllFree(m, s, n) && forall i: nat :: limit <= i ==> !FreeAt(m, i)
    ensures s + n <= limit
  {
    assert FreeAt(m, s + n - 1);
  }

  lemma TookOwned(m: Table, owned: set<nat>, a: nat, n: nat)
    requires AllFree(m, a, n) && forall i: nat :: i in owned ==> !FreeAt(m, i)
    ensures Interval(a, n) !! owned
  {
    forall i | i in Interval(a, n) ensures i !in owned {
      assert Within(i, a, n) && FreeAt(m, i);
    }
  }

  /** Setting a range adds exactly its frames to the free set. */
  lemma GaveFrames(m0: Table, m: Table, a: nat, n: nat)
    requires a + n <= 64 * |m0| && Ranged(m0, m, a, a + n, true)
    ensures Frames(m) == Frames(m0) + Interval(a, n)
    ensures forall i: nat :: FreeAt(m, i) <==> FreeAt(m0, i) || a <= i < a + n
    ensures n == 1 ==> Interval(a, n) == {a}
  {
    forall i: nat ensures FreeAt(m, i) <==> FreeAt(m0, i) || a <= i < a + n {
    }
    forall i ensures i in Frames(m) <==> i in Frames(m0) || i in Interval(a, n) {
      assert FreeAt(m, i) <==> i in Frames(m);
      assert FreeAt(m0, i) <==> i in Frames(m0);
      assert i in Interval(a, n) <==> Within(i, a, n);
    }
    if n == 1 {
      forall i ensures i in Interval(a, n) <==> i == a {
        assert i in Interval(a, n) <==> Within(i, a, n);
      }
    }
  }

  /** Clearing a range removes exactly its frames from the free set. */
  lemma TookFrames(m0: Table, m: Table, a: nat, n: nat)
    requires Ranged(m0, m, a, a + n, false)
    ensures Frames(m) == Frames(m0) - Interval(a, n)
    ensures forall i: nat :: FreeAt(m, i) <==> FreeAt(m0, i) && !(a <= i < a + n)
    ensures n == 1 ==> Interval(a, n) == {a}
  {
    forall i: nat ensures FreeAt(m, i) <==> FreeAt(m0, i) && !(a <= i < a + n) {
    }
    forall i ensures i in Frames(m) <==> i in Frames(m0) && i !in Interval(a, n) {
      assert FreeAt(m, i) <==> i in Frames(m);
      assert FreeAt(m0, i) <==> i in Frames(m0);
      assert i in Interval(a, n) <==> Within(i, a, n);
    }
    if n == 1 {
      forall i ensures i in Interval(a, n) <==> i == a {
        assert i in Interval(a, n) <==> Within(i, a, n);
      }
    }
  }
}
