/** Which frames virt_setup_e820 (arch/x86_64/virt/mem.c) gives to the guest, frame by frame, and what one turn of
    its loop settles. */
module GuestFrames {
  import opened Bitmap
  import opened FrameSets

  const LARGE: nat := 0x20_0000           // LARGE_PG_SIZE
  const LINUX_ENTRY: nat := 0x10_0000     // LINUX_ENTRY_POINT

  /** Where the run of free frames that reaches up to f starts. */
  ghost function RunStart(m: Table, f: nat): (s: nat)
    ensures s <= f && (forall g: nat :: s <= g < f ==> FreeAt(m, g)) && (s > 0 ==> !FreeAt(m, s - 1))
  {
    if f == 0 || !FreeAt(m, f - 1) then f else RunStart(m, f - 1)
  }

  /** A run starts behind every taken frame before it. */
  lemma StartAfter(m: Table, f: nat, w: nat)
    requires w <= f && !FreeAt(m, w) && FreeAt(m, f)
    ensures RunStart(m, f) > w
  {
    if w + 1 < f && FreeAt(m, f - 1) {
      StartAfter(m, f - 1, w);
    }
  }

  predicate SameLarge(f: nat, g: nat) { f / 512 == g / 512 }

  /** All frames of f's large page are free. */
  ghost predicate WholePage(m: Table, f: nat) { forall g: nat :: SameLarge(f, g) ==> FreeAt(m, g) }

  /** The guest gets all of a run that starts below the Linux entry point, nothing of a run that starts inside the
      kernel, and the whole large pages of a run that starts past it. */
  ghost predicate Kept(m0: Table, f: nat, kernelEnd: nat) {
    var s := RunStart(m0, f) * PG_SIZE;
    s < LINUX_ENTRY || (s >= kernelEnd && WholePage(m0, f))
  }

  /** Below c exactly the kept frames are no longer free. */
  ghost predicate Settled(m0: Table, m: Table, c: nat, kernelEnd: nat) {
    forall f: nat {:trigger Kept(m0, f, kernelEnd)} :: f < c && FreeAt(m0, f) ==> (FreeAt(m, f) <==> !Kept(m0, f, kernelEnd))
  }

  /** The search goes on at the start, behind a run, or at a large page with a taken frame between it and the kernel. */
  ghost predicate Cursor(m0: Table, c: nat, kernelEnd: nat) {
    || c == 0
    || !FreeAt(m0, c)
    || (c % 512 == 0 && c * PG_SIZE >= kernelEnd && exists w: nat :: Wall(m0, w, c, kernelEnd))
  }

  ghost predicate Wall(m0: Table, w: nat, c: nat, kernelEnd: nat) {
    w < c && kernelEnd <= (w + 1) * PG_SIZE && !FreeAt(m0, w)
  }

  ghost predicate Ahead(m0: Table, m: Table, c: nat) { forall f: nat :: c <= f ==> (FreeAt(m, f) <==> FreeAt(m0, f)) }

  /** The search from c has found the run [b, b + n). */
  ghost predicate Turn(m0: Table, m: Table, c: nat, b: nat, n: nat, kernelEnd: nat) {
    FirstRun(m, c, b, n) && Ahead(m0, m, c) && Cursor(m0, c, kernelEnd) && LINUX_ENTRY <= kernelEnd
  }

  /** The reported run is a whole run of the original free frames, or begins at a large page past the kernel. */
  lemma StartOf(m0: Table, m: Table, c: nat, b: nat, n: nat, kernelEnd: nat, f: nat)
    requires Turn(m0, m, c, b, n, kernelEnd) && b <= f < b + n
    ensures FreeAt(m0, f)
    ensures RunStart(m0, f) == b || (b == c && b % 512 == 0 && b * PG_SIZE >= kernelEnd && RunStart(m0, f) * PG_SIZE >= kernelEnd)
  {
    var s := RunStart(m0, f);
    assert FreeAt(m, f) && FreeAt(m, b);
    assert forall g: nat :: b <= g <= f ==> FreeAt(m, g) && FreeAt(m0, g);
    if b > c {
      assert !FreeAt(m, b - 1) && !FreeAt(m0, b - 1);
    } else if c > 0 {
      var w: nat :| Wall(m0, w, c, kernelEnd);
      assert s > w;
    }
  }

  lemma GapTaken(m0: Table, m: Table, c: nat, b: nat, n: nat, kernelEnd: nat)
    requires Turn(m0, m, c, b, n, kernelEnd)
    ensures forall f: nat :: c <= f < b ==> !FreeAt(m0, f)
    ensures !FreeAt(m0, b + n)
  {
    forall f: nat | c <= f < b ensures !FreeAt(m0, f) {
      assert !FreeAt(m, f);
    }
    assert !FreeAt(m, b + n);
  }

  /** Below the Linux entry point the whole run is taken, the two frames before it included. */
  lemma SettleBelow(m0: Table, m: Table, m': Table, c: nat, b: nat, n: nat, lo: nat, kernelEnd: nat)
    requires Settled(m0, m, c, kernelEnd) && Turn(m0, m, c, b, n, kernelEnd) && b * PG_SIZE < LINUX_ENTRY && lo <= b && (c > 0 ==> lo == b)
    requires forall f: nat :: FreeAt(m', f) <==> FreeAt(m, f) && !(lo <= f < b + n)
    ensures Settled(m0, m', b + n, kernelEnd) && Cursor(m0, b + n, kernelEnd)
  {
    GapTaken(m0, m, c, b, n, kernelEnd);
    forall f: nat | f < b + n && FreeAt(m0, f) ensures FreeAt(m', f) <==> !Kept(m0, f, kernelEnd) {
      if f >= b { StartOf(m0, m, c, b, n, kernelEnd, f); }
    }
  }

  /** Inside the kernel the whole run is left alone. */
  lemma SettleKernel(m0: Table, m: Table, c: nat, b: nat, n: nat, kernelEnd: nat)
    requires Settled(m0, m, c, kernelEnd) && Turn(m0, m, c, b, n, kernelEnd) && LINUX_ENTRY <= b * PG_SIZE < kernelEnd
    ensures Settled(m0, m, b + n, kernelEnd) && Cursor(m0, b + n, kernelEnd)
  {
    GapTaken(m0, m, c, b, n, kernelEnd);
    forall f: nat | f < b + n && FreeAt(m0, f) ensures FreeAt(m, f) <==> !Kept(m0, f, kernelEnd) {
      if f >= b { StartOf(m0, m, c, b, n, kernelEnd, f); }
    }
  }

  /** Past the kernel only the whole large pages [a, a + s) are taken; a is the first large page at or after the run's
      start.  When nothing is left of the run the search goes on behind it or at a. */
  lemma SettlePast(m0: Table, m: Table, m': Table, c: nat, b: nat, n: nat, a: nat, s: nat, c': nat, kernelEnd: nat)
    requires Settled(m0, m, c, kernelEnd) && Turn(m0, m, c, b, n, kernelEnd) && kernelEnd <= b * PG_SIZE
    requires b <= a < b + 512 && a % 512 == 0 && s % 512 == 0 && (s > 0 ==> a + s <= b + n)
    requires forall f: nat :: FreeAt(m', f) <==> FreeAt(m, f) && !(a <= f < a + s)
    requires if s > 0 then b + n < a + s + 512 && c' == a + s else if a < b + n then b + n < a + 512 && c' == b + n else c' == a
    ensures Settled(m0, m', c', kernelEnd) && Cursor(m0, c', kernelEnd)
  {
    GapTaken(m0, m, c, b, n, kernelEnd);
    forall f: nat | f < c' && FreeAt(m0, f) ensures FreeAt(m', f) <==> !Kept(m0, f, kernelEnd) {
      if f >= b {
        PastFrame(m0, m, c, b, n, a, s, c', kernelEnd, f);
      }
    }
    StartOf(m0, m, c, b, n, kernelEnd, b);
    PastCursor(m0, m, c, b, n, a, s, c', kernelEnd);
  }

  lemma PastFrame(m0: Table, m: Table, c: nat, b: nat, n: nat, a: nat, s: nat, c': nat, kernelEnd: nat, f: nat)
    requires Turn(m0, m, c, b, n, kernelEnd) && kernelEnd <= b * PG_SIZE && FreeAt(m0, f) && b <= f < c'
    requires b <= a < b + 512 && a % 512 == 0 && s % 512 == 0 && (s > 0 ==> a + s <= b + n)
    requires if s > 0 then b + n < a + s + 512 && c' == a + s else if a < b + n then b + n < a + 512 && c' == b + n else c' == a
    ensures Kept(m0, f, kernelEnd) <==> a <= f < a + s
  {
    PastStart(m0, m, c, b, n, kernelEnd, f);
    if a <= f < a + s {
      forall g: nat | a <= g < a + s ensures FreeAt(m0, g) {
        assert FreeAt(m, g);
      }
      WholeIn(m0, f, a, s);
    } else if f < a {
      PageBefore(m0, m, c, b, n, kernelEnd, a, f);
      BrokenBefore(m0, f, a, b);
    } else {
      GapTaken(m0, m, c, b, n, kernelEnd);
      BrokenAfter(m0, f, a, b + n);
    }
  }

  /** A large page inside a free range is whole; one with a taken frame is not. */
  lemma WholeIn(m0: Table, f: nat, a: nat, s: nat)
    requires a % 512 == 0 && s % 512 == 0 && a <= f < a + s && forall g: nat :: a <= g < a + s ==> FreeAt(m0, g)
    ensures WholePage(m0, f)
  {
    forall g: nat | SameLarge(f, g) ensures FreeAt(m0, g) {
      SameLargeBounds(f, g, a, s);
    }
  }

  lemma BrokenBefore(m0: Table, f: nat, a: nat, b: nat)
    requires a % 512 == 0 && 0 < b <= f < a < b + 512 && b % 512 != 0 && !FreeAt(m0, b - 1)
    ensures !WholePage(m0, f)
  {
    var q := a / 512;
    assert f / 512 == q - 1;
    assert SameLarge(f, b - 1);
  }

  lemma BrokenAfter(m0: Table, f: nat, a: nat, e: nat)
    requires a % 512 == 0 && a <= f < e < a + 512 && !FreeAt(m0, e)
    ensures !WholePage(m0, f)
  {
    assert SameLarge(f, e);
  }

  lemma SameLargeBounds(f: nat, g: nat, a: nat, s: nat)
    requires a % 512 == 0 && s % 512 == 0 && a <= f < a + s && SameLarge(f, g)
    ensures a <= g < a + s
  {
  }

  /** Every free frame from b on belongs to a run that starts past the kernel. */
  lemma PastStart(m0: Table, m: Table, c: nat, b: nat, n: nat, kernelEnd: nat, f: nat)
    requires Turn(m0, m, c, b, n, kernelEnd) && kernelEnd <= b * PG_SIZE && FreeAt(m0, f) && b <= f
    ensures RunStart(m0, f) * PG_SIZE >= kernelEnd
  {
    if f < b + n {
      StartOf(m0, m, c, b, n, kernelEnd, f);
    } else {
      GapTaken(m0, m, c, b, n, kernelEnd);
      StartAfter(m0, f, b + n);
    }
  }

  /** A run that does not begin at a large page has a taken frame before it. */
  lemma PageBefore(m0: Table, m: Table, c: nat, b: nat, n: nat, kernelEnd: nat, a: nat, f: nat)
    requires Turn(m0, m, c, b, n, kernelEnd) && a % 512 == 0 && b <= f < a < b + 512
    ensures b % 512 != 0 && b > 0 && !FreeAt(m0, b - 1)
  {
    NotAligned(a, b);
    StartOf(m0, m, c, b, n, kernelEnd, b);
  }

  lemma NotAligned(a: nat, b: nat)
    requires a % 512 == 0 && b < a < b + 512
    ensures b % 512 != 0
  {
  }

  lemma LargeSum(a: nat, s: nat)
    requires a % 512 == 0 && s % 512 == 0
    ensures (a + s) % 512 == 0
  {
  }

  lemma PastCursor(m0: Table, m: Table, c: nat, b: nat, n: nat, a: nat, s: nat, c': nat, kernelEnd: nat)
    requires Turn(m0, m, c, b, n, kernelEnd) && kernelEnd <= b * PG_SIZE && b <= a && a % 512 == 0 && s % 512 == 0
    requires FreeAt(m0, b)
    requires if s > 0 then c' == a + s else if a < b + n then c' == b + n else c' == a
    ensures Cursor(m0, c', kernelEnd)
  {
    if s == 0 && a < b + n {
      GapTaken(m0, m, c, b, n, kernelEnd);
    } else {
      LargeSum(a, s);
      PastStart(m0, m, c, b, n, kernelEnd, b);
      assert Wall(m0, RunStart(m0, b) - 1, c', kernelEnd);
    }
  }
}
