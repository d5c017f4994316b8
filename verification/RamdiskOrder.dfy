/** arch/x86_64/virt/mem.c: for which ramdisks virt_setup_e820 lists its entries in order, whatever frames are free. */
module RamdiskOrder {
  import opened Powers
  import opened Bits
  import opened Bitmap
  import opened FrameSets
  import opened GuestFrames
  import opened E820

  function Ramdisk(image: nat, ramdiskSize: nat): Entry { Entry(image, Ceiling(ramdiskSize)) }

  /** A bitmap on which virt_setup_e820 may be called. */
  ghost predicate Admissible(m: Table, limit: nat, rd: Entry) {
    && 64 * |m| * PG_SIZE <= W64 && (limit + 63) / 64 < |m| && Bounded(m, limit)
    && RamdiskTaken(m, rd) && LowFrames(m, rd)
  }

  /** On no such bitmap is the ramdisk listed before an entry that lies before it. */
  ghost predicate NeverEarly(rd: Entry, rdEnd: nat, kernelEnd: nat) {
    forall m: Table, limit: nat :: Admissible(m, limit, rd) ==> !Early(m, rd, rdEnd, kernelEnd)
  }

  /** The entries are in order for every bitmap exactly under the condition that virt_setup_e820 could check. */
  lemma SortedExactly(image: nat, ramdiskSize: nat, kernelEnd: nat)
    requires image < WORD32 && ramdiskSize < WORD32 && image % LARGE == 0 && LINUX_ENTRY <= kernelEnd
    ensures var rd, rdEnd := Ramdisk(image, ramdiskSize), RamdiskEnd(image, ramdiskSize);
            NeverEarly(rd, rdEnd, kernelEnd) <==> InOrder(rd, rdEnd, kernelEnd)
  {
    var rd, rdEnd := Ramdisk(image, ramdiskSize), RamdiskEnd(image, ramdiskSize);
    RoundingUp(ramdiskSize);
    if InOrder(rd, rdEnd, kernelEnd) {
      forall m: Table, limit: nat | Admissible(m, limit, rd) ensures !Early(m, rd, rdEnd, kernelEnd) {
        InOrderNotEarly(m, rd, rdEnd, kernelEnd);
      }
    } else {
      var m, limit := EarlyBitmap(rd, rdEnd, kernelEnd);
      assert Admissible(m, limit, rd) && Early(m, rd, rdEnd, kernelEnd);
    }
  }

  lemma InOrderNotEarly(m: Table, rd: Entry, rdEnd: nat, kernelEnd: nat)
    requires InOrder(rd, rdEnd, kernelEnd) && LowFrames(m, rd)
    ensures !Early(m, rd, rdEnd, kernelEnd)
  {
    if rd.size > 0 && !FreeBelow(m, rdEnd) {
      forall f: nat | FreeAt(m, f) && Kept(m, f, kernelEnd) ensures rd.addr <= f * PG_SIZE {
        KeptBehind(m, rd, rdEnd, kernelEnd, f);
      }
    }
  }

  lemma KeptBehind(m: Table, rd: Entry, rdEnd: nat, kernelEnd: nat, f: nat)
    requires InOrder(rd, rdEnd, kernelEnd) && LowFrames(m, rd) && rd.size > 0 && !FreeBelow(m, rdEnd)
    requires FreeAt(m, f) && Kept(m, f, kernelEnd)
    ensures rd.addr <= f * PG_SIZE
  {
    var s := RunStart(m, f);
    assert FreeAt(m, s);
    if s * PG_SIZE < LINUX_ENTRY {
      LowStart(m, rd, s);
      PageMultiple(s);
      PageCeilingBelow(Later(rdEnd, 2 * PG_SIZE), s * PG_SIZE);
    } else {
      WholeStart(m, f);
      var g := f / 512;
      assert FreeAt(m, g * 512);
      LargeMultiple(g);
      assert g * 512 * PG_SIZE == g * LARGE;
      CeilingBelow(Later(rdEnd, kernelEnd), g * LARGE);
    }
  }

  /** A run that holds a whole large page starts no later than it. */
  lemma WholeStart(m: Table, f: nat)
    requires WholePage(m, f)
    ensures RunStart(m, f) <= f / 512 * 512
  {
    var s := RunStart(m, f);
    assert s > 0 ==> !SameLarge(f, s - 1);
  }

  // ----- the bitmaps it fails on -----

  /** Free are only the n frames from p on. */
  function Block(words: nat, p: nat, n: nat): Table {
    seq(words, i requires 0 <= i < words => And(Not(LowBits(p - 64 * i)), LowBits(p + n - 64 * i)))
  }

  lemma BlockFree(words: nat, p: nat, n: nat, f: nat)
    ensures FreeAt(Block(words, p, n), f) <==> f < 64 * words && p <= f < p + n
  {
    if f < 64 * words {
      var i, j := f / 64, f % 64;
      assert f == 64 * i + j;
      AndBit(Not(LowBits(p - 64 * i)), LowBits(p + n - 64 * i), j);
      NotBit(LowBits(p - 64 * i), j);
      LowBitsBit(p - 64 * i, j);
      LowBitsBit(p + n - 64 * i, j);
      assert BitAt(Block(words, p, n), f) == Bit(And(Not(LowBits(p - 64 * i)), LowBits(p + n - 64 * i)), j);
    }
  }

  ghost predicate OnlyBlock(m: Table, p: nat, n: nat) { forall f: nat :: FreeAt(m, f) <==> p <= f < p + n }

  lemma BlockAdmissible(rd: Entry, p: nat, n: nat) returns (m: Table, limit: nat)
    requires rd.addr < WORD32 && rd.addr % LARGE == 0 && rd.size % LARGE == 0 && n > 0 && (p + n) * PG_SIZE <= rd.addr
    requires p * PG_SIZE < LINUX_ENTRY ==> p >= 2
    ensures Admissible(m, limit, rd) && OnlyBlock(m, p, n)
  {
    limit := p + n;
    var words := limit / 64 + 2;
    m := Block(words, p, n);
    forall f: nat ensures FreeAt(m, f) <==> p <= f < p + n {
      BlockFree(words, p, n, f);
    }
  }

  /** A block at or after rdEnd that is kept and lies before the ramdisk. */
  lemma BlockEarly(m: Table, rd: Entry, rdEnd: nat, kernelEnd: nat, p: nat, n: nat)
    requires OnlyBlock(m, p, n) && rd.size > 0 && n > 0 && rdEnd <= p * PG_SIZE && (p + n) * PG_SIZE <= rd.addr
    requires p * PG_SIZE < LINUX_ENTRY || (kernelEnd <= p * PG_SIZE && p % 512 == 0 && n == 512)
    ensures Early(m, rd, rdEnd, kernelEnd)
  {
    assert RunStart(m, p) == p;
    forall g: nat | n == 512 && p % 512 == 0 && SameLarge(p, g) ensures FreeAt(m, g) {
    }
    assert FreeAt(m, p) && Kept(m, p, kernelEnd);
  }

  lemma EarlyBitmap(rd: Entry, rdEnd: nat, kernelEnd: nat) returns (m: Table, limit: nat)
    requires !InOrder(rd, rdEnd, kernelEnd) && rd.addr < WORD32 && rd.addr % LARGE == 0 && rd.size % LARGE == 0
    requires LINUX_ENTRY <= kernelEnd
    ensures Admissible(m, limit, rd) && Early(m, rd, rdEnd, kernelEnd)
  {
    var low := PageCeiling(Later(rdEnd, 2 * PG_SIZE));
    if low < rd.addr && low < LINUX_ENTRY {
      var p := (Later(rdEnd, 2 * PG_SIZE) + PG_SIZE - 1) / PG_SIZE;
      LargeIsPage(rd.addr);
      PageBelow(p, rd.addr);
      m, limit := BlockAdmissible(rd, p, 1);
      BlockEarly(m, rd, rdEnd, kernelEnd, p, 1);
    } else {
      var q := (Later(rdEnd, kernelEnd) + LARGE - 1) / LARGE;
      RoundingUp(Later(rdEnd, kernelEnd));
      LargeBelow(q, rd.addr);
      m, limit := BlockAdmissible(rd, q * 512, 512);
      BlockEarly(m, rd, rdEnd, kernelEnd, q * 512, 512);
    }
  }

  lemma PageBelow(p: nat, y: nat)
    requires p * PG_SIZE < y && y % PG_SIZE == 0
    ensures (p + 1) * PG_SIZE <= y
  {
    assert y == y / PG_SIZE * PG_SIZE;
  }

  lemma LargeBelow(q: nat, y: nat)
    requires q * LARGE < y && y % LARGE == 0
    ensures (q * 512 + 512) * PG_SIZE <= y && q * 512 * PG_SIZE == q * LARGE && q * 512 % 512 == 0
  {
    assert y == y / LARGE * LARGE;
  }

  // ----- when the sum of image and size wraps -----

  predicate InOrderFor(image: nat, ramdiskSize: nat, kernelSize: nat) {
    InOrder(Ramdisk(image, ramdiskSize), RamdiskEnd(image, ramdiskSize), LINUX_ENTRY + kernelSize)
  }

  /** Of the ramdisks of at most 4 GB less a large page, exactly those that do not wrap are in order for kernels of
      every size. */
  lemma WrapsExactly(image: nat, ramdiskSize: nat)
    requires image < WORD32 && ramdiskSize <= WORD32 - LARGE && image % LARGE == 0
    ensures (forall kernelSize: nat :: InOrderFor(image, ramdiskSize, kernelSize))
       <==> ramdiskSize == 0 || image + ramdiskSize < WORD32
  {
    EndBounds(image, ramdiskSize);
    var rd, rdEnd := Ramdisk(image, ramdiskSize), RamdiskEnd(image, ramdiskSize);
    if ramdiskSize == 0 || image + ramdiskSize < WORD32 {
      forall kernelSize: nat ensures InOrderFor(image, ramdiskSize, kernelSize) {
        NoWrap(rd, rdEnd, LINUX_ENTRY + kernelSize);
      }
    } else {
      Wrapped(rd, rdEnd);
      assert !InOrderFor(image, ramdiskSize, 0);
    }
  }

  lemma NoWrap(rd: Entry, rdEnd: nat, kernelEnd: nat)
    requires rd.size == 0 || rd.addr <= rdEnd
    ensures InOrder(rd, rdEnd, kernelEnd)
  {
    RoundingUp(Later(rdEnd, kernelEnd));
    PageRoundingUp(Later(rdEnd, 2 * PG_SIZE));
  }

  lemma PageRoundingUp(x: nat)
    ensures x <= PageCeiling(x) < x + PG_SIZE
  {
  }

  lemma Wrapped(rd: Entry, rdEnd: nat)
    requires rd.size > 0 && rd.addr % LARGE == 0 && rdEnd + LARGE <= rd.addr
    ensures !InOrder(rd, rdEnd, LINUX_ENTRY)
  {
    RoundingUp(Later(rdEnd, LINUX_ENTRY));
    PageRoundingUp(Later(rdEnd, 2 * PG_SIZE));
  }

  /** A 2 MB ramdisk that ends at 4 GB: its end is taken for 0, so it is listed before everything else. */
  lemma RamdiskWraps(kernelSize: nat)
    ensures RamdiskEnd(0xFFE0_0000, 0x20_0000) == 0
    ensures !InOrder(Ramdisk(0xFFE0_0000, 0x20_0000), 0, LINUX_ENTRY + kernelSize)
    ensures !NeverEarly(Ramdisk(0xFFE0_0000, 0x20_0000), 0, LINUX_ENTRY + kernelSize)
  {
    PageRoundingUp(2 * PG_SIZE);
    SortedExactly(0xFFE0_0000, 0x20_0000, LINUX_ENTRY + kernelSize);
  }
}
