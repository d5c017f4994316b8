/** arch/x86_64/boot/boot.S: what the tables of the boot code map. */
module BootMap {
  import opened Options
  import opened Powers
  import opened Bits
  import opened Paging
  import opened PageTables

  // ----- table indices as digits of the address -----

  lemma TimesHalf(s: nat, p: nat)
    ensures Times(s, 2 * p) == Times(2 * s, p) == 2 * Times(s, p)
  {
    TimesAdd(s, s, p);
  }

  lemma HalfDigits(w: nat, p: nat, q: nat, r: nat)
    requires w == Times(q, p) + r && r < p
    ensures w == Times(q / 2, 2 * p) + Times(q % 2, p) + r && Times(q % 2, p) + r < 2 * p
  {
    TimesHalf(q / 2, p);
    TimesAdd(2 * (q / 2), q % 2, p);
    TimesMonotone(q % 2, 1, p);
  }

  lemma HalfQuotient(w: nat, p: nat)
    requires p > 0
    ensures (w / p) / 2 == w / (2 * p)
  {
    var q, r := w / p, w % p;
    DivRem(w, p);
    HalfDigits(w, p, q, r);
    QuotientUnique(w, 2 * p, q / 2, Times(q % 2, p) + r);
  }

  lemma QuotientUnique(w: nat, p: nat, s: nat, r: nat)
    requires p > 0 && w == Times(s, p) + r && r < p
    ensures w / p == s
  {
    DivRem(w, p);
    if w / p < s {
      TimesMonotone(w / p + 1, s, p);
      TimesAdd(w / p, 1, p);
    } else if w / p > s {
      TimesMonotone(s + 1, w / p, p);
      TimesAdd(s, 1, p);
    }
  }

  lemma {:induction false} ShrQuotient(w: Word64, n: nat)
    ensures Shr(w, n) == w / Pow2(n)
  {
    if n > 0 {
      ShrQuotient(w, n - 1);
      HalfQuotient(w, Pow2(n - 1));
    }
  }

  lemma HalfRemainder(x: nat, p: nat)
    requires p > 0
    ensures (x % (2 * p)) / 2 == (x / 2) % p && (x % (2 * p)) % 2 == x % 2
  {
    DivRem(x, 2 * p);
    DivRem(x / 2, p);
    HalfQuotient2(x, p);
    assert Times(x / (2 * p), 2 * p) == 2 * Times(x / (2 * p), p);
  }

  lemma HalfQuotient2(x: nat, p: nat)
    requires p > 0
    ensures (x / 2) / p == x / (2 * p)
  {
    DivRem(x / 2, p);
    var s, r := (x / 2) / p, (x / 2) % p;
    assert Times(s, 2 * p) == 2 * Times(s, p);
    QuotientUnique(x, 2 * p, s, 2 * r + x % 2);
  }

  lemma {:induction false} RemainderBit(x: nat, n: nat, j: nat)
    ensures Bit(x % Pow2(n), j) <==> j < n && Bit(x, j)
    decreases n
  {
    if n == 0 {
      assert x % 1 == 0;
      ZeroBit(j);
    } else {
      HalfRemainder(x, Pow2(n - 1));
      if j > 0 { RemainderBit(x / 2, n - 1, j - 1); }
    }
  }

  /** The index at a level is a digit of the address to the base 512. */
  lemma IndexDigit(v: Word64, level: nat)
    requires level < 4
    ensures Index(v, level) == (v / Pow2(Low(level))) % 512
  {
    var x := v / Pow2(Low(level));
    assert Pow2(9) == 512;
    ShrQuotient(v, Low(level));
    forall j: nat | j < 64 ensures Bit(Index(v, level), j) <==> Bit(x % 512, j) {
      IndexBit(v, level, j);
      RemainderBit(x, 9, j);
      ShrBit(v, Low(level), j);
    }
    Pow2Of64();
    SameBits(Index(v, level), x % 512, 64);
  }

  lemma Digits(v: Word64)
    ensures Index(v, 0) == (v / 0x80_0000_0000) % 512 && Index(v, 1) == (v / 0x4000_0000) % 512
    ensures Index(v, 2) == (v / 0x20_0000) % 512 && Index(v, 3) == (v / 0x1000) % 512
  {
    DigitPowers();
    IndexDigit(v, 0);
    IndexDigit(v, 1);
    IndexDigit(v, 2);
    IndexDigit(v, 3);
  }

  lemma DigitPowers()
    ensures Pow2(39) == 0x80_0000_0000 && Pow2(30) == 0x4000_0000 && Pow2(21) == 0x20_0000 && Pow2(12) == 0x1000
  {
    assert Pow2(9) == 512;
    assert Pow2(12) == 0x1000;
    Pow2Add(12, 9);
    Pow2Add(21, 9);
    Pow2Add(30, 9);
  }

  // ----- what maps an address -----

  /** The entry that the walk of v uses at a level, by the path to it. */
  lemma BootEntryAt(root: nat, limit: nat, kernel: seq<Word64>, v: Word64, level: nat, e: Word64)
    requires |kernel| == 2 * ENTRIES && root + 5 <= FRAMES && Index(v, 0) != SELF && level < 4 && Index(v, level) < ENTRIES
    requires BootNode(root, Path(v, level)).Some?
    requires e == BootTable(root, kernel, BootNode(root, Path(v, level)).value)[Index(v, level)]
    ensures EntryAt(BootMemory(root, limit, kernel), root, v, level) == if Present(e) then Some(e) else None
  {
    var m := BootMemory(root, limit, kernel);
    UserWalk(v, level);
    BootNodes(root, limit, kernel, Path(v, level));
    var t := BootNode(root, Path(v, level)).value;
    assert m[t] == BootTable(root, kernel, t);
  }

  lemma UserWalk(v: Word64, level: nat)
    requires Index(v, 0) != SELF && level < 4
    ensures UserPath(Path(v, level))
  {
    forall l: nat | l < level ensures Path(v, level)[l] < ENTRIES {
      IndexBound(v, l);
    }
  }

  /** The walk of v above its page-table entry. */
  lemma BootWalk(root: nat, limit: nat, kernel: seq<Word64>, v: Word64, level: nat)
    requires |kernel| == 2 * ENTRIES && root + 5 <= FRAMES && Index(v, 0) != SELF && level < 3
    requires forall l: nat :: l < level ==> Index(v, l) == 0
    ensures var e := BootWord(root, root + level, Index(v, level));
            EntryAt(BootMemory(root, limit, kernel), root, v, level) == if Present(e) then Some(e) else None
  {
    IndexBound(v, level);
    var p := Path(v, level);
    if level == 1 { assert p == [0]; }
    if level == 2 { assert p == [0, 0]; }
    BootWords(root, kernel, root + level, Index(v, level));
    BootEntryAt(root, limit, kernel, v, level, BootWord(root, root + level, Index(v, level)));
  }

  /** An entry that is not 0 leads to the next table; 0 leads nowhere. */
  lemma BootPresent(root: nat, t: nat)
    requires root <= t < root + 5 <= FRAMES
    ensures Present(Entry(t)) && !Large(Entry(t)) && !Present(0) && Present(0x83) && Large(0x83)
  {
    MarkedEntry(t);
    ZeroBit(0);
  }

  /** The two page tables of the kernel. */
  lemma BootPage(root: nat, limit: nat, kernel: seq<Word64>, v: Word64, i: nat)
    requires |kernel| == 2 * ENTRIES && root + 5 <= FRAMES && Index(v, 0) == 0 && Index(v, 1) == 0 && 1 <= Index(v, 2) <= 2
    requires i == ENTRIES * (Index(v, 2) - 1) + Index(v, 3) && Index(v, 3) < ENTRIES
    ensures LeafFrom(BootMemory(root, limit, kernel), root, v, 3) == PageLeaf(kernel[i])
  {
    var p := Path(v, 3);
    assert p == [0, 0, Index(v, 2)];
    assert p != [] && p != [0] && p != [0, 0];
    BootEntryAt(root, limit, kernel, v, 3, kernel[i]);
  }

  lemma TopDigit(v: nat)
    requires v < 0xFF80_0000_0000
    ensures (v / 0x80_0000_0000) % 512 < 511
    ensures v < 0x80_0000_0000 <==> (v / 0x80_0000_0000) % 512 == 0
  {
    assert v / 0x80_0000_0000 < 511;
  }

  lemma NextDigit(v: nat)
    requires v < 0x80_0000_0000
    ensures v < 0x4000_0000 <==> (v / 0x4000_0000) % 512 == 0
  {
    assert v / 0x4000_0000 < 512;
  }

  lemma LowDigits(v: nat)
    requires v < 0x4000_0000
    ensures v < 0x20_0000 <==> (v / 0x20_0000) % 512 == 0
    ensures 0x20_0000 <= v < 0x60_0000 <==> 1 <= (v / 0x20_0000) % 512 <= 2
  {
    assert v / 0x20_0000 < 512;
  }

  lemma PageDigit(v: nat)
    requires 0x20_0000 <= v < 0x60_0000
    ensures (v - 0x20_0000) / 0x1000 == 512 * ((v / 0x20_0000) % 512 - 1) + (v / 0x1000) % 512
  {
    var c, q := v / 0x20_0000, v / 0x1000;
    assert (v - 0x20_0000) / 0x1000 == q - 512;
    assert q / 512 == c && c < 512;
  }

  /** Where an address lies, by its table indices. */
  lemma BootDigits(v: Word64)
    requires v < 0xFF80_0000_0000
    ensures Index(v, 0) != SELF && Index(v, 3) < ENTRIES
    ensures v < 0x20_0000 <==> Index(v, 0) == 0 && Index(v, 1) == 0 && Index(v, 2) == 0
    ensures 0x20_0000 <= v < 0x60_0000 <==> Index(v, 0) == 0 && Index(v, 1) == 0 && 1 <= Index(v, 2) <= 2
    ensures 0x20_0000 <= v < 0x60_0000 ==> (v - 0x20_0000) / 0x1000 == ENTRIES * (Index(v, 2) - 1) + Index(v, 3)
  {
    Digits(v);
    TopDigit(v);
    IndexBound(v, 3);
    if v < 0x80_0000_0000 { NextDigit(v); }
    if v < 0x4000_0000 { LowDigits(v); }
    if 0x20_0000 <= v < 0x60_0000 { PageDigit(v); }
  }

  /** The boot code maps the first 2 MB by one large page, the 4 MB behind them by the kernel's page-table entries in
      order, and no other address outside the self-map slot. */
  lemma BootLeaf(root: nat, limit: nat, kernel: seq<Word64>, v: Word64)
    requires |kernel| == 2 * ENTRIES && root + 5 <= FRAMES && v < 0xFF80_0000_0000
    ensures LeafOf(BootMemory(root, limit, kernel), root, v) ==
              if v < 0x20_0000 then Some(Leaf(2, 0x83))
              else if v < 0x60_0000 then PageLeaf(kernel[(v - 0x20_0000) / 0x1000]) else None
  {
    BootDigits(v);
    BootPresent(root, root + 1);
    BootWalk(root, limit, kernel, v, 0);
    if Index(v, 0) == 0 {
      BootPresent(root, root + 2);
      BootWalk(root, limit, kernel, v, 1);
      if Index(v, 1) == 0 {
        BootWalk(root, limit, kernel, v, 2);
        if 1 <= Index(v, 2) <= 2 {
          BootPresent(root, root + 2 + Index(v, 2));
          BootPage(root, limit, kernel, v, (v - 0x20_0000) / 0x1000);
        }
      }
    }
  }
}
