/** arch/x86_64/mm/vm.c: the address arithmetic of the recursive mapping.  Four-level paging as in section 4.5
    of the Intel SDM, volume 3A. */
module Paging {
  import opened Powers
  import opened Bits

  const SELF: nat := 511        // the PML4 slot that maps the PML4 itself (arch/x86_64/boot/boot.S)

  /** Lowest address bit of the table index used at a level: 0 is the PML4, 3 the page table. */
  function Low(level: nat): nat
    requires level < 4
  {
    39 - 9 * level
  }

  /** The index masks of vm_map_page_unrestricted. */
  function IndexMask(level: nat): Word64
    requires level < 4
  {
    match level
    case 0 => 0xFF8000000000
    case 1 => 0x7FC0000000
    case 2 => 0x3FE00000
    case _ => 0x1FF000
  }

  /** The table index of v at a level. */
  function Index(v: Word64, level: nat): Word64
    requires level < 4
  {
    Shr(And(v, IndexMask(level)), Low(level))
  }

  const PGT_MASK: Word64 := 0xFFFFFFFFFFFFF000

  /** get_paging_struct_vaddr. */
  function StructVaddr(v: Word64, level: nat): Word64
    requires level < 4
  {
    match level
    case 0 => 0xFFFFFFFFFFFFF000
    case 1 => And(Or64(Shr(v, 27), 0xFFFFFFFFFFE00000), PGT_MASK)
    case 2 => And(Or64(Shr(v, 18), 0xFFFFFFFFC0000000), PGT_MASK)
    case _ => And(Or64(Shr(v, 9), 0xFFFFFF8000000000), PGT_MASK)
  }

  // ----- bits -----

  lemma LowOnes(j: nat)
    ensures Bit(511, j) <==> j < 9
  {
    assert Pow2(9) == 512;
    if j < 9 {
      ComplementBit(0, 9, j);
      ZeroBit(j);
    } else {
      HighBit(511, 9, j);
    }
  }

  lemma LevelPowers()
    ensures Pow2(12) == 0x1000 && Pow2(21) == 0x200000 && Pow2(30) == 0x40000000 && Pow2(39) == 0x8000000000
  {
    assert Pow2(9) == 512 && Pow2(3) == 8;
    Pow2Add(3, 9);
    Pow2Add(12, 9);
    Pow2Add(21, 9);
    Pow2Add(30, 9);
  }

  lemma TimesDouble(w: int, p: int)
    ensures Times(w, 2 * p) == 2 * Times(w, p)
  {
  }

  /** Shifting without overflow multiplies. */
  lemma {:induction false} ShlTimes(w: Word64, n: nat)
    requires Times(w, Pow2(n)) < W64
    ensures Shl(w, n) == Times(w, Pow2(n))
  {
    if n == 0 {
      assert Times(w, 1) == w;
    } else {
      TimesDouble(w, Pow2(n - 1));
      ShlTimes(w, n - 1);
    }
  }

  lemma {:induction false} ShlOnes(n: nat)
    requires n < 64
    ensures Pow2(n) < W64 && Shl(ONES, n) == W64 - Pow2(n)
  {
    if n > 0 {
      ShlOnes(n - 1);
      Pow2Of64();
      Pow2Monotone(n, 63);
    }
  }

  /** The bytes one entry spans at a level. */
  function Span(level: nat): nat
    requires level < 4
  {
    match level
    case 0 => 0x8000000000
    case 1 => 0x40000000
    case 2 => 0x200000
    case _ => 0x1000
  }

  lemma LevelPower(level: nat, n: nat)
    requires level < 4 && n == Low(level)
    ensures Pow2(n) == Span(level)
  {
    LevelPowers();
  }

  lemma TimesLevel(level: nat, p: nat)
    requires level < 4 && p == Span(level)
    ensures Times(511, p) == IndexMask(level)
  {
  }

  lemma IndexMaskIs(level: nat)
    requires level < 4
    ensures IndexMask(level) == Shl(511, Low(level))
  {
    LevelPower(level, Low(level));
    TimesLevel(level, Pow2(Low(level)));
    ShlTimes(511, Low(level));
  }

  lemma IndexMaskBit(level: nat, j: nat)
    requires level < 4 && j + Low(level) < 64
    ensures Bit(IndexMask(level), j + Low(level)) <==> j < 9
  {
    IndexMaskIs(level);
    ShlBit(511, Low(level), j + Low(level));
    LowOnes(j);
  }

  lemma IndexBit(v: Word64, level: nat, j: nat)
    requires level < 4
    ensures Bit(Index(v, level), j) <==> j < 9 && Bit(v, j + Low(level))
  {
    var i := j + Low(level);
    ShrBit(And(v, IndexMask(level)), Low(level), j);
    AndBit(v, IndexMask(level), i);
    if i < 64 {
      IndexMaskBit(level, j);
    } else {
      Pow2Of64();
      HighBit(v, 64, i);
    }
  }

  /** Indices are below 512. */
  lemma IndexBound(v: Word64, level: nat)
    requires level < 4
    ensures Index(v, level) < 512
  {
    assert Pow2(9) == 512;
    Pow2Of64();
    forall j: nat | 9 <= j < 64 ensures !Bit(Index(v, level), j) {
      IndexBit(v, level, j);
    }
    SmallWord(Index(v, level), 9, 64);
  }

  lemma {:induction false} SmallWord(w: nat, k: nat, n: nat)
    requires k <= n && w < Pow2(n) && forall j: nat :: k <= j < n ==> !Bit(w, j)
    ensures w < Pow2(k)
  {
    if k < n {
      TopClear(w, n - 1);
      SmallWord(w, k, n - 1);
    }
  }

  lemma {:induction false} TopClear(w: nat, n: nat)
    requires w < Pow2(n + 1) && !Bit(w, n)
    ensures w < Pow2(n)
  {
    if n > 0 {
      TopClear(w / 2, n - 1);
    }
  }

  /** The constant or-ed into a structure address: ones from bit 12 + 9 * level up. */
  function StructMask(level: nat): Word64
    requires level < 4
  {
    match level
    case 0 => 0xFFFFFFFFFFFFF000
    case 1 => 0xFFFFFFFFFFE00000
    case 2 => 0xFFFFFFFFC0000000
    case _ => 0xFFFFFF8000000000
  }

  lemma StructMaskBit(level: nat, j: nat)
    requires level < 4 && j < 64
    ensures Bit(StructMask(level), j) <==> j >= 12 + 9 * level
  {
    LevelPowers();
    ShlOnes(12 + 9 * level);
    assert StructMask(level) == Shl(ONES, 12 + 9 * level);
    ShlBit(ONES, 12 + 9 * level, j);
    if j >= 12 + 9 * level { OnesBit(j - 12 - 9 * level); }
  }

  /** The bits of a structure address: the indices of v moved down by the missing levels, ones above, and a
      zero page offset. */
  lemma StructBit(v: Word64, level: nat, j: nat)
    requires level < 4 && j < 64
    ensures Bit(StructVaddr(v, level), j) <==>
            if j < 12 then false else if j >= 12 + 9 * level then true else Bit(v, j + 36 - 9 * level)
  {
    StructMaskBit(level, j);
    if level > 0 {
      var shift := 36 - 9 * level;
      StructMaskBit(0, j);
      ShrBit(v, shift, j);
      OrBit(Shr(v, shift), StructMask(level), j);
      AndBit(Or64(Shr(v, shift), StructMask(level)), PGT_MASK, j);
    }
  }

  /** Going through the PML4's own slot once for every level below the one wanted: the walk of a structure
      address takes the self-map slot and then the indices of v. */
  lemma StructIndex(v: Word64, level: nat, l: nat)
    requires level < 4 && l < 4
    ensures Index(StructVaddr(v, level), l) == if l + level < 4 then SELF else Index(v, l + level - 4)
  {
    var a := Index(StructVaddr(v, level), l);
    var b := if l + level < 4 then SELF else Index(v, l + level - 4);
    assert Pow2(9) == 512;
    IndexBound(StructVaddr(v, level), l);
    if l + level >= 4 { IndexBound(v, l + level - 4); }
    forall j: nat | j < 9 ensures Bit(a, j) <==> Bit(b, j) {
      IndexBit(StructVaddr(v, level), l, j);
      StructBit(v, level, j + Low(l));
      if l + level < 4 {
        LowOnes(j);
      } else {
        IndexBit(v, l + level - 4, j);
      }
    }
    SameBits(a, b, 9);
  }

  /** Structure addresses are canonical and page aligned. */
  lemma StructCanonical(v: Word64, level: nat)
    requires level < 4
    ensures forall j: nat :: 47 <= j < 64 ==> (Bit(StructVaddr(v, level), j) <==> Bit(StructVaddr(v, level), 47))
    ensures forall j: nat :: j < 12 ==> !Bit(StructVaddr(v, level), j)
  {
    var a := StructVaddr(v, level);
    StructBit(v, level, 47);
    forall j: nat | 47 <= j < 64 ensures Bit(a, j) {
      StructBit(v, level, j);
    }
    forall j: nat | j < 12 ensures !Bit(a, j) {
      StructBit(v, level, j);
    }
  }
}
