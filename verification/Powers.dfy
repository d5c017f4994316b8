/** Powers of two and multiples, shared by the buddy allocator and the bitmaps. */
module Powers {
  const WORD32: nat := 0x1_0000_0000      // uint32_t

  function Pow2(k: nat): (p: nat)
    ensures p >= 1
  {
    if k == 0 then 1 else 2 * Pow2(k - 1)
  }

  lemma {:induction false} Pow2Monotone(a: nat, b: nat)
    requires a <= b
    ensures Pow2(a) <= Pow2(b)
  {
    if a < b {
      Pow2Monotone(a, b - 1);
    }
  }

  /** Multiplication under a name, so that lemmas about it can be applied one at a time. */
  function Times(q: int, w: int): (r: int)
    ensures q >= 0 && w >= 0 ==> r >= 0
  {
    q * w
  }

  lemma TimesAdd(a: int, b: int, w: int)
    ensures Times(a + b, w) == Times(a, w) + Times(b, w)
  {
  }

  lemma TimesMonotone(q: int, r: int, w: int)
    requires w >= 0 && q <= r
    ensures Times(q, w) <= Times(r, w)
  {
    TimesAdd(q, r - q, w);
  }

  lemma TimesLess(q: int, r: int, w: int)
    requires q < r && w > 0
    ensures Times(q, w) < Times(r, w)
  {
    TimesAdd(q, r - q, w);
    TimesMonotone(1, r - q, w);
  }

  lemma {:induction false} Pow2Add(a: nat, b: nat)
    ensures Pow2(a + b) == Times(Pow2(a), Pow2(b))
  {
    if a > 0 {
      Pow2Add(a - 1, b);
      TimesAdd(Pow2(a - 1), Pow2(a - 1), Pow2(b));
    }
  }

  lemma Pow2Of32()
    ensures Pow2(32) == 0x1_0000_0000 && Pow2(31) == 0x8000_0000
  {
    assert Pow2(8) == 256;
    Pow2Add(8, 8);
    Pow2Add(16, 16);
  }

  lemma Pow2Of22()
    ensures Pow2(22) == 0x40_0000
  {
    assert Pow2(11) == 2048;
    Pow2Add(11, 11);
  }

  lemma Pow2Of64()
    ensures Pow2(64) == 0x1_0000_0000_0000_0000 && Pow2(63) == 0x8000_0000_0000_0000
  {
    assert Pow2(8) == 256;
    Pow2Add(8, 8);
    Pow2Add(16, 16);
    Pow2Add(32, 32);
  }

  ghost predicate Multiple(p: int, w: int) { exists q: int :: Times(q, w) == p }

  lemma DivRem(x: nat, w: nat)
    requires w > 0
    ensures x == Times(x / w, w) + x % w && 0 <= x % w < w
  {
  }
}
