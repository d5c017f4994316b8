/** include/utils/bits.h: 64-bit words and their bits.  A word is its unsigned value; the bitwise
    operators are defined on the binary digits. */
module Bits {
  import opened Powers

  const W64: nat := 0x1_0000_0000_0000_0000
  const ONES: nat := 0xFFFF_FFFF_FFFF_FFFF

  type Word64 = w: nat | w < W64

  /** Bit i of a number. */
  predicate Bit(w: nat, i: nat) {
    if i == 0 then w % 2 == 1 else Bit(w / 2, i - 1)
  }

  function And(a: nat, b: nat): (r: nat)
    ensures r <= a && r <= b
  {
    if a == 0 || b == 0 then 0
    else (if a % 2 == 1 && b % 2 == 1 then 1 else 0) + 2 * And(a / 2, b / 2)
  }

  function Or(a: nat, b: nat): nat {
    if a == 0 then b else if b == 0 then a
    else (if a % 2 == 1 || b % 2 == 1 then 1 else 0) + 2 * Or(a / 2, b / 2)
  }

  /** ~w, -w, w << n and w >> n of a uint64_t. */
  function Not(w: Word64): Word64 { ONES - w }

  function Neg(w: Word64): Word64 { if w == 0 then 0 else W64 - w }

  function Double(w: Word64): Word64 { if 2 * w < W64 then 2 * w else 2 * w - W64 }

  function Shl(w: Word64, n: nat): Word64 {
    if n == 0 then w else Double(Shl(w, n - 1))
  }

  function Shr(w: Word64, n: nat): Word64 {
    if n == 0 then w else Shr(w, n - 1) / 2
  }

  // ----- bits of the operators -----

  lemma {:induction false} ZeroBit(i: nat)
    ensures !Bit(0, i)
  {
    if i > 0 {
      ZeroBit(i - 1);
    }
  }

  lemma LowDigit(d: nat, r: nat)
    requires d <= 1
    ensures (d + 2 * r) / 2 == r && (d + 2 * r) % 2 == d
  {
  }

  lemma {:induction false} AndBit(a: nat, b: nat, j: nat)
    ensures Bit(And(a, b), j) <==> Bit(a, j) && Bit(b, j)
  {
    if a == 0 || b == 0 {
      ZeroBit(j);
    } else {
      LowDigit(if a % 2 == 1 && b % 2 == 1 then 1 else 0, And(a / 2, b / 2));
      if j > 0 {
        AndBit(a / 2, b / 2, j - 1);
      }
    }
  }

  lemma {:induction false} OrBit(a: nat, b: nat, j: nat)
    ensures Bit(Or(a, b), j) <==> Bit(a, j) || Bit(b, j)
  {
    if a == 0 || b == 0 {
      ZeroBit(j);
    } else {
      LowDigit(if a % 2 == 1 || b % 2 == 1 then 1 else 0, Or(a / 2, b / 2));
      if j > 0 {
        OrBit(a / 2, b / 2, j - 1);
      }
    }
  }

  lemma {:induction false} OrBound(a: nat, b: nat, n: nat)
    requires a < Pow2(n) && b < Pow2(n)
    ensures Or(a, b) < Pow2(n)
  {
    if n > 0 {
      OrBound(a / 2, b / 2, n - 1);
    }
  }

  /** | on machine words. */
  function Or64(a: Word64, b: Word64): (r: Word64)
    ensures r == Or(a, b)
  {
    Pow2Of64();
    OrBound(a, b, 64);
    Or(a, b)
  }

  lemma {:induction false} ComplementBit(w: nat, n: nat, j: nat)
    requires w < Pow2(n) && j < n
    ensures Bit(Pow2(n) - 1 - w, j) <==> !Bit(w, j)
  {
    HalfComplement(w, Pow2(n - 1));
    if j > 0 {
      ComplementBit(w / 2, n - 1, j - 1);
    }
  }

  /** The complement of w below 2 * p, digit by digit. */
  lemma HalfComplement(w: nat, p: nat)
    requires w < 2 * p
    ensures (2 * p - 1 - w) / 2 == p - 1 - w / 2 && (2 * p - 1 - w) % 2 == 1 - w % 2
  {
  }

  lemma NotBit(w: Word64, j: nat)
    requires j < 64
    ensures Bit(Not(w), j) <==> !Bit(w, j)
  {
    Pow2Of64();
    ComplementBit(w, 64, j);
  }

  lemma OnesBit(j: nat)
    requires j < 64
    ensures Bit(ONES, j)
  {
    NotBit(0, j);
    ZeroBit(j);
  }

  lemma {:induction false} HighBit(w: nat, n: nat, j: nat)
    requires w < Pow2(n) && n <= j
    ensures !Bit(w, j)
  {
    if n == 0 {
      ZeroBit(j);
    } else {
      HighBit(w / 2, n - 1, j - 1);
    }
  }

  lemma {:induction false} PowerBelow(n: nat, j: nat)
    requires j < n
    ensures !Bit(Pow2(n), j)
  {
    if j > 0 {
      PowerBelow(n - 1, j - 1);
    }
  }

  lemma {:induction false} DropTop(w: nat, n: nat, j: nat)
    requires Pow2(n) <= w && j < n
    ensures Bit(w - Pow2(n), j) <==> Bit(w, j)
  {
    if j > 0 {
      assert (w - Pow2(n)) / 2 == w / 2 - Pow2(n - 1);
      DropTop(w / 2, n - 1, j - 1);
    }
  }

  lemma DoubleBit(w: Word64, j: nat)
    requires j < 64
    ensures Bit(Double(w), j) <==> j > 0 && Bit(w, j - 1)
  {
    if j > 0 && 2 * w >= W64 {
      Pow2Of64();
      DropTop(w, 63, j - 1);
      assert Double(w) / 2 == w - Pow2(63);
    }
  }

  lemma {:induction false} ShlBit(w: Word64, n: nat, j: nat)
    requires j < 64
    ensures Bit(Shl(w, n), j) <==> j >= n && Bit(w, j - n)
  {
    if n > 0 {
      DoubleBit(Shl(w, n - 1), j);
      if j > 0 {
        ShlBit(w, n - 1, j - 1);
      }
    }
  }

  lemma {:induction false} ShrBit(w: Word64, n: nat, j: nat)
    ensures Bit(Shr(w, n), j) <==> Bit(w, j + n)
  {
    if n > 0 {
      ShrBit(w, n - 1, j + 1);
    }
  }

  lemma OneBit(i: nat, j: nat)
    requires i < 64 && j < 64
    ensures Bit(Shl(1, i), j) <==> i == j
  {
    ShlBit(1, i, j);
    if j > i {
      ZeroBit(j - i - 1);
    }
  }

  // ----- whole words -----

  lemma {:induction false} NoBits(w: nat, n: nat)
    requires w < Pow2(n) && forall j: nat :: j < n ==> !Bit(w, j)
    ensures w == 0
  {
    if n > 0 {
      assert !Bit(w, 0);
      forall j: nat | j < n - 1 ensures !Bit(w / 2, j) {
        assert !Bit(w, j + 1);
      }
      NoBits(w / 2, n - 1);
    }
  }

  /** Words with the same bits are the same. */
  lemma {:induction false} SameBits(a: nat, b: nat, n: nat)
    requires a < Pow2(n) && b < Pow2(n) && forall j: nat :: j < n ==> (Bit(a, j) <==> Bit(b, j))
    ensures a == b
  {
    if n > 0 {
      assert Bit(a, 0) <==> Bit(b, 0);
      forall j: nat | j < n - 1 ensures Bit(a / 2, j) <==> Bit(b / 2, j) {
        assert Bit(a, j + 1) <==> Bit(b, j + 1);
      }
      SameBits(a / 2, b / 2, n - 1);
    }
  }

  ghost predicate NoneSet(w: Word64) { forall j: nat :: j < 64 ==> !Bit(w, j) }
  ghost predicate AllSet(w: Word64) { forall j: nat :: j < 64 ==> Bit(w, j) }

  /** A word is 0 when no bit is set. */
  lemma ZeroWord(w: Word64)
    ensures w == 0 <==> NoneSet(w)
  {
    Pow2Of64();
    if w == 0 {
      forall j: nat | j < 64 ensures !Bit(w, j) {
        ZeroBit(j);
      }
    } else if NoneSet(w) {
      NoBits(w, 64);
    }
  }

  /** A word is UINT64_MAX when every bit is set. */
  lemma OnesWord(w: Word64)
    ensures w == ONES <==> AllSet(w)
  {
    Pow2Of64();
    if w == ONES {
      forall j: nat | j < 64 ensures Bit(w, j) {
        OnesBit(j);
      }
    } else if AllSet(w) {
      forall j: nat | j < 64 ensures Bit(w, j) <==> Bit(ONES, j) {
        OnesBit(j);
      }
      SameBits(w, ONES, 64);
    }
  }

  lemma SetBit(w: Word64, i: nat, j: nat)
    requires i < 64 && j < 64
    ensures Bit(Or64(w, Shl(1, i)), j) <==> Bit(w, j) || i == j
  {
    OrBit(w, Shl(1, i), j);
    OneBit(i, j);
  }

  lemma ClearBit(w: Word64, i: nat, j: nat)
    requires i < 64 && j < 64
    ensures Bit(And(w, Not(Shl(1, i))), j) <==> Bit(w, j) && i != j
  {
    AndBit(w, Not(Shl(1, i)), j);
    NotBit(Shl(1, i), j);
    OneBit(i, j);
  }

  /** get_bit64 and its relatives test a bit with a mask. */
  lemma GetBit(w: Word64, i: nat)
    requires i < 64
    ensures And(w, Shl(1, i)) != 0 <==> Bit(w, i)
  {
    var v := And(w, Shl(1, i));
    ZeroWord(v);
    AndBit(w, Shl(1, i), i);
    OneBit(i, i);
    if !Bit(w, i) {
      forall j: nat | j < 64 ensures !Bit(v, j) {
        AndBit(w, Shl(1, i), j);
        OneBit(i, j);
      }
    }
  }

  /** Index of the lowest set bit: count_trailing_zeros_bit64. */
  function Ctz(w: Word64): (i: nat)
    requires w != 0
    ensures i < 64 && Bit(w, i) && forall j: nat :: j < i ==> !Bit(w, j)
  {
    ZeroWord(w);
    FirstBit(w, 0)
  }

  function FirstBit(w: Word64, i: nat): (r: nat)
    requires exists j: nat :: i <= j < 64 && Bit(w, j)
    ensures i <= r < 64 && Bit(w, r) && forall j: nat :: i <= j < r ==> !Bit(w, j)
    decreases 64 - i
  {
    if Bit(w, i) then i else FirstBit(w, i + 1)
  }

  /** Below the lowest set bit w and -w are both 0, at it both 1, and above it they are complements. */
  lemma {:induction false} NegBit(w: nat, n: nat, i: nat, j: nat)
    requires 0 < w < Pow2(n) && i < n && j < n && Bit(w, i) && forall l: nat :: l < i ==> !Bit(w, l)
    ensures Bit(Pow2(n) - w, j) <==> if j < i then false else if j == i then true else !Bit(w, j)
  {
    if i == 0 {
      if j > 0 {
        assert (Pow2(n) - w) / 2 == Pow2(n - 1) - 1 - w / 2;
        ComplementBit(w / 2, n - 1, j - 1);
      }
    } else {
      assert !Bit(w, 0);
      assert (Pow2(n) - w) / 2 == Pow2(n - 1) - w / 2;
      if j > 0 {
        forall l: nat | l < i - 1 ensures !Bit(w / 2, l) {
          assert !Bit(w, l + 1);
        }
        NegBit(w / 2, n - 1, i - 1, j - 1);
      }
    }
  }

  /** data & -data isolates the lowest set bit. */
  lemma Isolate(w: Word64)
    requires w != 0
    ensures And(w, Neg(w)) == Shl(1, Ctz(w))
  {
    var i := Ctz(w);
    Pow2Of64();
    forall j: nat | j < 64 ensures Bit(And(w, Neg(w)), j) <==> Bit(Shl(1, i), j) {
      AndBit(w, Neg(w), j);
      NegBit(w, 64, i, j);
      OneBit(i, j);
    }
    SameBits(And(w, Neg(w)), Shl(1, i), 64);
  }

  /** Shifting a single bit right p + 1 times loses it when p is its index, and not before. */
  lemma ShiftedOut(i: nat, p: nat)
    requires p <= i < 64
    ensures Shr(Shl(1, i), p + 1) == 0 <==> p == i
  {
    var v := Shr(Shl(1, i), p + 1);
    ZeroWord(v);
    if p == i {
      forall j: nat | j < 64 ensures !Bit(v, j) {
        ShrBit(Shl(1, i), p + 1, j);
        if j + p + 1 < 64 {
          OneBit(i, j + p + 1);
        } else {
          Pow2Of64();
          HighBit(Shl(1, i), 64, j + p + 1);
        }
      }
    } else {
      ShrBit(Shl(1, i), p + 1, i - p - 1);
      OneBit(i, i);
    }
  }

  /** The shift loop of alloc_phys_frame turns the isolated bit into its index. */
  method LowestBit(w: Word64) returns (pos: nat)
    requires w != 0
    ensures pos == Ctz(w)
  {
    ghost var i := Ctz(w);
    Isolate(w);
    var data: Word64 := And(w, Neg(w));
    pos := 0;
    ShiftedOut(i, 0);
    assert Shr(data, 1) == Shr(data, 0) / 2;
    data := data / 2;
    while data != 0
      invariant pos <= i && data == Shr(Shl(1, i), pos + 1)
      decreases i - pos
    {
      ShiftedOut(i, pos);
      data := data / 2;
      pos := pos + 1;
    }
    ShiftedOut(i, pos);
  }

  /** The word whose lowest k bits are set. */
  function LowBits(k: int): Word64 {
    if k <= 0 then 0 else if k >= 64 then ONES else Pow2Below(k); Pow2(k) - 1
  }

  lemma Pow2Below(k: nat)
    requires k < 64
    ensures Pow2(k) < W64
  {
    Pow2Of64();
    Pow2Monotone(k, 63);
  }

  lemma LowBitsBit(k: int, j: nat)
    requires j < 64
    ensures Bit(LowBits(k), j) <==> j < k
  {
    if k <= 0 {
      ZeroBit(j);
    } else if k >= 64 {
      OnesBit(j);
    } else if j < k {
      ComplementBit(0, k, j);
      ZeroBit(j);
    } else {
      HighBit(Pow2(k) - 1, k, j);
    }
  }
}

/** utils/bits.c: bitmaps of whole tables. */
module Bitmap {
  import opened Powers
  import opened Bits

  type Table = seq<Word64>

  predicate BitAt(m: Table, i: nat)
    requires i < 64 * |m|
  {
    Bit(m[i / 64], i % 64)
  }

  /** m has value val on [begin, end) and agrees with m0 elsewhere. */
  ghost predicate Ranged(m0: Table, m: Table, begin: nat, end: nat, val: bool) {
    && |m| == |m0|
    && forall i: nat :: i < 64 * |m| ==> (BitAt(m, i) <==> if begin <= i < end then val else BitAt(m0, i))
  }

  /** bitmap64_get and bitmap64_check_bit. */
  method CheckBit(bitmap: array<Word64>, index: nat) returns (isSet: bool)
    requires index < 64 * bitmap.Length
    ensures isSet <==> BitAt(bitmap[..], index)
  {
    var mask := Shl(1, index % 64);
    GetBit(bitmap[index / 64], index % 64);
    isSet := And(bitmap[index / 64], mask) != 0;
  }

  /** bitmap64_set. */
  method SetOne(bitmap: array<Word64>, index: nat)
    requires index < 64 * bitmap.Length
    modifies bitmap
    ensures Ranged(old(bitmap[..]), bitmap[..], index, index + 1, true)
  {
    ghost var m0 := bitmap[..];
    bitmap[index / 64] := Or64(bitmap[index / 64], Shl(1, index % 64));
    forall i: nat | i < 64 * bitmap.Length
      ensures BitAt(bitmap[..], i) <==> if index <= i < index + 1 then true else BitAt(m0, i)
    {
      SetBit(m0[index / 64], index % 64, i % 64);
    }
  }

  /** clear_bit64 and bitmap64_clear. */
  method ClearOne(bitmap: array<Word64>, index: nat)
    requires index < 64 * bitmap.Length
    modifies bitmap
    ensures Ranged(old(bitmap[..]), bitmap[..], index, index + 1, false)
  {
    ghost var m0 := bitmap[..];
    bitmap[index / 64] := And(bitmap[index / 64], Not(Shl(1, index % 64)));
    forall i: nat | i < 64 * bitmap.Length
      ensures BitAt(bitmap[..], i) <==> if index <= i < index + 1 then false else BitAt(m0, i)
    {
      ClearBit(m0[index / 64], index % 64, i % 64);
    }
  }

  /** The word operations of the range functions: *ptr |= mask and *ptr &= ~mask. */
  function Masked(w: Word64, mask: Word64, val: bool): Word64 {
    if val then Or64(w, mask) else And(w, Not(mask))
  }

  lemma MaskedBit(w: Word64, mask: Word64, val: bool, r: nat)
    requires r < 64
    ensures Bit(Masked(w, mask, val), r) <==> if Bit(mask, r) then val else Bit(w, r)
  {
    OrBit(w, mask, r);
    AndBit(w, Not(mask), r);
    NotBit(mask, r);
  }

  /** The mask has exactly the bits [h, g). */
  ghost predicate Covers(mask: Word64, h: nat, g: nat) {
    forall r: nat :: r < 64 ==> (Bit(mask, r) <==> h <= r < g)
  }

  lemma MaskedAt(m: Table, p: nat, mask: Word64, h: nat, g: nat, val: bool, i: nat)
    requires p < |m| && i < 64 * |m| && h <= g <= 64 && Covers(mask, h, g)
    ensures BitAt(m[p := Masked(m[p], mask, val)], i) <==> if 64 * p + h <= i < 64 * p + g then val else BitAt(m, i)
  {
    MaskedBit(m[p], mask, val, i % 64);
    assert Bit(mask, i % 64) <==> h <= i % 64 < g;
  }

  /** Setting or clearing a word's bits from offset h to g extends the finished range. */
  lemma WordStep(m0: Table, m: Table, p: nat, mask: Word64, begin: nat, h: nat, g: nat, val: bool)
    requires p < |m| && h <= g <= 64 && Covers(mask, h, g)
    requires begin <= 64 * p + h && Ranged(m0, m, begin, 64 * p + h, val)
    ensures Ranged(m0, m[p := Masked(m[p], mask, val)], begin, 64 * p + g, val)
  {
    var m' := m[p := Masked(m[p], mask, val)];
    forall i: nat | i < 64 * |m|
      ensures BitAt(m', i) <==> if begin <= i < 64 * p + g then val else BitAt(m0, i)
    {
      MaskedAt(m, p, mask, h, g, val, i);
    }
  }

  /** (-end) & 63 of a uint64_t. */
  function NegMod64(end: nat): nat {
    (W64 - end % W64) % 64
  }

  lemma NegMod64Is(end: nat)
    requires end % 64 != 0
    ensures NegMod64(end) == 64 - end % 64
  {
  }

  /** ~0 << h covers from offset h to the end of the word. */
  lemma HeadCovers(h: nat)
    requires h < 64
    ensures Covers(Shl(ONES, h), h, 64)
  {
    var mask := Shl(ONES, h);
    forall r: nat | r < 64 ensures Bit(mask, r) <==> r >= h {
      ShlBit(ONES, h, r);
      if r >= h { OnesBit(r - h); }
    }
  }

  /** Cut with ~0 >> (64 - g), it covers up to offset g. */
  lemma TailCovers(h: nat, g: nat)
    requires h < 64 && 0 < g < 64
    ensures Covers(And(Shl(ONES, h), Shr(ONES, 64 - g)), h, g)
  {
    var a, b := Shl(ONES, h), Shr(ONES, 64 - g);
    var mask := And(a, b);
    HeadCovers(h);
    forall r: nat | r < 64 ensures Bit(mask, r) <==> h <= r < g {
      assert Bit(a, r) <==> h <= r < 64;
      AndBit(a, b, r);
      ShrBit(ONES, 64 - g, r);
      if r < g {
        OnesBit(r + 64 - g);
      } else {
        Pow2Of64();
        HighBit(ONES, 64, r + 64 - g);
      }
    }
  }

  /** The last, partial word. */
  lemma TailStep(m0: Table, m: Table, p: nat, begin: nat, h: nat, end: nat, val: bool)
    requires p < |m| && h < 64 && 64 * p + h < end < 64 * p + 64
    requires begin <= 64 * p + h && Ranged(m0, m, begin, 64 * p + h, val)
    ensures NegMod64(end) == 64 - (end - 64 * p)
    ensures Ranged(m0, m[p := Masked(m[p], And(Shl(ONES, h), Shr(ONES, NegMod64(end))), val)], begin, end, val)
  {
    var g := end - 64 * p;
    assert end % 64 == g;
    NegMod64Is(end);
    TailCovers(h, g);
    WordStep(m0, m, p, And(Shl(ONES, h), Shr(ONES, 64 - g)), begin, h, g, val);
  }

  /** bitmap64_set_range. */
  method SetRange(bitmap: array<Word64>, begin: nat, length: nat)
    requires length > 0 ==> begin + length <= 64 * bitmap.Length
    modifies bitmap
    ensures Ranged(old(bitmap[..]), bitmap[..], begin, begin + length, true)
  {
    ghost var m0, pos := bitmap[..], begin;
    var p := begin / 64;
    var bits := 64 - begin % 64;
    var end := begin + length;
    var mask := Shl(ONES, begin % 64);
    var remain := length;
    while remain >= bits
      invariant 1 <= bits <= 64 && pos == 64 * p + (64 - bits) && begin <= pos && 0 <= remain && pos + remain == end
      invariant mask == Shl(ONES, 64 - bits)
      invariant Ranged(m0, bitmap[..], begin, pos, true)
    {
      HeadCovers(64 - bits);
      WordStep(m0, bitmap[..], p, mask, begin, 64 - bits, 64, true);
      bitmap[p] := Or64(bitmap[p], mask);
      remain := remain - bits;
      bits := 64;
      mask := ONES;
      p := p + 1;
      pos := 64 * p;
    }
    if remain > 0 {
      TailStep(m0, bitmap[..], p, begin, 64 - bits, end, true);
      mask := And(mask, Shr(ONES, NegMod64(end)));
      bitmap[p] := Or64(bitmap[p], mask);
    }
  }

  /** bitmap64_clear_range. */
  method ClearRange(bitmap: array<Word64>, begin: nat, length: nat)
    requires length > 0 ==> begin + length <= 64 * bitmap.Length
    modifies bitmap
    ensures Ranged(old(bitmap[..]), bitmap[..], begin, begin + length, false)
  {
    ghost var m0, pos := bitmap[..], begin;
    var p := begin / 64;
    var bits := 64 - begin % 64;
    var end := begin + length;
    var mask := Shl(ONES, begin % 64);
    var remain := length;
    while remain >= bits
      invariant 1 <= bits <= 64 && pos == 64 * p + (64 - bits) && begin <= pos && 0 <= remain && pos + remain == end
      invariant mask == Shl(ONES, 64 - bits)
      invariant Ranged(m0, bitmap[..], begin, pos, false)
    {
      HeadCovers(64 - bits);
      WordStep(m0, bitmap[..], p, mask, begin, 64 - bits, 64, false);
      bitmap[p] := And(bitmap[p], Not(mask));
      remain := remain - bits;
      bits := 64;
      mask := ONES;
      p := p + 1;
      pos := 64 * p;
    }
    if remain > 0 {
      TailStep(m0, bitmap[..], p, begin, 64 - bits, end, false);
      mask := And(mask, Shr(ONES, NegMod64(end)));
      bitmap[p] := And(bitmap[p], Not(mask));
    }
  }
}
