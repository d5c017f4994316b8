/** kernel/mm/physical.c: how physical_free_range and physical_take_range round bytes to page frames. */
module ByteRanges {
  import opened Bits
  import opened FrameSets

  /** Page i lies wholly inside the bytes [begin, begin + length). */
  predicate Inside(i: nat, begin: nat, length: nat) {
    begin <= PG_SIZE * i && PG_SIZE * (i + 1) <= begin + length
  }

  /** Page i shares a byte with [begin, begin + length). */
  predicate Touches(i: nat, begin: nat, length: nat) {
    length > 0 && PG_SIZE * i < begin + length && begin < PG_SIZE * (i + 1)
  }

  function Sub64(a: nat, b: nat): nat
    requires b <= W64
  {
    (a + W64 - b) % W64
  }

  /** The arguments physical_free_range passes to bitmap64_set_range, in uint64_t arithmetic. */
  function FreeFirst(begin: nat, length: nat): nat {
    if begin % PG_SIZE == 0 then begin / PG_SIZE else begin / PG_SIZE + 1
  }

  function FreeCount(begin: nat, length: nat): nat {
    var remain, endRemain := begin % PG_SIZE, (begin + length) % PG_SIZE;
    if remain == 0 then Sub64(length, endRemain) / PG_SIZE
    else Sub64(Sub64(length, PG_SIZE - remain), endRemain) / PG_SIZE
  }

  /** The range starts on a page or reaches the next page boundary. */
  predicate Reaches(begin: nat, length: nat) {
    begin % PG_SIZE == 0 || (begin / PG_SIZE + 1) * PG_SIZE <= begin + length
  }

  /** Dividing by the page size, by example. */
  lemma PageQuotient(x: nat, q: nat, r: nat)
    requires x == q * PG_SIZE + r && r < PG_SIZE
    ensures x / PG_SIZE == q && x % PG_SIZE == r
  {
  }

  /** Without underflow the count reaches to the page that holds the end of the range. */
  lemma FreeCountReached(begin: nat, length: nat)
    requires begin + length < W64 && Reaches(begin, length)
    ensures FreeFirst(begin, length) + FreeCount(begin, length) == (begin + length) / PG_SIZE
  {
    var q, r := begin / PG_SIZE, begin % PG_SIZE;
    var e, d := (begin + length) / PG_SIZE, (begin + length) % PG_SIZE;
    if r == 0 {
      assert q <= e;
      PageQuotient(length - d, e - q, 0);
    } else {
      assert q + 1 <= e;
      PageQuotient(length - (PG_SIZE - r) - d, e - q - 1, 0);
    }
  }

  /** physical_free_range rounds inward to exactly the pages inside the range if and only if the range is
      page-aligned at its start or reaches a page boundary; otherwise the length underflows. */
  lemma FreeRangeExact(begin: nat, length: nat)
    requires begin + length < W64
    ensures (forall i: nat :: FreeFirst(begin, length) <= i < FreeFirst(begin, length) + FreeCount(begin, length)
                              <==> Inside(i, begin, length))
            <==> Reaches(begin, length)
  {
    var q, r := begin / PG_SIZE, begin % PG_SIZE;
    var f, c := FreeFirst(begin, length), FreeCount(begin, length);
    if !Reaches(begin, length) {
      PageQuotient(begin + length, q, r + length);
      assert c > 0;
      assert f <= f < f + c && !Inside(f, begin, length);
    } else {
      FreeCountReached(begin, length);
    }
  }

  /** The lowest page-misaligned range inside one page already underflows. */
  lemma FreeRangeUnderflow()
    ensures FreeCount(1, 1) == 0x000F_FFFF_FFFF_FFFF && !Inside(0, 1, 1)
  {
  }

  /** The length physical_take_range passes to bitmap64_clear_range, in uint64_t arithmetic. */
  function TakeCount(begin: nat, length: nat): nat {
    var remain, endRemain := begin % PG_SIZE, (begin + length) % PG_SIZE;
    if endRemain == 0 then (length + remain) % W64 / PG_SIZE
    else (length + remain + PG_SIZE - endRemain) % W64 / PG_SIZE
  }

  /** The range starts in the first page and ends in the last one, past its start: rounded outward it has 2^64 bytes. */
  predicate TakeWraps(begin: nat, length: nat) { begin < PG_SIZE && begin + length > W64 - PG_SIZE }

  /** The count reaches past the page that holds the last byte, unless it wraps to 0. */
  lemma TakeCountReached(begin: nat, length: nat)
    requires begin + length < W64
    ensures if TakeWraps(begin, length) then TakeCount(begin, length) == 0
            else begin / PG_SIZE + TakeCount(begin, length) == (begin + length + PG_SIZE - 1) / PG_SIZE
  {
    var q, r := begin / PG_SIZE, begin % PG_SIZE;
    var e, d := (begin + length) / PG_SIZE, (begin + length) % PG_SIZE;
    if d == 0 {
      PageQuotient(begin + length + PG_SIZE - 1, e, PG_SIZE - 1);
      assert length + r == (e - q) * PG_SIZE < W64;
      PageQuotient(length + r, e - q, 0);
    } else {
      PageQuotient(begin + length + PG_SIZE - 1, e + 1, d - 1);
      TakeSum(q, e, length + r + PG_SIZE - d);
    }
  }

  lemma TakeSum(q: nat, e: nat, sum: nat)
    requires q <= e && e * PG_SIZE < W64 && sum == (e + 1 - q) * PG_SIZE
    ensures sum % W64 / PG_SIZE == if q == 0 && e * PG_SIZE == W64 - PG_SIZE then 0 else e + 1 - q
  {
    if q == 0 && e * PG_SIZE == W64 - PG_SIZE {
      assert sum == W64;
    } else {
      assert sum < W64;
      PageQuotient(sum, e + 1 - q, 0);
    }
  }

  /** physical_take_range takes exactly the pages that the range touches. */
  predicate TakesTouched(begin: nat, length: nat) {
    (length > 0 || begin % PG_SIZE == 0) && !TakeWraps(begin, length)
  }

  /** It does if and only if the range is not empty or page-aligned, and does not round to the whole of memory. */
  lemma TakeRangeExact(begin: nat, length: nat)
    requires begin + length < W64
    ensures (forall i: nat :: begin / PG_SIZE <= i < begin / PG_SIZE + TakeCount(begin, length)
                              <==> Touches(i, begin, length))
            <==> TakesTouched(begin, length)
  {
    var q := begin / PG_SIZE;
    TakeCountReached(begin, length);
    if TakeWraps(begin, length) {
      assert Touches(q, begin, length);
    } else if length == 0 && begin % PG_SIZE != 0 {
      PageQuotient(begin + PG_SIZE - 1, q + 1, begin % PG_SIZE - 1);
      assert q <= q < q + 1;
      assert !Touches(q, begin, length);
    }
  }

  /** The widest range takes nothing at all; an empty range inside a page takes that page. */
  lemma TakeRangeWraps()
    ensures TakeCount(0, ONES) == 0 && Touches(0, 0, ONES)
    ensures TakeCount(1, 0) == 1 && !Touches(0, 1, 0)
  {
  }

  /** Freeing bytes disjoint from taken ones never frees a page of theirs. */
  lemma RoundingSafe(i: nat, begin: nat, length: nat, begin': nat, length': nat)
    requires begin + length <= begin' || begin' + length' <= begin
    ensures !(Inside(i, begin, length) && Touches(i, begin', length'))
  {
  }

  lemma FreeRangeFits(begin: nat, length: nat, n: nat)
    requires begin + length < W64 && Reaches(begin, length) && begin + length <= n * PG_SIZE
    ensures FreeFirst(begin, length) + FreeCount(begin, length) <= n
  {
    FreeCountReached(begin, length);
  }

  lemma TakeRangeFits(begin: nat, length: nat, n: nat)
    requires begin + length < W64 && begin + length <= n * PG_SIZE
    ensures begin / PG_SIZE + TakeCount(begin, length) <= n
  {
    TakeCountReached(begin, length);
  }
}
