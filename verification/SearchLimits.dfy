/** kernel/mm/physical.c: when the multi-frame searches find a run that exists, and when they stay inside mm_table. */
module SearchLimits {
  import opened Powers
  import opened Bits
  import opened Bitmap
  import opened AlignedSearch
  import opened FrameSearch
  import opened FrameSets

  /** Whatever the bitmap, the search finds a run of num frames if there is one. */
  ghost predicate Complete(words: nat, limit: nat, num: nat)
    requires (limit + 63) / 64 <= words
  {
    forall m: Table, w: nat :: |m| == words && Bounded(m, limit) && LOW <= w && AllFree(m, w, num) ==>
      Search(m, LOW, (limit + 63) / 64, num).Found?
  }

  /** It does exactly for single frames, and as long as no run fits at or above frame 384. */
  lemma CompleteExactly(words: nat, limit: nat, num: nat)
    requires num > 0 && (limit + 63) / 64 <= words
    ensures Complete(words, limit, num) <==> num == 1 || limit < 384 + num
  {
    if num == 1 || limit < 384 + num {
      forall m: Table, w: nat | |m| == words && Bounded(m, limit) && LOW <= w && AllFree(m, w, num)
        ensures Search(m, LOW, (limit + 63) / 64, num).Found?
      {
        RunBelow(m, w, num, limit);
        if num == 1 {
          assert FreeAt(m, w);
          SearchOne(m, LOW, (limit + 63) / 64);
        } else {
          FoundLow(m, limit, num, w);
        }
      }
    } else {
      GapBounded(words, limit, 1, num);
      Missed(words, limit, num);
    }
  }

  /** Below frame 384 the search still starts at word boundaries. */
  lemma FoundLow(m: Table, limit: nat, num: nat, w: nat)
    requires num > 0 && (limit + 63) / 64 <= |m| && LOW <= w < 384 && w + num <= limit && AllFree(m, w, num)
    ensures Search(m, LOW, (limit + 63) / 64, num).Found?
  {
    var end := (limit + 63) / 64;
    if w >= 320 && m[4] == 0 {
      assert ScanTurn(m, LOW, num) == Go(320);
      SearchSeen(m, 320, end, num, w);
    } else {
      SearchSeen(m, LOW, end, num, w);
    }
  }

  // ----- the bitmap it fails on -----

  function GapWord(i: nat, inc: nat, num: nat): Word64 {
    if i == 4 then Not(LowBits(64 - inc)) else if i < 6 then 0 else LowBits(num - 64 * (i - 6))
  }

  /** Free are only the inc frames before frame 320 and the num frames from 384 on. */
  function Gap(words: nat, inc: nat, num: nat): Table { seq(words, i requires 0 <= i < words => GapWord(i, inc, num)) }

  lemma GapFree(words: nat, inc: nat, num: nat, f: nat)
    requires inc <= 64
    ensures FreeAt(Gap(words, inc, num), f) <==> f < 64 * words && (320 - inc <= f < 320 || 384 <= f < 384 + num)
  {
    if f < 64 * words {
      var i, j := f / 64, f % 64;
      assert f == 64 * i + j;
      assert BitAt(Gap(words, inc, num), f) == Bit(GapWord(i, inc, num), j);
      GapBit(i, j, inc, num);
    }
  }

  lemma GapBit(i: nat, j: nat, inc: nat, num: nat)
    requires j < 64 && inc <= 64
    ensures Bit(GapWord(i, inc, num), j) <==> 320 - inc <= 64 * i + j < 320 || 384 <= 64 * i + j < 384 + num
  {
    if i == 4 {
      NotBit(LowBits(64 - inc), j);
      LowBitsBit(64 - inc, j);
    } else if i < 6 {
      ZeroBit(j);
    } else {
      LowBitsBit(num - 64 * (i - 6), j);
    }
  }

  lemma GapBounded(words: nat, limit: nat, inc: nat, num: nat)
    requires 0 < inc <= 64 && num > 0 && 384 + num <= limit && (limit + 63) / 64 <= words
    ensures GapFrames(Gap(words, inc, num), inc, num)
    ensures Bounded(Gap(words, inc, num), limit) && AllFree(Gap(words, inc, num), 384, num)
  {
    forall f: nat ensures FreeAt(Gap(words, inc, num), f) <==> 320 - inc <= f < 320 || 384 <= f < 384 + num {
      GapFree(words, inc, num, f);
    }
  }

  ghost predicate GapFrames(m: Table, inc: nat, num: nat) {
    forall f: nat :: FreeAt(m, f) <==> 320 - inc <= f < 320 || 384 <= f < 384 + num
  }

  /** From frame 319 the search goes on at 321, steps over the zero word 5 to 385 and so misses 384. */
  lemma Missed(words: nat, limit: nat, num: nat)
    requires num > 1 && 384 + num <= limit && (limit + 63) / 64 <= words
    ensures !Search(Gap(words, 1, num), LOW, (limit + 63) / 64, num).Found?
  {
    var m, end := Gap(words, 1, num), (limit + 63) / 64;
    GapBounded(words, limit, 1, num);
    GapTurns(m, num);
    assert Search(m, LOW, end, num) == Search(m, 321, end, num) == Search(m, 385, end, num);
    if Search(m, 385, end, num).Found? {
      SearchSound(m, 385, end, num);
      RunBelow(m, Search(m, 385, end, num).pos, num, 384 + num);
    }
  }

  lemma GapTurns(m: Table, num: nat)
    requires num > 1 && |m| > 6 && GapFrames(m, 1, num)
    ensures ScanTurn(m, LOW, num) == Go(321) && ScanTurn(m, 321, num) == Go(385)
  {
    WordFrames(m, 4);
    WordFrames(m, 5);
    assert FreeAt(m, 319) && !FreeAt(m, 320);
    assert NextFree(m, LOW) == 319;
    FreeRunStep(m, 319, num);
    FreeRunStep(m, 320, num - 1);
  }

  // ----- leaving the table -----

  /** Whatever the bitmap, the scans of the search stop inside the table. */
  ghost predicate StaysInside(words: nat, limit: nat, num: nat)
    requires (limit + 63) / 64 <= words
  {
    forall m: Table :: |m| == words && Bounded(m, limit) ==> !Search(m, LOW, (limit + 63) / 64, num).Overrun?
  }

  /** They do exactly for at most one frame, or when there is no memory past the first megabyte. */
  lemma StaysInsideExactly(words: nat, limit: nat, num: nat)
    requires (limit + 63) / 64 <= words
    ensures StaysInside(words, limit, num) <==> num <= 1 || limit <= LOW
  {
    if num <= 1 || limit <= LOW {
      forall m: Table | |m| == words && Bounded(m, limit) ensures !Search(m, LOW, (limit + 63) / 64, num).Overrun? {
        if num == 0 {
          SearchNone(m, LOW, (limit + 63) / 64);
        } else if num == 1 {
          SearchOne(m, LOW, (limit + 63) / 64);
        }
      }
    } else {
      LeavesTable(words, limit, num);
    }
  }

  /** The bitmap whose only free frame is 256. */
  function Lone(words: nat): Table { seq(words, i requires 0 <= i < words => if i == 4 then 1 else 0) }

  lemma LoneFree(words: nat, f: nat)
    ensures FreeAt(Lone(words), f) <==> f < 64 * words && f == 256
  {
    if f < 64 * words {
      var i, j := f / 64, f % 64;
      assert BitAt(Lone(words), f) == Bit(if i == 4 then 1 else 0, j);
      ZeroBit(j);
      if j > 0 { ZeroBit(j - 1); }
    }
  }

  /** Behind that frame the scan for the next free one runs out of the table. */
  lemma LeavesTable(words: nat, limit: nat, num: nat)
    requires num > 1 && limit > LOW && (limit + 63) / 64 <= words
    ensures Bounded(Lone(words), limit) && Search(Lone(words), LOW, (limit + 63) / 64, num).Overrun?
  {
    var m, end := Lone(words), (limit + 63) / 64;
    forall f: nat ensures FreeAt(m, f) <==> f == 256 {
      LoneFree(words, f);
    }
    WordFrames(m, 4);
    assert NextFree(m, LOW) == LOW;
    FreeRunStep(m, LOW, num);
    FreeRunStep(m, LOW + 1, num - 1);
    assert ScanTurn(m, LOW, num) == Go(258);
    assert NextFree(m, 258) == 64 * words;
    assert ScanTurn(m, 258, num) == Stop(Overrun);
    assert Search(m, LOW, end, num) == Search(m, 258, end, num);
  }

  // ----- the aligned search -----

  /** Whatever the bitmap, the search finds an aligned run of num frames if there is one. */
  ghost predicate AlignedComplete(words: nat, limit: nat, n: nat, num: nat)
    requires (limit + 63) / 64 <= words
  {
    forall m: Table, w: nat :: |m| == words && Bounded(m, limit) && LOW <= w && OnGrid(w, n) && AllFree(m, w, num) ==>
      SearchAligned(m, limit, AlignedStart(Pow2(n)), Pow2(n), num).Found?
  }

  /** It does exactly when the alignment is at least 64 frames or at least the run, or no run fits at or above frame 384. */
  lemma AlignedCompleteExactly(words: nat, limit: nat, n: nat, num: nat)
    requires num > 0 && (limit + 63) / 64 <= words
    ensures AlignedComplete(words, limit, n, num) <==> Pow2(n) >= 64 || num <= Pow2(n) || limit < 384 + num
  {
    if Pow2(n) >= 64 || num <= Pow2(n) || limit < 384 + num {
      forall m: Table, w: nat | |m| == words && Bounded(m, limit) && LOW <= w && OnGrid(w, n) && AllFree(m, w, num)
        ensures SearchAligned(m, limit, AlignedStart(Pow2(n)), Pow2(n), num).Found?
      {
        RunBelow(m, w, num, limit);
        AlignedFound(m, limit, n, num, w);
      }
    } else {
      GapFits(words, limit, n, num);
      AlignedMissed(words, limit, n, num);
    }
  }

  lemma GapFits(words: nat, limit: nat, n: nat, num: nat)
    requires Pow2(n) < 64 && num > 0 && 384 + num <= limit && (limit + 63) / 64 <= words
    ensures Bounded(Gap(words, Pow2(n), num), limit) && AllFree(Gap(words, Pow2(n), num), 384, num) && OnGrid(384, n)
  {
    GapBounded(words, limit, Pow2(n), num);
    GridWord(n);
    GridTimes(6, 64, n);
  }

  lemma AlignedFound(m: Table, limit: nat, n: nat, num: nat, w: nat)
    requires num > 0 && (limit + 63) / 64 <= |m| && LOW <= w && w + num <= limit && OnGrid(w, n) && AllFree(m, w, num)
    requires Pow2(n) >= 64 || num <= Pow2(n) || limit < 384 + num
    ensures SearchAligned(m, limit, AlignedStart(Pow2(n)), Pow2(n), num).Found?
  {
    var start := AlignedStart(Pow2(n));
    GridStart(n);
    if Pow2(n) >= 64 {
      AlignedSeen(m, limit, start, n, num, w);
    } else if num <= Pow2(n) {
      AlignedShort(m, limit, start, n, num, w);
    } else {
      AlignedLow(m, limit, n, num, w);
    }
  }

  /** Below frame 384 the search still starts at word boundaries. */
  lemma AlignedLow(m: Table, limit: nat, n: nat, num: nat, w: nat)
    requires num > 0 && (limit + 63) / 64 <= |m| && LOW <= w < 384 && w + num <= limit && OnGrid(w, n) && AllFree(m, w, num)
    requires Pow2(n) < 64
    ensures SearchAligned(m, limit, LOW, Pow2(n), num).Found?
  {
    GridWord(n);
    GridTimes(4, 64, n);
    if w >= 320 && m[4] == 0 {
      GridTimes(5, 64, n);
      SearchStep(m, limit, LOW, Pow2(n), num);
      AlignedSeen(m, limit, 320, n, num, w);
    } else {
      AlignedSeen(m, limit, LOW, n, num, w);
    }
  }

  /** A run no longer than the alignment keeps the search at word boundaries or in words that are not zero. */
  lemma {:induction false} AlignedShort(m: Table, limit: nat, pos: nat, n: nat, num: nat, w: nat)
    requires Pow2(n) < 64 && 0 < num <= Pow2(n) && (limit + 63) / 64 <= |m| && OnGrid(pos, n) && OnGrid(w, n)
    requires pos <= w && AllFree(m, w, num) && w + num <= limit && InStep(m, pos)
    ensures SearchAligned(m, limit, pos, Pow2(n), num).Found?
    decreases 64 * ((limit + 63) / 64) - pos
  {
    SearchStep(m, limit, pos, Pow2(n), num);
    TurnGrid(m, limit, pos, n, num);
    var v := ShortTurn(m, limit, pos, n, num, w);
    if v.Go? {
      AlignedShort(m, limit, v.pos, n, num, w);
    }
  }

  predicate InStep(m: Table, pos: nat) { pos < 64 * |m| && (pos % 64 == 0 || m[pos / 64] != 0) }

  lemma ShortTurn(m: Table, limit: nat, pos: nat, n: nat, num: nat, w: nat) returns (v: Move)
    requires Pow2(n) < 64 && 0 < num <= Pow2(n) && (limit + 63) / 64 <= |m| && OnGrid(pos, n) && OnGrid(w, n)
    requires pos <= w && AllFree(m, w, num) && w + num <= limit && InStep(m, pos)
    ensures v == AlignedTurn(m, limit, pos, Pow2(n), num)
    ensures if v.Stop? then v.outcome.Found? else v.pos <= w && InStep(m, v.pos)
  {
    assert FreeAt(m, w);
    if m[pos / 64] == 0 {
      TurnZero(m, limit, pos, Pow2(n), num);
      ZeroWordLeft(m, pos, w);
      v := Go(pos + 64);
    } else {
      v := RunTurn(m, limit, pos, n, num, w);
    }
  }

  lemma RunTurn(m: Table, limit: nat, pos: nat, n: nat, num: nat, w: nat) returns (v: Move)
    requires Pow2(n) < 64 && 0 < num <= Pow2(n) && OnGrid(pos, n) && OnGrid(w, n) && pos < 64 * |m| && m[pos / 64] != 0
    requires pos <= w && AllFree(m, w, num) && w + num <= limit && FreeAt(m, w)
    ensures v == AlignedTurn(m, limit, pos, Pow2(n), num)
    ensures if v.Stop? then v.outcome.Found? else v.pos <= w && InStep(m, v.pos)
  {
    var p := AlignedFree(m, limit, pos, Pow2(n));
    var c := LimitedRun(m, limit, p, num);
    TurnAt(m, limit, pos, Pow2(n), num, p, c);
    AlignedFreeBelow(m, limit, pos, n, w);
    AlignedFreeGrid(m, limit, pos, n);
    if c < num {
      v := AfterShort(m, limit, p, c, n, num, w);
    } else {
      v := Stop(Found(p));
    }
  }

  lemma AfterShort(m: Table, limit: nat, p: nat, c: nat, n: nat, num: nat, w: nat) returns (v: Move)
    requires Pow2(n) < 64 && 0 < num <= Pow2(n) && OnGrid(p, n) && OnGrid(w, n) && p <= w && FreeAt(m, w) && FreeAt(m, p)
    requires c == LimitedRun(m, limit, p, num) < num && AllFree(m, w, num) && w + num <= limit
    ensures v == AfterRun(limit, p, Pow2(n), num, c) && v.Go? && v.pos <= w && InStep(m, v.pos)
  {
    ShortRun(m, limit, p, num, w);
    StepAfter(m, p, c, n, w);
    v := Go(p + Pow2(n));
  }

  lemma ZeroWordLeft(m: Table, pos: nat, w: nat)
    requires InStep(m, pos) && m[pos / 64] == 0 && pos <= w && FreeAt(m, w)
    ensures pos + 64 <= w && InStep(m, pos + 64)
  {
    WordFrames(m, pos / 64);
  }

  lemma StepAfter(m: Table, p: nat, c: nat, n: nat, w: nat)
    requires Pow2(n) < 64 && OnGrid(p, n) && OnGrid(w, n) && c < Pow2(n) && p + c < w < 64 * |m| && FreeAt(m, p)
    ensures RoundUp(p + c + 1, Pow2(n)) == p + Pow2(n) <= w && InStep(m, p + Pow2(n))
  {
    GridGap(p, w, n);
    NextOnGrid(p, p + c + 1, n);
    WordFrames(m, p / 64);
    GridInWord(p, n);
  }

  lemma NextOnGrid(p: nat, x: nat, n: nat)
    requires OnGrid(p, n) && p < x <= p + Pow2(n)
    ensures RoundUp(x, Pow2(n)) == p + Pow2(n)
  {
    GridOne(n);
    GridAdd(p, n, Pow2(n));
    RoundUpBelow(x, p + Pow2(n), n);
    GridRoundUp(x, n);
    GridGap(p, RoundUp(x, Pow2(n)), n);
  }

  /** Below 64 frames the next multiple lies in the same word or starts the next one. */
  lemma GridInWord(p: nat, n: nat)
    requires OnGrid(p, n) && Pow2(n) < 64
    ensures (p + Pow2(n)) % 64 == 0 || (p + Pow2(n)) / 64 == p / 64
  {
    GridWord(n);
    GridTimes(p / 64 + 1, 64, n);
    GridGap(p, (p / 64 + 1) * 64, n);
  }

  /** The run right before frame 320 is too short; the search goes on inside the zero word 5 and so misses 384. */
  lemma AlignedMissed(words: nat, limit: nat, n: nat, num: nat)
    requires Pow2(n) < 64 && num > Pow2(n) && 384 + num <= limit && (limit + 63) / 64 <= words
    ensures !SearchAligned(Gap(words, Pow2(n), num), limit, AlignedStart(Pow2(n)), Pow2(n), num).Found?
  {
    HalfWord(n);
    GapBounded(words, limit, Pow2(n), num);
    GapMissed(Gap(words, Pow2(n), num), limit, n, num);
  }

  lemma GapMissed(m: Table, limit: nat, n: nat, num: nat)
    requires Pow2(n) < 64 && num > Pow2(n) && 384 + num <= limit && (limit + 63) / 64 <= |m| && GapFrames(m, Pow2(n), num)
    ensures !SearchAligned(m, limit, AlignedStart(Pow2(n)), Pow2(n), num).Found?
  {
    var inc := Pow2(n);
    HalfWord(n);
    FirstGapTurn(m, limit, n, num);
    SecondGapTurn(m, limit, inc, num);
    SearchStep(m, limit, LOW, inc, num);
    SearchStep(m, limit, 320 + inc, inc, num);
    NoneBehindGap(m, limit, n, num);
  }

  lemma FirstGapTurn(m: Table, limit: nat, n: nat, num: nat)
    requires Pow2(n) < 64 && num > Pow2(n) && limit > 384 && |m| > 6 && GapFrames(m, Pow2(n), num)
    ensures AlignedTurn(m, limit, LOW, Pow2(n), num) == Go(320 + Pow2(n))
  {
    var inc := Pow2(n);
    FirstGapFree(m, limit, n, num);
    GapRun(m, limit, inc, num);
    TurnAt(m, limit, LOW, inc, num, 320 - inc, inc);
    GridWord(n);
    GridTimes(5, 64, n);
    NextOnGrid(320, 321, n);
  }

  lemma FirstGapFree(m: Table, limit: nat, n: nat, num: nat)
    requires Pow2(n) < 64 && limit > 384 && |m| > 6 && GapFrames(m, Pow2(n), num)
    ensures m[LOW / 64] != 0 && AlignedFree(m, limit, LOW, Pow2(n)) == 320 - Pow2(n)
  {
    assert FreeAt(m, 319);
    WordFrames(m, 4);
    GridWord(n);
    GridTimes(4, 64, n);
    GridTimes(5, 64, n);
    GridBack(320, n);
    HalfWord(n);
    AlignedFreeBelow(m, limit, LOW, n, 320 - Pow2(n));
  }

  lemma SecondGapTurn(m: Table, limit: nat, inc: nat, num: nat)
    requires 0 < inc <= 32 && |m| > 6 && GapFrames(m, inc, num)
    ensures AlignedTurn(m, limit, 320 + inc, inc, num) == Go(384 + inc)
  {
    WordFrames(m, 5);
    assert (320 + inc) / 64 == 5;
    TurnZero(m, limit, 320 + inc, inc, num);
  }

  lemma NoneBehindGap(m: Table, limit: nat, n: nat, num: nat)
    requires Pow2(n) < 64 && num > 0 && (limit + 63) / 64 <= |m| && GapFrames(m, Pow2(n), num)
    ensures !SearchAligned(m, limit, 384 + Pow2(n), Pow2(n), num).Found?
  {
    GridWord(n);
    GridTimes(6, 64, n);
    GridOne(n);
    GridAdd(384, n, Pow2(n));
    AlignedSound(m, limit, 384 + Pow2(n), n, num);
    var r := SearchAligned(m, limit, 384 + Pow2(n), Pow2(n), num);
    if r.Found? {
      RunBelow(m, r.pos, num, 384 + num);
    }
  }

  lemma HalfWord(n: nat)
    requires Pow2(n) < 64
    ensures Pow2(n) <= 32
  {
    assert Pow2(6) == 64 && Pow2(5) == 32;
    if n >= 6 { Pow2Monotone(6, n); } else { Pow2Monotone(n, 5); }
  }

  lemma GridBack(p: nat, n: nat)
    requires OnGrid(p, n)
    ensures OnGrid(p - Pow2(n), n)
  {
    var d: int := Times(-1, Pow2(n));
    assert d + Pow2(n) == 0;
    GridAdd(p, n, d);
  }

  lemma GapRun(m: Table, limit: nat, inc: nat, num: nat)
    requires 0 < inc < num && inc <= 64 && limit > 384 && GapFrames(m, inc, num)
    ensures LimitedRun(m, limit, 320 - inc, num) == inc
  {
    assert !FreeAt(m, 320);
  }
}
