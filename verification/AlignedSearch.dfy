/** kernel/mm/physical.c: the search of alloc_phys_frames_aligned as a function of the bitmap. */
module AlignedSearch {
  import opened Powers
  import opened Bitmap
  import opened FrameSets
  import opened FrameSearch

  /** The first of the frames p, p + inc, ... that is free or not below the limit. */
  function AlignedFree(m: Table, limit: nat, p: nat, inc: nat): (r: nat)
    requires inc > 0
    ensures p <= r && (r < limit ==> FreeAt(m, r))
    decreases limit - p
  {
    if p >= limit || FreeAt(m, p) then p else AlignedFree(m, limit, p + inc, inc)
  }

  /** How many frames from p on are free and below the limit, num at most. */
  function LimitedRun(m: Table, limit: nat, p: nat, num: nat): (c: nat)
    ensures c <= num && AllFree(m, p, c) && (c > 0 ==> p + c <= limit) && (c < num && p + c < limit ==> !FreeAt(m, p + c))
    decreases num
  {
    if num == 0 || p >= limit || !FreeAt(m, p) then 0 else 1 + LimitedRun(m, limit, p + 1, num - 1)
  }

  lemma LimitedRunStep(m: Table, limit: nat, p: nat, num: nat)
    requires p < limit && num > 0
    ensures LimitedRun(m, limit, p, num) == if FreeAt(m, p) then 1 + LimitedRun(m, limit, p + 1, num - 1) else 0
  {
  }

  /** The next multiple of inc. */
  function RoundUp(x: nat, inc: nat): (r: nat)
    requires inc > 0
    ensures r >= x
  {
    if x % inc != 0 then x + inc - x % inc else x
  }

  /** One turn: past a zero word by inc or 64 frames, otherwise to the next free multiple of inc and past its run. */
  function AlignedTurn(m: Table, limit: nat, pos: nat, inc: nat, num: nat): (v: Move)
    requires inc > 0 && pos < 64 * |m|
    ensures v.Go? ==> v.pos > pos
  {
    if m[pos / 64] == 0 then Go(pos + if inc >= 64 then inc else 64)
    else
      var p := AlignedFree(m, limit, pos, inc);
      AfterRun(limit, p, inc, num, LimitedRun(m, limit, p, num))
  }

  function AfterRun(limit: nat, p: nat, inc: nat, num: nat, c: nat): Move
    requires inc > 0
  {
    if c == num then Stop(Found(p)) else if p + c >= limit then Stop(Missing) else Go(RoundUp(p + c + 1, inc))
  }

  /** A turn at a word that is not zero, once its free multiple p and the run of c frames there are known. */
  lemma TurnAt(m: Table, limit: nat, pos: nat, inc: nat, num: nat, p: nat, c: nat)
    requires inc > 0 && pos < 64 * |m| && m[pos / 64] != 0
    requires AlignedFree(m, limit, pos, inc) == p && LimitedRun(m, limit, p, num) == c
    ensures AlignedTurn(m, limit, pos, inc, num) == AfterRun(limit, p, inc, num, c)
  {
  }

  lemma TurnZero(m: Table, limit: nat, pos: nat, inc: nat, num: nat)
    requires inc > 0 && pos < 64 * |m| && m[pos / 64] == 0
    ensures AlignedTurn(m, limit, pos, inc, num) == Go(pos + if inc >= 64 then inc else 64)
  {
  }

  function SearchAligned(m: Table, limit: nat, pos: nat, inc: nat, num: nat): SearchOutcome
    requires inc > 0 && (limit + 63) / 64 <= |m|
    decreases 64 * ((limit + 63) / 64) - pos
  {
    if pos / 64 >= (limit + 63) / 64 then Missing
    else
      match AlignedTurn(m, limit, pos, inc, num)
      case Stop(r) => r
      case Go(next) => SearchAligned(m, limit, next, inc, num)
  }

  lemma SearchStep(m: Table, limit: nat, pos: nat, inc: nat, num: nat)
    requires inc > 0 && (limit + 63) / 64 <= |m| && pos / 64 < (limit + 63) / 64
    ensures var v := AlignedTurn(m, limit, pos, inc, num);
            && (v.Stop? ==> SearchAligned(m, limit, pos, inc, num) == v.outcome)
            && (v.Go? ==> SearchAligned(m, limit, pos, inc, num) == SearchAligned(m, limit, v.pos, inc, num))
  {
  }

  lemma WordsOn(pos: nat, k: nat)
    ensures (pos + 64 * k) / 64 == pos / 64 + k
  {
  }

  /** The frame the search starts at. */
  function AlignedStart(inc: nat): nat { 64 * if inc / 64 <= 4 then 4 else inc / 64 }

  // ----- multiples -----

  /** p is a multiple of the 2^n frames. */
  ghost predicate OnGrid(p: int, n: nat) { Multiple(p, Pow2(n)) }

  lemma GridIndex(p: nat, n: nat) returns (q: nat)
    requires OnGrid(p, n)
    ensures p == Times(q, Pow2(n))
  {
    var j: int :| Times(j, Pow2(n)) == p;
    if j < 0 { TimesLess(j, 0, Pow2(n)); }
    q := j;
  }

  lemma GridAdd(p: nat, n: nat, d: int)
    requires OnGrid(p, n) && OnGrid(d, n)
    ensures OnGrid(p + d, n)
  {
    var a: int :| Times(a, Pow2(n)) == p;
    var b: int :| Times(b, Pow2(n)) == d;
    TimesAdd(a, b, Pow2(n));
  }

  lemma GridOne(n: nat)
    ensures OnGrid(Pow2(n), n)
  {
    assert Times(1, Pow2(n)) == Pow2(n);
  }

  /** Between a multiple and the next there is none. */
  lemma GridGap(p: nat, w: nat, n: nat)
    requires OnGrid(p, n) && OnGrid(w, n) && p < w
    ensures p + Pow2(n) <= w
  {
    var q := GridIndex(p, n);
    var j := GridIndex(w, n);
    if j <= q { TimesMonotone(j, q, Pow2(n)); }
    TimesMonotone(q + 1, j, Pow2(n));
    TimesAdd(q, 1, Pow2(n));
  }

  lemma GridRoundUp(x: nat, n: nat)
    requires x > 0
    ensures OnGrid(RoundUp(x, Pow2(n)), n) && RoundUp(x, Pow2(n)) < x + Pow2(n)
  {
    var inc := Pow2(n);
    DivRem(x, inc);
    TimesAdd(x / inc, 1, inc);
    assert Times(if x % inc != 0 then x / inc + 1 else x / inc, inc) == RoundUp(x, inc);
  }

  /** Rounding up stops at or before every multiple ahead. */
  lemma RoundUpBelow(x: nat, w: nat, n: nat)
    requires 0 < x <= w && OnGrid(w, n)
    ensures RoundUp(x, Pow2(n)) <= w
  {
    GridRoundUp(x, n);
    if RoundUp(x, Pow2(n)) > w { GridGap(w, RoundUp(x, Pow2(n)), n); }
  }

  /** Below 64 frames a word holds whole multiples, from 64 up a multiple starts a word. */
  lemma GridWord(n: nat)
    ensures n < 6 ==> Pow2(n) < 64 && OnGrid(64, n)
    ensures n >= 6 ==> Pow2(n) >= 64 && Pow2(n) == 64 * (Pow2(n) / 64)
  {
    assert Pow2(6) == 64;
    if n < 6 {
      Pow2Add(n, 6 - n);
      assert Times(Pow2(n), Pow2(6 - n)) == Times(Pow2(6 - n), Pow2(n));
      Pow2Monotone(n, 5);
    } else {
      Pow2Add(6, n - 6);
      Pow2Monotone(6, n);
    }
  }

  lemma GridTimes(k: nat, p: nat, n: nat)
    requires OnGrid(p, n)
    ensures OnGrid(k * p, n)
    decreases k
  {
    if k == 0 {
      assert Times(0, Pow2(n)) == 0;
    } else {
      GridTimes(k - 1, p, n);
      assert k * p == (k - 1) * p + p;
      GridAdd((k - 1) * p, n, p);
    }
  }

  lemma GridStart(n: nat)
    ensures OnGrid(AlignedStart(Pow2(n)), n) && AlignedStart(Pow2(n)) >= LOW
    ensures forall w: nat :: OnGrid(w, n) && LOW <= w ==> AlignedStart(Pow2(n)) <= w
  {
    GridWord(n);
    GridOne(n);
    if n < 6 {
      GridTimes(4, 64, n);
    } else if n <= 8 {
      assert Pow2(7) == 128 && Pow2(8) == 256;
      GridTimes(if n == 6 then 4 else if n == 7 then 2 else 1, Pow2(n), n);
    } else {
      Pow2Monotone(9, n);
      assert Pow2(9) == 512;
      forall w: nat | OnGrid(w, n) && LOW <= w ensures Pow2(n) <= w {
        assert Times(0, Pow2(n)) == 0;
        GridGap(0, w, n);
      }
    }
  }

  // ----- what the search finds -----

  lemma {:induction false} AlignedFreeGrid(m: Table, limit: nat, p: nat, n: nat)
    requires OnGrid(p, n)
    ensures OnGrid(AlignedFree(m, limit, p, Pow2(n)), n)
    decreases limit - p
  {
    if p < limit && !FreeAt(m, p) {
      GridOne(n);
      GridAdd(p, n, Pow2(n));
      AlignedFreeGrid(m, limit, p + Pow2(n), n);
    }
  }

  /** The scan stops at or before every free multiple ahead. */
  lemma {:induction false} AlignedFreeBelow(m: Table, limit: nat, p: nat, n: nat, w: nat)
    requires OnGrid(p, n) && OnGrid(w, n) && p <= w < limit && FreeAt(m, w)
    ensures AlignedFree(m, limit, p, Pow2(n)) <= w
    decreases limit - p
  {
    if !FreeAt(m, p) {
      GridGap(p, w, n);
      GridOne(n);
      GridAdd(p, n, Pow2(n));
      AlignedFreeBelow(m, limit, p + Pow2(n), n, w);
    }
  }

  /** The outcome is a run on the grid at or after pos, or none. */
  ghost predicate Sound(m: Table, limit: nat, pos: nat, n: nat, num: nat, r: SearchOutcome) {
    && r != Overrun
    && (r.Found? ==> pos <= r.pos && OnGrid(r.pos, n) && AllFree(m, r.pos, num) && (num > 0 ==> r.pos + num <= limit))
  }

  /** Every turn goes on at a multiple or stops at one. */
  lemma TurnGrid(m: Table, limit: nat, pos: nat, n: nat, num: nat)
    requires pos < 64 * |m| && OnGrid(pos, n)
    ensures var v := AlignedTurn(m, limit, pos, Pow2(n), num);
            if v.Stop? then Sound(m, limit, pos, n, num, v.outcome) else OnGrid(v.pos, n)
  {
    GridWord(n);
    GridOne(n);
    if m[pos / 64] == 0 {
      GridAdd(pos, n, if Pow2(n) >= 64 then Pow2(n) else 64);
    } else {
      var p := AlignedFree(m, limit, pos, Pow2(n));
      AlignedFreeGrid(m, limit, pos, n);
      GridRoundUp(p + LimitedRun(m, limit, p, num) + 1, n);
    }
  }

  lemma {:induction false} AlignedSound(m: Table, limit: nat, pos: nat, n: nat, num: nat)
    requires (limit + 63) / 64 <= |m| && OnGrid(pos, n)
    ensures Sound(m, limit, pos, n, num, SearchAligned(m, limit, pos, Pow2(n), num))
    decreases 64 * ((limit + 63) / 64) - pos
  {
    if pos / 64 < (limit + 63) / 64 {
      TurnGrid(m, limit, pos, n, num);
      match AlignedTurn(m, limit, pos, Pow2(n), num)
      case Stop(r) =>
      case Go(next) => AlignedSound(m, limit, next, n, num);
    }
  }

  /** Seen from pos, the start w lies in the same word or not right behind a word without free frames. */
  predicate SeenFrom(m: Table, inc: nat, pos: nat, w: nat)
    requires w < 64 * |m|
  {
    inc >= 64 || w / 64 == pos / 64 || (w >= 64 && m[w / 64 - 1] != 0)
  }

  /** A turn never passes a fit that it sees. */
  lemma AlignedTurnSeen(m: Table, limit: nat, pos: nat, n: nat, num: nat, w: nat) returns (v: Move)
    requires OnGrid(pos, n) && OnGrid(w, n) && pos <= w < 64 * |m| && num > 0 && AllFree(m, w, num) && w + num <= limit
    requires SeenFrom(m, Pow2(n), pos, w)
    ensures v == AlignedTurn(m, limit, pos, Pow2(n), num)
    ensures if v.Stop? then v.outcome.Found? && v.outcome.pos <= w else v.pos <= w && SeenFrom(m, Pow2(n), v.pos, w)
  {
    assert FreeAt(m, w);
    if m[pos / 64] == 0 {
      TurnZero(m, limit, pos, Pow2(n), num);
      ZeroWordPassed(m, pos, n, w);
      v := Go(pos + if Pow2(n) >= 64 then Pow2(n) else 64);
    } else {
      var p := AlignedFree(m, limit, pos, Pow2(n));
      var c := LimitedRun(m, limit, p, num);
      TurnAt(m, limit, pos, Pow2(n), num, p, c);
      AlignedFreeBelow(m, limit, pos, n, w);
      if c < num { ShortRun(m, limit, p, num, w); }
      v := RunSeen(m, limit, pos, p, c, n, num, w);
    }
  }

  /** The turn after a run of c frames from p. */
  lemma RunSeen(m: Table, limit: nat, pos: nat, p: nat, c: nat, n: nat, num: nat, w: nat) returns (v: Move)
    requires OnGrid(w, n) && pos <= p <= w && c <= num && w <= limit && (c < num ==> p + c < w)
    requires w < 64 * |m| && SeenFrom(m, Pow2(n), pos, w)
    ensures v == AfterRun(limit, p, Pow2(n), num, c)
    ensures if v.Stop? then v.outcome.Found? && v.outcome.pos <= w else v.pos <= w && SeenFrom(m, Pow2(n), v.pos, w)
  {
    if c == num {
      v := Stop(Found(p));
    } else {
      RoundUpBelow(p + c + 1, w, n);
      StillSeen(pos, RoundUp(p + c + 1, Pow2(n)), w);
      v := Go(RoundUp(p + c + 1, Pow2(n)));
    }
  }

  /** A run that is too short ends before every later fit. */
  lemma ShortRun(m: Table, limit: nat, p: nat, num: nat, w: nat)
    requires p <= w && num > 0 && AllFree(m, w, num) && w + num <= limit && LimitedRun(m, limit, p, num) < num
    ensures p + LimitedRun(m, limit, p, num) < w
  {
  }

  lemma ZeroWordPassed(m: Table, pos: nat, n: nat, w: nat)
    requires pos <= w < 64 * |m| && m[pos / 64] == 0 && FreeAt(m, w) && OnGrid(pos, n) && OnGrid(w, n)
    requires SeenFrom(m, Pow2(n), pos, w)
    ensures pos + (if Pow2(n) >= 64 then Pow2(n) else 64) <= w
  {
    WordFrames(m, pos / 64);
    if Pow2(n) >= 64 {
      GridGap(pos, w, n);
    } else {
      FartherWord(pos, w);
    }
  }

  /** A fit that the search sees is found, or an earlier one is. */
  lemma {:induction false} AlignedSeen(m: Table, limit: nat, pos: nat, n: nat, num: nat, w: nat)
    requires (limit + 63) / 64 <= |m| && OnGrid(pos, n) && OnGrid(w, n) && pos <= w && num > 0
    requires AllFree(m, w, num) && w + num <= limit && SeenFrom(m, Pow2(n), pos, w)
    ensures var r := SearchAligned(m, limit, pos, Pow2(n), num); r.Found? && r.pos <= w
    decreases 64 * ((limit + 63) / 64) - pos
  {
    var v := AlignedTurnSeen(m, limit, pos, n, num, w);
    TurnGrid(m, limit, pos, n, num);
    match v
    case Stop(r) =>
    case Go(next) => AlignedSeen(m, limit, next, n, num, w);
  }

  /** No start in [LOW, end) that the search sees begins num free frames. */
  ghost predicate NoFitBelow(m: Table, num: nat, n: nat, end: nat) {
    forall w: nat :: OnGrid(w, n) && LOW <= w < end && Seen(m, Pow2(n), w) ==> !AllFree(m, w, num)
  }

  /** What the search means for a table with no free frame from the limit on. */
  lemma AlignedFits(m: Table, limit: nat, n: nat, num: nat)
    requires (limit + 63) / 64 <= |m| && Bounded(m, limit)
    ensures var r := SearchAligned(m, limit, AlignedStart(Pow2(n)), Pow2(n), num);
            && Sound(m, limit, LOW, n, num, r)
            && (num > 0 ==> NoFitBelow(m, num, n, if r.Found? then r.pos else limit))
  {
    var start := AlignedStart(Pow2(n));
    GridStart(n);
    GridWord(n);
    AlignedSound(m, limit, start, n, num);
    if num > 0 {
      var r := SearchAligned(m, limit, start, Pow2(n), num);
      forall w: nat | OnGrid(w, n) && LOW <= w < (if r.Found? then r.pos else limit) && Seen(m, Pow2(n), w)
        ensures !AllFree(m, w, num)
      {
        if AllFree(m, w, num) {
          RunBelow(m, w, num, limit);
          AlignedSeen(m, limit, start, n, num, w);
        }
      }
    }
  }
}
