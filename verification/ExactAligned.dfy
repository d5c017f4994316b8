/** kernel/mm/physical.c: which run alloc_phys_frames_aligned takes on any bitmap. */
module ExactAligned {
  import opened Powers
  import opened Bitmap
  import opened FrameSets
  import opened FrameSearch
  import opened AlignedSearch
  import opened SearchLimits
  import opened ExactSearch

  /** r is the first aligned run of num frames, from pos on, among those whose start the search looks at. */
  ghost predicate FirstOnGrid(m: Table, pos: nat, n: nat, num: nat, r: SearchOutcome) {
    && (r.Found? ==> pos <= r.pos && OnGrid(r.pos, n) && AllFree(m, r.pos, num) && !Behind(m, r.pos, Pow2(n)))
    && forall w: nat :: pos <= w && (r.Found? ==> w < r.pos) && OnGrid(w, n) && AllFree(m, w, num) ==> Behind(m, w, Pow2(n))
  }

  /** Below 64 frames every word starts on the grid. */
  lemma GridWords(k: nat, n: nat)
    requires Pow2(n) < 64
    ensures OnGrid(64 * k, n) && (64 * k >= Pow2(n) ==> OnGrid(64 * k - Pow2(n), n))
  {
    GridWord(n);
    GridTimes(k, 64, n);
    GridBack(64 * k, n);
  }

  /** A zero word is passed without passing a start that is looked at. */
  lemma ZeroOnGrid(m: Table, pos: nat, n: nat, num: nat)
    requires Pow2(n) < 64 && num > 0 && LOW <= pos < 64 * |m| && m[pos / 64] == 0 && Ready(m, pos, Pow2(n))
    ensures Ready(m, pos + 64, Pow2(n)) && Passed(m, pos, pos + 64, n, num)
  {
    var q := pos / 64 + 1;
    ZeroReady(m, pos, Pow2(n));
    GridWords(q, n);
    forall w: nat | pos <= w < pos + 64 && OnGrid(w, n) && AllFree(m, w, num) ensures Behind(m, w, Pow2(n)) {
      assert FreeAt(m, w);
      if w != 64 * q { GridGap(64 * q, w, n); }
    }
  }

  /** From pos up to next the search passes no aligned fit that it looks at. */
  ghost predicate Passed(m: Table, pos: nat, next: nat, n: nat, num: nat) {
    forall w: nat :: pos <= w < next && OnGrid(w, n) && AllFree(m, w, num) ==> Behind(m, w, Pow2(n))
  }

  /** Where no multiple from pos up to word z is free, no run ends right before the zero words up to z. */
  lemma {:induction false} GridNotCrossed(m: Table, pos: nat, n: nat, z: nat)
    requires Pow2(n) < 64 && OnGrid(pos, n) && pos / 64 < z <= |m| && m[pos / 64] != 0
    requires forall f: nat :: pos <= f < 64 * z && OnGrid(f, n) ==> !FreeAt(m, f)
    ensures !Crossed(m, z, Pow2(n))
    decreases z
  {
    if 4 < z && m[z - 1] == 0 {
      GridNotCrossed(m, pos, n, z - 1);
    } else if 4 < z {
      GridWords(z, n);
      GridGap(pos, 64 * z, n);
      assert !FreeAt(m, 64 * z - Pow2(n));
    }
  }

  /** The next free multiple is looked at. */
  lemma NextOnGridReady(m: Table, limit: nat, pos: nat, n: nat, p: nat)
    requires Pow2(n) < 64 && OnGrid(pos, n) && pos < 64 * |m| && m[pos / 64] != 0 && !Behind(m, pos, Pow2(n))
    requires p == AlignedFree(m, limit, pos, Pow2(n)) < limit <= 64 * |m|
    ensures !Behind(m, p, Pow2(n))
  {
    if p > pos && p % 64 == 0 && p / 64 > 4 && m[p / 64 - 1] == 0 {
      forall f: nat | pos <= f < p && OnGrid(f, n) ensures !FreeAt(m, f) {
        if FreeAt(m, f) { AlignedFreeBelow(m, limit, pos, n, f); }
      }
      GridNotCrossed(m, pos, n, p / 64 - 1);
    }
  }

  /** Behind the end e of a run from p the search is ready again. */
  lemma AfterOnGrid(m: Table, p: nat, e: nat, n: nat)
    requires Pow2(n) < 64 && OnGrid(p, n) && LOW <= p < e < 64 * |m| && AllFree(m, p, e - p) && !FreeAt(m, e)
    ensures Ready(m, RoundUp(e + 1, Pow2(n)), Pow2(n))
  {
    var next := RoundUp(e + 1, Pow2(n));
    var q := next / 64;
    if next < 64 * |m| {
      assert FreeAt(m, e - 1);
      if m[q] == 0 {
        BeforeZero(m, e, n, q);
        if e == 64 * q {
          GridWords(q, n);
          GridGap(p, 64 * q, n);
        } else {
          assert !AllFree(m, 64 * q - Pow2(n), Pow2(n)) by { assert !FreeAt(m, 64 * q - Pow2(n) + (e - (64 * q - Pow2(n)))); }
        }
      } else if next == 64 * q {
        BeforeWord(m, e, n, q);
      }
    }
  }

  /** The run ends in the word before a zero word, or right behind it. */
  lemma BeforeZero(m: Table, e: nat, n: nat, q: nat)
    requires Pow2(n) < 64 && LOW < e < 64 * |m| && q < |m| && FreeAt(m, e - 1) && RoundUp(e + 1, Pow2(n)) / 64 == q && m[q] == 0
    ensures 4 < q && m[q - 1] != 0 && 64 * q - Pow2(n) <= e <= 64 * q
    ensures RoundUp(e + 1, Pow2(n)) == if e < 64 * q then 64 * q else 64 * q + Pow2(n)
  {
    WordFrames(m, q);
    GridRoundUp(e + 1, n);
    GridWords(q, n);
    HalfWord(n);
    if e < 64 * q {
      RoundUpBelow(e + 1, 64 * q, n);
    } else {
      NextOnGrid(64 * q, 64 * q + 1, n);
    }
    WordFrames(m, q - 1);
  }

  /** Where the search goes on at the start of a word, the word before it is not zero. */
  lemma BeforeWord(m: Table, e: nat, n: nat, q: nat)
    requires Pow2(n) < 64 && 0 < e && 0 < q <= |m| && FreeAt(m, e - 1) && RoundUp(e + 1, Pow2(n)) == 64 * q
    ensures m[q - 1] != 0
  {
    GridRoundUp(e + 1, n);
    HalfWord(n);
    WordFrames(m, q - 1);
  }

  /** One turn of the search. */
  lemma GridTurn(m: Table, limit: nat, pos: nat, n: nat, num: nat) returns (v: Move)
    requires Pow2(n) < 64 && num > 0 && pos < 64 * |m| && limit <= 64 * |m| && Bounded(m, limit)
    requires LOW <= pos && OnGrid(pos, n) && Ready(m, pos, Pow2(n))
    ensures v == AlignedTurn(m, limit, pos, Pow2(n), num)
    ensures v.Stop? ==> FirstOnGrid(m, pos, n, num, v.outcome)
    ensures v.Go? ==> Ready(m, v.pos, Pow2(n)) && OnGrid(v.pos, n) && Passed(m, pos, v.pos, n, num)
  {
    TurnGrid(m, limit, pos, n, num);
    if m[pos / 64] == 0 {
      TurnZero(m, limit, pos, Pow2(n), num);
      ZeroOnGrid(m, pos, n, num);
      v := Go(pos + 64);
    } else {
      var p := AlignedFree(m, limit, pos, Pow2(n));
      var c := LimitedRun(m, limit, p, num);
      TurnAt(m, limit, pos, Pow2(n), num, p, c);
      AlignedFreeGrid(m, limit, pos, n);
      NoFitBefore(m, limit, pos, n, num, p);
      if p >= limit {
        v := Stop(Missing);
      } else {
        NextOnGridReady(m, limit, pos, n, p);
        v := RunOnGrid(m, limit, pos, n, num, p, c);
      }
    }
  }

  /** Before the next free multiple there is no aligned fit. */
  lemma NoFitBefore(m: Table, limit: nat, pos: nat, n: nat, num: nat, p: nat)
    requires num > 0 && OnGrid(pos, n) && p == AlignedFree(m, limit, pos, Pow2(n)) && Bounded(m, limit)
    ensures forall w: nat :: pos <= w && OnGrid(w, n) && AllFree(m, w, num) ==> p <= w < limit
  {
    forall w: nat | pos <= w && OnGrid(w, n) && AllFree(m, w, num) ensures p <= w < limit {
      assert FreeAt(m, w);
      AlignedFreeBelow(m, limit, pos, n, w);
    }
  }

  /** The turn that finds the run of c frames at p. */
  lemma RunOnGrid(m: Table, limit: nat, pos: nat, n: nat, num: nat, p: nat, c: nat) returns (v: Move)
    requires Pow2(n) < 64 && num > 0 && limit <= 64 * |m| && Bounded(m, limit) && LOW <= pos <= p < limit && OnGrid(p, n)
    requires !Behind(m, p, Pow2(n)) && FreeAt(m, p) && c == LimitedRun(m, limit, p, num)
    requires forall w: nat :: pos <= w && OnGrid(w, n) && AllFree(m, w, num) ==> p <= w < limit
    ensures v == AfterRun(limit, p, Pow2(n), num, c)
    ensures v.Stop? ==> FirstOnGrid(m, pos, n, num, v.outcome)
    ensures v.Go? ==> Ready(m, v.pos, Pow2(n)) && Passed(m, pos, v.pos, n, num)
  {
    if c == num {
      v := Stop(Found(p));
    } else {
      NoFitInRun(m, limit, p, n, num, c);
      if p + c >= limit {
        v := Stop(Missing);
      } else {
        LimitedRunOne(m, limit, p, num, c);
        AfterOnGrid(m, p, p + c, n);
        v := Go(RoundUp(p + c + 1, Pow2(n)));
      }
    }
  }

  lemma LimitedRunOne(m: Table, limit: nat, p: nat, num: nat, c: nat)
    requires p < limit && num > 0 && FreeAt(m, p) && c == LimitedRun(m, limit, p, num)
    ensures c > 0 && AllFree(m, p, c)
  {
  }

  /** No fit starts in a run that is too short, nor before the next multiple behind it. */
  lemma NoFitInRun(m: Table, limit: nat, p: nat, n: nat, num: nat, c: nat)
    requires num > 0 && Bounded(m, limit) && c == LimitedRun(m, limit, p, num) < num
    ensures forall w: nat :: p <= w && OnGrid(w, n) && AllFree(m, w, num) ==> RoundUp(p + c + 1, Pow2(n)) <= w && p + c < limit
  {
    forall w: nat | p <= w && OnGrid(w, n) && AllFree(m, w, num)
      ensures RoundUp(p + c + 1, Pow2(n)) <= w && p + c < limit
    {
      RunBelow(m, w, num, limit);
      ShortRun(m, limit, p, num, w);
      RoundUpBelow(p + c + 1, w, n);
    }
  }

  lemma {:induction false} AlignedFrom(m: Table, limit: nat, pos: nat, n: nat, num: nat) returns (r: SearchOutcome)
    requires Pow2(n) < 64 && num > 0 && (limit + 63) / 64 <= |m| && Bounded(m, limit)
    requires LOW <= pos && OnGrid(pos, n) && Ready(m, pos, Pow2(n))
    ensures r == SearchAligned(m, limit, pos, Pow2(n), num) && FirstOnGrid(m, pos, n, num, r)
    decreases 64 * ((limit + 63) / 64) - pos
  {
    if pos / 64 >= (limit + 63) / 64 {
      r := Missing;
      forall w: nat | pos <= w ensures !AllFree(m, w, num) {
        assert !FreeAt(m, w);
      }
    } else {
      var v := GridTurn(m, limit, pos, n, num);
      SearchStep(m, limit, pos, Pow2(n), num);
      match v
      case Stop(outcome) => r := outcome;
      case Go(next) => r := AlignedFrom(m, limit, next, n, num);
    }
  }

  /** alloc_phys_frames_aligned takes the first aligned run that it looks at. */
  lemma AlignedExactly(m: Table, limit: nat, n: nat, num: nat)
    requires num > 0 && (limit + 63) / 64 <= |m| && Bounded(m, limit)
    ensures FirstOnGrid(m, LOW, n, num, SearchAligned(m, limit, AlignedStart(Pow2(n)), Pow2(n), num))
  {
    if Pow2(n) < 64 {
      GridWords(4, n);
      var r := AlignedFrom(m, limit, LOW, n, num);
    } else {
      AlignedFits(m, limit, n, num);
      forall w: nat | limit <= w ensures !AllFree(m, w, num) {
        assert !FreeAt(m, w);
      }
    }
  }
}
