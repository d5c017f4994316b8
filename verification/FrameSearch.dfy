/** kernel/mm/physical.c: the search of alloc_phys_frames as a function of the bitmap. */
module FrameSearch {
  import opened Bitmap
  import opened FrameSets

  datatype SearchOutcome = Found(pos: nat) | Missing | Overrun

  function NextFree(m: Table, pos: nat): (p: nat)
    requires pos <= 64 * |m|
    ensures pos <= p <= 64 * |m| && NoneFree(m, pos, p) && (p < 64 * |m| ==> FreeAt(m, p))
    decreases 64 * |m| - pos
  {
    if pos == 64 * |m| || FreeAt(m, pos) then pos else NextFree(m, pos + 1)
  }

  function FreeRun(m: Table, p: nat, num: nat): (c: nat)
    requires p <= 64 * |m|
    ensures c <= num && p + c <= 64 * |m| && AllFree(m, p, c) && (c < num && p + c < 64 * |m| ==> !FreeAt(m, p + c))
    decreases num
  {
    if num == 0 || p == 64 * |m| || !FreeAt(m, p) then 0 else 1 + FreeRun(m, p + 1, num - 1)
  }

  lemma FreeRunStep(m: Table, p: nat, num: nat)
    requires p < 64 * |m| && num > 0
    ensures FreeRun(m, p, num) == if FreeAt(m, p) then 1 + FreeRun(m, p + 1, num - 1) else 0
  {
  }

  datatype Move = Stop(outcome: SearchOutcome) | Go(pos: nat)

  /** From frame pos on: past a zero word by 64 frames, otherwise to the next run and past its end. */
  function ScanTurn(m: Table, pos: nat, num: nat): (v: Move)
    requires pos < 64 * |m|
    ensures v.Go? ==> v.pos > pos
  {
    if m[pos / 64] == 0 then Go(pos + 64)
    else
      var p := NextFree(m, pos);
      if p == 64 * |m| then Stop(Overrun) else EndOfRun(m, p, num, FreeRun(m, p, num))
  }

  function EndOfRun(m: Table, p: nat, num: nat, c: nat): Move {
    if c == num then Stop(Found(p)) else if p + c == 64 * |m| then Stop(Overrun) else Go(p + c + 1)
  }

  function Search(m: Table, pos: nat, end: nat, num: nat): SearchOutcome
    requires end <= |m|
    decreases 64 * end - pos
  {
    if pos / 64 >= end then Missing
    else
      match ScanTurn(m, pos, num)
      case Stop(r) => r
      case Go(next) => Search(m, next, end, num)
  }

  /** Whether a search in steps of inc frames looks at the start w: below 64 frames it can step over the starts
      right behind a word without free frames. */
  predicate Seen(m: Table, inc: nat, w: nat) {
    inc >= 64 || w / 64 <= 4 || w / 64 > |m| || m[w / 64 - 1] != 0
  }

  lemma TurnSound(m: Table, pos: nat, num: nat)
    requires pos < 64 * |m| && ScanTurn(m, pos, num).Stop? && ScanTurn(m, pos, num).outcome.Found?
    ensures pos <= ScanTurn(m, pos, num).outcome.pos && AllFree(m, ScanTurn(m, pos, num).outcome.pos, num)
  {
  }

  lemma {:induction false} SearchSound(m: Table, pos: nat, end: nat, num: nat)
    requires end <= |m| && Search(m, pos, end, num).Found?
    ensures pos <= Search(m, pos, end, num).pos && AllFree(m, Search(m, pos, end, num).pos, num)
    decreases 64 * end - pos
  {
    match ScanTurn(m, pos, num)
    case Stop(r) => TurnSound(m, pos, num);
    case Go(next) => SearchSound(m, next, end, num);
  }

  /** A turn never passes a start behind a word that is not zero, or in its own word. */
  lemma TurnSeen(m: Table, pos: nat, num: nat, w: nat)
    requires pos < 64 * |m| && num > 0 && pos <= w < 64 * |m| && AllFree(m, w, num)
    requires w / 64 == pos / 64 || m[w / 64 - 1] != 0
    ensures match ScanTurn(m, pos, num)
            case Stop(r) => r.Found? && r.pos <= w
            case Go(next) => next <= w && (w / 64 == next / 64 || m[w / 64 - 1] != 0)
  {
    assert FreeAt(m, w);
    if m[pos / 64] == 0 {
      WordFrames(m, pos / 64);
      FartherWord(pos, w);
    } else {
      var p := NextFree(m, pos);
      if FreeRun(m, p, num) < num {
        RunStops(m, p, num, w);
        StillSeen(pos, p + FreeRun(m, p, num) + 1, w);
      }
    }
  }

  lemma FartherWord(pos: nat, w: nat)
    requires pos <= w && !(64 * (pos / 64) <= w < 64 * (pos / 64) + 64)
    ensures w / 64 > pos / 64 && (w / 64 - 1 != pos / 64 ==> pos + 64 <= w)
  {
  }

  lemma StillSeen(pos: nat, next: nat, w: nat)
    requires pos <= next <= w
    ensures w / 64 == pos / 64 ==> w / 64 == next / 64
  {
  }

  /** A run that is too short ends before every later fit. */
  lemma RunStops(m: Table, p: nat, num: nat, w: nat)
    requires p <= w && num > 0 && AllFree(m, w, num) && p <= 64 * |m| && FreeRun(m, p, num) < num
    ensures p + FreeRun(m, p, num) < w && p + FreeRun(m, p, num) < 64 * |m|
  {
    assert FreeAt(m, w + num - 1);
  }

  /** A run whose start is seen is found, or an earlier one is. */
  lemma {:induction false} SearchSeen(m: Table, pos: nat, end: nat, num: nat, w: nat)
    requires end <= |m| && num > 0 && pos <= w && AllFree(m, w, num) && w / 64 < end
    requires w / 64 == pos / 64 || m[w / 64 - 1] != 0
    ensures Search(m, pos, end, num).Found? && Search(m, pos, end, num).pos <= w
    decreases 64 * end - pos
  {
    TurnSeen(m, pos, num, w);
    match ScanTurn(m, pos, num)
    case Stop(r) =>
    case Go(next) => SearchSeen(m, next, end, num, w);
  }

  /** One frame is found whenever there is one, and it is the lowest. */
  lemma {:induction false} SearchOne(m: Table, pos: nat, end: nat)
    requires end <= |m| && pos % 64 == 0
    ensures var r := Search(m, pos, end, 1); !r.Overrun? && NoneFree(m, pos, if r.Found? then r.pos else 64 * end)
    decreases 64 * end - pos
  {
    if pos / 64 < end {
      TurnOne(m, pos);
      if ScanTurn(m, pos, 1).Go? {
        SearchOne(m, pos + 64, end);
      }
    }
  }

  lemma TurnOne(m: Table, pos: nat)
    requires pos < 64 * |m| && pos % 64 == 0
    ensures match ScanTurn(m, pos, 1)
            case Stop(r) => r.Found? && NoneFree(m, pos, r.pos)
            case Go(next) => next == pos + 64 && NoneFree(m, pos, next)
  {
    WordFrames(m, pos / 64);
    if m[pos / 64] != 0 {
      var f: nat :| pos <= f < pos + 64 && FreeAt(m, f);
      assert NextFree(m, pos) <= f;
      FreeRunStep(m, NextFree(m, pos), 1);
    }
  }

  /** A request for no frames is served at the first free frame. */
  lemma {:induction false} SearchNone(m: Table, pos: nat, end: nat)
    requires end <= |m| && pos % 64 == 0
    ensures !Search(m, pos, end, 0).Overrun?
    decreases 64 * end - pos
  {
    if pos / 64 < end {
      WordFrames(m, pos / 64);
      if m[pos / 64] == 0 {
        SearchNone(m, pos + 64, end);
      } else {
        var f: nat :| pos <= f < pos + 64 && FreeAt(m, f);
        assert NextFree(m, pos) <= f;
      }
    }
  }

  /** What the search from LOW means for a table with no free frame from the limit on. */
  lemma SearchFits(m: Table, end: nat, num: nat, limit: nat)
    requires end == (limit + 63) / 64 <= |m| && forall i: nat :: limit <= i ==> !FreeAt(m, i)
    ensures var r := Search(m, LOW, end, num);
            && (r.Found? ==> LOW <= r.pos && AllFree(m, r.pos, num))
            && (num > 0 ==> forall w: nat :: LOW <= w && Seen(m, 1, w) && AllFree(m, w, num) ==> r.Found? && r.pos <= w)
            && (num == 1 ==> !r.Overrun? && NoneFree(m, LOW, if r.Found? then r.pos else limit))
  {
    var r := Search(m, LOW, end, num);
    if r.Found? { SearchSound(m, LOW, end, num); }
    if num > 0 {
      forall w: nat | LOW <= w && Seen(m, 1, w) && AllFree(m, w, num) ensures r.Found? && r.pos <= w {
        assert FreeAt(m, w);
        SearchSeen(m, LOW, end, num, w);
      }
    }
    SearchOne(m, LOW, end);
  }
}
