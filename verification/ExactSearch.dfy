/** kernel/mm/physical.c: which run alloc_phys_frames takes on any bitmap. */
module ExactSearch {
  import opened Bitmap
  import opened FrameSets
  import opened FrameSearch

  /** Word z and the zero words right before it follow a word, of frame 256 or later, whose last inc frames are free. */
  ghost predicate Crossed(m: Table, z: nat, inc: nat)
    requires inc < 64
    decreases z
  {
    4 < z <= |m| && if m[z - 1] == 0 then Crossed(m, z - 1, inc) else AllFree(m, 64 * z - inc, inc)
  }

  /** A search in steps of inc frames does not look at w: it starts a word right behind zero words, and a run ends right
      before those. */
  ghost predicate Behind(m: Table, w: nat, inc: nat) {
    inc < 64 && w % 64 == 0 && 4 < w / 64 <= |m| && m[w / 64 - 1] == 0 && Crossed(m, w / 64 - 1, inc)
  }

  /** r is the first run of num frames, from pos on, among those whose start the search looks at. */
  ghost predicate FirstLooked(m: Table, pos: nat, num: nat, r: SearchOutcome) {
    && (r.Found? ==> pos <= r.pos && AllFree(m, r.pos, num) && !Behind(m, r.pos, 1))
    && forall w: nat :: pos <= w && (r.Found? ==> w < r.pos) && AllFree(m, w, num) ==> Behind(m, w, 1)
  }

  /** The last free frame is the last of the table, or neither the last nor the last but one of its word. */
  ghost predicate Dangling(m: Table) { exists f: nat :: LastFree(m, f) && (f + 1 == 64 * |m| || f % 64 < 62) }

  ghost predicate LastFree(m: Table, f: nat) { LOW <= f && FreeAt(m, f) && NoneFree(m, f + 1, 64 * |m|) }

  /** Where a turn can start: in a zero word at its first frame, or inc frames further behind a run that ends right
      before the zero words; in any other word not at a start that is not looked at. */
  ghost predicate Ready(m: Table, pos: nat, inc: nat)
    requires inc < 64
  {
    pos < 64 * |m| ==>
      if m[pos / 64] == 0 then pos % 64 == (if Crossed(m, pos / 64, inc) then inc else 0) else !Behind(m, pos, inc)
  }

  /** A zero word is passed, and of the next word at most the first inc frames, and those behind a run. */
  lemma ZeroReady(m: Table, pos: nat, inc: nat)
    requires 0 < inc < 64 && LOW <= pos < 64 * |m| && m[pos / 64] == 0 && Ready(m, pos, inc)
    ensures Ready(m, pos + 64, inc) && NoneFree(m, pos, 64 * (pos / 64) + 64)
    ensures 64 * (pos / 64) + 64 <= pos + 64 <= 64 * (pos / 64) + 64 + inc
    ensures 64 * (pos / 64) + 64 < pos + 64 ==> Behind(m, 64 * (pos / 64) + 64, inc)
  {
    var q := pos / 64;
    WordFrames(m, q);
    assert (pos + 64) / 64 == q + 1 && (pos + 64) % 64 == pos % 64;
    assert 64 * q + 64 == 64 * (q + 1) && (64 * (q + 1)) % 64 == 0 && (64 * (q + 1)) / 64 == q + 1;
  }

  /** The next free frame is looked at. */
  lemma NextReady(m: Table, pos: nat)
    requires LOW <= pos < 64 * |m| && m[pos / 64] != 0 && !Behind(m, pos, 1) && NextFree(m, pos) < 64 * |m|
    ensures !Behind(m, NextFree(m, pos), 1)
  {
    var p := NextFree(m, pos);
    if p > pos && p % 64 == 0 && p / 64 > 4 && m[p / 64 - 1] == 0 {
      NotCrossed(m, pos, p / 64 - 1);
    }
  }

  /** No free frame lies between pos and word z, so no run ends right before the zero words up to z. */
  lemma {:induction false} NotCrossed(m: Table, pos: nat, z: nat)
    requires pos / 64 < z <= |m| && NoneFree(m, pos, 64 * z) && m[pos / 64] != 0
    ensures !Crossed(m, z, 1)
    decreases z
  {
    if 4 < z && m[z - 1] == 0 {
      NotCrossed(m, pos, z - 1);
    } else if 4 < z {
      assert !FreeAt(m, 64 * z - 1);
    }
  }

  /** Behind the end of a run the search is ready again. */
  lemma AfterReady(m: Table, p: nat, e: nat)
    requires LOW <= p < e < 64 * |m| && AllFree(m, p, e - p) && !FreeAt(m, e)
    ensures Ready(m, e + 1, 1)
  {
    assert FreeAt(m, e - 1);
    WordFrames(m, (e - 1) / 64);
    var q := (e + 1) / 64;
    if e + 1 < 64 * |m| {
      if (e + 1) % 64 == 0 {
        assert e / 64 == q - 1 && (e - 1) / 64 == q - 1;
      } else if (e + 1) % 64 == 1 {
        assert e == 64 * q && (e - 1) / 64 == q - 1;
      } else {
        assert (e - 1) / 64 == q;
      }
    }
  }

  /** What the search says from pos on, when it finds nothing: whether it has left the table. */
  ghost predicate LeftRight(m: Table, pos: nat, end: nat, r: SearchOutcome) {
    r.Overrun? <==> if NoneFree(m, pos, 64 * |m|) then pos / 64 < end <= |m| && m[pos / 64] != 0 else Dangling(m)
  }

  lemma {:induction false} SearchFrom(m: Table, pos: nat, end: nat, num: nat) returns (r: SearchOutcome)
    requires num > 0 && end <= |m| && Bounded(m, 64 * end) && LOW <= pos && Ready(m, pos, 1)
    ensures r == Search(m, pos, end, num)
    ensures FirstLooked(m, pos, num, r) && (!r.Found? ==> LeftRight(m, pos, end, r))
    decreases 64 * end - pos
  {
    if pos / 64 >= end {
      NoFit(m, pos, num);
      r := Missing;
    } else {
      var v := Turn(m, pos, end, num);
      SearchTurn(m, pos, end, num, v);
      match v
      case Stop(outcome) => r := outcome;
      case Go(next) =>
        r := SearchFrom(m, next, end, num);
        Compose(m, pos, next, end, num, r);
    }
  }

  /** Between pos and next the search passes no fit that it looks at, and keeps track of the last run. */
  ghost predicate Passes(m: Table, pos: nat, next: nat, end: nat, num: nat) {
    && pos < next
    && (forall w: nat :: pos <= w < next && AllFree(m, w, num) ==> Behind(m, w, 1))
    && (NoneFree(m, next, 64 * |m|) ==>
          (next / 64 < end <= |m| && m[next / 64] != 0 <==> !NoneFree(m, pos, 64 * |m|) && Dangling(m)))
  }

  lemma Compose(m: Table, pos: nat, next: nat, end: nat, num: nat, r: SearchOutcome)
    requires num > 0 && Passes(m, pos, next, end, num) && FirstLooked(m, next, num, r) && (!r.Found? ==> LeftRight(m, next, end, r))
    requires pos / 64 < end <= |m| && (NoneFree(m, pos, 64 * |m|) ==> m[pos / 64] == 0)
    ensures FirstLooked(m, pos, num, r) && (!r.Found? ==> LeftRight(m, pos, end, r))
  {
  }

  /** One turn of the search. */
  lemma Turn(m: Table, pos: nat, end: nat, num: nat) returns (v: Move)
    requires num > 0 && pos / 64 < end <= |m| && Bounded(m, 64 * end) && LOW <= pos && Ready(m, pos, 1)
    ensures v == ScanTurn(m, pos, num)
    ensures v.Stop? ==> FirstLooked(m, pos, num, v.outcome) && (!v.outcome.Found? ==> LeftRight(m, pos, end, v.outcome))
    ensures v.Go? ==> Ready(m, v.pos, 1) && Passes(m, pos, v.pos, end, num) && (NoneFree(m, pos, 64 * |m|) ==> m[pos / 64] == 0)
  {
    if m[pos / 64] == 0 {
      ZeroTurn(m, pos, end, num);
      v := Go(pos + 64);
    } else if NextFree(m, pos) == 64 * |m| {
      NoFit(m, pos, num);
      v := Stop(Overrun);
    } else {
      v := NextTurn(m, pos, end, num);
    }
  }

  lemma ZeroTurn(m: Table, pos: nat, end: nat, num: nat)
    requires num > 0 && pos / 64 < end <= |m| && Bounded(m, 64 * end) && LOW <= pos && Ready(m, pos, 1) && m[pos / 64] == 0
    ensures Ready(m, pos + 64, 1) && Passes(m, pos, pos + 64, end, num)
  {
    ZeroReady(m, pos, 1);
    ZeroPasses(m, pos, end, num);
  }

  /** The turn that finds another run. */
  lemma NextTurn(m: Table, pos: nat, end: nat, num: nat) returns (v: Move)
    requires num > 0 && pos / 64 < end <= |m| && Bounded(m, 64 * end) && LOW <= pos && !Behind(m, pos, 1)
    requires m[pos / 64] != 0 && NextFree(m, pos) < 64 * |m|
    ensures v == ScanTurn(m, pos, num) && !NoneFree(m, pos, 64 * |m|)
    ensures v.Stop? ==> FirstLooked(m, pos, num, v.outcome) && (!v.outcome.Found? ==> LeftRight(m, pos, end, v.outcome))
    ensures v.Go? ==> Ready(m, v.pos, 1) && Passes(m, pos, v.pos, end, num)
  {
    var p := NextFree(m, pos);
    NextReady(m, pos);
    BeforeNext(m, pos, num);
    var c := FreeRun(m, p, num);
    FreeRunStep(m, p, num);
    TurnRun(m, pos, num, p, c);
    v := RunFound(m, pos, p, c, end, num);
  }

  /** The turn that finds the run of c frames at p. */
  lemma RunFound(m: Table, pos: nat, p: nat, c: nat, end: nat, num: nat) returns (v: Move)
    requires num > 0 && pos / 64 < end <= |m| && Bounded(m, 64 * end) && LOW <= pos && m[pos / 64] != 0
    requires pos <= p < 64 * |m| && !Behind(m, p, 1) && 0 < c <= num && p + c <= 64 * |m| && AllFree(m, p, c)
    requires c < num && p + c < 64 * |m| ==> !FreeAt(m, p + c)
    requires forall w: nat :: pos <= w < p ==> !AllFree(m, w, num)
    ensures v == EndOfRun(m, p, num, c) && !NoneFree(m, pos, 64 * |m|)
    ensures v.Stop? ==> FirstLooked(m, pos, num, v.outcome) && (!v.outcome.Found? ==> LeftRight(m, pos, end, v.outcome))
    ensures v.Go? ==> Ready(m, v.pos, 1) && Passes(m, pos, v.pos, end, num)
  {
    assert FreeAt(m, p);
    if c == num {
      v := Stop(Found(p));
    } else if p + c == 64 * |m| {
      RunToEnd(m, pos, p, c, num);
      v := Stop(Overrun);
    } else {
      AfterReady(m, p, p + c);
      RunPasses(m, pos, p, p + c, end, num);
      v := Go(p + c + 1);
    }
  }

  lemma TurnRun(m: Table, pos: nat, num: nat, p: nat, c: nat)
    requires pos < 64 * |m| && m[pos / 64] != 0 && p == NextFree(m, pos) < 64 * |m| && c == FreeRun(m, p, num)
    ensures ScanTurn(m, pos, num) == EndOfRun(m, p, num, c)
  {
  }

  lemma SearchTurn(m: Table, pos: nat, end: nat, num: nat, v: Move)
    requires pos / 64 < end <= |m| && v == ScanTurn(m, pos, num)
    ensures Search(m, pos, end, num) == match v case Stop(r) => r case Go(next) => Search(m, next, end, num)
  {
  }

  lemma NoFit(m: Table, pos: nat, num: nat)
    requires num > 0 && NoneFree(m, pos, 64 * |m|)
    ensures forall w: nat :: pos <= w ==> !AllFree(m, w, num)
  {
    forall w: nat | pos <= w ensures !AllFree(m, w, num) {
      assert !FreeAt(m, w);
    }
  }

  lemma ZeroPasses(m: Table, pos: nat, end: nat, num: nat)
    requires num > 0 && LOW <= pos && pos / 64 < end <= |m| && m[pos / 64] == 0 && Bounded(m, 64 * end)
    requires NoneFree(m, pos, 64 * (pos / 64) + 64)
    requires forall w: nat :: pos <= w < pos + 64 && FreeAt(m, w) ==> Behind(m, w, 1)
    ensures Passes(m, pos, pos + 64, end, num)
  {
    var q := pos / 64 + 1;
    assert (pos + 64) / 64 == q;
    if q < |m| { WordFrames(m, q); }
    if NoneFree(m, pos + 64, 64 * |m|) && !NoneFree(m, pos, 64 * |m|) {
      OneBehind(m, pos, end);
    }
  }

  /** The last free frame is the start of the next word. */
  lemma OneBehind(m: Table, pos: nat, end: nat)
    requires LOW <= pos && pos / 64 < end <= |m| && Bounded(m, 64 * end) && NoneFree(m, pos, 64 * (pos / 64) + 64)
    requires forall w: nat :: pos <= w < pos + 64 && FreeAt(m, w) ==> Behind(m, w, 1)
    requires NoneFree(m, pos + 64, 64 * |m|) && !NoneFree(m, pos, 64 * |m|)
    ensures Dangling(m) && pos / 64 + 1 < end && m[pos / 64 + 1] != 0
  {
    var f: nat :| pos <= f < 64 * |m| && FreeAt(m, f);
    assert f < pos + 64 && Behind(m, f, 1);
    assert f == 64 * (pos / 64 + 1);
    WordFrames(m, pos / 64 + 1);
    assert LastFree(m, f);
  }

  /** Before the next free frame there is no fit. */
  lemma BeforeNext(m: Table, pos: nat, num: nat)
    requires num > 0 && pos <= 64 * |m|
    ensures forall w: nat :: pos <= w < NextFree(m, pos) ==> !AllFree(m, w, num)
  {
    forall w: nat | pos <= w < NextFree(m, pos) ensures !AllFree(m, w, num) {
      assert !FreeAt(m, w);
    }
  }

  /** A run that is too short and ends with the table. */
  lemma RunToEnd(m: Table, pos: nat, p: nat, c: nat, num: nat)
    requires num > 0 && LOW <= pos <= p < 64 * |m| && 0 < c < num && p + c == 64 * |m| && AllFree(m, p, c)
    requires forall w: nat :: pos <= w < p ==> !AllFree(m, w, num)
    ensures Dangling(m) && !NoneFree(m, pos, 64 * |m|) && forall w: nat :: pos <= w ==> !AllFree(m, w, num)
  {
    assert LastFree(m, 64 * |m| - 1);
    forall w: nat | p <= w ensures !AllFree(m, w, num) {
      assert !FreeAt(m, w + num - 1);
    }
  }

  /** A run from p that is too short and ends at e. */
  lemma RunPasses(m: Table, pos: nat, p: nat, e: nat, end: nat, num: nat)
    requires num > 0 && end <= |m| && Bounded(m, 64 * end) && LOW <= pos
    requires pos <= p < e < 64 * |m| && e < p + num && AllFree(m, p, e - p) && !FreeAt(m, e)
    requires forall w: nat :: pos <= w < p ==> !AllFree(m, w, num)
    ensures Passes(m, pos, e + 1, end, num)
  {
    forall w: nat | p <= w <= e ensures !AllFree(m, w, num) {
    }
    assert FreeAt(m, p) && FreeAt(m, e - 1);
    if NoneFree(m, e + 1, 64 * |m|) { LastRun(m, p, e, end); }
  }

  /** Behind the last run the search leaves the table unless it comes to another word at once. */
  lemma LastRun(m: Table, p: nat, e: nat, end: nat)
    requires end <= |m| && Bounded(m, 64 * end) && LOW <= p < e < 64 * |m| && FreeAt(m, e - 1) && !FreeAt(m, e)
    requires NoneFree(m, e + 1, 64 * |m|)
    ensures (e + 1) / 64 < end && m[(e + 1) / 64] != 0 <==> Dangling(m)
  {
    assert LastFree(m, e - 1);
    assert Dangling(m) <==> (e - 1) % 64 < 62;
    WordFrames(m, (e - 1) / 64);
    if (e + 1) / 64 < |m| { WordFrames(m, (e + 1) / 64); }
  }

  /** alloc_phys_frames takes the first run that it looks at; it leaves the table exactly if there is none and the last
      free frame is not right before the end of a word. */
  lemma SearchExactly(m: Table, limit: nat, num: nat)
    requires num > 0 && (limit + 63) / 64 <= |m| && Bounded(m, limit)
    ensures FirstLooked(m, LOW, num, Search(m, LOW, (limit + 63) / 64, num))
    ensures Search(m, LOW, (limit + 63) / 64, num).Overrun? <==>
              !Search(m, LOW, (limit + 63) / 64, num).Found? && Dangling(m)
  {
    var end := (limit + 63) / 64;
    var r := SearchFrom(m, LOW, end, num);
    if NoneFree(m, LOW, 64 * |m|) {
      if 4 < |m| { WordFrames(m, 4); }
      assert !Dangling(m);
    }
  }
}
