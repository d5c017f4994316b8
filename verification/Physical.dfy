/** kernel/mm/physical.c: the physical frame allocator, in place on its bitmap. */
module Physical {
  import opened Powers
  import opened Bits
  import opened Bitmap
  import opened FrameSets
  import opened ByteRanges
  import opened FrameSearch
  import opened AlignedSearch
  import opened ExactSearch
  import opened ExactAligned

  /** The pages that physical_free_range sets, where the length does not underflow. */
  lemma RangeGiven(m0: Table, m: Table, begin: nat, length: nat)
    requires begin + length < W64 && |m| == |m0|
    requires forall i: nat :: i < 64 * |m| ==>
               (BitAt(m, i) <==> BitAt(m0, i) || FreeFirst(begin, length) <= i < FreeFirst(begin, length) + FreeCount(begin, length))
    requires FreeFirst(begin, length) + FreeCount(begin, length) <= 64 * |m|
    ensures forall i: nat :: FreeAt(m, i) <==>
              FreeAt(m0, i) || FreeFirst(begin, length) <= i < FreeFirst(begin, length) + FreeCount(begin, length)
    ensures Reaches(begin, length) ==> forall i: nat :: FreeAt(m, i) <==> FreeAt(m0, i) || Inside(i, begin, length)
  {
    FreeRangeExact(begin, length);
  }

  /** The address that alloc_phys_frames returns, and whether it has left the table. */
  lemma FramesExactly(m: Table, limit: nat, num: nat, addr: nat)
    requires num > 0 && (limit + 63) / 64 <= |m| && Bounded(m, limit)
    requires var r := Search(m, LOW, (limit + 63) / 64, num);
             if r.Found? then addr != 0 && addr / PG_SIZE == r.pos else addr == 0
    ensures FirstLooked(m, LOW, num, if addr != 0 then Found(addr / PG_SIZE) else Missing)
    ensures Search(m, LOW, (limit + 63) / 64, num).Overrun? <==> addr == 0 && Dangling(m)
  {
    SearchExactly(m, limit, num);
  }

  class PhysicalMemory {
    const table: array<Word64>      // mm_table
    var limit: nat                  // mm_limit, in frames
    var entryEnd: nat               // words of the table below the limit
    ghost var owned: set<nat>       // frames handed out and not yet returned

    /** No frame at or above the limit is ever free, and no frame handed out is. */
    ghost predicate Valid()
      reads this, table
    {
      && entryEnd == (limit + 63) / 64 && entryEnd <= table.Length
      && 64 * table.Length * PG_SIZE <= W64
      && (forall i: nat :: limit <= i ==> !FreeAt(table[..], i))
      && (forall i: nat :: i in owned ==> i < limit && !FreeAt(table[..], i))
    }

    ghost function FreeFrames(): set<nat>
      reads this, table
    {
      Frames(table[..])
    }

    /** The zero-initialized statics. */
    constructor (words: nat)
      requires 64 * words * PG_SIZE <= W64
      ensures Valid() && fresh(table) && table.Length == words && limit == 0 && owned == {} && FreeFrames() == {}
    {
      table := new Word64[words](i => 0);
      limit, entryEnd := 0, 0;
      owned := {};
      new;
      forall i: nat ensures !FreeAt(table[..], i) {
        if i < 64 * words { ZeroBit(i % 64); }
      }
      forall i: nat ensures i !in FreeFrames() {
        assert !FreeAt(table[..], i);
      }
    }

    /** physical_free_range: at boot, before the limit is known, and later for ranges that were taken at boot.  Those
        lie below the limit and hold no frame that is handed out, and then the allocator's invariant is kept.  Where
        the length underflows, over says that the run of pages leaves the table; nothing is claimed then. */
    method FreeRange(begin: nat, length: nat) returns (over: bool)
      requires begin + length <= 64 * table.Length * PG_SIZE && begin + length < W64
      modifies table
      ensures over <==> FreeFirst(begin, length) + FreeCount(begin, length) > 64 * table.Length
      ensures !over ==>
                forall i: nat :: FreeAt(table[..], i) <==>
                  FreeAt(old(table[..]), i) || FreeFirst(begin, length) <= i < FreeFirst(begin, length) + FreeCount(begin, length)
      ensures Reaches(begin, length) ==>
                !over && forall i: nat :: FreeAt(table[..], i) <==> FreeAt(old(table[..]), i) || Inside(i, begin, length)
      ensures old(Valid()) && Reaches(begin, length) && begin + length <= limit * PG_SIZE
              && (forall i: nat :: i in owned ==> !Inside(i, begin, length)) ==>
                Valid()
    {
      ghost var m0 := table[..];
      FreeRangeExact(begin, length);
      if Reaches(begin, length) { FreeRangeFits(begin, length, 64 * table.Length); }
      over := FreeFirst(begin, length) + FreeCount(begin, length) > 64 * table.Length;
      if !over {
        SetRange(table, FreeFirst(begin, length), FreeCount(begin, length));
        RangeGiven(m0, table[..], begin, length);
      }
    }

    /** physical_set_limit.  The invariant holds from then on exactly if the limit covers every free frame and every
        frame handed out, as when kernel_main takes it from the memory map that it frees, and lies inside the table. */
    method SetLimit(bytes: nat)
      requires 64 * table.Length * PG_SIZE <= W64
      modifies this`limit, this`entryEnd
      ensures limit == bytes / PG_SIZE && entryEnd == (limit + 63) / 64
      ensures Valid() <==>
                && entryEnd <= table.Length
                && (forall i: nat :: FreeAt(table[..], i) ==> PG_SIZE * (i + 1) <= bytes)
                && (forall i: nat :: i in owned ==> PG_SIZE * (i + 1) <= bytes && !FreeAt(table[..], i))
    {
      limit := bytes / PG_SIZE;
      entryEnd := limit / 64;
      if limit % 64 > 0 {
        entryEnd := entryEnd + 1;
      }
    }

    /** physical_take_range. */
    method TakeRange(begin: nat, length: nat)
      requires Valid() && begin + length <= 64 * table.Length * PG_SIZE && begin + length < W64
      modifies table
      ensures Valid()
      ensures forall i: nat :: FreeAt(table[..], i) <==>
                FreeAt(old(table[..]), i) && !(begin / PG_SIZE <= i < begin / PG_SIZE + TakeCount(begin, length))
      ensures TakesTouched(begin, length) ==>
                forall i: nat :: FreeAt(table[..], i) <==> FreeAt(old(table[..]), i) && !Touches(i, begin, length)
    {
      ghost var m0 := table[..];
      TakeRangeExact(begin, length);
      TakeRangeFits(begin, length, 64 * table.Length);
      ClearRange(table, begin / PG_SIZE, TakeCount(begin, length));
      TookFrames(m0, table[..], begin / PG_SIZE, TakeCount(begin, length));
      if TakesTouched(begin, length) {
        forall i: nat ensures FreeAt(table[..], i) <==> FreeAt(m0, i) && !Touches(i, begin, length) {
          assert begin / PG_SIZE <= i < begin / PG_SIZE + TakeCount(begin, length) <==> Touches(i, begin, length);
        }
      }
    }

    /** Take the lowest free frame of a word of the table. */
    method TakeLowest(i: nat) returns (addr: nat)
      requires Valid() && i < table.Length && table[i] != 0
      modifies table, this`owned
      ensures Valid()
      ensures var f := addr / PG_SIZE;
              && addr == f * PG_SIZE && 64 * i <= f < 64 * i + 64 && f < limit
              && FreeAt(old(table[..]), f) && NoneFree(old(table[..]), 64 * i, f)
              && f !in old(owned) && owned == old(owned) + {f} && FreeFrames() == old(FreeFrames()) - {f}
    {
      ghost var m0 := table[..];
      var pos := LowestBit(table[i]);
      FirstInWord(m0, i);
      ghost var f := 64 * i + pos;
      assert f / 64 == i && f % 64 == pos;
      ClearOne(table, 64 * i + pos);
      owned := owned + {f};
      TookFrames(m0, table[..], f, 1);
      addr := (64 * i + pos) * PG_SIZE;
    }

    /** alloc_phys_frame: the lowest free frame from 1 MB up. */
    method AllocFrame() returns (addr: nat)
      requires Valid()
      modifies table, this`owned
      ensures Valid()
      ensures addr == 0 ==> NoneFree(old(table[..]), LOW, limit) && table[..] == old(table[..]) && owned == old(owned)
      ensures addr != 0 ==>
                var f := addr / PG_SIZE;
                && addr == f * PG_SIZE && LOW <= f < limit
                && FreeAt(old(table[..]), f) && NoneFree(old(table[..]), LOW, f)
                && f !in old(owned) && owned == old(owned) + {f} && FreeFrames() == old(FreeFrames()) - {f}
    {
      ghost var m0 := table[..];
      addr := 0;
      var i := 4;
      while i < entryEnd
        invariant 4 <= i && NoneFree(m0, LOW, 64 * i) && table[..] == m0 && owned == old(owned)
      {
        if table[i] != 0 {
          addr := TakeLowest(i);
          return;
        }
        WordFrames(m0, i);
        i := i + 1;
      }
    }

    /** alloc_phys_frame_lowmem: the lowest free frame below 1 MB.  If frame 0 is free, that is the one taken, and the
        result cannot be told from a failure. */
    method AllocFrameLowmem() returns (addr: nat)
      requires Valid() && 4 <= table.Length
      modifies table, this`owned
      ensures Valid()
      ensures NoneFree(old(table[..]), 0, LOW) ==> addr == 0 && table[..] == old(table[..]) && owned == old(owned)
      ensures !NoneFree(old(table[..]), 0, LOW) ==>
                var f := addr / PG_SIZE;
                && addr == f * PG_SIZE && f < LOW && f < limit
                && FreeAt(old(table[..]), f) && NoneFree(old(table[..]), 0, f)
                && f !in old(owned) && owned == old(owned) + {f} && FreeFrames() == old(FreeFrames()) - {f}
    {
      ghost var m0 := table[..];
      addr := 0;
      var i := 0;
      while i < 4
        invariant 0 <= i <= 4 && NoneFree(m0, 0, 64 * i) && table[..] == m0 && owned == old(owned)
      {
        if table[i] != 0 {
          addr := TakeLowest(i);
          return;
        }
        WordFrames(m0, i);
        i := i + 1;
      }
    }

    /** free_phys_frame of a frame that was handed out. */
    method FreeFrame(addr: nat)
      requires Valid() && addr / PG_SIZE in owned
      modifies table, this`owned
      ensures Valid() && owned == old(owned) - {addr / PG_SIZE}
      ensures FreeFrames() == old(FreeFrames()) + {addr / PG_SIZE}
    {
      ghost var m0, f := table[..], addr / PG_SIZE;
      SetOne(table, addr / PG_SIZE);
      owned := owned - {f};
      GaveFrames(m0, table[..], f, 1);
    }

    /** free_phys_frames of frames that were handed out. */
    method FreeFrameRun(addr: nat, num: nat)
      requires Valid() && Interval(addr / PG_SIZE, num) <= owned && addr / PG_SIZE + num <= limit
      modifies table, this`owned
      ensures Valid() && owned == old(owned) - Interval(addr / PG_SIZE, num)
      ensures FreeFrames() == old(FreeFrames()) + Interval(addr / PG_SIZE, num)
    {
      ghost var m0, f := table[..], addr / PG_SIZE;
      SetRange(table, addr / PG_SIZE, num);
      owned := owned - Interval(f, num);
      GaveFrames(m0, table[..], f, num);
    }

    /** The inner loop of alloc_phys_frames_aligned: how many of the num frames from pos on are free. */
    method CountRun(pos: nat, num: nat) returns (count: nat)
      requires Valid()
      ensures count == LimitedRun(table[..], limit, pos, num)
    {
      ghost var m, total := table[..], LimitedRun(table[..], limit, pos, num);
      var cur := pos;
      count := 0;
      while count < num && cur < limit
        invariant count <= num && cur == pos + count
        invariant total == count + LimitedRun(m, limit, cur, num - count)
      {
        var free := CheckBit(table, cur);
        LimitedRunStep(m, limit, cur, num - count);
        if !free {
          return;
        }
        cur, count := cur + 1, count + 1;
      }
    }

    /** The other inner loop: the first aligned frame at or after pos that is free or not below the limit. */
    method SkipTaken(pos: nat, inc: nat) returns (p: nat)
      requires Valid() && inc > 0
      ensures p == AlignedFree(table[..], limit, pos, inc)
    {
      p := pos;
      while p < limit
        invariant AlignedFree(table[..], limit, p, inc) == AlignedFree(table[..], limit, pos, inc)
        decreases limit - p
      {
        var free := CheckBit(table, p);
        if free {
          return;
        }
        p := p + inc;
      }
    }

    /** One turn of the search at a word that is not zero. */
    method SearchTurn(pos: nat, inc: nat, num: nat) returns (v: Move)
      requires Valid() && inc > 0 && pos / 64 < entryEnd && table[pos / 64] != 0
      ensures v == AlignedTurn(table[..], limit, pos, inc, num)
    {
      var p := SkipTaken(pos, inc);
      var count := CountRun(p, num);
      var cur := p + count;
      if count == num {
        return Stop(Found(p));
      }
      if cur >= limit {
        return Stop(Missing);
      }
      var next := cur + 1;
      var remain := next % inc;
      if remain != 0 {
        next := next + inc - remain;
      }
      v := Go(next);
    }

    /** The search of alloc_phys_frames_aligned, for an alignment of 2^n frames. */
    method FindAligned(num: nat, align: nat, ghost n: nat) returns (r: SearchOutcome)
      requires Valid() && align == PG_SIZE * Pow2(n)
      ensures r == SearchAligned(table[..], limit, AlignedStart(Pow2(n)), Pow2(n), num)
    {
      var posInc := align / PG_SIZE;
      PageQuotient(align, Pow2(n), 0);
      GridWord(n);
      r := FindInSteps(num, posInc);
    }

    /** The loop's body: next is the word of the frame to go on at. */
    method OneTurn(i: nat, pos: nat, posInc: nat, iInc: nat, num: nat) returns (v: Move, next: nat)
      requires Valid() && i == pos / 64 < entryEnd && posInc > 0 && iInc == posInc / 64 && (posInc < 64 || posInc == 64 * iInc)
      ensures v == AlignedTurn(table[..], limit, pos, posInc, num) && (v.Go? ==> next == v.pos / 64)
    {
      if table[i] != 0 {
        v := SearchTurn(pos, posInc, num);
        next := if v.Go? then v.pos / 64 else i;
      } else {
        TurnZero(table[..], limit, pos, posInc, num);
        if iInc > 0 {
          WordsOn(pos, iInc);
          v, next := Go(pos + posInc), i + iInc;
        } else {
          v, next := Go(pos + 64), i + 1;
        }
      }
    }

    method FindInSteps(num: nat, posInc: nat) returns (r: SearchOutcome)
      requires Valid() && posInc > 0 && (posInc < 64 || posInc == 64 * (posInc / 64))
      ensures r == SearchAligned(table[..], limit, AlignedStart(posInc), posInc, num)
    {
      var iInc := posInc / 64;
      var i := if iInc <= 4 then 4 else iInc;
      var pos := 64 * i;
      ghost var m := table[..];
      ghost var goal := SearchAligned(m, limit, pos, posInc, num);
      while i < entryEnd
        invariant i == pos / 64 && SearchAligned(m, limit, pos, posInc, num) == goal
        decreases 64 * entryEnd - pos
      {
        var v, next := OneTurn(i, pos, posInc, iInc, num);
        SearchStep(m, limit, pos, posInc, num);
        if v.Stop? {
          return v.outcome;
        }
        i, pos := next, v.pos;
      }
      r := Missing;
    }

    /** alloc_phys_frames_aligned: first fit among the aligned starts it sees, which are all of them from an
        alignment of 64 frames up. */
    method AllocFramesAligned(num: nat, align: nat, ghost n: nat) returns (addr: nat)
      requires Valid() && align == PG_SIZE * Pow2(n)
      modifies table, this`owned
      ensures Valid()
      ensures var r := SearchAligned(old(table[..]), limit, AlignedStart(Pow2(n)), Pow2(n), num);
              (addr != 0 <==> r.Found?) && (r.Found? ==> addr == r.pos * PG_SIZE)
      ensures addr == 0 ==> table[..] == old(table[..]) && owned == old(owned)
      ensures addr != 0 ==>
                var f := addr / PG_SIZE;
                && addr == f * PG_SIZE && OnGrid(f, n) && LOW <= f
                && AllFree(old(table[..]), f, num) && (num > 0 ==> f + num <= limit)
                && Interval(f, num) !! old(owned) && owned == old(owned) + Interval(f, num)
                && FreeFrames() == old(FreeFrames()) - Interval(f, num)
      ensures num > 0 ==> NoFitBelow(old(table[..]), num, n, if addr != 0 then addr / PG_SIZE else limit)
      ensures num > 0 ==> FirstOnGrid(old(table[..]), LOW, n, num, if addr != 0 then Found(addr / PG_SIZE) else Missing)
    {
      ghost var m0 := table[..];
      var r := FindAligned(num, align, n);
      AlignedFits(m0, limit, n, num);
      if num > 0 { AlignedExactly(m0, limit, n, num); }
      addr := 0;
      if r.Found? {
        addr := Claim(r.pos, num);
        PageQuotient(addr, r.pos, 0);
      }
    }

    /** alloc_phys_frames.  Its scans carry no bound; overrun says that they left the table, and then nothing is
        claimed about the C function.  It takes the first run of those whose start it looks at; one frame it finds first. */
    method AllocFrames(num: nat) returns (addr: nat, overrun: bool)
      requires Valid()
      modifies table, this`owned
      ensures Valid()
      ensures var r := Search(old(table[..]), LOW, entryEnd, num);
              (addr != 0 <==> r.Found?) && (overrun <==> r.Overrun?) && (r.Found? ==> addr == r.pos * PG_SIZE)
      ensures addr == 0 ==> table[..] == old(table[..]) && owned == old(owned)
      ensures addr != 0 ==>
                var f := addr / PG_SIZE;
                && addr == f * PG_SIZE && LOW <= f && AllFree(old(table[..]), f, num) && (num > 0 ==> f + num <= limit)
                && Interval(f, num) !! old(owned) && owned == old(owned) + Interval(f, num)
                && FreeFrames() == old(FreeFrames()) - Interval(f, num)
      ensures num > 0 ==> forall w: nat :: LOW <= w && Seen(old(table[..]), 1, w) && AllFree(old(table[..]), w, num) ==>
                            addr != 0 && addr / PG_SIZE <= w
      ensures num == 1 ==> !overrun && NoneFree(old(table[..]), LOW, if addr != 0 then addr / PG_SIZE else limit)
      ensures num > 0 ==> FirstLooked(old(table[..]), LOW, num, if addr != 0 then Found(addr / PG_SIZE) else Missing)
      ensures num > 0 ==> (overrun <==> addr == 0 && Dangling(old(table[..])))
    {
      ghost var m0 := table[..];
      var r := FindFrames(num);
      addr, overrun := 0, r.Overrun?;
      SearchFits(m0, entryEnd, num, limit);
      if r.Found? {
        if num > 0 { RunBelow(m0, r.pos, num, limit); }
        addr := Claim(r.pos, num);
        PageQuotient(addr, r.pos, 0);
      }
      if num > 0 { FramesExactly(m0, limit, num, addr); }
    }

    /** The search of alloc_phys_frames. */
    method FindFrames(num: nat) returns (r: SearchOutcome)
      requires Valid()
      ensures r == Search(table[..], LOW, entryEnd, num)
    {
      var i, pos := 4, 256;
      while i < entryEnd
        invariant i == pos / 64 && Search(table[..], pos, entryEnd, num) == Search(table[..], LOW, entryEnd, num)
        decreases 64 * entryEnd - pos
      {
        if table[i] != 0 {
          var v := RunTurn(pos, num);
          if v.Stop? {
            return v.outcome;
          }
          pos := v.pos;
          i := pos / 64;
        } else {
          i, pos := i + 1, pos + 64;
        }
      }
      r := Missing;
    }

    /** One turn at a word that is not zero. */
    method RunTurn(pos: nat, num: nat) returns (v: Move)
      requires pos < 64 * table.Length && table[pos / 64] != 0
      ensures v == ScanTurn(table[..], pos, num)
    {
      var p := FirstFree(pos);
      if p == 64 * table.Length {
        return Stop(Overrun);
      }
      var count := CountFree(p, num);
      if count == num {
        return Stop(Found(p));
      }
      var cur := p + count;
      if cur == 64 * table.Length {
        return Stop(Overrun);
      }
      v := Go(cur + 1);
    }

    /** The unbounded scan for a free frame; 64 * table.Length stands for leaving the table. */
    method FirstFree(from: nat) returns (pos: nat)
      requires from <= 64 * table.Length
      ensures pos == NextFree(table[..], from)
    {
      pos := from;
      while pos < 64 * table.Length
        invariant from <= pos <= 64 * table.Length && NextFree(table[..], pos) == NextFree(table[..], from)
      {
        var free := CheckBit(table, pos);
        if free {
          return;
        }
        pos := pos + 1;
      }
    }

    /** The unbounded scan over free frames, num at most. */
    method CountFree(pos: nat, num: nat) returns (count: nat)
      requires pos <= 64 * table.Length
      ensures count == FreeRun(table[..], pos, num)
    {
      ghost var m, total := table[..], FreeRun(table[..], pos, num);
      var cur := pos;
      count := 0;
      while count < num && cur < 64 * table.Length
        invariant count <= num && cur == pos + count <= 64 * table.Length
        invariant total == count + FreeRun(m, cur, num - count)
      {
        var free := CheckBit(table, cur);
        FreeRunStep(m, cur, num - count);
        if !free {
          return;
        }
        cur, count := cur + 1, count + 1;
      }
    }

    /** Take a free run and hand it out. */
    method Claim(pos: nat, num: nat) returns (addr: nat)
      requires Valid() && AllFree(table[..], pos, num) && (num > 0 ==> pos + num <= limit)
      modifies table, this`owned
      ensures Valid() && addr == pos * PG_SIZE
      ensures Interval(pos, num) !! old(owned) && owned == old(owned) + Interval(pos, num)
      ensures FreeFrames() == old(FreeFrames()) - Interval(pos, num)
    {
      ghost var m0 := table[..];
      ClearRange(table, pos, num);
      TookFrames(m0, table[..], pos, num);
      TookOwned(m0, owned, pos, num);
      owned := owned + Interval(pos, num);
      forall i: nat | i in Interval(pos, num) ensures i < limit && !FreeAt(table[..], i) {
        assert Within(i, pos, num);
      }
      addr := pos * PG_SIZE;
    }

    /** physical_next_free_range: the maximal run of free frames at or after the page of current.  start0 is what
        *start holds before the call; it stays when the search starts past the last word.  A search that finds nothing
        reads word entryEnd; overrun says that this is past the table, and then nothing is claimed about the C function. */
    method NextFreeRange(current: nat, start0: nat) returns (start: nat, size: nat, overrun: bool)
      requires Valid()
      ensures overrun <==> entryEnd == table.Length && current / PG_SIZE / 64 < entryEnd && NoneFree(table[..], current / PG_SIZE, limit)
      ensures current / PG_SIZE / 64 >= entryEnd || overrun ==> start == start0 && size == 0
      ensures size == 0 ==> NoneFree(table[..], current / PG_SIZE, limit)
      ensures size == 0 && current / PG_SIZE / 64 < entryEnd && !overrun ==> start == 64 * (entryEnd + 1) * PG_SIZE
      ensures size > 0 ==> FirstRun(table[..], current / PG_SIZE, start / PG_SIZE, size / PG_SIZE)
      ensures size > 0 ==> start % PG_SIZE == 0 && size % PG_SIZE == 0 && start / PG_SIZE + size / PG_SIZE <= limit
    {
      var b := current / PG_SIZE;
      if b / 64 >= entryEnd {
        return start0, 0, false;
      }
      var s, count, over := NextRun(b);
      if over {
        return start0, 0, true;
      }
      start, size, overrun := s * PG_SIZE, count * PG_SIZE, false;
    }

    /** The search of physical_next_free_range, in frames. */
    method NextRun(b: nat) returns (s: nat, count: nat, overrun: bool)
      requires Valid() && b / 64 < entryEnd
      ensures overrun <==> entryEnd == table.Length && NoneFree(table[..], b, limit)
      ensures count == 0 && !overrun ==> NoneFree(table[..], b, limit) && s == 64 * (entryEnd + 1)
      ensures count > 0 ==> !overrun && FirstRun(table[..], b, s, count) && s + count <= limit
    {
      var end := (b + 63) / 64 * 64;
      var over;
      s, count, over := ScanWord(b, b, end);
      overrun := false;
      if count > 0 { RunTaken(table[..], b, s, limit); }
      if over {
        RunBelow(table[..], s, count, limit);
      } else if count > 0 {
        s, count := ExtendRun(b, end / 64, count);
        RunBelow(table[..], s, count, limit);
      } else {
        s, count, overrun := NextWords(b, end / 64);
      }
    }

    /** The search behind the first word, which has no free frame from b on. */
    method NextWords(b: nat, i0: nat) returns (s: nat, count: nat, overrun: bool)
      requires Valid() && b <= 64 * i0 && i0 <= entryEnd && NoneFree(table[..], b, 64 * i0)
      ensures overrun <==> entryEnd == table.Length && NoneFree(table[..], b, limit)
      ensures count == 0 && !overrun ==> NoneFree(table[..], b, limit) && s == 64 * (entryEnd + 1)
      ensures count > 0 ==> !overrun && FirstRun(table[..], b, s, count) && s + count <= limit
    {
      var i := SkipZeroWords(b, i0);
      s, count, overrun := 0, 0, i == table.Length;
      if overrun {
        return;
      }
      var over;
      s, count, over := ScanWord(b, 64 * i, 64 * i + 64);
      if count > 0 { RunTaken(table[..], b, s, limit); }
      if over {
        RunBelow(table[..], s, count, limit);
      } else {
        if count == 0 && i < entryEnd { WordFrames(table[..], i); }
        s, count := ExtendRun(b, i + 1, count);
        if count > 0 { RunBelow(table[..], s, count, limit); }
      }
    }

    /** The bit loops: the first run of free frames in [from, end); over says that it ended before end. */
    method ScanWord(ghost b: nat, from: nat, end: nat) returns (s: nat, count: nat, over: bool)
      requires Valid() && b <= from <= end <= 64 * table.Length && NoneFree(table[..], b, from)
      ensures AllFree(table[..], s, count) && b <= s && NoneFree(table[..], b, s)
      ensures over ==> count > 0 && !FreeAt(table[..], s + count)
      ensures !over ==> s + count == end
    {
      var bit := from;
      count := 0;
      while bit < end
        invariant from <= bit <= end && count <= bit - from
        invariant AllFree(table[..], bit - count, count) && NoneFree(table[..], b, bit - count)
      {
        var free := CheckBit(table, bit);
        if free {
          count := count + 1;
        } else if count > 0 {
          return bit - count, count, true;
        }
        bit := bit + 1;
      }
      s, over := end - count, false;
    }

    /** The word loop over zero words. */
    method SkipZeroWords(ghost b: nat, i0: nat) returns (i: nat)
      requires Valid() && b <= 64 * i0 && i0 <= entryEnd && NoneFree(table[..], b, 64 * i0)
      ensures i0 <= i <= entryEnd && NoneFree(table[..], b, 64 * i)
      ensures i < entryEnd ==> table[i] != 0
    {
      i := i0;
      while i < entryEnd
        invariant i0 <= i <= entryEnd && NoneFree(table[..], b, 64 * i)
      {
        if table[i] != 0 {
          break;
        }
        WordFrames(table[..], i);
        i := i + 1;
      }
    }

    /** The word loop over full words, and the trailing ones of the word after them. */
    method ExtendRun(ghost b: nat, i0: nat, count0: nat) returns (s: nat, count: nat)
      requires Valid() && count0 <= 64 * i0 && b <= 64 * i0 - count0 && i0 <= entryEnd + 1
      requires AllFree(table[..], 64 * i0 - count0, count0) && NoneFree(table[..], b, 64 * i0 - count0)
      requires count0 == 0 ==> i0 == entryEnd + 1
      ensures s == 64 * i0 - count0 && AllFree(table[..], s, count) && !FreeAt(table[..], s + count)
      ensures count == 0 <==> count0 == 0
    {
      var i := i0;
      count := count0;
      s := 64 * i0 - count0;
      while i < entryEnd
        invariant i0 <= i && (i <= entryEnd || i == i0) && count >= count0 && s == 64 * i - count
        invariant AllFree(table[..], s, count)
      {
        if table[i] == ONES {
          WordFrames(table[..], i);
          count := count + 64;
        } else {
          RunInWord(table[..], i);
          ghost var c := Ctz(Not(table[i]));
          forall f: nat | s <= f < s + (count + c) ensures FreeAt(table[..], f) {
            if f < 64 * i { assert s <= f < s + count; }
          }
          count := count + Ctz(Not(table[i]));
          return;
        }
        i := i + 1;
      }
      assert !FreeAt(table[..], 64 * i);
    }
  }
}
