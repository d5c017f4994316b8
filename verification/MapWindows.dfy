/** arch/x86_64/mm/vm.c: the slots for dynamic kernel mappings.  vm_map_pages and vm_unmap_pages work on the 512
    entries of one page table, the large-page pair on the PDT entries 6 to 15; the code is the same otherwise. */
module MapWindows {
  import opened Powers
  import opened Bits
  import opened Options
  import opened PageTables
  import opened Paging

  // ----- the search -----

  /** The first taken slot in [j, end), or end. */
  function RunEnd(free: seq<bool>, j: nat, end: nat): (r: nat)
    requires j <= end <= |free|
    ensures j <= r <= end && (forall x :: j <= x < r ==> free[x]) && (r < end ==> !free[r])
    decreases end - j
  {
    if j == end || !free[j] then j else RunEnd(free, j + 1, end)
  }

  /** The search of vm_map_pages from slot i: after a run that is too short, i = j + 1 and then i++. */
  function Find(free: seq<bool>, i: nat, num: nat): Option<nat>
    requires num > 0
    decreases |free| + 2 - i
  {
    if i + num > |free| then None
    else if !free[i] then Find(free, i + 1, num)
    else
      var j := RunEnd(free, i + 1, i + num);
      if j == i + num then Some(i) else Find(free, j + 2, num)
  }

  predicate Window(free: seq<bool>, i: nat, num: nat) {
    i + num <= |free| && forall x :: i <= x < i + num ==> free[x]
  }

  /** What it finds is a window of free slots. */
  lemma {:induction false} FindSound(free: seq<bool>, i: nat, num: nat)
    requires num > 0 && Find(free, i, num).Some?
    ensures i <= Find(free, i, num).value && Window(free, Find(free, i, num).value, num)
    decreases |free| + 2 - i
  {
    if !free[i] {
      FindSound(free, i + 1, num);
    } else {
      var j := RunEnd(free, i + 1, i + num);
      if j < i + num {
        FindSound(free, j + 2, num);
      }
    }
  }

  /** The search from lo never looks at slot w: it lies right behind a run that was looked at and turned out too short. */
  predicate Skipped(free: seq<bool>, lo: nat, w: nat)
    decreases w
  {
    lo + 2 <= w <= |free| && !free[w - 1] && free[w - 2] && !Skipped(free, lo, w - 2)
  }

  /** r is the first window among the slots from i on that the search from lo looks at. */
  ghost predicate FirstFit(free: seq<bool>, lo: nat, i: nat, num: nat, r: Option<nat>) {
    && (r.Some? ==> i <= r.value && Window(free, r.value, num) && !Skipped(free, lo, r.value))
    && forall w: nat :: i <= w && (r.Some? ==> w < r.value) && Window(free, w, num) ==> Skipped(free, lo, w)
  }

  /** Past a run that is too short there is at most the window right behind it. */
  lemma PassedRun(free: seq<bool>, lo: nat, i: nat, j: nat, num: nat, r: Option<nat>)
    requires i <= j < |free| && !free[j] && j < i + num && Skipped(free, lo, j + 1) && FirstFit(free, lo, j + 2, num, r)
    ensures FirstFit(free, lo, i, num, r)
  {
    forall w: nat | i <= w < j + 2 && Window(free, w, num) ensures w == j + 1 {
    }
  }

  /** The search finds the first window that it looks at, and nothing exactly when it looks at none. */
  lemma {:induction false} FindExactly(free: seq<bool>, lo: nat, i: nat, num: nat)
    requires num > 0 && lo <= i && !Skipped(free, lo, i)
    requires lo < i <= |free| && free[i - 1] ==> Skipped(free, lo, i - 1)
    ensures FirstFit(free, lo, i, num, Find(free, i, num))
    decreases |free| + 2 - i
  {
    if i + num <= |free| {
      if !free[i] {
        FindExactly(free, lo, i + 1, num);
      } else {
        var j := RunEnd(free, i + 1, i + num);
        if j < i + num {
          assert Skipped(free, lo, j + 1);
          FindExactly(free, lo, j + 2, num);
          PassedRun(free, lo, i, j, num, Find(free, j + 2, num));
        }
      }
    }
  }

  /** Slots that are not right behind the end of a run are looked at. */
  lemma FindFirst(free: seq<bool>, lo: nat, num: nat, w: nat)
    requires num > 0 && lo <= w && Window(free, w, num) && (w <= lo + 1 || free[w - 1] || !free[w - 2])
    ensures Find(free, lo, num).Some? && Find(free, lo, num).value <= w
  {
    FindExactly(free, lo, lo, num);
  }

  /** The search over n slots finds a window whenever there is one. */
  ghost predicate Complete(n: nat, lo: nat, num: nat)
    requires num > 0
  {
    forall free: seq<bool>, w: nat :: |free| == lo + n && lo <= w && Window(free, w, num) ==> Find(free, lo, num).Some?
  }

  lemma {:induction false} FindOne(free: seq<bool>, i: nat, w: nat)
    requires i <= w && Window(free, w, 1)
    ensures Find(free, i, 1).Some?
    decreases w - i
  {
    if !free[i] {
      FindOne(free, i + 1, w);
    }
  }

  /** The candidate after a failed run is skipped: the search is complete exactly for single slots and for
      windows of all slots or all but one. */
  lemma CompleteExactly(n: nat, lo: nat, num: nat)
    requires 1 <= num <= n
    ensures Complete(n, lo, num) <==> num == 1 || num >= n - 1
  {
    if num == 1 {
      forall free: seq<bool>, w: nat | |free| == lo + n && lo <= w && Window(free, w, num) ensures Find(free, lo, num).Some? {
        FindOne(free, lo, w);
      }
    } else if num >= n - 1 {
      forall free: seq<bool>, w: nat | |free| == lo + n && lo <= w && Window(free, w, num) ensures Find(free, lo, num).Some? {
        FindLarge(free, lo, n, num, w);
      }
    } else {
      var free := Missed(n, lo, num);
      assert Window(free, lo + 2, num);
      FindMissed(n, lo, num);
    }
  }

  lemma FindLarge(free: seq<bool>, lo: nat, n: nat, num: nat, w: nat)
    requires |free| == lo + n && 1 < num <= n && num >= n - 1 && lo <= w && Window(free, w, num)
    ensures Find(free, lo, num).Some?
  {
    if free[lo] {
      var j := RunEnd(free, lo + 1, lo + num);
    } else {
      assert w == lo + 1;
      assert RunEnd(free, lo + 2, lo + 1 + num) == lo + 1 + num;
    }
  }

  /** Slot lo + 1 is taken and so is everything behind the only window, which starts at lo + 2. */
  function Missed(n: nat, lo: nat, num: nat): seq<bool> {
    seq(lo + n, i => i != lo + 1 && i < lo + 2 + num)
  }

  lemma FindMissed(n: nat, lo: nat, num: nat)
    requires 1 < num < n - 1
    ensures Find(Missed(n, lo, num), lo, num).None?
  {
    var free := Missed(n, lo, num);
    assert RunEnd(free, lo + 1, lo + num) == lo + 1;
    assert Find(free, lo, num) == Find(free, lo + 3, num);
    if Find(free, lo + 3, num).Some? {
      FindSound(free, lo + 3, num);
      MissedNoWindow(n, lo, num, Find(free, lo + 3, num).value);
    }
  }

  lemma MissedNoWindow(n: nat, lo: nat, num: nat, i: nat)
    requires 1 < num < n - 1 && lo + 3 <= i
    ensures !Window(Missed(n, lo, num), i, num)
  {
    if i + num <= lo + n {
      assert !Missed(n, lo, num)[i + num - 1];
    }
  }

  // ----- the slots -----

  /** Which entries are not present. */
  function FreeSlots(t: seq<Word64>): seq<bool> { seq(|t|, i requires 0 <= i < |t| => !Present(t[i])) }

  /** The k-th entry of a mapping of consecutive frames. */
  function EntryFor(frame: nat, k: nat, size: nat, flags: Word64): Word64 {
    if frame + Times(k, size) < W64 then Or64(frame + Times(k, size), flags) else 0
  }

  /** No slot of the window is present. */
  predicate Absent(t: seq<Word64>, start: nat, num: nat) {
    start + num <= |t| && forall i :: start <= i < start + num ==> !Present(t[i])
  }

  /** t is t0 with the window mapped to consecutive frames. */
  ghost predicate Filled(t0: seq<Word64>, t: seq<Word64>, start: nat, num: nat, frame: nat, size: nat, flags: Word64) {
    |t| == |t0| && forall i: nat :: i < |t| ==> t[i] == if start <= i < start + num then EntryFor(frame, i - start, size, flags) else t0[i]
  }

  /** t is t0 with the window cleared. */
  ghost predicate Cleared(t0: seq<Word64>, t: seq<Word64>, start: nat, num: nat) {
    |t| == |t0| && forall i: nat :: i < |t| ==> t[i] == if start <= i < start + num then 0 else t0[i]
  }

  datatype Live = Live(start: nat, num: nat)

  predicate Inside(w: Live, i: nat) { w.start <= i < w.start + w.num }

  predicate Before(w: Live, x: Live) { w.start + w.num <= x.start }

  ghost predicate Owned(live: set<Live>, i: nat) { exists w :: w in live && Inside(w, i) }

  /** Entries that are not present are zero; live windows are apart, and they hold exactly the present entries. */
  ghost predicate Windows(t: seq<Word64>, lo: nat, hi: nat, live: set<Live>) {
    && lo <= hi <= |t|
    && (forall i :: lo <= i < hi ==> Present(t[i]) || t[i] == 0)
    && (forall w :: w in live ==> w.num > 0 && lo <= w.start && w.start + w.num <= hi)
    && (forall w, x :: w in live && x in live && w != x ==> Before(w, x) || Before(x, w))
    && (forall i: nat :: lo <= i < hi ==> (Present(t[i]) <==> Owned(live, i)))
  }

  /** The window meets none of the live ones. */
  ghost predicate ClearOf(live: set<Live>, w: Live) {
    w !in live && forall x :: x in live ==> Before(x, w) || Before(w, x)
  }

  lemma Overlap(w: Live, x: Live) returns (i: nat)
    requires w.num > 0 && x.num > 0 && !Before(w, x) && !Before(x, w)
    ensures Inside(w, i) && Inside(x, i)
  {
    i := if x.start >= w.start then x.start else w.start;
  }

  lemma OwnedBy(live: set<Live>, w: Live, i: nat)
    requires w in live && Inside(w, i)
    ensures Owned(live, i)
  {
  }

  /** Slots that are not present meet no live window. */
  lemma AbsentClear(t: seq<Word64>, lo: nat, hi: nat, live: set<Live>, w: Live)
    requires Windows(t, lo, hi, live) && w.num > 0 && lo <= w.start && w.start + w.num <= hi && Absent(t, w.start, w.num)
    ensures ClearOf(live, w)
  {
    forall x | x in live ensures x != w && (Before(x, w) || Before(w, x)) {
      if x == w || !(Before(x, w) || Before(w, x)) {
        var i := Overlap(x, w);
        OwnedBy(live, x, i);
      }
    }
  }

  /** Filling a free window adds it. */
  lemma AddWindow(t: seq<Word64>, t': seq<Word64>, lo: nat, hi: nat, live: set<Live>, w: Live)
    requires Windows(t, lo, hi, live) && |t'| == |t| && w.num > 0 && lo <= w.start && w.start + w.num <= hi
    requires Absent(t, w.start, w.num) && forall i :: w.start <= i < w.start + w.num ==> Present(t'[i])
    requires forall i :: 0 <= i < |t| && !(w.start <= i < w.start + w.num) ==> t'[i] == t[i]
    ensures Windows(t', lo, hi, live + {w}) && ClearOf(live, w)
  {
    AbsentClear(t, lo, hi, live, w);
    forall i: nat | lo <= i < hi ensures Present(t'[i]) <==> Owned(live + {w}, i) {
      assert Owned(live + {w}, i) <==> Owned(live, i) || Inside(w, i) by {
        if Inside(w, i) { assert w in live + {w}; }
        if Owned(live, i) { var x :| x in live && Inside(x, i); assert x in live + {w}; }
      }
    }
  }

  /** Clearing a live window removes it. */
  lemma RemoveWindow(t: seq<Word64>, t': seq<Word64>, lo: nat, hi: nat, live: set<Live>, w: Live)
    requires Windows(t, lo, hi, live) && |t'| == |t| && w in live
    requires Cleared(t, t', w.start, w.num)
    ensures Windows(t', lo, hi, live - {w})
  {
    ZeroBit(0);
    forall i: nat | lo <= i < hi ensures Present(t'[i]) <==> Owned(live - {w}, i) {
      if Owned(live - {w}, i) {
        var x :| x in live - {w} && Inside(x, i);
        assert Owned(live, i) && (Before(x, w) || Before(w, x));
      } else if Owned(live, i) {
        var x :| x in live && Inside(x, i);
        assert x in live - {w} || x == w;
      }
    }
  }

  /** Clearing slots keeps the windows in order exactly if the slots are one of them or meet none. */
  lemma UnmapExactly(t: seq<Word64>, t': seq<Word64>, lo: nat, hi: nat, live: set<Live>, w: Live)
    requires Windows(t, lo, hi, live) && lo <= w.start && w.start + w.num <= hi && Cleared(t, t', w.start, w.num)
    ensures Windows(t', lo, hi, live - {w}) <==> w.num == 0 || w in live || ClearOf(live, w)
  {
    if w in live {
      RemoveWindow(t, t', lo, hi, live, w);
    } else if w.num == 0 || ClearOf(live, w) {
      assert live - {w} == live;
      assert forall i: nat :: lo <= i < hi ==> t'[i] == t[i] by {
        forall i: nat | lo <= i < hi ensures t'[i] == t[i] {
          assert Inside(w, i) ==> forall x :: x in live ==> !Inside(x, i);
        }
      }
    } else {
      var x :| x in live && !(Before(x, w) || Before(w, x));
      var i := Overlap(x, w);
      ZeroBit(0);
      OwnedBy(live - {w}, x, i);
      assert !Present(t'[i]);
    }
  }

  /** A uint64_t sum or difference, off by at most one wrap. */
  function Wrap(x: int): (r: nat)
    requires x + W64 >= 0 && x < 2 * W64
    ensures r < W64 && (r == x || r == x + W64 || r == x - W64)
  {
    if x < 0 then x + W64 else if x < W64 then x else x - W64
  }

  class Slots {
    const table: array<Word64>      // pt or pdt
    const lo: nat                   // first slot
    const hi: nat                   // slot after the last
    const size: nat                 // PG_SIZE or LARGE_PG_SIZE
    const mask: Word64              // PG_MASK or LARGE_PG_MASK
    ghost var live: set<Live>       // windows handed out and not yet returned

    ghost predicate Valid()
      reads this, table
    {
      lo <= hi <= table.Length && hi <= 512 && KeepsPages(size, mask) && Windows(table[..], lo, hi, live)
    }

    /** The loops at the end of vm_init: whatever the slots held, they are zero afterwards and no window is live. */
    constructor (table: array<Word64>, lo: nat, hi: nat, size: nat, mask: Word64)
      requires lo <= hi <= table.Length && hi <= 512 && KeepsPages(size, mask)
      modifies table
      ensures Valid() && this.table == table && this.lo == lo && this.hi == hi && this.size == size && this.mask == mask
      ensures live == {} && Cleared(old(table[..]), table[..], lo, hi - lo)
    {
      this.table, this.lo, this.hi, this.size, this.mask, live := table, lo, hi, size, mask, {};
      new;
      ZeroBit(0);
      var i := lo;
      while i < hi
        invariant lo <= i <= hi && this.table == table && live == {}
        invariant this.lo == lo && this.hi == hi && this.size == size && this.mask == mask
        invariant Cleared(old(table[..]), table[..], lo, i - lo)
      {
        table[i] := 0;
        i := i + 1;
      }
    }

    /** The search loops of vm_map_pages.  The bound of the outer loop is hi - num + 1 in uint64_t; left says that the
        search read a slot past the last, and then nothing is claimed about the C function. */
    method FindWindow(num: nat) returns (r: Option<nat>, left: bool)
      requires lo <= hi <= table.Length && hi <= 512 && 0 < num < W64
      ensures num <= hi + 1 ==> !left && r == Find(FreeSlots(table[..hi]), lo, num)
      ensures num > hi + 1 ==> r == None && (num < W64 - 1 ==> left)
    {
      ghost var free := FreeSlots(table[..hi]);
      var i, bound := lo, Wrap(hi + 1 - num);
      while i < bound
        invariant lo <= i <= hi + 2 && (num <= hi + 1 ==> Find(free, i, num) == Find(free, lo, num))
        decreases hi + 2 - i
      {
        if i >= hi {
          return None, true;
        }
        if !Present(table[i]) {
          var j;
          j, left := ScanWindow(i, Wrap(i + num));
          if left {
            return None, true;
          }
          if j - i == num {
            return Some(i), false;
          }
          i := j + 1;
        }
        i := i + 1;
      }
      r, left := None, false;
    }

    /** The inner loop: the first present entry after i, or end. */
    method ScanWindow(i: nat, end: nat) returns (j: nat, left: bool)
      requires i < hi <= table.Length
      ensures i < j <= hi && (left <==> j == hi < end)
      ensures i < end <= hi ==> j == RunEnd(FreeSlots(table[..hi]), i + 1, end)
      ensures end <= i ==> j == i + 1
    {
      j := i + 1;
      while j < end && j < hi && !Present(table[j])
        invariant i < j <= hi && (end <= i ==> j == i + 1)
        invariant i < end <= hi ==> j <= end && RunEnd(FreeSlots(table[..hi]), j, end) == RunEnd(FreeSlots(table[..hi]), i + 1, end)
      {
        j := j + 1;
      }
      left := j == hi && j < end;
    }

    /** The write loop: consecutive frames into consecutive slots. */
    method WriteWindow(start: nat, num: nat, frame: nat, flags: Word64)
      requires start + num <= table.Length && frame + Times(num, size) < W64
      modifies table
      ensures Filled(old(table[..]), table[..], start, num, frame, size, flags)
    {
      var f, j := frame, start;
      while j < start + num
        invariant start <= j <= start + num && f == frame + Times(j - start, size) && f + Times(start + num - j, size) < W64
        invariant Filled(old(table[..]), table[..], start, j - start, frame, size, flags)
      {
        TimesAdd(start + num - j - 1, 1, size);
        TimesAdd(j - start, 1, size);
        table[j] := Or64(f, flags);
        f := f + size;
        j := j + 1;
      }
    }

    /** vm_map_pages and vm_map_large_pages; the result is the first slot, whose address is returned in C. */
    method MapWindow(frame: nat, num: nat, flags: Word64) returns (r: Option<nat>, left: bool)
      requires Valid() && num < W64 && (num <= hi + 1 ==> frame + Times(num, size) < W64)
      modifies table, this`live
      ensures Bit(flags, 0) || r.None? ==> Valid()
      ensures num == 0 ==> r == None && !left
      ensures 0 < num <= hi + 1 ==> !left && FirstFit(FreeSlots(old(table[..hi])), lo, lo, num, r)
      ensures forall w: nat :: 0 < num && lo <= w && w + num <= hi && Absent(old(table[..]), w, num) && LookedAt(old(table[..]), lo, w) ==>
                r.Some? && r.value <= w
      ensures num > hi + 1 ==> r == None && (num < W64 - 1 ==> left)
      ensures r.None? ==> table[..] == old(table[..]) && live == old(live)
      ensures r.Some? ==>
                && lo <= r.value && r.value + num <= hi && Absent(old(table[..]), r.value, num)
                && Filled(old(table[..]), table[..], r.value, num, frame, size, flags)
                && ClearOf(old(live), Live(r.value, num))
                && live == if Bit(flags, 0) then old(live) + {Live(r.value, num)} else old(live)
    {
      if num < 1 {
        return None, false;
      }
      r, left := FindWindow(num);
      if num <= hi + 1 { FirstWindow(table[..], lo, hi, num); }
      if r.Some? {
        FindSound(FreeSlots(table[..hi]), lo, num);
        WindowFree(table[..], hi, r.value, num);
        FillWindow(r.value, num, frame, flags);
      }
    }

    /** Fill a free window and hand it out, if its entries are present. */
    method FillWindow(start: nat, num: nat, frame: nat, flags: Word64)
      requires Valid() && num > 0 && lo <= start && start + num <= hi && frame + Times(num, size) < W64
      requires Absent(table[..], start, num)
      modifies table, this`live
      ensures ClearOf(old(live), Live(start, num))
      ensures Bit(flags, 0) ==> Valid() && live == old(live) + {Live(start, num)}
      ensures !Bit(flags, 0) ==> live == old(live)
      ensures Filled(old(table[..]), table[..], start, num, frame, size, flags)
    {
      ghost var t0 := table[..];
      WriteWindow(start, num, frame, flags);
      AbsentClear(t0, lo, hi, live, Live(start, num));
      if Bit(flags, 0) {
        WindowPresent(t0, table[..], start, num, frame, size, flags);
        AddWindow(t0, table[..], lo, hi, live, Live(start, num));
        live := live + {Live(start, num)};
      }
    }

    /** vm_unmap_pages and vm_unmap_large_pages: clear the slots and report their first non-zero frame.  The windows
        stay in order exactly if the slots are one of them or meet none. */
    method UnmapWindow(start: nat, num: nat) returns (frame: Word64)
      requires Valid() && lo <= start && start + num <= hi
      modifies table, this`live
      ensures live == old(live) - {Live(start, num)}
      ensures Valid() <==> num == 0 || Live(start, num) in old(live) || ClearOf(old(live), Live(start, num))
      ensures Cleared(old(table[..]), table[..], start, num)
      ensures frame == FirstFrame(old(table[start..start + num]), mask)
    {
      frame := 0;
      var i, n := start, num;
      ghost var t0 := table[..];
      while n > 0
        invariant 0 <= n <= num && i + n == start + num && live == old(live)
        invariant Cleared(t0, table[..], start, i - start)
        invariant FirstFrame(t0[start..start + num], mask) == if frame != 0 then frame else FirstFrame(t0[i..start + num], mask)
      {
        assert t0[i..start + num][0] == t0[i] && t0[i..start + num][1..] == t0[i + 1..start + num];
        if frame == 0 {
          frame := And(table[i], mask);
        }
        table[i] := 0;
        i, n := i + 1, n - 1;
      }
      UnmapExactly(t0, table[..], lo, hi, live, Live(start, num));
      live := live - {Live(start, num)};
    }

    /** Unmapping a window that was just mapped restores the table and the live windows exactly, and says when the
        frame it returns is the one that was mapped. */
    method RoundTrip(frame: nat, num: nat, flags: Word64) returns (served: bool, recovered: Word64)
      requires Valid() && num < W64 && (num <= hi + 1 ==> frame + Times(num, size) < W64) && Bit(flags, 0)
      modifies table, this`live
      ensures Valid() && table[..] == old(table[..]) && live == old(live)
      ensures served ==> (recovered == frame <==> Recovered(frame, num, flags, mask))
    {
      ghost var t0, live0 := table[..], live;
      var r, _ := MapWindow(frame, num, flags);
      served, recovered := r.Some?, 0;
      if served {
        recovered := Undo(r.value, num, t0, live0, frame, flags);
      }
    }

    /** Unmap a window that was filled in the table t0. */
    method Undo(start: nat, num: nat, ghost t0: seq<Word64>, ghost live0: set<Live>, ghost frame: nat, ghost flags: Word64)
        returns (recovered: Word64)
      requires Valid() && num > 0 && lo <= start && start + num <= hi && frame + Times(num, size) < W64
      requires Windows(t0, lo, hi, live0) && Absent(t0, start, num) && Filled(t0, table[..], start, num, frame, size, flags)
      requires Live(start, num) !in live0 && live == live0 + {Live(start, num)}
      modifies table, this`live
      ensures Valid() && table[..] == t0 && live == live0
      ensures recovered == frame <==> Recovered(frame, num, flags, mask)
    {
      ghost var t1 := table[..];
      recovered := UnmapWindow(start, num);
      FilledRecovered(t0, t1, start, num, frame, size, flags, mask);
      FilledCleared(t0, t1, table[..], lo, hi, live0, start, num, frame, size, flags);
    }
  }

  /** The first non-zero frame among entries. */
  function FirstFrame(es: seq<Word64>, mask: Word64): Word64 {
    if es == [] then 0 else if And(es[0], mask) != 0 then And(es[0], mask) else FirstFrame(es[1..], mask)
  }

  /** Slot w is the first or the second, or not right behind the end of a run of free slots. */
  predicate LookedAt(t: seq<Word64>, lo: nat, w: nat) {
    w <= lo + 1 || w > |t| || !Present(t[w - 1]) || Present(t[w - 2])
  }

  /** The search finds a window no later than any that it looks at. */
  lemma FirstWindow(t: seq<Word64>, lo: nat, hi: nat, num: nat)
    requires lo <= hi <= |t| && 0 < num
    ensures FirstFit(FreeSlots(t[..hi]), lo, lo, num, Find(FreeSlots(t[..hi]), lo, num))
    ensures forall w: nat :: lo <= w && w + num <= hi && Absent(t, w, num) && LookedAt(t, lo, w) ==>
              Find(FreeSlots(t[..hi]), lo, num).Some? && Find(FreeSlots(t[..hi]), lo, num).value <= w
  {
    var free := FreeSlots(t[..hi]);
    FindExactly(free, lo, lo, num);
    forall w: nat | lo <= w && w + num <= hi && Absent(t, w, num) && LookedAt(t, lo, w)
      ensures Find(free, lo, num).Some? && Find(free, lo, num).value <= w
    {
      assert forall x :: 0 <= x < hi ==> free[x] == !Present(t[x]);
      FindFirst(free, lo, num, w);
    }
  }

  lemma WindowFree(t: seq<Word64>, hi: nat, start: nat, num: nat)
    requires hi <= |t| && Window(FreeSlots(t[..hi]), start, num)
    ensures start + num <= hi && Absent(t, start, num)
  {
    var f := FreeSlots(t[..hi]);
    forall i | start <= i < start + num ensures !Present(t[i]) {
      assert f[i];
    }
  }

  lemma WindowPresent(t0: seq<Word64>, t: seq<Word64>, start: nat, num: nat, frame: nat, size: nat, flags: Word64)
    requires start + num <= |t| && frame + Times(num, size) < W64 && Bit(flags, 0)
    requires Filled(t0, t, start, num, frame, size, flags)
    ensures forall i :: start <= i < start + num ==> Present(t[i])
  {
    forall i | start <= i < start + num ensures Present(t[i]) {
      TimesMonotone(i - start, num, size);
      OrBit(frame + Times(i - start, size), flags, 0);
    }
  }

  /** Entries that are not present are zero, so filling and clearing a window brings the table back. */
  lemma FilledCleared(t0: seq<Word64>, t1: seq<Word64>, t: seq<Word64>, lo: nat, hi: nat, live: set<Live>,
                      start: nat, num: nat, frame: nat, size: nat, flags: Word64)
    requires Windows(t0, lo, hi, live) && lo <= start && start + num <= hi && Absent(t0, start, num)
    requires Filled(t0, t1, start, num, frame, size, flags) && Cleared(t1, t, start, num)
    ensures t == t0
  {
  }

  // ----- the frame that unmapping returns -----

  /** The mask keeps the page size: true of PG_SIZE with PG_MASK and of LARGE_PG_SIZE with LARGE_PG_MASK. */
  predicate KeepsPages(size: nat, mask: Word64) { size > 0 && And(size, mask) == size }

  const PG_MASK: Word64 := 0xFFFF_FFFF_FFFF_F000
  const LARGE_PG_MASK: Word64 := 0xFFFF_FFFF_FFE0_0000
  const PGT_XD: Word64 := 0x8000_0000_0000_0000

  lemma PageMasks()
    ensures KeepsPages(0x1000, PG_MASK) && KeepsPages(0x20_0000, LARGE_PG_MASK)
  {
    assert Pow2(12) == 0x1000;
    MaskKeeps(12);
    Pow2Add(12, 9);
    assert Pow2(9) == 0x200;
    MaskKeeps(21);
  }

  /** The complement of the numbers below 2^n keeps 2^n. */
  lemma MaskKeeps(n: nat)
    requires n < 64
    ensures Pow2(n) < W64 && And(Pow2(n), W64 - Pow2(n)) == Pow2(n)
  {
    ShlOnes(n);
    Pow2Of64();
    var e := And(Pow2(n), W64 - Pow2(n));
    forall j: nat | j < 64 ensures Bit(e, j) <==> Bit(Pow2(n), j) {
      AndBit(Pow2(n), W64 - Pow2(n), j);
      ShlBit(ONES, n, j);
      if j < n {
        PowerBelow(n, j);
      } else {
        OnesBit(j - n);
      }
    }
    SameBits(e, Pow2(n), 64);
  }

  /** Unmapping gives the mapped frame back: the frame is a page address, the flags put no bit under the mask that it
      lacks, and it is not 0 unless it is the only one. */
  ghost predicate Recovered(frame: nat, num: nat, flags: Word64, mask: Word64) {
    && frame < W64 && And(frame, mask) == frame
    && (forall j: nat :: j < 64 ==> BitOver(frame, flags, mask, j))
    && (frame != 0 || num == 1)
  }

  lemma FilledEntries(t0: seq<Word64>, t: seq<Word64>, start: nat, num: nat, frame: nat, size: nat, flags: Word64)
    requires start + num <= |t| && Filled(t0, t, start, num, frame, size, flags)
    ensures forall k: nat :: k < num ==> t[start..start + num][k] == EntryFor(frame, k, size, flags)
  {
  }

  /** The first non-zero masked entry of a mapped window is the mapped frame if and only if it is recovered. */
  lemma RecoveredWindow(es: seq<Word64>, frame: Word64, num: nat, size: Word64, flags: Word64, mask: Word64)
    requires |es| == num > 0 && KeepsPages(size, mask)
    requires es[0] == Or64(frame, flags) && (num > 1 && frame == 0 ==> es[1] == Or64(size, flags))
    ensures FirstFrame(es, mask) == frame <==> Recovered(frame, num, flags, mask)
  {
    if And(es[0], mask) != 0 {
      FirstEntry(frame, num, flags, mask);
    } else {
      NoEntry(frame, flags, mask);
      assert FirstFrame(es, mask) == FirstFrame(es[1..], mask);
      if frame != 0 {
        FirstFrameMasked(es[1..], mask);
      } else if num > 1 {
        if And(es[1], mask) == 0 { OrKeeps(size, flags, mask); }
        assert es[1..][0] == es[1];
      }
    }
  }

  lemma FilledRecovered(t0: seq<Word64>, t: seq<Word64>, start: nat, num: nat, frame: nat, size: nat, flags: Word64, mask: Word64)
    requires num > 0 && start + num <= |t| && frame + Times(num, size) < W64 && KeepsPages(size, mask)
    requires Filled(t0, t, start, num, frame, size, flags)
    ensures FirstFrame(t[start..start + num], mask) == frame <==> Recovered(frame, num, flags, mask)
  {
    TimesMonotone(0, num, size);
    TimesMonotone(1, num, size);
    var es := t[start..start + num];
    FilledEntries(t0, t, start, num, frame, size, flags);
    assert es[0] == EntryFor(frame, 0, size, flags);
    if num > 1 { assert es[1] == EntryFor(frame, 1, size, flags); }
    RecoveredWindow(es, frame, num, size, flags, mask);
  }

  lemma FirstEntry(frame: Word64, num: nat, flags: Word64, mask: Word64)
    requires And(Or64(frame, flags), mask) != 0
    ensures And(Or64(frame, flags), mask) == frame <==> Recovered(frame, num, flags, mask)
  {
    AndTwice(Or64(frame, flags), mask);
    if And(frame, mask) == frame { RecoveredFrame(frame, flags, mask); }
  }

  /** An entry without a bit under the mask: the frame has none either. */
  lemma NoEntry(frame: Word64, flags: Word64, mask: Word64)
    requires And(Or64(frame, flags), mask) == 0
    ensures And(frame, mask) == 0 && forall j: nat :: j < 64 ==> BitOver(frame, flags, mask, j)
  {
    OrKeeps(frame, flags, mask);
    forall j: nat | j < 64 ensures BitOver(frame, flags, mask, j) {
      AndBit(Or64(frame, flags), mask, j);
      OrBit(frame, flags, j);
      ZeroBit(j);
    }
  }

  lemma OrKeeps(a: Word64, flags: Word64, mask: Word64)
    requires And(Or64(a, flags), mask) == 0
    ensures And(a, mask) == 0
  {
    forall j: nat | j < 64 ensures !Bit(And(a, mask), j) {
      AndBit(a, mask, j);
      AndBit(Or64(a, flags), mask, j);
      OrBit(a, flags, j);
      ZeroBit(j);
    }
    ZeroWord(And(a, mask));
  }

  lemma AndTwice(x: Word64, mask: Word64)
    ensures And(And(x, mask), mask) == And(x, mask)
  {
    Pow2Of64();
    forall j: nat | j < 64 ensures Bit(And(And(x, mask), mask), j) <==> Bit(And(x, mask), j) {
      AndBit(And(x, mask), mask, j);
      AndBit(x, mask, j);
    }
    SameBits(And(And(x, mask), mask), And(x, mask), 64);
  }

  /** What unmapping returns lies under the mask. */
  lemma {:induction false} FirstFrameMasked(es: seq<Word64>, mask: Word64)
    ensures And(FirstFrame(es, mask), mask) == FirstFrame(es, mask)
  {
    if es != [] {
      AndTwice(es[0], mask);
      FirstFrameMasked(es[1..], mask);
    }
  }

  /** One entry gives its frame back exactly when the flags put no bit under the mask that the frame lacks. */
  lemma RecoveredFrame(frame: Word64, flags: Word64, mask: Word64)
    requires And(frame, mask) == frame
    ensures And(Or64(frame, flags), mask) == frame <==>
            forall j: nat :: j < 64 ==> BitOver(frame, flags, mask, j)
  {
    var e := And(Or64(frame, flags), mask);
    forall j: nat | j < 64 ensures (Bit(e, j) <==> Bit(frame, j)) <==> BitOver(frame, flags, mask, j) {
      AndBit(Or64(frame, flags), mask, j);
      OrBit(frame, flags, j);
      AndBit(frame, mask, j);
    }
    if forall j: nat :: j < 64 ==> BitOver(frame, flags, mask, j) {
      Pow2Of64();
      SameBits(e, frame, 64);
    }
  }

  predicate BitOver(frame: Word64, flags: Word64, mask: Word64, j: nat) { Bit(flags, j) && Bit(mask, j) ==> Bit(frame, j) }

  /** A page mapped with PGT_XD comes back with bit 63 set: PG_MASK keeps it. */
  lemma XdComesBack(frame: Word64)
    requires !Bit(frame, 63)
    ensures Bit(PGT_XD + 1, 63) && Bit(PG_MASK, 63)
    ensures FirstFrame([Or64(frame, PGT_XD + 1)], PG_MASK) != frame
    ensures Bit(FirstFrame([Or64(frame, PGT_XD + 1)], PG_MASK), 63)
  {
    Pow2Of64();
    if !Bit(PGT_XD + 1, 63) { TopClear(PGT_XD + 1, 63); }
    if !Bit(PG_MASK, 63) { TopClear(PG_MASK, 63); }
    var e := Or64(frame, PGT_XD + 1);
    OrBit(frame, PGT_XD + 1, 63);
    AndBit(e, PG_MASK, 63);
    ZeroBit(63);
  }

  /** Two pages mapped at frame 0 come back as frame 4096: the zero frame is skipped. */
  lemma ZeroSkipped()
    ensures FirstFrame([EntryFor(0, 0, 0x1000, 1), EntryFor(0, 1, 0x1000, 1)], PG_MASK) == 0x1000
  {
    PageMasks();
    var es := [EntryFor(0, 0, 0x1000, 1), EntryFor(0, 1, 0x1000, 1)];
    PresentPage(0, PG_MASK);
    PresentPage(0x1000, PG_MASK);
    assert es[1..][0] == es[1];
  }

  lemma PresentPage(frame: Word64, mask: Word64)
    requires And(frame, mask) == frame && !Bit(mask, 0)
    ensures And(Or64(frame, 1), mask) == frame
  {
    forall j: nat | j < 64 ensures BitOver(frame, 1, mask, j) {
      if j > 0 { ZeroBit(j - 1); }
    }
    RecoveredFrame(frame, 1, mask);
  }
}
