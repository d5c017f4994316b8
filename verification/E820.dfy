/** arch/x86_64/virt/mem.c, virt_setup_e820: the memory map handed to the Linux guest, built from the free
    frames of the hypervisor. */
module E820 {
  import opened Powers
  import opened Bitmap
  import opened ByteRanges
  import opened FrameSets
  import opened GuestFrames
  import opened Physical

  datatype Entry = Entry(addr: nat, size: nat)

  function Ceiling(data: nat): nat { (data + LARGE - 1) / LARGE * LARGE }
  function Floor(data: nat): nat { data / LARGE * LARGE }

  /** Frame f belongs to the entry. */
  predicate Covers(e: Entry, f: nat) { e.addr <= f * PG_SIZE < e.addr + e.size }

  predicate PageAligned(e: Entry) { e.addr % PG_SIZE == 0 && e.size % PG_SIZE == 0 }

  /** The guest ramdisk occupies whole large pages of frames that are not free. */
  ghost predicate RamdiskTaken(m: Table, rd: Entry) {
    rd.addr % LARGE == 0 && rd.size % LARGE == 0 && forall f: nat :: Covers(rd, f) ==> !FreeAt(m, f)
  }

  ghost predicate FirstFree(m: Table, f: nat) { FreeAt(m, f) && NoneFree(m, 0, f) }

  /** The two frames below the first free one, when that lies below the Linux entry point, exist and are
      not the ramdisk's: virt_setup_linux allocated them for the zero page and the command line. */
  ghost predicate LowFrames(m: Table, rd: Entry) {
    forall f: nat :: FirstFree(m, f) && f * PG_SIZE < LINUX_ENTRY ==> f >= 2 && !Covers(rd, f - 2) && !Covers(rd, f - 1)
  }

  /** A frame the map may list as memory: free before the call, or one of the two low frames. */
  ghost predicate Given(m: Table, f: nat) {
    || FreeAt(m, f)
    || (FirstFree(m, f + 1) && (f + 1) * PG_SIZE < LINUX_ENTRY)
    || (FirstFree(m, f + 2) && (f + 2) * PG_SIZE < LINUX_ENTRY)
  }

  /** A memory entry: whole pages, every one of them a given frame. */
  ghost predicate RamEntry(m: Table, e: Entry) {
    && PageAligned(e) && e.size > 0
    && forall f: nat :: Covers(e, f) ==> Given(m, f)
  }

  /** Entries past the kernel are made of large pages, and none starts inside the kernel. */
  predicate Shaped(e: Entry, kernelEnd: nat) {
    && (e.addr >= kernelEnd ==> e.addr % LARGE == 0 && e.size % LARGE == 0)
    && !(LINUX_ENTRY <= e.addr < kernelEnd)
  }

  predicate Before(a: Entry, b: Entry) { a.size == 0 || b.size == 0 || a.addr + a.size <= b.addr }

  ghost predicate Sorted(es: seq<Entry>) { forall i, j :: 0 <= i < j < |es| ==> Before(es[i], es[j]) }

  /** The memory entries: all but the ramdisk's. */
  ghost predicate Ram(es: seq<Entry>, listed: bool, at: nat, i: nat) { i < |es| && !(listed && i == at) }

  ghost predicate RamSorted(es: seq<Entry>, listed: bool, at: nat) {
    forall i: nat, j: nat :: i < j && Ram(es, listed, at, i) && Ram(es, listed, at, j) ==> Before(es[i], es[j])
  }

  /** hdr.ramdisk_image + hdr.ramdisk_size, a sum of two uint32_t. */
  function RamdiskEnd(image: nat, ramdiskSize: nat): nat { (image + ramdiskSize) % WORD32 }

  function Later(a: nat, b: nat): nat { if a < b then b else a }

  function PageCeiling(x: nat): nat { (x + PG_SIZE - 1) / PG_SIZE * PG_SIZE }

  /** No entry for a run that starts at or after rdEnd can lie before the ramdisk, be the run below the Linux entry
      point or past the kernel. */
  predicate InOrder(rd: Entry, rdEnd: nat, kernelEnd: nat) {
    rd.size == 0
    || (&& (rd.addr <= PageCeiling(Later(rdEnd, 2 * PG_SIZE)) || LINUX_ENTRY <= PageCeiling(Later(rdEnd, 2 * PG_SIZE)))
        && rd.addr <= Ceiling(Later(rdEnd, kernelEnd)))
  }

  /** What one turn of the loop does with the run [start, start + size): emit says whether [a, a + s) is listed;
      a + s is where the search goes on. */
  function Clip(first: bool, start: nat, size: nat, kernelEnd: nat): (r: (bool, nat, nat))
    requires first && start < kernelEnd && start < LINUX_ENTRY ==> start >= 2 * PG_SIZE
  {
    if start >= kernelEnd then
      var a := Ceiling(start);
      if a - start >= size then (false, a, 0)
      else if Floor(size - (a - start)) < LARGE then (false, a, size - (a - start))
      else (true, a, Floor(size - (a - start)))
    else if start >= LINUX_ENTRY then (false, start, size)
    else if first then (true, start - 2 * PG_SIZE, size + 2 * PG_SIZE)
    else (true, start, size)
  }

  lemma PageMultiple(q: nat)
    ensures q * PG_SIZE % PG_SIZE == 0
  {
  }

  lemma LargeMultiple(q: nat)
    ensures q * LARGE % LARGE == 0
  {
  }

  /** A large-page boundary is a page boundary. */
  lemma LargeIsPage(x: nat)
    requires x % LARGE == 0
    ensures x % PG_SIZE == 0
  {
    var p := 512 * (x / LARGE);
    assert x == p * PG_SIZE;
    PageMultiple(p);
  }

  /** The page that starts at x. */
  function PageAt(x: nat): (f: nat)
    requires x % PG_SIZE == 0
    ensures f * PG_SIZE == x
  {
    x / PG_SIZE
  }

  /** Rounding to large pages keeps page alignment. */
  lemma RoundingDown(x: nat)
    ensures Floor(x) <= x < Floor(x) + LARGE && Floor(x) % LARGE == 0 && Floor(x) % PG_SIZE == 0
  {
    LargeMultiple(x / LARGE);
    LargeIsPage(Floor(x));
  }

  lemma RoundingUp(x: nat)
    ensures x <= Ceiling(x) < x + LARGE && Ceiling(x) % LARGE == 0 && Ceiling(x) % PG_SIZE == 0
  {
    RoundingDown(x + LARGE - 1);
  }

  lemma ClipBounds(first: bool, start: nat, size: nat, kernelEnd: nat)
    requires size > 0 && start % PG_SIZE == 0 && size % PG_SIZE == 0
    requires first && start < kernelEnd && start < LINUX_ENTRY ==> start >= 2 * PG_SIZE
    ensures var (emit, a, s) := Clip(first, start, size, kernelEnd);
            && a + s > start && (a + s) % PG_SIZE == 0 && a + s <= start + size + LARGE
            && (emit ==>
                  && s > 0 && PageAligned(Entry(a, s)) && a + s <= start + size && Shaped(Entry(a, s), kernelEnd)
                  && (a >= start || (first && start < LINUX_ENTRY && a == start - 2 * PG_SIZE)))
  {
    if start >= kernelEnd {
      ClipLarge(first, start, size, kernelEnd);
    } else {
      ClipPages(start, size);
    }
  }

  /** The same past the kernel. */
  lemma ClipLarge(first: bool, start: nat, size: nat, kernelEnd: nat)
    requires size > 0 && start % PG_SIZE == 0 && size % PG_SIZE == 0 && start >= kernelEnd
    ensures var (emit, a, s) := Clip(first, start, size, kernelEnd);
            && a + s > start && (a + s) % PG_SIZE == 0 && a + s <= start + size + LARGE
            && a >= start && (emit ==> s > 0 && PageAligned(Entry(a, s)) && a + s <= start + size && Shaped(Entry(a, s), kernelEnd))
  {
    ClipPast(start, size);
    var a := Ceiling(start);
    if a - start < size {
      PageSum(a, Floor(size - (a - start)));
      PageSum(a, size - (a - start));
    }
  }

  lemma PageSum(x: nat, y: nat)
    requires x % PG_SIZE == 0 && y % PG_SIZE == 0
    ensures (x + y) % PG_SIZE == 0
  {
  }

  /** The end of a run, and the run with two more pages in front. */
  lemma ClipPages(start: nat, size: nat)
    requires start % PG_SIZE == 0 && size % PG_SIZE == 0
    ensures (start + size) % PG_SIZE == 0 && (size + 2 * PG_SIZE) % PG_SIZE == 0
    ensures start >= 2 * PG_SIZE ==> (start - 2 * PG_SIZE) % PG_SIZE == 0
  {
  }

  lemma PageDifference(start: nat, size: nat, a: nat)
    requires start % PG_SIZE == 0 && size % PG_SIZE == 0 && a % PG_SIZE == 0 && start <= a && a - start < size
    ensures (size - (a - start)) % PG_SIZE == 0
  {
    assert size - (a - start) == PG_SIZE * (size / PG_SIZE + start / PG_SIZE - a / PG_SIZE);
  }

  lemma ClipPast(start: nat, size: nat)
    requires size > 0 && start % PG_SIZE == 0 && size % PG_SIZE == 0
    ensures var a := Ceiling(start);
            && start <= a <= start + LARGE && a % LARGE == 0 && a % PG_SIZE == 0
            && (a - start < size ==>
                  var s := Floor(size - (a - start));
                  s <= size - (a - start) && s % LARGE == 0 && s % PG_SIZE == 0 && (size - (a - start)) % PG_SIZE == 0)
  {
    RoundingUp(start);
    var a := Ceiling(start);
    if a - start < size {
      RoundingDown(size - (a - start));
      PageDifference(start, size, a);
    }
  }

  // ----- what the loop keeps -----

  /** Every memory entry consists of given frames, has its shape and ends before the cursor. */
  ghost predicate Entries(m0: Table, es: seq<Entry>, c: nat, listed: bool, at: nat, kernelEnd: nat) {
    && c % PG_SIZE == 0 && (c == 0 ==> forall i: nat :: !Ram(es, listed, at, i))
    && forall i: nat :: Ram(es, listed, at, i) ==>
         RamEntry(m0, es[i]) && Shaped(es[i], kernelEnd) && es[i].addr + es[i].size <= c
  }

  predicate Covered(es: seq<Entry>, f: nat) { exists i :: 0 <= i < |es| && Covers(es[i], f) }

  /** The free frames now are the free frames before, less those the entries cover. */
  ghost predicate Accounted(m0: Table, m: Table, es: seq<Entry>) {
    forall f: nat :: FreeAt(m, f) <==> FreeAt(m0, f) && !Covered(es, f)
  }

  ghost predicate FreeBelow(m: Table, bytes: nat) { exists f: nat :: FreeAt(m, f) && f * PG_SIZE < bytes }

  /** The ramdisk's place: it is listed when the search is past rdEnd, behind entries whose runs start below rdEnd;
      until then the search has not come to the ramdisk itself. */
  ghost predicate Placed(m0: Table, es: seq<Entry>, c: nat, listed: bool, at: nat, rd: Entry, rdEnd: nat, lo: nat) {
    && (listed ==> at < |es| && es[at] == rd && rdEnd <= lo)
    && (!listed && rd.size > 0 ==> c <= rd.addr)
    && ((if listed then at > 0 else |es| > 0) ==> FreeBelow(m0, rdEnd))
  }

  ghost predicate MapInv(m0: Table, m: Table, es: seq<Entry>, c: nat, lo: nat, listed: bool, at: nat,
                         rd: Entry, rdEnd: nat, kernelEnd: nat)
  {
    && Entries(m0, es, c, listed, at, kernelEnd) && Accounted(m0, m, es) && Placed(m0, es, c, listed, at, rd, rdEnd, lo)
    && RamSorted(es, listed, at) && (InOrder(rd, rdEnd, kernelEnd) ==> Sorted(es))
    && RamdiskTaken(m0, rd) && LowFrames(m0, rd) && rdEnd <= rd.addr + rd.size
    && (c > 0 ==> LowListed(m0, es))
  }

  /** The two low frames, when there are such, are listed. */
  ghost predicate LowListed(m: Table, es: seq<Entry>) {
    forall f: nat :: FirstFree(m, f) && f * PG_SIZE < LINUX_ENTRY ==> f >= 2 && Covered(es, f - 2) && Covered(es, f - 1)
  }

  /** Frames from the cursor on are as they were. */
  lemma AheadUntouched(m0: Table, m: Table, es: seq<Entry>, c: nat, lo: nat, listed: bool, at: nat,
                       rd: Entry, rdEnd: nat, kernelEnd: nat, f: nat)
    requires MapInv(m0, m, es, c, lo, listed, at, rd, rdEnd, kernelEnd) && c <= f * PG_SIZE
    ensures FreeAt(m, f) <==> FreeAt(m0, f)
  {
    if FreeAt(m0, f) && Covered(es, f) {
      var i :| 0 <= i < |es| && Covers(es[i], f);
      if !(listed && i == at) {
        assert Ram(es, listed, at, i);
      }
    }
  }

  /** An entry of given frames lies wholly before the ramdisk or wholly behind it. */
  lemma EntryApart(m0: Table, e: Entry, rd: Entry)
    requires RamEntry(m0, e) && RamdiskTaken(m0, rd) && LowFrames(m0, rd)
    ensures if e.addr < rd.addr then Before(e, rd) else Before(rd, e)
  {
    if rd.size > 0 && rd.addr < e.addr + e.size && e.addr < rd.addr + rd.size {
      LargeIsPage(rd.addr);
      var f := PageAt(if e.addr >= rd.addr then e.addr else rd.addr);
      assert Covers(e, f) && Covers(rd, f);
    }
  }

  /** Listing the ramdisk, when the search has passed rdEnd. */
  lemma ListRamdisk(m0: Table, m: Table, es: seq<Entry>, c: nat, lo: nat, at: nat, rd: Entry, rdEnd: nat, kernelEnd: nat)
    requires MapInv(m0, m, es, c, lo, false, at, rd, rdEnd, kernelEnd) && rdEnd <= lo
    ensures MapInv(m0, m, es + [rd], c, lo, true, |es|, rd, rdEnd, kernelEnd)
  {
    var es' := es + [rd];
    if InOrder(rd, rdEnd, kernelEnd) {
      forall i, j | 0 <= i < j < |es'| ensures Before(es'[i], es'[j]) {
        if j == |es| {
          assert Ram(es, false, at, i);
        } else {
          assert Before(es[i], es[j]);
        }
      }
    }
    forall i: nat | Ram(es', true, |es|, i) ensures Ram(es, false, at, i) && es'[i] == es[i] {
    }
    forall f: nat ensures FreeAt(m, f) <==> FreeAt(m0, f) && !Covered(es', f) {
      CoveredAppend(es, rd, f);
    }
    if c > 0 { LowAppend(m0, es, rd); }
  }

  lemma LowAppend(m0: Table, es: seq<Entry>, e: Entry)
    requires LowListed(m0, es)
    ensures LowListed(m0, es + [e])
  {
    forall f: nat | FirstFree(m0, f) && f * PG_SIZE < LINUX_ENTRY
      ensures f >= 2 && Covered(es + [e], f - 2) && Covered(es + [e], f - 1)
    {
      CoveredAppend(es, e, f - 2);
      CoveredAppend(es, e, f - 1);
    }
  }

  /** The first turn lists them in front of a run below the Linux entry point. */
  lemma LowFirst(m0: Table, es: seq<Entry>, e: Entry, b: nat)
    requires FirstFree(m0, b) && PageAligned(e)
    requires b * PG_SIZE < LINUX_ENTRY ==> b >= 2 && e.addr == (b - 2) * PG_SIZE && e.size > PG_SIZE
    ensures LowListed(m0, es + [e])
  {
    forall f: nat | FirstFree(m0, f) && f * PG_SIZE < LINUX_ENTRY
      ensures f >= 2 && Covered(es + [e], f - 2) && Covered(es + [e], f - 1)
    {
      assert f == b;
      CoveredAppend(es, e, f - 2);
      CoveredAppend(es, e, f - 1);
    }
  }

  lemma CoveredAppend(es: seq<Entry>, e: Entry, f: nat)
    ensures Covered(es + [e], f) <==> Covered(es, f) || Covers(e, f)
  {
    var es' := es + [e];
    if Covered(es, f) {
      var i :| 0 <= i < |es| && Covers(es[i], f);
      assert Covers(es'[i], f);
    }
    if Covers(e, f) { assert Covers(es'[|es|], f); }
    if Covered(es', f) {
      var i :| 0 <= i < |es'| && Covers(es'[i], f);
      if i < |es| { assert Covers(es[i], f); }
    }
  }

  /** Listing the entry e for the run that starts at start. */
  lemma ListRun(m0: Table, m: Table, m': Table, es: seq<Entry>, c: nat, start: nat, size: nat, e: Entry, listed: bool, at: nat,
                rd: Entry, rdEnd: nat, kernelEnd: nat)
    requires MapInv(m0, m, es, c, start, listed, at, rd, rdEnd, kernelEnd) && (!listed ==> start < rdEnd)
    requires start % PG_SIZE == 0 && size % PG_SIZE == 0 && FirstRun(m, c / PG_SIZE, start / PG_SIZE, size / PG_SIZE)
    requires PageAligned(e) && e.size > 0 && e.addr + e.size <= start + size && Shaped(e, kernelEnd) && e.addr + e.size > start
    requires e.addr >= start || (c == 0 && start < LINUX_ENTRY && start >= 2 * PG_SIZE && e.addr == start - 2 * PG_SIZE)
    requires c == 0 && start < LINUX_ENTRY ==> start >= 2 * PG_SIZE && e.addr == start - 2 * PG_SIZE
    requires !listed && rd.size > 0 ==> e.addr + e.size <= rd.addr
    requires listed && rd.size > 0 && InOrder(rd, rdEnd, kernelEnd) ==> rd.addr <= e.addr
    requires forall f: nat :: FreeAt(m', f) <==> FreeAt(m, f) && !Touches(f, e.addr, e.size)
    ensures MapInv(m0, m', es + [e], e.addr + e.size, e.addr + e.size, listed, at, rd, rdEnd, kernelEnd)
  {
    forall f: nat ensures FreeAt(m', f) <==> FreeAt(m0, f) && !Covered(es + [e], f) {
      CoveredAppend(es, e, f);
      TouchesCovers(e, f);
    }
    RunEntry(m0, m, es, c, start, size, e, listed, at, rd, rdEnd, kernelEnd);
    RunFree(m0, m, es, c, start, size, listed, at, rd, rdEnd, kernelEnd);
    EntryApart(m0, e, rd);
    assert rd.size > 0 && listed && InOrder(rd, rdEnd, kernelEnd) ==> Before(rd, e);
    assert c == 0 || c <= e.addr;
    AppendEntry(m0, es, c, e, listed, at, kernelEnd);
    AppendSorted(m0, es, c, e, listed, at, rd, kernelEnd, InOrder(rd, rdEnd, kernelEnd));
    if c > 0 {
      LowAppend(m0, es, e);
    } else {
      FirstRunFirst(m0, m, es, c, start, listed, at, rd, rdEnd, kernelEnd, start / PG_SIZE);
      LowFirst(m0, es, e, start / PG_SIZE);
    }
  }

  lemma AppendEntry(m0: Table, es: seq<Entry>, c: nat, e: Entry, listed: bool, at: nat, kernelEnd: nat)
    requires Entries(m0, es, c, listed, at, kernelEnd) && (listed ==> at < |es|)
    requires RamEntry(m0, e) && Shaped(e, kernelEnd) && c <= e.addr + e.size
    ensures Entries(m0, es + [e], e.addr + e.size, listed, at, kernelEnd)
  {
    forall i: nat | Ram(es + [e], listed, at, i)
      ensures RamEntry(m0, (es + [e])[i]) && Shaped((es + [e])[i], kernelEnd)
      ensures (es + [e])[i].addr + (es + [e])[i].size <= e.addr + e.size
    {
      if i < |es| { assert Ram(es, listed, at, i) && (es + [e])[i] == es[i]; }
    }
  }

  /** An entry from the cursor on comes after all memory entries, and after the ramdisk if that is in its place. */
  lemma AppendSorted(m0: Table, es: seq<Entry>, c: nat, e: Entry, listed: bool, at: nat, rd: Entry, kernelEnd: nat, order: bool)
    requires Entries(m0, es, c, listed, at, kernelEnd) && RamSorted(es, listed, at) && (order ==> Sorted(es))
    requires (c == 0 || c <= e.addr) && (listed ==> at < |es| && es[at] == rd)
    requires listed && order && rd.size > 0 ==> Before(rd, e)
    ensures RamSorted(es + [e], listed, at) && (order ==> Sorted(es + [e]))
  {
    var es' := es + [e];
    forall i: nat, j: nat | i < j && Ram(es', listed, at, i) && Ram(es', listed, at, j) ensures Before(es'[i], es'[j]) {
      assert Ram(es, listed, at, i);
      if j < |es| { assert Ram(es, listed, at, j); }
    }
    if order {
      forall i, j | 0 <= i < j < |es'| ensures Before(es'[i], es'[j]) {
        if j == |es| && !(listed && i == at) { assert Ram(es, listed, at, i); }
      }
    }
  }

  /** The run's first frame was free from the start. */
  lemma RunFree(m0: Table, m: Table, es: seq<Entry>, c: nat, start: nat, size: nat, listed: bool, at: nat,
                rd: Entry, rdEnd: nat, kernelEnd: nat)
    requires MapInv(m0, m, es, c, start, listed, at, rd, rdEnd, kernelEnd)
    requires start % PG_SIZE == 0 && size % PG_SIZE == 0 && FirstRun(m, c / PG_SIZE, start / PG_SIZE, size / PG_SIZE)
    ensures FreeAt(m0, start / PG_SIZE) && (start < rdEnd ==> FreeBelow(m0, rdEnd))
  {
    assert FreeAt(m, start / PG_SIZE);
    AheadUntouched(m0, m, es, c, start, listed, at, rd, rdEnd, kernelEnd, start / PG_SIZE);
  }

  lemma TouchesCovers(e: Entry, f: nat)
    requires PageAligned(e)
    ensures Touches(f, e.addr, e.size) <==> Covers(e, f)
  {
  }

  lemma RunEntry(m0: Table, m: Table, es: seq<Entry>, c: nat, start: nat, size: nat, e: Entry, listed: bool, at: nat,
                 rd: Entry, rdEnd: nat, kernelEnd: nat)
    requires MapInv(m0, m, es, c, start, listed, at, rd, rdEnd, kernelEnd)
    requires start % PG_SIZE == 0 && size % PG_SIZE == 0 && FirstRun(m, c / PG_SIZE, start / PG_SIZE, size / PG_SIZE)
    requires PageAligned(e) && e.size > 0 && e.addr + e.size <= start + size
    requires e.addr >= start || (c == 0 && start < LINUX_ENTRY && start >= 2 * PG_SIZE && e.addr == start - 2 * PG_SIZE)
    ensures RamEntry(m0, e)
  {
    var b := start / PG_SIZE;
    forall f: nat | Covers(e, f) ensures Given(m0, f) {
      if f >= b {
        assert FreeAt(m, f);
        AheadUntouched(m0, m, es, c, start, listed, at, rd, rdEnd, kernelEnd, f);
      } else {
        assert f + 1 == b || f + 2 == b;
        FirstRunFirst(m0, m, es, c, start, listed, at, rd, rdEnd, kernelEnd, b);
      }
    }
  }

  lemma FirstRunFirst(m0: Table, m: Table, es: seq<Entry>, c: nat, lo: nat, listed: bool, at: nat,
                      rd: Entry, rdEnd: nat, kernelEnd: nat, b: nat)
    requires MapInv(m0, m, es, c, lo, listed, at, rd, rdEnd, kernelEnd) && c == 0 && FreeAt(m, b) && NoneFree(m, 0, b)
    ensures FirstFree(m0, b)
  {
    forall f: nat ensures FreeAt(m, f) <==> FreeAt(m0, f) {
      AheadUntouched(m0, m, es, c, lo, listed, at, rd, rdEnd, kernelEnd, f);
    }
  }

  /** Below the Linux entry point no run starts before the third frame. */
  lemma LowStart(m0: Table, rd: Entry, f: nat)
    requires LowFrames(m0, rd) && FreeAt(m0, f) && f * PG_SIZE < LINUX_ENTRY
    ensures f >= 2
  {
    if f < 2 {
      assert FirstFree(m0, if FreeAt(m0, 0) then 0 else f);
    }
  }

  /** The entry for a run that starts at or after rdEnd does not lie before the ramdisk. */
  lemma PastRamdisk(m0: Table, first: bool, start: nat, size: nat, rd: Entry, rdEnd: nat, kernelEnd: nat)
    requires InOrder(rd, rdEnd, kernelEnd) && rd.size > 0 && RamdiskTaken(m0, rd) && LowFrames(m0, rd)
    requires rdEnd <= start && start % PG_SIZE == 0 && FreeAt(m0, start / PG_SIZE) && LINUX_ENTRY <= kernelEnd
    requires first && start < kernelEnd && start < LINUX_ENTRY ==> start >= 2 * PG_SIZE
    ensures var (emit, a, s) := Clip(first, start, size, kernelEnd); emit ==> rd.addr <= a
  {
    if start >= kernelEnd {
      RoundingUp(start);
      CeilingBelow(Later(rdEnd, kernelEnd), Ceiling(start));
    } else if start < LINUX_ENTRY {
      LowStart(m0, rd, start / PG_SIZE);
      PageCeilingBelow(Later(rdEnd, 2 * PG_SIZE), start);
      assert !Covers(rd, start / PG_SIZE);
      LargeSize(rd);
    }
  }

  lemma LargeSize(rd: Entry)
    requires rd.size % LARGE == 0 && rd.size > 0
    ensures rd.size >= LARGE
  {
  }

  lemma PageCeilingBelow(x: nat, y: nat)
    requires x <= y && y % PG_SIZE == 0
    ensures PageCeiling(x) <= y
  {
    assert y == y / PG_SIZE * PG_SIZE;
    assert (x + PG_SIZE - 1) / PG_SIZE <= y / PG_SIZE;
  }

  /** A skipped run only moves the cursor. */
  lemma SkipRun(m0: Table, m: Table, es: seq<Entry>, c: nat, start: nat, c': nat, listed: bool, at: nat,
                rd: Entry, rdEnd: nat, kernelEnd: nat)
    requires MapInv(m0, m, es, c, start, listed, at, rd, rdEnd, kernelEnd) && c <= start < c' && c' % PG_SIZE == 0
    requires !listed && rd.size > 0 ==> c' <= rd.addr
    requires c == 0 ==> start % PG_SIZE == 0 && FirstFree(m0, start / PG_SIZE) && start >= LINUX_ENTRY
    ensures MapInv(m0, m, es, c', c', listed, at, rd, rdEnd, kernelEnd)
  {
  }

  lemma RaiseLow(m0: Table, m: Table, es: seq<Entry>, c: nat, lo: nat, lo': nat, listed: bool, at: nat,
                 rd: Entry, rdEnd: nat, kernelEnd: nat)
    requires MapInv(m0, m, es, c, lo, listed, at, rd, rdEnd, kernelEnd) && lo <= lo'
    ensures MapInv(m0, m, es, c, lo', listed, at, rd, rdEnd, kernelEnd)
  {
  }

  /** Rounding up cannot pass a large-page boundary. */
  lemma CeilingBelow(x: nat, y: nat)
    requires x <= y && y % LARGE == 0
    ensures Ceiling(x) <= y
  {
    var q := (x + LARGE - 1) / LARGE;
    assert y == y / LARGE * LARGE;
    assert q <= y / LARGE;
  }

  /** A free run that starts below the ramdisk's end lies wholly before the ramdisk. */
  lemma RunBeforeRamdisk(m0: Table, b: nat, n: nat, rd: Entry)
    requires RamdiskTaken(m0, rd) && rd.size > 0 && AllFree(m0, b, n) && n > 0 && b * PG_SIZE < rd.addr + rd.size
    ensures (b + n) * PG_SIZE <= rd.addr
  {
    LargeIsPage(rd.addr);
    var r := PageAt(rd.addr);
    assert FreeAt(m0, b) && !Covers(rd, b);
    assert Covers(rd, r);
    assert !FreeAt(m0, r);
  }

  /** Before the ramdisk is listed, an entry past the kernel still starts below the ramdisk's end: rounding a
      free start up to a large page cannot pass the large-page-aligned ramdisk. */
  lemma ClippedBelow(first: bool, start: nat, size: nat, kernelEnd: nat, y: nat)
    requires first && start < kernelEnd && start < LINUX_ENTRY ==> start >= 2 * PG_SIZE
    requires start + size <= y && y % LARGE == 0
    ensures var (_, a, s) := Clip(first, start, size, kernelEnd); a + s <= y
  {
    CeilingBelow(start, y);
    if start >= kernelEnd && Ceiling(start) - start < size {
      RoundingDown(size - (Ceiling(start) - start));
    }
  }

  // ----- which frames the turns take -----

  lemma FloorPages(n: nat)
    ensures Floor(n * PG_SIZE) == n / 512 * 512 * PG_SIZE
  {
    assert n * PG_SIZE / LARGE == n / 512;
  }

  lemma CeilingPages(b: nat) returns (a: nat)
    ensures Ceiling(b * PG_SIZE) == a * PG_SIZE && b <= a < b + 512 && a % 512 == 0
  {
    a := (b + 511) / 512 * 512;
    assert (b * PG_SIZE + LARGE - 1) / LARGE == (b + 511) / 512;
  }

  /** One turn settles everything up to the new cursor. */
  lemma SettleTurn(m0: Table, m: Table, m': Table, c: nat, b: nat, n: nat, kernelEnd: nat) returns (c': nat)
    requires Settled(m0, m, c, kernelEnd) && Turn(m0, m, c, b, n, kernelEnd)
    requires c == 0 && b * PG_SIZE < LINUX_ENTRY ==> b >= 2
    requires var (emit, a, s) := Clip(c == 0, b * PG_SIZE, n * PG_SIZE, kernelEnd);
             forall f: nat :: FreeAt(m', f) <==> FreeAt(m, f) && !(emit && Covers(Entry(a, s), f))
    ensures var (_, a, s) := Clip(c == 0, b * PG_SIZE, n * PG_SIZE, kernelEnd);
            NextCursor(m0, m', a + s, c', kernelEnd)
  {
    var (emit, a, s) := Clip(c == 0, b * PG_SIZE, n * PG_SIZE, kernelEnd);
    if b * PG_SIZE >= kernelEnd {
      c' := SettlePastTurn(m0, m, m', c, b, n, kernelEnd);
    } else if b * PG_SIZE >= LINUX_ENTRY {
      SettleKernel(m0, m, c, b, n, kernelEnd);
      c' := b + n;
      SettledSame(m0, m, m', c', kernelEnd);
    } else {
      SettleBelow(m0, m, m', c, b, n, if c == 0 then b - 2 else b, kernelEnd);
      c' := b + n;
    }
  }

  ghost predicate NextCursor(m0: Table, m: Table, bytes: nat, c: nat, kernelEnd: nat) {
    bytes == c * PG_SIZE && Settled(m0, m, c, kernelEnd) && Cursor(m0, c, kernelEnd)
  }

  lemma SettledSame(m0: Table, m: Table, m': Table, c: nat, kernelEnd: nat)
    requires Settled(m0, m, c, kernelEnd) && forall f: nat :: FreeAt(m', f) <==> FreeAt(m, f)
    ensures Settled(m0, m', c, kernelEnd)
  {
  }

  lemma SettlePastTurn(m0: Table, m: Table, m': Table, c: nat, b: nat, n: nat, kernelEnd: nat) returns (c': nat)
    requires Settled(m0, m, c, kernelEnd) && Turn(m0, m, c, b, n, kernelEnd) && b * PG_SIZE >= kernelEnd
    requires var (emit, a, s) := Clip(c == 0, b * PG_SIZE, n * PG_SIZE, kernelEnd);
             forall f: nat :: FreeAt(m', f) <==> FreeAt(m, f) && !(emit && Covers(Entry(a, s), f))
    ensures var (_, a, s) := Clip(c == 0, b * PG_SIZE, n * PG_SIZE, kernelEnd);
            NextCursor(m0, m', a + s, c', kernelEnd)
  {
    var a := CeilingPages(b);
    var s := 0;
    c' := a;
    if a < b + n {
      FloorPages(b + n - a);
      s := (b + n - a) / 512 * 512;
      c' := if s > 0 then a + s else b + n;
    }
    SettlePast(m0, m, m', c, b, n, a, s, c', kernelEnd);
  }

  /** The turn that MapRun makes. */
  lemma TurnSettled(m0: Table, m: Table, m': Table, es: seq<Entry>, c: nat, start: nat, size: nat, listed: bool, at: nat,
                    rd: Entry, rdEnd: nat, kernelEnd: nat, emit: bool, a: nat, s: nat)
    requires MapInv(m0, m, es, c, start, listed, at, rd, rdEnd, kernelEnd) && LINUX_ENTRY <= kernelEnd
    requires start % PG_SIZE == 0 && size % PG_SIZE == 0 && FirstRun(m, c / PG_SIZE, start / PG_SIZE, size / PG_SIZE)
    requires NextCursor(m0, m, c, c / PG_SIZE, kernelEnd)
    requires c == 0 && start < kernelEnd && start < LINUX_ENTRY ==> start >= 2 * PG_SIZE
    requires Clip(c == 0, start, size, kernelEnd) == (emit, a, s) && (emit ==> PageAligned(Entry(a, s)))
    requires forall f: nat :: FreeAt(m', f) <==> FreeAt(m, f) && !(emit && Touches(f, a, s))
    ensures NextCursor(m0, m', a + s, (a + s) / PG_SIZE, kernelEnd)
  {
    forall f: nat | c / PG_SIZE <= f ensures FreeAt(m, f) <==> FreeAt(m0, f) {
      AheadUntouched(m0, m, es, c, start, listed, at, rd, rdEnd, kernelEnd, f);
    }
    assert start == PageAt(start) * PG_SIZE && size == PageAt(size) * PG_SIZE;
    forall f: nat ensures FreeAt(m', f) <==> FreeAt(m, f) && !(emit && Covers(Entry(a, s), f)) {
      if emit { TouchesCovers(Entry(a, s), f); }
    }
    var c' := SettleTurn(m0, m, m', c / PG_SIZE, start / PG_SIZE, size / PG_SIZE, kernelEnd);
    PageQuotient(a + s, c', 0);
  }

  /** A run lies behind the cursor and below the limit. */
  lemma RunPlace(c: nat, start: nat, size: nat, limit: nat)
    requires c % PG_SIZE == 0 && start % PG_SIZE == 0 && size % PG_SIZE == 0
    requires c / PG_SIZE <= start / PG_SIZE && start / PG_SIZE + size / PG_SIZE <= limit
    ensures c <= start && start + size <= limit * PG_SIZE
  {
  }

  /** What a run allows: its clipped part is well shaped and stays before a ramdisk that is not listed yet. */
  lemma RunReady(m0: Table, m: Table, es: seq<Entry>, c: nat, start: nat, size: nat, listed: bool, at: nat,
                 rd: Entry, rdEnd: nat, kernelEnd: nat)
    requires MapInv(m0, m, es, c, start, listed, at, rd, rdEnd, kernelEnd) && (!listed ==> start < rdEnd) && size > 0
    requires LINUX_ENTRY <= kernelEnd
    requires start % PG_SIZE == 0 && size % PG_SIZE == 0 && FirstRun(m, c / PG_SIZE, start / PG_SIZE, size / PG_SIZE)
    ensures c == 0 && start < kernelEnd && start < LINUX_ENTRY ==> start >= 2 * PG_SIZE
    ensures var (emit, a, s) := Clip(c == 0, start, size, kernelEnd);
            && a + s > start && (a + s) % PG_SIZE == 0 && a + s <= start + size + LARGE
            && (emit ==>
                  && s > 0 && PageAligned(Entry(a, s)) && a + s <= start + size && Shaped(Entry(a, s), kernelEnd)
                  && (a >= start || (c == 0 && start < LINUX_ENTRY && a == start - 2 * PG_SIZE)))
            && (!listed && rd.size > 0 ==> a + s <= rd.addr)
            && (listed && rd.size > 0 && InOrder(rd, rdEnd, kernelEnd) && emit ==> rd.addr <= a)
            && (c == 0 && start < LINUX_ENTRY ==> emit && start >= 2 * PG_SIZE && a == start - 2 * PG_SIZE)
    ensures c == 0 ==> FirstFree(m0, start / PG_SIZE)
  {
    assert FreeAt(m, start / PG_SIZE);
    forall f: nat | start / PG_SIZE <= f < start / PG_SIZE + size / PG_SIZE ensures FreeAt(m0, f) {
      AheadUntouched(m0, m, es, c, start, listed, at, rd, rdEnd, kernelEnd, f);
    }
    if c == 0 { FirstRunFirst(m0, m, es, c, start, listed, at, rd, rdEnd, kernelEnd, start / PG_SIZE); }
    ClipBounds(c == 0, start, size, kernelEnd);
    if !listed && rd.size > 0 {
      RunBeforeRamdisk(m0, start / PG_SIZE, size / PG_SIZE, rd);
      ClippedBelow(c == 0, start, size, kernelEnd, rd.addr);
    }
    if listed && rd.size > 0 && InOrder(rd, rdEnd, kernelEnd) {
      PastRamdisk(m0, c == 0, start, size, rd, rdEnd, kernelEnd);
    }
  }

  /** Of the free frames exactly the kept ones are listed. */
  ghost predicate GivenExactly(m0: Table, es: seq<Entry>, kernelEnd: nat) {
    forall f: nat :: FreeAt(m0, f) ==> (Covered(es, f) <==> Kept(m0, f, kernelEnd))
  }

  /** A kept frame lies before the ramdisk, and no free one lies below rdEnd. */
  ghost predicate Early(m0: Table, rd: Entry, rdEnd: nat, kernelEnd: nat) {
    && rd.size > 0 && !FreeBelow(m0, rdEnd)
    && exists f: nat :: FreeAt(m0, f) && f * PG_SIZE < rd.addr && Kept(m0, f, kernelEnd)
  }

  /** What the loop's exit means. */
  lemma Finish(m0: Table, m: Table, es: seq<Entry>, c: nat, listed: bool, at: nat, rd: Entry, rdEnd: nat, kernelEnd: nat,
               limit: nat)
    requires MapInv(m0, m, es, c, c + rd.addr + rd.size, listed, at, rd, rdEnd, kernelEnd) && NextCursor(m0, m, c, c / PG_SIZE, kernelEnd)
    requires NoneFree(m, c / PG_SIZE, limit) && forall f: nat :: limit <= f ==> !FreeAt(m, f)
    ensures GivenExactly(m0, es, kernelEnd)
    ensures !listed && rd.size > 0 && rd.addr <= rdEnd ==> NoneFreeFrom(m0, rdEnd)
    ensures Early(m0, rd, rdEnd, kernelEnd) ==> !Sorted(es)
    ensures LowListed(m0, es)
  {
    if c == 0 {
      forall f: nat ensures !FreeAt(m0, f) {
        AheadUntouched(m0, m, es, c, c + rd.addr + rd.size, listed, at, rd, rdEnd, kernelEnd, f);
      }
    }
    AllSettled(m0, m, es, c, c + rd.addr + rd.size, listed, at, rd, rdEnd, kernelEnd, limit);
    if !listed && rd.size > 0 && rd.addr <= rdEnd {
      forall f: nat | rdEnd <= f * PG_SIZE ensures !FreeAt(m0, f) {
        AheadUntouched(m0, m, es, c, c + rd.addr + rd.size, listed, at, rd, rdEnd, kernelEnd, f);
      }
    }
    if Early(m0, rd, rdEnd, kernelEnd) {
      EarlyFirst(m0, m, es, c, c + rd.addr + rd.size, listed, at, rd, rdEnd, kernelEnd);
    }
  }

  /** Then the ramdisk is listed first, before an entry that lies before it. */
  lemma EarlyFirst(m0: Table, m: Table, es: seq<Entry>, c: nat, lo: nat, listed: bool, at: nat, rd: Entry, rdEnd: nat, kernelEnd: nat)
    requires MapInv(m0, m, es, c, lo, listed, at, rd, rdEnd, kernelEnd)
    requires GivenExactly(m0, es, kernelEnd) && Early(m0, rd, rdEnd, kernelEnd)
    ensures !Sorted(es)
  {
    var f: nat :| FreeAt(m0, f) && f * PG_SIZE < rd.addr && Kept(m0, f, kernelEnd);
    assert Covered(es, f);
    var i :| 0 <= i < |es| && Covers(es[i], f);
    assert listed && at == 0 && es[0] == rd;
    assert !Covers(rd, f);
    assert i > 0 && !Before(es[0], es[i]);
  }

  ghost predicate NoneFreeFrom(m: Table, bytes: nat) { forall f: nat :: bytes <= f * PG_SIZE ==> !FreeAt(m, f) }

  /** When nothing free is left ahead, exactly the kept frames are listed. */
  lemma AllSettled(m0: Table, m: Table, es: seq<Entry>, c: nat, lo: nat, listed: bool, at: nat, rd: Entry, rdEnd: nat,
          kernelEnd: nat, limit: nat)
    requires MapInv(m0, m, es, c, lo, listed, at, rd, rdEnd, kernelEnd) && NextCursor(m0, m, c, c / PG_SIZE, kernelEnd)
    requires NoneFree(m, c / PG_SIZE, limit) && forall f: nat :: limit <= f ==> !FreeAt(m, f)
    ensures GivenExactly(m0, es, kernelEnd)
  {
    forall f: nat | FreeAt(m0, f) ensures Covered(es, f) <==> Kept(m0, f, kernelEnd) {
      if f >= c / PG_SIZE {
        AheadUntouched(m0, m, es, c, lo, listed, at, rd, rdEnd, kernelEnd, f);
        assert false;
      }
    }
  }

  /** virt_setup_e820.  listed says whether the ramdisk has been listed, and at where. */
  method SetupE820(pm: PhysicalMemory, image: nat, ramdiskSize: nat, kernelSize: nat)
      returns (table: seq<Entry>, listed: bool, at: nat)
    requires pm.Valid() && pm.entryEnd < pm.table.Length && image < WORD32 && ramdiskSize < WORD32
    requires RamdiskTaken(pm.table[..], Entry(image, Ceiling(ramdiskSize))) && LowFrames(pm.table[..], Entry(image, Ceiling(ramdiskSize)))
    modifies pm.table
    ensures pm.Valid() && pm.limit == old(pm.limit) && pm.owned == old(pm.owned)
    ensures RamSorted(table, listed, at) && Accounted(old(pm.table[..]), pm.table[..], table)
    ensures InOrder(Entry(image, Ceiling(ramdiskSize)), RamdiskEnd(image, ramdiskSize), LINUX_ENTRY + kernelSize) ==> Sorted(table)
    ensures Early(old(pm.table[..]), Entry(image, Ceiling(ramdiskSize)), RamdiskEnd(image, ramdiskSize), LINUX_ENTRY + kernelSize) ==>
              !Sorted(table)
    ensures forall i: nat :: Ram(table, listed, at, i) ==>
              RamEntry(old(pm.table[..]), table[i]) && Shaped(table[i], LINUX_ENTRY + kernelSize)
    ensures GivenExactly(old(pm.table[..]), table, LINUX_ENTRY + kernelSize) && LowListed(old(pm.table[..]), table)
    ensures listed ==> at < |table| && table[at] == Entry(image, Ceiling(ramdiskSize))
    ensures !listed && ramdiskSize > 0 && image + ramdiskSize < WORD32 ==> NoneFreeFrom(old(pm.table[..]), image + ramdiskSize)
    ensures ramdiskSize > 0 && image + ramdiskSize <= pm.limit * PG_SIZE ==> listed
  {
    EndBounds(image, ramdiskSize);
    table, listed, at := ListAll(pm, Entry(image, Ceiling(ramdiskSize)), RamdiskEnd(image, ramdiskSize), LINUX_ENTRY + kernelSize);
  }

  /** The loop of virt_setup_e820, for a ramdisk that is listed when the search is past rdEnd. */
  method ListAll(pm: PhysicalMemory, rd: Entry, rdEnd: nat, kernelEnd: nat) returns (table: seq<Entry>, listed: bool, at: nat)
    requires pm.Valid() && pm.entryEnd < pm.table.Length && LINUX_ENTRY <= kernelEnd
    requires RamdiskTaken(pm.table[..], rd) && LowFrames(pm.table[..], rd) && rdEnd <= rd.addr + rd.size
    modifies pm.table
    ensures pm.Valid() && pm.limit == old(pm.limit) && pm.owned == old(pm.owned)
    ensures RamSorted(table, listed, at) && Accounted(old(pm.table[..]), pm.table[..], table)
    ensures InOrder(rd, rdEnd, kernelEnd) ==> Sorted(table)
    ensures Early(old(pm.table[..]), rd, rdEnd, kernelEnd) ==> !Sorted(table)
    ensures forall i: nat :: Ram(table, listed, at, i) ==> RamEntry(old(pm.table[..]), table[i]) && Shaped(table[i], kernelEnd)
    ensures GivenExactly(old(pm.table[..]), table, kernelEnd) && LowListed(old(pm.table[..]), table)
    ensures listed ==> at < |table| && table[at] == rd
    ensures !listed && rd.size > 0 && rd.addr <= rdEnd ==> NoneFreeFrom(old(pm.table[..]), rdEnd)
    ensures rd.size > 0 && Later(rd.addr + 1, rdEnd) <= pm.limit * PG_SIZE ==> listed
  {
    ghost var m0 := pm.table[..];
    StartInv(m0, rd, rdEnd, kernelEnd);
    var mmapStart, mmapSize := 0, 0;
    table, listed, at := [], false, 0;
    while true
      invariant pm.Valid() && pm.limit == old(pm.limit) && pm.entryEnd == old(pm.entryEnd) && pm.owned == old(pm.owned)
      invariant 0 <= mmapStart && 0 <= mmapSize && mmapStart + mmapSize <= pm.limit * PG_SIZE + LARGE
      invariant MapInv(m0, pm.table[..], table, mmapStart + mmapSize, mmapStart + mmapSize, listed, at, rd, rdEnd, kernelEnd)
      invariant NextCursor(m0, pm.table[..], mmapStart + mmapSize, (mmapStart + mmapSize) / PG_SIZE, kernelEnd)
      decreases pm.limit * PG_SIZE + LARGE - mmapStart - mmapSize
    {
      var startPaddr := mmapStart + mmapSize;
      var overrun;
      mmapStart, mmapSize, overrun := pm.NextFreeRange(startPaddr, mmapStart);
      table, listed, at := MergeRamdisk(pm.table[..], m0, table, startPaddr, mmapStart, mmapSize, listed, at, rd, rdEnd, kernelEnd);
      if mmapSize == 0 {
        Finish(m0, pm.table[..], table, startPaddr, listed, at, rd, rdEnd, kernelEnd, pm.limit);
        ExitStart(startPaddr, mmapStart, Later(rd.addr + 1, rdEnd), pm.limit, pm.entryEnd);
        break;
      }
      table, mmapStart, mmapSize := MapRun(pm, m0, table, startPaddr, mmapStart, mmapSize, listed, at, rd, rdEnd, kernelEnd);
    }
  }

  lemma StartInv(m0: Table, rd: Entry, rdEnd: nat, kernelEnd: nat)
    requires RamdiskTaken(m0, rd) && LowFrames(m0, rd) && rdEnd <= rd.addr + rd.size
    ensures MapInv(m0, m0, [], 0, 0, false, 0, rd, rdEnd, kernelEnd) && NextCursor(m0, m0, 0, 0, kernelEnd)
  {
  }

  lemma EndBounds(image: nat, ramdiskSize: nat)
    requires image < WORD32 && ramdiskSize < WORD32
    ensures RamdiskEnd(image, ramdiskSize) == if image + ramdiskSize < WORD32 then image + ramdiskSize else image + ramdiskSize - WORD32
    ensures RamdiskEnd(image, ramdiskSize) <= image + Ceiling(ramdiskSize) && (Ceiling(ramdiskSize) == 0 <==> ramdiskSize == 0)
  {
    RoundingUp(ramdiskSize);
  }

  /** A search that finds nothing below the ramdisk's end reports a start past the limit. */
  lemma ExitStart(c: nat, start: nat, end: nat, limit: nat, entryEnd: nat)
    requires entryEnd == (limit + 63) / 64 && (c / PG_SIZE / 64 < entryEnd ==> start == 64 * (entryEnd + 1) * PG_SIZE)
    ensures c < end <= limit * PG_SIZE ==> start >= end
  {
    if c < end <= limit * PG_SIZE {
      assert c / PG_SIZE < limit;
    }
  }

  /** The first half of a turn: list the ramdisk once the search has passed it. */
  method MergeRamdisk(ghost m: Table, ghost m0: Table, es: seq<Entry>, ghost c: nat, start: nat, size: nat, merged: bool, place: nat,
                      rd: Entry, rdEnd: nat, ghost kernelEnd: nat)
      returns (table: seq<Entry>, listed: bool, at: nat)
    requires MapInv(m0, m, es, c, c, merged, place, rd, rdEnd, kernelEnd)
    requires size > 0 ==> start % PG_SIZE == 0 && size % PG_SIZE == 0 && FirstRun(m, c / PG_SIZE, start / PG_SIZE, size / PG_SIZE)
    ensures MapInv(m0, m, table, c, if size > 0 then start else c + rd.addr + rd.size, listed, at, rd, rdEnd, kernelEnd)
    ensures !listed ==> start < rdEnd && !merged
  {
    table, listed, at := es, merged, place;
    ghost var lo := if size > 0 then start else c + rd.addr + rd.size;
    RaiseLow(m0, m, es, c, c, lo, listed, at, rd, rdEnd, kernelEnd);
    if start >= rdEnd && !merged {
      ListRamdisk(m0, m, es, c, lo, at, rd, rdEnd, kernelEnd);
      table, listed, at := es + [rd], true, |es|;
    }
  }

  /** The second half: clip the run, list and take what is left of it. */
  method MapRun(pm: PhysicalMemory, ghost m0: Table, es: seq<Entry>, c: nat, start: nat, size: nat, ghost listed: bool, ghost at: nat,
                ghost rd: Entry, ghost rdEnd: nat, kernelEnd: nat)
      returns (table: seq<Entry>, mmapStart: nat, mmapSize: nat)
    requires pm.Valid() && pm.entryEnd < pm.table.Length && size > 0
    requires MapInv(m0, pm.table[..], es, c, start, listed, at, rd, rdEnd, kernelEnd) && (!listed ==> start < rdEnd)
    requires start % PG_SIZE == 0 && size % PG_SIZE == 0 && start / PG_SIZE + size / PG_SIZE <= pm.limit
    requires FirstRun(pm.table[..], c / PG_SIZE, start / PG_SIZE, size / PG_SIZE)
    requires NextCursor(m0, pm.table[..], c, c / PG_SIZE, kernelEnd) && LINUX_ENTRY <= kernelEnd
    modifies pm.table
    ensures pm.Valid() && c < mmapStart + mmapSize <= pm.limit * PG_SIZE + LARGE
    ensures MapInv(m0, pm.table[..], table, mmapStart + mmapSize, mmapStart + mmapSize, listed, at, rd, rdEnd, kernelEnd)
    ensures NextCursor(m0, pm.table[..], mmapStart + mmapSize, (mmapStart + mmapSize) / PG_SIZE, kernelEnd)
  {
    ghost var m := pm.table[..];
    RunReady(m0, m, es, c, start, size, listed, at, rd, rdEnd, kernelEnd);
    RunPlace(c, start, size, pm.limit);
    var (emit, a, s) := Clip(c == 0, start, size, kernelEnd);
    table, mmapStart, mmapSize := es, a, s;
    if emit {
      table := es + [Entry(a, s)];
      pm.TakeRange(a, s);
      ListRun(m0, m, pm.table[..], es, c, start, size, Entry(a, s), listed, at, rd, rdEnd, kernelEnd);
    } else {
      SkipRun(m0, m, es, c, start, a + s, listed, at, rd, rdEnd, kernelEnd);
    }
    TurnSettled(m0, m, pm.table[..], es, c, start, size, listed, at, rd, rdEnd, kernelEnd, emit, a, s);
  }
}
