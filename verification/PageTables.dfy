/** arch/x86_64/mm/vm.c: page tables that the kernel reaches through the PML4's own slot. */
module PageTables {
  import opened Powers
  import opened Bits
  import opened Bitmap
  import opened Options
  import opened Paging
  import opened FrameSets
  import opened Physical

  /** Physical memory as far as it holds tables: each frame's 512 entries. */
  type Memory = map<nat, seq<Word64>>

  const ENTRIES: nat := 512
  const FRAME_MASK: Word64 := 0x000FFFFFFFFFF000
  const FRAMES: nat := 0x100_0000_0000      // frames below 2^52

  predicate Present(e: Word64) { Bit(e, 0) }

  /** Bit 7: a large page in a PDPT or PDT entry, reserved in a PML4 entry. */
  predicate Large(e: Word64) { Bit(e, 7) }

  /** The frame an entry points to: address bits 12 to 51. */
  function FrameOf(e: Word64): nat { Shr(And(e, FRAME_MASK), 12) }

  predicate IsTable(m: Memory, t: nat) { t in m && |m[t]| == ENTRIES }

  /** The table that entry i of table t leads to. */
  function Next(m: Memory, t: nat, i: nat): Option<nat> {
    if IsTable(m, t) && i < ENTRIES && Present(m[t][i]) && !Large(m[t][i]) then Some(FrameOf(m[t][i])) else None
  }

  /** The table reached from the root by a path of indices. */
  function Node(m: Memory, root: nat, p: seq<nat>): Option<nat> {
    if p == [] then Some(root)
    else
      var k := |p| - 1;
      var t := Node(m, root, p[..k]);
      if t.None? then None else Next(m, t.value, p[k])
  }

  /** The first n indices of an address. */
  function Path(v: Word64, n: nat): seq<nat>
    requires n <= 4
  {
    seq(n, l requires 0 <= l < n => Index(v, l))
  }

  /** The present page-table entry that maps v. */
  function Pte(m: Memory, root: nat, v: Word64): Option<Word64> {
    var t := Node(m, root, Path(v, 3));
    if t.Some? && IsTable(m, t.value) && Index(v, 3) < ENTRIES && Present(m[t.value][Index(v, 3)])
    then Some(m[t.value][Index(v, 3)]) else None
  }

  /** The present entry that the walk of v uses at a level. */
  function EntryAt(m: Memory, root: nat, v: Word64, level: nat): Option<Word64>
    requires level < 4
  {
    var t := Node(m, root, Path(v, level));
    if t.Some? && IsTable(m, t.value) && Index(v, level) < ENTRIES && Present(m[t.value][Index(v, level)])
    then Some(m[t.value][Index(v, level)]) else None
  }

  datatype Leaf = Leaf(level: nat, entry: Word64)

  /** What maps v: the first large page on its walk, or its page-table entry. */
  function LeafOf(m: Memory, root: nat, v: Word64): Option<Leaf> { LeafFrom(m, root, v, 0) }

  function LeafFrom(m: Memory, root: nat, v: Word64, level: nat): Option<Leaf>
    requires level < 4
    decreases 4 - level
  {
    var e := EntryAt(m, root, v, level);
    if e.None? then None
    else if level == 3 || Large(e.value) then Some(Leaf(level, e.value))
    else LeafFrom(m, root, v, level + 1)
  }

  /** v lies in a large page. */
  predicate OverLarge(m: Memory, root: nat, v: Word64) {
    var f := LeafOf(m, root, v); f.Some? && f.value.level < 3
  }

  /** No address outside the self-map slot is mapped differently, by a page or by a large page. */
  ghost predicate SameLeaves(m: Memory, m': Memory, root: nat) {
    forall u: Word64 :: Index(u, 0) != SELF ==> LeafOf(m', root, u) == LeafOf(m, root, u)
  }

  predicate SelfMapped(m: Memory, root: nat) { Next(m, root, SELF) == Some(root) }

  /** Bits 0 and 1, present and writable, and a frame address. */
  predicate TableFlags(e: Word64) {
    Bit(e, 0) && Bit(e, 1) && forall j: nat :: j < 64 && Bit(e, j) ==> j <= 1 || 12 <= j < 52
  }

  /** Above the pages, every entry used by a walk is as it was, or is new and points to a writable table. */
  ghost predicate NewTables(m: Memory, m': Memory, root: nat) {
    forall u: Word64, l: nat :: Index(u, 0) != SELF && l < 3 ==> NewTableAt(m, m', root, u, l)
  }

  predicate NewTableAt(m: Memory, m': Memory, root: nat, u: Word64, l: nat)
    requires l < 3
  {
    || EntryAt(m', root, u, l) == EntryAt(m, root, u, l)
    || (EntryAt(m, root, u, l).None? && EntryAt(m', root, u, l).Some? && TableFlags(EntryAt(m', root, u, l).value))
  }

  /** Only the entries that the walk of v uses have been written. */
  ghost predicate WalkWrites(m: Memory, m': Memory, root: nat, v: Word64) {
    && m'.Keys == m.Keys && (forall g: nat :: g in m ==> |m'[g]| == |m[g]|)
    && forall g: nat, i: nat :: g in m && i < |m[g]| && m'[g][i] != m[g][i] ==> OnSlot(m', root, v, g, i)
  }

  ghost predicate OnSlot(m: Memory, root: nat, v: Word64, g: nat, i: nat) {
    exists l: nat :: l <= 3 && Node(m, root, Path(v, l)) == Some(g) && Index(v, l) == i
  }

  lemma PathStep(v: Word64, n: nat)
    requires 0 < n <= 4
    ensures Path(v, n) == Path(v, n - 1) + [Index(v, n - 1)] && Path(v, n)[..n - 1] == Path(v, n - 1)
  {
  }

  lemma NodeStep(m: Memory, root: nat, p: seq<nat>, i: nat)
    ensures Node(m, root, p + [i]) == if Node(m, root, p).None? then None else Next(m, Node(m, root, p).value, i)
  {
    assert (p + [i])[..|p|] == p;
  }

  /** The walk goes on from every table on it. */
  lemma LeafDown(m: Memory, root: nat, v: Word64, level: nat)
    requires level < 4 && Node(m, root, Path(v, level)).Some?
    ensures LeafOf(m, root, v) == LeafFrom(m, root, v, level)
  {
    if level > 0 {
      PathStep(v, level);
      LeafDown(m, root, v, level - 1);
    }
  }

  /** A page maps v exactly when its page-table entry does. */
  lemma LeafPte(m: Memory, root: nat, v: Word64, e: Word64)
    ensures LeafOf(m, root, v) == Some(Leaf(3, e)) <==> Pte(m, root, v) == Some(e)
  {
    if Pte(m, root, v).Some? {
      LeafDown(m, root, v, 3);
    } else {
      NoPage(m, root, v, 0);
    }
  }

  lemma NoPage(m: Memory, root: nat, v: Word64, level: nat)
    requires level < 4 && Pte(m, root, v).None?
    ensures var f := LeafFrom(m, root, v, level); f.Some? ==> f.value.level < 3
    decreases 4 - level
  {
    if level < 3 { NoPage(m, root, v, level + 1); }
  }

  /** The structure address of v's table at a level takes the self-map slot and then v's own path. */
  lemma StructPath(v: Word64, level: nat, n: nat)
    requires level < 4 && n < 4
    ensures Path(StructVaddr(v, level), n) == if n + level < 4 then seq(n, l => SELF)
                                              else seq(4 - level, l => SELF) + Path(v, n + level - 4)
  {
    forall l: nat | l < n ensures Index(StructVaddr(v, level), l) == if l + level < 4 then SELF else Index(v, l + level - 4) {
      StructIndex(v, level, l);
    }
  }

  lemma {:induction false} SelfPath(m: Memory, root: nat, n: nat)
    requires SelfMapped(m, root)
    ensures Node(m, root, seq(n, l => SELF)) == Some(root)
  {
    if n > 0 {
      SelfPath(m, root, n - 1);
      assert seq(n, l => SELF)[..n - 1] == seq(n - 1, l => SELF);
    }
  }

  /** Looping through the self-map slot first changes nothing. */
  lemma {:induction false} SelfPrefix(m: Memory, root: nat, n: nat, p: seq<nat>)
    requires SelfMapped(m, root)
    ensures Node(m, root, seq(n, l => SELF) + p) == Node(m, root, p)
  {
    var s := seq(n, l => SELF);
    if p == [] {
      SelfPath(m, root, n);
      assert s + p == s;
    } else {
      var k := |p| - 1;
      SelfPrefix(m, root, n, p[..k]);
      assert (s + p)[..|s + p| - 1] == s + p[..k];
    }
  }

  /** The recursive mapping is right: the page that get_paging_struct_vaddr(v, level) names is the very table
      that the walk of v uses at that level. */
  lemma {:induction false} RecursiveMap(m: Memory, root: nat, v: Word64, level: nat)
    requires level < 4 && SelfMapped(m, root) && Node(m, root, Path(v, level)).Some?
    ensures Pte(m, root, StructVaddr(v, level)).Some?
    ensures FrameOf(Pte(m, root, StructVaddr(v, level)).value) == Node(m, root, Path(v, level)).value
  {
    var a := StructVaddr(v, level);
    StructPath(v, level, 3);
    StructIndex(v, level, 3);
    if level == 0 {
      SelfPath(m, root, 3);
    } else {
      PathStep(v, level);
      SelfPrefix(m, root, 4 - level, Path(v, level - 1));
    }
  }

  /** What a structure address reads is the entry that the walk of v uses one level up, whatever that entry is: a large
      page there is taken for a table.  So its page is the next table of the walk if and only if the entry is not large. */
  lemma RecursiveMapExactly(m: Memory, root: nat, v: Word64, level: nat, t: nat)
    requires 0 < level < 4 && SelfMapped(m, root) && Node(m, root, Path(v, level - 1)) == Some(t) && IsTable(m, t)
    ensures Index(v, level - 1) < ENTRIES
    ensures var e := m[t][Index(v, level - 1)];
            && Pte(m, root, StructVaddr(v, level)) == (if Present(e) then Some(e) else None)
            && Node(m, root, Path(v, level)) == if Present(e) && !Large(e) then Some(FrameOf(e)) else None
  {
    var a := StructVaddr(v, level);
    IndexBound(v, level - 1);
    assert Node(m, root, Path(a, 3)) == Some(t) by {
      StructPath(v, level, 3);
      SelfPrefix(m, root, 4 - level, Path(v, level - 1));
    }
    assert Index(a, 3) == Index(v, level - 1) by {
      StructIndex(v, level, 3);
    }
    assert Node(m, root, Path(v, level)) == Next(m, t, Index(v, level - 1)) by {
      PathStep(v, level);
    }
  }

  // ----- the tables form a tree -----

  /** A path of indices that does not start at the self-map slot and stops at a table. */
  predicate UserPath(p: seq<nat>) {
    |p| <= 3 && (forall l :: 0 <= l < |p| ==> p[l] < ENTRIES) && (p != [] ==> p[0] != SELF)
  }

  /** Different paths lead to different tables. */
  lemma DistinctTables(m: Memory, root: nat, p: seq<nat>, q: seq<nat>)
    requires Tree(m, root) && UserPath(p) && UserPath(q) && p != q && Node(m, root, p).Some?
    ensures Node(m, root, q) != Node(m, root, p)
  {
    assert Apart(m, root, p, q);
  }

  /** Every table is reached by one path only, the PML4 included, and is a table. */
  ghost predicate Tree(m: Memory, root: nat) {
    && SelfMapped(m, root)
    && (forall p :: LeadsToTable(m, root, p))
    && (forall p, q :: Apart(m, root, p, q))
  }

  ghost predicate LeadsToTable(m: Memory, root: nat, p: seq<nat>) {
    UserPath(p) && Node(m, root, p).Some? ==> IsTable(m, Node(m, root, p).value)
  }

  ghost predicate Apart(m: Memory, root: nat, p: seq<nat>, q: seq<nat>) {
    UserPath(p) && UserPath(q) && Node(m, root, p).Some? && Node(m, root, p) == Node(m, root, q) ==> p == q
  }

  /** No path leads to frame f. */
  ghost predicate Unused(m: Memory, root: nat, f: nat) {
    forall p :: Misses(m, root, f, p)
  }

  ghost predicate Misses(m: Memory, root: nat, f: nat, p: seq<nat>) {
    UserPath(p) ==> Node(m, root, p) != Some(f)
  }

  function Zeros(): seq<Word64> { seq(ENTRIES, i => 0) }

  function Store(m: Memory, t: nat, i: nat, e: Word64): Memory
    requires t in m && i < |m[t]|
  {
    var updated: seq<Word64> := m[t][i := e];
    m[t := updated]
  }

  lemma PrefixUser(p: seq<nat>)
    requires UserPath(p) && p != []
    ensures UserPath(p[..|p| - 1])
  {
  }

  /** Linking an unused zeroed frame f under path p at slot i. */
  ghost predicate Links(m: Memory, root: nat, p: seq<nat>, i: nat, f: nat, e: Word64) {
    && Tree(m, root) && UserPath(p) && UserPath(p + [i]) && |p| < 3 && Node(m, root, p).Some?
    && IsTable(m, Node(m, root, p).value) && i < ENTRIES && (p == [] ==> i != SELF)
    && !Present(m[Node(m, root, p).value][i])
    && f in m && m[f] == Zeros() && Unused(m, root, f)
    && Present(e) && !Large(e) && FrameOf(e) == f
  }

  lemma ZeroEntry(m: Memory, f: nat, j: nat)
    requires f in m && m[f] == Zeros()
    ensures Next(m, f, j).None?
  {
    ZeroBit(0);
  }

  /** Writing one entry of table t changes what that entry leads to, and nothing else. */
  lemma StoreNext(m: Memory, t: nat, i: nat, e: Word64, s: nat, x: nat)
    requires IsTable(m, t) && i < ENTRIES
    ensures (s, x) != (t, i) ==> Next(Store(m, t, i, e), s, x) == Next(m, s, x)
    ensures Present(e) && !Large(e) ==> Next(Store(m, t, i, e), t, i) == Some(FrameOf(e))
  {
  }

  /** After linking, the new path leads to f and every other path leads where it led before. */
  lemma {:induction false} LinkNodes(m: Memory, root: nat, p: seq<nat>, i: nat, f: nat, e: Word64, q: seq<nat>)
    requires Links(m, root, p, i, f, e) && UserPath(q)
    ensures var m' := Store(m, Node(m, root, p).value, i, e);
            Node(m', root, q) == if q == p + [i] then Some(f) else Node(m, root, q)
  {
    if q == [] {
      assert q != p + [i];
    } else {
      var t := Node(m, root, p).value;
      var m' := Store(m, t, i, e);
      var r, x := q[..|q| - 1], q[|q| - 1];
      PrefixUser(q);
      LinkNodes(m, root, p, i, f, e, r);
      assert q == r + [x];
      NodeStep(m, root, r, x);
      NodeStep(m', root, r, x);
      LinkStep(m, root, p, i, f, e, r, x);
    }
  }

  lemma LinkStep(m: Memory, root: nat, p: seq<nat>, i: nat, f: nat, e: Word64, r: seq<nat>, x: nat)
    requires Links(m, root, p, i, f, e) && UserPath(r)
    ensures var m' := Store(m, Node(m, root, p).value, i, e);
            && (r == p + [i] ==> Next(m', f, x).None? && Node(m, root, r).None?)
            && (r == p && x == i ==> Next(m', Node(m, root, p).value, x) == Some(f) && Node(m, root, r) == Node(m, root, p))
            && (r != p + [i] && !(r == p && x == i) && Node(m, root, r).Some? ==>
                  Next(m', Node(m, root, r).value, x) == Next(m, Node(m, root, r).value, x))
  {
    var t := Node(m, root, p).value;
    assert Misses(m, root, f, p);
    if r == p + [i] {
      NodeStep(m, root, p, i);
      ZeroEntry(m, f, x);
      StoreNext(m, t, i, e, f, x);
    } else if r == p {
      StoreNext(m, t, i, e, t, x);
    } else if Node(m, root, r).Some? {
      DistinctTables(m, root, p, r);
      StoreNext(m, t, i, e, Node(m, root, r).value, x);
    }
  }

  /** Linking keeps the tree and uses up f. */
  lemma LinkTree(m: Memory, root: nat, p: seq<nat>, i: nat, f: nat, e: Word64)
    requires Links(m, root, p, i, f, e)
    ensures Tree(Store(m, Node(m, root, p).value, i, e), root)
  {
    var t := Node(m, root, p).value;
    var m' := Store(m, t, i, e);
    LinkSelf(m, root, p, i, f, e);
    forall q ensures LeadsToTable(m', root, q) {
      if UserPath(q) {
        LinkNodes(m, root, p, i, f, e, q);
        assert LeadsToTable(m, root, q);
      }
    }
    forall q, r ensures Apart(m', root, q, r) {
      if UserPath(q) && UserPath(r) {
        LinkNodes(m, root, p, i, f, e, q);
        LinkNodes(m, root, p, i, f, e, r);
        assert Misses(m, root, f, q) && Misses(m, root, f, r) && Apart(m, root, q, r);
      }
    }
  }

  lemma LinkSelf(m: Memory, root: nat, p: seq<nat>, i: nat, f: nat, e: Word64)
    requires Links(m, root, p, i, f, e)
    ensures SelfMapped(Store(m, Node(m, root, p).value, i, e), root)
  {
    if p != [] {
      DistinctTables(m, root, p, []);
    }
  }

  /** Linking gives every walk through the slot one more entry and changes no other. */
  lemma LinkEntry(m: Memory, root: nat, p: seq<nat>, i: nat, f: nat, e: Word64, u: Word64, level: nat)
    requires Links(m, root, p, i, f, e) && Index(u, 0) != SELF && level < 4
    ensures EntryAt(Store(m, Node(m, root, p).value, i, e), root, u, level)
         == if Path(u, level) == p && Index(u, level) == i then Some(e) else EntryAt(m, root, u, level)
  {
    var q := Path(u, level);
    PathUser(u, level);
    LinkNodes(m, root, p, i, f, e, q);
    assert Misses(m, root, f, p);
    if q == p + [i] {
      NodeStep(m, root, p, i);
      ZeroBit(0);
    } else if q != p {
      DistinctTables(m, root, p, q);
    }
  }

  /** Linking changes no mapping: the new table maps nothing. */
  lemma LinkLeaf(m: Memory, root: nat, p: seq<nat>, i: nat, f: nat, e: Word64, u: Word64, level: nat)
    requires Links(m, root, p, i, f, e) && Index(u, 0) != SELF && level < 4
    ensures LeafFrom(Store(m, Node(m, root, p).value, i, e), root, u, level) == LeafFrom(m, root, u, level)
    decreases 4 - level
  {
    LinkEntry(m, root, p, i, f, e, u, level);
    if level < 3 {
      LinkLeaf(m, root, p, i, f, e, u, level + 1);
      if Path(u, level) == p && Index(u, level) == i {
        PathStep(u, level + 1);
        NodeStep(m, root, p, i);
      }
    }
  }

  /** Writing entry i of the page table at path p, |p| == 3. */
  lemma {:induction false} LeafNodes(m: Memory, root: nat, p: seq<nat>, i: nat, e: Word64, q: seq<nat>)
    requires Tree(m, root) && UserPath(p) && |p| == 3 && Node(m, root, p).Some? && i < ENTRIES && UserPath(q)
    requires IsTable(m, Node(m, root, p).value)
    ensures Node(Store(m, Node(m, root, p).value, i, e), root, q) == Node(m, root, q)
  {
    if q != [] {
      var k := |q| - 1;
      PrefixUser(q);
      LeafNodes(m, root, p, i, e, q[..k]);
      DistinctTables(m, root, p, q[..k]);
    }
  }

  lemma LeafTree(m: Memory, root: nat, p: seq<nat>, i: nat, e: Word64)
    requires Tree(m, root) && UserPath(p) && |p| == 3 && Node(m, root, p).Some? && i < ENTRIES
    requires IsTable(m, Node(m, root, p).value)
    ensures Tree(Store(m, Node(m, root, p).value, i, e), root)
  {
    var m' := Store(m, Node(m, root, p).value, i, e);
    DistinctTables(m, root, p, []);
    forall q ensures LeadsToTable(m', root, q) {
      if UserPath(q) {
        LeafNodes(m, root, p, i, e, q);
        assert LeadsToTable(m, root, q);
      }
    }
    forall q, r ensures Apart(m', root, q, r) {
      if UserPath(q) && UserPath(r) {
        LeafNodes(m, root, p, i, e, q);
        LeafNodes(m, root, p, i, e, r);
        assert Apart(m, root, q, r);
      }
    }
  }

  lemma PageTable(m: Memory, root: nat, v: Word64, level: nat)
    requires Tree(m, root) && level < 4 && Index(v, 0) != SELF && Node(m, root, Path(v, level)).Some?
    ensures UserPath(Path(v, level)) && IsTable(m, Node(m, root, Path(v, level)).value) && Index(v, level) < ENTRIES
  {
    PathUser(v, level);
    IndexBound(v, level);
    assert LeadsToTable(m, root, Path(v, level));
  }

  /** Writing the page-table entry of v changes that entry of every walk through it and no other. */
  lemma WriteEntryAt(m: Memory, root: nat, v: Word64, e: Word64, u: Word64, level: nat)
    requires Tree(m, root) && Index(v, 0) != SELF && Index(u, 0) != SELF && Node(m, root, Path(v, 3)).Some? && level < 4
    requires Index(v, 3) < ENTRIES && IsTable(m, Node(m, root, Path(v, 3)).value)
    ensures EntryAt(Store(m, Node(m, root, Path(v, 3)).value, Index(v, 3), e), root, u, level)
         == if level == 3 && Path(u, 4) == Path(v, 4) then (if Present(e) then Some(e) else None) else EntryAt(m, root, u, level)
  {
    PathUser(u, level);
    PathUser(v, 3);
    LeafNodes(m, root, Path(v, 3), Index(v, 3), e, Path(u, level));
    SamePage(u, v);
    if Path(u, level) != Path(v, 3) {
      DistinctTables(m, root, Path(v, 3), Path(u, level));
    } else {
      assert |Path(u, level)| == level;
    }
  }

  /** What a page-table entry maps. */
  function PageLeaf(e: Word64): Option<Leaf> { if Present(e) then Some(Leaf(3, e)) else None }

  /** The write maps exactly its own page. */
  lemma WriteLeafFrom(m: Memory, root: nat, v: Word64, e: Word64, u: Word64, level: nat)
    requires Tree(m, root) && Index(v, 0) != SELF && Index(u, 0) != SELF && Node(m, root, Path(v, 3)).Some? && level < 4
    requires Index(v, 3) < ENTRIES && IsTable(m, Node(m, root, Path(v, 3)).value)
    ensures Path(u, 4) != Path(v, 4) ==>
              LeafFrom(Store(m, Node(m, root, Path(v, 3)).value, Index(v, 3), e), root, u, level) == LeafFrom(m, root, u, level)
    ensures Path(u, 4) == Path(v, 4) ==>
              LeafFrom(Store(m, Node(m, root, Path(v, 3)).value, Index(v, 3), e), root, u, 3) == PageLeaf(e)
    decreases 4 - level
  {
    WriteEntryAt(m, root, v, e, u, level);
    if level < 3 { WriteLeafFrom(m, root, v, e, u, level + 1); }
  }

  lemma WriteLeafOf(m: Memory, root: nat, v: Word64, e: Word64, u: Word64)
    requires Tree(m, root) && Index(v, 0) != SELF && Index(u, 0) != SELF && Node(m, root, Path(v, 3)).Some?
    requires Index(v, 3) < ENTRIES && IsTable(m, Node(m, root, Path(v, 3)).value)
    ensures LeafOf(Store(m, Node(m, root, Path(v, 3)).value, Index(v, 3), e), root, u)
         == if Path(u, 4) == Path(v, 4) then PageLeaf(e) else LeafOf(m, root, u)
  {
    WriteLeafFrom(m, root, v, e, u, 0);
    if Path(u, 4) == Path(v, 4) {
      SamePage(u, v);
      PathUser(v, 3);
      LeafNodes(m, root, Path(v, 3), Index(v, 3), e, Path(v, 3));
      LeafDown(Store(m, Node(m, root, Path(v, 3)).value, Index(v, 3), e), root, u, 3);
    }
  }

  lemma SamePage(u: Word64, v: Word64)
    ensures Path(u, 4) == Path(v, 4) <==> Path(u, 3) == Path(v, 3) && Index(u, 3) == Index(v, 3)
  {
    PathStep(u, 4);
    PathStep(v, 4);
    if Path(u, 4) == Path(v, 4) {
      assert Index(u, 3) == Path(u, 4)[3] == Path(v, 4)[3] == Index(v, 3);
    }
  }

  // ----- entries -----

  lemma {:induction false} TimesPowBit(f: nat, n: nat, j: nat)
    ensures Bit(Times(f, Pow2(n)), j) <==> j >= n && Bit(f, j - n)
  {
    if n == 0 {
      assert Times(f, 1) == f;
    } else {
      TimesDouble(f, Pow2(n - 1));
      if j > 0 {
        TimesPowBit(f, n - 1, j - 1);
      }
    }
  }

  lemma FrameMaskBit(j: nat)
    requires j < 64
    ensures Bit(FRAME_MASK, j) <==> 12 <= j < 52
  {
    LevelPowers();
    Pow2Of64();
    assert Pow2(1) == 2;
    Pow2Add(39, 1);
    assert Times(Pow2(40) - 1, Pow2(12)) == FRAME_MASK;
    TimesPowBit(Pow2(40) - 1, 12, j);
    if 12 <= j < 52 {
      ComplementBit(0, 40, j - 12);
      ZeroBit(j - 12);
    } else if j >= 52 {
      HighBit(Pow2(40) - 1, 40, j - 12);
    }
  }

  lemma FramesPower()
    ensures Pow2(40) == FRAMES
  {
    LevelPowers();
    assert Pow2(40) == 2 * Pow2(39);
  }

  /** A table entry new | PGT_P | PGT_RW points at its frame, is present and is not large. */
  lemma TableEntry(f: nat)
    requires f < FRAMES
    ensures f * 4096 < W64 && var e := Or64(f * 4096, 3); Present(e) && !Large(e) && FrameOf(e) == f
  {
    LevelPowers();
    Pow2Of64();
    Pow2Add(40, 12);
    Pow2Monotone(52, 63);
    FramesPower();
    TimesLess(f, Pow2(40), 4096);
    assert Times(f, 4096) == f * 4096;
    var e := Or64(f * 4096, 3);
    OrBit(f * 4096, 3, 0);
    OrBit(f * 4096, 3, 7);
    TimesPowBit(f, 12, 7);
    assert Pow2(2) == 4;
    HighBit(3, 2, 7);
    forall j: nat | j < 64 ensures Bit(FrameOf(e), j) <==> Bit(f, j) {
      ShrBit(And(e, FRAME_MASK), 12, j);
      AndBit(e, FRAME_MASK, j + 12);
      OrBit(f * 4096, 3, j + 12);
      TimesPowBit(f, 12, j + 12);
      HighBit(3, 2, j + 12);
      if j + 12 < 64 { FrameMaskBit(j + 12); } else { HighBit(FRAME_MASK, 64, j + 12); }
      if j >= 40 { HighBit(f, 40, j); }
    }
    Pow2Monotone(40, 64);
    SameBits(FrameOf(e), f, 64);
  }

  /** A frame address with bits 0 and 1. */
  lemma TableWord(f: nat)
    requires f < FRAMES
    ensures f * 4096 < W64 && TableFlags(Or64(f * 4096, 3))
  {
    TableEntry(f);
    LevelPowers();
    assert Times(f, 4096) == f * 4096 && Pow2(2) == 4;
    FramesPower();
    forall j: nat | j < 64 ensures Bit(Or64(f * 4096, 3), j) <==> j <= 1 || (j >= 12 && Bit(f, j - 12)) {
      OrBit(f * 4096, 3, j);
      TimesPowBit(f, 12, j);
      if j >= 2 { HighBit(3, 2, j); }
    }
    forall k: nat | 40 <= k ensures !Bit(f, k) {
      HighBit(f, 40, k);
    }
  }

  // ----- the tables that boot leaves -----

  const MARK: Word64 := 0x1000_0000_0000_0000     // bit 60, which boot.S sets in the self-map entry

  function Entry(f: nat): Word64 {
    if f * 4096 < W64 then Or64(f * 4096, 3) else 0
  }

  /** pml4t, pdpt, pdt and the kernel's two page tables follow each other; every other frame is zero. */
  function BootTable(root: nat, kernel: seq<Word64>, g: nat): seq<Word64>
    requires |kernel| == 2 * ENTRIES
  {
    if g == root then Zeros()[0 := Entry(root + 1)][SELF := Or64(Entry(root), MARK)]
    else if g == root + 1 then Zeros()[0 := Entry(root + 2)]
    else if g == root + 2 then Zeros()[0 := 0x83][1 := Entry(root + 3)][2 := Entry(root + 4)]
    else if g == root + 3 then kernel[..ENTRIES]
    else if g == root + 4 then kernel[ENTRIES..]
    else Zeros()
  }

  function BootMemory(root: nat, limit: nat, kernel: seq<Word64>): Memory
    requires |kernel| == 2 * ENTRIES
  {
    map g: nat | g < limit + root + 5 :: BootTable(root, kernel, g)
  }

  /** The entry of a frame, with or without bit 60, leads to that frame. */
  lemma MarkedEntry(f: nat)
    requires f < FRAMES
    ensures f * 4096 < W64 && Present(Entry(f)) && !Large(Entry(f)) && FrameOf(Entry(f)) == f
    ensures var e := Or64(Entry(f), MARK); Present(e) && !Large(e) && FrameOf(e) == f
  {
    TableEntry(f);
    MarkBit(0);
    MarkBit(7);
    OrBit(Entry(f), MARK, 0);
    OrBit(Entry(f), MARK, 7);
    MarkMasked(Entry(f));
  }

  lemma MarkPower()
    ensures Pow2(60) == MARK && MARK < Pow2(61)
  {
    LevelPowers();
    Pow2Add(30, 30);
  }

  lemma MarkBit(j: nat)
    requires j != 60
    ensures !Bit(MARK, j)
  {
    MarkPower();
    if j < 60 {
      PowerBelow(60, j);
    } else {
      HighBit(MARK, 61, j);
    }
  }

  lemma MarkMasked(e: Word64)
    ensures And(Or64(e, MARK), FRAME_MASK) == And(e, FRAME_MASK)
  {
    Pow2Of64();
    var a, b := And(Or64(e, MARK), FRAME_MASK), And(e, FRAME_MASK);
    forall j: nat | j < 64 ensures Bit(a, j) <==> Bit(b, j) {
      AndBit(Or64(e, MARK), FRAME_MASK, j);
      AndBit(e, FRAME_MASK, j);
      OrBit(e, MARK, j);
      FrameMaskBit(j);
      if j != 60 { MarkBit(j); }
    }
    SameBits(a, b, 64);
  }

  /** Which entries of the upper three tables lead on. */
  lemma BootNext(root: nat, limit: nat, kernel: seq<Word64>, t: nat, i: nat)
    requires |kernel| == 2 * ENTRIES && root + 5 <= FRAMES && root <= t < root + 3
    ensures Next(BootMemory(root, limit, kernel), t, i) == BootStep(root, t, i)
  {
    var m := BootMemory(root, limit, kernel);
    assert m[t] == BootTable(root, kernel, t);
    if i < ENTRIES { BootEntry(root, kernel, t, i); }
  }

  /** What one entry of the upper three tables leads to. */
  lemma BootEntry(root: nat, kernel: seq<Word64>, t: nat, i: nat)
    requires |kernel| == 2 * ENTRIES && root + 5 <= FRAMES && root <= t < root + 3 && i < ENTRIES
    ensures var e := BootTable(root, kernel, t)[i];
            (if Present(e) && !Large(e) then Some(FrameOf(e)) else None) == BootStep(root, t, i)
  {
    BootWords(root, kernel, t, i);
    ZeroBit(0);
    if t == root && i == SELF {
      MarkedEntry(root);
    } else if t == root + 2 && i == 0 {
      assert Large(0x83);
    } else if i == 0 || (t == root + 2 && i <= 2) {
      MarkedEntry(if t < root + 2 then t + 1 else t + i);
    }
  }

  /** The entries of the upper three tables. */
  function BootWord(root: nat, t: nat, i: nat): Word64 {
    if t == root && i == SELF then Or64(Entry(root), MARK)
    else if t < root + 2 && i == 0 then Entry(t + 1)
    else if t == root + 2 && i == 0 then 0x83
    else if t == root + 2 && (i == 1 || i == 2) then Entry(t + i)
    else 0
  }

  lemma BootWords(root: nat, kernel: seq<Word64>, t: nat, i: nat)
    requires |kernel| == 2 * ENTRIES && root <= t < root + 3 && i < ENTRIES
    ensures BootTable(root, kernel, t)[i] == BootWord(root, t, i)
  {
  }

  function BootStep(root: nat, t: nat, i: nat): Option<nat> {
    if t == root && i == SELF then Some(root)
    else if t < root + 2 && i == 0 then Some(t + 1)
    else if t == root + 2 && (i == 1 || i == 2) then Some(t + i)
    else None
  }

  /** The five tables and the paths to them. */
  function BootNode(root: nat, p: seq<nat>): Option<nat> {
    if p == [] then Some(root) else if p == [0] then Some(root + 1) else if p == [0, 0] then Some(root + 2)
    else if p == [0, 0, 1] then Some(root + 3) else if p == [0, 0, 2] then Some(root + 4) else None
  }

  lemma BootNodeStep(root: nat, q: seq<nat>, x: nat)
    requires UserPath(q + [x])
    ensures BootNode(root, q).Some? ==> root <= BootNode(root, q).value < root + 3
    ensures BootNode(root, q + [x]) == if BootNode(root, q).None? then None else BootStep(root, BootNode(root, q).value, x)
  {
    var p := q + [x];
    assert p[|q|] == x && p[..|q|] == q;
    if |q| > 0 { assert p[0] == q[0]; }
    if |q| > 1 { assert p[1] == q[1]; }
  }

  lemma {:induction false} BootNodes(root: nat, limit: nat, kernel: seq<Word64>, p: seq<nat>)
    requires |kernel| == 2 * ENTRIES && root + 5 <= FRAMES && UserPath(p)
    ensures Node(BootMemory(root, limit, kernel), root, p) == BootNode(root, p)
    decreases |p|
  {
    if p != [] {
      var q, x := p[..|p| - 1], p[|p| - 1];
      assert p == q + [x];
      PrefixUser(p);
      BootNodes(root, limit, kernel, q);
      NodeStep(BootMemory(root, limit, kernel), root, q, x);
      BootNodeStep(root, q, x);
      if BootNode(root, q).Some? { BootNext(root, limit, kernel, BootNode(root, q).value, x); }
    }
  }

  lemma BootTree(root: nat, limit: nat, kernel: seq<Word64>)
    requires |kernel| == 2 * ENTRIES && root + 5 <= FRAMES
    ensures Tree(BootMemory(root, limit, kernel), root)
  {
    var m := BootMemory(root, limit, kernel);
    BootNext(root, limit, kernel, root, SELF);
    forall p ensures LeadsToTable(m, root, p) {
      BootLeads(root, limit, kernel, p);
    }
    forall p, q ensures Apart(m, root, p, q) {
      BootApart(root, limit, kernel, p, q);
    }
  }

  lemma BootLeads(root: nat, limit: nat, kernel: seq<Word64>, p: seq<nat>)
    requires |kernel| == 2 * ENTRIES && root + 5 <= FRAMES
    ensures LeadsToTable(BootMemory(root, limit, kernel), root, p)
  {
    if UserPath(p) {
      BootNodes(root, limit, kernel, p);
      if BootNode(root, p).Some? { BootTables(root, limit, kernel, p); }
    }
  }

  lemma BootTables(root: nat, limit: nat, kernel: seq<Word64>, p: seq<nat>)
    requires |kernel| == 2 * ENTRIES && BootNode(root, p).Some?
    ensures root <= BootNode(root, p).value < root + 5 && IsTable(BootMemory(root, limit, kernel), BootNode(root, p).value)
  {
  }

  lemma BootApart(root: nat, limit: nat, kernel: seq<Word64>, p: seq<nat>, q: seq<nat>)
    requires |kernel| == 2 * ENTRIES && root + 5 <= FRAMES
    ensures Apart(BootMemory(root, limit, kernel), root, p, q)
  {
    if UserPath(p) && UserPath(q) {
      BootNodes(root, limit, kernel, p);
      BootNodes(root, limit, kernel, q);
      BootPaths(root, p, q);
    }
  }

  lemma BootPaths(root: nat, p: seq<nat>, q: seq<nat>)
    ensures BootNode(root, p).Some? && BootNode(root, p) == BootNode(root, q) ==> p == q
  {
  }

  lemma BootBacked(root: nat, limit: nat, kernel: seq<Word64>, table: Table)
    requires |kernel| == 2 * ENTRIES && root + 5 <= FRAMES && NoneFree(table, root, root + 5) && Bounded(table, limit)
    ensures Backed(BootMemory(root, limit, kernel), root, table)
  {
    var m := BootMemory(root, limit, kernel);
    forall p ensures Taken(m, root, table, p) {
      BootTaken(root, limit, kernel, table, p);
    }
    forall g: nat | FreeAt(table, g) ensures g in m && m[g] == Zeros() {
      assert m[g] == BootTable(root, kernel, g);
    }
  }

  lemma BootTaken(root: nat, limit: nat, kernel: seq<Word64>, table: Table, p: seq<nat>)
    requires |kernel| == 2 * ENTRIES && root + 5 <= FRAMES && NoneFree(table, root, root + 5)
    ensures Taken(BootMemory(root, limit, kernel), root, table, p)
  {
    if UserPath(p) {
      BootNodes(root, limit, kernel, p);
      if BootNode(root, p).Some? { BootTables(root, limit, kernel, p); }
    }
  }

  /** The page directory's first entry is a large page at frame 0. */
  predicate LargeFirst(m: Memory, root: nat, t: nat) {
    && SelfMapped(m, root) && Node(m, root, [0, 0]) == Some(t)
    && IsTable(m, t) && Present(m[t][0]) && Large(m[t][0]) && FrameOf(m[t][0]) == 0
  }

  /** Below 2 MB, where boot maps a large page, vm_map_page_unrestricted would take frame 0 for a page table: the
      structure address reaches it, and no walk does. */
  lemma LowAddresses(m: Memory, root: nat, v: Word64, t: nat)
    requires LargeFirst(m, root, t) && v < 0x20_0000
    ensures Pte(m, root, StructVaddr(v, 3)).Some? && FrameOf(Pte(m, root, StructVaddr(v, 3)).value) == 0
    ensures Node(m, root, Path(v, 3)) == None
  {
    LowPath(v);
    RecursiveMapExactly(m, root, v, 3, t);
  }

  lemma LowPath(v: Word64)
    requires v < 0x20_0000
    ensures Path(v, 2) == [0, 0] && Index(v, 2) == 0
  {
    LowIndex(v, 0);
    LowIndex(v, 1);
    LowIndex(v, 2);
    var p := Path(v, 2);
    assert p[0] == 0 && p[1] == 0;
  }

  lemma BootLargeFirst(root: nat, limit: nat, kernel: seq<Word64>)
    requires |kernel| == 2 * ENTRIES && root + 5 <= FRAMES
    ensures LargeFirst(BootMemory(root, limit, kernel), root, root + 2)
  {
    BootNodes(root, limit, kernel, [0, 0]);
    BootNext(root, limit, kernel, root, SELF);
    BootLarge(root, limit, kernel);
  }

  /** The entry of the large page. */
  lemma BootLarge(root: nat, limit: nat, kernel: seq<Word64>)
    requires |kernel| == 2 * ENTRIES
    ensures var m := BootMemory(root, limit, kernel);
            IsTable(m, root + 2) && Present(m[root + 2][0]) && Large(m[root + 2][0]) && FrameOf(m[root + 2][0]) == 0
  {
    var m := BootMemory(root, limit, kernel);
    assert m[root + 2] == BootTable(root, kernel, root + 2);
    assert Present(0x83) && Large(0x83);
    SmallFrame(m[root + 2][0]);
  }

  lemma LowIndex(v: Word64, level: nat)
    requires v < 0x20_0000 && level < 3
    ensures Index(v, level) == 0
  {
    assert Pow2(9) == 512;
    Pow2Add(12, 9);
    assert Pow2(12) == 0x1000;
    forall j: nat ensures !Bit(Index(v, level), j) {
      IndexBit(v, level, j);
      if j < 9 { HighBit(v, 21, Low(level) + j); }
    }
    ZeroWord(Index(v, level));
  }

  lemma SmallFrame(e: Word64)
    requires e < 0x1000
    ensures FrameOf(e) == 0
  {
    assert Pow2(12) == 0x1000;
    forall j: nat ensures !Bit(FrameOf(e), j) {
      ShrBit(And(e, FRAME_MASK), 12, j);
      AndBit(e, FRAME_MASK, j + 12);
      HighBit(e, 12, j + 12);
    }
    ZeroWord(FrameOf(e));
  }

  // ----- vm_map_page_unrestricted -----

  /** IntoLarge: the walk comes to a large page, whose data the code takes for a table; nothing is claimed from there on. */
  datatype MapOutcome = Mapped | OutOfFrames | Occupied | IntoLarge

  /** One step of the walk: the next table exists, or no frame is free for it, or a large page is in its place. */
  datatype Step = Ready | NoFrame | AtLarge

  class AddressSpace {
    const root: nat
    const phys: PhysicalMemory
    var mem: Memory

    /** The tables form a tree of frames that are not free, and free frames read as zero. */
    ghost predicate Valid()
      reads this, phys, phys.table
    {
      phys.Valid() && phys.limit <= FRAMES && Tree(mem, root) && Backed(mem, root, phys.table[..])
    }

    /** The tables that boot.S builds in five consecutive frames of the kernel image, none of them free; kernel holds
        the 1024 entries of the kernel's two page tables. */
    constructor (root: nat, phys: PhysicalMemory, kernel: seq<Word64>)
      requires phys.Valid() && phys.limit <= FRAMES && root + 5 <= FRAMES && |kernel| == 2 * ENTRIES
      requires NoneFree(phys.table[..], root, root + 5)
      ensures Valid() && this.root == root && this.phys == phys && mem == BootMemory(root, phys.limit, kernel)
    {
      this.root, this.phys, this.mem := root, phys, BootMemory(root, phys.limit, kernel);
      new;
      BootTree(root, phys.limit, kernel);
      BootBacked(root, phys.limit, kernel, phys.table[..]);
    }

    /** The table of v at a level, found by walking its structure address. */
    method TableOf(v: Word64, level: nat) returns (t: nat)
      requires SelfMapped(mem, root) && level < 4 && Node(mem, root, Path(v, level)).Some?
      ensures t == Node(mem, root, Path(v, level)).value
    {
      RecursiveMap(mem, root, v, level);
      t := FrameOf(Pte(mem, root, StructVaddr(v, level)).value);
    }

    /** Allocate a frame and enter it at a missing entry on the walk of v. */
    method AddTable(v: Word64, level: nat, t: nat) returns (ok: bool)
      requires Valid() && level < 3 && Index(v, 0) != SELF
      requires Node(mem, root, Path(v, level)) == Some(t) && IsTable(mem, t) && Index(v, level) < ENTRIES
      requires !Present(mem[t][Index(v, level)])
      modifies this`mem, phys.table, phys`owned
      ensures Valid()
      ensures ok ==> Node(mem, root, Path(v, level + 1)).Some?
      ensures !ok ==> mem == old(mem) && NoneFree(phys.table[..], LOW, phys.limit)
      ensures SameLeaves(old(mem), mem, root) && Grown(old(mem), mem, old(phys.table[..]), phys.table[..], root, v)
      ensures NewTables(old(mem), mem, root) && WalkWrites(old(mem), mem, root, v)
    {
      ghost var before := phys.table[..];
      var addr := phys.AllocFrame();
      ok := addr != 0;
      if ok {
        ghost var m' := AddLink(mem, root, v, level, t, addr, addr / PG_SIZE, before, phys.table[..]);
        mem := Store(mem, t, Index(v, level), Or64(addr, 3));
      }
    }

    /** One of the three steps that make the next table exist. */
    method EnsureTable(v: Word64, level: nat) returns (step: Step)
      requires Valid() && level < 3 && Index(v, 0) != SELF && Node(mem, root, Path(v, level)).Some?
      modifies this`mem, phys.table, phys`owned
      ensures Valid()
      ensures step.Ready? ==> Node(mem, root, Path(v, level + 1)).Some?
      ensures step.NoFrame? ==> Unmapped(old(mem), root, v) && mem == old(mem) && NoneFree(phys.table[..], LOW, phys.limit)
      ensures step.AtLarge? ==> OverLarge(old(mem), root, v)
      ensures mem == old(mem) || Unmapped(old(mem), root, v)
      ensures SameLeaves(old(mem), mem, root) && Grown(old(mem), mem, old(phys.table[..]), phys.table[..], root, v)
      ensures NewTables(old(mem), mem, root) && WalkWrites(old(mem), mem, root, v)
    {
      var t := TableOf(v, level);
      PageTable(mem, root, v, level);
      if Present(mem[t][Index(v, level)]) {
        PresentNext(mem, root, v, level);
        step := if Large(mem[t][Index(v, level)]) then AtLarge else Ready;
      } else {
        MissingNone(mem, root, v, level);
        var ok := AddTable(v, level, t);
        step := if ok then Ready else NoFrame;
      }
    }

    /** The last two steps. */
    method EnsureLower(v: Word64) returns (step: Step)
      requires Valid() && Index(v, 0) != SELF && Node(mem, root, Path(v, 1)).Some?
      modifies this`mem, phys.table, phys`owned
      ensures Valid()
      ensures step.Ready? ==> Node(mem, root, Path(v, 3)).Some?
      ensures step.NoFrame? ==> Unmapped(old(mem), root, v) && NoneFree(phys.table[..], LOW, phys.limit)
      ensures step.AtLarge? ==> OverLarge(old(mem), root, v)
      ensures mem == old(mem) || Unmapped(old(mem), root, v)
      ensures SameLeaves(old(mem), mem, root) && Grown(old(mem), mem, old(phys.table[..]), phys.table[..], root, v)
      ensures NewTables(old(mem), mem, root) && WalkWrites(old(mem), mem, root, v)
    {
      step := EnsureTable(v, 1);
      if step.Ready? {
        ghost var m1, t1 := mem, phys.table[..];
        step := EnsureTable(v, 2);
        StepsTrans(old(mem), m1, mem, old(phys.table[..]), t1, phys.table[..], root, v);
      }
    }

    /** The three steps together: every table on the walk of v exists afterwards, unless frames ran out or v lies in a
        large page. */
    method EnsureTables(v: Word64) returns (step: Step)
      requires Valid() && Index(v, 0) != SELF
      modifies this`mem, phys.table, phys`owned
      ensures Valid()
      ensures step.Ready? ==> Node(mem, root, Path(v, 3)).Some?
      ensures step.NoFrame? ==> Unmapped(old(mem), root, v) && NoneFree(phys.table[..], LOW, phys.limit)
      ensures step.AtLarge? <==> OverLarge(old(mem), root, v)
      ensures mem == old(mem) || Unmapped(old(mem), root, v)
      ensures SameLeaves(old(mem), mem, root) && Grown(old(mem), mem, old(phys.table[..]), phys.table[..], root, v)
      ensures NewTables(old(mem), mem, root) && WalkWrites(old(mem), mem, root, v)
    {
      assert Path(v, 0) == [];
      step := EnsureTable(v, 0);
      if step.Ready? {
        ghost var m1, t1 := mem, phys.table[..];
        step := EnsureLower(v);
        StepsTrans(old(mem), m1, mem, old(phys.table[..]), t1, phys.table[..], root, v);
        if step.Ready? { LeafDown(mem, root, v, 3); }
      }
    }

    /** pt[entry] = frame | flags, unless the entry is in use. */
    method WriteEntry(v: Word64, e: Word64) returns (written: bool)
      requires Valid() && Index(v, 0) != SELF && Node(mem, root, Path(v, 3)).Some?
      modifies this`mem
      ensures Valid()
      ensures written <==> Pte(old(mem), root, v).None?
      ensures !written ==> mem == old(mem)
      ensures Grown(old(mem), mem, phys.table[..], phys.table[..], root, v)
      ensures NewTables(old(mem), mem, root) && WalkWrites(old(mem), mem, root, v)
      ensures written ==> forall u: Word64 :: Index(u, 0) != SELF ==>
                            LeafOf(mem, root, u) == if Path(u, 4) == Path(v, 4) then PageLeaf(e) else LeafOf(old(mem), root, u)
    {
      var t := TableOf(v, 3);
      PageTable(mem, root, v, 3);
      written := !Present(mem[t][Index(v, 3)]);
      if written {
        WriteLeaf(mem, root, v, e, phys.table[..]);
        mem := Store(mem, t, Index(v, 3), e);
      }
    }

    /** vm_map_page_unrestricted for an address outside the self-map slot. */
    method MapPage(frame: Word64, flags: Word64, v: Word64) returns (outcome: MapOutcome)
      requires Valid() && Index(v, 0) != SELF
      modifies this`mem, phys.table, phys`owned
      ensures Valid()
      ensures outcome == Occupied <==> Pte(old(mem), root, v).Some?
      ensures outcome == IntoLarge <==> OverLarge(old(mem), root, v)
      ensures outcome == Occupied || outcome == IntoLarge ==> mem == old(mem)
      ensures Grown(old(mem), mem, old(phys.table[..]), phys.table[..], root, v)
      ensures NewTables(old(mem), mem, root) && WalkWrites(old(mem), mem, root, v)
      ensures outcome == OutOfFrames ==> Node(old(mem), root, Path(v, 3)).None? && NoneFree(phys.table[..], LOW, phys.limit)
      ensures forall u: Word64 :: Index(u, 0) != SELF ==>
                LeafOf(mem, root, u) == if outcome == Mapped && Path(u, 4) == Path(v, 4) then PageLeaf(Or64(frame, flags))
                                        else LeafOf(old(mem), root, u)
    {
      var step := EnsureTables(v);
      UnmappedPte(old(mem), root, v);
      if !step.Ready? {
        return if step.AtLarge? then IntoLarge else OutOfFrames;
      }
      ghost var m1, t1 := mem, phys.table[..];
      SamePte(old(mem), m1, root, v);
      var ok := WriteEntry(v, Or64(frame, flags));
      GrownTrans(old(mem), m1, mem, old(phys.table[..]), t1, t1, root, v);
      TablesTrans(old(mem), m1, mem, root);
      WritesTrans(old(mem), m1, mem, t1, t1, root, v);
      outcome := if ok then Mapped else Occupied;
    }
  }

  /** A table on the walk of v is missing, so nothing maps v. */
  predicate Unmapped(m: Memory, root: nat, v: Word64) {
    Node(m, root, Path(v, 3)).None? && LeafOf(m, root, v).None?
  }

  lemma StepsTrans(m: Memory, m1: Memory, m2: Memory, t: Table, t1: Table, t2: Table, root: nat, v: Word64)
    requires SameLeaves(m, m1, root) && SameLeaves(m1, m2, root) && Index(v, 0) != SELF
    requires Grown(m, m1, t, t1, root, v) && Grown(m1, m2, t1, t2, root, v)
    requires NewTables(m, m1, root) && NewTables(m1, m2, root) && WalkWrites(m, m1, root, v) && WalkWrites(m1, m2, root, v)
    ensures SameLeaves(m, m2, root) && Grown(m, m2, t, t2, root, v)
    ensures NewTables(m, m2, root) && WalkWrites(m, m2, root, v)
    ensures Unmapped(m1, root, v) ==> Unmapped(m, root, v)
    ensures OverLarge(m1, root, v) <==> OverLarge(m, root, v)
  {
    GrownTrans(m, m1, m2, t, t1, t2, root, v);
    TablesTrans(m, m1, m2, root);
    WritesTrans(m, m1, m2, t1, t2, root, v);
  }

  lemma TablesTrans(m: Memory, m1: Memory, m2: Memory, root: nat)
    requires NewTables(m, m1, root) && NewTables(m1, m2, root)
    ensures NewTables(m, m2, root)
  {
    forall u: Word64, l: nat | Index(u, 0) != SELF && l < 3 ensures NewTableAt(m, m2, root, u, l) {
      assert NewTableAt(m, m1, root, u, l) && NewTableAt(m1, m2, root, u, l);
    }
  }

  lemma WritesTrans(m: Memory, m1: Memory, m2: Memory, t1: Table, t2: Table, root: nat, v: Word64)
    requires WalkWrites(m, m1, root, v) && WalkWrites(m1, m2, root, v) && Grown(m1, m2, t1, t2, root, v)
    ensures WalkWrites(m, m2, root, v)
  {
    forall g: nat, i: nat | g in m && i < |m[g]| && m2[g][i] != m[g][i] ensures OnSlot(m2, root, v, g, i) {
      if m1[g][i] != m[g][i] {
        var l: nat :| l <= 3 && Node(m1, root, Path(v, l)) == Some(g) && Index(v, l) == i;
        assert Node(m2, root, Path(v, l)) == Some(g);
      }
    }
  }

  lemma StoreWrites(m: Memory, root: nat, v: Word64, level: nat, t: nat, e: Word64)
    requires level <= 3 && t in m && Index(v, level) < |m[t]|
    requires Node(Store(m, t, Index(v, level), e), root, Path(v, level)) == Some(t)
    ensures WalkWrites(m, Store(m, t, Index(v, level), e), root, v)
  {
  }

  lemma UnmappedPte(m: Memory, root: nat, v: Word64)
    ensures Unmapped(m, root, v) ==> Pte(m, root, v).None?
    ensures OverLarge(m, root, v) ==> Pte(m, root, v).None?
  {
    if Pte(m, root, v).Some? { LeafPte(m, root, v, Pte(m, root, v).value); }
  }

  lemma SamePte(m: Memory, m': Memory, root: nat, v: Word64)
    requires SameLeaves(m, m', root) && Index(v, 0) != SELF
    ensures Pte(m', root, v) == Pte(m, root, v)
  {
    if Pte(m, root, v).Some? { LeafPte(m, root, v, Pte(m, root, v).value); LeafPte(m', root, v, Pte(m, root, v).value); }
    if Pte(m', root, v).Some? { LeafPte(m, root, v, Pte(m', root, v).value); LeafPte(m', root, v, Pte(m', root, v).value); }
  }

  lemma WriteLeaf(m: Memory, root: nat, v: Word64, e: Word64, table: Table)
    requires Tree(m, root) && Backed(m, root, table) && Index(v, 0) != SELF && Node(m, root, Path(v, 3)).Some?
    requires Index(v, 3) < ENTRIES && IsTable(m, Node(m, root, Path(v, 3)).value)
    ensures var m' := Store(m, Node(m, root, Path(v, 3)).value, Index(v, 3), e);
            && Tree(m', root) && Backed(m', root, table)
            && Grown(m, m', table, table, root, v) && NewTables(m, m', root) && WalkWrites(m, m', root, v)
            && forall u: Word64 :: Index(u, 0) != SELF ==>
                 LeafOf(m', root, u) == if Path(u, 4) == Path(v, 4) then PageLeaf(e) else LeafOf(m, root, u)
  {
    PathUser(v, 3);
    var t := Node(m, root, Path(v, 3)).value;
    LeafTree(m, root, Path(v, 3), Index(v, 3), e);
    var m' := Store(m, t, Index(v, 3), e);
    assert Taken(m, root, table, Path(v, 3));
    forall q ensures Taken(m', root, table, q) {
      if UserPath(q) {
        LeafNodes(m, root, Path(v, 3), Index(v, 3), e, q);
        assert Taken(m, root, table, q);
      }
    }
    forall l: nat | l <= 3 ensures Node(m', root, Path(v, l)) == Node(m, root, Path(v, l)) {
      PathUser(v, l);
      LeafNodes(m, root, Path(v, 3), Index(v, 3), e, Path(v, l));
    }
    forall u: Word64 | Index(u, 0) != SELF
      ensures LeafOf(m', root, u) == if Path(u, 4) == Path(v, 4) then PageLeaf(e) else LeafOf(m, root, u)
    {
      WriteLeafOf(m, root, v, e, u);
    }
    forall u: Word64, l: nat | Index(u, 0) != SELF && l < 3 ensures NewTableAt(m, m', root, u, l) {
      WriteEntryAt(m, root, v, e, u, l);
    }
    StoreWrites(m, root, v, 3, t, e);
  }

  /** A present entry is a large page or leads to a table. */
  lemma PresentNext(m: Memory, root: nat, v: Word64, level: nat)
    requires level < 3 && Node(m, root, Path(v, level)).Some? && IsTable(m, Node(m, root, Path(v, level)).value)
    requires Index(v, level) < ENTRIES && Present(m[Node(m, root, Path(v, level)).value][Index(v, level)])
    ensures if Large(m[Node(m, root, Path(v, level)).value][Index(v, level)]) then OverLarge(m, root, v)
            else Node(m, root, Path(v, level + 1)).Some?
  {
    PathStep(v, level + 1);
    NodeStep(m, root, Path(v, level), Index(v, level));
    LeafDown(m, root, v, level);
  }

  lemma {:induction false} MissingNone(m: Memory, root: nat, v: Word64, level: nat)
    requires level < 3 && Node(m, root, Path(v, level)).Some? && IsTable(m, Node(m, root, Path(v, level)).value)
    requires Index(v, level) < ENTRIES && !Present(m[Node(m, root, Path(v, level)).value][Index(v, level)])
    ensures Unmapped(m, root, v)
  {
    PathStep(v, level + 1);
    NoneBelow(m, root, v, level);
    LeafDown(m, root, v, level);
  }

  lemma FramesFree(before: Table, after: Table, f: nat)
    requires Frames(after) == Frames(before) - {f}
    ensures forall g: nat :: FreeAt(after, g) <==> FreeAt(before, g) && g != f
  {
    forall g: nat ensures FreeAt(after, g) <==> FreeAt(before, g) && g != f {
      assert FreeAt(after, g) <==> g in Frames(after);
      assert FreeAt(before, g) <==> g in Frames(before);
    }
  }

  /** Frame f, free in before and the only one no longer free in after, can be linked on the walk of v. */
  ghost predicate Linkable(m: Memory, root: nat, v: Word64, level: nat, f: nat, before: Table) {
    && Tree(m, root) && level < 3 && Index(v, 0) != SELF && f < FRAMES && FreeAt(before, f)
    && Node(m, root, Path(v, level)).Some? && IsTable(m, Node(m, root, Path(v, level)).value) && Index(v, level) < ENTRIES
    && !Present(m[Node(m, root, Path(v, level)).value][Index(v, level)])
    && Backed(m, root, before)
  }

  /** The tables are not free, and free frames read as zero. */
  ghost predicate Backed(m: Memory, root: nat, table: Table) {
    && (forall p :: Taken(m, root, table, p))
    && (forall g: nat :: FreeAt(table, g) ==> g in m && m[g] == Zeros())
  }

  ghost predicate Taken(m: Memory, root: nat, table: Table, p: seq<nat>) {
    UserPath(p) && Node(m, root, p).Some? ==> !FreeAt(table, Node(m, root, p).value)
  }

  lemma LinkableLinks(m: Memory, root: nat, v: Word64, level: nat, f: nat, before: Table)
    requires Linkable(m, root, v, level, f, before)
    ensures f * 4096 < W64
    ensures Links(m, root, Path(v, level), Index(v, level), f, Or64(f * 4096, 3))
  {
    TableEntry(f);
    PathUser(v, level);
    PathUser(v, level + 1);
    PathStep(v, level + 1);
    forall q ensures Misses(m, root, f, q) {
      assert Taken(m, root, before, q);
    }
    if level == 0 { assert Path(v, 0) == []; }
  }

  /** The tables after linking a fresh frame under a path. */
  lemma {:induction false} LinkFrame(m: Memory, root: nat, p: seq<nat>, i: nat, f: nat, e: Word64, before: Table, after: Table)
    requires Links(m, root, p, i, f, e) && Backed(m, root, before)
    requires forall g: nat :: FreeAt(after, g) <==> FreeAt(before, g) && g != f
    ensures var m' := Store(m, Node(m, root, p).value, i, e);
            Tree(m', root) && Node(m', root, p + [i]) == Some(f) && Backed(m', root, after)
  {
    LinkTree(m, root, p, i, f, e);
    var t := Node(m, root, p).value;
    var m' := Store(m, t, i, e);
    LinkNodes(m, root, p, i, f, e, p + [i]);
    forall q ensures Taken(m', root, after, q) {
      if UserPath(q) {
        LinkNodes(m, root, p, i, f, e, q);
        assert Taken(m, root, before, q);
      }
    }
    assert Taken(m, root, before, p);
  }

  /** What linking leaves alone. */
  lemma LinkViews(m: Memory, root: nat, v: Word64, level: nat, f: nat, before: Table)
    requires Linkable(m, root, v, level, f, before)
    ensures f * 4096 < W64
    ensures var m' := Store(m, Node(m, root, Path(v, level)).value, Index(v, level), Or64(f * 4096, 3));
            SameLeaves(m, m', root) && NewTables(m, m', root)
  {
    LinkableLinks(m, root, v, level, f, before);
    var p, i, e := Path(v, level), Index(v, level), Or64(f * 4096, 3);
    var m' := Store(m, Node(m, root, p).value, i, e);
    forall u: Word64 | Index(u, 0) != SELF ensures LeafOf(m', root, u) == LeafOf(m, root, u) {
      LinkLeaf(m, root, p, i, f, e, u, 0);
    }
    TableWord(f);
    forall u: Word64, l: nat | Index(u, 0) != SELF && l < 3 ensures NewTableAt(m, m', root, u, l) {
      LinkEntry(m, root, p, i, f, e, u, l);
      LinkMissing(m, root, p, i, u, l);
    }
  }

  lemma LinkMissing(m: Memory, root: nat, p: seq<nat>, i: nat, u: Word64, l: nat)
    requires l < 4 && Node(m, root, p).Some? && i < ENTRIES && IsTable(m, Node(m, root, p).value)
    requires !Present(m[Node(m, root, p).value][i])
    ensures Path(u, l) == p && Index(u, l) == i ==> EntryAt(m, root, u, l).None?
  {
  }

  /** Entering the frame f at a missing entry of the table t on the walk of v. */
  lemma AddLink(m: Memory, root: nat, v: Word64, level: nat, t: nat, addr: nat, f: nat, before: Table, after: Table)
      returns (m': Memory)
    requires Linkable(m, root, v, level, f, before) && Frames(after) == Frames(before) - {f}
    requires Node(m, root, Path(v, level)) == Some(t) && addr == f * 4096
    ensures addr < W64 && m' == Store(m, t, Index(v, level), Or64(addr, 3))
    ensures Tree(m', root) && Node(m', root, Path(v, level + 1)).Some? && Backed(m', root, after)
    ensures SameLeaves(m, m', root) && Grown(m, m', before, after, root, v)
    ensures NewTables(m, m', root) && WalkWrites(m, m', root, v)
  {
    FramesFree(before, after, f);
    LinkableLinks(m, root, v, level, f, before);
    PathStep(v, level + 1);
    LinkFrame(m, root, Path(v, level), Index(v, level), f, Or64(f * 4096, 3), before, after);
    LinkViews(m, root, v, level, f, before);
    LinkGrown(m, root, v, level, f, before, after);
    m' := Store(m, t, Index(v, level), Or64(addr, 3));
    StoreWrites(m, root, v, level, t, Or64(addr, 3));
  }

  // ----- the frames that mapping takes -----

  ghost predicate OnWalk(m: Memory, root: nat, v: Word64, f: nat) {
    exists l: nat :: l <= 3 && Node(m, root, Path(v, l)) == Some(f)
  }

  /** The walk of v keeps the tables it had, no frame becomes free, and every frame that is no longer free is now a
      table on that walk. */
  ghost predicate Grown(m: Memory, m': Memory, before: Table, after: Table, root: nat, v: Word64) {
    && (forall l: nat :: l <= 3 && Node(m, root, Path(v, l)).Some? ==> Node(m', root, Path(v, l)) == Node(m, root, Path(v, l)))
    && (forall f: nat :: FreeAt(after, f) ==> FreeAt(before, f))
    && (forall f: nat :: FreeAt(before, f) && !FreeAt(after, f) ==> OnWalk(m', root, v, f))
  }

  lemma GrownTrans(m: Memory, m1: Memory, m2: Memory, t: Table, t1: Table, t2: Table, root: nat, v: Word64)
    requires Grown(m, m1, t, t1, root, v) && Grown(m1, m2, t1, t2, root, v)
    ensures Grown(m, m2, t, t2, root, v)
  {
    forall f: nat | FreeAt(t, f) && !FreeAt(t2, f) ensures OnWalk(m2, root, v, f) {
      if !FreeAt(t1, f) {
        var l: nat :| l <= 3 && Node(m1, root, Path(v, l)) == Some(f);
        assert Node(m2, root, Path(v, l)) == Some(f);
      }
    }
  }

  lemma LinkGrown(m: Memory, root: nat, v: Word64, level: nat, f: nat, before: Table, after: Table)
    requires Linkable(m, root, v, level, f, before) && f * 4096 < W64
    requires forall g: nat :: FreeAt(after, g) <==> FreeAt(before, g) && g != f
    ensures Grown(m, Store(m, Node(m, root, Path(v, level)).value, Index(v, level), Or64(f * 4096, 3)), before, after, root, v)
  {
    LinkableLinks(m, root, v, level, f, before);
    PathStep(v, level + 1);
    var p, i, e := Path(v, level), Index(v, level), Or64(f * 4096, 3);
    var m' := Store(m, Node(m, root, p).value, i, e);
    NodeStep(m, root, p, i);
    forall l: nat | l <= 3 ensures Node(m', root, Path(v, l)) == if l == level + 1 then Some(f) else Node(m, root, Path(v, l)) {
      PathUser(v, l);
      LinkNodes(m, root, p, i, f, e, Path(v, l));
      assert |Path(v, l)| == l && |p + [i]| == level + 1;
    }
    assert OnWalk(m', root, v, f) by {
      assert Node(m', root, Path(v, level + 1)) == Some(f);
    }
  }

  /** Below a missing entry there is nothing. */
  lemma NoneBelow(m: Memory, root: nat, v: Word64, level: nat)
    requires level < 3 && Node(m, root, Path(v, level + 1)).None?
    ensures Node(m, root, Path(v, 3)).None?
    decreases 3 - level
  {
    if level + 1 < 3 {
      PathStep(v, level + 2);
      NoneBelow(m, root, v, level + 1);
    }
  }

  lemma PathUser(v: Word64, n: nat)
    requires n <= 3 && Index(v, 0) != SELF
    ensures UserPath(Path(v, n))
  {
    forall l: nat | l < n ensures Index(v, l) < ENTRIES {
      IndexBound(v, l);
    }
  }
}
