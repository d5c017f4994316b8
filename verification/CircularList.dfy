/** include/utils/list.h: the intrusive circular doubly linked list, on a word-addressed memory.
    A list head or a list node at word n keeps its next pointer in word n and its prev pointer in
    word n + 1, the layout of struct list_head. */
module CircularList {
  /** One 64-bit word: a list pointer, named by the word it points to, or plain bytes.  Only the
      lowest and the highest byte of a word are ever addressed on their own. */
  datatype Word = Ptr(target: nat) | Raw(lo: nat, mid: nat, hi: nat)

  type Memory = seq<Word>

  /** The pointer a word holds; plain bytes never hold one in the states below. */
  function Target(w: Word): nat {
    if w.Ptr? then w.target else 0
  }

  /** r lists the nodes of one well-formed circular list, the head first. */
  ghost predicate Ring(m: Memory, r: seq<nat>) {
    && |r| > 0
    && (forall i :: 0 <= i < |r| ==> r[i] + 1 < |m|)
    && (forall i, j :: 0 <= i < j < |r| ==> Clear(r[i], r[j]))
    && (forall i :: 0 <= i < |r| ==> LinksAt(m, r, i))
  }

  /** The node at position i points at its neighbours in r. */
  ghost predicate LinksAt(m: Memory, r: seq<nat>, i: nat)
    requires i < |r| && r[i] + 1 < |m|
  {
    m[r[i]] == Ptr(r[Next(r, i)]) && m[r[i] + 1] == Ptr(r[Prev(r, i)])
  }

  function Next(r: seq<nat>, i: nat): (j: nat)
    requires i < |r|
    ensures j < |r|
  {
    if i + 1 == |r| then 0 else i + 1
  }

  function Prev(r: seq<nat>, i: nat): (j: nat)
    requires i < |r|
    ensures j < |r|
  {
    if i > 0 then i - 1 else |r| - 1
  }

  /** The two link words of a and of b do not overlap. */
  predicate Clear(a: nat, b: nat) { a + 1 < b || b + 1 < a }

  ghost predicate ClearOf(r: seq<nat>, n: nat) { forall i :: 0 <= i < |r| ==> Clear(n, r[i]) }

  /** Memory after linking n between prev and next. */
  function Linked(m: Memory, n: nat, prev: nat, next: nat): (m': Memory)
    requires n + 1 < |m| && prev + 1 < |m| && next + 1 < |m|
  {
    m[next + 1 := Ptr(n)][n := Ptr(next)][n + 1 := Ptr(prev)][prev := Ptr(n)]
  }

  /** Memory after joining prev and next. */
  function Unlinked(m: Memory, prev: nat, next: nat): (m': Memory)
    requires prev + 1 < |m| && next + 1 < |m|
  {
    m[next + 1 := Ptr(prev)][prev := Ptr(next)]
  }

  /** Which words linking after position i writes, seen from position j of the old list. */
  lemma LinkedWords(m: Memory, r: seq<nat>, i: nat, n: nat, j: nat)
    requires Ring(m, r) && i < |r| && n + 1 < |m| && ClearOf(r, n) && j < |r|
    ensures r[Next(r, i)] + 1 < |m|
    ensures var m' := Linked(m, n, r[i], r[Next(r, i)]);
            && m'[r[j]] == Ptr(if j == i then n else r[Next(r, j)])
            && m'[r[j] + 1] == Ptr(if j == Next(r, i) then n else r[Prev(r, j)])
  {
    var x := Next(r, i);
    assert j == i || Clear(r[j], r[i]);
    assert j == x || Clear(r[j], r[x]);
    assert Clear(n, r[j]) && Clear(n, r[x]) && Clear(n, r[i]);
    assert LinksAt(m, r, j);
  }

  function Inserted(r: seq<nat>, i: nat, n: nat): (q: seq<nat>)
    requires i < |r|
  {
    r[..i + 1] + [n] + r[i + 1..]
  }

  lemma InsertedNeighbours(r: seq<nat>, i: nat, n: nat, j: nat)
    requires i < |r| && j < |r|
    ensures var q := Inserted(r, i, n);
            var j' := if j <= i then j else j + 1;
            && q[j'] == r[j]
            && q[Next(q, j')] == (if j == i then n else r[Next(r, j)])
            && q[Prev(q, j')] == (if j == Next(r, i) then n else r[Prev(r, j)])
  {
  }

  /** Linking after position i inserts there. */
  lemma LinkedRing(m: Memory, r: seq<nat>, i: nat, n: nat)
    requires Ring(m, r) && i < |r| && n + 1 < |m| && ClearOf(r, n)
    ensures Ring(Linked(m, n, r[i], r[Next(r, i)]), Inserted(r, i, n))
  {
    var x := Next(r, i);
    var m' := Linked(m, n, r[i], r[x]);
    var q := Inserted(r, i, n);
    forall j | 0 <= j < |q|
      ensures q[j] + 1 < |m'| && LinksAt(m', q, j)
    {
      if j == i + 1 {
        assert Clear(n, r[x]) && Clear(n, r[i]);
        InsertedNeighbours(r, i, n, x);
      } else {
        var j0 := if j <= i then j else j - 1;
        InsertedNeighbours(r, i, n, j0);
        LinkedWords(m, r, i, n, j0);
      }
    }
    InsertedClear(r, i, n);
  }

  lemma InsertedClear(r: seq<nat>, i: nat, n: nat)
    requires i < |r| && ClearOf(r, n)
    requires forall i, j :: 0 <= i < j < |r| ==> Clear(r[i], r[j])
    ensures var q := Inserted(r, i, n); forall i, j :: 0 <= i < j < |q| ==> Clear(q[i], q[j])
  {
  }

  function Removed(r: seq<nat>, i: nat): (q: seq<nat>)
    requires i < |r|
  {
    r[..i] + r[i + 1..]
  }

  lemma RemovedNeighbours(r: seq<nat>, i: nat, j: nat)
    requires 0 < i < |r| && j < |r| && j != i
    ensures var q := Removed(r, i);
            var j' := if j < i then j else j - 1;
            && q[j'] == r[j]
            && q[Next(q, j')] == (if j == Prev(r, i) then r[Next(r, i)] else r[Next(r, j)])
            && q[Prev(q, j')] == (if j == Next(r, i) then r[Prev(r, i)] else r[Prev(r, j)])
  {
  }

  lemma UnlinkedWords(m: Memory, r: seq<nat>, i: nat, j: nat)
    requires Ring(m, r) && 0 < i < |r| && j < |r|
    ensures r[Next(r, i)] + 1 < |m| && r[Prev(r, i)] + 1 < |m|
    ensures var p, x := Prev(r, i), Next(r, i);
            var m' := Unlinked(m, r[p], r[x]);
            && m'[r[j]] == Ptr(if j == p then r[x] else r[Next(r, j)])
            && m'[r[j] + 1] == Ptr(if j == x then r[p] else r[Prev(r, j)])
  {
    var p, x := Prev(r, i), Next(r, i);
    assert j == p || Clear(r[j], r[p]);
    assert j == x || Clear(r[j], r[x]);
    assert p == x || Clear(r[p], r[x]);
    assert LinksAt(m, r, j);
  }

  /** Unlinking position i removes it. */
  lemma UnlinkedRing(m: Memory, r: seq<nat>, i: nat)
    requires Ring(m, r) && 0 < i < |r|
    ensures Ring(Unlinked(m, r[Prev(r, i)], r[Next(r, i)]), Removed(r, i))
  {
    var m' := Unlinked(m, r[Prev(r, i)], r[Next(r, i)]);
    var q := Removed(r, i);
    forall j | 0 <= j < |q|
      ensures q[j] + 1 < |m'| && LinksAt(m', q, j)
    {
      var j0 := if j < i then j else j + 1;
      RemovedNeighbours(r, i, j0);
      UnlinkedWords(m, r, i, j0);
    }
    RemovedClear(r, i);
  }

  lemma RemovedClear(r: seq<nat>, i: nat)
    requires i < |r|
    requires forall i, j :: 0 <= i < j < |r| ==> Clear(r[i], r[j])
    ensures var q := Removed(r, i); forall i, j :: 0 <= i < j < |q| ==> Clear(q[i], q[j])
  {
  }

  /** A list whose nodes are not written stays as it is. */
  lemma RingFrame(m: Memory, m': Memory, r: seq<nat>)
    requires Ring(m, r) && |m'| == |m|
    requires forall i :: 0 <= i < |r| ==> m'[r[i]] == m[r[i]] && m'[r[i] + 1] == m[r[i] + 1]
    ensures Ring(m', r)
  {
    forall i | 0 <= i < |r| ensures LinksAt(m', r, i) {
      assert LinksAt(m, r, i);
    }
  }

  /** Unlinking in one list leaves a list that shares no word with it alone. */
  lemma UnlinkedElsewhere(m: Memory, p: nat, x: nat, q: seq<nat>)
    requires Ring(m, q) && p + 1 < |m| && x + 1 < |m| && ClearOf(q, p) && ClearOf(q, x)
    ensures Ring(Unlinked(m, p, x), q)
  {
    var m' := Unlinked(m, p, x);
    forall i | 0 <= i < |q| ensures m'[q[i]] == m[q[i]] && m'[q[i] + 1] == m[q[i] + 1] {
      assert Clear(p, q[i]) && Clear(x, q[i]);
    }
    RingFrame(m, m', q);
  }

  /** Linking in one list leaves a list that shares no word with it alone. */
  lemma LinkedElsewhere(m: Memory, n: nat, p: nat, x: nat, q: seq<nat>)
    requires Ring(m, q) && n + 1 < |m| && p + 1 < |m| && x + 1 < |m|
    requires ClearOf(q, n) && ClearOf(q, p) && ClearOf(q, x)
    ensures Ring(Linked(m, n, p, x), q)
  {
    var m' := Linked(m, n, p, x);
    forall i | 0 <= i < |q| ensures m'[q[i]] == m[q[i]] && m'[q[i] + 1] == m[q[i] + 1] {
      assert Clear(n, q[i]) && Clear(p, q[i]) && Clear(x, q[i]);
    }
    RingFrame(m, m', q);
  }

  /** INIT_LIST_HEAD. */
  method InitListHead(mem: array<Word>, head: nat)
    requires head + 1 < mem.Length
    modifies mem
    ensures Ring(mem[..], [head])
    ensures mem[..] == old(mem[..])[head := Ptr(head)][head + 1 := Ptr(head)]
  {
    mem[head] := Ptr(head);
    mem[head + 1] := Ptr(head);
  }

  /** __list_add: insert n between the neighbours prev and next. */
  method LinkBetween(mem: array<Word>, n: nat, prev: nat, next: nat, ghost r: seq<nat>, ghost i: nat)
    requires Ring(mem[..], r) && i < |r| && prev == r[i] && next == r[Next(r, i)]
    requires n + 1 < mem.Length && ClearOf(r, n)
    modifies mem
    ensures mem[..] == Linked(old(mem[..]), n, prev, next)
    ensures Ring(mem[..], Inserted(r, i, n))
  {
    LinkedRing(mem[..], r, i, n);
    mem[next + 1] := Ptr(n);
    mem[n] := Ptr(next);
    mem[n + 1] := Ptr(prev);
    mem[prev] := Ptr(n);
  }

  /** list_add: insert n right after the head. */
  method ListAdd(mem: array<Word>, n: nat, head: nat, ghost r: seq<nat>)
    requires Ring(mem[..], r) && head == r[0] && n + 1 < mem.Length && ClearOf(r, n)
    modifies mem
    ensures mem[..] == Linked(old(mem[..]), n, head, r[Next(r, 0)])
    ensures Ring(mem[..], [head, n] + r[1..])
  {
    assert LinksAt(mem[..], r, 0);
    var next := Target(mem[head]);
    LinkBetween(mem, n, head, next, r, 0);
    assert r[..1] + [n] + r[1..] == [head, n] + r[1..];
  }

  /** list_add_tail: insert n right before the head, at the end of the list. */
  method ListAddTail(mem: array<Word>, n: nat, head: nat, ghost r: seq<nat>)
    requires Ring(mem[..], r) && head == r[0] && n + 1 < mem.Length && ClearOf(r, n)
    modifies mem
    ensures Ring(mem[..], r + [n])
  {
    assert LinksAt(mem[..], r, 0);
    var prev := Target(mem[head + 1]);
    LinkBetween(mem, n, prev, head, r, |r| - 1);
    assert r[..|r|] + [n] + r[|r|..] == r + [n];
  }

  /** list_del: the entry finds its neighbours in its own links, whatever its position i. */
  method ListDel(mem: array<Word>, entry: nat, ghost r: seq<nat>, ghost i: nat)
    requires Ring(mem[..], r) && 0 < i < |r| && entry == r[i]
    modifies mem
    ensures mem[..] == Unlinked(old(mem[..]), r[Prev(r, i)], r[Next(r, i)])
    ensures Ring(mem[..], Removed(r, i))
  {
    UnlinkedRing(mem[..], r, i);
    assert LinksAt(mem[..], r, i);
    var prev, next := Target(mem[entry + 1]), Target(mem[entry]);
    mem[next + 1] := Ptr(prev);
    mem[prev] := Ptr(next);
  }

  /** list_empty. */
  method ListEmpty(mem: array<Word>, head: nat, ghost r: seq<nat>) returns (empty: bool)
    requires Ring(mem[..], r) && head == r[0]
    ensures empty <==> |r| == 1
  {
    assert LinksAt(mem[..], r, 0);
    if |r| > 1 { assert Clear(r[0], r[1]); }
    empty := Target(mem[head]) == head;
  }

  /** Unlinking what was just linked at the front restores every word except the links of n itself. */
  lemma LinkUnlink(m: Memory, r: seq<nat>, n: nat)
    requires Ring(m, r) && n + 1 < |m| && ClearOf(r, n)
    ensures var next := r[Next(r, 0)];
            var m' := Unlinked(Linked(m, n, r[0], next), r[0], next);
            forall w :: 0 <= w < |m| && w != n && w != n + 1 ==> m'[w] == m[w]
  {
    assert LinksAt(m, r, 0) && LinksAt(m, r, Next(r, 0));
  }
}
