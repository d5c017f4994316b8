/** include/utils/spinlock.h: the ticket lock, as the interleaving of its atomic steps over numCpus CPUs.
    The 16-bit machine is shown to refine a plain first-come-first-served queue. */
module TicketLock {
  import opened Options

  const M: nat := 0x1_0000        // uint16_t tickets wrap here

  /** Where a CPU stands: not using the lock, spinning with its ticket, or holding the lock. */
  datatype Pc = Idle | Waiting(me: nat) | Inside

  datatype Lock = Lock(next: nat, owner: nat, pcs: seq<Pc>)

  /** The atomic steps.  A failed test of the spin loop changes nothing and is not a step. */
  datatype Op = Take(cpu: nat) | Enter(cpu: nat) | Leave(cpu: nat)

  /** One step of the lock; None when the CPU is not at that step. */
  function Step(s: Lock, op: Op): Option<Lock> {
    if op.cpu >= |s.pcs| then None
    else
      var pc := s.pcs[op.cpu];
      match op
      case Take(c) =>
        // atomic_fetch_add(&lock->obj.next, 1)
        if pc.Idle? then Some(s.(next := (s.next + 1) % M, pcs := s.pcs[c := Waiting(s.next)])) else None
      case Enter(c) =>
        // the spin loop sees me == owner
        if pc.Waiting? && pc.me == s.owner then Some(s.(pcs := s.pcs[c := Inside])) else None
      case Leave(c) =>
        // atomic_increment(&lock->obj.owner)
        if pc.Inside? then Some(s.(owner := (s.owner + 1) % M, pcs := s.pcs[c := Idle])) else None
  }

  function Init(numCpus: nat): Lock { Lock(0, 0, seq(numCpus, i => Idle)) }

  function Run(s: Lock, ops: seq<Op>): Option<Lock>
    decreases ops
  {
    if ops == [] then Some(s)
    else
      var r := Step(s, ops[0]);
      if r.None? then None else Run(r.value, ops[1..])
  }

  // ----- the specification: a queue -----

  datatype Queue = Queue(cpus: seq<nat>, held: bool)

  function QStep(q: Queue, n: nat, op: Op): Option<Queue> {
    match op
    case Take(c) => if c < n && c !in q.cpus then Some(q.(cpus := q.cpus + [c])) else None
    case Enter(c) => if q.cpus != [] && q.cpus[0] == c && !q.held then Some(q.(held := true)) else None
    case Leave(c) => if q.cpus != [] && q.cpus[0] == c && q.held then Some(Queue(q.cpus[1..], false)) else None
  }

  function QRun(q: Queue, n: nat, ops: seq<Op>): Option<Queue>
    decreases ops
  {
    if ops == [] then Some(q)
    else
      var r := QStep(q, n, ops[0]);
      if r.None? then None else QRun(r.value, n, ops[1..])
  }

  /** The lock's tickets are the queue positions, counted from the number t of completed turns. */
  ghost predicate Refines(s: Lock, q: Queue, t: nat) {
    && s.owner == t % M && s.next == (t + |q.cpus|) % M
    && (forall i :: 0 <= i < |q.cpus| ==> q.cpus[i] < |s.pcs|)
    && (forall i, j :: 0 <= i < j < |q.cpus| ==> q.cpus[i] != q.cpus[j])
    && (forall i :: 0 <= i < |q.cpus| ==> s.pcs[q.cpus[i]] == if i == 0 && q.held then Inside else Waiting((t + i) % M))
    && (forall c: nat :: c < |s.pcs| && c !in q.cpus ==> s.pcs[c] == Idle)
    && (q.held ==> q.cpus != [])
  }

  /** Distinct numbers below n: at most n of them. */
  lemma {:induction false} Pigeonhole(l: seq<nat>, n: nat)
    requires (forall i :: 0 <= i < |l| ==> l[i] < n) && forall i, j :: 0 <= i < j < |l| ==> l[i] != l[j]
    ensures |l| <= n
  {
    var first := if |l| > 0 then l[0] else 0;
    if n == 0 {
    } else if exists i :: 0 <= i < |l| && l[i] == n - 1 {
      var i :| 0 <= i < |l| && l[i] == n - 1;
      var r := l[..i] + l[i + 1..];
      Pigeonhole(r, n - 1);
    } else {
      Pigeonhole(l, n - 1);
    }
  }

  /** Two tickets less than M apart are equal when they agree modulo M. */
  lemma SameTicket(t: nat, i: nat)
    requires i < M
    ensures (t + i) % M == t % M <==> i == 0
  {
  }

  /** A CPU in the queue is at the front exactly when its ticket is the owner's. */
  lemma FrontTicket(s: Lock, q: Queue, t: nat, c: nat)
    requires Refines(s, q, t) && |s.pcs| <= M && c < |s.pcs|
    ensures s.pcs[c].Idle? <==> c !in q.cpus
    ensures s.pcs[c] == Inside <==> q.held && q.cpus != [] && q.cpus[0] == c
    ensures s.pcs[c] == Waiting(s.owner) <==> !q.held && q.cpus != [] && q.cpus[0] == c
  {
    Pigeonhole(q.cpus, |s.pcs|);
    if c in q.cpus {
      var i :| 0 <= i < |q.cpus| && q.cpus[i] == c;
      SameTicket(t, i);
    }
  }

  /** With at most M CPUs the wrapping tickets behave exactly like the queue: the same steps are possible
      and they lead to corresponding states. */
  lemma {:induction false} StepRefines(s: Lock, q: Queue, t: nat, op: Op)
    requires Refines(s, q, t) && |s.pcs| <= M
    ensures Step(s, op).Some? <==> QStep(q, |s.pcs|, op).Some?
    ensures Step(s, op).Some? ==>
              |Step(s, op).value.pcs| == |s.pcs|
              && Refines(Step(s, op).value, QStep(q, |s.pcs|, op).value, if op.Leave? then t + 1 else t)
  {
    if op.cpu < |s.pcs| {
      FrontTicket(s, q, t, op.cpu);
      if Step(s, op).Some? {
        match op
        case Take(c) => TakeRefines(s, q, t, c);
        case Enter(c) => EnterRefines(s, q, t, c);
        case Leave(c) => LeaveRefines(s, q, t, c);
      }
    }
  }

  lemma TakeRefines(s: Lock, q: Queue, t: nat, c: nat)
    requires Refines(s, q, t) && c < |s.pcs| && c !in q.cpus
    ensures Refines(s.(next := (s.next + 1) % M, pcs := s.pcs[c := Waiting(s.next)]), q.(cpus := q.cpus + [c]), t)
  {
  }

  lemma EnterRefines(s: Lock, q: Queue, t: nat, c: nat)
    requires Refines(s, q, t) && c < |s.pcs| && q.cpus != [] && q.cpus[0] == c
    ensures Refines(s.(pcs := s.pcs[c := Inside]), q.(held := true), t)
  {
  }

  lemma LeaveRefines(s: Lock, q: Queue, t: nat, c: nat)
    requires Refines(s, q, t) && c < |s.pcs| && q.cpus != [] && q.cpus[0] == c && q.held
    ensures Refines(s.(owner := (s.owner + 1) % M, pcs := s.pcs[c := Idle]), Queue(q.cpus[1..], false), t + 1)
  {
    var s', q' := s.(owner := (s.owner + 1) % M, pcs := s.pcs[c := Idle]), Queue(q.cpus[1..], false);
    ModSucc(t);
    forall i | 0 <= i < |q'.cpus| ensures s'.pcs[q'.cpus[i]] == Waiting((t + 1 + i) % M) {
      assert q'.cpus[i] == q.cpus[i + 1] && t + 1 + i == t + (i + 1);
    }
    forall d: nat | d < |s'.pcs| && d !in q'.cpus ensures s'.pcs[d] == Idle {
      TailMember(q.cpus, d);
    }
  }

  lemma ModSucc(t: nat)
    ensures (t % M + 1) % M == (t + 1) % M
  {
  }

  lemma TailMember(l: seq<nat>, d: nat)
    requires l != []
    ensures d in l <==> d == l[0] || d in l[1..]
  {
    assert l == [l[0]] + l[1..];
  }

  /** The refinement over whole runs. */
  lemma {:induction false} RunRefines(s: Lock, q: Queue, t: nat, ops: seq<Op>)
    requires Refines(s, q, t) && |s.pcs| <= M
    decreases ops
    ensures Run(s, ops).Some? <==> QRun(q, |s.pcs|, ops).Some?
    ensures Run(s, ops).Some? ==>
              |Run(s, ops).value.pcs| == |s.pcs|
              && exists t': nat :: Refines(Run(s, ops).value, QRun(q, |s.pcs|, ops).value, t')
  {
    if ops != [] {
      StepRefines(s, q, t, ops[0]);
      if Step(s, ops[0]).Some? {
        RunRefines(Step(s, ops[0]).value, QStep(q, |s.pcs|, ops[0]).value, if ops[0].Leave? then t + 1 else t, ops[1..]);
      }
    }
  }

  lemma Reached(n: nat, ops: seq<Op>) returns (q: Queue, t: nat)
    requires n <= M && Run(Init(n), ops).Some?
    ensures QRun(Queue([], false), n, ops) == Some(q) && Refines(Run(Init(n), ops).value, q, t)
    ensures |Run(Init(n), ops).value.pcs| == n
  {
    assert Refines(Init(n), Queue([], false), 0);
    RunRefines(Init(n), Queue([], false), 0, ops);
    q := QRun(Queue([], false), n, ops).value;
    t :| Refines(Run(Init(n), ops).value, q, t);
  }

  // ----- what it means -----

  /** Mutual exclusion in every interleaving. */
  lemma MutualExclusion(n: nat, ops: seq<Op>, a: nat, b: nat)
    requires n <= M && Run(Init(n), ops).Some? && a < n && b < n
    ensures |Run(Init(n), ops).value.pcs| == n
    ensures var s := Run(Init(n), ops).value; s.pcs[a] == Inside && s.pcs[b] == Inside ==> a == b
  {
    var q, t := Reached(n, ops);
  }

  /** Progress: when tickets are out and nobody is inside, exactly one CPU can enter. */
  lemma ExactlyOneCanEnter(n: nat, ops: seq<Op>) returns (c: nat)
    requires n <= M && Run(Init(n), ops).Some?
    requires (exists w: nat :: w < |Run(Init(n), ops).value.pcs| && Run(Init(n), ops).value.pcs[w].Waiting?)
    requires forall w: nat :: w < |Run(Init(n), ops).value.pcs| ==> !Run(Init(n), ops).value.pcs[w].Inside?
    ensures forall d: nat :: Step(Run(Init(n), ops).value, Enter(d)).Some? <==> d == c
  {
    var q, t := Reached(n, ops);
    var s := Run(Init(n), ops).value;
    var w: nat :| w < |s.pcs| && s.pcs[w].Waiting?;
    assert w in q.cpus;
    c := q.cpus[0];
    var front := s.pcs[c];
    assert !q.held;
    forall d: nat ensures Step(s, Enter(d)).Some? <==> d == c {
      StepRefines(s, q, t, Enter(d));
    }
  }

  function Taken(op: Op): seq<nat> { if op.Take? then [op.cpu] else [] }

  function Entered(op: Op): seq<nat> { if op.Enter? then [op.cpu] else [] }

  /** The CPUs that take a ticket, and those that enter, in order. */
  function Takes(ops: seq<Op>): seq<nat> {
    if ops == [] then [] else Taken(ops[0]) + Takes(ops[1..])
  }

  function Enters(ops: seq<Op>): seq<nat> {
    if ops == [] then [] else Entered(ops[0]) + Enters(ops[1..])
  }

  /** The CPUs that have a ticket and are not yet inside, in ticket order. */
  function Pending(q: Queue): seq<nat> {
    if q.held && q.cpus != [] then q.cpus[1..] else q.cpus
  }

  lemma FifoStep(q: Queue, n: nat, op: Op)
    requires QStep(q, n, op).Some? && (q.held ==> q.cpus != [])
    ensures var q' := QStep(q, n, op).value;
            && (q'.held ==> q'.cpus != []) && Pending(q) + Taken(op) == Entered(op) + Pending(q')
  {
  }

  lemma Shuffle<T>(p: seq<T>, t: seq<T>, e: seq<T>, p': seq<T>, ts: seq<T>, es: seq<T>, p'': seq<T>)
    requires p + t == e + p' && p' + ts == es + p''
    ensures p + (t + ts) == (e + es) + p''
  {
    assert p + (t + ts) == (p + t) + ts;
    assert (e + p') + ts == e + (p' + ts);
    assert e + (es + p'') == (e + es) + p'';
  }

  /** FIFO as a conservation law: those waiting at the start and then those who take a ticket are, in that
      order, those who enter and then those still waiting at the end. */
  lemma {:induction false} Fifo(q: Queue, n: nat, ops: seq<Op>)
    requires QRun(q, n, ops).Some? && (q.held ==> q.cpus != [])
    decreases ops
    ensures Pending(q) + Takes(ops) == Enters(ops) + Pending(QRun(q, n, ops).value)
  {
    if ops != [] {
      var q' := QStep(q, n, ops[0]).value;
      FifoStep(q, n, ops[0]);
      Fifo(q', n, ops[1..]);
      Shuffle(Pending(q), Taken(ops[0]), Entered(ops[0]), Pending(q'), Takes(ops[1..]),
              Enters(ops[1..]), Pending(QRun(q', n, ops[1..]).value));
    }
  }

  /** CPUs enter in the order in which they took their tickets. */
  lemma EntersInTicketOrder(n: nat, ops: seq<Op>)
    requires n <= M && Run(Init(n), ops).Some?
    ensures Enters(ops) <= Takes(ops)
  {
    var q, t := Reached(n, ops);
    Fifo(Queue([], false), n, ops);
    assert Pending(Queue([], false)) + Takes(ops) == Takes(ops);
  }

  lemma {:induction false} RunAppend(s: Lock, a: seq<Op>, b: seq<Op>)
    requires Run(s, a + b).Some?
    decreases a
    ensures Run(s, a).Some? && Run(Run(s, a).value, b) == Run(s, a + b)
  {
    if a == [] {
      assert a + b == b;
    } else {
      assert (a + b)[1..] == a[1..] + b;
      RunAppend(Step(s, a[0]).value, a[1..], b);
    }
  }

  lemma {:induction false} QRunAppend(q: Queue, n: nat, a: seq<Op>, b: seq<Op>)
    requires QRun(q, n, a + b).Some?
    decreases a
    ensures QRun(q, n, a).Some? && QRun(QRun(q, n, a).value, n, b) == QRun(q, n, a + b)
  {
    if a == [] {
      assert a + b == b;
    } else {
      assert (a + b)[1..] == a[1..] + b;
      QRunAppend(QStep(q, n, a[0]).value, n, a[1..], b);
    }
  }

  /** Bounded bypass: after a CPU takes its ticket, at most n - 1 entries happen before its own. */
  lemma BoundedBypass(n: nat, before: seq<Op>, c: nat, after: seq<Op>)
    requires n <= M && Run(Init(n), before + [Take(c)] + after).Some? && c !in Enters(after)
    ensures |Enters(after)| < n
  {
    var q, t := Reached(n, before + [Take(c)] + after);
    QRunAppend(Queue([], false), n, before + [Take(c)], after);
    QRunAppend(Queue([], false), n, before, [Take(c)]);
    RunAppend(Init(n), before + [Take(c)], after);
    RunAppend(Init(n), before, [Take(c)]);
    var q0, t0 := Reached(n, before);
    var q1, t1 := Reached(n, before + [Take(c)]);
    assert q1 == QStep(q0, n, [Take(c)][0]).value by { assert [Take(c)][1..] == []; }
    Fifo(q1, n, after);
    Pigeonhole(q1.cpus, n);
    var p := Pending(q0);
    assert Pending(q1) == p + [c];
    if |Enters(after)| > |p| {
      PrefixHas(Enters(after), Pending(QRun(q1, n, after).value), p, c, Takes(after));
    }
  }

  lemma PrefixHas(e: seq<nat>, tail: seq<nat>, p: seq<nat>, c: nat, rest: seq<nat>)
    requires e + tail == p + [c] + rest && |e| > |p|
    ensures c in e
  {
    assert (e + tail)[|p|] == c;
    assert e[|p|] == c;
  }

  // ----- which steps are possible, and where they lead -----

  /** The run can go on with op. */
  predicate Possible(n: nat, ops: seq<Op>, op: Op) { Run(Init(n), ops + [op]).Some? }

  lemma PossibleStep(n: nat, ops: seq<Op>, op: Op)
    requires Run(Init(n), ops).Some?
    ensures Run(Init(n), ops + [op]) == Step(Run(Init(n), ops).value, op)
  {
    RunConcat(Init(n), ops, [op]);
    var s := Run(Init(n), ops).value;
    assert [op][1..] == [];
    if Step(s, op).Some? { assert Run(Step(s, op).value, []) == Step(s, op); }
  }

  lemma {:induction false} RunSize(s: Lock, ops: seq<Op>)
    requires Run(s, ops).Some?
    ensures |Run(s, ops).value.pcs| == |s.pcs|
    decreases ops
  {
    if ops != [] { RunSize(Step(s, ops[0]).value, ops[1..]); }
  }

  /** A CPU that is not using the lock can always take a ticket, and then waits. */
  lemma TakePossible(n: nat, ops: seq<Op>, c: nat)
    requires Run(Init(n), ops).Some? && c < n
    ensures |Run(Init(n), ops).value.pcs| == n
    ensures Possible(n, ops, Take(c)) <==> Run(Init(n), ops).value.pcs[c].Idle?
    ensures Possible(n, ops, Take(c)) ==> Moved(Run(Init(n), ops).value, Run(Init(n), ops + [Take(c)]).value, c)
                                          && Run(Init(n), ops + [Take(c)]).value.pcs[c].Waiting?
  {
    RunSize(Init(n), ops);
    PossibleStep(n, ops, Take(c));
  }

  /** A CPU that is inside can always leave, and then is idle, whether or not another one waits. */
  lemma LeavePossible(n: nat, ops: seq<Op>, c: nat)
    requires Run(Init(n), ops).Some? && c < n
    ensures |Run(Init(n), ops).value.pcs| == n
    ensures Possible(n, ops, Leave(c)) <==> Run(Init(n), ops).value.pcs[c].Inside?
    ensures Possible(n, ops, Leave(c)) ==> Moved(Run(Init(n), ops).value, Run(Init(n), ops + [Leave(c)]).value, c)
                                           && Run(Init(n), ops + [Leave(c)]).value.pcs[c].Idle?
  {
    RunSize(Init(n), ops);
    PossibleStep(n, ops, Leave(c));
  }

  /** A CPU can enter exactly when nobody is inside and it has the oldest ticket that has not been used; then it is inside. */
  lemma EnterPossible(n: nat, ops: seq<Op>, c: nat)
    requires n <= M && Run(Init(n), ops).Some? && c < n
    ensures |Run(Init(n), ops).value.pcs| == n
    ensures Possible(n, ops, Enter(c)) <==> NobodyInside(Run(Init(n), ops).value) && Enters(ops) + [c] <= Takes(ops)
    ensures Possible(n, ops, Enter(c)) ==> Moved(Run(Init(n), ops).value, Run(Init(n), ops + [Enter(c)]).value, c)
                                           && Run(Init(n), ops + [Enter(c)]).value.pcs[c].Inside?
  {
    var q, t := Reached(n, ops);
    var s := Run(Init(n), ops).value;
    PossibleStep(n, ops, Enter(c));
    StepRefines(s, q, t, Enter(c));
    Fifo(Queue([], false), n, ops);
    assert Pending(Queue([], false)) + Takes(ops) == Takes(ops);
    NextToEnter(Enters(ops), Pending(q), c);
    if q.held {
      assert s.pcs[q.cpus[0]] == Inside;
    }
  }

  lemma NextToEnter(e: seq<nat>, p: seq<nat>, c: nat)
    ensures e + [c] <= e + p <==> p != [] && p[0] == c
  {
    if e + [c] <= e + p {
      assert (e + [c])[|e|] == (e + p)[|e|];
    }
    if p != [] && p[0] == c {
      assert e + p == e + [c] + p[1..];
    }
  }

  ghost predicate NobodyInside(s: Lock) { forall d: nat :: d < |s.pcs| ==> !s.pcs[d].Inside? }

  /** Only CPU c has moved. */
  predicate Moved(s: Lock, s': Lock, c: nat) {
    |s'.pcs| == |s.pcs| && forall d: nat :: d < |s.pcs| && d != c ==> s'.pcs[d] == s.pcs[d]
  }

  ghost predicate AllIdle(s: Lock) { forall d: nat :: d < |s.pcs| ==> s.pcs[d].Idle? }

  /** Every run goes on to one after which nobody uses the lock any more. */
  lemma Drains(n: nat, ops: seq<Op>) returns (more: seq<Op>)
    requires n <= M && Run(Init(n), ops).Some?
    ensures Run(Init(n), ops + more).Some? && AllIdle(Run(Init(n), ops + more).value)
    ensures Takes(more) == []
  {
    var q, t := Reached(n, ops);
    more := DrainQueue(Run(Init(n), ops).value, q, t);
    RunConcat(Init(n), ops, more);
  }

  lemma {:induction false} DrainQueue(s: Lock, q: Queue, t: nat) returns (more: seq<Op>)
    requires Refines(s, q, t) && |s.pcs| <= M
    ensures Run(s, more).Some? && AllIdle(Run(s, more).value) && Takes(more) == []
    decreases |q.cpus|, !q.held
  {
    if q.cpus == [] {
      more := [];
    } else {
      var op := if q.held then Leave(q.cpus[0]) else Enter(q.cpus[0]);
      StepRefines(s, q, t, op);
      more := DrainQueue(Step(s, op).value, QStep(q, |s.pcs|, op).value, if q.held then t + 1 else t);
      more := [op] + more;
    }
  }

  // ----- the bound on the number of CPUs is exact -----

  function TakeAll(k: nat): seq<Op> { seq(k, i requires 0 <= i < k => Take(i)) }

  /** After k CPUs have taken tickets one after the other. */
  function Queued(n: nat, k: nat): Lock
    requires k <= n
  {
    Lock(k % M, 0, seq(n, i requires 0 <= i < n => if i < k then Waiting(i % M) else Idle))
  }

  lemma TakeOne(n: nat, j: nat)
    requires j < n
    ensures Step(Queued(n, j), Take(j)) == Some(Queued(n, j + 1))
  {
    var s := Queued(n, j);
    assert s.pcs[j := Waiting(s.next)] == Queued(n, j + 1).pcs;
  }

  lemma {:induction false} TakeAllRun(n: nat, k: nat, j: nat)
    requires j <= k <= n
    ensures Run(Queued(n, j), TakeAll(k)[j..]) == Some(Queued(n, k))
    decreases k - j
  {
    if j < k {
      var ops := TakeAll(k)[j..];
      assert ops[0] == Take(j) && ops[1..] == TakeAll(k)[j + 1..];
      TakeOne(n, j);
      TakeAllRun(n, k, j + 1);
    }
  }

  /** With more than M CPUs two of them can hold the same ticket and be inside together. */
  lemma TooManyCpus(n: nat) returns (ops: seq<Op>)
    requires n > M
    ensures Run(Init(n), ops).Some? && |Run(Init(n), ops).value.pcs| == n
    ensures var s := Run(Init(n), ops).value; s.pcs[0] == Inside && s.pcs[M] == Inside
  {
    var takes := TakeAll(M + 1);
    TakeAllRun(n, M + 1, 0);
    assert takes[0..] == takes;
    assert Queued(n, 0) == Init(n);
    var last := [Enter(0), Enter(M)];
    ops := takes + last;
    var s0 := Queued(n, M + 1);
    var s1 := Step(s0, Enter(0)).value;
    var s2 := Step(s1, Enter(M)).value;
    assert last[0] == Enter(0) && last[1..] == [Enter(M)];
    assert Run(s1, [Enter(M)]) == Run(s2, [Enter(M)][1..]) == Some(s2);
    assert Run(s0, last) == Some(s2);
    RunConcat(Init(n), takes, last);
  }

  lemma {:induction false} RunConcat(s: Lock, a: seq<Op>, b: seq<Op>)
    requires Run(s, a).Some?
    decreases a
    ensures Run(s, a + b) == Run(Run(s, a).value, b)
  {
    if a == [] {
      assert a + b == b;
    } else {
      assert (a + b)[1..] == a[1..] + b;
      RunConcat(Step(s, a[0]).value, a[1..], b);
    }
  }
}
