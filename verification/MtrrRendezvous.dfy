/** The rendezvous around mtrr_config: kernel_main (arch/x86_64/boot/init.c), ap_main (arch/x86_64/smp/smp.c)
    and acpi_sec_init (kernel/acpi.c), as the interleaving of their atomic steps.  CPU 0 is the BSP. */
module MtrrRendezvous {
  import opened Options

  /** Off: not started.  Failed: declared failed by acpi_sec_init, and assumed never to run.
      Booting: running, not yet counted.  Waiting1: spinning for mtrr_sync == g_cpus.
      Config: in mtrr_config.  Finished: past it, still counted.  Waiting2: spinning for mtrr_sync == 0. */
  datatype Pc = Off | Failed | Booting | Waiting1 | Config | Finished | Waiting2 | Done

  /** booted: the next CPU acpi_sec_init will boot; lowered: g_cpus -= count has happened. */
  datatype State = State(pcs: seq<Pc>, gCpus: nat, sync: nat, booted: nat, failures: nat, lowered: bool)

  datatype Op =
    | Start(cpu: nat)           // an AP sets its boot status while the BSP waits for it
    | BootOk                    // the BSP sees the status
    | BootFail                  // the BSP gives up
    | Lower                     // g_cpus -= count
    | Arrive(cpu: nat)          // mtrr_sync++ under the lock
    | PassFirst(cpu: nat)       // sees mtrr_sync == g_cpus and starts mtrr_config
    | Finish(cpu: nat)          // returns from mtrr_config
    | Depart(cpu: nat)          // mtrr_sync-- under the lock
    | PassSecond(cpu: nat)      // sees mtrr_sync == 0

  /** n CPUs in the ACPI table, the BSP running. */
  function Init(n: nat): State
    requires n > 0
  {
    State(seq(n, i => if i == 0 then Booting else Off), n, 0, 1, 0, false)
  }

  predicate At(s: State, c: nat, pc: Pc) { c < |s.pcs| && s.pcs[c] == pc }

  function Move(s: State, c: nat, pc: Pc): State
    requires c < |s.pcs|
  {
    s.(pcs := s.pcs[c := pc])
  }

  /** One atomic step; mtrr_sync is a uint8_t. */
  function Step(s: State, op: Op): Option<State> {
    match op
    case Start(c) => if 0 < c == s.booted && At(s, c, Off) then Some(Move(s, c, Booting)) else None
    case BootOk => if s.booted < |s.pcs| && s.pcs[s.booted] != Off then Some(s.(booted := s.booted + 1)) else None
    case BootFail =>
      if s.booted < |s.pcs| && s.pcs[s.booted] == Off
      then Some(Move(s, s.booted, Failed).(booted := s.booted + 1, failures := s.failures + 1)) else None
    case Lower =>
      if s.booted == |s.pcs| && !s.lowered && s.failures <= s.gCpus
      then Some(s.(gCpus := s.gCpus - s.failures, lowered := true)) else None
    case Arrive(c) =>
      if At(s, c, Booting) && (c == 0 ==> s.lowered)
      then Some(Move(s, c, Waiting1).(sync := (s.sync + 1) % 256)) else None
    case PassFirst(c) => if At(s, c, Waiting1) && s.sync == s.gCpus then Some(Move(s, c, Config)) else None
    case Finish(c) => if At(s, c, Config) then Some(Move(s, c, Finished)) else None
    case Depart(c) =>
      if At(s, c, Finished) then Some(Move(s, c, Waiting2).(sync := (s.sync + 255) % 256)) else None
    case PassSecond(c) => if At(s, c, Waiting2) && s.sync == 0 then Some(Move(s, c, Done)) else None
  }

  function Run(s: State, ops: seq<Op>): Option<State>
    decreases ops
  {
    if ops == [] then Some(s)
    else
      var r := Step(s, ops[0]);
      if r.None? then None else Run(r.value, ops[1..])
  }

  // ----- counting -----

  /** Counted in mtrr_sync. */
  predicate Active(pc: Pc) { pc == Waiting1 || pc == Config || pc == Finished }

  /** Past the first wait. */
  predicate Passed(pc: Pc) { pc == Config || pc == Finished || pc == Waiting2 || pc == Done }

  predicate Arrived(pc: Pc) { Active(pc) || Passed(pc) }

  function CountActive(pcs: seq<Pc>): nat {
    if pcs == [] then 0 else CountActive(pcs[..|pcs| - 1]) + if Active(pcs[|pcs| - 1]) then 1 else 0
  }

  function CountFailed(pcs: seq<Pc>): nat {
    if pcs == [] then 0 else CountFailed(pcs[..|pcs| - 1]) + if pcs[|pcs| - 1] == Failed then 1 else 0
  }

  lemma {:induction false} CountMove(pcs: seq<Pc>, c: nat, pc: Pc)
    requires c < |pcs|
    ensures CountActive(pcs[c := pc]) == CountActive(pcs) - (if Active(pcs[c]) then 1 else 0) + (if Active(pc) then 1 else 0)
    ensures CountFailed(pcs[c := pc]) == CountFailed(pcs) - (if pcs[c] == Failed then 1 else 0) + (if pc == Failed then 1 else 0)
  {
    var k := |pcs| - 1;
    if c == k {
      assert pcs[c := pc][..k] == pcs[..k];
    } else {
      CountMove(pcs[..k], c, pc);
      assert pcs[c := pc][..k] == pcs[..k][c := pc];
    }
  }

  /** The active and the failed CPUs together are at most all; they are all only if every CPU is one or the other. */
  lemma {:induction false} CountBound(pcs: seq<Pc>)
    ensures CountActive(pcs) + CountFailed(pcs) <= |pcs|
    ensures CountActive(pcs) + CountFailed(pcs) == |pcs| ==> forall c :: 0 <= c < |pcs| ==> Active(pcs[c]) || pcs[c] == Failed
    ensures CountActive(pcs) == 0 ==> forall c :: 0 <= c < |pcs| ==> !Active(pcs[c])
  {
    if pcs != [] {
      CountBound(pcs[..|pcs| - 1]);
      assert forall c :: 0 <= c < |pcs| - 1 ==> pcs[..|pcs| - 1][c] == pcs[c];
    }
  }

  // ----- the invariant -----

  ghost predicate Inv(s: State) { Counted(s) && Booted(s) && Ordered(s) }

  ghost predicate Counted(s: State) {
    && s.sync == CountActive(s.pcs) % 256 && s.failures == CountFailed(s.pcs)
    && s.gCpus == if s.lowered then |s.pcs| - s.failures else |s.pcs|
  }

  ghost predicate Booted(s: State) {
    && |s.pcs| > 0 && 0 < s.booted <= |s.pcs|
    && (forall c :: s.booted < c < |s.pcs| ==> s.pcs[c] == Off)
    && (forall c :: 0 < c < s.booted ==> s.pcs[c] != Off)
    && s.pcs[0] != Off && s.pcs[0] != Failed
    && (s.lowered ==> s.booted == |s.pcs|)
    && (!s.lowered ==> s.pcs[0] == Booting)
  }

  ghost predicate Ordered(s: State) {
    && ((exists c :: 0 <= c < |s.pcs| && Passed(s.pcs[c])) ==> AllArrived(s))
    && ((exists c :: 0 <= c < |s.pcs| && s.pcs[c] == Done) ==> AllFinished(s))
  }

  /** Every CPU that has not been declared failed has been counted, and they are g_cpus many. */
  ghost predicate AllArrived(s: State) {
    && s.lowered && s.gCpus == |s.pcs| - CountFailed(s.pcs) && s.gCpus < 256
    && forall c :: 0 <= c < |s.pcs| ==> s.pcs[c] == Failed || Arrived(s.pcs[c])
  }

  /** Every CPU that has not been declared failed is past mtrr_config. */
  ghost predicate AllFinished(s: State) {
    forall c :: 0 <= c < |s.pcs| ==> s.pcs[c] == Failed || s.pcs[c] == Waiting2 || s.pcs[c] == Done
  }

  lemma InitInv(n: nat)
    requires n > 0
    ensures Inv(Init(n))
  {
    InitCounts(n);
  }

  lemma {:induction false} InitCounts(n: nat)
    requires n > 0
    ensures CountActive(Init(n).pcs) == 0 && CountFailed(Init(n).pcs) == 0
  {
    if n > 1 {
      InitCounts(n - 1);
      assert Init(n).pcs[..n - 1] == Init(n - 1).pcs;
    } else {
      assert Init(1).pcs[..0] == [];
    }
  }

  /** The one instant that matters: mtrr_sync can equal g_cpus only when all have arrived. */
  lemma FirstWait(s: State)
    requires Inv(s) && s.sync == s.gCpus && exists c :: 0 <= c < |s.pcs| && s.pcs[c] == Waiting1
    ensures AllArrived(s)
  {
    CountBound(s.pcs);
  }

  /** And it can be zero, after the first wait, only when all have finished. */
  lemma SecondWait(s: State)
    requires Inv(s) && s.sync == 0 && AllArrived(s)
    ensures AllFinished(s)
  {
    CountBound(s.pcs);
  }

  lemma StepInv(s: State, op: Op)
    requires Inv(s) && Step(s, op).Some?
    ensures Inv(Step(s, op).value)
  {
    match op
    case Start(c) => StartInv(s, c);
    case BootOk => BootOkInv(s);
    case BootFail => BootFailInv(s);
    case Lower => LowerInv(s);
    case Arrive(c) => ArriveInv(s, c);
    case PassFirst(c) => PassFirstInv(s, c);
    case Finish(c) => FinishInv(s, c);
    case Depart(c) => DepartInv(s, c);
    case PassSecond(c) => PassSecondInv(s, c);
  }

  lemma StartInv(s: State, c: nat)
    requires Inv(s) && Step(s, Start(c)).Some?
    ensures Inv(Step(s, Start(c)).value)
  {
    CountMove(s.pcs, c, Booting);
  }

  lemma BootOkInv(s: State)
    requires Inv(s) && Step(s, BootOk).Some?
    ensures Inv(Step(s, BootOk).value)
  {
  }

  lemma BootFailInv(s: State)
    requires Inv(s) && Step(s, BootFail).Some?
    ensures Inv(Step(s, BootFail).value)
  {
    CountMove(s.pcs, s.booted, Failed);
  }

  lemma LowerInv(s: State)
    requires Inv(s) && Step(s, Lower).Some?
    ensures Inv(Step(s, Lower).value)
  {
  }

  lemma ArriveInv(s: State, c: nat)
    requires Inv(s) && Step(s, Arrive(c)).Some?
    ensures Inv(Step(s, Arrive(c)).value)
  {
    ArriveCounted(s, c);
    ArriveOrdered(s, c);
  }

  lemma ArriveCounted(s: State, c: nat)
    requires Counted(s) && Step(s, Arrive(c)).Some?
    ensures Counted(Step(s, Arrive(c)).value)
  {
    CountMove(s.pcs, c, Waiting1);
    ModSucc(CountActive(s.pcs));
  }

  lemma ArriveOrdered(s: State, c: nat)
    requires Ordered(s) && Step(s, Arrive(c)).Some?
    ensures Ordered(Step(s, Arrive(c)).value)
  {
    CountMove(s.pcs, c, Waiting1);
    assert !Passed(Waiting1);
  }

  lemma ModSucc(k: nat)
    ensures (k % 256 + 1) % 256 == (k + 1) % 256
  {
  }

  lemma PassFirstInv(s: State, c: nat)
    requires Inv(s) && Step(s, PassFirst(c)).Some?
    ensures Inv(Step(s, PassFirst(c)).value)
  {
    FirstWait(s);
    CountMove(s.pcs, c, Config);
  }

  lemma FinishInv(s: State, c: nat)
    requires Inv(s) && Step(s, Finish(c)).Some?
    ensures Inv(Step(s, Finish(c)).value)
  {
    CountMove(s.pcs, c, Finished);
  }

  lemma DepartInv(s: State, c: nat)
    requires Inv(s) && Step(s, Depart(c)).Some?
    ensures Inv(Step(s, Depart(c)).value)
  {
    DepartCounted(s, c);
    DepartOrdered(s, c);
  }

  lemma DepartCounted(s: State, c: nat)
    requires Counted(s) && Step(s, Depart(c)).Some?
    ensures Counted(Step(s, Depart(c)).value)
  {
    CountBound(s.pcs);
    CountMove(s.pcs, c, Waiting2);
    ModPred(CountActive(s.pcs));
  }

  lemma DepartOrdered(s: State, c: nat)
    requires Ordered(s) && Step(s, Depart(c)).Some?
    ensures Ordered(Step(s, Depart(c)).value)
  {
    CountMove(s.pcs, c, Waiting2);
    assert Passed(s.pcs[c]);
  }

  lemma ModPred(k: nat)
    requires k > 0
    ensures (k % 256 + 255) % 256 == (k - 1) % 256
  {
  }

  lemma PassSecondInv(s: State, c: nat)
    requires Inv(s) && Step(s, PassSecond(c)).Some?
    ensures Inv(Step(s, PassSecond(c)).value)
  {
    SecondWait(s);
    CountMove(s.pcs, c, Done);
  }

  lemma {:induction false} RunInv(s: State, ops: seq<Op>)
    requires Inv(s) && Run(s, ops).Some?
    ensures Inv(Run(s, ops).value)
    decreases ops
  {
    if ops != [] {
      StepInv(s, ops[0]);
      RunInv(Step(s, ops[0]).value, ops[1..]);
    }
  }

  /** Safety in every interleaving, for any number of CPUs: once a CPU has started mtrr_config, every CPU not
      declared failed has arrived; once a CPU has passed the second wait, every one of them has finished. */
  lemma Rendezvous(n: nat, ops: seq<Op>, c: nat)
    requires n > 0 && Run(Init(n), ops).Some?
    requires c < |Run(Init(n), ops).value.pcs|
    ensures Passed(Run(Init(n), ops).value.pcs[c]) ==> AllArrived(Run(Init(n), ops).value)
    ensures Run(Init(n), ops).value.pcs[c] == Done ==> AllFinished(Run(Init(n), ops).value)
  {
    InitInv(n);
    RunInv(Init(n), ops);
  }

  // ----- which steps are possible -----

  /** The run can go on with op. */
  predicate Possible(n: nat, ops: seq<Op>, op: Op)
    requires n > 0
  {
    Run(Init(n), ops + [op]).Some?
  }

  lemma {:induction false} RunConcat(s: State, a: seq<Op>, b: seq<Op>)
    requires Run(s, a).Some?
    ensures Run(s, a + b) == Run(Run(s, a).value, b)
    decreases a
  {
    if a == [] {
      assert a + b == b;
    } else {
      assert (a + b)[1..] == a[1..] + b;
      RunConcat(Step(s, a[0]).value, a[1..], b);
    }
  }

  /** How often acpi_sec_init has gone on to the next CPU. */
  function Boots(ops: seq<Op>): nat {
    if ops == [] then 0 else (if ops[0].BootOk? || ops[0].BootFail? then 1 else 0) + Boots(ops[1..])
  }

  /** What the steps taken say about the state. */
  lemma {:induction false} RunHistory(s: State, ops: seq<Op>)
    requires Run(s, ops).Some?
    ensures Run(s, ops).value.booted == s.booted + Boots(ops) && |Run(s, ops).value.pcs| == |s.pcs|
    ensures Run(s, ops).value.lowered <==> s.lowered || Lower in ops
    decreases ops
  {
    if ops != [] {
      RunHistory(Step(s, ops[0]).value, ops[1..]);
      assert Lower in ops <==> ops[0] == Lower || Lower in ops[1..];
    }
  }

  lemma Reached(n: nat, ops: seq<Op>, op: Op) returns (s: State)
    requires n > 0 && Run(Init(n), ops).Some?
    ensures s == Run(Init(n), ops).value && Inv(s) && |s.pcs| == n
    ensures s.booted == 1 + Boots(ops) && (s.lowered <==> Lower in ops)
    ensures Run(Init(n), ops + [op]) == Step(s, op)
  {
    InitInv(n);
    RunInv(Init(n), ops);
    RunHistory(Init(n), ops);
    RunConcat(Init(n), ops, [op]);
    s := Run(Init(n), ops).value;
    assert [op][1..] == [];
    if Step(s, op).Some? { assert Run(Step(s, op).value, []) == Step(s, op); }
  }

  /** The BSP boots the CPUs one after the other; each starts by itself or is given up. */
  lemma BootPossible(n: nat, ops: seq<Op>, c: nat)
    requires n > 0 && Run(Init(n), ops).Some? && c < n
    ensures |Run(Init(n), ops).value.pcs| == n
    ensures Possible(n, ops, Start(c)) <==> 0 < c == 1 + Boots(ops) && Run(Init(n), ops).value.pcs[c] == Off
    ensures Possible(n, ops, BootOk) <==> 1 + Boots(ops) < n && Run(Init(n), ops).value.pcs[1 + Boots(ops)] != Off
    ensures Possible(n, ops, BootFail) <==> 1 + Boots(ops) < n && Run(Init(n), ops).value.pcs[1 + Boots(ops)] == Off
  {
    var s := Reached(n, ops, Start(c));
    s := Reached(n, ops, BootOk);
    s := Reached(n, ops, BootFail);
  }

  /** g_cpus is lowered once, when all CPUs have been booted or given up. */
  lemma LowerPossible(n: nat, ops: seq<Op>)
    requires n > 0 && Run(Init(n), ops).Some?
    ensures Possible(n, ops, Lower) <==> 1 + Boots(ops) == n && Lower !in ops
  {
    var s := Reached(n, ops, Lower);
    CountBound(s.pcs);
  }

  /** An AP is counted as soon as it runs, whether or not the BSP is still booting others; the BSP after it has lowered g_cpus. */
  lemma ArrivePossible(n: nat, ops: seq<Op>, c: nat)
    requires n > 0 && Run(Init(n), ops).Some? && c < n
    ensures |Run(Init(n), ops).value.pcs| == n
    ensures Possible(n, ops, Arrive(c)) <==> Run(Init(n), ops).value.pcs[c] == Booting && (c == 0 ==> Lower in ops)
  {
    var s := Reached(n, ops, Arrive(c));
  }

  /** The first wait ends for a CPU exactly while all that were not given up, fewer than 256, are counted. */
  lemma PassFirstPossible(n: nat, ops: seq<Op>, c: nat)
    requires n > 0 && Run(Init(n), ops).Some? && c < n
    ensures |Run(Init(n), ops).value.pcs| == n
    ensures var s := Run(Init(n), ops).value;
            Possible(n, ops, PassFirst(c)) <==>
              && s.pcs[c] == Waiting1 && Lower in ops && n - CountFailed(s.pcs) < 256
              && forall d :: 0 <= d < n ==> s.pcs[d] == Failed || Active(s.pcs[d])
  {
    var s := Reached(n, ops, PassFirst(c));
    CountBound(s.pcs);
    if forall d :: 0 <= d < n ==> s.pcs[d] == Failed || Active(s.pcs[d]) { CountAll(s.pcs); }
    if s.pcs[c] == Waiting1 && s.sync == s.gCpus {
      FirstWait(s);
    }
  }

  /** mtrr_config ends, and the CPU leaves the count. */
  lemma DepartPossible(n: nat, ops: seq<Op>, c: nat)
    requires n > 0 && Run(Init(n), ops).Some? && c < n
    ensures |Run(Init(n), ops).value.pcs| == n
    ensures Possible(n, ops, Finish(c)) <==> Run(Init(n), ops).value.pcs[c] == Config
    ensures Possible(n, ops, Depart(c)) <==> Run(Init(n), ops).value.pcs[c] == Finished
  {
    var s := Reached(n, ops, Finish(c));
    s := Reached(n, ops, Depart(c));
  }

  /** The second wait ends for a CPU exactly while none is counted. */
  lemma PassSecondPossible(n: nat, ops: seq<Op>, c: nat)
    requires n > 0 && Run(Init(n), ops).Some? && c < n
    ensures |Run(Init(n), ops).value.pcs| == n
    ensures var s := Run(Init(n), ops).value;
            Possible(n, ops, PassSecond(c)) <==> s.pcs[c] == Waiting2 && forall d :: 0 <= d < n ==> !Active(s.pcs[d])
  {
    var s := Reached(n, ops, PassSecond(c));
    CountBound(s.pcs);
    if forall d :: 0 <= d < n ==> !Active(s.pcs[d]) { CountNone(s.pcs); }
    if s.pcs[c] == Waiting2 {
      assert Passed(s.pcs[c]);
    }
  }

  /** What a step does to the CPUs. */
  lemma StepMoves(n: nat, ops: seq<Op>, op: Op)
    requires n > 0 && Run(Init(n), ops).Some? && Possible(n, ops, op)
    ensures var s, s' := Run(Init(n), ops).value, Run(Init(n), ops + [op]).value;
            && |s.pcs| == n
            && match op
               case Start(c) => c < n && s'.pcs == s.pcs[c := Booting]
               case BootOk => s'.pcs == s.pcs
               case BootFail => 1 + Boots(ops) < n && s'.pcs == s.pcs[1 + Boots(ops) := Failed]
               case Lower => s'.pcs == s.pcs
               case Arrive(c) => c < n && s'.pcs == s.pcs[c := Waiting1]
               case PassFirst(c) => c < n && s'.pcs == s.pcs[c := Config]
               case Finish(c) => c < n && s'.pcs == s.pcs[c := Finished]
               case Depart(c) => c < n && s'.pcs == s.pcs[c := Waiting2]
               case PassSecond(c) => c < n && s'.pcs == s.pcs[c := Done]
  {
    var s := Reached(n, ops, op);
  }

  lemma {:induction false} CountAll(pcs: seq<Pc>)
    requires forall c :: 0 <= c < |pcs| ==> pcs[c] == Failed || Active(pcs[c])
    ensures CountActive(pcs) + CountFailed(pcs) == |pcs|
  {
    if pcs != [] { CountAll(pcs[..|pcs| - 1]); }
  }

  lemma {:induction false} CountNone(pcs: seq<Pc>)
    requires forall c :: 0 <= c < |pcs| ==> !Active(pcs[c])
    ensures CountActive(pcs) == 0
  {
    if pcs != [] { CountNone(pcs[..|pcs| - 1]); }
  }

  lemma {:induction false} NoneFailed(pcs: seq<Pc>)
    requires forall c :: 0 <= c < |pcs| ==> pcs[c] != Failed
    ensures CountFailed(pcs) == 0
  {
    if pcs != [] { NoneFailed(pcs[..|pcs| - 1]); }
  }

  // ----- runs that go all the way -----

  /** CPUs 1 to k - 1 have been booted and wait already; the BSP boots k next. */
  function Early(n: nat, k: nat): State
    requires 1 <= k <= n
  {
    State(EarlyPcs(n, k), n, (k - 1) % 256, k, 0, false)
  }

  function EarlyPcs(n: nat, k: nat): (pcs: seq<Pc>)
    ensures |pcs| == n && forall i :: 0 <= i < n ==> pcs[i] == if i == 0 then Booting else if i < k then Waiting1 else Off
  {
    seq(n, i => if i == 0 then Booting else if i < k then Waiting1 else Off)
  }

  /** All n CPUs run, the first k at pc b and the others at pc a. */
  function Mixed(n: nat, a: Pc, b: Pc, k: nat, sync: nat): State {
    State(MixedPcs(n, a, b, k), n, sync, n, 0, true)
  }

  function MixedPcs(n: nat, a: Pc, b: Pc, k: nat): (pcs: seq<Pc>)
    ensures |pcs| == n && forall i :: 0 <= i < n ==> pcs[i] == if i < k then b else a
  {
    seq(n, i => if i < k then b else a)
  }

  /** CPU k starts, is counted at once, and the BSP goes on to the next. */
  lemma EarlyStep(n: nat, k: nat, rest: seq<Op>) returns (ops: seq<Op>)
    requires 1 <= k < n
    ensures Run(Early(n, k), ops) == Run(Early(n, k + 1), rest) && (Lower in ops <==> Lower in rest)
  {
    var s := Early(n, k);
    var s1 := Move(s, k, Booting);
    var s2 := s1.(booted := k + 1);
    EarlyMoved(n, k);
    ModSucc(k - 1);
    ops := Prepend(s2, Arrive(k), Early(n, k + 1), rest);
    ops := Prepend(s1, BootOk, s2, ops);
    ops := Prepend(s, Start(k), s1, ops);
  }

  lemma EarlyMoved(n: nat, k: nat)
    requires 1 <= k < n
    ensures EarlyPcs(n, k)[k := Booting][k := Waiting1] == EarlyPcs(n, k + 1)
  {
    var a, b := EarlyPcs(n, k)[k := Booting][k := Waiting1], EarlyPcs(n, k + 1);
    forall i | 0 <= i < n ensures a[i] == b[i] {
    }
  }

  lemma {:induction false} EarlyRun(n: nat, k: nat, rest: seq<Op>) returns (ops: seq<Op>)
    requires 1 <= k <= n
    ensures Run(Early(n, k), ops) == Run(Early(n, n), rest) && (Lower in ops <==> Lower in rest)
    decreases n - k
  {
    ops := rest;
    if k < n {
      ops := EarlyRun(n, k + 1, rest);
      ops := EarlyStep(n, k, ops);
    }
  }

  lemma EarlyInit(n: nat)
    requires n > 0
    ensures Init(n) == Early(n, 1)
  {
    assert Init(n).pcs == EarlyPcs(n, 1);
  }

  /** All APs can wait for the BSP before it has lowered g_cpus. */
  lemma EarlyArrivals(n: nat) returns (ops: seq<Op>)
    requires n >= 2
    ensures Run(Init(n), ops).Some? && Lower !in ops && |Run(Init(n), ops).value.pcs| == n
    ensures forall c :: 0 < c < n ==> Run(Init(n), ops).value.pcs[c] == Waiting1
    ensures Run(Init(n), ops) == Some(Early(n, n))
  {
    EarlyInit(n);
    ops := EarlyRun(n, 1, []);
  }

  /** One more CPU has gone from a to b. */
  lemma MixedMoved(n: nat, a: Pc, b: Pc, k: nat)
    requires k < n
    ensures MixedPcs(n, a, b, k)[k := b] == MixedPcs(n, a, b, k + 1)
  {
    var p, q := MixedPcs(n, a, b, k)[k := b], MixedPcs(n, a, b, k + 1);
    forall i | 0 <= i < n ensures p[i] == q[i] {
    }
  }

  lemma MixedTurned(n: nat, a: Pc, b: Pc, c: Pc, sync: nat)
    ensures Mixed(n, a, b, n, sync) == Mixed(n, b, c, 0, sync)
  {
    var p, q := MixedPcs(n, a, b, n), MixedPcs(n, b, c, 0);
    forall i | 0 <= i < n ensures p[i] == q[i] {
    }
  }

  lemma {:induction false} AllPassFirst(n: nat, k: nat, rest: seq<Op>) returns (ops: seq<Op>)
    requires k <= n < 256
    ensures Run(Mixed(n, Waiting1, Config, k, n), ops) == Run(Mixed(n, Waiting1, Config, n, n), rest)
    decreases n - k
  {
    ops := rest;
    if k < n {
      ops := AllPassFirst(n, k + 1, rest);
      MixedMoved(n, Waiting1, Config, k);
      ops := Prepend(Mixed(n, Waiting1, Config, k, n), PassFirst(k), Mixed(n, Waiting1, Config, k + 1, n), ops);
    }
  }

  lemma {:induction false} AllFinish(n: nat, k: nat, rest: seq<Op>) returns (ops: seq<Op>)
    requires k <= n
    ensures Run(Mixed(n, Config, Finished, k, n), ops) == Run(Mixed(n, Config, Finished, n, n), rest)
    decreases n - k
  {
    ops := rest;
    if k < n {
      ops := AllFinish(n, k + 1, rest);
      MixedMoved(n, Config, Finished, k);
      ops := Prepend(Mixed(n, Config, Finished, k, n), Finish(k), Mixed(n, Config, Finished, k + 1, n), ops);
    }
  }

  lemma {:induction false} AllDepart(n: nat, k: nat, rest: seq<Op>) returns (ops: seq<Op>)
    requires k <= n < 256
    ensures Run(Mixed(n, Finished, Waiting2, k, n - k), ops) == Run(Mixed(n, Finished, Waiting2, n, 0), rest)
    decreases n - k
  {
    ops := rest;
    if k < n {
      ops := AllDepart(n, k + 1, rest);
      MixedMoved(n, Finished, Waiting2, k);
      ops := Prepend(Mixed(n, Finished, Waiting2, k, n - k), Depart(k), Mixed(n, Finished, Waiting2, k + 1, n - (k + 1)), ops);
    }
  }

  lemma {:induction false} AllPassSecond(n: nat, k: nat) returns (ops: seq<Op>)
    requires k <= n
    ensures Run(Mixed(n, Waiting2, Done, k, 0), ops) == Some(Mixed(n, Waiting2, Done, n, 0))
    decreases n - k
  {
    ops := [];
    if k < n {
      ops := AllPassSecond(n, k + 1);
      MixedMoved(n, Waiting2, Done, k);
      ops := Prepend(Mixed(n, Waiting2, Done, k, 0), PassSecond(k), Mixed(n, Waiting2, Done, k + 1, 0), ops);
    }
  }

  /** The BSP lowers g_cpus by nothing and arrives last. */
  lemma BspArrives(n: nat, rest: seq<Op>) returns (ops: seq<Op>)
    requires 0 < n < 256
    ensures Run(Early(n, n), ops) == Run(Mixed(n, Waiting1, Config, 0, n), rest)
  {
    var s := Early(n, n);
    var s1 := s.(lowered := true);
    var p, q := EarlyPcs(n, n)[0 := Waiting1], MixedPcs(n, Waiting1, Config, 0);
    forall i | 0 <= i < n ensures p[i] == q[i] {
    }
    assert p == q;
    ops := Prepend(s1, Arrive(0), Mixed(n, Waiting1, Config, 0, n), rest);
    ops := Prepend(s, Lower, s1, ops);
  }

  /** From the early arrivals on, up to 255 CPUs can all get through. */
  lemma EarlyFinish(n: nat) returns (rest: seq<Op>)
    requires 0 < n < 256
    ensures Run(Early(n, n), rest) == Some(Mixed(n, Waiting2, Done, n, 0))
  {
    rest := AllPassSecond(n, 0);
    MixedTurned(n, Finished, Waiting2, Done, 0);
    rest := AllDepart(n, 0, rest);
    MixedTurned(n, Config, Finished, Waiting2, n);
    rest := AllFinish(n, 0, rest);
    MixedTurned(n, Waiting1, Config, Finished, n);
    rest := AllPassFirst(n, 0, rest);
    rest := BspArrives(n, rest);
  }

  /** Some run takes every CPU through, none given up. */
  ghost predicate AllThrough(n: nat)
    requires n > 0
  {
    exists ops :: Run(Init(n), ops).Some? && EveryDone(Run(Init(n), ops).value)
  }

  ghost predicate EveryDone(s: State) { forall c :: 0 <= c < |s.pcs| ==> s.pcs[c] == Done }

  /** The uint8_t counter lets all CPUs through exactly up to 255 of them. */
  lemma AllThroughExactly(n: nat)
    requires n > 0
    ensures AllThrough(n) <==> n < 256
  {
    if n < 256 {
      var rest := EarlyFinish(n);
      EarlyInit(n);
      var ops := EarlyRun(n, 1, rest);
      assert EveryDone(Run(Init(n), ops).value);
    } else {
      forall ops | Run(Init(n), ops).Some? ensures !EveryDone(Run(Init(n), ops).value) {
        var s := Reached(n, ops, Lower);
        if s.pcs[0] == Done {
          Rendezvous(n, ops, 0);
          if EveryDone(s) { NoneFailed(s.pcs); }
        }
      }
    }
  }

  // ----- liveness -----

  /** No step is possible although some CPU that was not given up is not through. */
  ghost predicate Dead(s: State) {
    && (forall op :: Step(s, op).None?)
    && (exists c: nat :: c < |s.pcs| && s.pcs[c] != Done && s.pcs[c] != Failed)
  }

  ghost predicate CanDie(n: nat)
    requires n > 0
  {
    exists ops :: Run(Init(n), ops).Some? && Dead(Run(Init(n), ops).value)
  }

  /** The rendezvous can die exactly when there is more than one CPU: one can be through mtrr_config and out of the
      count before another looks at it. */
  lemma CanDieExactly(n: nat)
    requires n > 0
    ensures CanDie(n) <==> n >= 2
  {
    if n >= 2 {
      var ops := Deadlock(n);
    } else {
      forall ops | Run(Init(1), ops).Some? ensures !Dead(Run(Init(1), ops).value) {
        InitInv(1);
        RunInv(Init(1), ops);
        RunKeepsCpus(Init(1), ops);
        AloneMoves(Run(Init(1), ops).value);
      }
    }
  }

  lemma {:induction false} RunKeepsCpus(s: State, ops: seq<Op>)
    requires Run(s, ops).Some?
    ensures |Run(s, ops).value.pcs| == |s.pcs|
    decreases ops
  {
    if ops != [] {
      RunKeepsCpus(Step(s, ops[0]).value, ops[1..]);
    }
  }

  /** A single CPU always has a step until it is through. */
  lemma AloneMoves(s: State)
    requires Inv(s) && |s.pcs| == 1
    ensures !Dead(s)
  {
    var pc := s.pcs[0];
    assert CountActive(s.pcs) == if Active(pc) then 1 else 0;
    assert CountFailed(s.pcs) == if pc == Failed then 1 else 0;
    if pc == Booting {
      assert Step(s, if s.lowered then Arrive(0) else Lower).Some?;
    } else if pc == Waiting1 {
      assert Step(s, PassFirst(0)).Some?;
    } else if pc == Config {
      assert Step(s, Finish(0)).Some?;
    } else if pc == Finished {
      assert Step(s, Depart(0)).Some?;
    } else if pc == Waiting2 {
      assert Step(s, PassSecond(0)).Some?;
    }
  }

  /** CPU 1 is booted, all further ones are given up; k is the next to be booted. */
  function Given(n: nat, k: nat): State
    requires 2 <= k <= n
  {
    State(GivenPcs(n, k), n, 0, k, k - 2, false)
  }

  function GivenPcs(n: nat, k: nat): (pcs: seq<Pc>)
    ensures |pcs| == n && forall i :: 0 <= i < n ==> pcs[i] == if i < 2 then Booting else if i < k then Failed else Off
  {
    seq(n, i => if i < 2 then Booting else if i < k then Failed else Off)
  }

  /** The two remaining CPUs, in the rendezvous or before it. */
  function Two(n: nat, bsp: Pc, ap: Pc, sync: nat): State
    requires n >= 2
  {
    State(TwoPcs(n, bsp, ap), 2, sync, n, n - 2, true)
  }

  function TwoPcs(n: nat, bsp: Pc, ap: Pc): (pcs: seq<Pc>)
    ensures |pcs| == n && forall i :: 0 <= i < n ==> pcs[i] == if i == 0 then bsp else if i == 1 then ap else Failed
  {
    seq(n, i => if i == 0 then bsp else if i == 1 then ap else Failed)
  }

  /** Everybody but the BSP and CPU 1 is given up, both arrive, the BSP goes through and leaves the count. */
  lemma Deadlock(n: nat) returns (ops: seq<Op>)
    requires n >= 2
    ensures Run(Init(n), ops) == Some(Two(n, Waiting2, Waiting1, 1)) && Dead(Two(n, Waiting2, Waiting1, 1))
  {
    ops := DeadlockLeave(n);
    ops := DeadlockMeet(n, ops);
    ops := DeadlockGiveUp(n, 2, ops);
    ops := DeadlockBoot(n, ops);
    Stuck(n);
  }

  lemma Stuck(n: nat)
    requires n >= 2
    ensures Dead(Two(n, Waiting2, Waiting1, 1))
  {
    assert Two(n, Waiting2, Waiting1, 1).pcs[0] == Waiting2;
  }

  /** Both arrive. */
  lemma DeadlockMeet(n: nat, rest: seq<Op>) returns (ops: seq<Op>)
    requires n >= 2
    ensures Run(Two(n, Booting, Booting, 0), ops) == Run(Two(n, Waiting1, Waiting1, 2), rest)
  {
    MoveTwo(n, Booting, Waiting1, 1, 0, Waiting1, 2);
    ops := Prepend(Two(n, Booting, Waiting1, 1), Arrive(0), Two(n, Waiting1, Waiting1, 2), rest);
    MoveTwo(n, Booting, Booting, 0, 1, Waiting1, 1);
    ops := Prepend(Two(n, Booting, Booting, 0), Arrive(1), Two(n, Booting, Waiting1, 1), ops);
  }

  /** The BSP goes through and leaves the count. */
  lemma DeadlockLeave(n: nat) returns (ops: seq<Op>)
    requires n >= 2
    ensures Run(Two(n, Waiting1, Waiting1, 2), ops) == Some(Two(n, Waiting2, Waiting1, 1))
  {
    MoveTwo(n, Finished, Waiting1, 2, 0, Waiting2, 1);
    ops := Prepend(Two(n, Finished, Waiting1, 2), Depart(0), Two(n, Waiting2, Waiting1, 1), []);
    MoveTwo(n, Config, Waiting1, 2, 0, Finished, 2);
    ops := Prepend(Two(n, Config, Waiting1, 2), Finish(0), Two(n, Finished, Waiting1, 2), ops);
    MoveTwo(n, Waiting1, Waiting1, 2, 0, Config, 2);
    ops := Prepend(Two(n, Waiting1, Waiting1, 2), PassFirst(0), Two(n, Config, Waiting1, 2), ops);
  }

  lemma TwoMoved(n: nat, bsp: Pc, ap: Pc, c: nat, pc: Pc)
    requires n >= 2 && c < 2
    ensures TwoPcs(n, bsp, ap)[c := pc] == TwoPcs(n, if c == 0 then pc else bsp, if c == 1 then pc else ap)
  {
    var a, b := TwoPcs(n, bsp, ap)[c := pc], TwoPcs(n, if c == 0 then pc else bsp, if c == 1 then pc else ap);
    forall i | 0 <= i < n ensures a[i] == b[i] {
    }
  }

  lemma MoveTwo(n: nat, bsp: Pc, ap: Pc, sync: nat, c: nat, pc: Pc, sync': nat)
    requires n >= 2 && c < 2
    ensures Move(Two(n, bsp, ap, sync), c, pc).(sync := sync')
         == Two(n, if c == 0 then pc else bsp, if c == 1 then pc else ap, sync')
  {
    TwoMoved(n, bsp, ap, c, pc);
  }

  /** CPUs k to n - 1 are given up and g_cpus is lowered. */
  lemma {:induction false} DeadlockGiveUp(n: nat, k: nat, rest: seq<Op>) returns (ops: seq<Op>)
    requires 2 <= k <= n
    ensures Run(Given(n, k), ops) == Run(Two(n, Booting, Booting, 0), rest)
    decreases n - k
  {
    if k == n {
      GivenUp(n);
      ops := Prepend(Given(n, n), Lower, Two(n, Booting, Booting, 0), rest);
    } else {
      ops := DeadlockGiveUp(n, k + 1, rest);
      GiveUpStep(n, k);
      ops := Prepend(Given(n, k), BootFail, Given(n, k + 1), ops);
    }
  }

  lemma GivenUp(n: nat)
    requires n >= 2
    ensures Step(Given(n, n), Lower) == Some(Two(n, Booting, Booting, 0))
  {
    var a, b := GivenPcs(n, n), TwoPcs(n, Booting, Booting);
    forall i | 0 <= i < n ensures a[i] == b[i] {
    }
    assert a == b;
  }

  lemma GiveUpStep(n: nat, k: nat)
    requires 2 <= k < n
    ensures Step(Given(n, k), BootFail) == Some(Given(n, k + 1))
  {
    var a, b := GivenPcs(n, k)[k := Failed], GivenPcs(n, k + 1);
    forall i | 0 <= i < n ensures a[i] == b[i] {
    }
    assert a == b;
  }

  /** CPU 1 is booted. */
  lemma DeadlockBoot(n: nat, rest: seq<Op>) returns (ops: seq<Op>)
    requires n >= 2
    ensures Run(Init(n), ops) == Run(Given(n, 2), rest)
  {
    var s := Move(Init(n), 1, Booting);
    assert s.pcs == Given(n, 2).pcs;
    ops := Prepend(s, BootOk, Given(n, 2), rest);
    ops := Prepend(Init(n), Start(1), s, ops);
  }

  lemma Prepend(s: State, op: Op, s': State, rest: seq<Op>) returns (ops: seq<Op>)
    requires Step(s, op) == Some(s')
    ensures Run(s, ops) == Run(s', rest)
    ensures ops == [op] + rest
  {
    ops := [op] + rest;
    assert ops[1..] == rest;
  }
}
