/** The supervisor-mode instruction test, `amtu_priv`, of every supported
    architecture: one child per privileged instruction of a fixed catalog,
    in order, each of which must die of a signal that the installed
    `catchfault` handler turns into exit status 0. The per-architecture
    files differ only in their catalog, in the signals they install the
    handler for and in a few quirks, so one driver serves them all. */
module Privileged {
  import opened Process
  import Memsep

  datatype Arch = I386 | X86_64 | S390 | PPC | AArch64

  /** What the parent does when `fork` fails for an instruction. */
  datatype ForkFailure = ExitOnForkFailure | ReturnOnForkFailure

  /** One catalog entry: the instruction, how its child leaves when the
      instruction completes, whether the parent looks at the child's status
      at all, and what a failed `fork` leads to. */
  datatype Instruction = Instruction(mnemonic: string, survival: SurvivalPath, checked: bool, onForkFailure: ForkFailure)

  /** The usual entry: a surviving child calls `exit(-1)`, the parent checks
      its status, and a failed fork exits the process. */
  function Plain(mnemonic: string): Instruction
  {
    Instruction(mnemonic, ExitMinusOne, true, ExitOnForkFailure)
  }

  /** The seven instructions common to i386 and x86-64. The HLT child
      returns -1 into `main` instead of exiting. Test Eight (MOVL from %cs) is
      compiled out. */
  const I386_CATALOG: seq<Instruction> := [
    Instruction("HLT", ReturnMinusOne, true, ExitOnForkFailure),
    Plain("RDPMC"), Plain("CLTS"), Plain("LGDT"), Plain("LIDT"), Plain("LTR"), Plain("LLDT")
  ]

  /** The three x86-64-only instructions; a failed fork for these returns -1
      instead of exiting. */
  const X86_64_EXTRA: seq<Instruction> := [
    Instruction("LMSW", ExitMinusOne, true, ReturnOnForkFailure),
    Instruction("RDMSR", ExitMinusOne, true, ReturnOnForkFailure),
    Instruction("WRMSR", ExitMinusOne, true, ReturnOnForkFailure)
  ]

  const S390_CATALOG: seq<Instruction> := [Plain("PTLB"), Plain("HSCH"), Plain("PALB"), Plain("RRBE"), Plain("EPAR")]

  /** The status of the MFSPR 6,17 child is waited for and then ignored. */
  const PPC_CATALOG: seq<Instruction> := [
    Plain("MFMSR"), Plain("TLBSYNC"),
    Instruction("MFSPR 6,17", ExitMinusOne, false, ExitOnForkFailure),
    Plain("MFSPR 6,18")
  ]

  const AARCH64_CATALOG: seq<Instruction> := [Instruction("HLT 1", ReturnMinusOne, true, ExitOnForkFailure)]

  function Catalog(arch: Arch): seq<Instruction>
  {
    match arch
    case I386 => I386_CATALOG
    case X86_64 => I386_CATALOG + X86_64_EXTRA
    case S390 => S390_CATALOG
    case PPC => PPC_CATALOG
    case AArch64 => AARCH64_CATALOG
  }

  /** The signals `catchfault` is installed for. The i386/x86-64 and aarch64
      files register nine names, of which SIGIOT and SIGABRT are one signal. */
  function HandledSignals(arch: Arch): set<int>
  {
    match arch
    case I386 | X86_64 | AArch64 =>
      {SIGSEGV, SIGILL, SIGIOT, SIGIO, SIGINT, SIGABRT, SIGTERM, SIGQUIT, SIGBUS}
    case S390 | PPC => {SIGSEGV, SIGILL}
  }

  /** What `main`'s process holds when it calls the test: its rc, which a
      HLT child returning into `main` carries on with, and the signals a
      handler is already installed for. A child inherits those handlers, and
      `sigaction` here only replaces the ones it names. */
  datatype Caller = Caller(rc: bv32, handlers: set<int>)

  /** The signals a child of the test survives through a handler that exits
      with status 0: the file's own and those installed before it. */
  function Handled(arch: Arch, caller: Caller): set<int>
  {
    HandledSignals(arch) + caller.handlers
  }

  /** The handlers `memsep` leaves in the process: `write_read_mem` installs
      `sig_handler`, which exits 0, for SIGSEGV, SIGILL and SIGBUS before its
      first fork, and nothing removes it. */
  function MemsepLeftover(r: Memsep.MemsepResult): set<int>
  {
    if |r.probes| > 0 then Memsep.MEMSEP_SIGNALS else {}
  }

  /** Every file but the aarch64 one writes a success audit record. */
  predicate LogsSuccess(arch: Arch)
  {
    !arch.AArch64?
  }

  /** The parent's test of a reaped child: normal exit with status 0. */
  predicate Passed(arch: Arch, ins: Instruction, run: Spawn, caller: Caller)
  {
    run.Ran? && ExitedCleanly(ChildTermination(Handled(arch, caller), run.behaviour, ins.survival, caller.rc))
  }

  /** A step ends the test: its fork failed, or its status is checked and
      the child did not pass. */
  predicate Stops(arch: Arch, ins: Instruction, run: Spawn, caller: Caller)
  {
    run.ForkFailed? || (ins.checked && !Passed(arch, ins, run, caller))
  }

  /** The index of the first of the first n catalog steps that stops the
      test. */
  function FirstStop(arch: Arch, runs: seq<Spawn>, caller: Caller, n: nat): (f: Option<nat>)
    requires n <= |Catalog(arch)| && n <= |runs|
    ensures f.None? <==> forall k :: 0 <= k < n ==> !Stops(arch, Catalog(arch)[k], runs[k], caller)
    ensures f.Some? ==> f.value < n && Stops(arch, Catalog(arch)[f.value], runs[f.value], caller)
    ensures f.Some? ==> forall k :: 0 <= k < f.value ==> !Stops(arch, Catalog(arch)[k], runs[k], caller)
  {
    if n == 0 then None
    else
      match FirstStop(arch, runs, caller, n - 1)
      case Some(k) => Some(k)
      case None => if Stops(arch, Catalog(arch)[n - 1], runs[n - 1], caller) then Some(n - 1) else None
  }

  /** How `amtu_priv` ended, how many children it tried to fork, and whether
      it wrote the success audit record. */
  datatype PrivResult = PrivResult(end: TestEnd, forks: nat, loggedSuccess: bool)

  /** The end of a test stopped at step k. */
  function StopEnd(ins: Instruction, run: Spawn): TestEnd
  {
    if run.ForkFailed? && ins.onForkFailure == ExitOnForkFailure then ExitedProcess(ExitStatus(MINUS_ONE))
    else Returned(MINUS_ONE)
  }

  /** What `amtu_priv` does on `arch` when the successive children behave as
      `runs` says. */
  function PrivOutcome(arch: Arch, runs: seq<Spawn>, caller: Caller): PrivResult
    requires |Catalog(arch)| <= |runs|
  {
    var cat := Catalog(arch);
    match FirstStop(arch, runs, caller, |cat|)
    case None => PrivResult(Returned(ZERO), |cat|, LogsSuccess(arch))
    case Some(k) => PrivResult(StopEnd(cat[k], runs[k]), k + 1, false)
  }

  /** `amtu_priv`: fork a child per catalog instruction, in order. A failed
      fork exits the process or returns -1, as the entry says; a checked
      child that did not exit with status 0 makes the test return -1 at once.
      When every step went through, the test logs success (except on aarch64)
      and returns 0. `caller` is the rc `main` holds when it calls the
      test, which a HLT child returning into `main` carries on with, and the
      handlers already installed in the process (`MemsepLeftover` of an
      earlier `memsep` run). */
  method AmtuPriv(arch: Arch, runs: seq<Spawn>, caller: Caller) returns (r: PrivResult)
    requires |Catalog(arch)| <= |runs|
    ensures r == PrivOutcome(arch, runs, caller)
  {
    var cat := Catalog(arch);
    var i := 0;
    while i < |cat|
      invariant 0 <= i <= |cat|
      invariant FirstStop(arch, runs, caller, i) == None
    {
      var stop := RunInstruction(arch, cat[i], runs[i], caller);
      if stop.Some? {
        StopsAt(arch, runs, caller, i);
        return PrivResult(stop.value, i + 1, false);
      }
      i := i + 1;
    }
    return PrivResult(Returned(ZERO), |cat|, LogsSuccess(arch));
  }

  /** One instruction's block: fork, and in the child execute the
      instruction; in the parent, wait and check the status. `Some(end)`
      when the block ends the test, with how it ends. */
  method RunInstruction(arch: Arch, ins: Instruction, run: Spawn, caller: Caller) returns (stop: Option<TestEnd>)
    ensures stop.Some? <==> Stops(arch, ins, run, caller)
    ensures stop.Some? ==> stop.value == StopEnd(ins, run)
  {
    if run.ForkFailed? {
      if ins.onForkFailure == ExitOnForkFailure {
        return Some(ExitedProcess(ExitStatus(MINUS_ONE)));
      }
      return Some(Returned(MINUS_ONE));
    }
    var stat := ChildTermination(Handled(arch, caller), run.behaviour, ins.survival, caller.rc);
    if ins.checked && !(stat.Exited? && stat.status == 0) {
      return Some(Returned(MINUS_ONE));
    }
    return None;
  }

  /** A step that stops, after steps that did not, is the first stop of the
      whole catalog. */
  lemma StopsAt(arch: Arch, runs: seq<Spawn>, caller: Caller, i: nat)
    requires i < |Catalog(arch)| <= |runs|
    requires FirstStop(arch, runs, caller, i) == None
    requires Stops(arch, Catalog(arch)[i], runs[i], caller)
    ensures FirstStop(arch, runs, caller, |Catalog(arch)|) == Some(i)
  {
    FirstStopExtends(arch, runs, caller, i + 1, |Catalog(arch)|);
  }

  lemma {:induction false} FirstStopExtends(arch: Arch, runs: seq<Spawn>, caller: Caller, m: nat, n: nat)
    requires m <= n <= |Catalog(arch)| && n <= |runs|
    requires FirstStop(arch, runs, caller, m).Some?
    ensures FirstStop(arch, runs, caller, n) == FirstStop(arch, runs, caller, m)
    decreases n - m
  {
    if m < n {
      FirstStopExtends(arch, runs, caller, m + 1, n);
    }
  }

  /** The test returns 0 exactly when every fork succeeded and every checked
      child died of a signal the handler is installed for. */
  lemma PassesIffEveryCheckedChildFaulted(arch: Arch, runs: seq<Spawn>, caller: Caller)
    requires |Catalog(arch)| <= |runs|
    ensures PrivOutcome(arch, runs, caller).end == Returned(ZERO) <==>
      forall k :: 0 <= k < |Catalog(arch)| ==>
        runs[k].Ran? && (Catalog(arch)[k].checked ==>
          runs[k].behaviour.Faulted? && runs[k].behaviour.sig in Handled(arch, caller))
  {
    var cat := Catalog(arch);
    if PrivOutcome(arch, runs, caller).end == Returned(ZERO) {
      forall k | 0 <= k < |cat|
        ensures runs[k].Ran? && (cat[k].checked ==> runs[k].behaviour.Faulted? && runs[k].behaviour.sig in Handled(arch, caller))
      {
        assert !Stops(arch, cat[k], runs[k], caller);
      }
    }
  }

  /** A failing test stopped at its last fork: every earlier step went
      through, that step stopped it, and no later instruction was tried. */
  lemma FailureStopsAtFirstFailingStep(arch: Arch, runs: seq<Spawn>, caller: Caller)
    requires |Catalog(arch)| <= |runs|
    ensures var r := PrivOutcome(arch, runs, caller);
      r.end != Returned(ZERO) ==>
        && 0 < r.forks <= |Catalog(arch)|
        && Stops(arch, Catalog(arch)[r.forks - 1], runs[r.forks - 1], caller)
        && (forall k :: 0 <= k < r.forks - 1 ==> !Stops(arch, Catalog(arch)[k], runs[k], caller))
        && !r.loggedSuccess
  {
  }

  /** The success record is written exactly when the test passed on an
      architecture other than aarch64. */
  lemma SuccessLoggedIffPassed(arch: Arch, runs: seq<Spawn>, caller: Caller)
    requires |Catalog(arch)| <= |runs|
    ensures PrivOutcome(arch, runs, caller).loggedSuccess <==>
      PrivOutcome(arch, runs, caller).end == Returned(ZERO) && arch != AArch64
  {
  }

  /** A child whose instruction completed never passes, whichever way it
      leaves: `exit(-1)` and the HLT child's `return(-1)` into `main` both
      end in status 255. */
  lemma SurvivorFails(arch: Arch, ins: Instruction, caller: Caller)
    ensures !Passed(arch, ins, Ran(Survived), caller)
    ensures ChildTermination(Handled(arch, caller), Survived, ins.survival, caller.rc) == Exited(255)
  {
  }

  /** On ppc the MFSPR 6,17 child cannot fail the test: however it ended,
      the outcome is the one of a child that faulted as expected. */
  lemma PpcIgnoresMfspr17(runs: seq<Spawn>, b: Behaviour, caller: Caller)
    requires |PPC_CATALOG| <= |runs| && runs[2].Ran?
    ensures PrivOutcome(PPC, runs, caller) == PrivOutcome(PPC, runs[2 := Ran(b)], caller)
  {
    var runs' := runs[2 := Ran(b)];
    forall k | 0 <= k < 4
      ensures Stops(PPC, PPC_CATALOG[k], runs[k], caller) == Stops(PPC, PPC_CATALOG[k], runs'[k], caller)
    {
    }
    FirstStopAgree(PPC, runs, caller, runs', caller, 4);
  }

  /** FirstStop only looks at whether each step stops. */
  lemma {:induction false} FirstStopAgree(arch: Arch, runs: seq<Spawn>, caller: Caller, runs': seq<Spawn>, caller': Caller, n: nat)
    requires n <= |Catalog(arch)| && n <= |runs| && n <= |runs'|
    requires forall k :: 0 <= k < n ==>
      Stops(arch, Catalog(arch)[k], runs[k], caller) == Stops(arch, Catalog(arch)[k], runs'[k], caller')
    ensures FirstStop(arch, runs, caller, n) == FirstStop(arch, runs', caller', n)
  {
    if n > 0 {
      FirstStopAgree(arch, runs, caller, runs', caller', n - 1);
    }
  }

  /** On i386, x86-64 and aarch64 the file's own handlers already cover the
      signals `memsep` leaves handled, so running `memsep` first changes
      nothing. */
  lemma LeftoverIrrelevantOnX86AndAArch64(arch: Arch, runs: seq<Spawn>, caller: Caller)
    requires arch != S390 && arch != PPC
    requires |Catalog(arch)| <= |runs|
    requires caller.handlers <= Memsep.MEMSEP_SIGNALS
    ensures PrivOutcome(arch, runs, caller) == PrivOutcome(arch, runs, Caller(caller.rc, {}))
  {
    var bare := Caller(caller.rc, {});
    assert Handled(arch, caller) == Handled(arch, bare);
    forall k | 0 <= k < |Catalog(arch)|
      ensures Stops(arch, Catalog(arch)[k], runs[k], caller) == Stops(arch, Catalog(arch)[k], runs[k], bare)
    {
    }
    FirstStopAgree(arch, runs, caller, runs, bare, |Catalog(arch)|);
  }

  /** On ppc, after `memsep` ran a probe, children that all die of SIGBUS
      pass through `memsep`'s handler, while without it the first such
      child fails the test. */
  lemma PpcSigbusPassesAfterMemsep(rc: bv32, r: Memsep.MemsepResult)
    requires |r.probes| > 0
    ensures var runs := seq(4, _ => Ran(Faulted(SIGBUS)));
      && PrivOutcome(PPC, runs, Caller(rc, MemsepLeftover(r))) == PrivResult(Returned(ZERO), 4, true)
      && PrivOutcome(PPC, runs, Caller(rc, {})) == PrivResult(Returned(MINUS_ONE), 1, false)
  {
    var runs := seq(4, _ => Ran(Faulted(SIGBUS)));
    var c := Caller(rc, MemsepLeftover(r));
    assert SIGBUS in Handled(PPC, c);
    assert FirstStop(PPC, runs, c, 4) == None by {
      forall k | 0 <= k < 4
        ensures !Stops(PPC, PPC_CATALOG[k], runs[k], c)
      {
        assert runs[k] == Ran(Faulted(SIGBUS));
      }
    }
    assert SIGBUS !in Handled(PPC, Caller(rc, {}));
    assert Stops(PPC, PPC_CATALOG[0], runs[0], Caller(rc, {}));
  }

  /** The x86-64 build runs the seven i386 instructions first, then exactly
      LMSW, RDMSR and WRMSR, the only ones whose failed fork returns -1. */
  lemma X86_64ExtendsI386()
    ensures |Catalog(X86_64)| == |Catalog(I386)| + 3
    ensures Catalog(X86_64)[..|Catalog(I386)|] == Catalog(I386)
    ensures forall k :: 0 <= k < |Catalog(X86_64)| ==>
      (Catalog(X86_64)[k].onForkFailure == ReturnOnForkFailure <==> k >= |Catalog(I386)|)
  {
    assert (I386_CATALOG + X86_64_EXTRA)[..7] == I386_CATALOG;
  }

  /** The i386, x86-64 and aarch64 handlers cover eight distinct signals,
      s390 and ppc two. */
  lemma HandledSignalCounts()
    ensures |HandledSignals(I386)| == 8 && HandledSignals(X86_64) == HandledSignals(AArch64) == HandledSignals(I386)
    ensures |HandledSignals(S390)| == 2 && HandledSignals(PPC) == HandledSignals(S390)
  {
    assert |{SIGSEGV, SIGILL, SIGIOT, SIGIO, SIGINT, SIGABRT, SIGTERM, SIGQUIT, SIGBUS}| == 8;
    assert |{SIGSEGV, SIGILL}| == 2;
  }

  /** The HLT child returning into `main` makes `main` exit 255, whatever rc
      it held: on x86 a surviving HLT cannot pass for any caller rc. */
  lemma HltReturnFails(caller: Caller)
    ensures !Passed(I386, I386_CATALOG[0], Ran(Survived), caller)
    ensures PrivOutcome(I386, [Ran(Survived)] + seq(6, _ => Ran(Faulted(SIGSEGV))), caller)
      == PrivResult(Returned(MINUS_ONE), 1, false)
  {
  }
}
