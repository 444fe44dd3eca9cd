/** Child processes as the parent sees them: what `wait` reports, how the
    fault-catching handler turns a fault into an exit, and what `exit(v)`
    makes visible to the parent. Shared by every fork/wait probe. */
module Process {

  /** Linux signal numbers of the signals the handlers are installed for.
      SIGIOT and SIGABRT are the same signal. */
  const SIGINT: int := 2
  const SIGQUIT: int := 3
  const SIGILL: int := 4
  const SIGABRT: int := 6
  const SIGIOT: int := 6
  const SIGBUS: int := 7
  const SIGSEGV: int := 11
  const SIGTERM: int := 15
  const SIGIO: int := 29

  /** A C `int` holding -1, and holding 0. */
  const MINUS_ONE: bv32 := 0xFFFF_FFFF
  const ZERO: bv32 := 0

  /** How a reaped child ended, as `wait` decodes it. */
  datatype Termination = Exited(status: int) | Signaled(sig: int)

  /** What the child's forbidden operation did: raised a signal, or completed. */
  datatype Behaviour = Faulted(sig: int) | Survived

  /** How a child whose operation completed leaves: `exit(-1)`, or
      `return(-1)` from the test function back into `main`. */
  datatype SurvivalPath = ExitMinusOne | ReturnMinusOne

  /** One fork/wait step: `fork` failed, or a child ran and was reaped. */
  datatype Spawn = ForkFailed | Ran(behaviour: Behaviour)

  /** How a test function ended: it returned an `int`, or it called `exit`. */
  datatype TestEnd = Returned(rc: bv32) | ExitedProcess(status: int)

  datatype Option<T> = None | Some(value: T)

  /** `exit(v)` (or returning v from `main`) reports v & 0377 to the parent. */
  function ExitStatus(v: bv32): (s: int)
    ensures 0 <= s < 256
    ensures s == 0 <==> v & 0xFF == 0
  {
    (v & 0xFF) as int
  }

  /** WIFEXITED(stat) && WEXITSTATUS(stat) == 0 */
  predicate ExitedCleanly(t: Termination)
  {
    t.Exited? && t.status == 0
  }

  /** The tail of `main` in a child that returned -1 out of the test function:
      `rc |= -1`, then `return rc`. `inherited` is the rc `main` had
      accumulated before the call, copied into the child by `fork`. */
  function MainTailStatus(inherited: bv32): (s: int)
    ensures s == 255
  {
    ExitStatus(inherited | MINUS_ONE)
  }

  /** The termination of a child that has the fault handler installed for the
      signals in `handled`: a handled signal runs the handler, which exits 0;
      any other signal kills the child; a completed operation leaves by
      `path`. The child exits cleanly exactly when its operation raised a
      handled signal. */
  function ChildTermination(handled: set<int>, b: Behaviour, path: SurvivalPath, inherited: bv32): (t: Termination)
    ensures ExitedCleanly(t) <==> b.Faulted? && b.sig in handled
    ensures b.Faulted? && b.sig !in handled ==> t == Signaled(b.sig)
    ensures b.Survived? ==> t == Exited(255)
  {
    match b
    case Faulted(sig) =>
      if sig in handled then Exited(ExitStatus(ZERO)) else Signaled(sig)
    case Survived =>
      match path
      case ExitMinusOne => Exited(ExitStatus(MINUS_ONE))
      case ReturnMinusOne => Exited(MainTailStatus(inherited))
  }
}
