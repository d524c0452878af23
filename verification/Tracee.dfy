/** The child process as ptrace and waitpid show it to the debugger. */
module Ptrace {
  import opened Words
  import opened Memory
  import opened Machine

  datatype Status = Stopped(code: SigCode) | Resumed(stepping: bool) | Dead(code_: int)

  /** What waitpid reports; `Waiting` when the child is still running. */
  datatype WaitStatus = WIFSTOPPED | WIFEXITED | Waiting

  function ToWaitStatus(r: RunEnd): WaitStatus {
    match r
    case Trapped(_, _, _) => WIFSTOPPED
    case Exited(_, _) => WIFEXITED
    case Unfinished(_, _) => Waiting
  }

  class Tracee {
    const program: Program
    var cpu: Cpu
    var status: Status
    /** Memory accesses at mapped addresses that failed although the child was stopped. */
    ghost var faults: nat
    /** Instructions other than INT3 the child has completed since it was attached. */
    ghost var retired: nat

    constructor (program: Program, cpu: Cpu)
      ensures this.program == program && this.cpu == cpu
      ensures status == Stopped(TRAP_TRACE) && faults == 0 && retired == 0
    {
      this.program, this.cpu, status := program, cpu, Stopped(TRAP_TRACE);
      faults, retired := 0, 0;
    }

    /** PTRACE_PEEKDATA: any read may fail; one that is not wholly inside the mapped memory does. */
    method PeekWord(a: Word) returns (r: Option<Word>)
      modifies this`faults
      ensures r.Some? ==> status.Stopped? && Mapped(cpu.mem, a) && r.value == WordAt(cpu.mem, a)
      ensures faults == old(faults) + (if r.None? && status.Stopped? && a in cpu.mem then 1 else 0)
    {
      var refused: bool := *;
      if !status.Stopped? {
        return None;
      }
      if refused || !Mapped(cpu.mem, a) {
        faults := faults + if a in cpu.mem then 1 else 0;
        return None;
      }
      return Some(WordAt(cpu.mem, a));
    }

    /** PTRACE_POKEDATA */
    method PokeWord(a: Word, w: Word) returns (r: SprayResult)
      modifies this`faults, this`cpu
      ensures r.SP_OK? ==>
                && status.Stopped? && Mapped(old(cpu).mem, a)
                && cpu == old(cpu).(mem := PutWord(old(cpu).mem, a, w))
      ensures r.SP_ERR? ==> cpu == old(cpu)
      ensures faults == old(faults) + (if r.SP_ERR? && status.Stopped? && a in cpu.mem then 1 else 0)
    {
      var refused: bool := *;
      if !status.Stopped? {
        return SP_ERR;
      }
      if refused || !Mapped(cpu.mem, a) {
        faults := faults + if a in cpu.mem then 1 else 0;
        return SP_ERR;
      }
      cpu := cpu.(mem := PutWord(cpu.mem, a, w));
      return SP_OK;
    }

    /** The rip register, or 0 when the registers cannot be read. */
    function GetPc(): Word
      reads this
    {
      if status.Stopped? then cpu.pc else 0
    }

    method SetPc(pc: Word)
      modifies this`cpu
      ensures cpu == if status.Stopped? then old(cpu).(pc := pc) else old(cpu)
    {
      if status.Stopped? {
        cpu := cpu.(pc := pc);
      }
    }

    /** PTRACE_SINGLESTEP (stepping) or PTRACE_CONT; fails with ESRCH unless the child is stopped. */
    method Resume(stepping: bool) returns (r: SprayResult)
      modifies this`status
      ensures r.SP_OK? <==> old(status).Stopped?
      ensures status == if old(status).Stopped? then Resumed(stepping) else old(status)
    {
      if status.Stopped? {
        status := Resumed(stepping);
        return SP_OK;
      }
      return SP_ERR;
    }

    /** What the resumed child does next, within `fuel` instructions when it runs freely. */
    function Outlook(fuel: nat): RunEnd
      requires status.Resumed?
      reads this
    {
      if status.stepping then SingleStep(program, cpu) else RunFree(program, cpu, fuel)
    }

    /** waitpid on a resumed child. */
    method WaitPid(fuel: nat) returns (ws: WaitStatus)
      requires status.Resumed?
      modifies this`cpu, this`status, this`retired
      ensures ws == ToWaitStatus(old(Outlook(fuel)))
      ensures match old(Outlook(fuel))
              case Trapped(t, code, n) => cpu == t && status == Stopped(code) && retired == old(retired) + n
              case Exited(c, n) => status == Dead(c) && retired == old(retired) + n
              case Unfinished(t, n) => cpu == t && status == old(status) && retired == old(retired) + n
    {
      ghost var end := Outlook(fuel);
      var stepping := status.stepping;
      var left := fuel;
      while true
        invariant status == Resumed(stepping)
        invariant stepping ==> cpu == old(cpu) && retired == old(retired)
        invariant !stepping ==>
                    && retired >= old(retired)
                    && end == After(RunFree(program, cpu, left), retired - old(retired))
        decreases left
      {
        if AtInt3(cpu) {
          cpu, status := cpu.(pc := Add(cpu.pc, 1)), Stopped(SI_KERNEL);
          return WIFSTOPPED;
        }
        if !stepping && left == 0 {
          return Waiting;
        }
        match program(cpu) {
          case Exit(c) =>
            status, retired := Dead(c), retired + 1;
            return WIFEXITED;
          case Next(t) =>
            cpu, retired := t, retired + 1;
        }
        if stepping {
          status := Stopped(TRAP_TRACE);
          return WIFSTOPPED;
        }
        left := left - 1;
      }
    }
  }
}
