/** Why a process under breakpoints is the native process, step by step. */
module Transparency {
  import opened Words
  import opened Machine
  import opened BreakpointTable

  /** The native state that a stopped tracee stands for: its own, with all original bytes. */
  function Shadow(cpu: Cpu, t: Entries): Cpu {
    cpu.(mem := Unplant(cpu.mem, t))
  }

  /** The tracee is the native run after `retired` instructions, seen through the planted table. */
  ghost predicate Tracks(p: Program, origin: Cpu, text: set<Word>, t: Entries, cpu: Cpu, retired: nat) {
    && EnabledIn(t) <= text
    && InPlace(cpu.mem, t)
    && Native(p, origin, retired) == Next(Shadow(cpu, t))
  }

  /** handle_sigtrap: go back to the breakpoint address after INT3, and only then. */
  function Rewind(cpu: Cpu, code: SigCode): Cpu {
    if code == SI_KERNEL || code == TRAP_BRKPT then cpu.(pc := Sub(cpu.pc, 1)) else cpu
  }

  lemma RewindInt3(u: Cpu, E: set<Word>)
    ensures Rewind(Over(u, E).(pc := Add(u.pc, 1)), SI_KERNEL) == Over(u, E)
  {
    AddSub(u.pc, 1);
  }

  lemma TracksOver(p: Program, origin: Cpu, text: set<Word>, t: Entries, cpu: Cpu, retired: nat)
    requires Tracks(p, origin, text, t, cpu, retired)
    ensures cpu == Over(Shadow(cpu, t), EnabledIn(t))
  {
    PlantUnplant(cpu.mem, t);
  }

  /** A later native state, planted, is tracked with the same table. */
  lemma TracksLater(p: Program, origin: Cpu, text: set<Word>, t: Entries, cpu: Cpu, retired: nat, n: nat)
    requires CalmRun(p, text, origin) && Tracks(p, origin, text, t, cpu, retired)
    requires Native(p, origin, retired + n).Next?
    ensures Tracks(p, origin, text, t, Over(Native(p, origin, retired + n).cpu, EnabledIn(t)), retired + n)
  {
    var u := Native(p, origin, retired + n).cpu;
    TextKeptOnward(p, text, origin, retired, n);
    Replant(cpu.mem, u.mem, t, text);
  }

  /** An address of the text that was mapped once is mapped from then on. */
  lemma TextStaysMapped(p: Program, origin: Cpu, text: set<Word>, t: Entries, cpu: Cpu, retired: nat,
                        t': Entries, cpu': Cpu, retired': nat, a: Word)
    requires CalmRun(p, text, origin) && retired <= retired' && a in text && a in cpu.mem
    requires Tracks(p, origin, text, t, cpu, retired) && Tracks(p, origin, text, t', cpu', retired')
    ensures a in cpu'.mem
  {
    TextKeptOnward(p, text, origin, retired, retired' - retired);
    assert a in Shadow(cpu, t).mem;
  }

  /**
   * Single-stepping a tracked process: on an enabled breakpoint it stays where it is,
   * elsewhere it becomes the next native state or exits with the native exit code.
   */
  lemma StepSettles(p: Program, origin: Cpu, text: set<Word>, t: Entries, cpu: Cpu, retired: nat)
    requires CalmRun(p, text, origin) && Tracks(p, origin, text, t, cpu, retired)
    ensures match SingleStep(p, cpu)
            case Trapped(u, code, n) =>
              && n == (if cpu.pc in EnabledIn(t) then 0 else 1)
              && Tracks(p, origin, text, t, Rewind(u, code), retired + n)
            case Exited(c, n) => n == 1 && cpu.pc !in EnabledIn(t) && Native(p, origin, retired + 1) == Exit(c)
            case Unfinished(_, _) => false
  {
    var s, E := Shadow(cpu, t), EnabledIn(t);
    TracksOver(p, origin, text, t, cpu, retired);
    assert Native(p, origin, retired + 1) == p(s);
    if s.pc in E {
      RewindInt3(s, E);
    } else {
      CalmSuffix(p, text, origin, retired);
      SingleStepOver(p, text, s, E);
      if p(s).Next? {
        TracksLater(p, origin, text, t, cpu, retired, 1);
      }
    }
  }

  /**
   * Resuming a tracked process: it stops at the first native state, from the current one
   * on, whose pc is enabled, and nowhere else; it exits exactly when the native run does.
   */
  lemma FreeRunSettles(p: Program, origin: Cpu, text: set<Word>, t: Entries, cpu: Cpu, retired: nat, fuel: nat)
    requires CalmRun(p, text, origin) && Tracks(p, origin, text, t, cpu, retired)
    ensures var r := RunFree(p, cpu, fuel);
            && Quiet(p, origin, EnabledIn(t), retired, retired + r.retired)
            && match r
               case Trapped(u, code, n) =>
                 && Rewind(u, code).pc in EnabledIn(t)
                 && Tracks(p, origin, text, t, Rewind(u, code), retired + n)
               case Exited(c, n) => n > 0 && Native(p, origin, retired + n) == Exit(c)
               case Unfinished(u, n) => n == fuel && Tracks(p, origin, text, t, u, retired + n)
  {
    var E := EnabledIn(t);
    TracksOver(p, origin, text, t, cpu, retired);
    RunFreeOnward(p, text, origin, retired, E, fuel);
    var r := RunFree(p, cpu, fuel);
    if !r.Exited? {
      TracksLater(p, origin, text, t, cpu, retired, r.retired);
      RewindInt3(Native(p, origin, retired + r.retired).cpu, E);
    }
  }
}
