/**
 * The debugged program as an arbitrary step function, the processor that runs it over
 * memory with planted INT3 bytes, and the assumptions that relate the two.
 */
module Machine {
  import opened Words
  import opened Memory

  const INT3: Byte := 0xcc

  datatype Cpu = Cpu(pc: Word, rbp: Word, regs: map<nat, Word>, mem: Memory)

  /** What one native instruction leads to. */
  datatype Outcome = Next(cpu: Cpu) | Exit(code: int)

  type Program = Cpu -> Outcome

  /** The un-debugged run: the state after n instructions, or the exit that came first. */
  function Native(p: Program, s: Cpu, n: nat): Outcome {
    if n == 0 then Next(s)
    else match Native(p, s, n - 1)
         case Next(t) => p(t)
         case Exit(c) => Exit(c)
  }

  /** INT3 planted at the mapped addresses of E. */
  function Plant(m: Memory, E: set<Word>): Memory {
    map a | a in m :: if a in E then INT3 else m[a]
  }

  function Over(s: Cpu, E: set<Word>): Cpu {
    s.(mem := Plant(s.mem, E))
  }

  function OverOutcome(o: Outcome, E: set<Word>): Outcome {
    match o
    case Next(t) => Next(Over(t, E))
    case Exit(c) => Exit(c)
  }

  function ReturnSlot(s: Cpu): Word {
    Add(s.rbp, 8)
  }

  /**
   * The assumptions about the instruction at s.pc, for the addresses `text` on which
   * breakpoints may be planted: it is not an INT3 of the program's own; and it neither
   * fetches, reads nor writes a byte of `text` other than the first byte of the
   * instruction itself.
   */
  ghost predicate Calm(p: Program, text: set<Word>, s: Cpu) {
    && (s.pc in s.mem ==> s.mem[s.pc] != INT3)
    && (forall E: set<Word> | E <= text && s.pc !in E :: p(Over(s, E)) == OverOutcome(p(s), E))
    && (p(s).Next? ==> SameText(s.mem, p(s).cpu.mem, text))
  }

  ghost predicate SameText(m: Memory, m': Memory, text: set<Word>) {
    forall a | a in text && a in m :: a in m' && m'[a] == m[a]
  }

  /**
   * What leaving the current frame relies on: page zero is unmapped, and the word above
   * the saved frame pointer, where it can be read at all, is a return address into `text`
   * or not the address of any memory.
   */
  predicate CallerInText(s: Cpu, text: set<Word>) {
    && 0 !in s.mem
    && (Mapped(s.mem, ReturnSlot(s)) ==>
          && (WordAt(s.mem, ReturnSlot(s)) in text || WordAt(s.mem, ReturnSlot(s)) !in s.mem)
          && forall i | ReturnSlot(s) <= i < ReturnSlot(s) + 8 :: i !in text)
  }

  /** Every state of the native run from s is calm. */
  ghost predicate CalmRun(p: Program, text: set<Word>, s: Cpu) {
    forall n: nat {:trigger Calm(p, text, Native(p, s, n).cpu)} ::
      Native(p, s, n).Next? ==> Calm(p, text, Native(p, s, n).cpu)
  }

  // ----- the processor under ptrace

  datatype SigCode = SI_KERNEL | TRAP_BRKPT | TRAP_TRACE

  /** How resuming the tracee ended, and how many instructions other than INT3 completed. */
  datatype RunEnd =
    | Trapped(cpu: Cpu, code: SigCode, retired: nat)
    | Exited(code_: int, retired: nat)
    | Unfinished(cpu: Cpu, retired: nat)

  predicate AtInt3(s: Cpu) {
    s.pc in s.mem && s.mem[s.pc] == INT3
  }

  /** Executing INT3 traps with the program counter behind it. */
  function Int3Trap(s: Cpu): RunEnd {
    Trapped(s.(pc := Add(s.pc, 1)), SI_KERNEL, 0)
  }

  function SingleStep(p: Program, s: Cpu): RunEnd {
    if AtInt3(s) then Int3Trap(s)
    else match p(s)
         case Next(t) => Trapped(t, TRAP_TRACE, 1)
         case Exit(c) => Exited(c, 1)
  }

  function After(r: RunEnd, k: nat): RunEnd {
    match r
    case Trapped(t, code, n) => Trapped(t, code, n + k)
    case Exited(c, n) => Exited(c, n + k)
    case Unfinished(t, n) => Unfinished(t, n + k)
  }

  /** Run freely until a trap or exit, for at most `fuel` instructions. */
  function RunFree(p: Program, s: Cpu, fuel: nat): RunEnd
    decreases fuel
  {
    if AtInt3(s) then Int3Trap(s)
    else if fuel == 0 then Unfinished(s, 0)
    else match p(s)
         case Next(t) => After(RunFree(p, t, fuel - 1), 1)
         case Exit(c) => Exited(c, 1)
  }

  // ----- the debugged run is the native run

  lemma {:induction false} NativeAdd(p: Program, s: Cpu, m: nat, n: nat)
    requires Native(p, s, m).Next?
    ensures Native(p, s, m + n) == Native(p, Native(p, s, m).cpu, n)
  {
    if n > 0 {
      NativeAdd(p, s, m, n - 1);
    }
  }

  lemma {:induction false} ExitIsForever(p: Program, s: Cpu, m: nat, n: nat)
    requires m <= n && Native(p, s, m).Exit?
    ensures Native(p, s, n) == Native(p, s, m)
    decreases n
  {
    if m < n {
      ExitIsForever(p, s, m, n - 1);
    }
  }

  lemma CalmSuffix(p: Program, text: set<Word>, s: Cpu, m: nat)
    requires CalmRun(p, text, s) && Native(p, s, m).Next?
    ensures CalmRun(p, text, Native(p, s, m).cpu)
  {
    var t := Native(p, s, m).cpu;
    forall n: nat | Native(p, t, n).Next?
      ensures Calm(p, text, Native(p, t, n).cpu)
    {
      NativeAdd(p, s, m, n);
    }
  }

  /** One instruction over planted memory is the native instruction, planted. */
  lemma SingleStepOver(p: Program, text: set<Word>, s: Cpu, E: set<Word>)
    requires CalmRun(p, text, s) && E <= text && s.pc !in E
    ensures !AtInt3(Over(s, E))
    ensures SingleStep(p, Over(s, E)) ==
            match p(s) case Next(t) => Trapped(Over(t, E), TRAP_TRACE, 1) case Exit(c) => Exited(c, 1)
  {
    assert Calm(p, text, Native(p, s, 0).cpu);
    assert p(Over(s, E)) == OverOutcome(p(s), E);
  }

  /** No state of the native run from s in the steps [from, to) has its pc in E, and none has exited. */
  ghost predicate Quiet(p: Program, s: Cpu, E: set<Word>, from: nat, to: nat) {
    forall k: nat | from <= k < to :: Native(p, s, k).Next? && Native(p, s, k).cpu.pc !in E
  }

  /**
   * A free run that was in native state `at` of the run from s ends as it should:
   * trapped at the first native state from there on whose pc is in E, exited when the
   * native run exits before, unfinished when neither happens within `fuel` instructions.
   */
  ghost predicate EndsRight(p: Program, s: Cpu, E: set<Word>, at: nat, fuel: nat, r: RunEnd) {
    && Quiet(p, s, E, at, at + r.retired)
    && match r
       case Trapped(t, code, n) =>
         && code == SI_KERNEL
         && Native(p, s, at + n).Next?
         && Native(p, s, at + n).cpu.pc in E
         && t == Over(Native(p, s, at + n).cpu, E).(pc := Add(Native(p, s, at + n).cpu.pc, 1))
       case Exited(c, n) => n > 0 && Native(p, s, at + n) == Exit(c)
       case Unfinished(t, n) =>
         n == fuel && Native(p, s, at + n).Next? && t == Over(Native(p, s, at + n).cpu, E)
  }

  /** Running freely over planted memory is running natively up to the first planted pc. */
  lemma {:induction false} RunFreeOver(p: Program, text: set<Word>, s: Cpu, E: set<Word>, fuel: nat)
    requires CalmRun(p, text, s) && E <= text && E <= s.mem.Keys
    ensures EndsRight(p, s, E, 0, fuel, RunFree(p, Over(s, E), fuel))
    decreases fuel
  {
    assert Native(p, s, 0) == Next(s);
    assert Native(p, s, 1) == p(s);
    if s.pc !in E {
      assert Calm(p, text, Native(p, s, 0).cpu);
      SingleStepOver(p, text, s, E);
      if fuel > 0 && p(s).Next? {
        var t := p(s).cpu;
        CalmSuffix(p, text, s, 1);
        RunFreeOver(p, text, t, E, fuel - 1);
        var r := RunFree(p, Over(t, E), fuel - 1);
        EndsRightOnward(p, s, 1, E, 0, fuel - 1, r);
        EndsRightEarlier(p, s, E, fuel, r);
      }
    }
  }

  lemma EndsRightEarlier(p: Program, s: Cpu, E: set<Word>, fuel: nat, r: RunEnd)
    requires fuel > 0 && s.pc !in E && EndsRight(p, s, E, 1, fuel - 1, r)
    ensures EndsRight(p, s, E, 0, fuel, After(r, 1))
  {
  }

  /** The run from native state `from` comes to E, or exits, in state `at` and not before. */
  ghost predicate FirstStop(p: Program, s: Cpu, E: set<Word>, from: nat, at: nat) {
    && from < at
    && Quiet(p, s, E, from + 1, at)
    && (Native(p, s, at).Next? ==> Native(p, s, at).cpu.pc in E)
  }

  /** There is only one such state, so commands that break on the same addresses stop in the same state. */
  lemma FirstStopUnique(p: Program, s: Cpu, E: set<Word>, from: nat, at: nat, at': nat)
    requires FirstStop(p, s, E, from, at) && FirstStop(p, s, E, from, at')
    ensures at == at'
  {
  }

  /** The bytes of `text` are the same in every state of the run. */
  lemma {:induction false} TextKept(p: Program, text: set<Word>, s: Cpu, n: nat)
    requires CalmRun(p, text, s) && Native(p, s, n).Next?
    ensures SameText(s.mem, Native(p, s, n).cpu.mem, text)
  {
    if n > 0 {
      TextKept(p, text, s, n - 1);
      assert Calm(p, text, Native(p, s, n - 1).cpu);
    }
  }

  lemma TextKeptOnward(p: Program, text: set<Word>, origin: Cpu, at: nat, n: nat)
    requires CalmRun(p, text, origin) && Native(p, origin, at).Next? && Native(p, origin, at + n).Next?
    ensures SameText(Native(p, origin, at).cpu.mem, Native(p, origin, at + n).cpu.mem, text)
  {
    NativeAdd(p, origin, at, n);
    CalmSuffix(p, text, origin, at);
    TextKept(p, text, Native(p, origin, at).cpu, n);
  }

  /** The same ending, counted from the start of the whole run instead of from native state `at`. */
  lemma EndsRightOnward(p: Program, origin: Cpu, at: nat, E: set<Word>, k: nat, fuel: nat, r: RunEnd)
    requires Native(p, origin, at).Next?
    requires EndsRight(p, Native(p, origin, at).cpu, E, k, fuel, r)
    ensures EndsRight(p, origin, E, at + k, fuel, r)
  {
    var s := Native(p, origin, at).cpu;
    NativeAdd(p, origin, at, k + r.retired);
    forall i: nat | at + k <= i < at + k + r.retired
      ensures Native(p, origin, i).Next? && Native(p, origin, i).cpu.pc !in E
    {
      NativeAdd(p, origin, at, i - at);
      assert Native(p, s, i - at).Next? && Native(p, s, i - at).cpu.pc !in E;
    }
  }

  lemma RunFreeOnward(p: Program, text: set<Word>, origin: Cpu, at: nat, E: set<Word>, fuel: nat)
    requires CalmRun(p, text, origin) && Native(p, origin, at).Next?
    requires E <= text && E <= Native(p, origin, at).cpu.mem.Keys
    ensures EndsRight(p, origin, E, at, fuel, RunFree(p, Over(Native(p, origin, at).cpu, E), fuel))
  {
    var s := Native(p, origin, at).cpu;
    CalmSuffix(p, text, origin, at);
    RunFreeOver(p, text, s, E, fuel);
    EndsRightOnward(p, origin, at, E, 0, fuel, RunFree(p, Over(s, E), fuel));
  }

  // ----- the assumptions can be met

  /** Two one-byte instructions at 1 and 2 that jump to each other. */
  function PingPong(s: Cpu): Outcome {
    Next(s.(pc := if s.pc == 1 then 2 else 1))
  }

  /** The instructions of PingPong, and a word at 0x48. */
  function PingPongStart(word: Byte): Cpu {
    Cpu(1, 0x40, map[], map[1 := 0x90, 2 := 0x90, 0x48 := word, 0x49 := 0, 0x4a := 0, 0x4b := 0,
                            0x4c := 0, 0x4d := 0, 0x4e := 0, 0x4f := 0])
  }

  lemma {:induction false} PingPongRun(word: Byte, n: nat)
    ensures var o := Native(PingPong, PingPongStart(word), n);
            o.Next? && o.cpu == PingPongStart(word).(pc := o.cpu.pc) && (o.cpu.pc == 1 || o.cpu.pc == 2)
  {
    if n > 0 {
      PingPongRun(word, n - 1);
    }
  }

  /**
   * There is a program that is calm with breakpoints allowed on all of its instructions,
   * whatever its frame pointer points to.
   */
  lemma CalmProgramExists(word: Byte)
    ensures CalmRun(PingPong, {1, 2}, PingPongStart(word))
  {
    forall n: nat | Native(PingPong, PingPongStart(word), n).Next?
      ensures Calm(PingPong, {1, 2}, Native(PingPong, PingPongStart(word), n).cpu)
    {
      PingPongRun(word, n);
    }
  }

  /** It can be left exactly where the word above that is not the address of its data. */
  lemma CallerExample(word: Byte)
    ensures CallerInText(PingPongStart(word), {1, 2}) <==> !(0x48 <= word < 0x50)
  {
    SlotWord(word);
  }

  lemma SlotWord(word: Byte)
    ensures var s := PingPongStart(word);
            ReturnSlot(s) == 0x48 && Mapped(s.mem, 0x48) && WordAt(s.mem, 0x48) == word
  {
    var m := PingPongStart(word).mem;
    assert Load(m, 0x50, 0x50) == 0;
    assert Load(m, 0x4e, 0x50) == 0;
    assert Load(m, 0x4c, 0x50) == 0;
    assert Load(m, 0x4a, 0x50) == 0;
    assert Load(m, 0x49, 0x50) == 0;
  }
}
