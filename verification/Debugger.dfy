/** The stepping commands of the debugger. */
module Debugging {
  import opened Words
  import opened Memory
  import opened Machine
  import opened Ptrace
  import opened BreakpointTable
  import opened LineTable
  import opened Transparency

  /** What a wait reports; BLOCKED when waitpid has not returned yet. */
  datatype WaitResult = OK | ERR | BLOCKED

  datatype Symbol = Symbol(name: Option<string>)

  /** The lookups into ELF and DWARF data the stepping commands make. */
  datatype DebugInfo = DebugInfo(
    symbolAt: Word -> Option<Symbol>,
    filepathAt: Word -> Option<string>,
    rangeOf: string -> Option<PcRange>,
    tableOf: string -> Option<Table>)
  {
    /** sd_line_entry_from_pc */
    function LineAt(pc: Word): Option<LineEntry> {
      match filepathAt(pc)
      case None => None
      case Some(file) =>
        match tableOf(file)
        case None => None
        case Some(t) => EntryOfPc(t, pc)
    }

    /** addr_position */
    function PositionAt(pc: Word): Option<LineEntry> {
      if symbolAt(pc).None? then None else LineAt(pc)
    }

    /** A position is an entry of the table of the file of a place that has a symbol. */
    lemma PositionExactly(pc: Word, e: LineEntry)
      ensures PositionAt(pc) == Some(e) <==>
              && symbolAt(pc).Some? && filepathAt(pc).Some? && tableOf(filepathAt(pc).value).Some?
              && EntryOfPc(tableOf(filepathAt(pc).value).value, pc) == Some(e)
    {
    }

    /** The rows sd_for_each_line visits for the function around pc. */
    function RowsAround(pc: Word): seq<LineEntry> {
      match (symbolAt(pc), filepathAt(pc))
      case (Some(Symbol(Some(name))), Some(file)) =>
        (match (rangeOf(name), tableOf(file))
         case (Some(range), Some(t)) => VisitedRows(t, range)
         case _ => [])
      case _ => []
    }

    /** The table around pc has strictly increasing addresses. */
    ghost predicate OrderedAround(pc: Word) {
      filepathAt(pc).Some? && tableOf(filepathAt(pc).value).Some? && Ascending(tableOf(filepathAt(pc).value).value)
    }

    /** The entry is the first row of the table around pc that begins at pc. */
    ghost predicate StartsRow(pc: Word, e: LineEntry) {
      && filepathAt(pc).Some? && tableOf(filepathAt(pc).value).Some?
      && IsFirstRowAt(tableOf(filepathAt(pc).value).value, pc, e)
    }

    /** A position is exact just when a row begins there. */
    lemma ExactStartsRow(pc: Word)
      ensures LineAt(pc).Some? && LineAt(pc).value.isExact <==> exists e :: StartsRow(pc, e)
      ensures forall e :: StartsRow(pc, e) ==> e.isExact && LineAt(pc) == Some(e)
    {
      if filepathAt(pc).Some? && tableOf(filepathAt(pc).value).Some? {
        ExactIsRow(tableOf(filepathAt(pc).value).value, pc);
        if LineAt(pc).Some? && LineAt(pc).value.isExact {
          assert StartsRow(pc, LineAt(pc).value);
        }
      }
    }

    /** pc lies behind the start of the row that covers it, and `next` is the row behind that. */
    ghost predicate InsideRowBefore(pc: Word, next: LineEntry) {
      && OrderedAround(pc)
      && var t := tableOf(filepathAt(pc).value).value;
         exists i: nat :: Covers(t, pc, i) && t[i].addr < pc && i + 1 < |t| && t[i + 1] == next
    }

    /** From inside a row the current line is taken to be that of the next row. */
    lemma LooksAhead(pc: Word)
      ensures forall next :: InsideRowBefore(pc, next) ==> LineAt(pc) == Some(next)
    {
      forall next | InsideRowBefore(pc, next)
        ensures LineAt(pc) == Some(next)
      {
        var t := tableOf(filepathAt(pc).value).value;
        var i: nat :| Covers(t, pc, i) && t[i].addr < pc && i + 1 < |t| && t[i + 1] == next;
        EntryOfCovered(t, pc, i);
      }
    }

    /** Where the process has the statement rows of the function around pc that are not of the given line. */
    ghost function LinesAround(pc: Word, line: nat, loadAddress: Word): set<Word> {
      match (symbolAt(pc), filepathAt(pc))
      case (Some(Symbol(Some(name))), Some(file)) =>
        (match (rangeOf(name), tableOf(file))
         case (Some(range), Some(t)) => LineStarts(t, range, line, loadAddress)
         case _ => {})
      case _ => {}
    }
  }

  ghost function LineStarts(t: Table, range: PcRange, line: nat, loadAddress: Word): set<Word> {
    set r | r in t && r.newStatement && range.lowpc <= r.addr <= range.highpc && r.ln != line ::
        DbgToReal(loadAddress, r.addr)
  }

  /** The addresses at which step_over plants breakpoints for the rows of a function. */
  function Targets(rows: seq<LineEntry>, skipLine: nat, loadAddress: Word): set<Word> {
    set r | r in rows && r.ln != skipLine :: Sub(r.addr, loadAddress)
  }

  datatype Command = Break(addr: Word) | Delete(addr: Word) | Continue | Inst | Leave | Step | NextLine

  const SINGLE_STEP_SEARCH_LIMIT: nat := 128

  class Debugger {
    const tracee: Tracee
    const breakpoints: Breakpoints
    const info: DebugInfo
    const loadAddress: Word

    /** The instruction starts on which breakpoints may be planted, and the state at attach time. */
    const text: set<Word>
    ghost const origin: Cpu

    ghost predicate Assumptions() {
      && 0 !in text
      && CalmRun(tracee.program, text, origin)
    }

    /**
     * The debugged process is the native process: after `retired` instructions the
     * native run is in the shadow state of the tracee, or has exited with the same code.
     */
    ghost predicate Valid()
      reads this, tracee, breakpoints
    {
      && breakpoints.tracee == tracee
      && Assumptions()
      && breakpoints.Enabled() <= text
      && if tracee.status.Dead? then Native(tracee.program, origin, tracee.retired) == Exit(tracee.status.code_)
         else Tracks(tracee.program, origin, text, breakpoints.entries, tracee.cpu, tracee.retired)
    }

    constructor (program: Program, cpu: Cpu, info: DebugInfo, loadAddress: Word, text: set<Word>)
      requires 0 !in text && CalmRun(program, text, cpu)
      ensures Valid() && fresh(tracee) && fresh(breakpoints)
      ensures tracee.program == program && origin == cpu && this.info == info
      ensures this.loadAddress == loadAddress && this.text == text
      ensures tracee.status.Stopped? && tracee.retired == 0 && breakpoints.Enabled() == {}
    {
      var child := new Tracee(program, cpu);
      tracee := child;
      breakpoints := new Breakpoints(child);
      this.info, this.loadAddress, this.text, this.origin := info, loadAddress, text, cpu;
      new;
      assert Unplant(cpu.mem, breakpoints.entries) == cpu.mem;
    }

    /** is_user_breakpoint */
    predicate IsUserBreakpoint()
      reads tracee, breakpoints
    {
      breakpoints.Lookup(tracee.GetPc())
    }

    /** handle_sigtrap: go back to the breakpoint address after INT3, and only then. */
    method HandleSigtrap(code: SigCode)
      requires tracee.status.Stopped?
      modifies tracee`cpu
      ensures tracee.cpu == Rewind(old(tracee.cpu), code)
    {
      if code == SI_KERNEL || code == TRAP_BRKPT {
        var pc := tracee.GetPc();
        tracee.SetPc(Sub(pc, 1));
      }
    }

    /** wait_for_signal */
    method WaitForSignal(fuel: nat) returns (res: WaitResult)
      requires Valid() && !tracee.status.Stopped?
      modifies tracee`cpu, tracee`status, tracee`retired
      ensures Valid()
      ensures old(tracee.status).Dead? ==>
                !res.BLOCKED? && tracee.status == old(tracee.status) && tracee.retired == old(tracee.retired)
      ensures old(tracee.status) == Resumed(true) ==>
                && !res.BLOCKED?
                && (res.OK? <==> tracee.status.Stopped?)
                && (res.ERR? <==> tracee.status.Dead?)
                && tracee.retired == old(tracee.retired) +
                    (if old(tracee.cpu.pc) in breakpoints.Enabled() then 0 else 1)
      ensures old(tracee.status) == Resumed(false) ==>
                && Quiet(tracee.program, origin, breakpoints.Enabled(), old(tracee.retired), tracee.retired)
                && (res.OK? <==> tracee.status.Stopped?)
                && (res.ERR? <==> tracee.status.Dead?)
                && (res.OK? ==> tracee.retired >= old(tracee.retired) && tracee.cpu.pc in breakpoints.Enabled())
                && (res.ERR? ==> tracee.retired > old(tracee.retired))
                && (res.BLOCKED? ==> tracee.retired == old(tracee.retired) + fuel)
    {
      if tracee.status.Dead? {
        // There is no child left to wait for: wait_status keeps an arbitrary value.
        var stray: bool := *;
        return if stray then OK else ERR;
      }
      if tracee.status.stepping {
        StepSettles(tracee.program, origin, text, breakpoints.entries, tracee.cpu, tracee.retired);
      } else {
        FreeRunSettles(tracee.program, origin, text, breakpoints.entries, tracee.cpu, tracee.retired, fuel);
      }
      var ws := tracee.WaitPid(fuel);
      match ws {
        case Waiting =>
          return BLOCKED;
        case WIFEXITED =>
          return ERR;
        case WIFSTOPPED =>
          HandleSigtrap(tracee.status.code);
          return OK;
      }
    }

    /** enable_breakpoint, for an address in the text or one that is not mapped at all. */
    method EnableBreakpoint(a: Word) returns (res: SprayResult)
      requires Valid() && (a in text || a !in tracee.cpu.mem)
      modifies breakpoints`entries, tracee`cpu, tracee`faults
      ensures Valid()
      ensures tracee.faults >= old(tracee.faults)
      ensures breakpoints.Enabled() == old(breakpoints.Enabled()) + (if res.SP_OK? then {a} else {})
      ensures tracee.cpu.mem.Keys == old(tracee.cpu.mem.Keys)
      ensures tracee.status.Stopped? ==> (res.SP_OK? <==> a in tracee.cpu.mem && tracee.faults == old(tracee.faults))
      ensures !tracee.status.Stopped? ==> breakpoints.Enabled() == old(breakpoints.Enabled())
    {
      res := breakpoints.Enable(a);
    }

    /** disable_breakpoint */
    method DisableBreakpoint(a: Word) returns (res: SprayResult)
      requires Valid()
      modifies breakpoints`entries, tracee`cpu, tracee`faults
      ensures Valid()
      ensures tracee.faults >= old(tracee.faults)
      ensures breakpoints.Enabled() == old(breakpoints.Enabled()) - (if res.SP_OK? then {a} else {})
      ensures tracee.cpu.mem.Keys == old(tracee.cpu.mem.Keys)
      ensures tracee.status.Stopped? ==> (res.SP_OK? <==> tracee.faults == old(tracee.faults))
      ensures !tracee.status.Stopped? ==> breakpoints.Enabled() == old(breakpoints.Enabled())
    {
      res := breakpoints.Disable(a);
    }

    /** single_step_breakpoint: execute the instruction under the current breakpoint, if there is one. */
    method SingleStepBreakpoint() returns (res: WaitResult)
      requires Valid() && !tracee.status.Resumed?
      modifies tracee, breakpoints`entries
      ensures Valid() && !tracee.status.Resumed? && tracee.faults >= old(tracee.faults)
      ensures breakpoints.Enabled() <= old(breakpoints.Enabled())
      ensures old(tracee.status.Dead?) ==> tracee.status == old(tracee.status)
      ensures !old(breakpoints.Lookup(tracee.GetPc())) ==>
                && res == OK && breakpoints.entries == old(breakpoints.entries)
                && tracee.cpu == old(tracee.cpu) && tracee.status == old(tracee.status)
                && tracee.faults == old(tracee.faults) && tracee.retired == old(tracee.retired)
      ensures old(tracee.retired) <= tracee.retired <= old(tracee.retired) + 1
      ensures tracee.faults == old(tracee.faults) && old(breakpoints.Lookup(tracee.GetPc())) ==>
                && tracee.retired == old(tracee.retired) + 1
                && (tracee.status.Stopped? ==> breakpoints.Enabled() == old(breakpoints.Enabled()))
    {
      hide Native, Quiet, Unplant, SameText;
      var pcAddress := tracee.GetPc();
      if breakpoints.Lookup(pcAddress) {
        assert tracee.status.Stopped?;
        var _ := DisableBreakpoint(pcAddress);
        var _ := tracee.Resume(true);
        res := WaitForSignal(1);
        if tracee.status.Stopped? {
          TextStaysMapped(tracee.program, origin, text, old(breakpoints.entries), old(tracee.cpu), old(tracee.retired),
                          breakpoints.entries, tracee.cpu, tracee.retired, pcAddress);
        }
        var _ := EnableBreakpoint(pcAddress);
      } else {
        res := OK;
      }
    }

    /** continue_execution */
    method ContinueExecution() returns (res: SprayResult)
      requires Valid() && !tracee.status.Resumed?
      modifies tracee, breakpoints`entries
      ensures Valid() && tracee.faults >= old(tracee.faults)
      ensures breakpoints.Enabled() <= old(breakpoints.Enabled())
      ensures if res.SP_OK? then tracee.status == Resumed(false) else tracee.status.Dead?
      ensures old(tracee.status.Dead?) ==> tracee.status == old(tracee.status)
      ensures old(tracee.retired) <= tracee.retired <= old(tracee.retired) + 1
      ensures tracee.faults == old(tracee.faults) && old(tracee.status.Stopped?) ==>
                && tracee.retired == old(tracee.retired) +
                    (if old(tracee.cpu.pc in breakpoints.Enabled()) then 1 else 0)
                && (tracee.status.Dead? ==> old(tracee.cpu.pc in breakpoints.Enabled()))
                && (res.SP_OK? ==> breakpoints.Enabled() == old(breakpoints.Enabled()))
    {
      var _ := SingleStepBreakpoint();
      res := tracee.Resume(false);
    }

    /**
     * The process was resumed in native state `from`. It now is in the first native state
     * strictly after it whose pc is in E, or has exited before, or has met neither so far.
     */
    ghost predicate AtFirstStop(E: set<Word>, from: nat)
      reads this, tracee
    {
      && Quiet(tracee.program, origin, E, from + 1, tracee.retired)
      && (!tracee.status.Resumed? ==> tracee.retired > from)
      && (tracee.status.Stopped? ==> tracee.cpu.pc in E)
    }

    lemma StopIsFirst(E: set<Word>, from: nat)
      requires Valid() && !tracee.status.Resumed? && AtFirstStop(E, from)
      ensures FirstStop(tracee.program, origin, E, from, tracee.retired)
    {
    }

    /** continue_execution and then wait_for_signal, as in the commands below. */
    method ContinueAndWait(fuel: nat) returns (res: WaitResult)
      requires Valid() && !tracee.status.Resumed?
      modifies tracee, breakpoints`entries
      ensures Valid() && tracee.faults >= old(tracee.faults) && tracee.retired >= old(tracee.retired)
      ensures breakpoints.Enabled() <= old(breakpoints.Enabled())
      ensures old(tracee.status.Dead?) ==> tracee.status == old(tracee.status)
      ensures res.BLOCKED? <==> tracee.status.Resumed?
      ensures res.OK? && old(tracee.status.Stopped?) ==> !tracee.status.Resumed?
      ensures res.BLOCKED? ==> tracee.retired >= old(tracee.retired) + fuel
      ensures tracee.faults == old(tracee.faults) && old(tracee.status.Stopped?) ==>
                && AtFirstStop(old(breakpoints.Enabled()), old(tracee.retired))
                && (!tracee.status.Dead? ==> breakpoints.Enabled() == old(breakpoints.Enabled()))
    {
      var _ := ContinueExecution();
      res := WaitForSignal(fuel);
    }

    /** exec_continue */
    method ExecContinue(fuel: nat) returns (res: WaitResult)
      requires Valid() && !tracee.status.Resumed?
      modifies tracee, breakpoints`entries
      ensures Valid() && tracee.faults >= old(tracee.faults) && tracee.retired >= old(tracee.retired)
      ensures old(tracee.status.Dead?) ==> tracee.status == old(tracee.status) && res == ERR
      ensures res == if tracee.status.Stopped? then OK else if tracee.status.Dead? then ERR else BLOCKED
      ensures res.BLOCKED? ==> tracee.retired >= old(tracee.retired) + fuel
      ensures tracee.faults == old(tracee.faults) && old(tracee.status.Stopped?) ==>
                && AtFirstStop(old(breakpoints.Enabled()), old(tracee.retired))
                && (!tracee.status.Dead? ==> breakpoints.Enabled() == old(breakpoints.Enabled()))
    {
      var resumed := ContinueExecution();
      if resumed.SP_OK? {
        res := WaitForSignal(fuel);
      } else {
        res := ERR;
      }
    }

    /** single_step_instruction */
    method SingleStepInstruction() returns (res: WaitResult)
      requires Valid() && !tracee.status.Resumed?
      modifies tracee, breakpoints`entries
      ensures Valid() && !tracee.status.Resumed? && tracee.faults >= old(tracee.faults)
      ensures breakpoints.Enabled() <= old(breakpoints.Enabled())
      ensures old(tracee.status.Dead?) ==> tracee.status == old(tracee.status) && tracee.retired == old(tracee.retired)
      ensures old(tracee.retired) <= tracee.retired <= old(tracee.retired) + 1
      ensures old(tracee.status.Stopped?) ==>
                (res.OK? <==> tracee.status.Stopped? || old(breakpoints.Lookup(tracee.GetPc())))
      ensures tracee.faults == old(tracee.faults) && old(tracee.status.Stopped?) ==>
                && tracee.retired == old(tracee.retired) + 1
                && (tracee.status.Stopped? ==> res.OK? && breakpoints.Enabled() == old(breakpoints.Enabled()))
    {
      if breakpoints.Lookup(tracee.GetPc()) {
        var _ := SingleStepBreakpoint();
        res := OK;
      } else {
        var _ := tracee.Resume(true);
        res := WaitForSignal(1);
      }
    }

    /** The return address of the current frame, where it can be read. */
    function ReturnAddress(): Option<Word>
      reads this, tracee, breakpoints
      requires breakpoints.tracee == tracee
    {
      var s := Shadow(tracee.cpu, breakpoints.entries);
      if Mapped(s.mem, ReturnSlot(s)) then Some(WordAt(s.mem, ReturnSlot(s))) else None
    }

    /** A breakpoint on the return address does no harm. */
    predicate CanLeave()
      reads this, tracee, breakpoints
    {
      CallerInText(Shadow(tracee.cpu, breakpoints.entries), text)
    }

    /** The return address is read past the planted bytes, and leads into the text or nowhere. */
    lemma ReturnAddressInText()
      requires Valid() && !tracee.status.Dead? && CanLeave()
      ensures 0 !in tracee.cpu.mem
      ensures ReturnAddress().Some? <==> Mapped(tracee.cpu.mem, ReturnSlot(tracee.cpu))
      ensures Mapped(tracee.cpu.mem, ReturnSlot(tracee.cpu)) ==>
                && ReturnAddress() == Some(WordAt(tracee.cpu.mem, ReturnSlot(tracee.cpu)))
                && (ReturnAddress().value in text || ReturnAddress().value !in tracee.cpu.mem)
    {
      var s, slot := Shadow(tracee.cpu, breakpoints.entries), ReturnSlot(tracee.cpu);
      assert s.mem.Keys == tracee.cpu.mem.Keys;
      if Mapped(tracee.cpu.mem, slot) {
        forall i: int | slot <= i < slot + 8
          ensures i in s.mem && s.mem[i] == tracee.cpu.mem[i]
        {
        }
        LoadFrame(s.mem, tracee.cpu.mem, slot, slot + 8);
      }
    }

    /** Where a breakpoint on the return address is planted: nowhere without a mapped return address. */
    function ReturnStop(): set<Word>
      reads this, tracee, breakpoints
      requires breakpoints.tracee == tracee
    {
      match ReturnAddress()
      case Some(a) => if a in tracee.cpu.mem then {a} else {}
      case None => {}
    }

    /** set_return_address_breakpoint */
    method SetReturnAddressBreakpoint() returns (remove: bool, returnAddress: Word)
      requires Valid() && tracee.status.Stopped? && CanLeave()
      modifies breakpoints`entries, tracee`cpu, tracee`faults
      ensures Valid()
      ensures tracee.faults >= old(tracee.faults)
      ensures remove <==> returnAddress !in old(breakpoints.Enabled())
      ensures old(breakpoints.Enabled()) <= breakpoints.Enabled() <= old(breakpoints.Enabled()) + {returnAddress}
      ensures tracee.faults == old(tracee.faults) ==> breakpoints.Enabled() == old(breakpoints.Enabled() + ReturnStop())
    {
      ReturnAddressInText();
      var location := ReturnSlot(tracee.cpu);
      var word := tracee.PeekWord(location);
      returnAddress := if word.Some? then word.value else 0;
      remove := false;
      if !breakpoints.Lookup(returnAddress) {
        var _ := EnableBreakpoint(returnAddress);
        remove := true;
      }
    }

    method DisableAll(toDel: seq<Word>)
      requires Valid()
      modifies breakpoints`entries, tracee`cpu, tracee`faults
      ensures Valid() && tracee.faults >= old(tracee.faults)
      ensures tracee.status.Stopped? && tracee.faults == old(tracee.faults) ==>
                breakpoints.Enabled() == old(breakpoints.Enabled()) - Elements(toDel)
    {
      for i := 0 to |toDel|
        invariant Valid() && tracee.faults >= old(tracee.faults)
        invariant tracee.status.Stopped? && tracee.faults == old(tracee.faults) ==>
                    breakpoints.Enabled() == old(breakpoints.Enabled()) - Elements(toDel[..i])
      {
        var _ := DisableBreakpoint(toDel[i]);
        ElementsPrefix(toDel, i);
      }
      assert toDel[..|toDel|] == toDel;
    }

    /**
     * What step_out and step_over have in common: break on the return address, run, and
     * delete that breakpoint and the listed ones again.
     */
    method RunToReturn(toDel: seq<Word>, fuel: nat) returns (res: WaitResult)
      requires Valid() && tracee.status.Stopped? && CanLeave()
      modifies tracee, breakpoints`entries
      ensures Valid() && tracee.faults >= old(tracee.faults) && tracee.retired >= old(tracee.retired)
      ensures res.BLOCKED? <==> tracee.status.Resumed?
      ensures tracee.faults == old(tracee.faults) ==>
                AtFirstStop(old(breakpoints.Enabled() + ReturnStop()), old(tracee.retired))
      ensures tracee.faults == old(tracee.faults) && tracee.status.Stopped? ==>
                breakpoints.Enabled() == old(breakpoints.Enabled()) - Elements(toDel)
    {
      hide Quiet, Unplant, InPlace, EnabledIn;
      var remove, returnAddress := SetReturnAddressBreakpoint();
      res := ContinueAndWait(fuel);
      if res.BLOCKED? {
        return;
      }
      DisableAll(toDel);
      if remove {
        var _ := DisableBreakpoint(returnAddress);
      }
    }

    /**
     * step_out: run to the return address or to an earlier breakpoint, and leave no
     * breakpoint of its own behind.
     */
    method StepOut(fuel: nat) returns (res: WaitResult)
      requires Valid() && tracee.status.Stopped? && CanLeave()
      modifies tracee, breakpoints`entries
      ensures Valid() && tracee.faults >= old(tracee.faults) && tracee.retired >= old(tracee.retired)
      ensures res.BLOCKED? <==> tracee.status.Resumed?
      ensures tracee.faults == old(tracee.faults) ==>
                AtFirstStop(old(breakpoints.Enabled() + ReturnStop()), old(tracee.retired))
      ensures tracee.faults == old(tracee.faults) && tracee.status.Stopped? ==>
                && breakpoints.Enabled() == old(breakpoints.Enabled())
                && (IsUserBreakpoint() <==> tracee.cpu.pc in old(breakpoints.Enabled()))
    {
      res := RunToReturn([], fuel);
    }

    /** The pc in the debug data: the process has that place at the load address above it. */
    function GetDbgPc(): (pc: Word)
      reads tracee
      ensures (pc + loadAddress) % TWO64 == tracee.GetPc()
    {
      RealToDbg(loadAddress, tracee.GetPc())
    }

    /** Where the debug data has the place at which the program is. */
    ghost function InfoPc(s: Cpu): Word {
      (s.pc - loadAddress) % TWO64
    }

    /** The program is, in the process, where the first row begins that does; that row is of another line. */
    ghost predicate AtNewLine(s: Cpu, line: nat) {
      exists row :: info.StartsRow(InfoPc(s), row) && s.pc == (row.addr + loadAddress) % TWO64 && row.ln != line
    }

    /** Native state k has a known position, and is not where a row of another line begins. */
    ghost predicate StillOnLine(k: nat, line: nat) {
      && Native(tracee.program, origin, k).Next?
      && var s := Native(tracee.program, origin, k).cpu;
         info.PositionAt(InfoPc(s)).Some? && !AtNewLine(s, line)
    }

    /**
     * From native state `from`, in s, stepping by lines goes on to state `at`: to where a
     * row of another line begins, to a place without a position, to the end of the search
     * or to the exit, whichever comes first.
     */
    ghost predicate LineStepped(s: Cpu, from: nat, at: nat) {
      if info.PositionAt(InfoPc(s)).None? then at == from
      else
        var line := info.PositionAt(InfoPc(s)).value.ln;
        && from < at <= from + 128
        && (forall k: nat | from < k < at :: StillOnLine(k, line))
        && match Native(tracee.program, origin, at)
           case Exit(_) => true
           case Next(t) => AtNewLine(t, line) || info.PositionAt(InfoPc(t)).None? || at == from + 128
    }

    /** What the position at a stop says of the native state. */
    lemma PositionNow(line: nat)
      requires Valid() && tracee.status.Stopped?
      ensures Native(tracee.program, origin, tracee.retired) == Next(Shadow(tracee.cpu, breakpoints.entries))
      ensures var s, pos := Shadow(tracee.cpu, breakpoints.entries), info.PositionAt(GetDbgPc());
              && InfoPc(s) == GetDbgPc()
              && (pos.Some? ==> (pos.value.isExact && pos.value.ln != line <==> AtNewLine(s, line)))
              && (pos.Some? && pos.value.isExact ==>
                    info.StartsRow(GetDbgPc(), pos.value) && tracee.cpu.pc == (pos.value.addr + loadAddress) % TWO64)
    {
      var s := Shadow(tracee.cpu, breakpoints.entries);
      info.ExactStartsRow(InfoPc(s));
    }

    /** single_step_line */
    method SingleStepLine() returns (res: WaitResult)
      requires Valid() && !tracee.status.Resumed?
      modifies tracee, breakpoints`entries
      ensures Valid() && !tracee.status.Resumed? && !res.BLOCKED?
      ensures tracee.faults >= old(tracee.faults) && tracee.retired >= old(tracee.retired)
      ensures breakpoints.Enabled() <= old(breakpoints.Enabled())
      ensures tracee.retired <= old(tracee.retired) + SINGLE_STEP_SEARCH_LIMIT
      ensures res.OK? ==> old(info.PositionAt(GetDbgPc())).Some?
      ensures tracee.faults == old(tracee.faults) && tracee.status.Stopped? ==>
                breakpoints.Enabled() == old(breakpoints.Enabled())
      ensures res.OK? && tracee.faults == old(tracee.faults) && tracee.status.Stopped? ==>
                var line := old(info.PositionAt(GetDbgPc())).value.ln;
                var pos := info.PositionAt(GetDbgPc());
                && pos.Some? && info.StartsRow(GetDbgPc(), pos.value) && pos.value.ln != line
                && tracee.cpu.pc == (pos.value.addr + loadAddress) % TWO64
                && old(tracee.retired) < tracee.retired < old(tracee.retired) + SINGLE_STEP_SEARCH_LIMIT
                && (forall k: nat | old(tracee.retired) < k < tracee.retired :: StillOnLine(k, line))
                && forall next :: info.InsideRowBefore(old(GetDbgPc()), next) ==> pos.value.ln != next.ln
      ensures tracee.faults == old(tracee.faults) && old(tracee.status.Stopped?) ==>
                LineStepped(old(Shadow(tracee.cpu, breakpoints.entries)), old(tracee.retired), tracee.retired)
      ensures res.ERR? && tracee.faults == old(tracee.faults) && tracee.status.Stopped? ==>
                || old(info.PositionAt(GetDbgPc())).None?
                || info.PositionAt(GetDbgPc()).None?
                || tracee.retired == old(tracee.retired) + SINGLE_STEP_SEARCH_LIMIT
    {
      hide Ascending, Covers, EntryOfPc, Quiet, EnabledIn, IsFirstRowAt, AtNewLine, Native, Unplant, InPlace, Calm;
      var pos := info.PositionAt(GetDbgPc());
      if pos.None? {
        return ERR;
      }
      info.LooksAhead(GetDbgPc());
      var initLine := pos.value.ln;
      var steps: nat := 0;
      if tracee.status.Stopped? {
        PositionNow(initLine);
      }
      while !pos.value.isExact || pos.value.ln == initLine
        invariant Valid() && !tracee.status.Resumed?
        invariant pos == info.PositionAt(GetDbgPc()) && pos.Some?
        invariant steps < SINGLE_STEP_SEARCH_LIMIT
        invariant steps == 0 ==> pos.value.ln == initLine && tracee.retired == old(tracee.retired)
        invariant tracee.status.Stopped? ==> old(tracee.status.Stopped?)
        invariant tracee.faults >= old(tracee.faults)
        invariant breakpoints.Enabled() <= old(breakpoints.Enabled())
        invariant old(tracee.retired) <= tracee.retired <= old(tracee.retired) + steps
        invariant tracee.faults == old(tracee.faults) && tracee.status.Stopped? ==>
                    && breakpoints.Enabled() == old(breakpoints.Enabled())
                    && tracee.retired == old(tracee.retired) + steps
        invariant tracee.faults == old(tracee.faults) && old(tracee.status.Stopped?) ==>
                    && (steps > 0 ==> tracee.retired > old(tracee.retired))
                    && (steps == 0 ==> tracee.status.Stopped?)
                    && forall k: nat | old(tracee.retired) < k < tracee.retired :: StillOnLine(k, initLine)
        decreases SINGLE_STEP_SEARCH_LIMIT - steps
      {
        if tracee.status.Stopped? {
          PositionNow(initLine);
        }
        var stepped := SingleStepInstruction();
        if stepped.ERR? {
          return ERR;
        }
        steps := steps + 1;
        pos := info.PositionAt(GetDbgPc());
        if tracee.status.Stopped? {
          PositionNow(initLine);
        }
        if pos.None? || steps >= SINGLE_STEP_SEARCH_LIMIT {
          return ERR;
        }
      }
      if tracee.status.Stopped? {
        PositionNow(initLine);
      }
      res := OK;
    }

    /**
     * callback__set_dwarf_line_breakpoint: plant a breakpoint on a row of another line
     * that has none yet, and add its address to the list of those to delete.
     */
    method SetLineBreakpoint(line: LineEntry, skipLine: nat, toDel: seq<Word>) returns (toDel': seq<Word>)
      requires Valid() && tracee.status.Stopped?
      requires line.ln != skipLine ==> Plantable({Sub(line.addr, loadAddress)})
      modifies breakpoints`entries, tracee`cpu, tracee`faults
      ensures Valid()
      ensures tracee.cpu == old(tracee.cpu).(mem := tracee.cpu.mem) && tracee.cpu.mem.Keys == old(tracee.cpu.mem.Keys)
      ensures tracee.faults >= old(tracee.faults)
      ensures tracee.faults == old(tracee.faults) ==>
                Planting(breakpoints.Enabled(), toDel') ==
                var callback := PlantRow(skipLine, loadAddress, tracee.cpu.mem.Keys);
                callback(line, Planting(old(breakpoints.Enabled()), toDel)).0
    {
      toDel' := toDel;
      var realLineAddr := Sub(line.addr, loadAddress);
      if skipLine != line.ln && !breakpoints.Lookup(realLineAddr) {
        var _ := EnableBreakpoint(realLineAddr);
        toDel' := toDel + [realLineAddr];
      }
    }

    /** sd_for_each_line, with SetLineBreakpoint as its callback. */
    method PlantLineBreakpoints(t: Table, range: PcRange, skipLine: nat) returns (toDel: seq<Word>)
      requires Valid() && tracee.status.Stopped?
      requires Plantable(Targets(VisitedRows(t, range), skipLine, loadAddress))
      modifies breakpoints`entries, tracee`cpu, tracee`faults
      ensures Valid()
      ensures tracee.cpu == old(tracee.cpu).(mem := tracee.cpu.mem) && tracee.cpu.mem.Keys == old(tracee.cpu.mem.Keys)
      ensures tracee.faults >= old(tracee.faults)
      ensures tracee.faults == old(tracee.faults) ==>
                var callback := PlantRow(skipLine, loadAddress, tracee.cpu.mem.Keys);
                (Planting(breakpoints.Enabled(), toDel), SP_OK) ==
                RunCallback(VisitedRows(t, range), callback, Planting(old(breakpoints.Enabled()), []))
    {
      hide RunCallback, RowsUpTo, VisitedRows, RowsOfRange;
      toDel := [];
      var start := IndexOfPc(t, range.lowpc);
      RowsOfLookup(t, range);
      if start.None? {
        VisitNone(t, |t|, range.highpc, PlantRow(skipLine, loadAddress, tracee.cpu.mem.Keys),
            Planting(breakpoints.Enabled(), []));
        return;
      }
      ghost var callback := PlantRow(skipLine, loadAddress, tracee.cpu.mem.Keys);
      ghost var planted := RunCallback(VisitedRows(t, range), callback, Planting(breakpoints.Enabled(), []));
      var i := start.value;
      while i < |t| && t[i].addr <= range.highpc
        invariant i <= |t|
        invariant Valid() && tracee.status.Stopped?
        invariant tracee.cpu == old(tracee.cpu).(mem := tracee.cpu.mem)
        invariant tracee.cpu.mem.Keys == old(tracee.cpu.mem.Keys)
        invariant Plantable(Targets(RowsUpTo(t, i, range.highpc), skipLine, loadAddress))
        invariant tracee.faults >= old(tracee.faults)
        invariant tracee.faults == old(tracee.faults) ==>
                    planted == RunCallback(RowsUpTo(t, i, range.highpc), callback,
                        Planting(breakpoints.Enabled(), toDel))
      {
        VisitRow(t, i, range.highpc, callback, Planting(breakpoints.Enabled(), toDel));
        TargetsOfRow(t, i, range.highpc, skipLine, loadAddress);
        if t[i].newStatement {
          toDel := SetLineBreakpoint(t[i], skipLine, toDel);
        }
        i := i + 1;
      }
      VisitNone(t, i, range.highpc, callback, Planting(breakpoints.Enabled(), toDel));
    }

    /** set_step_over_breakpoints, for the symbol around pc. */
    method SetStepOverBreakpoints(func: Symbol, pc: Word) returns (res: SprayResult, toDel: seq<Word>)
      requires Valid() && tracee.status.Stopped? && info.symbolAt(pc) == Some(func)
      requires CanStepOver(pc) ==> Plantable(StepTargets(pc))
      modifies breakpoints`entries, tracee`cpu, tracee`faults
      ensures Valid()
      ensures tracee.cpu == old(tracee.cpu).(mem := tracee.cpu.mem) && tracee.cpu.mem.Keys == old(tracee.cpu.mem.Keys)
      ensures tracee.faults >= old(tracee.faults)
      ensures res.SP_OK? <==> CanStepOver(pc)
      ensures tracee.faults == old(tracee.faults) ==>
                && breakpoints.Enabled() == old(breakpoints.Enabled()) + (if res.SP_OK? then StepStops(pc) else {})
                && Elements(toDel) == (if res.SP_OK? then StepTargets(pc) else {}) - old(breakpoints.Enabled())
    {
      toDel := [];
      var pos, file := info.LineAt(pc), info.filepathAt(pc);
      if pos.None? || func.name.None? || file.None? {
        return SP_ERR, toDel;
      }
      var range, table := info.rangeOf(func.name.value), info.tableOf(file.value);
      if range.Some? && table.Some? {
        PlantsTargets(VisitedRows(table.value, range.value), pos.value.ln, loadAddress, tracee.cpu.mem.Keys,
                      Planting(breakpoints.Enabled(), []));
        toDel := PlantLineBreakpoints(table.value, range.value, pos.value.ln);
      }
      res := SP_OK;
    }

    predicate CanStepOver(pc: Word) {
      && info.symbolAt(pc).Some? && info.symbolAt(pc).value.name.Some?
      && info.LineAt(pc).Some? && info.filepathAt(pc).Some?
    }

    /** Where step_over plants breakpoints for the statement rows of the function around pc. */
    function StepTargets(pc: Word): set<Word>
      requires CanStepOver(pc)
    {
      Targets(info.RowsAround(pc), info.LineAt(pc).value.ln, loadAddress)
    }

    /** Those of them at which there is memory to plant a breakpoint in. */
    function StepStops(pc: Word): set<Word>
      reads tracee
      requires CanStepOver(pc)
    {
      set a | a in StepTargets(pc) && a in tracee.cpu.mem
    }

    /** A breakpoint at each of the addresses is in the text, or cannot be planted. */
    predicate Plantable(addresses: set<Word>)
      reads this, tracee
    {
      forall a | a in addresses :: a in text || a !in tracee.cpu.mem
    }

    /**
     * Where addresses are not shifted, the targets are the statement rows of the function
     * that are not of the line looked up for pc: its own line where pc is at the start of
     * a row, and inside a row the line of the next one.
     */
    lemma StepTargetsAreLines(pc: Word)
      ensures CanStepOver(pc) && info.OrderedAround(pc) && (loadAddress == 0 || 2 * loadAddress == TWO64) ==>
                && StepTargets(pc) == info.LinesAround(pc, info.LineAt(pc).value.ln, loadAddress)
                && forall next :: info.InsideRowBefore(pc, next) ==>
                    StepTargets(pc) == info.LinesAround(pc, next.ln, loadAddress)
    {
      if CanStepOver(pc) && info.OrderedAround(pc) && (loadAddress == 0 || 2 * loadAddress == TWO64) {
        var t, range := info.tableOf(info.filepathAt(pc).value).value, info.rangeOf(info.symbolAt(pc).value.name.value);
        if range.Some? {
          TargetsAreLineStarts(t, range.value, info.LineAt(pc).value.ln, loadAddress);
        }
        info.LooksAhead(pc);
      }
    }

    /** The line looked up for pc is that of the first row there, and inside a row that of the next one. */
    lemma LineLookedUp(pc: Word)
      ensures CanStepOver(pc) ==>
                var line := info.LineAt(pc).value.ln;
                && (forall row :: info.StartsRow(pc, row) ==>
                      (pc + loadAddress) % TWO64 == (row.addr + loadAddress) % TWO64 && row.ln == line)
                && (forall next :: info.InsideRowBefore(pc, next) ==> next.ln == line)
    {
      info.ExactStartsRow(pc);
      info.LooksAhead(pc);
    }

    /**
     * When the iteration over the function's rows fails, step_over goes on without
     * targets: for want of a range or a table, or because the lookup of the function's
     * start fails.
     */
    lemma NoTargets(pc: Word)
      requires CanStepOver(pc)
      ensures var range, t := info.rangeOf(info.symbolAt(pc).value.name.value), info.tableOf(info.filepathAt(pc).value);
              && t.Some?
              && var fails := range.None?
                              || (forall i | 0 <= i < |t.value| :: t.value[i].addr < range.value.lowpc)
                              || exists i :: Shadowed(t.value, range.value.lowpc, i);
                 fails ==> StepTargets(pc) == {}
    {
      var range, t := info.rangeOf(info.symbolAt(pc).value.name.value), info.tableOf(info.filepathAt(pc).value);
      if range.Some? {
        RowOfPcFails(t.value, range.value.lowpc);
      }
    }

    /**
     * In a process that is loaded high enough, the targets are in the upper half of the
     * addresses. Where nothing is mapped there, step_over plants nothing on the rows.
     */
    lemma ShiftedTargets(pc: Word)
      requires CanStepOver(pc) && forall r | r in info.RowsAround(pc) :: r.addr < loadAddress <= TWO64 / 2
      ensures forall a | a in StepTargets(pc) :: a >= TWO64 / 2
      ensures (forall a | a in tracee.cpu.mem :: a < TWO64 / 2) ==> StepStops(pc) == {} && Plantable(StepTargets(pc))
    {
    }

    /**
     * step_over: run to another line of the function, to the return address or to an
     * earlier breakpoint of the user's, and leave no breakpoint of its own behind.
     */
    method StepOver(fuel: nat) returns (res: WaitResult)
      requires Valid() && tracee.status.Stopped?
      requires CanStepOver(GetDbgPc()) ==> CanLeave() && Plantable(StepTargets(GetDbgPc()))
      modifies tracee, breakpoints`entries
      ensures Valid() && tracee.faults >= old(tracee.faults) && tracee.retired >= old(tracee.retired)
      ensures res.BLOCKED? <==> tracee.status.Resumed?
      ensures !old(CanStepOver(GetDbgPc())) ==>
          res.ERR? && tracee.retired == old(tracee.retired) && tracee.status.Stopped?
      ensures tracee.faults == old(tracee.faults) && old(CanStepOver(GetDbgPc())) ==>
                AtFirstStop(old(breakpoints.Enabled() + StepStops(GetDbgPc()) + ReturnStop()), old(tracee.retired))
      ensures tracee.faults == old(tracee.faults) && old(CanStepOver(GetDbgPc()) && StepStops(GetDbgPc()) == {}) ==>
                AtFirstStop(old(breakpoints.Enabled() + ReturnStop()), old(tracee.retired))
      ensures old(CanStepOver(GetDbgPc())) ==>
                var line := old(info.LineAt(GetDbgPc())).value.ln;
                && (forall row :: info.StartsRow(old(GetDbgPc()), row) ==>
                      old(tracee.cpu.pc) == (row.addr + loadAddress) % TWO64 && row.ln == line)
                && (forall next :: info.InsideRowBefore(old(GetDbgPc()), next) ==> next.ln == line)
      ensures old(CanStepOver(GetDbgPc())) && info.OrderedAround(old(GetDbgPc())) ==>
                loadAddress == 0 || 2 * loadAddress == TWO64 ==>
                  old(StepTargets(GetDbgPc())) ==
                  old(info.LinesAround(GetDbgPc(), info.LineAt(GetDbgPc()).value.ln, loadAddress))
      ensures tracee.faults == old(tracee.faults) && tracee.status.Stopped? ==>
                && breakpoints.Enabled() == old(breakpoints.Enabled())
                && (IsUserBreakpoint() <==> tracee.cpu.pc in old(breakpoints.Enabled()))
    {
      hide EntryOfPc, IsFirstRowAt, Targets, LineStarts, Unplant, InPlace, Quiet, Native;
      hide DebugInfo.InsideRowBefore, DebugInfo.StartsRow, DebugInfo.OrderedAround;
      var pc := GetDbgPc();
      StepTargetsAreLines(pc);
      LineLookedUp(pc);
      assert breakpoints.Enabled() + {} + ReturnStop() == breakpoints.Enabled() + ReturnStop();
      var func := info.symbolAt(pc);
      if func.None? {
        return ERR;
      }
      var set_, toDel := SetStepOverBreakpoints(func.value, pc);
      if set_.SP_ERR? {
        return ERR;
      }
      res := RunToReturn(toDel, fuel);
    }

    // What each command does, by the native run alone: from state `from`, which is s, it
    // goes on to state `at`, or is still under way there.

    ghost predicate RunsTo(E: set<Word>, from: nat, at: nat, underWay: bool) {
      if underWay then Quiet(tracee.program, origin, E, from + 1, at)
      else FirstStop(tracee.program, origin, E, from, at)
    }

    /** The word above the saved frame pointer, if it is there and the address of some memory. */
    ghost function CallerOf(s: Cpu): set<Word> {
      var slot: Word := (s.rbp + 8) % TWO64;
      if Mapped(s.mem, slot) && WordAt(s.mem, slot) in s.mem then {WordAt(s.mem, slot)} else {}
    }

    /** The place has a named function, a file and a row. */
    ghost predicate HasLine(s: Cpu) {
      var pc := InfoPc(s);
      && info.symbolAt(pc).Some? && info.symbolAt(pc).value.name.Some?
      && info.filepathAt(pc).Some? && info.tableOf(info.filepathAt(pc).value).Some?
      && EntryOfPc(info.tableOf(info.filepathAt(pc).value).value, pc).Some?
    }

    /** The mapped addresses computed for the rows of the function around s that are of another line. */
    ghost function OtherLinesOf(s: Cpu): set<Word>
      requires HasLine(s)
    {
      var pc := InfoPc(s);
      var line := EntryOfPc(info.tableOf(info.filepathAt(pc).value).value, pc).value.ln;
      set r | r in info.RowsAround(pc) && r.ln != line && (r.addr - loadAddress) % TWO64 in s.mem ::
          (r.addr - loadAddress) % TWO64
    }

    ghost predicate Did(E: set<Word>, command: Command, s: Cpu, from: nat, at: nat, underWay: bool) {
      match command
      case Break(_) => at == from
      case Delete(_) => at == from
      case Continue => RunsTo(E, from, at, underWay)
      case Inst => at == from + 1
      case Leave => RunsTo(E + CallerOf(s), from, at, underWay)
      case Step => LineStepped(s, from, at)
      case NextLine => if HasLine(s) then RunsTo(E + OtherLinesOf(s) + CallerOf(s), from, at, underWay) else at == from
    }

    /** Command i, at stop i, did what it is for, given the breakpoints the user has set before. */
    ghost predicate DidAt(E: set<Word>, commands: seq<Command>, stops: seq<Cpu>, clocks: seq<nat>, i: nat)
      requires i < |commands| && i + 1 < |clocks| && i < |stops|
    {
      Did(UserSet(E, commands[..i], stops), commands[i], stops[i], clocks[i], clocks[i + 1], false)
    }

    /** Unless it steps by lines, a command passes over no breakpoint of the user's. */
    lemma NonePassed(E: set<Word>, command: Command, s: Cpu, from: nat, at: nat, underWay: bool)
      requires Did(E, command, s, from, at, underWay) && !command.Step?
      ensures Quiet(tracee.program, origin, E, from + 1, at)
    {
    }

    /**
     * A debugging session: the state at its start and at the stop after each command. The
     * stops are a subsequence of the states of the native run, in order, whatever memory
     * accesses fail. When none fails at a mapped address, the enabled addresses are always
     * those the user has set, and every command goes to the native state it is for. The
     * session ends when the child exits, when a wait for it does not return, or in front
     * of a command that would plant a breakpoint outside of the text.
     */
    method Session(commands: seq<Command>, fuel: nat) returns (stops: seq<Cpu>, ghost clocks: seq<nat>)
      requires Valid() && tracee.status.Stopped?
      modifies tracee, breakpoints`entries
      ensures Valid()
      ensures 0 < |stops| == |clocks| <= |commands| + 1
      ensures tracee.status.Stopped? ==> |stops| == |commands| + 1 || !Ready(commands[|stops| - 1])
      ensures !tracee.status.Stopped? ==> |stops| <= |commands|
      ensures forall i | 0 <= i < |stops| :: Native(tracee.program, origin, clocks[i]) == Next(stops[i])
      ensures forall i, j | 0 <= i < j < |clocks| :: clocks[i] <= clocks[j]
      ensures tracee.faults == old(tracee.faults) && tracee.status.Stopped? ==>
                breakpoints.Enabled() == UserSet(old(breakpoints.Enabled()), commands[..|stops| - 1], stops)
      ensures tracee.faults == old(tracee.faults) ==>
                forall i | 0 <= i < |clocks| - 1 :: DidAt(old(breakpoints.Enabled()), commands, stops, clocks, i)
      ensures tracee.faults == old(tracee.faults) && !tracee.status.Stopped? ==>
                var n := |stops| - 1;
                Did(UserSet(old(breakpoints.Enabled()), commands[..n], stops), commands[n], stops[n], clocks[n],
                    tracee.retired, tracee.status.Resumed?)
      ensures tracee.status.Dead? ==> Native(tracee.program, origin, tracee.retired) == Exit(tracee.status.code_)
    {
      hide Native, Did, UserEdit, UserSet, EnabledIn;
      UserSetNone(breakpoints.Enabled(), [Shadow(tracee.cpu, breakpoints.entries)]);
      stops, clocks := [Shadow(tracee.cpu, breakpoints.entries)], [tracee.retired];
      for n := 0 to |commands|
        invariant Valid() && tracee.status.Stopped? && tracee.faults >= old(tracee.faults)
        invariant |stops| == |clocks| == n + 1 && clocks[n] == tracee.retired
        invariant stops[n] == Shadow(tracee.cpu, breakpoints.entries)
        invariant forall i | 0 <= i < |stops| :: Native(tracee.program, origin, clocks[i]) == Next(stops[i])
        invariant forall i, j | 0 <= i < j < |clocks| :: clocks[i] <= clocks[j]
        invariant tracee.faults == old(tracee.faults) ==>
                    && breakpoints.Enabled() == UserSet(old(breakpoints.Enabled()), commands[..n], stops)
                    && forall i | 0 <= i < n :: DidAt(old(breakpoints.Enabled()), commands, stops, clocks, i)
      {
        if !Ready(commands[n]) {
          return;
        }
        assert stops[n].mem.Keys == tracee.cpu.mem.Keys;
        Execute(commands[n], fuel);
        if !tracee.status.Stopped? {
          return;
        }
        ghost var stops0, clocks0 := stops, clocks;
        stops := stops + [Shadow(tracee.cpu, breakpoints.entries)];
        clocks := clocks + [tracee.retired];
        UserSetNext(old(breakpoints.Enabled()), commands, stops, n);
        forall i | 0 <= i <= n
          ensures UserSet(old(breakpoints.Enabled()), commands[..i], stops)
               == UserSet(old(breakpoints.Enabled()), commands[..i], stops0)
        {
          UserSetMore(old(breakpoints.Enabled()), commands[..i], stops0, stops[n + 1]);
        }
        assert forall i | 0 <= i < n && DidAt(old(breakpoints.Enabled()), commands, stops0, clocks0, i) ::
            DidAt(old(breakpoints.Enabled()), commands, stops, clocks, i);
      }
      assert commands[..|commands|] == commands;
    }

    /** Whatever breakpoint the command plants is in the text. */
    predicate Ready(command: Command)
      reads this, tracee, breakpoints
    {
      match command
      case Break(a) => Plantable({a})
      case Leave => CanLeave()
      case NextLine => CanStepOver(GetDbgPc()) ==> CanLeave() && Plantable(StepTargets(GetDbgPc()))
      case _ => true
    }

    /** The commands that need nothing, and what the others need of the native state. */
    lemma ReadyExactly(command: Command)
      requires Valid() && tracee.status.Stopped?
      ensures command.Continue? || command.Inst? || command.Step? || command.Delete? ==> Ready(command)
      ensures forall a :: Ready(Break(a)) <==> a in text || a !in tracee.cpu.mem
      ensures var s := Shadow(tracee.cpu, breakpoints.entries);
              var slot: Word := (s.rbp + 8) % TWO64;
              && (Ready(Leave) <==>
                    && 0 !in s.mem
                    && (Mapped(s.mem, slot) ==>
                          && (WordAt(s.mem, slot) in text || WordAt(s.mem, slot) !in s.mem)
                          && forall i | slot <= i < slot + 8 :: i !in text))
              && (Ready(NextLine) <==>
                    (HasLine(s) ==> Ready(Leave) && forall a | a in OtherLinesOf(s) :: a in text))
    {
      StopsOfShadow();
    }

    /** What the commands compute at a stop is what the native state says. */
    lemma StopsOfShadow()
      requires Valid() && tracee.status.Stopped?
      ensures var s := Shadow(tracee.cpu, breakpoints.entries);
              && InfoPc(s) == GetDbgPc()
              && ReturnStop() == CallerOf(s)
              && (HasLine(s) <==> CanStepOver(GetDbgPc()))
              && (HasLine(s) ==> StepStops(GetDbgPc()) == OtherLinesOf(s))
    {
      var s := Shadow(tracee.cpu, breakpoints.entries);
      assert s.mem.Keys == tracee.cpu.mem.Keys;
    }

    method Execute(command: Command, fuel: nat)
      requires Valid() && tracee.status.Stopped?
      requires Ready(command)
      modifies tracee, breakpoints`entries
      ensures Valid() && tracee.retired >= old(tracee.retired) && tracee.faults >= old(tracee.faults)
      ensures tracee.faults == old(tracee.faults) && tracee.status.Stopped? ==>
                breakpoints.Enabled() == old(UserEdit(breakpoints.Enabled(), command, tracee.cpu.mem.Keys))
      ensures tracee.faults == old(tracee.faults) ==>
                Did(old(breakpoints.Enabled()), command, old(Shadow(tracee.cpu, breakpoints.entries)),
                    old(tracee.retired), tracee.retired, tracee.status.Resumed?)
    {
      StopsOfShadow();
      match command {
        case Break(a) => var _ := EnableBreakpoint(a);
        case Delete(a) => var _ := DisableBreakpoint(a);
        case Continue => var _ := ExecContinue(fuel);
        case Inst => var _ := SingleStepInstruction();
        case Leave => var _ := StepOut(fuel);
        case Step => var _ := SingleStepLine();
        case NextLine => var _ := StepOver(fuel);
      }
    }
  }

  /** What a command does to the user's breakpoints, given the addresses mapped at its stop. */
  function UserEdit(E: set<Word>, command: Command, mapped: set<Word>): set<Word> {
    match command
    case Break(a) => if a in mapped then E + {a} else E
    case Delete(a) => E - {a}
    case _ => E
  }

  /** What commands do, each at its stop. */
  function UserSet(E: set<Word>, commands: seq<Command>, stops: seq<Cpu>): set<Word>
    requires |commands| <= |stops|
  {
    if commands == [] then E
    else
      var n := |commands| - 1;
      UserEdit(UserSet(E, commands[..n], stops), commands[n], stops[n].mem.Keys)
  }

  lemma UserSetNone(E: set<Word>, stops: seq<Cpu>)
    ensures UserSet(E, [], stops) == E
  {
  }

  lemma UserSetNext(E: set<Word>, commands: seq<Command>, stops: seq<Cpu>, n: nat)
    requires n < |commands| && n < |stops|
    ensures UserSet(E, commands[..n + 1], stops) ==
            UserEdit(UserSet(E, commands[..n], stops), commands[n], stops[n].mem.Keys)
  {
    assert commands[..n + 1][..n] == commands[..n];
  }

  /** An address is in the user's set exactly when it was set, where it was mapped, and not deleted since. */
  lemma {:induction false} UserSetIsHistory(E: set<Word>, commands: seq<Command>, stops: seq<Cpu>, a: Word)
    requires |commands| <= |stops|
    ensures a in UserSet(E, commands, stops) <==>
            || (a in E && NotDeleted(commands, 0, a))
            || exists i :: SetAt(commands, stops, a, i) && NotDeleted(commands, i + 1, a)
    decreases |commands|
  {
    if commands != [] {
      var n := |commands| - 1;
      var before := commands[..n];
      UserSetIsHistory(E, before, stops, a);
      forall i: nat | i <= n
        ensures NotDeleted(commands, i, a) <==> NotDeleted(before, i, a) && commands[n] != Delete(a)
      {
      }
      forall i: nat | i < n
        ensures SetAt(commands, stops, a, i) <==> SetAt(before, stops, a, i)
      {
      }
      if commands[n] == Break(a) && a in stops[n].mem {
        assert SetAt(commands, stops, a, n) && NotDeleted(commands, n + 1, a);
      }
      if i :| SetAt(before, stops, a, i) && NotDeleted(before, i + 1, a) && commands[n] != Delete(a) {
        assert SetAt(commands, stops, a, i) && NotDeleted(commands, i + 1, a);
      }
      if i :| SetAt(commands, stops, a, i) && NotDeleted(commands, i + 1, a) && i < n {
        assert SetAt(before, stops, a, i) && NotDeleted(before, i + 1, a);
      }
    }
  }

  ghost predicate SetAt(commands: seq<Command>, stops: seq<Cpu>, a: Word, i: int) {
    0 <= i < |commands| && i < |stops| && commands[i] == Break(a) && a in stops[i].mem
  }

  ghost predicate NotDeleted(commands: seq<Command>, i: int, a: Word) {
    forall j | 0 <= i <= j < |commands| :: commands[j] != Delete(a)
  }

  lemma {:induction false} UserSetMore(E: set<Word>, commands: seq<Command>, stops: seq<Cpu>, stop: Cpu)
    requires |commands| <= |stops|
    ensures UserSet(E, commands, stops + [stop]) == UserSet(E, commands, stops)
    decreases |commands|
  {
    if commands != [] {
      UserSetMore(E, commands[..|commands| - 1], stops, stop);
    }
  }

  /**
   * The callback plants at `addr - load_address`, the row's code is at `addr +
   * load_address`: the two agree exactly for load address 0 and its mirror 2^63.
   */
  lemma StepTargetIsRow(addr: Word, loadAddress: Word)
    ensures Sub(addr, loadAddress) == DbgToReal(loadAddress, addr) <==> loadAddress == 0 || 2 * loadAddress == TWO64
  {
    if Sub(addr, loadAddress) == Add(addr, loadAddress) {
      assert (addr + loadAddress - (addr - loadAddress)) % TWO64 == 0;
      assert (2 * loadAddress) % TWO64 == 0;
    }
  }

  /** With a table in order, the targets for the visited rows are where the process has those lines. */
  lemma TargetsAreLineStarts(t: Table, range: PcRange, line: nat, loadAddress: Word)
    requires Ascending(t) && (loadAddress == 0 || 2 * loadAddress == TWO64)
    ensures Targets(VisitedRows(t, range), line, loadAddress) == LineStarts(t, range, line, loadAddress)
  {
    ForEachLineIsFilter(t, range);
    Selected(t, range);
    forall r: LineEntry
      ensures Sub(r.addr, loadAddress) == DbgToReal(loadAddress, r.addr)
    {
      StepTargetIsRow(r.addr, loadAddress);
    }
  }

  const THREE_LINES: Table := [LineEntry(10, 0x100, true, false, false), LineEntry(11, 0x110, true, false, false),
                               LineEntry(12, 0x120, true, false, false)]

  /**
   * Two instructions into line 10 of three lines: line 11 is taken for the current one,
   * so `next` has no target on it and `step` does not stop at its start.
   */
  lemma NextLinePassed()
    ensures Ascending(THREE_LINES) && Covers(THREE_LINES, 0x105, 0)
    ensures EntryOfPc(THREE_LINES, 0x105) == Some(THREE_LINES[1])
    ensures Targets(VisitedRows(THREE_LINES, PcRange(0x100, 0x12f)), THREE_LINES[1].ln, 0) == {0x100, 0x120}
    ensures EntryOfPc(THREE_LINES, 0x110) == Some(THREE_LINES[1].(isExact := true))
  {
    var t := THREE_LINES;
    EntryOfCovered(t, 0x105, 0);
    EntryOfCovered(t, 0x110, 1);
    TargetsAreLineStarts(t, PcRange(0x100, 0x12f), 11, 0);
    ThreeLineStarts();
  }

  lemma ThreeLineStarts()
    ensures LineStarts(THREE_LINES, PcRange(0x100, 0x12f), 11, 0) == {0x100, 0x120}
  {
    var t, starts := THREE_LINES, LineStarts(THREE_LINES, PcRange(0x100, 0x12f), 11, 0);
    assert t[0] in t && t[2] in t;
    assert DbgToReal(0, t[0].addr) in starts && DbgToReal(0, t[2].addr) in starts;
  }

  const TWO_ROWS: Table := [LineEntry(10, 0x100, true, false, false), LineEntry(11, 0x100, true, false, false),
                            LineEntry(12, 0x120, true, false, false)]

  /** Two rows at the start of a function: none of its rows is visited, so `next` has no targets. */
  lemma SecondRowHidesAll(line: nat, loadAddress: Word)
    ensures Shadowed(TWO_ROWS, 0x100, 0)
    ensures Targets(VisitedRows(TWO_ROWS, PcRange(0x100, 0x12f)), line, loadAddress) == {}
  {
    assert Shadowed(TWO_ROWS, 0x100, 0);
    RowOfPcFails(TWO_ROWS, 0x100);
  }

  const NO_INFO: DebugInfo := DebugInfo(_ => None, _ => None, _ => None, _ => None)

  /**
   * A program whose first instruction exits, with a breakpoint on it: the step reports
   * success, and the child is dead.
   */
  method ExitReportedAsSuccess() returns (res: WaitResult, dead: bool, ghost faulted: bool)
    ensures !faulted ==> res.OK? && dead
  {
    var start := Cpu(1, 0, map[],
        map[1 := 0x90, 2 := 0x90, 3 := 0x90, 4 := 0x90, 5 := 0x90, 6 := 0x90, 7 := 0x90, 8 := 0x90]);
    var quit: Program := _ => Exit(0);
    assert Native(quit, start, 0) == Next(start);
    QuitIsCalm(quit, start);
    var dbg := new Debugger(quit, start, NO_INFO, 0, {1});
    var _ := dbg.EnableBreakpoint(1);
    res := dbg.SingleStepInstruction();
    dead := dbg.tracee.status.Dead?;
    faulted := dbg.tracee.faults > 0;
  }

  lemma QuitIsCalm(quit: Program, start: Cpu)
    requires (forall s :: quit(s) == Exit(0)) && start.pc in start.mem && start.mem[start.pc] != INT3
    ensures CalmRun(quit, {start.pc}, start)
  {
    forall n: nat | Native(quit, start, n).Next?
      ensures Calm(quit, {start.pc}, Native(quit, start, n).cpu)
    {
      if n > 0 {
        ExitIsForever(quit, start, 1, n);
      }
    }
  }

  lemma ElementsPrefix(s: seq<Word>, i: nat)
    requires i < |s|
    ensures Elements(s[..i + 1]) == Elements(s[..i]) + {s[i]}
  {
  }

  /** What planting line breakpoints updates: the enabled addresses and the list of those to delete. */
  datatype Planting = Planting(enabled: set<Word>, toDel: seq<Word>)

  /** callback__set_dwarf_line_breakpoint when only accesses outside of the mapped addresses fail. */
  ghost function PlantRow(skipLine: nat, loadAddress: Word, mapped: set<Word>)
    : (LineEntry, Planting) -> (Planting, SprayResult)
  {
    (row: LineEntry, d: Planting) =>
      var a := Sub(row.addr, loadAddress);
      (if row.ln != skipLine && a !in d.enabled
       then Planting(d.enabled + (if a in mapped then {a} else {}), d.toDel + [a]) else d, SP_OK)
  }

  /**
   * Over all rows the callback enables exactly the mapped targets, and lists exactly the
   * targets that were not enabled before.
   */
  lemma {:induction false} PlantsTargets(rows: seq<LineEntry>, skipLine: nat, loadAddress: Word, mapped: set<Word>,
                                         d: Planting)
    ensures var (d', res) := RunCallback(rows, PlantRow(skipLine, loadAddress, mapped), d);
            && res == SP_OK
            && d'.enabled == d.enabled + Targets(rows, skipLine, loadAddress) * mapped
            && Elements(d'.toDel) == Elements(d.toDel) + (Targets(rows, skipLine, loadAddress) - d.enabled)
  {
    hide Targets;
    if rows == [] {
      TargetsNone(skipLine, loadAddress);
    } else {
      var a := Sub(rows[0].addr, loadAddress);
      var d1 := PlantRow(skipLine, loadAddress, mapped)(rows[0], d).0;
      PlantsTargets(rows[1..], skipLine, loadAddress, mapped, d1);
      TargetsFirst(rows, skipLine, loadAddress);
      assert Elements(d.toDel + [a]) == Elements(d.toDel) + {a};
    }
  }

  lemma TargetsNone(skipLine: nat, loadAddress: Word)
    ensures Targets([], skipLine, loadAddress) == {}
  {
  }

  lemma TargetsFirst(rows: seq<LineEntry>, skipLine: nat, loadAddress: Word)
    requires rows != []
    ensures Targets(rows, skipLine, loadAddress) ==
            Targets(rows[1..], skipLine, loadAddress)
            + (if rows[0].ln != skipLine then {Sub(rows[0].addr, loadAddress)} else {})
  {
    assert rows == [rows[0]] + rows[1..];
  }

  lemma TargetsOfRow(t: Table, i: nat, highpc: Word, skipLine: nat, loadAddress: Word)
    requires i < |t| && t[i].addr <= highpc
    ensures Targets(RowsUpTo(t, i, highpc), skipLine, loadAddress) ==
            Targets(RowsUpTo(t, i + 1, highpc), skipLine, loadAddress)
            + (if t[i].newStatement && t[i].ln != skipLine then {Sub(t[i].addr, loadAddress)} else {})
  {
  }

  function Elements(s: seq<Word>): set<Word> {
    set a | a in s
  }
}
