# Spray, verified

Spray is a debugger for C programs on x86-64 Linux. This project models its core in Dafny and proves
what that core promises its users: that a debugged run is the native run, that stepping stops where it
should and leaves no breakpoint of its own behind, that searches through DWARF data find the first entry
they should, and that printing source code prints the source code.

`dafny verify dfyconfig.toml` checks the whole project.

## Layout

| modules | what they model |
|---|---|
| `Words`, `Memory` | 64-bit arithmetic; byte-addressed memory behind 8-byte reads and writes |
| `Machine`, `Ptrace` | the debugged program as an arbitrary step function; the child process behind `ptrace` and `waitpid` |
| `BreakpointTable`, `Transparency`, `Debugging` | the breakpoint overlay, the simulation argument, the stepping commands |
| `LineTable` | scans over line tables |
| `DieSearch`, `Scope`, `Location` | the search through DWARF entries, variable lookup by scope, location lists |
| `CSyntax`, `Tokenizer`, `Lexemes`, `Comments` | the modal C tokenizer, and what it takes for what |
| `TypeNames`, `IncludeGraph`, `SourceFiles` | type names, the traversal of includes, the table of loaded files |
| `Format`, `Printer` | printing and parsing of 64-bit values, printing of source windows |
| `Backtrace` | the frame-pointer walk and its linked list |

## The debugged program

`Machine.Native` runs an arbitrary function from processor states to processor states (or an exit code).
The tracee runs the same function over memory in which bytes are replaced by INT3 (0xCC), and executing
INT3 traps with the program counter behind it. Ghost clock `retired` counts completed instructions. The
invariant `Debugging.Debugger.Valid` says that the native run after `retired` instructions is in exactly
the tracee's state with the original bytes put back, or has exited with the same code. Every command
keeps it, also when memory accesses fail.

Assumptions on the program, gathered in `Machine.Calm` for every state of the native run and for a set
`text` of addresses on which breakpoints may be planted:

- the program executes no INT3 of its own;
- an instruction neither fetches, reads nor writes a byte of `text`, except that it is fetched from its own first byte;
  so breakpoints are on instruction starts, and code does not modify or inspect itself;

`Machine.CalmProgramExists` shows that they can be met, whatever the frame pointer points to: programs and libraries
built without frame pointers are not excluded. Address 0 is not in `text`.

A breakpoint planted outside of `text` would change the program's data or the middle of an instruction. So `break`,
`leave` and `next` have a condition on the state in which they are issued, and on no other
(`Debugging.Debugger.Ready`): what they would plant is in `text`, or is not mapped at all. For `leave` and `next` that
includes `Debugging.Debugger.CanLeave`: page zero is not mapped, and the word above the saved frame pointer, where it
can be read at all, is a return address into `text` or no address of mapped memory (`Machine.CallerExample`). `Debugging.Debugger.Session` follows a
session up to a command for which this fails.

Accesses to memory that is not mapped fail, and any other access may fail at any time. Ghost counter `faults` counts the
failures at mapped addresses while the child is stopped; claims about where a command stops and which breakpoints it
leaves are made for `faults` unchanged. Unmapped addresses are part of those claims: nothing is planted there. So they hold for
every load address, also where `next` computes addresses far outside of the process, and also without a
return address. Waiting for a child that runs freely may take forever: `waitpid` gets a number of instructions (`fuel`)
after which the wait is reported as `BLOCKED`; the claims hold for every value of it. Waiting for a child that is gone
leaves the status word undefined in the source, so the result is arbitrary in the model.

## What the code does differently from what it says

- `callback__set_dwarf_line_breakpoint` subtracts the load address where `dbg_to_real` adds it
  (src/info.c:527, src/magic.c:46-50). `Debugging.StepTargetIsRow`: both agree exactly for load address 0 and for 2^63.
  In a process that is loaded high enough the computed addresses are in the upper half of the addresses
  (`Debugging.Debugger.ShiftedTargets`); with nothing mapped there, `next` stops exactly where `leave` does
  (`Debugging.Debugger.StepOver`, `Machine.FirstStopUnique`).
- `set_step_over_breakpoints` ignores the result of `sd_for_each_line` (src/info.c:584). When the function has no
  range, or the row lookup of its start fails for one of the reasons in `LineTable.RowOfPcFails` (say, a second row at that
  address, `Debugging.SecondRowHidesAll`), `next` plants nothing and acts like `leave` (`Debugging.Debugger.NoTargets`).
- `single_step_instruction` succeeds exactly when the child is stopped again or was on a breakpoint: from a breakpoint it reports
  success even when the child exits in that step (src/debugger.c:277-281, `Debugging.Debugger.SingleStepInstruction`, `Debugging.ExitReportedAsSuccess`).
- `sd_effective_start_addr` takes the first table with a row at or behind the function's start for that of the function
  (src/spray_dwarf.c:3562). It is exactly when every table listed before ends below the function (`LineTable.PicksOwnTable`);
  otherwise the start it returns belongs to other code (`LineTable.WrongTablePicked`).
- `sd_line_entry_from_pc` is documented to return the entry that contains the pc (src/spray_dwarf.h:50). It does so exactly when pc
  is the start of that row; inside a row it returns the next one, behind the last row none (`LineTable.EntryOfCovered`). So `step`
  and `next` take the line of the next row for the current one, which is right exactly when both rows have the same
  line (`LineTable.LineOfCovered`). From inside line 10, line 11 is stepped over (`Debugging.NextLinePassed`).
- The second search of `sd_runtime_variable` is said to find global variables (src/spray_dwarf.c:1869-1871). It finds the first entry of
  that name anywhere, which is the first global one exactly when no deeper entry of that name comes before it
  (`Scope.GlobalVariableFound`; `Scope.LocalFoundOutside` has a local of another function found).
- Scope is tracked with one level counter. Whatever counts as in scope is, but a ranged subprogram nested in another one hides
  the rest of the enclosing scope (`Scope.NestingHidesScope`); the counter computes ancestry exactly when no entry has one
  between itself and its innermost active ancestor (`Scope.TrackingExactly`).
- The tokenizer's branches for floating-point and scientific constants are never reached (`Tokenizer.FloatBranchesUnreached`): an
  integer constant or the operator `.` is matched first (src/tokenize.scm:148-166). No such constant is ever one token
  (`Tokenizer.FloatIsCut`), and `1.5` is three (`Tokenizer.FloatExample`). For the same reason `...` is three operators and
  never the special symbol it is listed as (src/c-syntax.scm:58, `Tokenizer.PointStart`).
- A keyword is one only in front of a blank (src/c-syntax.scm:101), so `if(` begins with an identifier; and every word that
  begins with `sizeof` is cut behind it (`Lexemes.WordToken`).
- `print_source` labels the window from its computed start line. For an active line so far behind the end of the file
  that the window starts there too, the last line is printed under a number that is not its own (`Printer.WindowIsExact`).
- `load-source-file!` does not end for files that include each other (src/print-source.scm:196-223). It ends exactly when
  the chains of includes from the loaded file are bounded; where finitely many files are included, that is exactly when
  none of them includes itself, directly or through others (`SourceFiles.SourceTable.LoadEnds`, `IncludeGraph.CycleUnbounded`).
- A frame base that is relative to the frame base makes the location evaluator recurse forever; it ends
  in all other cases, at depth 1 (`Location.EvaluationEnds`, `Location.CircularExampleNeverEnds`).
- `init_backtrace` ends exactly when the chain of saved frame pointers does not go round in a circle (`Backtrace.WalkEndsExactly`);
  two frames saved as callers of each other are walked forever (`Backtrace.CyclicChain`).
- A location expression without operations gives a location that was never assigned (src/spray_dwarf.c:2943-2969); the model calls it `Unset`,
  and no other expression gives it (`Location.UnsetExactly`).
- Hexadecimal numbers from 2^63 on are printed but parse back as 2^63 - 1 (`Format.HexRoundTrip`).

## Model

| member | source | states |
|---|---|---|
| Memory.LowByteWrite | src/breakpoints.c:113-131 | writing back an 8-byte word with its low byte replaced changes exactly that one byte of memory, whatever breakpoints the other seven hold |
| Memory.StoreLoad | src/ptrace.c:16-47 | writing back what was read changes nothing |
| Memory.LoadStore | src/ptrace.c:16-47 | reading back what was written gives the written word, and no other byte has changed |
| BreakpointTable.Breakpoints.Enable | src/breakpoints.c:89-146 | keeps INT3 at exactly the enabled addresses and the pristine memory as it was; on success the byte is 0xcc and the address is added to the enabled set, on error nothing changes and the address is not enabled; it fails iff the address is not mapped or a mapped access fails |
| BreakpointTable.Breakpoints.Disable | src/breakpoints.c:148-188 | keeps the overlay and the pristine memory; on success the address is removed, on error the breakpoint stays and no byte changes; no effect on an address without breakpoint |
| BreakpointTable.PlantUnplant | src/breakpoints.h:17-31 | memory is the pristine memory with INT3 at exactly the enabled addresses; with none enabled it is the pristine memory itself |
| BreakpointTable.UnplantPlant | src/breakpoints.c:139-142 | when the saved bytes are the original ones, taking the breakpoints out gives the original memory |
| BreakpointTable.SetMemoryUnderBreakpoints | src/debugger.c:612-637 | a `set` to memory keeps the overlay iff it writes INT3 on every enabled byte under its word, and reaches the program's own memory iff it repeats the saved byte there |
| Words.AddressesShift | src/magic.c:40-50 | the process address of a place is the load address above that in the debug data, and the two conversions undo each other |
| Ptrace.Tracee.WaitPid | src/debugger.c:207-209 | running instruction by instruction over planted memory ends as the run function says, with trap kind, exit code and clock |
| Machine.SingleStepOver | src/debugger.c:130-151 | one instruction away from the breakpoints, over planted memory, is the native instruction |
| Machine.RunFreeOver | src/debugger.c:154-172 | a free run over planted memory traps at the first native state whose pc is planted, one byte behind it, or exits exactly as the native run does before |
| Machine.FirstStopUnique | src/debugger.c:154-270 | the first later native state at a set of addresses, or the exit before it, is one state |
| Transparency.StepSettles | src/debugger.c:174-186 | after a single step and the rewind the tracee is the native run again: one instruction on, or, only if it stood on INT3, where it was |
| Transparency.FreeRunSettles | src/debugger.c:174-270 | after a free run and the rewind the tracee is in the first native state from the current one on whose pc is enabled; it exits iff the native run does before |
| Transparency.TextStaysMapped | src/debugger.c:140-145 | an address of the text that was mapped once stays mapped, so a breakpoint that was taken out can be put back |
| Debugging.Debugger.HandleSigtrap | src/debugger.c:174-186 | the pc goes back by one for INT3 traps and never for trace traps |
| Debugging.Debugger.WaitForSignal | src/debugger.c:188-270 | keeps the native run; no enabled address is passed over, a stop is at an enabled address, an error means the child exited as natively |
| Debugging.Debugger.SingleStepBreakpoint | src/debugger.c:130-152 | executes exactly the one native instruction under the breakpoint and restores the enabled set; without a breakpoint nothing happens |
| Debugging.Debugger.ContinueExecution | src/debugger.c:154-172 | leaves the child running, one native instruction on iff it stood on a breakpoint; fails iff the child is dead |
| Debugging.Debugger.ContinueAndWait | src/debugger.c:154-270 | the child stops in the first native state strictly after the current one whose pc is enabled, wherever it started, or exits before |
| Debugging.Debugger.ExecContinue | src/debugger.c:820-831 | the same for the `continue` command, whose result tells a stop from an exit |
| Debugging.Debugger.SingleStepInstruction | src/debugger.c:272-287 | exactly one native instruction is executed, with or without a breakpoint under it, and the enabled set stays; the result is success iff the child is stopped again or was on a breakpoint |
| Debugging.Debugger.GetDbgPc | src/debugger.c:58-66 | the process is at the load address above the result |
| Debugging.Debugger.ReturnAddressInText | src/debugger.c:304-311 | in a state that can be left, the return address is read past planted bytes as the native program would read it |
| Debugging.Debugger.SetReturnAddressBreakpoint | src/debugger.c:294-320 | the return address is enabled where there is one in mapped memory, and nothing where there is none; it is reported for removal iff the user had not enabled it |
| Debugging.Debugger.StepOut | src/debugger.c:322-342 | stops in the first later native state at a mapped return address or a user breakpoint; the enabled set is the user's again, so a breakpoint at the stop is one the user set |
| Debugging.Debugger.SingleStepLine | src/debugger.c:344-381 | in all cases goes to the first later native state whose process address is that of a first row of another line than the one looked up at the start, or that has no position, or is the 128th, or to the exit; success means the row, after at most 127 instructions; from inside a row never one on the line of the next row |
| Debugging.Debugger.SetLineBreakpoint | src/info.c:519-545 | a row of another line that is not enabled yet is enabled where its computed address is mapped, and listed in any case; nothing is done for other rows |
| Debugging.Debugger.PlantLineBreakpoints | src/info.c:584-585 | over a line table the callback acts on the rows that the iteration visits, in their order, for every load address |
| Debugging.Debugger.SetStepOverBreakpoints | src/info.c:547-593 | enables the mapped ones among the computed addresses of the function's statement rows of another line, and lists exactly the computed addresses that the user had not enabled |
| Debugging.Debugger.StepOver | src/debugger.c:383-435 | for every load address, stops in the first later native state at a user breakpoint, a mapped target or a mapped return address, and leaves the enabled set as the user's; with no target mapped, where `leave` would; the line left out is that of the first row at the process pc, and inside a row that of the next; unshifted, the targets are the statement rows of the function of other lines |
| Debugging.Debugger.RunToReturn | src/debugger.c:413-434 | with a mapped return address enabled the child runs to the first stop, and exactly the listed breakpoints and the return address's own one disappear |
| Debugging.Debugger.Session | src/debugger.c:805-869 | over any sequence of commands the stops are native states in native order; while no access at a mapped address fails, every command goes to the native state it is for, given the addresses the user has set: `continue` to the first later one there, `inst` to the next, `leave` and `next` also to the word at rbp + 8 and to the other lines' addresses, `step` to a row of another line; `break` and `delete` stay; also where the last one ends in an exit |
| Debugging.Debugger.Execute | src/debugger.c:805-869 | each command does what Session says of it, and changes the enabled set as the user asks |
| Debugging.UserSetIsHistory | src/debugger.c:805-818 | an address is in the user's set iff it was set where it was mapped, or from the start, and not deleted since |
| Debugging.Debugger.NonePassed | src/debugger.c:820-869 | no command but `step` runs past an address the user has set |
| Debugging.Debugger.ReadyExactly | src/debugger.c:294-311 | `continue`, `inst`, `step` and `delete` need nothing; what the others need is a fact of the native state |
| Debugging.PlantsTargets | src/info.c:519-545 | over any rows, with duplicates, what is enabled is the mapped targets and what is listed is the targets not enabled before |
| Debugging.StepTargetIsRow | src/info.c:527 | the address planted for a row is the row's address in the process iff the load address is 0 or 2^63 |
| Debugging.TargetsAreLineStarts | src/info.c:519-545 | for load address 0 or 2^63, on increasing addresses, the targets are the process addresses of exactly the statement rows in the inclusive range that are of another line |
| Debugging.Debugger.StepTargetsAreLines | src/info.c:547-593 | the same for the function around pc; from inside a row the line left out is that of the next row |
| Debugging.NextLinePassed | src/spray_dwarf.c:3310-3366 | three lines and a pc inside the first: the second counts as the current one, `next` has no target on it and `step` does not stop at its start |
| Debugging.Debugger.NoTargets | src/info.c:584-585 | with no range, or with a failing lookup of the function's start, nothing is planted |
| Debugging.SecondRowHidesAll | src/spray_dwarf.c:3262-3286 | with two rows at a function's start none of its rows is a target |
| Debugging.Debugger.ShiftedTargets | src/info.c:527 | in a process loaded above the function's rows all targets are in the upper half of the addresses, and with nothing mapped there nothing is planted |
| Debugging.ExitReportedAsSuccess | src/debugger.c:277-281 | a program that exits in the step from a breakpoint: the result is success and the child is dead |
| LineTable.IndexOfPc | src/spray_dwarf.c:3262-3286 | finds the first row at or after pc, unless the row behind it is not above pc |
| LineTable.RowOfPcFails | src/spray_dwarf.c:3262-3286 | on any table the lookup fails iff all rows are below pc, or the first row at or after pc is followed by one that is not above pc |
| LineTable.RowOfPcAscending | src/spray_dwarf.c:3262-3286 | on increasing addresses the lookup fails iff all rows are below pc, and else splits the table at pc |
| LineTable.LineEntryFromPc | src/spray_dwarf.c:3310-3366 | the first row exactly at pc, marked exact, and otherwise the row of the index lookup; it is the row that covers pc iff that row starts at pc |
| LineTable.ExactIsRow | src/spray_dwarf.c:3310-3366 | the entry is marked exact iff a row begins at pc, and then is the first such row |
| LineTable.EntryOfCovered | src/spray_dwarf.h:50-52 | on increasing addresses the looked-up entry is the covering row iff some row is exactly at pc; else it is the next row, or none behind the last |
| LineTable.LineOfCovered | src/spray_dwarf.h:50-52 | its line is that of the covering row iff that row starts at pc or the next row has the same line |
| LineTable.CoveringRow | src/spray_dwarf.h:50-52 | behind the first row exactly one row covers an address |
| LineTable.ForEachLine | src/spray_dwarf.c:3480-3532 | folds any stateful callback over the visited rows up to its first error, and fails iff it does or there is no first row |
| LineTable.RunCallbackAppend | src/spray_dwarf.c:3511-3528 | the callback goes on behind rows without an error, and never behind an error |
| LineTable.ForEachLineIsFilter | src/spray_dwarf.c:3480-3532 | on increasing addresses the visited rows are the statement rows of the whole table inside the inclusive range |
| LineTable.EffectiveStartAddr | src/spray_dwarf.c:3534-3601 | the first prologue_end row up to the function's end, or else the row behind the first, of the first table whose lookup succeeds |
| LineTable.PicksOwnTable | src/spray_dwarf.c:3534-3601 | the picked table is the function's own iff every table listed before it ends below the function |
| LineTable.WrongTablePicked | src/spray_dwarf.c:3557-3598 | a table listed before that reaches past the function: a row of other code is returned as the start |
| DieSearch.SearchDie | src/spray_dwarf.c:115-211 | recursion on first children and iteration over siblings is the stopped fold over the preorder walk, with levels and navigation errors, for any stateful callback |
| DieSearch.ScanCallsPrefix | src/spray_dwarf.c:115-211 | the callback is called once for each entry of a prefix of the walk, in order; the search is OK iff the prefix ends with the first hit, an error iff navigation breaks before one |
| DieSearch.DwarfDebug.NextHeader | src/spray_dwarf.c:229-253 | the cursor moves by one unit, and back to the first one behind the last |
| DieSearch.DwarfDebug.SearchDbg | src/spray_dwarf.c:213-321 | searches the units ahead in order, and has both cursors rewound on every result but an error, so the next search sees all units |
| DieSearch.SearchUnitsIsScan | src/spray_dwarf.c:213-321 | with readable units the search is one stopped fold over the entries of all units |
| DieSearch.SearchUnitsBroken | src/spray_dwarf.c:213-321 | a unit that cannot be read is an error unless there was a hit before; behind a hit only a broken header is |
| Scope.InScopeExactly | src/spray_dwarf.c:1619-1683 | for any tree: the flag is set iff the last ranged subprogram with no entry at or above its level behind it holds pc |
| Scope.TrackingIsAncestry | src/spray_dwarf.c:1606-1683 | without ranged subprograms nested in an active one, an entry counts as in scope iff an entry of a lower level, with none at that level or above in between, is a subprogram from low to high with low <= pc <= high |
| Scope.TrackingExactly | src/spray_dwarf.c:1606-1683 | for any tree the flag is set iff an active ancestor exists and no ranged subprogram was met since the innermost one; so it implies ancestry, and is ancestry iff no other entry has one in between |
| Scope.ScopedIsAncestry | src/spray_dwarf.c:1619-1683 | ancestry in the tree is ancestry by levels in the walk, with the bounds of the range written out |
| Scope.PreorderSound | src/spray_dwarf.c:115-211 | the walk of a tree is its root, the walk of its children one level deeper, and the walk of its siblings |
| Scope.MatchesExactly | src/spray_dwarf.c:1661-1683 | what matches is a variable or formal parameter of the name, with a location that can be used |
| Scope.NestingHidesScope | src/spray_dwarf.c:1619-1683 | a nested ranged subprogram in front of a variable takes it out of the enclosing scope |
| Scope.RuntimeVariable | src/spray_dwarf.c:1828-1902 | both searches in sequence give what the two folds give, starting from the handle's cursors |
| Scope.RuntimeVariableFound | src/spray_dwarf.c:1828-1902 | the first variable or parameter of the name with a usable location that is below a subprogram with low <= pc <= high, if any; otherwise the first one anywhere; otherwise none |
| Scope.RuntimeVariableShown | src/spray_dwarf.c:1828-1902 | for any tree, nested or not: the first match that counts as in scope, and otherwise the first match anywhere |
| Scope.GlobalVariableFound | src/spray_dwarf.c:1866-1895 | without a match in scope the entry found is the first global one of the name iff no deeper entry of the name comes before it |
| Scope.LocalFoundOutside | src/spray_dwarf.c:1866-1895 | a local variable of another function is found in place of a global one |
| Location.EvalStack.Push | src/spray_dwarf.c:2772-2787 | appends a location and keeps room for one more, also when the buffer grows |
| Location.EvalStack.Pop | src/spray_dwarf.c:2752-2770 | takes the last location off, and reports an empty stack |
| Location.Choose | src/spray_dwarf.c:2971-3004 | the first entry with lowpc <= pc < highpc, or else the first without bounds; none iff all are bounded and do not hold pc |
| Location.ChosenUnique | src/spray_dwarf.c:2971-3004 | that choice is unique |
| Location.EvaluateLocop | src/spray_dwarf.c:2799-2940 | an operation pushes one location and leaves what is below: opcode 0x91 the register value of the frame base plus its operand mod 2^64, 0x03 its operand plus the load address mod 2^64, 0x50 to 0x6f the register; it fails iff that is not to be had |
| Location.SignedAdd | src/spray_dwarf.c:2799-2863 | adding as signed and casting back is addition mod 2^64 |
| Location.EvaluateLocexpr | src/spray_dwarf.c:2943-2969 | the stack machine computes the denotation of the expression: what its last operation denotes, and nothing iff one of them fails |
| Location.EvaluateLoclist | src/spray_dwarf.c:2971-3004 | the two loops compute the denotation of the chosen entry, and address 0 without one |
| Location.ExprDenotesLast | src/spray_dwarf.c:2943-2969 | an expression fails iff one of its operations does, and else denotes its last operation's location |
| Location.OpDenotes | src/spray_dwarf.c:2799-2902 | the operations denote what is written out for their opcodes, and fail otherwise |
| Location.ListDenotes | src/spray_dwarf.c:2971-3004 | a list denotes what the last operation of its chosen entry does, and nothing iff one of the entry's operations fails |
| Location.DenotesOnce | src/spray_dwarf.c:2799-2902 | no operation denotes two locations, or denotes one and fails |
| Location.EvaluationEnds | src/spray_dwarf.c:2799-2863 | evaluation ends iff it does not reach a frame base that is relative to itself, and then within one level of recursion |
| Location.CircularExampleNeverEnds | src/spray_dwarf.c:2799-2863 | a frame base given by fbreg is not evaluated at any depth |
| Location.UnsetExactly | src/spray_dwarf.c:2943-2969 | a location that was never assigned comes from an expression without operations and from no other |
| Location.DepthIrrelevant | src/spray_dwarf.c:2799-2863 | the result does not depend on the depth allowed |
| Tokenizer.ScanCutsPrefix | src/tokenize.scm:193-254 | the tokens of one scan are a prefix of the code; the first is non-empty except on a newline inside a line comment |
| Tokenizer.FloatBranchesUnreached | src/tokenize.scm:148-166 | where scan-constant has found no integer, and no operator was found before, no scientific or floating-point constant matches |
| Tokenizer.FloatIsCut | src/tokenize.scm:193-217 | no code that begins with such a constant has it as its first token: a strictly shorter token is cut off |
| Tokenizer.FloatExample | src/tokenize.scm:148-166 | 1.5 is the tokens 1, . and 5 |
| Tokenizer.PointStart | src/tokenize.scm:193-217 | code that begins with a point has it as an operator |
| Tokenizer.CommentsAtNewLine | src/tokenize.scm:222-226 | a line comment does not reach into the next line, a block comment does |
| Lexemes.WordToken | src/tokenize.scm:193-217 | a word is a keyword iff it is listed and a blank follows; else it is cut behind `sizeof`, or is a built-in type or an identifier |
| Lexemes.BuiltinTypes | src/c-syntax.scm:56-57 | the nine built-in types |
| Lexemes.OperatorToken | src/tokenize.scm:193-217 | where no comment begins, the longest operator that the code begins with is one token |
| Lexemes.LongestOperator | src/c-syntax.scm:52-55 | the first listed operator that the code begins with is the longest |
| Lexemes.SymbolToken | src/tokenize.scm:193-217 | brackets, commas and semicolons are special symbols |
| Lexemes.NumberToken | src/tokenize.scm:148-166 | a decimal number with its suffix is one constant |
| Lexemes.BlankToken | src/tokenize.scm:193-217 | a run of blanks is one token |
| Lexemes.StringToken | src/tokenize.scm:193-217 | quoted text is one literal |
| Lexemes.IncludeTokens | src/tokenize.scm:168-187 | an include is its directive, the blanks and the whole path in its delimiters |
| Tokenizer.Scanner.ScanCode | src/tokenize.scm:219-254 | a scan and its mode change, with the implicit end of a line comment at a new line |
| Tokenizer.Scanner.NextToken | src/tokenize.scm:257-270 | queued tokens come first and in order; an empty queue is refilled by one scan |
| Tokenizer.Scanner.TokenizeCode | src/tokenize.scm:278-287 | draining the queue token by token ends, gives the tokens of the line and leaves the queue empty |
| Tokenizer.Scanner.TokenizeLines | src/tokenize.scm:356-360 | over all lines, with the mode handed on from line to line |
| Tokenizer.LexLineLossless | src/tokenize.scm:278-287 | the token texts of a line add up to the line, from every mode |
| Tokenizer.LexLinesLossless | src/tokenize.scm:356-360 | the same for every line of a file |
| Comments.BlockCommentLine | src/tokenize.scm:243-252 | in a block comment everything up to the first uncomment is comment text, and normal scanning goes on behind it |
| Comments.BlockCommentLines | src/tokenize.scm:243-252 | the comment goes on over any number of lines without an uncomment |
| Comments.LineCommentLine | src/tokenize.scm:253-254 | a line comment is comment text up to the end of its line |
| Comments.CommentOpens | src/tokenize.scm:229-240 | `/*` in normal code is a comment token, and the rest of the line is scanned inside the comment; the same for `//` |
| Comments.LexLinesReplays | src/tokenize.scm:193-254 | over all lines, in normal code a comment is opened wherever a token begins at `/*` or `//` and nowhere else, and `*/` is a trailing uncomment; in a block comment there is comment text up to the next `*/`, which closes it; a line comment is the rest of its line |
| Comments.WrapExactly | src/tokenize.scm:293-355 | everything before the first trailing uncomment of the file becomes one comment text a line, and nothing changes from there on |
| Comments.WrapLossless | src/tokenize.scm:293-355 | wrapping keeps the text of every line |
| Comments.TokenizeCodeLines | src/tokenize.scm:31-360 | the tokenizer object computes the reference tokens |
| Comments.TokenizeLossless | src/tokenize.scm:31-360 | for every list of lines the token texts of each output line add up to the input line |
| TypeNames.TypesEnv.StoreTypeSpec | src/c-syntax.scm:174-188 | adds the identifier behind whitespace and type specifiers in front, or nothing |
| TypeNames.TypesEnv.Extend | src/c-syntax.scm:196-222 | going through the sublists that begin with a keyword, last one first, adds the names of the tokens in source order |
| TypeNames.NamesExact | src/c-syntax.scm:164-222 | a name is found iff a keyword token struct, union or enum leads over whitespace and such keywords to that identifier |
| TypeNames.SpecifierLine | src/c-syntax.scm:164-222 | a line that begins with struct, union or enum, blanks and a name gives the name |
| TypeNames.FlattenAppend | src/c-syntax.scm:196-208 | the tokens of several lines are those of each line, one line behind the other |
| IncludeGraph.LoadsWithinExactly | src/print-source.scm:196-223 | includes nest at most n deep below a file iff every chain of includes from it has at most n files |
| IncludeGraph.LoadingEnds | src/print-source.scm:196-223 | loading into a table of loadable files ends iff chains of includes from the file are bounded |
| IncludeGraph.LoadsReachable | src/print-source.scm:196-223 | loading adds exactly the files reachable by includes |
| IncludeGraph.BoundedExactly | src/print-source.scm:196-223 | where a file includes only files of a finite set, its chains are bounded iff none of them includes itself directly or through others, and then by the size of the set |
| IncludeGraph.CycleUnbounded | src/print-source.scm:196-223 | a file on a cycle of includes, and every file that includes it, has no bound, so loading it does not end |
| IncludeGraph.EachOther | src/print-source.scm:196-223 | files that include each other, directly or through others, are on a cycle |
| IncludeGraph.UnfoldsUnique | src/print-source.scm:67-78 | a file has at most one dependency tree, so what is computed from it depends on the file only |
| IncludeGraph.FlatDepsExact | src/print-source.scm:140-154 | the flat list of a file's dependency tree has every file reachable by includes exactly once, and no other |
| SourceFiles.Flattened.Rec | src/print-source.scm:140-154 | the recursive walk over the hash table computes the flat list |
| SourceFiles.BracketsLocate | src/print-source.scm:91-107 | a path in brackets is that in /usr/include if it exists there, else in /usr/local/include, else nowhere |
| SourceFiles.QuotesLocate | src/print-source.scm:86-107 | a path in quotes is relative to the directory of the file |
| SourceFiles.IncludesExactly | src/print-source.scm:80-123 | a file includes exactly what the file paths among its tokens locate |
| SourceFiles.SourceTable.constructor | src/print-source.scm:16-17 | the empty table is faithful |
| SourceFiles.SourceTable.Load | src/print-source.scm:196-223 | wherever loading ends: every table entry stays what its file says, with the entries of its includes beside it; the table gets exactly the files that the loading recursion enters; the result is the entry of the file |
| SourceFiles.SourceTable.LoadEnds | src/print-source.scm:196-223 | from any table so made, loading ends iff chains of includes from the file are bounded, with finitely many files iff no reachable file is on a cycle, and then adds exactly the reachable files |
| SourceFiles.SourceTable.TypesEnvOf | src/print-source.scm:171-193 | the environment, cached or new, is the one made from scratch from the file's dependencies, and the table stays faithful |
| SourceFiles.SourceTable.ReachableLoaded | src/print-source.scm:156-161 | every file in the flat list of a loaded file is loaded |
| SourceFiles.TypesEnvExact | src/print-source.scm:171-193 | a name is in the environment of a loaded file iff some file reachable by includes introduces it |
| Printer.WindowIsExact | src/print-source.scm:238-276 | the window starts at the line it is labelled with iff the file is that long, and is the lines from there to its lower end |
| Printer.WindowHoldsLine | src/print-source.scm:257-276 | a line of the file is in its window under its own number, with all lines at most `context` away |
| Printer.WindowByNumbers | src/print-source.scm:257-276 | the window is the lines from max(1, lineno - context) to lineno + context, or to 2 * context where there are too few before |
| Printer.PrintsVerbatim | src/print-source.scm:280-295 | without colour the output is the window's original lines, numbered, with the arrow on the active line only |
| Printer.PrintsTokens | src/tokenize.scm:364-454 | with or without colour, line k of the output is the label of its number, the marker and the formatted tokens of that line of the file |
| Printer.PrintedLines | src/tokenize.scm:434-454 | without colour each line of the output is its label, its marker and its text |
| Printer.LabelReads | src/tokenize.scm:434-445 | the label of a line reads as the line's number |
| Printer.ArrowExactly | src/tokenize.scm:436-442 | the arrow is in front of the active line and of no other |
| Printer.PrintingRoundTrip | src/tokenize.scm:434-454 | taking labels and markers off the printed lines gives the lines back |
| Printer.ColorsOnlyAddEscapes | src/tokenize.scm:364-420 | for lines without escapes of their own, removing escapes from the coloured output gives the plain output |
| Printer.ColorsPutIn | src/tokenize.scm:364-420 | for all lines, also with escapes of their own, the coloured output is the plain output with escapes for the seven codes put in |
| Printer.ColorTable | src/tokenize.scm:368-402 | each kind of token has its colour, and ends it |
| Printer.TypesLookAlike | src/tokenize.scm:391-395 | an identifier looks like a built-in type iff it is in the environment |
| Format.DecimalRoundTrip | src/magic.c:152-156 | every 64-bit value printed in decimal parses back to itself |
| Format.HexRoundTrip | src/debugger.c:940-960 | a value printed in hexadecimal parses back iff it is below 2^63; from there on the parse gives 2^63 - 1 |
| Format.AddrRoundTrip | src/magic.c:165-167 | the same for the form with leading zeros |
| Format.ParsedExactly | src/debugger.c:940-954 | a text is parsed iff it is blanks, a sign, for base 16 a prefix, and digits of the base up to its end |
| Format.BlanksAndCase | src/debugger.c:940-954 | blanks in front change nothing, and upper-case digits are worth what lower-case ones are |
| Format.NumeralForm | src/magic.c:140-141 | printed digits are lower-case, without leading zeros |
| Format.HexForm | src/magic.c:157-159 | hexadecimal numbers have a prefix |
| Format.AddressWidth | src/magic.c:165-167 | an address has its prefix and 16 digits |
| Format.BitsAndBytesLength | src/magic.c:101-138 | bits and bytes are in eight groups |
| Format.BitsAndBytesDenote | src/magic.c:101-138 | the bits and the bytes form, read as digits with blanks, denote the value in base 2 and base 16 |
| Format.GroupsDenote | src/magic.c:111-138 | the nested grouping macros put the bytes in order, whatever form a byte has |
| Backtrace.WalkFollowsChain | src/backtrace.c:107-161 | each frame's pc is the return address above the frame before, and exactly the last frame pointer is 0 |
| Backtrace.WalkResult | src/backtrace.c:107-161 | the walk fails iff the chain comes to a frame that cannot be read before it comes to 0, and else has one frame more than the chain has links |
| Backtrace.WalkEnds | src/backtrace.c:107-161 | following enough links suffices iff the chain of saved frame pointers comes to 0 or to a frame that cannot be read |
| Backtrace.WalkEndsExactly | src/backtrace.c:107-161 | the walk ends iff the chain does not come back to a frame pointer; among 2^64 words every endless chain does |
| Backtrace.CyclicChain | src/backtrace.c:107-161 | two frames, each saved as the caller of the other, are walked forever |
| Backtrace.Allocator.InitBacktrace | src/backtrace.c:107-161 | an acyclic list of the walk's frames, outermost first, made of exactly the newly allocated nodes; after a failed read null and nothing left allocated |
| Backtrace.Allocator.FreeBacktrace | src/backtrace.c:163-173 | frees every node of the list, each one once |

## Left out

- Debugging.Debugger.StepOut: makes no claim about frames, because under recursion the return address can be reached first in an inner frame; and it needs `CanLeave` in its own state, as `StepOver` does, because the effect of a breakpoint planted into data is not modelled.
- Debugging.Debugger.StepOver: its targets are the addresses the code computes, which are those of the rows in the process only where `StepTargetIsRow` says so.
- Printer.ColorsOnlyAddEscapes: excludes lines with escape characters, whose ends a terminal could not tell from those of colours; `ColorsPutIn` holds for them too.
- Debugging.Debugger.PlantLineBreakpoints: repeats the loop of `sd_for_each_line` for its one callback with side effects, since a method cannot be passed as a value; `ForEachLine` is the loop for all pure callbacks.
- Scope.RuntimeVariableFound: shadowing by inner blocks is not claimed, because the code does not implement it.
- SourceFiles.SourceTable.Load: is specified where loading ends; which files these are is `LoadEnds`.
- Comments.TokenizeLossless: lines contain no newline, as `file->list` splits there; on a newline inside a line comment the scanner would loop (`ScanCutsPrefix`).
- Backtrace.Allocator.InitBacktrace: a frame holds its pc and frame pointer only, symbol names and line numbers come from lookups that are not part of this model; it is specified where the walk ends, which is `WalkEndsExactly`.
- `ptrace`, `waitpid` and `fork` themselves, `setup_debugger`, signals other than SIGTRAP and exit (SIGWINCH restarts the wait), and writes to registers.
- libdwarf: handles, error objects and deallocation; entries are immutable trees and line tables are sequences.
- ELF headers and symbols: the symbol, file and range lookups are functions given to the debugger.
- Command parsing, history, messages and the order of what is printed around a stop.
- The regular-expression engine: each expression is a function for its longest or first match; the order in which `map` visits lines is taken to be from first to last.
- The hash table's order of entries: the flat list is in the order of insertion.
- Reading files, with the rule for a trailing empty line; path operations and file existence are functions of the world.
- An empty file: the window of no lines is an error of the `traversal` library, which is not part of this model.
- Whitespace beyond ASCII in the test for visible content.
- The frame base of value `Unset`, which the source would use uninitialised.
- Growth of the list of breakpoints to delete; it is a sequence here.
- Type-name, register and opcode tables, floating-point output and relative paths: finite, or facts of the C library.
