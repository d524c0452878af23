/** The scans over DWARF line tables (section 6.2.2 of DWARF 5). */
module LineTable {
  import opened Words

  datatype LineEntry = LineEntry(ln: nat, addr: Word, newStatement: bool, prologueEnd: bool, isExact: bool)

  /** Rows as they come from the table: the flag is set by lookups only. */
  type Table = t: seq<LineEntry> | forall i | 0 <= i < |t| :: !t[i].isExact

  datatype PcRange = PcRange(lowpc: Word, highpc: Word)

  ghost predicate Ascending(t: Table) {
    forall i, j | 0 <= i < j < |t| :: t[i].addr < t[j].addr
  }

  // ----- row lookup by address

  /** The first row from index `i` on that is at or after pc. */
  function FirstAtOrAfter(t: Table, pc: Word, i: nat): (r: nat)
    requires i <= |t|
    ensures i <= r <= |t|
    ensures forall k | i <= k < r :: t[k].addr < pc
    ensures r < |t| ==> t[r].addr >= pc
    decreases |t| - i
  {
    if i < |t| && t[i].addr < pc then FirstAtOrAfter(t, pc, i + 1) else i
  }

  function RowOfPc(t: Table, pc: Word): Option<nat> {
    var i := FirstAtOrAfter(t, pc, 0);
    if i < |t| && (i + 1 >= |t| || pc < t[i + 1].addr) then Some(i) else None
  }

  /** get_line_table_index_of_pc */
  method IndexOfPc(t: Table, pc: Word) returns (r: Option<nat>)
    ensures r == RowOfPc(t, pc)
  {
    var i := 0;
    while i < |t| && t[i].addr < pc
      invariant i <= |t|
      invariant FirstAtOrAfter(t, pc, 0) == FirstAtOrAfter(t, pc, i)
    {
      i := i + 1;
    }
    if i < |t| && t[i].addr >= pc && (i + 1 >= |t| || pc < t[i + 1].addr) {
      r := Some(i);
    } else {
      r := None;
    }
  }

  /** Row i is the first at or after pc, but the row behind it is not above pc. */
  ghost predicate Shadowed(t: Table, pc: Word, i: nat) {
    i + 1 < |t| && t[i + 1].addr <= pc <= t[i].addr && forall k | 0 <= k < i :: t[k].addr < pc
  }

  /** The exact reasons for which the lookup fails, for any table. */
  lemma RowOfPcFails(t: Table, pc: Word)
    ensures RowOfPc(t, pc).None? <==> (forall i | 0 <= i < |t| :: t[i].addr < pc) || (exists i :: Shadowed(t, pc, i))
  {
    var i := FirstAtOrAfter(t, pc, 0);
    if i < |t| && RowOfPc(t, pc).None? {
      assert Shadowed(t, pc, i);
    }
  }

  /** In a table with strictly increasing addresses only the first reason is left. */
  lemma RowOfPcAscending(t: Table, pc: Word)
    requires Ascending(t)
    ensures RowOfPc(t, pc).None? <==> forall i | 0 <= i < |t| :: t[i].addr < pc
    ensures RowOfPc(t, pc).Some? ==>
              var i := RowOfPc(t, pc).value;
              i < |t| && t[i].addr >= pc && forall k | 0 <= k < |t| :: t[k].addr >= pc <==> i <= k
  {
  }

  /** The first row exactly at pc, from index i on. */
  function FirstExact(t: Table, pc: Word, i: nat): (r: nat)
    requires i <= |t|
    ensures i <= r <= |t|
    ensures forall k | i <= k < r :: t[k].addr != pc
    ensures r < |t| ==> t[r].addr == pc
    decreases |t| - i
  {
    if i < |t| && t[i].addr != pc then FirstExact(t, pc, i + 1) else i
  }

  function EntryOfPc(t: Table, pc: Word): Option<LineEntry> {
    var e := FirstExact(t, pc, 0);
    if e < |t| then Some(t[e].(isExact := true))
    else match RowOfPc(t, pc)
         case Some(i) => Some(t[i])
         case None => None
  }

  /** sd_line_entry_from_pc, for the table of the file that holds pc. */
  method LineEntryFromPc(t: Table, pc: Word) returns (r: Option<LineEntry>)
    ensures r == EntryOfPc(t, pc)
    ensures Ascending(t) ==> forall i: nat | Covers(t, pc, i) :: IsRow(r, t[i]) <==> t[i].addr == pc
  {
    if Ascending(t) {
      forall i: nat | Covers(t, pc, i)
        ensures IsRow(EntryOfPc(t, pc), t[i]) <==> t[i].addr == pc
      {
        EntryOfCovered(t, pc, i);
      }
    }
    var i := 0;
    while i < |t|
      invariant i <= |t|
      invariant FirstExact(t, pc, 0) == FirstExact(t, pc, i)
    {
      if t[i].addr == pc {
        return Some(t[i].(isExact := true));
      }
      i := i + 1;
    }
    var idx := IndexOfPc(t, pc);
    if idx.None? {
      return None;
    }
    var ret := t[idx.value];
    if ret.addr == pc {
      ret := ret.(isExact := true);
    }
    return Some(ret);
  }

  /** The entry is the first row at pc, marked exact. */
  ghost predicate IsFirstRowAt(t: Table, pc: Word, e: LineEntry) {
    exists i: nat :: FirstRowAt(t, pc, i) && e == t[i].(isExact := true)
  }

  ghost predicate FirstRowAt(t: Table, pc: Word, i: nat) {
    i < |t| && t[i].addr == pc && forall k | 0 <= k < i :: t[k].addr != pc
  }

  /** An entry is marked exact exactly when some row begins at pc, and is the first such row. */
  lemma ExactIsRow(t: Table, pc: Word)
    ensures EntryOfPc(t, pc).Some? && EntryOfPc(t, pc).value.isExact <==> exists k :: 0 <= k < |t| && t[k].addr == pc
    ensures EntryOfPc(t, pc).Some? && EntryOfPc(t, pc).value.isExact ==> IsFirstRowAt(t, pc, EntryOfPc(t, pc).value)
  {
    var i := FirstExact(t, pc, 0);
    if i < |t| {
      assert FirstRowAt(t, pc, i);
    }
  }

  // ----- the row that covers an address

  /** Row i covers pc: its code begins at or before pc, and that of the next row behind it. */
  ghost predicate Covers(t: Table, pc: Word, i: nat) {
    i < |t| && t[i].addr <= pc && (i + 1 < |t| ==> pc < t[i + 1].addr)
  }

  /** The looked-up entry stands for row i. */
  predicate IsRow(r: Option<LineEntry>, row: LineEntry) {
    r.Some? && r.value.(isExact := row.isExact) == row
  }

  /** Behind the first row every address is covered by one row, and by no other. */
  lemma {:induction false} CoveringRow(t: Table, pc: Word) returns (i: nat)
    requires Ascending(t) && t != [] && t[0].addr <= pc
    ensures Covers(t, pc, i) && forall j: nat | Covers(t, pc, j) :: j == i
  {
    i := 0;
    while i + 1 < |t| && t[i + 1].addr <= pc
      invariant i < |t| && t[i].addr <= pc
    {
      i := i + 1;
    }
  }

  /**
   * The entry of pc is the row that covers pc exactly when that row begins at pc. Inside
   * a row it is the next one, and behind the last row there is none.
   */
  lemma EntryOfCovered(t: Table, pc: Word, i: nat)
    requires Ascending(t) && Covers(t, pc, i)
    ensures IsRow(EntryOfPc(t, pc), t[i]) <==> t[i].addr == pc
    ensures t[i].addr == pc <==> exists k :: 0 <= k < |t| && t[k].addr == pc
    ensures t[i].addr == pc ==> EntryOfPc(t, pc) == Some(t[i].(isExact := true))
    ensures t[i].addr < pc && i + 1 < |t| ==> EntryOfPc(t, pc) == Some(t[i + 1])
    ensures t[i].addr < pc && i + 1 == |t| ==> EntryOfPc(t, pc) == None
  {
    RowOfPcAscending(t, pc);
  }

  /** The line of that entry is the line of the covering row also when the next row has the same line. */
  lemma LineOfCovered(t: Table, pc: Word, i: nat)
    requires Ascending(t) && Covers(t, pc, i)
    ensures EntryOfPc(t, pc).Some? && EntryOfPc(t, pc).value.ln == t[i].ln <==>
            t[i].addr == pc || (i + 1 < |t| && t[i + 1].ln == t[i].ln)
  {
    EntryOfCovered(t, pc, i);
  }

  // ----- iteration over the statement rows of a subprogram

  /** The statement rows from index i on, up to the first row above highpc. */
  function RowsUpTo(t: Table, i: nat, highpc: Word): seq<LineEntry>
    requires i <= |t|
    decreases |t| - i
  {
    if i < |t| && t[i].addr <= highpc
    then (if t[i].newStatement then [t[i]] else []) + RowsUpTo(t, i + 1, highpc)
    else []
  }

  /** The rows on which sd_for_each_line runs its callback, or None when it fails before. */
  function RowsOfRange(t: Table, range: PcRange): Option<seq<LineEntry>> {
    match RowOfPc(t, range.lowpc)
    case Some(i) => Some(RowsUpTo(t, i, range.highpc))
    case None => None
  }

  function VisitedRows(t: Table, range: PcRange): seq<LineEntry> {
    match RowsOfRange(t, range)
    case Some(rows) => rows
    case None => []
  }

  lemma RowsOfLookup(t: Table, range: PcRange)
    ensures VisitedRows(t, range) ==
        RowsUpTo(t, if RowOfPc(t, range.lowpc).Some? then RowOfPc(t, range.lowpc).value else |t|, range.highpc)
  {
  }

  /** Apply a callback row by row until it returns an error. */
  function RunCallback<S>(rows: seq<LineEntry>, callback: (LineEntry, S) -> (S, SprayResult), s: S): (S, SprayResult) {
    if rows == [] then (s, SP_OK)
    else
      var (s', res) := callback(rows[0], s);
      if res.SP_ERR? then (s', SP_ERR) else RunCallback(rows[1..], callback, s')
  }

  /** The callback goes on behind rows without an error, and not behind an error. */
  lemma {:induction false} RunCallbackAppend<S>(rows: seq<LineEntry>, more: seq<LineEntry>,
                                                callback: (LineEntry, S) -> (S, SprayResult), s: S)
    ensures RunCallback([], callback, s) == (s, SP_OK)
    ensures forall row :: RunCallback([row], callback, s) == callback(row, s)
    ensures var (s', res) := RunCallback(rows, callback, s);
            RunCallback(rows + more, callback, s) ==
            if res.SP_ERR? then (s', SP_ERR) else RunCallback(more, callback, s')
  {
    forall row
      ensures RunCallback([row], callback, s) == callback(row, s)
    {
      assert [row][1..] == [];
    }
    if rows == [] {
      assert rows + more == more;
    } else {
      assert (rows + more)[0] == rows[0] && (rows + more)[1..] == rows[1..] + more;
      RunCallbackAppend(rows[1..], more, callback, callback(rows[0], s).0);
    }
  }

  /** One row of the iteration. */
  lemma VisitRow<S>(t: Table, i: nat, highpc: Word, callback: (LineEntry, S) -> (S, SprayResult), s: S)
    requires i < |t| && t[i].addr <= highpc
    ensures RunCallback(RowsUpTo(t, i, highpc), callback, s) ==
            if !t[i].newStatement then RunCallback(RowsUpTo(t, i + 1, highpc), callback, s)
            else var (s', res) := callback(t[i], s);
                 if res.SP_ERR? then (s', SP_ERR) else RunCallback(RowsUpTo(t, i + 1, highpc), callback, s')
  {
    assert [t[i]] + RowsUpTo(t, i + 1, highpc) != [];
    assert ([t[i]] + RowsUpTo(t, i + 1, highpc))[1..] == RowsUpTo(t, i + 1, highpc);
    assert [] + RowsUpTo(t, i + 1, highpc) == RowsUpTo(t, i + 1, highpc);
  }

  /** The end of the iteration. */
  lemma VisitNone<S>(t: Table, i: nat, highpc: Word, callback: (LineEntry, S) -> (S, SprayResult), s: S)
    requires i <= |t| && (i < |t| ==> t[i].addr > highpc)
    ensures RunCallback(RowsUpTo(t, i, highpc), callback, s) == (s, SP_OK)
  {
  }

  /** sd_for_each_line, after the range and the table have been found. */
  method ForEachLine<S>(t: Table, range: PcRange, callback: (LineEntry, S) -> (S, SprayResult), init: S)
    returns (data: S, res: SprayResult)
    ensures match RowsOfRange(t, range)
            case Some(rows) => (data, res) == RunCallback(rows, callback, init)
            case None => data == init && res == SP_ERR
  {
    data := init;
    var start := IndexOfPc(t, range.lowpc);
    if start.None? {
      return data, SP_ERR;
    }
    var i := start.value;
    while i < |t| && t[i].addr <= range.highpc
      invariant i <= |t|
      invariant RunCallback(RowsUpTo(t, start.value, range.highpc), callback, init)
             == RunCallback(RowsUpTo(t, i, range.highpc), callback, data)
    {
      VisitRow(t, i, range.highpc, callback, data);
      if t[i].newStatement {
        var (s', r) := callback(t[i], data);
        data := s';
        if r.SP_ERR? {
          return data, SP_ERR;
        }
      }
      i := i + 1;
    }
    res := SP_OK;
  }

  /** The statement rows of the whole table whose address lies in the inclusive range. */
  function Select(t: Table, range: PcRange): seq<LineEntry> {
    if t == [] then []
    else (if t[0].newStatement && range.lowpc <= t[0].addr <= range.highpc then [t[0]] else [])
         + Select(t[1..], range)
  }

  lemma {:induction false} Selected(t: Table, range: PcRange)
    ensures forall r :: r in Select(t, range) <==> r in t && r.newStatement && range.lowpc <= r.addr <= range.highpc
    ensures (forall i | 0 <= i < |t| :: t[i].addr < range.lowpc) ==> Select(t, range) == []
  {
    if t != [] {
      Selected(t[1..], range);
    }
  }

  /** sd_for_each_line refines a filter over the table. */
  lemma ForEachLineIsFilter(t: Table, range: PcRange)
    requires Ascending(t)
    ensures RowsOfRange(t, range) ==
            if forall i | 0 <= i < |t| :: t[i].addr < range.lowpc then None else Some(Select(t, range))
  {
    RowOfPcAscending(t, range.lowpc);
    if RowOfPc(t, range.lowpc).Some? {
      SelectSkips(t, range, RowOfPc(t, range.lowpc).value);
    }
  }

  lemma {:induction false} SelectSkips(t: Table, range: PcRange, i: nat)
    requires Ascending(t) && i <= |t|
    requires forall k | 0 <= k < |t| :: t[k].addr >= range.lowpc <==> i <= k
    ensures Select(t, range) == RowsUpTo(t, i, range.highpc)
    decreases |t|
  {
    if t != [] {
      if i > 0 {
        SelectSkips(t[1..], range, i - 1);
        RowsOfTail(t, i, range.highpc);
      } else {
        SelectSkips(t[1..], range, 0);
        RowsOfTail(t, 1, range.highpc);
        if t[0].addr > range.highpc && |t| > 1 {
          assert t[1].addr > range.highpc;
        }
      }
    }
  }

  lemma {:induction false} RowsOfTail(t: Table, i: nat, highpc: Word)
    requires 0 < i <= |t|
    ensures RowsUpTo(t, i, highpc) == RowsUpTo(t[1..], i - 1, highpc)
    decreases |t| - i
  {
    if i < |t| {
      RowsOfTail(t, i + 1, highpc);
    }
  }

  // ----- where a function starts after its prologue

  /** The index of the first table, from j on, whose row lookup of lowpc succeeds. */
  function PickTable(tables: seq<Option<Table>>, lowpc: Word, j: nat): (r: nat)
    requires j <= |tables|
    ensures j <= r <= |tables|
    ensures forall k | j <= k < r :: tables[k].Some? ==> RowOfPc(tables[k].value, lowpc).None?
    ensures r < |tables| ==> tables[r].Some? && RowOfPc(tables[r].value, lowpc).Some?
    decreases |tables| - j
  {
    if j < |tables| && (tables[j].None? || RowOfPc(tables[j].value, lowpc).None?)
    then PickTable(tables, lowpc, j + 1) else j
  }

  /** `row` is the first prologue_end row from `first` on, reached before a row above `end`. */
  ghost predicate PrologueRow(t: Table, first: nat, end: Word, row: nat) {
    && first <= row < |t|
    && t[row].prologueEnd
    && (forall k | first <= k <= row :: t[k].addr <= end)
    && (forall k | first <= k < row :: !t[k].prologueEnd)
  }

  /** `start` is the address of the prologue_end row or, without one, of the row behind the first. */
  ghost predicate IsStart(t: Table, lowpc: Word, end: Word, start: Word)
    requires RowOfPc(t, lowpc).Some?
  {
    var first := RowOfPc(t, lowpc).value;
    if exists row: nat :: PrologueRow(t, first, end, row)
    then exists row: nat :: PrologueRow(t, first, end, row) && t[row].addr == start
    else start == t[if first + 1 < |t| then first + 1 else first].addr
  }

  /** sd_effective_start_addr, given the line tables of all files in their listed order. */
  method EffectiveStartAddr(tables: seq<Option<Table>>, prologueStart: Word, functionEnd: Word)
    returns (r: Option<Word>)
    ensures r.None? <==> PickTable(tables, prologueStart, 0) == |tables|
    ensures r.Some? ==> IsStart(tables[PickTable(tables, prologueStart, 0)].value, prologueStart, functionEnd, r.value)
  {
    var j := 0;
    while j < |tables|
      invariant j <= |tables|
      invariant PickTable(tables, prologueStart, 0) == PickTable(tables, prologueStart, j)
    {
      if tables[j].Some? {
        var t := tables[j].value;
        var firstLine := IndexOfPc(t, prologueStart);
        if firstLine.Some? {
          var first := firstLine.value;
          var i := first;
          while i < |t| && t[i].addr <= functionEnd
            invariant first <= i <= |t|
            invariant forall k | first <= k < i :: t[k].addr <= functionEnd && !t[k].prologueEnd
          {
            if t[i].prologueEnd {
              assert PrologueRow(t, first, functionEnd, i);
              return Some(t[i].addr);
            }
            i := i + 1;
          }
          if first + 1 < |t| {
            return Some(t[first + 1].addr);
          }
          return Some(t[first].addr);
        }
      }
      j := j + 1;
    }
    r := None;
  }

  /**
   * The picked table is the one that has the function's own row exactly when every
   * table listed before it ends below the function.
   */
  lemma PicksOwnTable(tables: seq<Option<Table>>, lowpc: Word, own: nat, row: nat)
    requires forall j | 0 <= j < |tables| && tables[j].Some? :: Ascending(tables[j].value)
    requires own < |tables| && tables[own].Some?
    requires row < |tables[own].value| && tables[own].value[row].addr == lowpc
    ensures PickTable(tables, lowpc, 0) == own <==>
            forall j, i | 0 <= j < own && tables[j].Some? && 0 <= i < |tables[j].value| ::
                tables[j].value[i].addr < lowpc
    ensures RowOfPc(tables[own].value, lowpc) == Some(row)
  {
  }

  const EARLIER_TABLE: Table := [LineEntry(1, 0x100, true, false, false), LineEntry(2, 0x300, true, false, false)]
  const OWN_TABLE: Table := [LineEntry(7, 0x200, true, false, false), LineEntry(8, 0x208, true, true, false)]

  /** A table in front that reaches past the function is picked, and a row of another function is its start. */
  lemma WrongTablePicked()
    ensures RowOfPc(OWN_TABLE, 0x200) == Some(0)
    ensures PickTable([Some(EARLIER_TABLE), Some(OWN_TABLE)], 0x200, 0) == 0
    ensures RowOfPc(EARLIER_TABLE, 0x200) == Some(1)
    ensures forall start :: IsStart(EARLIER_TABLE, 0x200, 0x210, start) <==> start == 0x300
  {
    var tables := [Some(EARLIER_TABLE), Some(OWN_TABLE)];
    PicksOwnTable(tables, 0x200, 1, 0);
    assert EARLIER_TABLE[1].addr == 0x300;
    assert forall row: nat :: !PrologueRow(EARLIER_TABLE, 1, 0x210, row);
  }
}
