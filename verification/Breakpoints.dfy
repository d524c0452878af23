/** The address-to-breakpoint map and the INT3 bytes it keeps in the tracee. */
module BreakpointTable {
  import opened Words
  import opened Memory
  import opened Machine
  import opened Ptrace

  datatype Breakpoint = Breakpoint(isEnabled: bool, origData: Byte)

  type Entries = map<Word, Breakpoint>

  /** Memory as it would be without any breakpoint. */
  function Unplant(m: Memory, t: Entries): Memory {
    map a | a in m :: if a in t && t[a].isEnabled then t[a].origData else m[a]
  }

  function EnabledIn(t: Entries): set<Word> {
    set a | a in t && t[a].isEnabled
  }

  /** INT3 is in place at every enabled address. */
  ghost predicate InPlace(m: Memory, t: Entries) {
    forall a | a in EnabledIn(t) :: a in m && m[a] == INT3
  }

  lemma PlantByte(m: Memory, t: Entries, a: Word)
    requires a in m && !(a in t && t[a].isEnabled)
    ensures var t' := t[a := Breakpoint(true, m[a])];
            && Unplant(m[a := INT3], t') == Unplant(m, t)
            && EnabledIn(t') == EnabledIn(t) + {a}
  {
  }

  lemma RestoreByte(m: Memory, t: Entries, a: Word)
    requires a in m && a in t && t[a].isEnabled
    ensures var t' := t[a := Breakpoint(false, t[a].origData)];
            && Unplant(m[a := t[a].origData], t') == Unplant(m, t)
            && EnabledIn(t') == EnabledIn(t) - {a}
  {
  }

  /** Planting the enabled addresses of a table and taking them out again are inverse. */
  lemma UnplantPlant(m: Memory, t: Entries)
    requires forall a | a in EnabledIn(t) :: a in m && m[a] == t[a].origData
    ensures Unplant(Plant(m, EnabledIn(t)), t) == m
  {
  }

  lemma PlantUnplant(m: Memory, t: Entries)
    requires InPlace(m, t)
    ensures Plant(Unplant(m, t), EnabledIn(t)) == m
    ensures EnabledIn(t) == {} ==> Unplant(m, t) == m
  {
  }

  /** Planting the same table into a later memory with the same text keeps the originals right. */
  lemma Replant(m: Memory, m': Memory, t: Entries, text: set<Word>)
    requires EnabledIn(t) <= text && EnabledIn(t) <= m.Keys && SameText(Unplant(m, t), m', text)
    ensures Unplant(Plant(m', EnabledIn(t)), t) == m'
    ensures InPlace(Plant(m', EnabledIn(t)), t)
  {
    forall a | a in EnabledIn(t)
      ensures a in m' && m'[a] == t[a].origData
    {
      assert a in Unplant(m, t);
    }
    UnplantPlant(m', t);
  }

  /**
   * exec_set_memory writes a word without regard to breakpoints. The overlay survives
   * exactly when every planted byte under the word is written as INT3 again, and the
   * write reaches the program's own memory exactly when no byte under the word is
   * planted, except where the word repeats the original byte.
   */
  lemma SetMemoryUnderBreakpoints(m: Memory, t: Entries, a: Word, w: Word)
    requires InPlace(m, t) && Mapped(m, a)
    ensures InPlace(PutWord(m, a, w), t) <==>
            forall e | e in EnabledIn(t) && a <= e < a + 8 :: ByteOf(w, e - a) == INT3
    ensures Mapped(Unplant(m, t), a)
    ensures Unplant(PutWord(m, a, w), t) == PutWord(Unplant(m, t), a, w) <==>
            forall e | e in EnabledIn(t) && a <= e < a + 8 :: ByteOf(w, e - a) == t[e].origData
  {
    var m', u, u' := PutWord(m, a, w), Unplant(m, t), PutWord(Unplant(m, t), a, w);
    forall i: Word
      ensures (i in m' <==> i in m) && (i in u' <==> i in m)
      ensures a <= i < a + 8 ==> m'[i] == u'[i] == ByteOf(w, i - a)
      ensures !(a <= i < a + 8) && i in m ==> m'[i] == m[i] && u'[i] == u[i]
    {
      if a <= i < a + 8 {
        StoreByte(m, a, w, a + 8, i);
        StoreByte(u, a, w, a + 8, i);
      } else {
        StoreFrame(m, a, w, a + 8, i);
        StoreFrame(u, a, w, a + 8, i);
      }
    }
    if Unplant(m', t) == u' {
      forall e | e in EnabledIn(t) && a <= e < a + 8
        ensures ByteOf(w, e - a) == t[e].origData
      {
        assert Unplant(m', t)[e] == t[e].origData;
      }
    }
  }

  class Breakpoints {
    const tracee: Tracee
    var entries: Entries

    constructor (tracee: Tracee)
      ensures this.tracee == tracee && entries == map[]
    {
      this.tracee, entries := tracee, map[];
    }

    /** lookup_breakpoint */
    predicate Lookup(a: Word)
      reads this
    {
      a in entries && entries[a].isEnabled
    }

    /** The addresses for which Lookup holds. */
    function Enabled(): (E: set<Word>)
      reads this
    {
      EnabledIn(entries)
    }

    /** The overlay invariant: every enabled address of a live tracee is mapped and holds INT3. */
    ghost predicate Overlaid()
      reads this, tracee
    {
      !tracee.status.Dead? ==> InPlace(tracee.cpu.mem, entries)
    }

    /** The tracee's memory with all original bytes put back. */
    ghost function Pristine(): Memory
      reads this, tracee
    {
      Unplant(tracee.cpu.mem, entries)
    }

    /** enable_breakpoint */
    method Enable(a: Word) returns (res: SprayResult)
      requires Overlaid()
      modifies this`entries, tracee`cpu, tracee`faults
      ensures Overlaid() && Pristine() == old(Pristine())
      ensures tracee.cpu == old(tracee.cpu).(mem := tracee.cpu.mem)
      ensures res.SP_OK? ==> Enabled() == old(Enabled()) + {a}
      ensures res.SP_ERR? ==> Enabled() == old(Enabled()) && a !in Enabled() && tracee.cpu == old(tracee.cpu)
      ensures tracee.faults >= old(tracee.faults)
      ensures res.SP_OK? && !tracee.status.Dead? ==> a in tracee.cpu.mem && tracee.cpu.mem[a] == 0xcc
      ensures tracee.cpu.mem.Keys == old(tracee.cpu.mem.Keys)
      ensures tracee.status.Stopped? ==> (res.SP_OK? <==> a in tracee.cpu.mem && tracee.faults == old(tracee.faults))
      ensures !tracee.status.Stopped? ==> tracee.faults == old(tracee.faults) && Enabled() == old(Enabled())
    {
      if a !in entries {
        entries := entries[a := Breakpoint(false, 0)];
        assert Enabled() == old(Enabled());
        assert Pristine() == old(Pristine());
      }
      if !entries[a].isEnabled {
        res := PlantInt3(a);
      } else {
        res := SP_OK;
      }
    }

    /** The second half of enable_breakpoint, for an entry that is not enabled. */
    method PlantInt3(a: Word) returns (res: SprayResult)
      requires Overlaid()
      requires a in entries && !entries[a].isEnabled
      modifies this`entries, tracee`cpu, tracee`faults
      ensures Overlaid() && Pristine() == old(Pristine())
      ensures tracee.cpu == old(tracee.cpu).(mem := tracee.cpu.mem)
      ensures res.SP_OK? ==> tracee.status.Stopped? && Enabled() == old(Enabled()) + {a}
      ensures res.SP_ERR? ==> entries == old(entries) && tracee.cpu == old(tracee.cpu)
      ensures tracee.cpu.mem.Keys == old(tracee.cpu.mem.Keys)
      ensures res.SP_OK? ==> a in tracee.cpu.mem
      ensures tracee.faults ==
              old(tracee.faults) + (if res.SP_ERR? && tracee.status.Stopped? && a in tracee.cpu.mem then 1 else 0)
    {
      var word := tracee.PeekWord(a);
      if word.None? {
        return SP_ERR;
      }
      var origData := word.value % 256;
      var int3Data := WithLowByte(word.value, INT3);
      ghost var m := tracee.cpu.mem;
      LowByteWrite(m, a, INT3);
      res := tracee.PokeWord(a, int3Data);
      if res.SP_ERR? {
        return SP_ERR;
      }
      PlantByte(m, entries, a);
      assert tracee.cpu.mem.Keys == m.Keys;
      entries := entries[a := Breakpoint(true, origData)];
    }

    /** disable_breakpoint */
    method Disable(a: Word) returns (res: SprayResult)
      requires Overlaid()
      modifies this`entries, tracee`cpu, tracee`faults
      ensures Overlaid() && Pristine() == old(Pristine())
      ensures tracee.cpu == old(tracee.cpu).(mem := tracee.cpu.mem)
      ensures res.SP_OK? ==> Enabled() == old(Enabled()) - {a}
      ensures res.SP_ERR? ==> Enabled() == old(Enabled()) && a in Enabled() && tracee.cpu == old(tracee.cpu)
      ensures tracee.cpu.mem.Keys == old(tracee.cpu.mem.Keys)
      ensures tracee.faults >= old(tracee.faults)
      ensures tracee.status.Stopped? ==> (res.SP_OK? <==> tracee.faults == old(tracee.faults))
      ensures !tracee.status.Stopped? ==> tracee.faults == old(tracee.faults) && Enabled() == old(Enabled())
    {
      if a in entries && entries[a].isEnabled {
        var word := tracee.PeekWord(a);
        if word.None? {
          return SP_ERR;
        }
        var restored := WithLowByte(word.value, entries[a].origData);
        LowByteWrite(tracee.cpu.mem, a, entries[a].origData);
        res := tracee.PokeWord(a, restored);
        if res.SP_ERR? {
          return SP_ERR;
        }
        RestoreByte(old(tracee.cpu.mem), entries, a);
        assert tracee.cpu.mem.Keys == old(tracee.cpu.mem.Keys);
        entries := entries[a := Breakpoint(false, entries[a].origData)];
      }
      return SP_OK;
    }
  }
}
