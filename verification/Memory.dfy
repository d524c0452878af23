/** Byte-addressed tracee memory, accessed through little-endian 8-byte words as ptrace does. */
module Memory {
  import opened Words

  /** The mapped bytes of the tracee. */
  type Memory = map<Word, Byte>

  predicate Mapped(m: Memory, a: Word) {
    a + 8 <= TWO64 && MappedRange(m, a, a + 8)
  }

  predicate MappedRange(m: Memory, a: int, end: int) {
    0 <= a && end <= TWO64 && forall i :: a <= i < end ==> i in m
  }

  ghost function Pow256(k: nat): nat {
    if k == 0 then 1 else 256 * Pow256(k - 1)
  }

  lemma Pow256Eight()
    ensures Pow256(8) == TWO64
  {
  }

  /** The number stored in the bytes [a, end), least significant byte first. */
  function Load(m: Memory, a: int, end: int): (w: nat)
    requires a <= end && MappedRange(m, a, end)
    ensures w < Pow256(end - a)
    decreases end - a
  {
    if a == end then 0 else m[a] + 256 * Load(m, a + 1, end)
  }

  /** Write the low bytes of `w` to [a, end). */
  function Store(m: Memory, a: int, w: nat, end: int): Memory
    requires 0 <= a <= end <= TWO64
    decreases end - a
  {
    if a == end then m else Store(m[a := w % 256], a + 1, w / 256, end)
  }

  function WordAt(m: Memory, a: Word): Word
    requires Mapped(m, a)
  {
    Pow256Eight();
    Load(m, a, a + 8)
  }

  function PutWord(m: Memory, a: Word, w: Word): Memory
    requires Mapped(m, a)
  {
    Store(m, a, w, a + 8)
  }

  /** `(word & ~BTM_BYTE_MASK) | low`: replace the least significant byte. */
  function WithLowByte(w: Word, low: Byte): (r: Word)
    ensures r % 256 == low && r / 256 == w / 256
  {
    w - w % 256 + low
  }

  lemma {:induction false} LoadFrame(m: Memory, m': Memory, a: int, end: int)
    requires a <= end && MappedRange(m, a, end) && MappedRange(m', a, end)
    requires forall i :: a <= i < end ==> m[i] == m'[i]
    ensures Load(m, a, end) == Load(m', a, end)
    decreases end - a
  {
    if a < end {
      LoadFrame(m, m', a + 1, end);
    }
  }

  /** Writing back what was read changes nothing. */
  lemma {:induction false} StoreLoad(m: Memory, a: int, end: int)
    requires a <= end && MappedRange(m, a, end)
    ensures Store(m, a, Load(m, a, end), end) == m
    decreases end - a
  {
    if a < end {
      var w := Load(m, a, end);
      assert w % 256 == m[a] && w / 256 == Load(m, a + 1, end);
      assert m[a := w % 256] == m;
      StoreLoad(m, a + 1, end);
    }
  }

  /** Reading back what was written gives the written number, and no other byte has changed. */
  lemma {:induction false} LoadStore(m: Memory, a: int, w: nat, end: int)
    requires 0 <= a <= end <= TWO64 && w < Pow256(end - a)
    ensures var m' := Store(m, a, w, end);
            && MappedRange(m', a, end)
            && Load(m', a, end) == w
            && (forall i :: i in m' <==> i in m || a <= i < end)
            && (forall i :: i in m && !(a <= i < end) ==> m'[i] == m[i])
    decreases end - a
  {
    if a < end {
      LoadStore(m[a := w % 256], a + 1, w / 256, end);
    }
  }

  /** Byte i of a number, least significant first. */
  ghost function ByteOf(w: nat, i: nat): Byte {
    if i == 0 then w % 256 else ByteOf(w / 256, i - 1)
  }

  lemma {:induction false} StoreByte(m: Memory, a: int, w: nat, end: int, i: int)
    requires 0 <= a <= i < end <= TWO64
    ensures i in Store(m, a, w, end) && Store(m, a, w, end)[i] == ByteOf(w, i - a)
    decreases end - a
  {
    if i == a {
      StoreFrame(m[a := w % 256], a + 1, w / 256, end, a);
    } else {
      StoreByte(m[a := w % 256], a + 1, w / 256, end, i);
    }
  }

  lemma {:induction false} StoreFrame(m: Memory, a: int, w: nat, end: int, i: Word)
    requires 0 <= a <= end <= TWO64 && !(a <= i < end)
    ensures i in Store(m, a, w, end) <==> i in m
    ensures i in m ==> Store(m, a, w, end)[i] == m[i]
    decreases end - a
  {
    if a < end {
      StoreFrame(m[a := w % 256], a + 1, w / 256, end, i);
    }
  }

  lemma LowByteStore(m: Memory, a: int, low: Byte, end: int, w: nat)
    requires a < end && MappedRange(m, a, end)
    requires w % 256 == low && w / 256 == Load(m, a + 1, end)
    ensures Store(m, a, w, end) == m[a := low]
  {
    var m1 := m[a := low];
    LoadFrame(m, m1, a + 1, end);
    StoreLoad(m1, a + 1, end);
  }

  /**
   * The 8-byte read-modify-write of breakpoints.c changes one byte only, whatever
   * the seven bytes above it hold.
   */
  lemma LowByteWrite(m: Memory, a: Word, low: Byte)
    requires Mapped(m, a)
    ensures WordAt(m, a) % 256 == m[a]
    ensures PutWord(m, a, WithLowByte(WordAt(m, a), low)) == m[a := low]
  {
    LowByteStore(m, a, low, a + 8, WithLowByte(WordAt(m, a), low));
  }
}
