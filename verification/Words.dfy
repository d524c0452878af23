/** 64-bit words, bytes and the result types shared by all modules. */
module Words {

  const TWO64: int := 0x1_0000_0000_0000_0000

  type Word = w: int | 0 <= w < TWO64

  type Byte = b: int | 0 <= b < 256

  datatype Option<+T> = None | Some(value: T)

  datatype SprayResult = SP_OK | SP_ERR

  /** uint64_t addition. */
  function Add(a: Word, b: Word): Word {
    (a + b) % TWO64
  }

  /** uint64_t subtraction. */
  function Sub(a: Word, b: Word): Word {
    (a - b) % TWO64
  }

  /** The cast of a 64-bit word to int64_t. */
  function ToSigned(w: Word): int {
    if 2 * w < TWO64 then w else w - TWO64
  }

  function RealToDbg(offset: Word, real_: Word): Word {
    Sub(real_, offset)
  }

  function DbgToReal(offset: Word, dbg: Word): Word {
    Add(dbg, offset)
  }

  lemma AddSub(a: Word, b: Word)
    ensures Sub(Add(a, b), b) == a
    ensures Add(Sub(a, b), b) == a
  {
  }

  /**
   * The address of a place in the debug data and in the process: the process address is
   * the load address higher, and the two conversions undo each other.
   */
  lemma AddressesShift(offset: Word, real_: Word, dbg: Word)
    ensures (RealToDbg(offset, real_) + offset) % TWO64 == real_
    ensures DbgToReal(offset, dbg) == (dbg + offset) % TWO64
    ensures DbgToReal(offset, RealToDbg(offset, real_)) == real_ && RealToDbg(offset, DbgToReal(offset, dbg)) == dbg
  {
  }
}
