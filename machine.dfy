/** Fixed-width integers of the C sources (LP64 ABI) and the checked size arithmetic they rely on. */
module Machine {

  datatype Option<T> = None | Some(value: T)

  /** 2^64: the modulus of uint64_t and size_t. */
  const WORD: int := 0x1_0000_0000_0000_0000
  const SIZE_MAX: int := WORD - 1

  /** A uint64_t or size_t value. */
  type Word = x: int | 0 <= x < WORD

  /** An int64_t value. */
  type I64 = x: int | -0x8000_0000_0000_0000 <= x < 0x8000_0000_0000_0000

  /** An unsigned char. */
  type Byte = x: int | 0 <= x < 256

  /** size_t -> int64_t conversion: the same 64 bits read as two's complement. */
  function ToI64(w: Word): (i: I64)
    ensures ToWord(i) == w
    ensures i < 0 <==> w >= 0x8000_0000_0000_0000
  {
    if w < 0x8000_0000_0000_0000 then w else w - WORD
  }

  /** int64_t -> size_t conversion: the value modulo 2^64. */
  function ToWord(i: I64): (w: Word)
    ensures w % WORD == i % WORD
  {
    if i < 0 then i + WORD else i
  }

  /**
   * The checked multiplication the resize path calls. The C function is only declared, so this
   * is its assumed behaviour: a result only when the product fits in a size_t.
   */
  function SafeMul(a: Word, b: Word): Option<Word>
  {
    if a * b <= SIZE_MAX then Some(a * b) else None
  }

  /** The checked addition the resize path calls, assumed in the same way: a result only when the sum fits. */
  function SafeAdd(a: Word, b: Word): Option<Word>
  {
    if a + b <= SIZE_MAX then Some(a + b) else None
  }
}
