/** Bytes, machine words and the verdicts shared by every parser. */
module Bytes {

  type byte = b: int | 0 <= b < 0x100

  const U64: int := 0x1_0000_0000_0000_0000
  type u64 = x: int | 0 <= x < U64

  /** Wrapping conversion to an unsigned 64-bit word. */
  function Wrap(x: int): u64
    decreases if x < 0 then U64 - x else x
  {
    if x < 0 then Wrap(x + U64)
    else if x >= U64 then Wrap(x - U64)
    else x
  }

  lemma {:induction false} WrapIsModulo(x: int)
    ensures Wrap(x) == x % U64
    decreases if x < 0 then U64 - x else x
  {
    if x < 0 {
      WrapIsModulo(x + U64);
    } else if x >= U64 {
      WrapIsModulo(x - U64);
    }
  }

  lemma WrapAdds(x: int, y: int)
    ensures Wrap(Wrap(x) + y) == Wrap(x + y)
  {
    WrapIsModulo(x);
    WrapIsModulo(Wrap(x) + y);
    WrapIsModulo(x + y);
  }

  const HT: byte := 0x09
  const LF: byte := 0x0A
  const CR: byte := 0x0D
  const SP: byte := 0x20
  const COLON: byte := 0x3A
  const SEMICOLON: byte := 0x3B
  const DEL: byte := 0x7F

  /** `Partial` asks for more input, `Malformed` refuses the input: C's -2 and -1. */
  datatype Error = Partial | Malformed

  datatype Result<+T> = Ok(value: T) | Err(error: Error)

  datatype Option<+T> = None | Some(value: T)

  /** The return code of the C interface. */
  function Code(r: Result<nat>): int {
    match r
    case Ok(n) => n
    case Err(Partial) => -2
    case Err(Malformed) => -1
  }
}
