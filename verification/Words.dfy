// Fixed-width integers and the result type shared by every module.
// Bytes and words are subset types of int; wrap-around is always written out.
module Words {
  type u8 = x: int | 0 <= x < 0x100
  type u16 = x: int | 0 <= x < 0x1_0000
  type u32 = x: int | 0 <= x < 0x1_0000_0000
  type u64 = x: int | 0 <= x < 0x1_0000_0000_0000_0000
  type i16 = x: int | -0x8000 <= x < 0x8000
  type i32 = x: int | -0x8000_0000 <= x < 0x8000_0000
  type i64 = x: int | -0x8000_0000_0000_0000 <= x < 0x8000_0000_0000_0000

  datatype Option<+T> = None | Some(value: T)

  // Return codes of the transport layer; Failed carries any other libusb code.
  datatype Status = Success | InvalidParam | Io | Overflow | Timeout | Other | Failed(code: i32)

  datatype Result<+T, +E> = Ok(value: T) | Err(error: E)

  function WrapU32(x: int): u32 { x % 0x1_0000_0000 }

  function WrapU64(x: int): u64 { x % 0x1_0000_0000_0000_0000 }

  // The value of the low 16 (32) bits of x read as a two's-complement number.
  function WrapI16(x: int): i16 { (x + 0x8000) % 0x1_0000 - 0x8000 }

  function WrapI32(x: int): i32 { (x + 0x8000_0000) % 0x1_0000_0000 - 0x8000_0000 }

  function Min(a: int, b: int): int { if a <= b then a else b }

  function Max(a: int, b: int): int { if a >= b then a else b }

  function Abs(a: int): nat { if a < 0 then -a else a }

  // C division: the quotient is truncated toward zero.
  function TruncDiv(a: int, b: int): int
    requires b != 0
  {
    if (a < 0) == (b < 0) then Abs(a) / Abs(b) else -(Abs(a) / Abs(b))
  }

  function Zeros(n: nat): (s: seq<u8>)
  {
    seq(n, _ => 0)
  }

  lemma Assoc<T>(x: seq<T>, y: seq<T>, z: seq<T>)
    ensures x + (y + z) == x + y + z
  {
  }
}
