/** Fixed-width machine integers, and the conversions the Go source performs on them. */
module Words {
  type uint8 = n: int | 0 <= n < 0x100
  type uint16 = n: int | 0 <= n < 0x1_0000
  type uint32 = n: int | 0 <= n < 0x1_0000_0000
  type int16 = n: int | -0x8000 <= n < 0x8000
  type int32 = n: int | -0x8000_0000 <= n < 0x8000_0000

  datatype Option<T> = None | Some(value: T) {
    function GetOr(default: T): T {
      if Some? then value else default
    }

    /** The first of two optional values that is present. */
    function Or(other: Option<T>): Option<T> {
      if Some? then this else other
    }
  }

  /** Go's `int16(n)`: keep the low 16 bits, read as two's complement. */
  function ToInt16(n: int): int16 {
    var low := n % 0x1_0000;
    if low < 0x8000 then low else low - 0x1_0000
  }

  /** Go's `uint32(n)`: keep the low 32 bits. */
  function ToUint32(n: int): uint32 {
    n % 0x1_0000_0000
  }
}
