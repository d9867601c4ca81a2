/** The fixed-width C integer arithmetic the media code relies on, written out over `int`. */
module CInt {

  type U16 = x: int | 0 <= x < 0x1_0000

  type U32 = x: int | 0 <= x < 0x1_0000_0000

  /** Conversion to `uint16_t`. */
  function ToU16(x: int): U16 {
    x % 0x1_0000
  }

  /** Conversion to `uint32_t`. */
  function ToU32(x: int): U32 {
    x % 0x1_0000_0000
  }

  /** Conversion to `int16_t`, two's complement. */
  function ToI16(x: int): int {
    var r := x % 0x1_0000;
    if r < 0x8000 then r else r - 0x1_0000
  }

  /** Conversion to `int32_t`, two's complement. */
  function ToI32(x: int): int {
    var r := x % 0x1_0000_0000;
    if r < 0x8000_0000 then r else r - 0x1_0000_0000
  }

  /** A 32-bit counter moved on k times. */
  function AddU32(x: U32, k: nat): U32 {
    (x + k) % 0x1_0000_0000
  }

  lemma AddTwice(x: U32, a: nat, b: nat)
    ensures AddU32(AddU32(x, a), b) == AddU32(x, a + b)
  {
  }

  function Max(a: int, b: int): int {
    if a < b then b else a
  }

  function Min(a: int, b: int): int {
    if a < b then a else b
  }

  /** C division: the quotient is truncated toward zero. */
  function CDiv(a: int, b: int): int
    requires b > 0
  {
    if a >= 0 then a / b else -((-a) / b)
  }

  /** The quotient brackets the dividend. */
  lemma DivBounds(a: int, b: int)
    requires b > 0
    ensures b * (a / b) <= a < b * (a / b) + b
  {
  }

  lemma MulMonotone(b: int, x: int, y: int)
    requires b >= 0 && x <= y
    ensures b * x <= b * y
  {
  }

  lemma DivMonotone(a: int, a': int, b: int)
    requires b > 0 && a <= a'
    ensures a / b <= a' / b
  {
    var q, q' := a / b, a' / b;
    DivBounds(a, b);
    DivBounds(a', b);
    if q' + 1 <= q {
      MulMonotone(b, q' + 1, q);
    }
  }

  lemma QuotientBelow(a: int, c: int, q: int)
    requires c > 0 && a < c * q
    ensures a / c < q
  {
    DivBounds(a, c);
    if a / c >= q {
      MulMonotone(c, q, a / c);
    }
  }

  lemma QuotientNonNegative(a: int, c: int)
    requires c > 0 && a >= 0
    ensures a / c >= 0
  {
    DivBounds(a, c);
    if a / c <= -1 {
      MulMonotone(c, a / c, -1);
    }
  }
}
