/** C integer arithmetic: truncating division and fixed-width wrap-around. */
module CInt {

  const TWO31 := 0x8000_0000
  const TWO32 := 0x1_0000_0000
  const TWO63 := 0x8000_0000_0000_0000
  const TWO64 := 0x1_0000_0000_0000_0000

  /** The division of C, which truncates toward zero. */
  function Div(a: int, b: int): int
    requires b > 0
  {
    if a >= 0 then a / b else -((-a) / b)
  }

  /** The remainder of C, which has the sign of the dividend. */
  function Mod(a: int, b: int): int
    requires b > 0
  {
    if a >= 0 then a % b else -((-a) % b)
  }

  /** Conversion to an unsigned type of 16, 32 or 64 bits. */
  function U8(x: int): (r: int) ensures 0 <= r < 0x100 { x % 0x100 }
  function U16(x: int): (r: int) ensures 0 <= r < 0x1_0000 { x % 0x1_0000 }
  function U32(x: int): (r: int) ensures 0 <= r < TWO32 { x % TWO32 }
  function U64(x: int): (r: int) ensures 0 <= r < TWO64 { x % TWO64 }

  /** Conversion to a signed type: two's complement. */
  function I32(x: int): (r: int) ensures -TWO31 <= r < TWO31 {
    if U32(x) < TWO31 then U32(x) else U32(x) - TWO32
  }
  function I64(x: int): (r: int) ensures -TWO63 <= r < TWO63 {
    if U64(x) < TWO63 then U64(x) else U64(x) - TWO64
  }

  /** Division and remainder corrected for a negative remainder are floor division. */
  lemma FloorDiv(a: int, b: int)
    requires b > 0
    ensures Div(a, b) * b + Mod(a, b) == a
    ensures Mod(a, b) < 0 ==> Div(a, b) - 1 == a / b && Mod(a, b) + b == a % b
    ensures Mod(a, b) >= 0 ==> Div(a, b) == a / b && Mod(a, b) == a % b
  {
    if a < 0 {
      var q, r := (-a) / b, (-a) % b;
      if r == 0 {
        DivModUnique(a, b, -q, 0);
      } else {
        DivModUnique(a, b, -q - 1, b - r);
      }
    }
  }

  lemma DivModUnique(a: int, b: int, q: int, r: int)
    requires b > 0 && 0 <= r < b && a == q * b + r
    ensures a / b == q && a % b == r
  {
    var d := a / b - q;
    assert d * b == r - a % b;
    assert -b < d * b < b;
    MultipleInside(d, b);
  }

  lemma MultipleInside(d: int, b: int)
    requires b > 0 && -b < d * b < b
    ensures d == 0
  {
  }
}
