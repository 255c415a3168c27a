/** Go's 64-bit signed integers and the integer operators the core relies on:
    wrap-around addition, division and remainder that truncate toward zero,
    and the saturation that time.Time.Sub applies to a difference of clock readings. */
module Int64 {
  const Min: int := -0x8000_0000_0000_0000
  const Max: int := 0x7fff_ffff_ffff_ffff
  const Modulus: int := 0x1_0000_0000_0000_0000

  newtype int64 = x: int | -0x8000_0000_0000_0000 <= x < 0x8000_0000_0000_0000

  /** Two's-complement wrap-around of an exact result, as Go's int64 `+` behaves. */
  function Wrap(x: int): (r: int64)
    ensures Min <= x <= Max ==> r as int == x
    ensures (r as int - x) % Modulus == 0
  {
    ((x - Min) % Modulus + Min) as int64
  }

  /** Go's `+` on int64. */
  function Add(a: int64, b: int64): (r: int64)
    ensures Min <= a as int + b as int <= Max ==> r as int == a as int + b as int
    ensures (r as int - (a as int + b as int)) % Modulus == 0
  {
    Wrap(a as int + b as int)
  }

  /** Go's `/` for a positive divisor: the quotient truncated toward zero. */
  function Quot(a: int, b: int): (q: int)
    requires b > 0
    ensures a >= 0 ==> q * b <= a < q * b + b
    ensures a < 0 ==> q * b - b < a <= q * b
  {
    if a >= 0 then a / b else -((-a) / b)
  }

  /** Go's `%` for a positive divisor: the remainder takes the sign of the dividend. */
  function Rem(a: int, b: int): (r: int)
    requires b > 0
    ensures a == Quot(a, b) * b + r
    ensures a >= 0 ==> 0 <= r < b
    ensures a < 0 ==> -b < r <= 0
  {
    a - Quot(a, b) * b
  }

  function Dist(a: int, b: int): nat {
    if a < b then b - a else a - b
  }

  /** A difference clamped to the int64 range, as time.Time.Sub returns it: the
      int64 nearest to the exact difference. */
  function Saturate(x: int): (r: int64)
    ensures Min <= x <= Max ==> r as int == x
    ensures forall y: int | Min <= y <= Max :: Dist(r as int, x) <= Dist(y, x)
  {
    if x < Min then Min as int64 else if x > Max then Max as int64 else x as int64
  }
}
