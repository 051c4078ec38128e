/** Numeric conversions the simulator and the aggregator rely on:
    Python's math.ceil and round on a real, and numpy's narrowing casts to
    unsigned integer columns. */
module Numeric {

  const Uint16Modulus: int := 0x1_0000
  const Uint32Modulus: int := 0x1_0000_0000

  /** math.ceil: the least integer not below x. */
  function Ceil(x: real): (r: int)
    ensures x <= r as real < x + 1.0
  {
    var f := x.Floor;
    if f as real == x then f else f + 1
  }

  /** Python's built-in round on a float with no digit argument: the nearest
      integer, and on an exact tie the even one ("banker's rounding"). */
  function RoundHalfEven(x: real): (r: int)
    ensures x - 0.5 <= r as real <= x + 0.5
    ensures (r as real == x - 0.5 || r as real == x + 0.5) ==> r % 2 == 0
    ensures x >= 0.0 ==> r >= 0
  {
    var f := x.Floor;
    var frac := x - f as real;
    if frac < 0.5 then f
    else if frac > 0.5 then f + 1
    else if f % 2 == 0 then f
    else f + 1
  }

  /** Truncation of a real towards zero, as a float-to-integer cast does. */
  function Truncate(x: real): (r: int)
    ensures x >= 0.0 ==> 0 <= r && r as real <= x < r as real + 1.0
    ensures x < 0.0 ==> r <= 0 && x < r as real + 1.0 && r as real - 1.0 < x
  {
    if x >= 0.0 then x.Floor else -((-x).Floor)
  }

  /** numpy's astype('uint32') on a float column: truncation, then the value
      is kept modulo 2^32 (see README for the out-of-range case). */
  function ToUint32(x: real): (r: nat)
    ensures r < Uint32Modulus
    ensures 0.0 <= x < Uint32Modulus as real ==> r as real <= x < r as real + 1.0
  {
    Truncate(x) % Uint32Modulus
  }

  /** numpy's astype('uint32') on an integer column: wrap-around. */
  function WrapUint32(n: int): (r: nat)
    ensures r < Uint32Modulus
    ensures (r - n) % Uint32Modulus == 0
    ensures 0 <= n < Uint32Modulus ==> r == n
  {
    n % Uint32Modulus
  }

  /** numpy's astype('uint16') on an integer column: wrap-around. */
  function WrapUint16(n: int): (r: nat)
    ensures r < Uint16Modulus
    ensures (r - n) % Uint16Modulus == 0
    ensures 0 <= n < Uint16Modulus ==> r == n
  {
    n % Uint16Modulus
  }
}
