/**
 * Go's 64-bit `int': its range and its wrap-around arithmetic.
 */
module GoInt {

  const Min: int := -0x8000_0000_0000_0000
  const Max: int := 0x7fff_ffff_ffff_ffff
  const Modulus: int := 0x1_0000_0000_0000_0000

  type Int64 = x: int | Min <= x <= Max

  /** The Int64 a Go `int' operation yields for the mathematical result `x'. */
  function Wrap(x: int): (r: Int64)
    ensures (r - x) % Modulus == 0
    ensures Min <= x <= Max ==> r == x
  {
    (x - Min) % Modulus + Min
  }
}
