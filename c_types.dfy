/**
 * The C integer vocabulary the embedded sources rely on: fixed-width
 * integer types, bitwise AND with a low mask, arithmetic right shift and
 * truncating division.  Each is defined on Dafny's unbounded integers and
 * related to the arithmetic it stands for.
 */
module CTypes {

  type uint8 = x: int | 0 <= x < 0x100
  type uint16 = x: int | 0 <= x < 0x1_0000
  predicate InInt32(x: int) {
    -0x8000_0000 <= x < 0x8000_0000
  }

  type int32 = x: int | InInt32(x)

  function Pow2(k: nat): (r: nat)
    ensures r >= 1
  {
    if k == 0 then 1 else 2 * Pow2(k - 1)
  }

  /** Bitwise AND of two non-negative integers, one bit at a time. */
  function BitAnd(a: nat, b: nat): (r: nat)
    ensures r <= a && r <= b
  {
    if a == 0 || b == 0 then 0
    else 2 * BitAnd(a / 2, b / 2) + (if a % 2 == 1 && b % 2 == 1 then 1 else 0)
  }

  /** Arithmetic right shift of a two's-complement integer: every step halves, rounding toward minus infinity. */
  function ShiftRight(x: int, n: nat): (r: int)
    ensures x >= 0 ==> 0 <= r <= x
    ensures x < 0 ==> x <= r < 0
  {
    if n == 0 then x else ShiftRight(x, n - 1) / 2
  }

  /** C's `/` for a positive divisor: the quotient is truncated toward zero. */
  function CDiv(a: int, b: int): (q: int)
    requires b > 0
    ensures a >= 0 ==> q * b <= a < q * b + b
    ensures a < 0 ==> q * b - b < a <= q * b
  {
    if a >= 0 then a / b else -((-a) / b)
  }

  lemma MulAtLeast(k: int, d: int)
    requires k >= 1 && d > 0
    ensures k * d >= d
  {
    assert k * d == (k - 1) * d + d;
  }

  /** Quotient and remainder are unique: any decomposition with a remainder in range is Dafny's. */
  lemma DivModUnique(x: int, d: int, q: int, r: int)
    requires d > 0 && x == q * d + r && 0 <= r < d
    ensures x / d == q && x % d == r
  {
    var q0, r0 := x / d, x % d;
    assert x == q0 * d + r0;
    var k := q0 - q;
    assert k * d == r - r0;
    if k >= 1 {
      MulAtLeast(k, d);
    } else if k <= -1 {
      MulAtLeast(-k, d);
    }
  }

  lemma ModDouble(i: nat, p: nat)
    requires p >= 1
    ensures i % (2 * p) == 2 * ((i / 2) % p) + i % 2
  {
    var q := (i / 2) / p;
    var r := (i / 2) % p;
    assert i / 2 == q * p + r;
    assert i == 2 * (i / 2) + i % 2;
    assert i == q * (2 * p) + (2 * r + i % 2);
    DivModUnique(i, 2 * p, q, 2 * r + i % 2);
  }

  lemma DivDouble(x: int, p: nat)
    requires p >= 1
    ensures (x / p) / 2 == x / (2 * p)
  {
    var q := (x / p) / 2;
    var r := (x / p) % 2;
    assert x == (x / p) * p + x % p;
    assert x / p == 2 * q + r;
    assert x == q * (2 * p) + (r * p + x % p);
    DivModUnique(x, 2 * p, q, r * p + x % p);
  }

  /** Masking with 2^k - 1 keeps the remainder modulo 2^k: the reason a power-of-two ring can wrap with `&`. */
  lemma {:induction false} MaskIsMod(i: nat, k: nat)
    ensures BitAnd(i, Pow2(k) - 1) == i % Pow2(k)
  {
    if k == 0 {
    } else if i == 0 {
    } else {
      var m := Pow2(k) - 1;
      assert m % 2 == 1 && m / 2 == Pow2(k - 1) - 1;
      MaskIsMod(i / 2, k - 1);
      ModDouble(i, Pow2(k - 1));
    }
  }

  /** Shifting right by n divides by 2^n, rounding toward minus infinity (Dafny's `/` for a positive divisor). */
  lemma {:induction false} ShiftIsFloorDiv(x: int, n: nat)
    ensures ShiftRight(x, n) == x / Pow2(n)
  {
    if n > 0 {
      ShiftIsFloorDiv(x, n - 1);
      DivDouble(x, Pow2(n - 1));
    }
  }
}
