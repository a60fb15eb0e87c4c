/** Small shared vocabulary: optional values, bytes and the integer
    semantics of C# (truncating division and casts toward zero). */
module Prelude {

  /** A C# reference that may be null. */
  datatype Option<+T> = None | Some(value: T)

  /** An element of a C# byte[]. */
  newtype byte = x: int | 0 <= x < 256

  /** int.MaxValue of C#. */
  const IntMax: int := 0x7FFF_FFFF

  /** C# integer division for a positive divisor: the quotient is truncated
      toward zero (Dafny's own / floors). */
  function TruncDiv(a: int, b: int): (q: int)
    requires b > 0
    ensures a >= 0 ==> 0 <= q && q * b <= a < (q + 1) * b
    ensures a < 0 ==> q <= 0 && (q - 1) * b < a <= q * b
  {
    if a >= 0 then DivBounds(a, b); a / b else DivBounds(-a, b); -((-a) / b)
  }

  /** Dafny's floor division brackets a non-negative dividend between consecutive multiples. */
  lemma DivBounds(a: int, b: int)
    requires a >= 0 && b > 0
    ensures 0 <= a / b && (a / b) * b <= a < (a / b + 1) * b
  {
    var q, r := a / b, a % b;
    assert a == q * b + r;
    assert (q + 1) * b == q * b + b;
  }

  /** C# remainder for a positive divisor: it takes the sign of the dividend. */
  function TruncRem(a: int, b: int): (m: int)
    requires b > 0
    ensures a >= 0 ==> 0 <= m < b
    ensures a < 0 ==> -b < m <= 0
    ensures a == TruncDiv(a, b) * b + m
  {
    a - TruncDiv(a, b) * b
  }

  /** The C# cast (int)x of a floating-point value, taken over exact reals:
      it drops the fraction, rounding toward zero. */
  function TruncateReal(x: real): (r: int)
    ensures x >= 0.0 ==> 0 <= r && r as real <= x < r as real + 1.0
    ensures x < 0.0 ==> r <= 0 && r as real - 1.0 < x <= r as real
  {
    if x >= 0.0 then x.Floor else -((-x).Floor)
  }

  /** Number of occurrences of x in s. */
  function Count<T(==)>(s: seq<T>, x: T): nat
  {
    if s == [] then 0 else (if s[0] == x then 1 else 0) + Count(s[1..], x)
  }

  lemma AppendAssoc<T>(a: seq<T>, b: seq<T>, c: seq<T>)
    ensures a + (b + c) == (a + b) + c
  {
  }
}
