/**
 * _interp_49_bit: the digest read as an integer d in [0, 2^49) is mapped to
 * floor(d / 2^49 * y_sup). The model computes this quotient exactly, (d * y_sup) div 2^49,
 * where the source goes through double-precision floats.
 */
module Interpolation {
  import opened Results
  import opened Arithmetic
  import opened Digest

  /** The digest has SR_BITS^2 = 49 binary digits. */
  const DIGEST_BITS: nat := SR_BITS * SR_BITS

  /** floor(d / 2^49 * ySup) in exact arithmetic (Dafny's division by a positive divisor rounds down). */
  function Scale(d: int, ySup: int): int {
    (d * ySup) / Pow2(DIGEST_BITS)
  }

  /** _interp_49_bit(x, y_sup): ValueError when x is not a binary numeral, else the scaled value. */
  function Interp49Bit(x: string, ySup: int): (r: Result<int>)
    ensures r.Err? <==> ParseBin(x).Err?
    ensures r.Err? ==> r.error == ValueError
  {
    match ParseBin(x)
    case Err(e) => Err(e)
    case Ok(d) => Ok(Scale(d, ySup))
  }

  /** A digest in [0, 2^49) lands in [0, ySup), and digest 0 lands on 0. */
  lemma ScaleRange(d: int, ySup: int)
    requires 0 <= d < Pow2(DIGEST_BITS) && ySup > 0
    ensures 0 <= Scale(d, ySup) < ySup
    ensures d == 0 ==> Scale(d, ySup) == 0
  {
    var p := Pow2(DIGEST_BITS);
    MulNonNegative(d, ySup);
    MulMonotone(d, p - 1, ySup);
    assert (p - 1) * ySup == (ySup - 1) * p + (p - ySup) + 0 * p;
    DivMonotone(0, d * ySup, p);
    DivMonotone(d * ySup, p * ySup - 1, p);
    DivUnique(p * ySup - 1, p, ySup - 1, p - 1);
  }

  /** A larger digest never gives a smaller value. */
  lemma ScaleMonotone(d1: int, d2: int, ySup: int)
    requires d1 <= d2 && ySup >= 0
    ensures Scale(d1, ySup) <= Scale(d2, ySup)
  {
    MulMonotone(d1, d2, ySup);
    DivMonotone(d1 * ySup, d2 * ySup, Pow2(DIGEST_BITS));
  }

  /** The largest digest 2^49 - 1 gives the largest value ySup - 1 whenever ySup <= 2^49. */
  lemma ScaleTop(ySup: int)
    requires 1 <= ySup <= Pow2(DIGEST_BITS)
    ensures Scale(Pow2(DIGEST_BITS) - 1, ySup) == ySup - 1
  {
    var p := Pow2(DIGEST_BITS);
    assert (p - 1) * ySup == (ySup - 1) * p + (p - ySup);
    DivUnique((p - 1) * ySup, p, ySup - 1, p - ySup);
  }

  /** For ySup <= 2^49 every value in [0, ySup) comes from some digest. */
  lemma ScaleOnto(ySup: int, t: int) returns (d: int)
    requires 0 <= t < ySup <= Pow2(DIGEST_BITS)
    ensures 0 <= d < Pow2(DIGEST_BITS) && Scale(d, ySup) == t
  {
    var p := Pow2(DIGEST_BITS);
    MulNonNegative(t, p);
    var a := t * p + ySup - 1;
    d := a / ySup;
    var r := a % ySup;
    assert a == d * ySup + r;
    assert t * p <= d * ySup < t * p + p;
    DivUnique(d * ySup, p, t, d * ySup - t * p);
    if d >= p {
      MulMonotone(p, d, ySup);
      MulMonotone(t, ySup - 1, p);
      assert false;
    }
  }
}
