/**
 * The last step of _get_bin_str_from_image and the parse int(x, 2) of _interp_49_bit:
 * two boolean vectors (one per resized row and column of the image, already compared with
 * the average luminance) become the string "0b" followed by one digit per pair of the
 * product rows x cols, and that string is read back as a binary numeral.
 */
module Digest {
  import opened Results
  import opened Arithmetic

  /** The image is resized to SR_BITS samples per side; the digest has SR_BITS^2 digits. */
  const SR_BITS: nat := 7

  /** One block of the product: x paired with every element of ys (the ensures lists the entries for callers' quantifiers). */
  function Row<T, U>(x: T, ys: seq<U>): (r: seq<(T, U)>)
    ensures |r| == |ys| && forall j :: 0 <= j < |ys| ==> r[j] == (x, ys[j])
  {
    seq(|ys|, j requires 0 <= j < |ys| => (x, ys[j]))
  }

  /** itertools.product(xs, ys): every pair, xs in the outer position and ys in the inner one. */
  function Product<T, U>(xs: seq<T>, ys: seq<U>): seq<(T, U)>
  {
    if xs == [] then [] else Row(xs[0], ys) + Product(xs[1..], ys)
  }

  /** The product has one pair per choice of an element of xs and an element of ys. */
  lemma {:induction false} ProductLength<T, U>(xs: seq<T>, ys: seq<U>)
    ensures |Product(xs, ys)| == |xs| * |ys|
    decreases |xs|
  {
    if xs != [] {
      ProductLength(xs[1..], ys);
      assert |xs| * |ys| == |ys| + (|xs| - 1) * |ys|;
    }
  }

  /** The product is row-major: pair (xs[i], ys[j]) sits at position i * |ys| + j. */
  lemma {:induction false} ProductAt<T, U>(xs: seq<T>, ys: seq<U>, i: nat, j: nat)
    requires i < |xs| && j < |ys|
    ensures i * |ys| + j < |Product(xs, ys)|
    ensures Product(xs, ys)[i * |ys| + j] == (xs[i], ys[j])
    decreases i
  {
    ProductLength(xs, ys);
    ProductLength(xs[1..], ys);
    if i > 0 {
      ProductAt(xs[1..], ys, i - 1, j);
      assert i * |ys| + j == |ys| + ((i - 1) * |ys| + j);
    }
  }

  /** str(int(b)): the digit for one pair. */
  function BitChar(b: bool): char {
    if b then '1' else '0'
  }

  /** "".join(str(int(r == c)) for r, c in pairs). */
  function Bits(pairs: seq<(bool, bool)>): (s: string)
    ensures |s| == |pairs|
    ensures forall p :: 0 <= p < |s| ==> s[p] == BitChar(pairs[p].0 == pairs[p].1)
  {
    if pairs == [] then "" else [BitChar(pairs[0].0 == pairs[0].1)] + Bits(pairs[1..])
  }

  /** The digest string built from the thresholded rows and columns. */
  function BinStr(rows: seq<bool>, cols: seq<bool>): string {
    "0b" + Bits(Product(rows, cols))
  }

  predicate IsBinDigit(c: char) {
    c == '0' || c == '1'
  }

  predicate IsBinDigits(d: string) {
    forall i :: 0 <= i < |d| ==> IsBinDigit(d[i])
  }

  /** The digest string is "0b" and then |rows| * |cols| binary digits. */
  lemma DigestLayout(rows: seq<bool>, cols: seq<bool>)
    ensures |BinStr(rows, cols)| == 2 + |rows| * |cols|
    ensures BinStr(rows, cols)[..2] == "0b"
    ensures IsBinDigits(BinStr(rows, cols)[2..])
  {
    ProductLength(rows, cols);
    assert BinStr(rows, cols)[2..] == Bits(Product(rows, cols));
  }

  /** The digit for pair (i, j) sits at i * |cols| + j after the prefix and is '1' exactly when rows[i] == cols[j]. */
  lemma DigestAt(rows: seq<bool>, cols: seq<bool>, i: nat, j: nat)
    requires i < |rows| && j < |cols|
    ensures 2 + i * |cols| + j < |BinStr(rows, cols)|
    ensures BinStr(rows, cols)[2 + i * |cols| + j] == '1' <==> rows[i] == cols[j]
  {
    ProductAt(rows, cols, i, j);
  }

  /** int(s, 2) strips an optional 0b or 0B prefix. */
  function Digits(s: string): string {
    if |s| >= 2 && s[0] == '0' && (s[1] == 'b' || s[1] == 'B') then s[2..] else s
  }

  /** The value of a binary numeral, most significant digit first. */
  function BinValue(d: string): (v: nat)
    ensures v < Pow2(|d|)
  {
    if d == [] then 0 else 2 * BinValue(d[..|d| - 1]) + (if d[|d| - 1] == '1' then 1 else 0)
  }

  /** int(s, 2): the value of the digits after the optional prefix; ValueError when there are none or one is not binary. */
  function ParseBin(s: string): (r: Result<nat>)
    ensures r.Err? ==> r.error == ValueError
  {
    var d := Digits(s);
    if |d| >= 1 && IsBinDigits(d) then Ok(BinValue(d)) else Err(ValueError)
  }

  /** The w-digit binary numeral of v (bin(v) without its prefix, padded or cut to w digits). */
  function ToBin(v: nat, w: nat): (s: string)
    ensures |s| == w && IsBinDigits(s)
  {
    if w == 0 then "" else ToBin(v / 2, w - 1) + [BitChar(v % 2 == 1)]
  }

  /** Digit p (counted from the most significant) of a w-digit numeral for v. */
  function Bit(v: nat, w: nat, p: nat): bool
    requires p < w
  {
    (v / Pow2(w - 1 - p)) % 2 == 1
  }

  /** Reading a binary numeral and writing it back gives the same digits. */
  lemma {:induction false} BinValueToBin(d: string)
    requires IsBinDigits(d)
    ensures ToBin(BinValue(d), |d|) == d
    decreases |d|
  {
    if d != [] {
      var init := d[..|d| - 1];
      var b := if d[|d| - 1] == '1' then 1 else 0;
      assert IsBinDigits(init) by {
        assert forall i :: 0 <= i < |init| ==> init[i] == d[i];
      }
      BinValueToBin(init);
      DivUnique(2 * BinValue(init) + b, 2, BinValue(init), b);
      assert d == init + [d[|d| - 1]];
    }
  }

  /** Writing v < 2^w as w digits and reading them gives v back. */
  lemma {:induction false} ToBinBinValue(v: nat, w: nat)
    requires v < Pow2(w)
    ensures BinValue(ToBin(v, w)) == v
    decreases w
  {
    if w > 0 {
      DivUnique(v, 2, v / 2, v % 2);
      ToBinBinValue(v / 2, w - 1);
      var s := ToBin(v, w);
      assert s[..|s| - 1] == ToBin(v / 2, w - 1);
    }
  }

  /** Two successive divisions are one division by the product. */
  lemma DivTwice(a: nat, p: nat, q: nat)
    requires p > 0 && q > 0
    ensures a / p / q == a / (p * q)
  {
    var q1, r1 := a / p, a % p;
    var q2, r2 := q1 / q, q1 % q;
    assert a == q2 * (p * q) + (r2 * p + r1) by {
      assert a == q1 * p + r1;
      assert q1 == q2 * q + r2;
    }
    assert r2 * p + r1 < p * q by {
      MulMonotone(r2, q - 1, p);
    }
    MulNonNegative(r2, p);
    DivUnique(a, p * q, q2, r2 * p + r1);
  }

  /** Digit p of ToBin(v, w) is bit w - 1 - p of v. */
  lemma {:induction false} ToBinAt(v: nat, w: nat, p: nat)
    requires p < w
    ensures ToBin(v, w)[p] == BitChar(Bit(v, w, p))
    decreases w
  {
    if p < w - 1 {
      ToBinAt(v / 2, w - 1, p);
      DivTwice(v, 2, Pow2(w - 2 - p));
      assert Pow2(w - 1 - p) == 2 * Pow2(w - 2 - p);
    }
  }

  /** Digit p of a binary numeral is bit |d| - 1 - p of its value. */
  lemma BinValueBit(d: string, p: nat)
    requires IsBinDigits(d) && p < |d|
    ensures Bit(BinValue(d), |d|, p) <==> d[p] == '1'
  {
    BinValueToBin(d);
    ToBinAt(BinValue(d), |d|, p);
  }

  /**
   * The number int(digest, 2): with at least one pair it parses and is below
   * 2^(|rows| * |cols|); with no pairs the parse raises ValueError.
   */
  lemma DigestValue(rows: seq<bool>, cols: seq<bool>)
    ensures |rows| * |cols| == 0 ==> ParseBin(BinStr(rows, cols)) == Err(ValueError)
    ensures |rows| * |cols| >= 1 ==> ParseBin(BinStr(rows, cols)) == Ok(BinValue(Bits(Product(rows, cols))))
    ensures |rows| * |cols| >= 1 ==> ParseBin(BinStr(rows, cols)).value < Pow2(|rows| * |cols|)
  {
    ProductLength(rows, cols);
    assert Digits(BinStr(rows, cols)) == Bits(Product(rows, cols));
  }

  /** Binary digit i * |cols| + j of int(digest, 2), counted from the most significant, is set exactly when rows[i] == cols[j]. */
  lemma DigestBit(rows: seq<bool>, cols: seq<bool>, i: nat, j: nat)
    requires i < |rows| && j < |cols|
    ensures ParseBin(BinStr(rows, cols)).Ok?
    ensures 0 <= i * |cols| + j < |rows| * |cols|
    ensures Bit(ParseBin(BinStr(rows, cols)).value, |rows| * |cols|, i * |cols| + j) <==> rows[i] == cols[j]
  {
    var bits := Bits(Product(rows, cols));
    var p := i * |cols| + j;
    MulNonNegative(i, |cols|);
    assert p < |bits| && (bits[p] == '1' <==> rows[i] == cols[j]) by {
      ProductAt(rows, cols, i, j);
    }
    assert |bits| == |rows| * |cols| && IsBinDigits(bits) by {
      ProductLength(rows, cols);
    }
    DigestValue(rows, cols);
    BinValueBit(bits, p);
  }

  /** Every entry of a boolean vector flipped (the ensures lists the entries for callers' quantifiers). */
  function Negate(bs: seq<bool>): (r: seq<bool>)
    ensures |r| == |bs| && forall i :: 0 <= i < |bs| ==> r[i] == !bs[i]
  {
    seq(|bs|, i requires 0 <= i < |bs| => !bs[i])
  }

  /** Two pair sequences that agree on which pairs are equal give the same digits. */
  lemma BitsAgree(p1: seq<(bool, bool)>, p2: seq<(bool, bool)>)
    requires |p1| == |p2|
    requires forall k :: 0 <= k < |p1| ==> (p1[k].0 == p1[k].1) == (p2[k].0 == p2[k].1)
    ensures Bits(p1) == Bits(p2)
  {
  }

  /** Flipping both vectors flips both members of every pair of the product. */
  lemma {:induction false} ProductNegate(xs: seq<bool>, ys: seq<bool>)
    ensures |Product(Negate(xs), Negate(ys))| == |Product(xs, ys)|
    ensures forall k :: 0 <= k < |Product(xs, ys)| ==>
      Product(Negate(xs), Negate(ys))[k] == (!Product(xs, ys)[k].0, !Product(xs, ys)[k].1)
    decreases |xs|
  {
    if xs != [] {
      assert Negate(xs)[1..] == Negate(xs[1..]);
      ProductNegate(xs[1..], ys);
    }
  }

  /**
   * The digest only records which pairs agree, so flipping every row and every column
   * value leaves it unchanged: of the 2^14 possible vector pairs at most 2^13 digests arise.
   */
  lemma DigestComplement(rows: seq<bool>, cols: seq<bool>)
    ensures BinStr(Negate(rows), Negate(cols)) == BinStr(rows, cols)
  {
    ProductNegate(rows, cols);
    BitsAgree(Product(rows, cols), Product(Negate(rows), Negate(cols)));
  }

  /** Every pair of the product draws its members from xs and ys. */
  lemma {:induction false} ProductIn<T, U>(xs: seq<T>, ys: seq<U>)
    ensures forall k :: 0 <= k < |Product(xs, ys)| ==> Product(xs, ys)[k].0 in xs && Product(xs, ys)[k].1 in ys
    decreases |xs|
  {
    if xs != [] {
      ProductIn(xs[1..], ys);
      assert forall x :: x in xs[1..] ==> x in xs;
    }
  }

  /** Every row value equals every column value, as for an image of one uniform shade. */
  predicate AllAgree(rows: seq<bool>, cols: seq<bool>) {
    forall i, j :: 0 <= i < |rows| && 0 <= j < |cols| ==> rows[i] == cols[j]
  }

  /** A numeral of w ones has the value 2^w - 1. */
  lemma {:induction false} OnesValue(d: string)
    requires forall i :: 0 <= i < |d| ==> d[i] == '1'
    ensures BinValue(d) == Pow2(|d|) - 1
    decreases |d|
  {
    if d != [] {
      OnesValue(d[..|d| - 1]);
    }
  }

  /**
   * When every row value equals every column value (a uniform image, say) every digit is
   * '1' and the digest is the largest one, 2^(|rows| * |cols|) - 1.
   */
  lemma DigestAllAgree(rows: seq<bool>, cols: seq<bool>)
    requires |rows| * |cols| >= 1
    requires AllAgree(rows, cols)
    ensures ParseBin(BinStr(rows, cols)) == Ok(Pow2(|rows| * |cols|) - 1)
  {
    AgreeOnes(rows, cols);
    OnesDigest(rows, cols);
  }

  /** A digest of ones only is read as the largest value of its width. */
  lemma OnesDigest(rows: seq<bool>, cols: seq<bool>)
    requires |rows| * |cols| >= 1
    requires forall p :: 0 <= p < |Bits(Product(rows, cols))| ==> Bits(Product(rows, cols))[p] == '1'
    ensures ParseBin(BinStr(rows, cols)) == Ok(Pow2(|rows| * |cols|) - 1)
  {
    var bits := Bits(Product(rows, cols));
    assert |bits| == |rows| * |cols| by {
      ProductLength(rows, cols);
    }
    assert BinValue(bits) == Pow2(|bits|) - 1 by {
      OnesValue(bits);
    }
    assert ParseBin(BinStr(rows, cols)) == Ok(BinValue(bits)) by {
      DigestValue(rows, cols);
    }
  }

  /** When every row value equals every column value every digit of the join is '1'. */
  lemma AgreeOnes(rows: seq<bool>, cols: seq<bool>)
    requires AllAgree(rows, cols)
    ensures forall p :: 0 <= p < |Bits(Product(rows, cols))| ==> Bits(Product(rows, cols))[p] == '1'
  {
    var pairs := Product(rows, cols);
    ProductIn(rows, cols);
    forall p | 0 <= p < |pairs| ensures pairs[p].0 == pairs[p].1 {
      var i :| 0 <= i < |rows| && rows[i] == pairs[p].0;
      var j :| 0 <= j < |cols| && cols[j] == pairs[p].1;
    }
  }
}
