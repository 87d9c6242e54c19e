/**
 * The top of the pipeline: _pick_sp500_symbols indexes the label list with a combination,
 * _get_number_from_image turns the two thresholded vectors into a choice in
 * [0, num_choices), and _pick_stocks puts the two together with
 * num_choices = C(len(labels), N_PICKS). The label list is a parameter here.
 */
module Divine {
  import opened Results
  import opened Arithmetic
  import opened Binomial
  import opened Combinations
  import opened Unranking
  import opened Digest
  import opened Interpolation

  /** The number of labels picked. */
  const N_PICKS: nat := 4

  /** [universe[i] for i in c]. */
  function Select(universe: seq<string>, c: seq<int>): (r: seq<string>)
    requires forall i :: 0 <= i < |c| ==> 0 <= c[i] < |universe|
    ensures |r| == |c|
  {
    seq(|c|, i requires 0 <= i < |c| => universe[c[i]])
  }

  predicate Distinct(s: seq<string>) {
    forall i, j :: 0 <= i < j < |s| ==> s[i] != s[j]
  }

  /**
   * The list comprehension of _pick_sp500_symbols with the number of picks k as a
   * parameter: the labels at the positions of the choice-th k-combination.
   */
  function Pick(universe: seq<string>, k: nat, choice: int): (r: Result<seq<string>>)
    ensures r.Ok? ==> |universe| >= k && |r.value| == k
    ensures r.Ok? ==> forall s :: s in r.value ==> s in universe
    ensures r.Err? ==> r.error == StopIteration
  {
    UnrankSound(|universe|, k, choice);
    match Unrank(|universe|, k, choice)
    case Err(e) => Err(e)
    case Ok(c) => Ok(Select(universe, c))
  }

  /** _pick_sp500_symbols(choice), with the label list as a parameter. */
  function PickSymbols(universe: seq<string>, choice: int): Result<seq<string>> {
    Pick(universe, N_PICKS, choice)
  }

  /**
   * For a choice in [0, C(n, k)) the pick is the labels at the choice-th combination of
   * itertools.combinations(range(n), k); a choice at or past C(n, k) with k >= 1, or fewer
   * than k labels, raises StopIteration; a negative choice picks the first k labels.
   */
  lemma PickSpec(universe: seq<string>, k: nat, choice: int)
    ensures 0 <= choice < Comb(|universe|, k) ==> IsComb(Lex(|universe|, |universe|, k)[choice], 0, |universe|, k)
    ensures 0 <= choice < Comb(|universe|, k) ==>
      Pick(universe, k, choice) == Ok(Select(universe, Lex(|universe|, |universe|, k)[choice]))
    ensures k >= 1 && choice >= Comb(|universe|, k) ==> Pick(universe, k, choice) == Err(StopIteration)
    ensures |universe| < k ==> Pick(universe, k, choice) == Err(StopIteration)
    ensures |universe| >= k && choice < 0 ==> Pick(universe, k, choice) == Ok(universe[..k])
  {
    var n := |universe|;
    CombZero(n, k);
    UnrankSpec(n, k, choice);
    if 0 <= choice < Comb(n, k) {
      LexSound(n, n, k);
      assert IsComb(Lex(n, n, k)[choice], 0, n, k);
    }
    if n >= k && choice < 0 {
      assert Select(universe, Range(0, k)) == universe[..k];
    }
  }

  /** The last choice in range picks the last k labels. */
  lemma PickLast(universe: seq<string>, k: nat)
    requires |universe| >= k
    ensures Pick(universe, k, Comb(|universe|, k) - 1) == Ok(universe[|universe| - k..])
  {
    var n := |universe|;
    UnrankBoundaries(n, k);
    assert Select(universe, Range(n - k, n)) == universe[n - k..];
  }

  /** The last choice in range picks the last N_PICKS labels. */
  lemma PickSymbolsLast(universe: seq<string>)
    requires |universe| >= N_PICKS
    ensures PickSymbols(universe, Comb(|universe|, N_PICKS) - 1) == Ok(universe[|universe| - N_PICKS..])
  {
    PickLast(universe, N_PICKS);
  }

  /** Distinct labels give distinct picks, since a combination never repeats a position. */
  lemma PickDistinct(universe: seq<string>, k: nat, choice: int)
    requires Distinct(universe)
    ensures Pick(universe, k, choice).Ok? ==> Distinct(Pick(universe, k, choice).value)
  {
    UnrankSound(|universe|, k, choice);
  }

  /** Every set of k positions, listed in ascending order, is picked by exactly one choice in range. */
  lemma PickOnto(universe: seq<string>, k: nat, c: seq<int>) returns (choice: int)
    requires IsComb(c, 0, |universe|, k)
    ensures 0 <= choice < Comb(|universe|, k)
    ensures Pick(universe, k, choice) == Ok(Select(universe, c))
    ensures forall other :: 0 <= other < Comb(|universe|, k) && other != choice ==>
      Unrank(|universe|, k, other) != Ok(c)
  {
    var n := |universe|;
    choice := LexComplete(n, n, k, c);
    CombZero(n, k);
    UnrankSpec(n, k, choice);
    UnrankBijection(n, k);
    forall other | 0 <= other < Comb(n, k) && other != choice
      ensures Unrank(n, k, other) != Ok(c)
    {
      if other < choice {
        assert Unrank(n, k, other) != Unrank(n, k, choice);
      } else {
        assert Unrank(n, k, choice) != Unrank(n, k, other);
      }
    }
  }

  /** _get_number_from_image(path, num_choices), from the thresholded row and column vectors. */
  function GetNumberFromImage(rows: seq<bool>, cols: seq<bool>, numChoices: int): Result<int> {
    Interp49Bit(BinStr(rows, cols), numChoices)
  }

  /** With SR_BITS samples per side the number is the scaled digest and lies in [0, num_choices). */
  lemma GetNumberRange(rows: seq<bool>, cols: seq<bool>, numChoices: int)
    requires |rows| == SR_BITS && |cols| == SR_BITS
    ensures GetNumberFromImage(rows, cols, numChoices).Ok?
    ensures ParseBin(BinStr(rows, cols)).Ok? && ParseBin(BinStr(rows, cols)).value < Pow2(DIGEST_BITS)
    ensures GetNumberFromImage(rows, cols, numChoices).value == Scale(ParseBin(BinStr(rows, cols)).value, numChoices)
    ensures numChoices >= 1 ==> 0 <= GetNumberFromImage(rows, cols, numChoices).value < numChoices
    ensures numChoices == 0 ==> GetNumberFromImage(rows, cols, numChoices).value == 0
  {
    DigestValue(rows, cols);
    var d := ParseBin(BinStr(rows, cols)).value;
    if numChoices >= 1 {
      ScaleRange(d, numChoices);
    } else if numChoices == 0 {
      assert d * numChoices == 0;
      DivUnique(0, Pow2(DIGEST_BITS), 0, 0);
    }
  }

  /** _pick_stocks(path) with the number of picks k as a parameter. */
  function PickFromImage(universe: seq<string>, k: nat, rows: seq<bool>, cols: seq<bool>): Result<seq<string>> {
    match GetNumberFromImage(rows, cols, Comb(|universe|, k))
    case Err(e) => Err(e)
    case Ok(choice) => Pick(universe, k, choice)
  }

  /** _pick_stocks(path): N_PICKS labels chosen by the image. */
  function PickStocks(universe: seq<string>, rows: seq<bool>, cols: seq<bool>): Result<seq<string>> {
    PickFromImage(universe, N_PICKS, rows, cols)
  }

  /**
   * With SR_BITS samples per side: at least k labels always give k labels from the list,
   * namely those at the combination whose index is the scaled digest, distinct when the
   * list is; with k >= 1, fewer labels raise StopIteration.
   */
  lemma PickFromImageSpec(universe: seq<string>, k: nat, rows: seq<bool>, cols: seq<bool>)
    requires |rows| == SR_BITS && |cols| == SR_BITS
    ensures |universe| < k ==> PickFromImage(universe, k, rows, cols) == Err(StopIteration)
    ensures |universe| >= k ==> PickFromImage(universe, k, rows, cols).Ok?
    ensures |universe| >= k ==> |PickFromImage(universe, k, rows, cols).value| == k
    ensures |universe| >= k ==> forall s :: s in PickFromImage(universe, k, rows, cols).value ==> s in universe
    ensures |universe| >= k && Distinct(universe) ==> Distinct(PickFromImage(universe, k, rows, cols).value)
    ensures |universe| >= k ==>
      PickFromImage(universe, k, rows, cols)
      == Pick(universe, k, Scale(ParseBin(BinStr(rows, cols)).value, Comb(|universe|, k)))
  {
    var n := |universe|;
    var numChoices := Comb(n, k);
    GetNumberRange(rows, cols, numChoices);
    var choice := GetNumberFromImage(rows, cols, numChoices).value;
    CombZero(n, k);
    PickSpec(universe, k, choice);
    if Distinct(universe) {
      PickDistinct(universe, k, choice);
    }
  }

  /** _pick_stocks with N_PICKS picks: the instance of PickFromImageSpec. */
  lemma PickStocksSpec(universe: seq<string>, rows: seq<bool>, cols: seq<bool>)
    requires |rows| == SR_BITS && |cols| == SR_BITS
    ensures |universe| < N_PICKS ==> PickStocks(universe, rows, cols) == Err(StopIteration)
    ensures |universe| >= N_PICKS ==> PickStocks(universe, rows, cols).Ok?
    ensures |universe| >= N_PICKS ==> |PickStocks(universe, rows, cols).value| == N_PICKS
    ensures |universe| >= N_PICKS ==> forall s :: s in PickStocks(universe, rows, cols).value ==> s in universe
    ensures |universe| >= N_PICKS && Distinct(universe) ==> Distinct(PickStocks(universe, rows, cols).value)
    ensures |universe| >= N_PICKS ==>
      PickStocks(universe, rows, cols)
      == PickSymbols(universe, Scale(ParseBin(BinStr(rows, cols)).value, Comb(|universe|, N_PICKS)))
  {
    PickFromImageSpec(universe, N_PICKS, rows, cols);
  }

  /** Flipping every row and column value picks the same labels. */
  lemma PickStocksComplement(universe: seq<string>, rows: seq<bool>, cols: seq<bool>)
    ensures PickStocks(universe, Negate(rows), Negate(cols)) == PickStocks(universe, rows, cols)
  {
    DigestComplement(rows, cols);
  }

  /** When every row value equals every column value the number is the largest choice. */
  lemma UniformNumber(rows: seq<bool>, cols: seq<bool>, numChoices: int)
    requires |rows| == SR_BITS && |cols| == SR_BITS
    requires AllAgree(rows, cols)
    requires 1 <= numChoices <= Pow2(DIGEST_BITS)
    ensures GetNumberFromImage(rows, cols, numChoices) == Ok(numChoices - 1)
  {
    DigestAllAgree(rows, cols);
    ScaleTop(numChoices);
  }

  /** When every row value equals every column value the number is the last of C(n, k) choices. */
  lemma UniformImageNumber(n: nat, k: nat, rows: seq<bool>, cols: seq<bool>)
    requires |rows| == SR_BITS && |cols| == SR_BITS
    requires AllAgree(rows, cols)
    requires k <= n && Comb(n, k) <= Pow2(DIGEST_BITS)
    ensures GetNumberFromImage(rows, cols, Comb(n, k)) == Ok(Comb(n, k) - 1)
  {
    DigestAllAgree(rows, cols);
    CombZero(n, k);
    UniformNumber(rows, cols, Comb(n, k));
  }

  /** When every row value equals every column value the pick is the last k labels. */
  lemma PickFromImageUniform(universe: seq<string>, k: nat, rows: seq<bool>, cols: seq<bool>)
    requires |rows| == SR_BITS && |cols| == SR_BITS
    requires AllAgree(rows, cols)
    requires k <= |universe| && Comb(|universe|, k) <= Pow2(DIGEST_BITS)
    ensures PickFromImage(universe, k, rows, cols) == Ok(universe[|universe| - k..])
  {
    DigestAllAgree(rows, cols);
    UniformImageNumber(|universe|, k, rows, cols);
    PickFromImageLast(universe, k, rows, cols);
  }

  /** An image whose number is the last choice in range picks the last k labels. */
  lemma PickFromImageLast(universe: seq<string>, k: nat, rows: seq<bool>, cols: seq<bool>)
    requires k <= |universe|
    requires GetNumberFromImage(rows, cols, Comb(|universe|, k)) == Ok(Comb(|universe|, k) - 1)
    ensures PickFromImage(universe, k, rows, cols) == Ok(universe[|universe| - k..])
  {
    PickLast(universe, k);
  }

  /**
   * When every row value equals every column value (as for a uniform image) the digest is
   * 2^49 - 1 and the pick is the last N_PICKS labels, provided C(n, N_PICKS) <= 2^49.
   */
  lemma PickStocksUniform(universe: seq<string>, rows: seq<bool>, cols: seq<bool>)
    requires |rows| == SR_BITS && |cols| == SR_BITS
    requires AllAgree(rows, cols)
    requires N_PICKS <= |universe| && Comb(|universe|, N_PICKS) <= Pow2(DIGEST_BITS)
    ensures PickStocks(universe, rows, cols) == Ok(universe[|universe| - N_PICKS..])
  {
    PickFromImageUniform(universe, N_PICKS, rows, cols);
  }


  /**
   * Every set of N_PICKS labels is the pick for some 49-bit digest when C(n, N_PICKS) <= 2^49:
   * the interpolation hits every choice and the unranking every combination.
   */
  lemma PickFromDigestOnto(universe: seq<string>, c: seq<int>) returns (d: int)
    requires IsComb(c, 0, |universe|, N_PICKS) && Comb(|universe|, N_PICKS) <= Pow2(DIGEST_BITS)
    ensures 0 <= d < Pow2(DIGEST_BITS)
    ensures PickSymbols(universe, Scale(d, Comb(|universe|, N_PICKS))) == Ok(Select(universe, c))
  {
    var choice := PickOnto(universe, N_PICKS, c);
    d := ScaleOnto(Comb(|universe|, N_PICKS), choice);
  }
}
