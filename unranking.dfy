/**
 * _get_ith_comb: the idx-th k-combination of range(n) in itertools order, found with the
 * combinatorial number system on the complementary rank above = C(n, k) - 1 - idx.
 * Scan and Greedy say what the source's loops compute; GetIthComb is the loop itself.
 */
module Unranking {
  import opened Results
  import opened Binomial
  import opened Combinations

  /** x qualifies in the scan: the pair (x, comb(x, k_p)) passes the test below <= above. */
  predicate Candidate(x: nat, kp: nat, above: int) {
    Comb(x, kp) <= above
  }

  /** The scan of one iteration: the largest x < np with C(x, kp) <= above, or none. */
  function Scan(np: nat, kp: nat, above: int): (r: Option<nat>)
    ensures r.Some? ==> r.value < np
  {
    if np == 0 then None
    else if Candidate(np - 1, kp, above) then Some(np - 1)
    else Scan(np - 1, kp, above)
  }

  /** The kp iterations still to run, from the loop state (np, kp, above); n is the original n. */
  function Greedy(n: nat, np: nat, kp: nat, above: int): Result<seq<int>>
    requires np <= n
    decreases kp
  {
    if kp == 0 then Ok([])
    else match Scan(np, kp, above)
      case None => Err(StopIteration)
      case Some(x) =>
        match Greedy(n, x, kp - 1, above - Comb(x, kp))
        case Err(e) => Err(e)
        case Ok(rest) => Ok([n - 1 - x] + rest)
  }

  /** What _get_ith_comb(n, k, idx) returns or raises. */
  function Unrank(n: int, k: int, idx: int): (r: Result<seq<int>>)
    ensures n < 0 || k < 0 ==> r == Err(ValueError)
  {
    if n < 0 || k < 0 then Err(ValueError)
    else Greedy(n, n, k, Comb(n, k) - 1 - idx)
  }

  /** The scan finds the largest candidate below np, and finds none only when there is none. */
  lemma {:induction false} ScanSpec(np: nat, kp: nat, above: int)
    ensures Scan(np, kp, above).Some? ==> Scan(np, kp, above).value < np && Candidate(Scan(np, kp, above).value, kp, above)
    ensures Scan(np, kp, above).Some? ==> forall y: nat :: Scan(np, kp, above).value < y < np ==> !Candidate(y, kp, above)
    ensures Scan(np, kp, above).None? ==> forall y: nat :: y < np ==> !Candidate(y, kp, above)
    decreases np
  {
    if np > 0 && !Candidate(np - 1, kp, above) {
      ScanSpec(np - 1, kp, above);
    }
  }

  /** A candidate x < np with no candidate above it is what the scan finds. */
  lemma {:induction false} ScanIs(np: nat, kp: nat, above: int, x: nat)
    requires x < np && Candidate(x, kp, above)
    requires forall y: nat :: x < y < np ==> !Candidate(y, kp, above)
    ensures Scan(np, kp, above) == Some(x)
    decreases np
  {
    if x < np - 1 {
      ScanIs(np - 1, kp, above, x);
    }
  }

  /** With no candidate below np the scan finds nothing. */
  lemma {:induction false} ScanNone(np: nat, kp: nat, above: int)
    requires forall y: nat :: y < np ==> !Candidate(y, kp, above)
    ensures Scan(np, kp, above) == None
    decreases np
  {
    if np > 0 {
      ScanNone(np - 1, kp, above);
    }
  }

  /** Whatever the rank, a combination the greedy construction returns is ascending in [n - np, n). */
  lemma {:induction false} GreedySound(n: nat, np: nat, kp: nat, above: int)
    requires np <= n
    ensures Greedy(n, np, kp, above).Ok? ==> kp <= np && IsComb(Greedy(n, np, kp, above).value, n - np, n, kp)
    ensures Greedy(n, np, kp, above).Err? ==> Greedy(n, np, kp, above).error == StopIteration
    decreases kp
  {
    if kp > 0 && Scan(np, kp, above).Some? {
      var x := Scan(np, kp, above).value;
      GreedySound(n, x, kp - 1, above - Comb(x, kp));
      var g := Greedy(n, x, kp - 1, above - Comb(x, kp));
      if g.Ok? {
        ConsIsComb(n - 1 - x, g.value, n - np, n, kp - 1);
      }
    }
  }

  /** Every combination _get_ith_comb returns, for any idx, lies in range(n) in ascending order. */
  lemma UnrankSound(n: int, k: int, idx: int)
    ensures Unrank(n, k, idx).Ok? ==> 0 <= k <= n && IsComb(Unrank(n, k, idx).value, 0, n, k)
    ensures Unrank(n, k, idx).Err? ==> Unrank(n, k, idx).error == (if n < 0 || k < 0 then ValueError else StopIteration)
  {
    if n >= 0 && k >= 0 { GreedySound(n, n, k, Comb(n, k) - 1 - idx); }
  }

  /** When 0 <= above < C(np, kp) the scan finds a candidate, since C(0, kp) == 0 <= above. */
  lemma ScanFinds(np: nat, kp: nat, above: int)
    requires 1 <= kp && 0 <= above < Comb(np, kp)
    ensures Scan(np, kp, above).Some?
  {
    CombZero(np, kp);
    CombZero(0, kp);
    assert Candidate(0, kp, above);
    ScanSpec(np, kp, above);
  }

  /** The arithmetic of one scan: where the candidate x sits relative to the split of Lex. */
  lemma ScanRank(np: nat, kp: nat, above: int, x: nat)
    requires 1 <= kp && 0 <= above < Comb(np, kp) && Scan(np, kp, above) == Some(x)
    ensures 0 <= above - Comb(x, kp) < Comb(x, kp - 1)
    ensures x == np - 1 ==> Comb(np, kp) - 1 - above == Comb(x, kp - 1) - 1 - (above - Comb(x, kp)) < Comb(np - 1, kp - 1)
    ensures x < np - 1 ==> 0 <= above < Comb(np - 1, kp) && Comb(np, kp) - 1 - above >= Comb(np - 1, kp - 1)
    ensures x < np - 1 ==> Comb(np - 1, kp) - 1 - above == Comb(np, kp) - 1 - above - Comb(np - 1, kp - 1)
  {
    ScanSpec(np, kp, above);
    assert Comb(x + 1, kp) == Comb(x, kp - 1) + Comb(x, kp);
    if x + 1 < np {
      assert !Candidate(x + 1, kp, above);
    }
    assert Comb(np, kp) == Comb(np - 1, kp - 1) + Comb(np - 1, kp);
    if x < np - 1 {
      assert !Candidate(np - 1, kp, above);
    }
  }

  /**
   * The candidate x of one scan, when 0 <= above < C(np, kp): the rank stays in range for the
   * next iteration, and the combination at the complementary rank is n - 1 - x followed by the
   * combination at the updated rank among the combinations of the last x elements.
   */
  lemma {:induction false} ScanStep(n: nat, np: nat, kp: nat, above: int, x: nat)
    requires np <= n && 1 <= kp && 0 <= above < Comb(np, kp) && Scan(np, kp, above) == Some(x)
    ensures 0 <= above - Comb(x, kp) < Comb(x, kp - 1)
    ensures Nth(n, np, kp, Comb(np, kp) - 1 - above)
         == [n - 1 - x] + Nth(n, x, kp - 1, Comb(x, kp - 1) - 1 - (above - Comb(x, kp)))
    decreases np
  {
    ScanRank(np, kp, above, x);
    if x < np - 1 {
      assert Scan(np - 1, kp, above) == Some(x);
      ScanStep(n, np - 1, kp, above, x);
    }
  }

  /** For a rank in range, the greedy construction yields the combination at that rank. */
  lemma {:induction false} GreedyInRange(n: nat, np: nat, kp: nat, above: int)
    requires np <= n && 0 <= above < Comb(np, kp)
    ensures Greedy(n, np, kp, above) == Ok(Nth(n, np, kp, Comb(np, kp) - 1 - above))
    decreases kp
  {
    if kp > 0 {
      ScanFinds(np, kp, above);
      var x := Scan(np, kp, above).value;
      ScanStep(n, np, kp, above, x);
      GreedyInRange(n, x, kp - 1, above - Comb(x, kp));
    }
  }

  /** A negative complementary rank (idx >= C(n, k)) leaves no candidate: next raises. */
  lemma GreedyBelow(n: nat, np: nat, kp: nat, above: int)
    requires np <= n && 1 <= kp && above < 0
    ensures Greedy(n, np, kp, above) == Err(StopIteration)
  {
    ScanNone(np, kp, above);
  }

  /**
   * A complementary rank at or past C(np, kp) (idx < 0) makes every scan stop at its first
   * candidate np - 1: the result is the smallest combination, or next raises once np runs out.
   */
  lemma {:induction false} GreedyAbove(n: nat, np: nat, kp: nat, above: int)
    requires np <= n && above >= Comb(np, kp)
    ensures kp <= np ==> Greedy(n, np, kp, above) == Ok(Range(n - np, n - np + kp))
    ensures kp > np ==> Greedy(n, np, kp, above) == Err(StopIteration)
    decreases kp
  {
    if kp > 0 && np > 0 {
      CombStep(np - 1, kp);
      assert Scan(np, kp, above) == Some(np - 1);
      GreedyAbove(n, np - 1, kp - 1, above - Comb(np - 1, kp));
      if kp <= np {
        RangeCons(n - np, n - np + kp);
      }
    }
  }

  /** For idx in [0, C(n, k)) the result is entry idx of the itertools order. */
  lemma UnrankInRange(n: nat, k: nat, idx: int)
    requires 0 <= idx < Comb(n, k)
    ensures Unrank(n, k, idx) == Ok(Lex(n, n, k)[idx])
  {
    UnrankNth(n, k, idx);
    NthIsLex(n, n, k, idx);
  }

  lemma UnrankNth(n: nat, k: nat, idx: int)
    requires 0 <= idx < Comb(n, k)
    ensures Unrank(n, k, idx) == Ok(Nth(n, n, k, idx))
  {
    var above := Comb(n, k) - 1 - idx;
    assert Comb(n, k) - 1 - above == idx;
    GreedyInRange(n, n, k, above);
  }

  /**
   * The whole behaviour of _get_ith_comb: the combination at position idx of the
   * itertools order when idx is in range, [] for k = 0, [0, ..., k-1] for a negative idx,
   * StopIteration for idx >= C(n, k) or k > n, and ValueError for a negative n or k.
   */
  lemma UnrankSpec(n: int, k: int, idx: int)
    ensures n < 0 || k < 0 ==> Unrank(n, k, idx) == Err(ValueError)
    ensures n >= 0 && k == 0 ==> Unrank(n, k, idx) == Ok([])
    ensures 0 <= k <= n && 0 <= idx < Comb(n, k) ==> Unrank(n, k, idx) == Ok(Lex(n, n, k)[idx])
    ensures n >= 0 && k >= 1 && idx >= Comb(n, k) ==> Unrank(n, k, idx) == Err(StopIteration)
    ensures 0 <= k <= n && idx < 0 ==> Unrank(n, k, idx) == Ok(Range(0, k))
    ensures 0 <= n < k ==> Unrank(n, k, idx) == Err(StopIteration)
  {
    if n >= 0 && k >= 1 {
      if n < k {
        UnrankTooFew(n, k, idx);
      } else if idx >= Comb(n, k) {
        UnrankPast(n, k, idx);
      } else if idx >= 0 {
        UnrankInRange(n, k, idx);
      } else {
        UnrankNegative(n, k, idx);
      }
    }
  }

  /** An idx at or past C(n, k) makes above negative, and the first scan finds nothing. */
  lemma UnrankPast(n: nat, k: nat, idx: int)
    requires k >= 1 && idx >= Comb(n, k)
    ensures Unrank(n, k, idx) == Err(StopIteration)
  {
    var above := Comb(n, k) - 1 - idx;
    assert above < 0;
    GreedyBelow(n, n, k, above);
  }

  /** With fewer than k elements some scan runs out of candidates. */
  lemma UnrankTooFew(n: nat, k: nat, idx: int)
    requires n < k
    ensures Unrank(n, k, idx) == Err(StopIteration)
  {
    var above := Comb(n, k) - 1 - idx;
    CombZero(n, k);
    if above < 0 { GreedyBelow(n, n, k, above); } else { GreedyAbove(n, n, k, above); }
  }

  /** A negative idx makes above at least C(n, k): every scan takes its first x. */
  lemma UnrankNegative(n: nat, k: nat, idx: int)
    requires k <= n && idx < 0
    ensures Unrank(n, k, idx) == Ok(Range(0, k))
  {
    GreedyAbove(n, n, k, Comb(n, k) - 1 - idx);
  }

  lemma {:induction false} GreedyTop(n: nat, np: nat, kp: nat)
    requires kp <= np <= n
    ensures Greedy(n, np, kp, Comb(np, kp) - 1) == Ok(Range(n - np, n - np + kp))
    decreases kp
  {
    if kp > 0 {
      CombZero(np - 1, kp - 1);
      assert Scan(np, kp, Comb(np, kp) - 1) == Some(np - 1);
      GreedyTop(n, np - 1, kp - 1);
      RangeCons(n - np, n - np + kp);
    }
  }

  lemma {:induction false} GreedyZero(n: nat, np: nat, kp: nat)
    requires kp <= np <= n
    ensures Greedy(n, np, kp, 0) == Ok(Range(n - kp, n))
    decreases kp
  {
    if kp > 0 {
      CombZero(kp - 1, kp);
      forall y: nat | kp - 1 < y < np ensures !Candidate(y, kp, 0) { CombZero(y, kp); }
      ScanIs(np, kp, 0, kp - 1);
      GreedyZero(n, kp - 1, kp - 1);
      RangeCons(n - kp, n);
    }
  }

  /** Position 0 is [0, ..., k-1] and position C(n, k) - 1 is [n-k, ..., n-1]. */
  lemma UnrankBoundaries(n: nat, k: nat)
    requires k <= n
    ensures Unrank(n, k, 0) == Ok(Range(0, k))
    ensures Unrank(n, k, Comb(n, k) - 1) == Ok(Range(n - k, n))
  {
    GreedyTop(n, n, k);
    GreedyZero(n, n, k);
  }

  /**
   * Unrank(n, k, .) is a bijection from [0, C(n, k)) onto the ascending k-combinations of
   * range(n), and it preserves order: a smaller idx gives a smaller tuple.
   */
  lemma UnrankBijection(n: nat, k: nat)
    requires k <= n
    ensures forall idx :: 0 <= idx < Comb(n, k) ==> Unrank(n, k, idx).Ok?
    ensures forall i, j :: 0 <= i < j < Comb(n, k) ==> LexLess(Unrank(n, k, i).value, Unrank(n, k, j).value)
    ensures forall i, j :: 0 <= i < j < Comb(n, k) ==> Unrank(n, k, i) != Unrank(n, k, j)
    ensures forall c :: IsComb(c, 0, n, k) ==> exists idx :: 0 <= idx < Comb(n, k) && Unrank(n, k, idx) == Ok(c)
  {
    forall idx | 0 <= idx < Comb(n, k) ensures Unrank(n, k, idx) == Ok(Lex(n, n, k)[idx]) {
      UnrankSpec(n, k, idx);
    }
    LexSorted(n, n, k);
    forall i, j | 0 <= i < j < Comb(n, k) ensures Unrank(n, k, i) != Unrank(n, k, j) {
      LexInjective(n, n, k, i, j);
    }
    forall c | IsComb(c, 0, n, k) ensures exists idx :: 0 <= idx < Comb(n, k) && Unrank(n, k, idx) == Ok(c) {
      var t := LexComplete(n, n, k, c);
      assert Unrank(n, k, t) == Ok(c);
    }
  }

  /** Prefix a partial result with the elements already emitted. */
  function Prefixed(emitted: seq<int>, r: Result<seq<int>>): Result<seq<int>> {
    match r
    case Err(e) => Err(e)
    case Ok(s) => Ok(emitted + s)
  }

  /** One iteration of the outer loop moves n - 1 - x from the pending part to the emitted part. */
  lemma GreedyStep(n: nat, np: nat, kp: nat, above: int, x: nat, emitted: seq<int>)
    requires np <= n && 1 <= kp && Scan(np, kp, above) == Some(x)
    ensures Prefixed(emitted, Greedy(n, np, kp, above))
         == Prefixed(emitted + [n - 1 - x], Greedy(n, x, kp - 1, above - Comb(x, kp)))
  {
    match Greedy(n, x, kp - 1, above - Comb(x, kp)) {
      case Ok(s) => assert emitted + ([n - 1 - x] + s) == (emitted + [n - 1 - x]) + s;
      case Err(_) =>
    }
  }

  /** _get_ith_comb as the source writes it: the outer for loop and the downward scan. */
  method GetIthComb(n: int, k: int, idx: int) returns (r: Result<seq<int>>)
    ensures r == Unrank(n, k, idx)
    ensures 0 <= k <= n && 0 <= idx < Comb(n, k) ==> r == Ok(Lex(n, n, k)[idx])
  {
    if n < 0 || k < 0 {
      return Err(ValueError);
    }
    UnrankSpec(n, k, idx);
    var result: seq<int> := [];
    var np: nat := n;
    var kp: nat := k;
    var above := Comb(n, k) - 1 - idx;
    match Greedy(n, n, k, above) {
      case Ok(s) => assert [] + s == s;
      case Err(_) =>
    }
    for i := 0 to k
      invariant kp == k - i && np <= n && |result| == i
      invariant Unrank(n, k, idx) == Prefixed(result, Greedy(n, np, kp, above))
    {
      var x := np - 1;
      while 0 <= x && !Candidate(x, kp, above)
        invariant -1 <= x < np
        invariant forall y: nat :: x < y < np ==> !Candidate(y, kp, above)
        decreases x + 1
      {
        x := x - 1;
      }
      if x < 0 {
        ScanNone(np, kp, above);
        return Err(StopIteration);
      }
      ScanIs(np, kp, above, x);
      GreedyStep(n, np, kp, above, x, result);
      result := result + [n - 1 - x];
      above := above - Comb(x, kp);
      np := x;
      kp := kp - 1;
    }
    r := Ok(result);
    assert result + [] == result;
  }

  /** A worked example: entry 4 of the 2-combinations of range(5) is (1, 2). */
  lemma UnrankExample()
    ensures Unrank(5, 2, 4) == Ok([1, 2])
  {
    assert Comb(5, 2) == 10 && Comb(4, 2) == 6 && Comb(3, 2) == 3 && Comb(2, 1) == 2;
    ScanIs(5, 2, 5, 3);
    ScanIs(3, 1, 2, 2);
    assert Greedy(5, 2, 0, 0) == Ok([]);
    assert [5 - 1 - 2] + [] == [2];
    assert Greedy(5, 3, 1, 2) == Ok([2]);
    assert [5 - 1 - 3] + [2] == [1, 2];
  }

  /** The last of the ten 2-combinations of range(5) is (3, 4). */
  lemma UnrankExampleLast()
    ensures Unrank(5, 2, 9) == Ok([3, 4])
  {
    assert Comb(5, 2) == 10;
    UnrankBoundaries(5, 2);
    assert Range(3, 5) == [3, 4];
  }
}
