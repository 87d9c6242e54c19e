/**
 * The order in which itertools.combinations lists the k-combinations of range(n):
 * ascending tuples, in lexicographic order. Lex(n, m, k) lists the k-combinations of the
 * last m elements of range(n), that is of [n - m, n), in that order; Lex(n, n, k) is the
 * whole of itertools.combinations(range(n), k). The lemmas show that it holds every
 * ascending k-combination exactly once, sorted.
 */
module Combinations {
  import opened Binomial

  /** c is an ascending (hence duplicate-free) k-combination of the integers in [lo, hi). */
  predicate IsComb(c: seq<int>, lo: int, hi: int, k: nat) {
    && |c| == k
    && (forall i :: 0 <= i < |c| ==> lo <= c[i] < hi)
    && (forall i, j :: 0 <= i < j < |c| ==> c[i] < c[j])
  }

  /** Python's tuple comparison a < b: element by element, a proper prefix first. */
  predicate LexLess(a: seq<int>, b: seq<int>)
    decreases |a|
  {
    if |a| == 0 then |b| > 0
    else |b| > 0 && (a[0] < b[0] || (a[0] == b[0] && LexLess(a[1..], b[1..])))
  }

  /** The consecutive integers lo, lo + 1, ..., hi - 1 (the ensures lists the entries for callers' quantifiers). */
  function Range(lo: int, hi: int): (r: seq<int>)
    requires lo <= hi
    ensures |r| == hi - lo && forall i :: 0 <= i < |r| ==> r[i] == lo + i
  {
    seq(hi - lo, i requires 0 <= i < hi - lo => lo + i)
  }

  lemma RangeCons(lo: int, hi: int)
    requires lo < hi
    ensures Range(lo, hi) == [lo] + Range(lo + 1, hi)
  {
  }

  function PrependAll(x: int, ss: seq<seq<int>>): seq<seq<int>> {
    seq(|ss|, i requires 0 <= i < |ss| => [x] + ss[i])
  }

  /**
   * The k-combinations of [n - m, n) in the order itertools.combinations yields them:
   * first every combination that starts with n - m, then every one that skips it.
   */
  function Lex(n: nat, m: nat, k: nat): (r: seq<seq<int>>)
    requires m <= n
    ensures |r| == Comb(m, k)
    decreases m
  {
    if k == 0 then [[]]
    else if m == 0 then []
    else PrependAll(n - m, Lex(n, m - 1, k - 1)) + Lex(n, m - 1, k)
  }

  /** The first Comb(m - 1, k - 1) entries of Lex(n, m, k) start with n - m. */
  lemma LexAtHead(n: nat, m: nat, k: nat, idx: int)
    requires 0 < m <= n && 0 < k && 0 <= idx < Comb(m - 1, k - 1)
    ensures Lex(n, m, k)[idx] == [n - m] + Lex(n, m - 1, k - 1)[idx]
  {
    assert Lex(n, m, k) == PrependAll(n - m, Lex(n, m - 1, k - 1)) + Lex(n, m - 1, k);
  }

  /** The remaining entries of Lex(n, m, k) are those of Lex(n, m - 1, k). */
  lemma LexAtTail(n: nat, m: nat, k: nat, idx: int)
    requires 0 < m <= n && 0 < k && Comb(m - 1, k - 1) <= idx < Comb(m, k)
    ensures Lex(n, m, k)[idx] == Lex(n, m - 1, k)[idx - Comb(m - 1, k - 1)]
  {
    assert Lex(n, m, k) == PrependAll(n - m, Lex(n, m - 1, k - 1)) + Lex(n, m - 1, k);
  }

  /** Entry idx of Lex(n, m, k), found by descending one level of Lex at a time. */
  function Nth(n: nat, m: nat, k: nat, idx: int): seq<int>
    requires 0 <= idx < Comb(m, k)
    decreases m
  {
    if k == 0 || m == 0 then []
    else if idx < Comb(m - 1, k - 1) then [n - m] + Nth(n, m - 1, k - 1, idx)
    else Nth(n, m - 1, k, idx - Comb(m - 1, k - 1))
  }

  lemma {:induction false} NthIsLex(n: nat, m: nat, k: nat, idx: int)
    requires m <= n && 0 <= idx < Comb(m, k)
    ensures Lex(n, m, k)[idx] == Nth(n, m, k, idx)
    decreases m
  {
    if k > 0 && m > 0 {
      var b := Comb(m - 1, k - 1);
      if idx < b {
        NthIsLex(n, m - 1, k - 1, idx);
        NthIsLexHead(n, m, k, idx);
      } else {
        var t := idx - b;
        NthIsLex(n, m - 1, k, t);
        NthIsLexTail(n, m, k, idx, t);
      }
    }
  }

  /** Entry idx is an ascending k-combination of [n - m, n). */
  lemma {:induction false} NthSound(n: nat, m: nat, k: nat, idx: int)
    requires m <= n && 0 <= idx < Comb(m, k)
    ensures IsComb(Nth(n, m, k, idx), n - m, n, k)
    decreases m
  {
    if k > 0 && m > 0 {
      var b := Comb(m - 1, k - 1);
      if idx < b {
        NthSound(n, m - 1, k - 1, idx);
        ConsIsComb(n - m, Nth(n, m - 1, k - 1, idx), n - m, n, k - 1);
      } else {
        NthSound(n, m - 1, k, idx - b);
        WidenComb(Nth(n, m - 1, k, idx - b), n - m + 1, n - m, n, k);
      }
    }
  }

  /** An element below an ascending combination of larger elements extends it. */
  lemma ConsIsComb(h: int, t: seq<int>, lo: int, hi: int, k: nat)
    requires lo <= h < hi && IsComb(t, h + 1, hi, k)
    ensures IsComb([h] + t, lo, hi, k + 1)
  {
    var c := [h] + t;
    forall i | 0 <= i < k + 1 ensures lo <= c[i] < hi {
      if i > 0 { assert c[i] == t[i - 1]; }
    }
    forall i, j | 0 <= i < j < k + 1 ensures c[i] < c[j] {
      assert c[j] == t[j - 1];
      if i > 0 { assert c[i] == t[i - 1]; }
    }
  }

  /** A combination of [lo, hi) is also one of any wider range [lo2, hi). */
  lemma WidenComb(c: seq<int>, lo: int, lo2: int, hi: int, k: nat)
    requires lo2 <= lo && IsComb(c, lo, hi, k)
    ensures IsComb(c, lo2, hi, k)
  {
  }

  /** Every ascending k-combination c of [n - m, n) is entry t for some t in range. */
  lemma {:induction false} NthComplete(n: nat, m: nat, k: nat, c: seq<int>) returns (t: int)
    requires m <= n && IsComb(c, n - m, n, k)
    ensures 0 <= t < Comb(m, k) && Nth(n, m, k, t) == c
    decreases m
  {
    if k == 0 {
      assert c == [];
      t := 0;
    } else {
      assert n - m <= c[0] < n;
      var b := Comb(m - 1, k - 1);
      if c[0] == n - m {
        TailIsComb(c, n - m, n, k);
        t := NthComplete(n, m - 1, k - 1, c[1..]);
        assert [n - m] + c[1..] == c;
      } else {
        ShiftIsComb(c, n - m, n, k);
        var u := NthComplete(n, m - 1, k, c);
        t := b + u;
      }
    }
  }

  /** A smaller position holds a smaller combination in tuple order. */
  lemma {:induction false} NthSorted(n: nat, m: nat, k: nat, s: int, t: int)
    requires m <= n && 0 <= s < t < Comb(m, k)
    ensures LexLess(Nth(n, m, k, s), Nth(n, m, k, t))
    decreases m
  {
    var b := Comb(m - 1, k - 1);
    if t < b {
      NthSorted(n, m - 1, k - 1, s, t);
      var a1, a2 := Nth(n, m - 1, k - 1, s), Nth(n, m - 1, k - 1, t);
      assert ([n - m] + a1)[1..] == a1 && ([n - m] + a2)[1..] == a2;
    } else if s < b {
      NthSound(n, m - 1, k, t - b);
    } else {
      NthSorted(n, m - 1, k, s - b, t - b);
    }
  }

  lemma NthIsLexHead(n: nat, m: nat, k: nat, idx: int)
    requires 0 < m <= n && 0 < k && 0 <= idx < Comb(m - 1, k - 1)
    requires Lex(n, m - 1, k - 1)[idx] == Nth(n, m - 1, k - 1, idx)
    ensures Lex(n, m, k)[idx] == Nth(n, m, k, idx)
  {
    LexAtHead(n, m, k, idx);
  }

  lemma NthIsLexTail(n: nat, m: nat, k: nat, idx: int, t: int)
    requires 0 < m <= n && 0 < k && Comb(m - 1, k - 1) <= idx < Comb(m, k)
    requires t == idx - Comb(m - 1, k - 1) && 0 <= t < Comb(m - 1, k) && Lex(n, m - 1, k)[t] == Nth(n, m - 1, k, t)
    ensures Lex(n, m, k)[idx] == Nth(n, m, k, idx)
  {
    LexAtTail(n, m, k, idx);
  }

  /** Every entry of l is an ascending k-combination of [lo, hi). */
  predicate AllComb(l: seq<seq<int>>, lo: int, hi: int, k: nat) {
    forall t :: 0 <= t < |l| ==> IsComb(l[t], lo, hi, k)
  }

  /** l is strictly increasing in tuple order. */
  predicate Sorted(l: seq<seq<int>>) {
    forall s, t :: 0 <= s < t < |l| ==> LexLess(l[s], l[t])
  }

  /** Every listed entry is an ascending k-combination of [n - m, n). */
  lemma LexSound(n: nat, m: nat, k: nat)
    requires m <= n
    ensures AllComb(Lex(n, m, k), n - m, n, k)
  {
    forall t | 0 <= t < Comb(m, k) ensures IsComb(Lex(n, m, k)[t], n - m, n, k) {
      NthIsLex(n, m, k, t);
      NthSound(n, m, k, t);
    }
  }

  /** Every ascending k-combination of [n - m, n) is listed; t is its position. */
  lemma LexComplete(n: nat, m: nat, k: nat, c: seq<int>) returns (t: nat)
    requires m <= n && IsComb(c, n - m, n, k)
    ensures t < |Lex(n, m, k)| && Lex(n, m, k)[t] == c
  {
    t := NthComplete(n, m, k, c);
    NthIsLex(n, m, k, t);
  }

  lemma TailIsComb(c: seq<int>, lo: int, hi: int, k: nat)
    requires k > 0 && IsComb(c, lo, hi, k) && c[0] == lo
    ensures IsComb(c[1..], lo + 1, hi, k - 1)
  {
    forall i | 0 <= i < k - 1 ensures lo + 1 <= c[1..][i] < hi {
      assert c[0] < c[i + 1];
    }
  }

  lemma ShiftIsComb(c: seq<int>, lo: int, hi: int, k: nat)
    requires k > 0 && IsComb(c, lo, hi, k) && c[0] != lo
    ensures IsComb(c, lo + 1, hi, k)
  {
    forall i | 0 <= i < k ensures lo + 1 <= c[i] {
      if i > 0 { assert c[0] < c[i]; }
    }
  }

  lemma {:induction false} LexLessIrreflexive(a: seq<int>)
    ensures !LexLess(a, a)
    decreases |a|
  {
    if |a| > 0 {
      LexLessIrreflexive(a[1..]);
    }
  }

  /** The list is strictly increasing in tuple order, so no combination appears twice. */
  lemma LexSorted(n: nat, m: nat, k: nat)
    requires m <= n
    ensures Sorted(Lex(n, m, k))
  {
    forall s, t | 0 <= s < t < Comb(m, k) ensures LexLess(Lex(n, m, k)[s], Lex(n, m, k)[t]) {
      NthIsLex(n, m, k, s);
      NthIsLex(n, m, k, t);
      NthSorted(n, m, k, s, t);
    }
  }

  /** Distinct positions of the list hold distinct combinations. */
  lemma LexInjective(n: nat, m: nat, k: nat, s: nat, t: nat)
    requires m <= n && s < |Lex(n, m, k)| && t < |Lex(n, m, k)| && s != t
    ensures Lex(n, m, k)[s] != Lex(n, m, k)[t]
  {
    LexSorted(n, m, k);
    var l := Lex(n, m, k);
    if s < t {
      assert LexLess(l[s], l[t]);
      if l[s] == l[t] { LexLessIrreflexive(l[s]); }
    } else {
      assert LexLess(l[t], l[s]);
      if l[s] == l[t] { LexLessIrreflexive(l[s]); }
    }
  }
}
