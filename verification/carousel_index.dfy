/**
 Index arithmetic of the project carousel.

 The carousel keeps one slide index into a list of `n` projects and moves it
 forwards and backwards by one, wrapping at both ends. The source computes the
 wrap with JavaScript's `%`, which truncates toward zero; every dividend here is
 non-negative (the backward step adds `n` before reducing), so truncation and
 Dafny's Euclidean `%` give the same value.
 */
module CarouselIndex {

  /** The index one slide forward, wrapping from the last slide to the first. */
  function NextIndex(i: nat, n: nat): (r: nat)
    requires n > 0
    ensures r < n
    ensures i + 1 < n ==> r == i + 1
    ensures i == n - 1 ==> r == 0
  {
    (i + 1) % n
  }

  /** The index one slide back, wrapping from the first slide to the last.
      The `+ n` keeps the dividend non-negative when `i` is 0. */
  function PrevIndex(i: nat, n: nat): (r: nat)
    requires n > 0
    ensures r < n
    ensures 0 < i <= n ==> r == i - 1
    ensures i == 0 ==> r == n - 1
  {
    (i - 1 + n) % n
  }

  /** `NextIndex` applied `k` times in a row. */
  function NextTimes(i: nat, k: nat, n: nat): (r: nat)
    requires n > 0
    requires i < n
    ensures r < n
  {
    if k == 0 then i else NextIndex(NextTimes(i, k - 1, n), n)
  }

  /** Reducing before or after a successor step gives the same residue. */
  lemma ModSucc(a: nat, n: nat)
    requires n > 0
    ensures (a % n + 1) % n == (a + 1) % n
  {
    var q, r := a / n, a % n;
    assert a == q * n + r;
    if r + 1 < n {
      ModUnique(a + 1, q, r + 1, n);
    } else {
      assert r + 1 == n;
      assert a + 1 == (q + 1) * n + 0;
      ModUnique(a + 1, q + 1, 0, n);
    }
  }

  /** A value written as `q * n + r` with `0 <= r < n` has residue `r`. */
  lemma ModUnique(a: nat, q: int, r: int, n: nat)
    requires n > 0
    requires 0 <= r < n
    requires a == q * n + r
    ensures a % n == r
  {
    var q', r' := a / n, a % n;
    assert a == q' * n + r';
    var d := q - q';
    assert d * n == q * n - q' * n;
    assert d * n == r' - r;
    if d > 0 {
      MulAtLeast(d, n);
    } else if d < 0 {
      MulAtLeast(-d, n);
    }
  }

  /** A positive multiple of `n` is at least `n`. */
  lemma MulAtLeast(d: int, n: nat)
    requires d > 0
    ensures d * n >= n
  {
    assert d * n == (d - 1) * n + n;
    assert (d - 1) * n >= 0;
  }

  /** Stepping forward then back returns to the same slide. */
  lemma PrevUndoesNext(i: nat, n: nat)
    requires n > 0
    requires i < n
    ensures PrevIndex(NextIndex(i, n), n) == i
  {
  }

  /** Stepping back then forward returns to the same slide. */
  lemma NextUndoesPrev(i: nat, n: nat)
    requires n > 0
    requires i < n
    ensures NextIndex(PrevIndex(i, n), n) == i
  {
  }

  /** `k` forward steps from `i` land on `(i + k) % n`. */
  lemma {:induction false} NextTimesIsShift(i: nat, k: nat, n: nat)
    requires n > 0
    requires i < n
    ensures NextTimes(i, k, n) == (i + k) % n
  {
    if k == 0 {
      ModUnique(i, 0, i, n);
    } else {
      NextTimesIsShift(i, k - 1, n);
      ModSucc(i + k - 1, n);
    }
  }

  /** Taking the first forward step up front gives the same slide. */
  lemma {:induction false} NextTimesShiftFirst(i: nat, k: nat, n: nat)
    requires n > 0
    requires i < n
    ensures NextTimes(NextIndex(i, n), k, n) == NextTimes(i, k + 1, n)
  {
    if k > 0 {
      NextTimesShiftFirst(i, k - 1, n);
    }
  }

  /** `n` forward steps bring every slide back to itself. */
  lemma FullCycle(i: nat, n: nat)
    requires n > 0
    requires i < n
    ensures NextTimes(i, n, n) == i
  {
    NextTimesIsShift(i, n, n);
    ModUnique(i + n, 1, i, n);
  }
}
