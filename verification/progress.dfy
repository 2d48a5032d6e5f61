/** Cooperative cancellation and the progress percentages of both tools. */
module Progress {

  /** When the user's cancel click becomes visible to the page loop.

      The flag is only read at page (and file) boundaries, a page in flight
      always finishes, and the flag is never cleared during a run, so every
      timing of the click is described by how many pages had finished when
      the flag went up: `AfterPages(n)` means every check made once `n`
      pages have finished sees the flag, and every check before does not.
      A click while page `n + 1` renders is `AfterPages(n + 1)`. */
  datatype Cancel = Never | AfterPages(n: nat) {

    /** The flag as read by a check made after `done` pages finished. */
    predicate Raised(done: nat) {
      AfterPages? && n <= done
    }

    /** No check made before `done` pages finished could have seen the flag. */
    predicate NotBefore(done: nat) {
      AfterPages? ==> done <= n
    }
  }

  // ---------------------------------------------------------------------
  // The extractor's bar: `Math.floor((processed / total) * 100)`.

  /** The percentage after `processed` of `total` pages, in exact arithmetic. */
  function Percent(processed: nat, total: nat): nat
    requires 0 < total && processed <= total
  {
    processed * 100 / total
  }

  /** Integer division against a multiple of the divisor: below `k * t` the
      quotient is below `k`, from `k * t` on it is at least `k`. */
  lemma DivAgainstMultiple(m: nat, t: nat, k: nat)
    requires 0 < t
    ensures m < k * t ==> m / t < k
    ensures k * t <= m ==> k <= m / t
  {
    var q, r := m / t, m % t;
    assert m == q * t + r && 0 <= r < t;
    if m < k * t && q >= k {
      MulMonotone(k, q, t);
    }
    if k * t <= m && q < k {
      MulMonotone(q + 1, k, t);
    }
  }

  lemma MulMonotone(a: nat, b: nat, c: nat)
    requires a <= b
    ensures a * c <= b * c
  {
  }

  /** Integer division is the floor of the exact quotient. */
  lemma FloorOfQuotient(m: nat, t: nat)
    requires 0 < t
    ensures (m as real / t as real).Floor == m / t
  {
    var q, r := m / t, m % t;
    var tr := t as real;
    assert m as real == q as real * tr + r as real;
    var f := r as real / tr;
    assert f * tr == r as real;
    assert 0.0 <= f < 1.0;
    var y := q as real + f;
    assert y * tr == q as real * tr + f * tr;
    assert (m as real / tr) * tr == m as real;
    RealCancel(m as real / tr, y, tr);
  }

  lemma RealCancel(x: real, y: real, t: real)
    requires t != 0.0 && x * t == y * t
    ensures x == y
  {
  }

  /** The integer form is the floor of the exact quotient. */
  lemma PercentIsFloor(processed: nat, total: nat)
    requires 0 < total && processed <= total
    ensures Percent(processed, total) == ((processed as real / total as real) * 100.0).Floor
  {
    var tr := total as real;
    var x := (processed as real / tr) * 100.0;
    var y := (processed * 100) as real / tr;
    assert (processed as real / tr) * tr == processed as real;
    assert x * tr == (processed as real / tr) * tr * 100.0;
    assert y * tr == (processed * 100) as real;
    RealCancel(x, y, tr);
    FloorOfQuotient(processed * 100, total);
  }

  lemma PercentBounds(processed: nat, total: nat)
    requires 0 < total && processed <= total
    ensures 0 <= Percent(processed, total) <= 100
    ensures Percent(processed, total) == 100 <==> processed == total
  {
    var m := processed * 100;
    MulMonotone(processed, total, 100);
    DivAgainstMultiple(m, total, 100);
    DivAgainstMultiple(m, total, 101);
  }

  lemma PercentMonotone(a: nat, b: nat, total: nat)
    requires 0 < total && a <= b <= total
    ensures Percent(a, total) <= Percent(b, total)
  {
    var ma, mb := a * 100, b * 100;
    MulMonotone(a, b, 100);
    var qa := ma / total;
    QuotientTimesDivisor(ma, total);
    assert qa * total <= mb;
    DivAgainstMultiple(mb, total, qa);
  }

  lemma QuotientTimesDivisor(m: nat, t: nat)
    requires 0 < t
    ensures (m / t) * t <= m
  {
    assert m == (m / t) * t + m % t;
  }

  // ---------------------------------------------------------------------
  // The compressor's bar: `(i / totalPages) * 100`, not rounded.

  /** The value handed to the bar after page `i` of a `pages`-page file. */
  function PagePercent(i: nat, pages: nat): real
    requires 0 < pages
  {
    (i as real / pages as real) * 100.0
  }

  lemma PagePercentBounds(i: nat, pages: nat)
    requires 0 < pages && i <= pages
    ensures 0.0 <= PagePercent(i, pages) <= 100.0
    ensures PagePercent(i, pages) == 100.0 <==> i == pages
  {
    var p := pages as real;
    assert PagePercent(i, pages) * p == i as real * 100.0;
  }

  lemma PagePercentMonotone(i: nat, j: nat, pages: nat)
    requires 0 < pages && i <= j
    ensures PagePercent(i, pages) <= PagePercent(j, pages)
  {
  }
}
