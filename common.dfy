/** Facts shared by several parts of the model: strict order of a
    sequence, cancelling a positive factor, and the uniqueness of the
    remainder. */
module Common {

  /** Every element is smaller than every later one. */
  predicate Increasing(s: seq<int>) {
    forall i, j :: 0 <= i < j < |s| ==> s[i] < s[j]
  }

  /** `x * k < y * k` with a positive `k` gives `x < y`. */
  lemma MulLessCancel(x: int, y: int, k: int)
    requires 0 < k && x * k < y * k
    ensures x < y
  {
  }

  /** Quotient and remainder are unique. */
  lemma ModUnique(m: int, k: int, q: int, r: int)
    requires k > 0 && m == q * k + r && 0 <= r < k
    ensures m % k == r
  {
    var q', r' := m / k, m % k;
    assert (q - q') * k == r' - r;
    MulLessCancel(q - q', 1, k);
    MulLessCancel(-1, q - q', k);
  }
}
