/**
Integer means rounded to nearest, as demosaicing and averaging both compute them:
(sum + count / 2) / count.
*/
module Rounding {
  import opened Grid

  /** Integer division rounded to nearest, halves upward. */
  function Rounded(sum: nat, count: nat): nat
    requires count > 0
  {
    (sum + count / 2) / count
  }

  /** Rounding a sum of n values that lie between lo and hi stays between lo and hi. */
  lemma RoundedBetween(sum: nat, n: nat, lo: int, hi: int)
    requires n > 0 && lo * n <= sum <= hi * n
    ensures lo <= Rounded(sum, n) <= hi
  {
    var q := Rounded(sum, n);
    assert sum + n / 2 == n * q + (sum + n / 2) % n;
    MulOrder(n, hi, q);
    MulOrder(n, q, lo);
  }

  /** Rounding is to the nearest integer. */
  lemma RoundedNearest(sum: nat, n: nat)
    requires n > 0
    ensures -(n / 2) <= sum - n * Rounded(sum, n) <= n / 2
    ensures n % 2 == 0 ==> sum - n * Rounded(sum, n) < n / 2
  {
    var q := Rounded(sum, n);
    assert sum + n / 2 == n * q + (sum + n / 2) % n;
  }

  /** n times the value differs from the sum by at most half of n. */
  predicate Near(sum: nat, n: nat, value: nat) { -(n / 2) <= sum - n * value <= n / 2 }

  lemma FarOff(n: nat, max: nat, value: nat)
    requires n > 0 && value != max
    ensures !Near(n * max, n, value)
  {
    MulOrder(n, value, max);
    MulOrder(n, max, value);
  }

  lemma RoundedMonotone(s: nat, t: nat, n: nat)
    requires n > 0 && s <= t
    ensures Rounded(s, n) <= Rounded(t, n)
  {
    var q, r := Rounded(s, n), Rounded(t, n);
    assert s + n / 2 == n * q + (s + n / 2) % n;
    assert t + n / 2 == n * r + (t + n / 2) % n;
    MulOrder(n, r, q);
  }

  // ---------------------------------------------------------------- in unsigned arithmetic

  /** What unsigned arithmetic of the given modulus and a channel of the given maximum make of a mean. */
  function WrappedMean(sum: nat, count: nat, modulus: nat, max: nat): nat
    requires modulus > 0 && count % modulus != 0
  {
    var divisor := count % modulus;
    ((sum % modulus + divisor / 2) % modulus / divisor) % (max + 1)
  }

  /** A mean of samples is computed exactly if and only if the rounded sum does not wrap. */
  lemma MeanExactIff(sum: nat, n: nat, modulus: nat, max: nat)
    requires 0 < n < modulus && sum <= n * max
    ensures n % modulus == n
    ensures WrappedMean(sum, n, modulus, max) == Rounded(sum, n) <==> sum + n / 2 < modulus
  {
    DivModUnique(n, modulus, 0, n);
    var t := sum + n / 2;
    ModAdd(sum, n / 2, modulus);
    assert 0 * n <= sum <= max * n;
    RoundedBetween(sum, n, 0, max);
    if t < modulus {
      DivModUnique(t, modulus, 0, t);
      DivModUnique(Rounded(sum, n), max + 1, 0, Rounded(sum, n));
    } else {
      FoldedQuotient(t, n, modulus);
      DivModUnique(t % modulus / n, max + 1, 0, t % modulus / n);
    }
  }

  /** A sum that wraps has a smaller quotient. */
  lemma FoldedQuotient(t: nat, n: nat, modulus: nat)
    requires 0 < n < modulus <= t
    ensures t % modulus / n < t / n
  {
    assert t == modulus * (t / modulus) + t % modulus;
    MulOrder(modulus, 0, t / modulus);
    var v, q := t % modulus, t / n;
    assert t == n * q + t % n;
    assert v == n * (v / n) + v % n;
    MulOrder(n, q - 1, v / n);
    MulNext(n, q - 1);
  }
}
