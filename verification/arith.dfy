/**
 Facts about natural-number division by a positive divisor, which the
 accessors use to convert between ticks and seconds and between pages and
 kilobytes, and the log uses to count records. They live in a module of their
 own so that their proofs see nothing but arithmetic.
 */
module Arithmetic {

  /** Multiplying by a positive factor keeps a strict order, both ways. */
  lemma MulStrictOrder(a: nat, b: nat, k: nat)
    requires k > 0
    ensures a < b <==> a * k < b * k
  {
  }

  /** The quotient times the divisor lies within one divisor below `a`. */
  lemma QuotientBounds(a: nat, k: nat)
    requires k > 0
    ensures (a / k) * k <= a < (a / k) * k + k
  {
  }

  /** Natural-number division, with the bounds that characterise it. */
  function Quotient(a: nat, k: nat): (q: nat)
    requires k > 0
    ensures q == a / k
    ensures q * k <= a < q * k + k
  {
    QuotientBounds(a, k);
    a / k
  }

  lemma DivAtLeast(x: nat, k: nat, q: nat)
    requires k > 0 && q * k <= x
    ensures q <= x / k
  {
    var d := x / k;
    QuotientBounds(x, k);
    assert (d + 1) * k == d * k + k;
    MulStrictOrder(q, d + 1, k);
  }

  lemma DivAtMost(x: nat, k: nat, q: nat)
    requires k > 0 && x < q * k + k
    ensures x / k <= q
  {
    var d := x / k;
    QuotientBounds(x, k);
    assert (q + 1) * k == q * k + k;
    MulStrictOrder(d, q + 1, k);
  }

  /** `x / k == q` when `x` lies in `[q * k, q * k + k)`. */
  lemma DivUnique(x: nat, k: nat, q: nat)
    requires k > 0
    requires q * k <= x < q * k + k
    ensures x / k == q
  {
    DivAtLeast(x, k, q);
    DivAtMost(x, k, q);
  }

  lemma MulDivCancel(a: nat, k: nat)
    requires k > 0
    ensures a * k / k == a
  {
    DivUnique(a * k, k, a);
  }

  lemma MulDistributes(x: nat, y: nat, k: nat)
    ensures (x + y) * k == x * k + y * k
  {
  }

  /** Dividing a sum loses at most one more unit than dividing each term. */
  lemma DivOfSum(a: nat, b: nat, k: nat)
    requires k > 0
    ensures a / k + b / k <= (a + b) / k <= a / k + b / k + 1
  {
    var qa, qb := a / k, b / k;
    QuotientBounds(a, k);
    QuotientBounds(b, k);
    MulDistributes(qa, qb, k);
    MulDistributes(qa + qb, 1, k);
    DivAtLeast(a + b, k, qa + qb);
    DivAtMost(a + b, k, qa + qb + 1);
  }
}
