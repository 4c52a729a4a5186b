/**
 * The integer combinatorics behind the Pascal's-triangle script: the factorial
 * (in place of Python's `math.factorial`) and the binomial coefficient C(n, k)
 * defined by Pascal's recurrence, which serves as the independent reference
 * against which the script's factorial-ratio formula is proved.
 */
module Combinatorics {

  /** n!, the product 1 * 2 * ... * n; 0! = 1. */
  function Fact(n: nat): (r: nat)
    ensures r >= 1
    ensures r >= n
  {
    if n == 0 then 1 else n * Fact(n - 1)
  }

  /**
   * C(n, k), the number of k-element subsets of an n-element set, given by
   * Pascal's recurrence: C(n, 0) = 1, C(0, k) = 0 for k > 0, and
   * C(n, k) = C(n-1, k-1) + C(n-1, k) otherwise.
   */
  function Choose(n: nat, k: nat): (r: nat)
    ensures k > n ==> r == 0
    ensures k <= n ==> r >= 1
    decreases n
  {
    if k == 0 then 1
    else if n == 0 then 0
    else Choose(n - 1, k - 1) + Choose(n - 1, k)
  }

  /** Both ends of a row are 1: C(n, 0) == C(n, n) == 1. */
  lemma {:induction false} ChooseEnds(n: nat)
    ensures Choose(n, 0) == 1
    ensures Choose(n, n) == 1
  {
    if n > 0 {
      ChooseEnds(n - 1);
    }
  }

  /** Dividing a multiple of a positive number by it gives back the factor. */
  lemma DivOfMultiple(c: nat, p: nat)
    requires p > 0
    ensures (c * p) / p == c
  {
    var q, r := (c * p) / p, (c * p) % p;
    assert c * p == q * p + r && 0 <= r < p;
    assert (c - q) * p == r;
    MulSign(c - q, p);
  }

  /** A nonzero integer multiple of p is at least p away from zero. */
  lemma MulSign(d: int, p: nat)
    requires p > 0
    ensures d >= 1 ==> d * p >= p
    ensures d <= -1 ==> d * p + p <= 0
  {
    if d >= 1 {
      assert d * p == (d - 1) * p + p;
    } else if d <= -1 {
      assert d * p == (d + 1) * p - p;
    }
  }

  /**
   * The algebra of one step of the factorial formula, over plain numbers:
   * with k! = k * a and (n-k)! = m * b, the two halves of Pascal's recurrence
   * contribute k * (n-1)! and m * (n-1)!.
   */
  lemma StepAlgebra(left: nat, right: nat, a: nat, b: nat, k: nat, m: nat, f: nat)
    requires left * (a * (m * b)) == f
    requires right * ((k * a) * b) == f
    ensures (left + right) * ((k * a) * (m * b)) == (k + m) * f
  {
    var x := (k * a) * (m * b);
    assert (left + right) * x == left * x + right * x;
    assert left * x == k * (left * (a * (m * b)));
    assert right * x == m * (right * ((k * a) * b));
    assert (k + m) * f == k * f + m * f;
  }

  /**
   * The factorial formula: C(n, k) * (k! * (n-k)!) == n! for 0 <= k <= n.
   * So k! * (n-k)! divides n! exactly and the quotient is C(n, k).
   */
  lemma {:induction false} ChooseTimesFactorials(n: nat, k: nat)
    requires k <= n
    ensures Choose(n, k) * (Fact(k) * Fact(n - k)) == Fact(n)
  {
    if k == 0 {
      assert Choose(n, k) == 1;
    } else if k == n {
      ChooseEnds(n);
      assert Fact(n - k) == 1;
    } else {
      ChooseTimesFactorials(n - 1, k - 1);
      ChooseTimesFactorials(n - 1, k);
      assert n - 1 - (k - 1) == n - k;
      assert Fact(k) == k * Fact(k - 1);
      assert Fact(n - k) == (n - k) * Fact(n - 1 - k);
      StepAlgebra(Choose(n - 1, k - 1), Choose(n - 1, k), Fact(k - 1), Fact(n - 1 - k),
                  k, n - k, Fact(n - 1));
      assert Fact(n) == n * Fact(n - 1);
    }
  }

  /** The quotient n! / (k! * (n-k)!) is exactly C(n, k) for 0 <= k <= n. */
  lemma FactorialRatio(n: nat, k: nat)
    requires k <= n
    ensures Fact(n) % (Fact(k) * Fact(n - k)) == 0
    ensures Fact(n) / (Fact(k) * Fact(n - k)) == Choose(n, k)
  {
    var c, p := Choose(n, k), Fact(k) * Fact(n - k);
    ChooseTimesFactorials(n, k);
    assert Fact(n) == c * p;
    DivOfMultiple(c, p);
    MulMod(c, p);
  }

  /** A multiple of a positive number leaves no remainder. */
  lemma MulMod(c: nat, p: nat)
    requires p > 0
    ensures (c * p) % p == 0
  {
    DivOfMultiple(c, p);
    assert c * p == ((c * p) / p) * p + (c * p) % p;
  }

  /** Every row is a palindrome: C(n, k) == C(n, n-k) for 0 <= k <= n. */
  lemma ChooseSymmetric(n: nat, k: nat)
    requires k <= n
    ensures Choose(n, k) == Choose(n, n - k)
  {
    FactorialRatio(n, k);
    FactorialRatio(n, n - k);
    assert n - (n - k) == k;
    assert Fact(n - k) * Fact(k) == Fact(k) * Fact(n - k);
  }
}
