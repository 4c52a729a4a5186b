/**
 * The Pascal's-triangle script: `binom(n, k)` as the factorial ratio
 * n! / (k! * (n-k)!), and the loop that builds the first twelve rows of the
 * triangle row by row, with a separate row counter that bounds each row.
 */
module Pascals {
  import opened Combinatorics

  /** `math.factorial` refuses a negative argument (Python raises ValueError). */
  datatype Error = NegativeFactorial

  datatype Result<T> = Ok(value: T) | Err(error: Error)

  /** The number of rows the script builds (`range(12)`). */
  const ScriptRows: nat := 12

  /**
   * binom(n, k) = factorial(n) / (factorial(k) * factorial(n - k)).
   * This model fails exactly when one of the three factorials is taken of a
   * negative number (Python's ValueError); otherwise the division is exact and
   * yields C(n, k). Python's float division can also overflow, which is not
   * modelled.
   */
  function Binom(n: int, k: int): (r: Result<nat>)
    ensures r.Ok? <==> 0 <= k <= n
    ensures r.Ok? ==> r.value * (Fact(k) * Fact(n - k)) == Fact(n)
    ensures r.Ok? ==> r.value == Choose(n, k)
  {
    if n < 0 || k < 0 || n - k < 0 then Err(NegativeFactorial)
    else
      var divisor := Fact(k) * Fact(n - k);
      FactorialRatio(n, k);
      ChooseTimesFactorials(n, k);
      Ok(Fact(n) / divisor)
  }

  /** Row n of Pascal's triangle: C(n, 0), ..., C(n, n). */
  function Row(n: nat): (r: seq<nat>)
  {
    seq(n + 1, k requires 0 <= k <= n => Choose(n, k))
  }

  /** The first `rows` rows of Pascal's triangle, row 0 first. */
  function Triangle(rows: nat): (t: seq<seq<nat>>)
  {
    seq(rows, i requires 0 <= i < rows => Row(i))
  }

  /**
   * The construction loop: for n in 0 .. rows-1 build a row of binom(n, k)
   * for k in range(row_counter + 1), append it, and bump row_counter.
   */
  method BuildTriangle(rows: nat) returns (triangle: seq<seq<nat>>)
    ensures triangle == Triangle(rows)
  {
    triangle := [];
    var rowCounter := 0;
    var n := 0;
    while n < rows
      invariant 0 <= n <= rows
      invariant rowCounter == n
      invariant triangle == Triangle(n)
    {
      var row := [];
      var k := 0;
      while k < rowCounter + 1
        invariant 0 <= k <= rowCounter + 1
        invariant row == Row(n)[..k]
      {
        var nk := Binom(n, k);
        row := row + [nk.value];
        k := k + 1;
      }
      assert row == Row(n);
      triangle := triangle + [row];
      assert triangle == Triangle(n + 1);
      rowCounter := rowCounter + 1;
      n := n + 1;
    }
  }

  /** binom(n, 0) and binom(n, n) are both 1. */
  lemma BinomEnds(n: nat)
    ensures Binom(n, 0) == Ok(1)
    ensures Binom(n, n) == Ok(1)
  {
  }

  /** binom(n, k) == binom(n, n - k) for all integers, in range or not. */
  lemma BinomSymmetric(n: int, k: int)
    ensures Binom(n, k) == Binom(n, n - k)
  {
    if 0 <= k <= n {
      ChooseSymmetric(n, k);
    }
  }

  /** The triangle has `rows` rows and row i has i + 1 entries. */
  lemma TriangleShape(rows: nat)
    ensures |Triangle(rows)| == rows
    ensures forall i :: 0 <= i < rows ==> |Triangle(rows)[i]| == i + 1
  {
  }

  /** Building fewer rows gives a prefix: row i does not depend on how many rows follow. */
  lemma TrianglePrefix(rows: nat, more: nat)
    requires rows <= more
    ensures Triangle(rows) == Triangle(more)[..rows]
  {
  }

  /** Every row starts and ends with 1. */
  lemma TriangleEnds(rows: nat, i: nat)
    requires i < rows
    ensures Triangle(rows)[i][0] == 1 && Triangle(rows)[i][i] == 1
  {
    ChooseEnds(i);
  }

  /** Every row reads the same backwards. */
  lemma TriangleSymmetric(rows: nat, i: nat, k: nat)
    requires i < rows && k <= i
    ensures Triangle(rows)[i][k] == Triangle(rows)[i][i - k]
  {
    ChooseSymmetric(i, k);
  }

  /** Pascal's identity between consecutive rows. */
  lemma TrianglePascal(rows: nat, i: nat, k: nat)
    requires 0 < k < i < rows
    ensures Triangle(rows)[i][k] == Triangle(rows)[i - 1][k - 1] + Triangle(rows)[i - 1][k]
  {
  }

  /** The twelve rows the script prints, as listed after it. */
  const ExpectedOutput: seq<seq<nat>> := [
    [1],
    [1, 1],
    [1, 2, 1],
    [1, 3, 3, 1],
    [1, 4, 6, 4, 1],
    [1, 5, 10, 10, 5, 1],
    [1, 6, 15, 20, 15, 6, 1],
    [1, 7, 21, 35, 35, 21, 7, 1],
    [1, 8, 28, 56, 70, 56, 28, 8, 1],
    [1, 9, 36, 84, 126, 126, 84, 36, 9, 1],
    [1, 10, 45, 120, 210, 252, 210, 120, 45, 10, 1],
    [1, 11, 55, 165, 330, 462, 462, 330, 165, 55, 11, 1]
  ]

  /** Entries k .. |prev|-1 of `next` are sums of adjacent entries of `prev`. */
  predicate SumsFrom(prev: seq<nat>, next: seq<nat>, k: nat)
    requires |next| == |prev| + 1
    decreases |prev| - k
  {
    k >= |prev| || (0 < k && next[k] == prev[k - 1] + prev[k] && SumsFrom(prev, next, k + 1))
  }

  /** `next` is the row that Pascal's rule builds from `prev`. */
  predicate IsNextRow(prev: seq<nat>, next: seq<nat>)
  {
    |prev| > 0 && |next| == |prev| + 1 && next[0] == 1 && next[|prev|] == 1 && SumsFrom(prev, next, 1)
  }

  lemma {:induction false} SumsFromAt(prev: seq<nat>, next: seq<nat>, k: nat, j: nat)
    requires |next| == |prev| + 1 && SumsFrom(prev, next, k)
    requires k <= j < |prev|
    ensures 0 < j && next[j] == prev[j - 1] + prev[j]
    decreases j - k
  {
    if k < j {
      SumsFromAt(prev, next, k + 1, j);
    }
  }

  /** Pascal's rule applied to row n gives row n + 1. */
  lemma RowFromPrevious(n: nat, next: seq<nat>)
    requires IsNextRow(Row(n), next)
    ensures Row(n + 1) == next
  {
    ChooseEnds(n + 1);
    forall k | 0 < k <= n
      ensures Row(n + 1)[k] == next[k]
    {
      SumsFromAt(Row(n), next, 1, k);
    }
  }

  /** Each listed row follows from the one before it by Pascal's rule. */
  lemma ExpectedFollowsPascal(n: nat)
    requires n + 1 < |ExpectedOutput|
    ensures IsNextRow(ExpectedOutput[n], ExpectedOutput[n + 1])
  {
  }

  /** Row n of the triangle is the n-th listed row. */
  lemma {:induction false} RowIsExpected(n: nat)
    requires n < |ExpectedOutput|
    ensures Row(n) == ExpectedOutput[n]
  {
    if n == 0 {
      assert Row(0) == [1];
    } else {
      RowIsExpected(n - 1);
      ExpectedFollowsPascal(n - 1);
      RowFromPrevious(n - 1, ExpectedOutput[n]);
    }
  }

  /** The script builds exactly the rows listed after it. */
  lemma ScriptOutput()
    ensures Triangle(ScriptRows) == ExpectedOutput
  {
    forall n | 0 <= n < ScriptRows
      ensures Triangle(ScriptRows)[n] == ExpectedOutput[n]
    {
      RowIsExpected(n);
    }
  }

  /** The script's run: the construction loop with `range(12)` yields the listed rows. */
  method RunScript() returns (triangle: seq<seq<nat>>)
    ensures triangle == ExpectedOutput
    ensures |triangle| == 12
    ensures triangle[4] == [1, 4, 6, 4, 1]
    ensures triangle[11] == [1, 11, 55, 165, 330, 462, 462, 330, 165, 55, 11, 1]
  {
    triangle := BuildTriangle(ScriptRows);
    ScriptOutput();
  }
}
