/**
 * `_run_lap` (lines 255-262): the linear-sum-assignment solver is not
 * modelled; only its contract is. On a square matrix it returns the rows
 * 0..k-1 in order and, as columns, a permutation of 0..k-1 whose total
 * cost is minimal.
 */
module Assignment {
  import opened CostMatrix

  /** `sigma` sends each row 0..k-1 to a distinct column 0..k-1 and covers every column. */
  ghost predicate IsPermutation(sigma: seq<nat>, k: nat) {
    && |sigma| == k
    && (forall i :: 0 <= i < k ==> sigma[i] < k)
    && (forall i, j :: 0 <= i < j < k ==> sigma[i] != sigma[j])
    && (forall c :: 0 <= c < k ==> c in sigma)
  }

  /** `np.stack([row_ind, col_ind], axis=1)`: the (track, cell) pairs, rows in increasing order. */
  function Pairs(sigma: seq<nat>): (pairs: seq<(nat, nat)>)
    ensures |pairs| == |sigma|
  {
    seq(|sigma|, i requires 0 <= i < |sigma| => (i, sigma[i]))
  }

  /** Some pair assigns cell column `c`. */
  ghost predicate AssignsColumn(pairs: seq<(nat, nat)>, c: nat) {
    exists a :: 0 <= a < |pairs| && pairs[a].1 == c
  }

  /**
   * For a permutation, every row appears once as the first component, in
   * order, and every column appears as the second component of exactly
   * one pair.
   */
  lemma PairsOfPermutation(sigma: seq<nat>, k: nat)
    requires IsPermutation(sigma, k)
    ensures forall a :: 0 <= a < k ==> Pairs(sigma)[a].0 == a && Pairs(sigma)[a].1 < k
    ensures forall c :: 0 <= c < k ==> AssignsColumn(Pairs(sigma), c)
    ensures forall a, b :: 0 <= a < k && 0 <= b < k && Pairs(sigma)[a].1 == Pairs(sigma)[b].1 ==> a == b
  {
    var pairs := Pairs(sigma);
    forall c | 0 <= c < k
      ensures AssignsColumn(pairs, c)
    {
      assert c in sigma;
      var a :| 0 <= a < k && sigma[a] == c;
      assert pairs[a].1 == c;
    }
    forall a, b | 0 <= a < k && 0 <= b < k && pairs[a].1 == pairs[b].1
      ensures a == b
    {
      assert sigma[a] == pairs[a].1 && sigma[b] == pairs[b].1;
    }
  }

  function Sum(s: seq<real>): real {
    if s == [] then 0.0 else Sum(s[..|s| - 1]) + s[|s| - 1]
  }

  /** Changing one summand changes the sum by the difference. */
  lemma {:induction false} SumUpdate(s: seq<real>, i: nat, v: real)
    requires i < |s|
    ensures Sum(s[i := v]) == Sum(s) - s[i] + v
  {
    var t := s[i := v];
    if i == |s| - 1 {
      assert t[..|t| - 1] == s[..|s| - 1];
    } else {
      assert t[..|t| - 1] == s[..|s| - 1][i := v];
      SumUpdate(s[..|s| - 1], i, v);
    }
  }

  /** The cost of each row's assignment. */
  function RowCosts(c: Matrix, sigma: seq<nat>): (r: seq<real>)
    requires IsMatrix(c, |sigma|, |sigma|) && forall i :: 0 <= i < |sigma| ==> sigma[i] < |sigma|
    ensures |r| == |sigma|
  {
    seq(|sigma|, i requires 0 <= i < |sigma| => c[i][sigma[i]])
  }

  /** The objective `linear_sum_assignment` minimises. */
  function TotalCost(c: Matrix, sigma: seq<nat>): real
    requires IsMatrix(c, |sigma|, |sigma|) && forall i :: 0 <= i < |sigma| ==> sigma[i] < |sigma|
  {
    Sum(RowCosts(c, sigma))
  }

  /** The solver's contract on a square matrix: a permutation of least total cost. */
  ghost predicate Optimal(c: Matrix, sigma: seq<nat>) {
    && IsMatrix(c, |c|, |c|)
    && IsPermutation(sigma, |c|)
    && forall tau :: IsPermutation(tau, |c|) ==> TotalCost(c, sigma) <= TotalCost(c, tau)
  }

  /** Exchanging the columns of rows i and r gives another permutation. */
  lemma SwapIsPermutation(sigma: seq<nat>, k: nat, i: nat, r: nat)
    requires IsPermutation(sigma, k) && i < k && r < k
    ensures IsPermutation(sigma[i := sigma[r]][r := sigma[i]], k)
  {
    var tau := sigma[i := sigma[r]][r := sigma[i]];
    forall c | 0 <= c < k
      ensures c in tau
    {
      assert c in sigma;
      var a :| 0 <= a < k && sigma[a] == c;
      if a == i {
        assert tau[r] == c;
      } else if a == r {
        assert tau[i] == c;
      } else {
        assert tau[a] == c;
      }
    }
  }

  /** The total cost after exchanging the columns of rows i and r. */
  lemma SwapCost(c: Matrix, sigma: seq<nat>, i: nat, r: nat)
    requires IsPermutation(sigma, |sigma|) && IsMatrix(c, |sigma|, |sigma|) && i < |sigma| && r < |sigma| && i != r
    ensures IsPermutation(sigma[i := sigma[r]][r := sigma[i]], |sigma|)
    ensures TotalCost(c, sigma[i := sigma[r]][r := sigma[i]]) ==
      TotalCost(c, sigma) - c[i][sigma[i]] - c[r][sigma[r]] + c[i][sigma[r]] + c[r][sigma[i]]
  {
    var tau := sigma[i := sigma[r]][r := sigma[i]];
    SwapIsPermutation(sigma, |sigma|, i, r);
    var s := RowCosts(c, sigma);
    assert RowCosts(c, tau) == s[i := c[i][sigma[r]]][r := c[r][sigma[i]]];
    SumUpdate(s, i, c[i][sigma[r]]);
    SumUpdate(s[i := c[i][sigma[r]]], r, c[r][sigma[i]]);
  }

  /** No exchange of two rows' columns makes a least-cost assignment cheaper. */
  lemma OptimalNoCheaperSwap(c: Matrix, sigma: seq<nat>, i: nat, r: nat)
    requires Optimal(c, sigma) && i < |sigma| && r < |sigma| && i != r
    ensures c[i][sigma[i]] + c[r][sigma[r]] <= c[i][sigma[r]] + c[r][sigma[i]]
  {
    var tau := sigma[i := sigma[r]][r := sigma[i]];
    SwapCost(c, sigma, i, r);
    assert TotalCost(c, sigma) <= TotalCost(c, tau);
  }

  /**
   * The four entries the exchange argument compares: capped row i, cell
   * column j, and the row r matched to i's death column. With a death
   * cheaper than 1, giving i its death column and r the cell is cheaper.
   */
  lemma ExchangeEntries(p1: Matrix, capped: seq<bool>, m: nat, birth: real, death: real, i: nat, j: nat, r: nat)
    requires IsMatrix(p1, |capped|, m)
    requires forall a, b :: 0 <= a < |capped| && 0 <= b < m ==> 0.0 <= p1[a][b]
    requires birth <= 1.0
    requires i < |capped| && capped[i] && j < m && r < |capped| + m && r != i
    ensures var c := Cost(p1, capped, m, birth, death);
      c[i][j] == 1.0 && c[i][m + i] == death && c[r][m + i] == 1.0 && c[r][j] <= 1.0
    ensures var c := Cost(p1, capped, m, birth, death);
      death < 1.0 ==> c[i][j] + c[r][m + i] > c[i][m + i] + c[r][j]
  {
    CostEntries(p1, capped, m, birth, death);
    assert CostEntry(p1, capped, m, birth, death, i, j) == 1.0;
    assert CostEntry(p1, capped, m, birth, death, r, m + i) == 1.0;
  }

  /**
   * The purpose of the capped-row masking (lines 231-234): when a death
   * costs less than 1, a birth at most 1 and the continuation scores are
   * non-negative, no least-cost assignment matches a capped track to a
   * cell of the frame.
   */
  lemma CappedTrackNotContinued(p1: Matrix, capped: seq<bool>, m: nat, birth: real, death: real, sigma: seq<nat>, i: nat)
    requires IsMatrix(p1, |capped|, m)
    requires forall a, b :: 0 <= a < |capped| && 0 <= b < m ==> 0.0 <= p1[a][b]
    requires death < 1.0 && birth <= 1.0
    requires Optimal(Cost(p1, capped, m, birth, death), sigma)
    requires i < |capped| && capped[i]
    ensures sigma[i] >= m
  {
    var n := |capped|;
    var c := Cost(p1, capped, m, birth, death);
    if sigma[i] < m {
      var j := sigma[i];
      assert m + i in sigma;
      var r :| 0 <= r < n + m && sigma[r] == m + i;
      ExchangeEntries(p1, capped, m, birth, death, i, j, r);
      OptimalNoCheaperSwap(c, sigma, i, r);
      assert false;
    }
  }
}
