/**
 * Assembly of the square cost matrix of `_get_cost_matrix`
 * (lines 229-251) from the model's continuation scores, the capped flags
 * and the birth and death costs.
 */
module CostMatrix {

  type Matrix = seq<seq<real>>

  ghost predicate IsMatrix(a: Matrix, rows: nat, cols: nat) {
    |a| == rows && forall i :: 0 <= i < rows ==> |a[i]| == cols
  }

  /** `1 - predictions[:,:,1]` (line 229): an n x m block. */
  function Continuation(p1: Matrix, n: nat, m: nat): (a: Matrix)
    requires IsMatrix(p1, n, m)
    ensures IsMatrix(a, n, m)
  {
    seq(n, i requires 0 <= i < n => seq(m, j requires 0 <= j < m => 1.0 - p1[i][j]))
  }

  /** The block after lines 232-234: every entry of a capped track's row is 1. */
  function Masked(a: Matrix, capped: seq<bool>, m: nat): (r: Matrix)
    requires IsMatrix(a, |capped|, m)
    ensures IsMatrix(r, |capped|, m)
  {
    seq(|capped|, i requires 0 <= i < |capped| => if capped[i] then seq(m, _ => 1.0) else a[i])
  }

  /** The loop of lines 232-234, overwriting capped rows in place. */
  method MaskCapped(a: Matrix, capped: seq<bool>, m: nat) returns (r: Matrix)
    requires IsMatrix(a, |capped|, m)
    ensures r == Masked(a, capped, m)
  {
    r := a;
    for t := 0 to |capped|
      invariant |r| == |a|
      invariant forall i :: 0 <= i < t ==> r[i] == if capped[i] then seq(m, _ => 1.0) else a[i]
      invariant forall i :: t <= i < |a| ==> r[i] == a[i]
    {
      if capped[t] {
        r := r[t := seq(m, _ => 1.0)];
      }
    }
  }

  /** The identity matrix `np.eye(k)`, entry by entry. */
  function Eye(i: nat, j: nat): real {
    if i == j then 1.0 else 0.0
  }

  /**
   * The birth block (lines 238-239, `diag(birth) + ones - eye`) and the
   * death block (line 242, `death * eye + ones - eye`): a k x k block.
   */
  function SinkBlock(k: nat, cost: real): (b: Matrix)
    ensures IsMatrix(b, k, k)
  {
    seq(k, i requires 0 <= i < k => seq(k, j requires 0 <= j < k => cost * Eye(i, j) + 1.0 - Eye(i, j)))
  }

  /** The transpose `.T` of an n x m block (line 245). */
  function Transpose(a: Matrix, n: nat, m: nat): (t: Matrix)
    requires IsMatrix(a, n, m)
    ensures IsMatrix(t, m, n)
  {
    seq(m, j requires 0 <= j < m => seq(n, i requires 0 <= i < n => a[i][j]))
  }

  /** Lines 248-251: the four blocks side by side, tracks' rows first, then the cells' sink rows. */
  function Assemble(a: Matrix, birth: Matrix, death: Matrix, bottom: Matrix, n: nat, m: nat): (c: Matrix)
    requires IsMatrix(a, n, m) && IsMatrix(birth, m, m) && IsMatrix(death, n, n) && IsMatrix(bottom, m, n)
    ensures IsMatrix(c, n + m, n + m)
  {
    seq(n + m, i requires 0 <= i < n + m => if i < n then a[i] + death[i] else birth[i - n] + bottom[i - n])
  }

  /** The whole cost matrix of `_get_cost_matrix` for n tracks and m cells. */
  function Cost(p1: Matrix, capped: seq<bool>, m: nat, birth: real, death: real): (c: Matrix)
    requires IsMatrix(p1, |capped|, m)
    ensures IsMatrix(c, |capped| + m, |capped| + m)
  {
    var n := |capped|;
    var a := Masked(Continuation(p1, n, m), capped, m);
    Assemble(a, SinkBlock(m, birth), SinkBlock(n, death), Transpose(a, n, m), n, m)
  }

  /** The cost of the continuation block's entry (i, j): 1 for a capped track, else 1 minus the continuation score. */
  function ContinuationCost(p1: Matrix, capped: seq<bool>, i: nat, j: nat): real
    requires i < |p1| && i < |capped| && j < |p1[i]|
  {
    if capped[i] then 1.0 else 1.0 - p1[i][j]
  }

  /** The blocks of the cost matrix, entry by entry. */
  function CostEntry(p1: Matrix, capped: seq<bool>, m: nat, birth: real, death: real, i: nat, j: nat): real
    requires IsMatrix(p1, |capped|, m) && i < |capped| + m && j < |capped| + m
  {
    var n := |capped|;
    if i < n && j < m then ContinuationCost(p1, capped, i, j)
    else if i < n then (if j - m == i then death else 1.0)
    else if j < m then (if i - n == j then birth else 1.0)
    else ContinuationCost(p1, capped, j - m, i - n)
  }

  /**
   * The cost matrix is (n+m) x (n+m). Rows 0..n-1 hold the continuation
   * costs (all 1 for a capped track) in columns 0..m-1 and the death
   * block (death on its diagonal, 1 elsewhere) in columns m..; rows n..
   * hold the birth block (birth on its diagonal, 1 elsewhere) in columns
   * 0..m-1 and the transpose of the continuation block in columns m...
   */
  lemma CostEntries(p1: Matrix, capped: seq<bool>, m: nat, birth: real, death: real)
    requires IsMatrix(p1, |capped|, m)
    ensures forall i, j :: 0 <= i < |capped| + m && 0 <= j < |capped| + m ==>
              Cost(p1, capped, m, birth, death)[i][j] == CostEntry(p1, capped, m, birth, death, i, j)
  {
    var n := |capped|;
    var a := Masked(Continuation(p1, n, m), capped, m);
    var c := Cost(p1, capped, m, birth, death);
    forall i, j | 0 <= i < n + m && 0 <= j < n + m
      ensures c[i][j] == CostEntry(p1, capped, m, birth, death, i, j)
    {
      if i < n {
        assert c[i] == a[i] + SinkBlock(n, death)[i];
        if j >= m {
          assert c[i][j] == SinkBlock(n, death)[i][j - m];
        }
      } else {
        assert c[i] == SinkBlock(m, birth)[i - n] + Transpose(a, n, m)[i - n];
        if j >= m {
          assert c[i][j] == Transpose(a, n, m)[i - n][j - m] == a[j - m][i - n];
        }
      }
    }
  }

  /** The bottom-right block is the transpose of the top-left block. */
  lemma BottomRightIsTranspose(p1: Matrix, capped: seq<bool>, m: nat, birth: real, death: real, i: nat, j: nat)
    requires IsMatrix(p1, |capped|, m) && i < m && j < |capped|
    ensures Cost(p1, capped, m, birth, death)[|capped| + i][m + j] == Cost(p1, capped, m, birth, death)[j][i]
  {
    CostEntries(p1, capped, m, birth, death);
  }
}
