/**
 * Clean-up of the label volume (`_clean_up_annotations`): every frame is
 * renumbered so that its k-th smallest distinct label becomes k.
 */
module Labels {

  /** A label plane: one frame's labels, flattened pixel by pixel. */
  type Plane = seq<int>

  ghost predicate StrictlyIncreasing(u: seq<int>) {
    forall i, j :: 0 <= i < j < |u| ==> u[i] < u[j]
  }

  function Elements(s: seq<int>): set<int> {
    set x | x in s
  }

  /** Inserts `x` into a strictly increasing sequence, keeping it so. */
  function Insert(x: int, u: seq<int>): (r: seq<int>)
    requires StrictlyIncreasing(u)
    ensures StrictlyIncreasing(r)
    ensures Elements(r) == Elements(u) + {x}
  {
    if u == [] then [x]
    else if x < u[0] then
      InsertFront(x, u);
      [x] + u
    else if x == u[0] then
      ConsElements(u[0], u[1..]);
      u
    else
      var rest := Insert(x, u[1..]);
      InsertInner(x, u, rest);
      [u[0]] + rest
  }

  /** The elements of a sequence with one value put in front. */
  lemma ConsElements(a: int, s: seq<int>)
    ensures Elements([a] + s) == {a} + Elements(s)
  {
    assert forall x :: x in [a] + s <==> x == a || x in s;
  }

  /** Insert's first case: a value below the head goes in front. */
  lemma InsertFront(x: int, u: seq<int>)
    requires StrictlyIncreasing(u) && |u| > 0 && x < u[0]
    ensures StrictlyIncreasing([x] + u) && Elements([x] + u) == Elements(u) + {x}
  {
    ConsIncreasing(x, u);
    ConsElements(x, u);
  }

  /** Insert's recursive case: the head stays in front of the insertion into the tail. */
  lemma InsertInner(x: int, u: seq<int>, rest: seq<int>)
    requires StrictlyIncreasing(u) && |u| > 0 && u[0] < x
    requires StrictlyIncreasing(rest) && Elements(rest) == Elements(u[1..]) + {x}
    ensures StrictlyIncreasing([u[0]] + rest) && Elements([u[0]] + rest) == Elements(u) + {x}
  {
    ConsElements(u[0], u[1..]);
    ConsElements(u[0], rest);
    assert u == [u[0]] + u[1..];
    forall k | 0 <= k < |rest|
      ensures u[0] < rest[k]
    {
      assert rest[k] in Elements(rest);
    }
    ConsIncreasing(u[0], rest);
  }

  /** A value below every element of a strictly increasing sequence can be put in front. */
  lemma ConsIncreasing(a: int, s: seq<int>)
    requires StrictlyIncreasing(s) && forall k :: 0 <= k < |s| ==> a < s[k]
    ensures StrictlyIncreasing([a] + s)
  {
    var r := [a] + s;
    forall i, j | 0 <= i < j < |r|
      ensures r[i] < r[j]
    {
      assert r[j] == s[j - 1];
      if i > 0 {
        assert r[i] == s[i - 1];
      }
    }
  }

  /** The distinct labels of a plane in increasing order (numpy's `unique`). */
  function Unique(p: seq<int>): (u: seq<int>)
    ensures StrictlyIncreasing(u)
    ensures Elements(u) == Elements(p)
  {
    if p == [] then []
    else
      assert p == p[..|p| - 1] + [p[|p| - 1]];
      Insert(p[|p| - 1], Unique(p[..|p| - 1]))
  }

  /** The position of `x` in `u`: the new label `enumerate` gives it. */
  function IndexOf(u: seq<int>, x: int): (k: nat)
    requires x in u
    ensures k < |u| && u[k] == x
  {
    if u[0] == x then 0 else 1 + IndexOf(u[1..], x)
  }

  /** One frame after clean-up: each pixel carries the rank of its label among the frame's distinct labels. */
  function Relabel(p: Plane): (r: seq<nat>)
    ensures |r| == |p|
  {
    var u := Unique(p);
    seq(|p|, i requires 0 <= i < |p| => assert p[i] in Elements(p); IndexOf(u, p[i]))
  }

  /** The largest label of a non-empty plane (`np.amax`). */
  function MaxOf(p: seq<int>): (r: int)
    requires |p| > 0
    ensures r in p
    ensures forall i :: 0 <= i < |p| ==> p[i] <= r
  {
    if |p| == 1 then p[0]
    else
      var m := MaxOf(p[..|p| - 1]);
      assert forall i :: 0 <= i < |p| - 1 ==> p[..|p| - 1][i] == p[i];
      if p[|p| - 1] > m then p[|p| - 1] else m
  }

  lemma IndexOfAt(u: seq<int>, k: nat)
    requires StrictlyIncreasing(u) && k < |u|
    ensures IndexOf(u, u[k]) == k
  {
  }

  /** Clean-up keeps equal labels equal and different labels different. */
  lemma RelabelKeepsIdentity(p: Plane, i: nat, j: nat)
    requires i < |p| && j < |p|
    ensures Relabel(p)[i] == Relabel(p)[j] <==> p[i] == p[j]
  {
  }

  /** Clean-up keeps the order of labels. */
  lemma RelabelKeepsOrder(p: Plane, i: nat, j: nat)
    requires i < |p| && j < |p|
    ensures Relabel(p)[i] < Relabel(p)[j] <==> p[i] < p[j]
  {
  }

  /** A strictly increasing sequence has as many elements as its length. */
  lemma {:induction false} DistinctCount(u: seq<int>)
    requires StrictlyIncreasing(u)
    ensures |Elements(u)| == |u|
  {
    if u != [] {
      DistinctCount(u[1..]);
      assert Elements(u) == {u[0]} + Elements(u[1..]);
      assert u[0] !in Elements(u[1..]);
    }
  }

  /**
   * After clean-up a frame uses exactly the labels 0 .. k-1, where k is its
   * number of distinct labels, so its new largest label is k - 1.
   */
  lemma RelabelRange(p: Plane)
    requires |p| > 0
    ensures |Unique(p)| == |Elements(p)|
    ensures forall i :: 0 <= i < |p| ==> Relabel(p)[i] < |Elements(p)|
    ensures forall k :: 0 <= k < |Elements(p)| ==> k in Relabel(p)
    ensures MaxOf(Relabel(p)) == |Elements(p)| - 1
  {
    var u, r := Unique(p), Relabel(p);
    DistinctCount(u);
    forall k | 0 <= k < |u|
      ensures k in r
    {
      assert u[k] in Elements(p);
      var i :| 0 <= i < |p| && p[i] == u[k];
      IndexOfAt(u, k);
      assert r[i] == k;
    }
    var m := MaxOf(r);
    assert |u| - 1 in r;
  }

  /** The nested loop of `_clean_up_annotations` over one frame. */
  method RelabelFrame(p: Plane) returns (r: seq<nat>)
    ensures r == Relabel(p)
  {
    var u := Unique(p);
    r := seq(|p|, _ => 0);
    for k := 0 to |u|
      invariant |r| == |p|
      invariant forall i :: 0 <= i < |p| ==>
                  assert p[i] in Elements(p);
                  r[i] == if IndexOf(u, p[i]) < k then IndexOf(u, p[i]) else 0
    {
      for i := 0 to |p|
        invariant |r| == |p|
        invariant forall j :: 0 <= j < |p| ==>
                    assert p[j] in Elements(p);
                    r[j] == if IndexOf(u, p[j]) < k || (j < i && IndexOf(u, p[j]) == k) then IndexOf(u, p[j]) else 0
      {
        if p[i] == u[k] {
          IndexOfAt(u, k);
          r := r[i := k];
        }
      }
    }
  }

  /** `_clean_up_annotations`: every frame of the volume is relabelled. */
  method CleanUpAnnotations(y: seq<Plane>) returns (r: seq<seq<nat>>)
    ensures |r| == |y|
    ensures forall f :: 0 <= f < |y| ==> r[f] == Relabel(y[f])
  {
    r := [];
    for f := 0 to |y|
      invariant |r| == f
      invariant forall g :: 0 <= g < f ==> r[g] == Relabel(y[g])
    {
      var plane := RelabelFrame(y[f]);
      r := r + [plane];
    }
  }
}
