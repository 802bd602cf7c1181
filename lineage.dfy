/**
 * What one update promises about the tracks and the output plane: the
 * parent rule, the effect of each kind of pair, capping and repair, and
 * the track store's invariant across updates and the frame loop.
 */
module Lineage {
  import opened Wrappers
  import opened Features
  import opened Tracks
  import opened Assignment
  import opened Lifecycle

  // ---------------------------------------------------------- parent search

  /**
   * A parent is found exactly when some capped-zeroed score exceeds
   * `division`; it is then the first track with the highest score.
   */
  lemma ParentChoice(cfg: Config, ts: seq<Track>, cell: Bundle)
    requires |ts| > 0 && cfg.trackLength > 0 && AllFetchable(cfg.features, ts)
    ensures var probs := ParentScores(cfg, ts, cell);
      ParentOf(cfg, ts, cell).Some? <==> exists i :: 0 <= i < |ts| && probs[i] > cfg.division
    ensures var probs := ParentScores(cfg, ts, cell);
      ParentOf(cfg, ts, cell).Some? ==>
        var k := ParentOf(cfg, ts, cell).value;
        && probs[k] > cfg.division
        && (forall i :: 0 <= i < |ts| ==> probs[i] <= probs[k])
        && (forall i :: 0 <= i < k ==> probs[i] < probs[k])
  {
    var probs := ParentScores(cfg, ts, cell);
    var k := FirstArgMax(probs);
    if exists i :: 0 <= i < |ts| && probs[i] > cfg.division {
      var i :| 0 <= i < |ts| && probs[i] > cfg.division;
      assert probs[i] <= probs[k];
    }
  }

  /** With a non-negative `division` threshold a capped track (score 0) is never chosen as a parent. */
  lemma ParentNeverCapped(cfg: Config, ts: seq<Track>, cell: Bundle)
    requires |ts| > 0 && cfg.trackLength > 0 && AllFetchable(cfg.features, ts)
    requires cfg.division >= 0.0
    ensures ParentOf(cfg, ts, cell).Some? ==> !ts[ParentOf(cfg, ts, cell).value].capped
  {
    var probs := ParentScores(cfg, ts, cell);
    var k := FirstArgMax(probs);
    if ts[k].capped {
      assert probs[k] == 0.0;
    }
  }

  // ------------------------------------------------------- pairs, one by one

  /** Two records that differ at most in their lineage links. */
  ghost predicate SameCore(a: Track, b: Track) {
    a.cellLabel == b.cellLabel && a.frames == b.frames && a.capped == b.capped && a.history == b.history
  }

  /**
   * The links a birth writes (lines 296-302): the newborn's parent is the
   * one the search over all tracks, the newborn included, returns; that
   * parent's daughters gain exactly the newborn; no other track's parent
   * or daughters change.
   */
  ghost predicate BirthLinks(cfg: Config, ts: seq<Track>, frame: nat, cellId: nat, r: seq<Track>)
    requires cfg.trackLength > 0 && AllFetchable(cfg.features, ts)
  {
    var cell := cfg.extract(frame, cellId);
    var ts1 := ts + [NewTrack(frame, cellId, cell)];
    assert Fetchable(cfg.features, ts1[|ts|].history);
    var parent := ParentOf(cfg, ts1, cell);
    && |r| == |ts1|
    && r[|ts|].parent == parent
    && (forall u :: 0 <= u < |ts| ==> r[u].parent == ts[u].parent)
    && (forall u :: 0 <= u < |ts1| ==> r[u].daughters == ts1[u].daughters + (if parent == Some(u) then [|ts|] else []))
  }

  /** The links of the tracks are the same in both stores. */
  ghost predicate LinksKept(ts: seq<Track>, r: seq<Track>) {
    |r| == |ts| && forall u :: 0 <= u < |ts| ==> r[u].parent == ts[u].parent && r[u].daughters == ts[u].daughters
  }

  /**
   * A birth adds one track, created for the cell, and links it to the
   * parent found; it changes no other track's label, frames, capped flag
   * or history.
   */
  lemma BirthKeeps(cfg: Config, ts: seq<Track>, frame: nat, cellId: nat)
    requires cfg.trackLength > 0 && AllFetchable(cfg.features, ts)
    ensures var r := Birth(cfg, ts, frame, cellId);
      && (forall t :: 0 <= t < |ts| ==> SameCore(r[t], ts[t]))
      && SameCore(r[|ts|], NewTrack(frame, cellId, cfg.extract(frame, cellId)))
  {
  }

  /** A birth writes exactly the links of lines 296-302. */
  lemma BirthLinked(cfg: Config, ts: seq<Track>, frame: nat, cellId: nat, r: seq<Track>)
    requires cfg.trackLength > 0 && AllFetchable(cfg.features, ts)
    requires r == Birth(cfg, ts, frame, cellId)
    ensures BirthLinks(cfg, ts, frame, cellId, r)
  {
    var cell := cfg.extract(frame, cellId);
    var ts1 := ts + [NewTrack(frame, cellId, cell)];
    assert Fetchable(cfg.features, ts1[|ts|].history);
    var parent := ParentOf(cfg, ts1, cell);
    if parent.Some? {
      assert r == Link(ts1, parent.value, |ts|);
    } else {
      assert r == ts1;
    }
  }

  /** A continuation changes no link. */
  lemma ContinueKeepsLinks(ts: seq<Track>, t: nat, frame: nat, cell: Bundle)
    requires t < |ts|
    ensures LinksKept(ts, ts[t := Continue(ts[t], frame, cell)])
  {
  }

  /**
   * One pair changes at most one old track's label, frames, capped flag
   * or history: a continuation adds the frame and the cell's features to
   * its track, a birth appends a track made for the cell.
   */
  lemma StepKeeps(cfg: Config, n: nat, m: nat, frame: nat, plane: seq<nat>, st: State, pair: (nat, nat))
    requires Steppable(cfg, n, plane, st)
    ensures var r := Step(cfg, n, m, frame, plane, st, pair).tracks;
      var (t, c) := pair;
      && (t < n && c < m ==> |r| == |st.tracks| && r[t] == Continue(st.tracks[t], frame, cfg.extract(frame, c + 1)))
      && (t >= n && c < m ==> |r| == |st.tracks| + 1 && SameCore(r[|st.tracks|], NewTrack(frame, c + 1, cfg.extract(frame, c + 1))))
      && (c >= m ==> r == st.tracks)
      && (forall u :: 0 <= u < |st.tracks| && (u != t || c >= m) ==> SameCore(r[u], st.tracks[u]))
  {
    var (t, c) := pair;
    if t >= n && c < m {
      BirthKeeps(cfg, st.tracks, frame, c + 1);
    }
  }

  /** A pair continuing track t with cell c changes no parent or daughters. */
  lemma StepContinueLinks(cfg: Config, n: nat, m: nat, frame: nat, plane: seq<nat>, st: State, pair: (nat, nat))
    requires Steppable(cfg, n, plane, st) && pair.0 < n && pair.1 < m
    ensures LinksKept(st.tracks, Step(cfg, n, m, frame, plane, st, pair).tracks)
  {
    var (t, c) := pair;
    var cell := cfg.extract(frame, c + 1);
    assert Step(cfg, n, m, frame, plane, st, pair).tracks == st.tracks[t := Continue(st.tracks[t], frame, cell)];
    ContinueKeepsLinks(st.tracks, t, frame, cell);
  }

  /** A pair pairing a birth row with cell c writes the links of a birth, as BirthLinks says. */
  lemma StepBirthLinks(cfg: Config, n: nat, m: nat, frame: nat, plane: seq<nat>, st: State, pair: (nat, nat))
    requires Steppable(cfg, n, plane, st) && pair.0 >= n && pair.1 < m
    ensures BirthLinks(cfg, st.tracks, frame, pair.1 + 1, Step(cfg, n, m, frame, plane, st, pair).tracks)
  {
    StepBirthIsBirth(cfg, n, m, frame, plane, st, pair);
    BirthLinked(cfg, st.tracks, frame, pair.1 + 1, Step(cfg, n, m, frame, plane, st, pair).tracks);
  }

  /** A pair pairing a birth row with cell c is the birth of a track for label c + 1. */
  lemma StepBirthIsBirth(cfg: Config, n: nat, m: nat, frame: nat, plane: seq<nat>, st: State, pair: (nat, nat))
    requires Steppable(cfg, n, plane, st) && pair.0 >= n && pair.1 < m
    ensures Step(cfg, n, m, frame, plane, st, pair).tracks == Birth(cfg, st.tracks, frame, pair.1 + 1)
  {
  }

  /** The pairs handled before pair k: pair a is (a, sigma[a]). */
  function Handled(sigma: seq<nat>, k: nat): seq<(nat, nat)>
    requires k <= |sigma|
  {
    Pairs(sigma)[..k]
  }

  /** Handling the first k pairs is handling the first k-1 and then pair k-1. */
  lemma ApplyHandled(cfg: Config, n: nat, m: nat, frame: nat, plane: seq<nat>, st: State, sigma: seq<nat>, k: nat)
    requires Steppable(cfg, n, plane, st) && 0 < k <= |sigma|
    ensures Apply(cfg, n, m, frame, plane, st, Handled(sigma, k)) ==
      Step(cfg, n, m, frame, plane, Apply(cfg, n, m, frame, plane, st, Handled(sigma, k - 1)), (k - 1, sigma[k - 1]))
  {
    var pairs := Handled(sigma, k);
    assert pairs[..k - 1] == Handled(sigma, k - 1);
    assert pairs[k - 1] == (k - 1, sigma[k - 1]);
  }

  /**
   * Old track t has been continued exactly when t < k and its cell
   * sigma[t] is a cell of the frame: it then holds the frame and that
   * cell's features once more. Its label and capped flag are unchanged.
   */
  ghost predicate ContinuedUpTo(cfg: Config, frame: nat, ts: seq<Track>, m: nat, sigma: seq<nat>, k: nat, r: seq<Track>)
    requires k <= |sigma| && |r| >= |ts|
  {
    forall t :: 0 <= t < |ts| ==>
      && r[t].cellLabel == ts[t].cellLabel
      && r[t].capped == ts[t].capped
      && r[t].frames == ts[t].frames + (if t < k && sigma[t] < m then [frame] else [])
      && r[t].history == (if t < k && sigma[t] < m then ts[t].history.Append(cfg.extract(frame, sigma[t] + 1)) else ts[t].history)
  }

  /** Continuing old track k-1 (when its cell is a cell of the frame) and keeping every other track's core extends the continued prefix. */
  lemma ContinuedUpToNext(cfg: Config, frame: nat, ts: seq<Track>, m: nat, sigma: seq<nat>, k: nat, prev: seq<Track>, r: seq<Track>)
    requires 0 < k <= |sigma| && |prev| >= |ts| && |r| >= |prev|
    requires ContinuedUpTo(cfg, frame, ts, m, sigma, k - 1, prev)
    requires k - 1 < |ts| && sigma[k - 1] < m ==> r[k - 1] == Continue(prev[k - 1], frame, cfg.extract(frame, sigma[k - 1] + 1))
    requires forall u :: 0 <= u < |prev| && (u != k - 1 || sigma[k - 1] >= m) ==> SameCore(r[u], prev[u])
    ensures ContinuedUpTo(cfg, frame, ts, m, sigma, k, r)
  {
    forall t | 0 <= t < |ts|
      ensures r[t].cellLabel == ts[t].cellLabel && r[t].capped == ts[t].capped
      ensures r[t].frames == ts[t].frames + (if t < k && sigma[t] < m then [frame] else [])
      ensures r[t].history == (if t < k && sigma[t] < m then ts[t].history.Append(cfg.extract(frame, sigma[t] + 1)) else ts[t].history)
    {
      if t != k - 1 || sigma[t] >= m {
        assert SameCore(r[t], prev[t]);
      }
    }
  }

  /** Pair k-1 continues old track k-1 when its cell is a cell of the frame, and no other old track. */
  lemma StepContinuations(cfg: Config, frame: nat, plane: seq<nat>, ts: seq<Track>, m: nat, sigma: seq<nat>, k: nat, st: State)
    requires Steppable(cfg, |ts|, plane, st) && 0 < k <= |sigma| && |st.tracks| >= |ts|
    requires ContinuedUpTo(cfg, frame, ts, m, sigma, k - 1, st.tracks)
    ensures ContinuedUpTo(cfg, frame, ts, m, sigma, k, Step(cfg, |ts|, m, frame, plane, st, (k - 1, sigma[k - 1])).tracks)
  {
    StepKeeps(cfg, |ts|, m, frame, plane, st, (k - 1, sigma[k - 1]));
    ContinuedUpToNext(cfg, frame, ts, m, sigma, k, st.tracks, Step(cfg, |ts|, m, frame, plane, st, (k - 1, sigma[k - 1])).tracks);
  }

  /**
   * After the first k pairs, an old track t has been continued exactly
   * when t < k and its cell sigma[t] is a cell of the frame: it then
   * holds the frame and that cell's features once more. Its label and
   * capped flag are unchanged.
   */
  lemma ApplyContinuations(cfg: Config, frame: nat, plane: seq<nat>, ts: seq<Track>, m: nat, sigma: seq<nat>, k: nat)
    requires cfg.trackLength > 0 && AllFetchable(cfg.features, ts) && k <= |sigma|
    ensures var r := Apply(cfg, |ts|, m, frame, plane, Start(ts, |plane|), Handled(sigma, k)).tracks;
      forall t :: 0 <= t < |ts| ==>
        && r[t].cellLabel == ts[t].cellLabel
        && r[t].capped == ts[t].capped
        && r[t].frames == ts[t].frames + (if t < k && sigma[t] < m then [frame] else [])
        && r[t].history == (if t < k && sigma[t] < m then ts[t].history.Append(cfg.extract(frame, sigma[t] + 1)) else ts[t].history)
  {
    ApplyContinued(cfg, frame, plane, ts, m, sigma, k);
  }

  /** ApplyContinuations stated through ContinuedUpTo, by induction on k. */
  lemma {:induction false} ApplyContinued(cfg: Config, frame: nat, plane: seq<nat>, ts: seq<Track>, m: nat, sigma: seq<nat>, k: nat)
    requires cfg.trackLength > 0 && AllFetchable(cfg.features, ts) && k <= |sigma|
    ensures ContinuedUpTo(cfg, frame, ts, m, sigma, k, Apply(cfg, |ts|, m, frame, plane, Start(ts, |plane|), Handled(sigma, k)).tracks)
  {
    if k > 0 {
      ApplyContinued(cfg, frame, plane, ts, m, sigma, k - 1);
      ApplyContinuedStep(cfg, frame, plane, ts, m, sigma, k - 1, k);
    } else {
      assert Apply(cfg, |ts|, m, frame, plane, Start(ts, |plane|), Handled(sigma, k)).tracks == ts;
    }
  }

  /** Handling pair j extends the continued prefix from j pairs to k = j + 1. */
  lemma ApplyContinuedStep(cfg: Config, frame: nat, plane: seq<nat>, ts: seq<Track>, m: nat, sigma: seq<nat>, j: nat, k: nat)
    requires cfg.trackLength > 0 && AllFetchable(cfg.features, ts) && k == j + 1 && k <= |sigma|
    requires ContinuedUpTo(cfg, frame, ts, m, sigma, j, Apply(cfg, |ts|, m, frame, plane, Start(ts, |plane|), Handled(sigma, j)).tracks)
    ensures ContinuedUpTo(cfg, frame, ts, m, sigma, k, Apply(cfg, |ts|, m, frame, plane, Start(ts, |plane|), Handled(sigma, k)).tracks)
  {
    var st0 := Start(ts, |plane|);
    var prev := Apply(cfg, |ts|, m, frame, plane, st0, Handled(sigma, j));
    ApplyHandled(cfg, |ts|, m, frame, plane, st0, sigma, k);
    StepContinuations(cfg, frame, plane, ts, m, sigma, k, prev);
  }

  /** Every track from index n on was born in this frame for one of its m cells. */
  ghost predicate BornInFrame(cfg: Config, frame: nat, m: nat, n: nat, ts: seq<Track>) {
    forall b :: n <= b < |ts| ==>
      && ts[b].frames == [frame]
      && !ts[b].capped
      && 1 <= ts[b].cellLabel <= m
      && ts[b].history == Single(cfg.extract(frame, ts[b].cellLabel))
  }

  /** A pair keeps the tracks from index n on born in this frame. */
  lemma StepBirths(cfg: Config, n: nat, m: nat, frame: nat, plane: seq<nat>, st: State, pair: (nat, nat))
    requires Steppable(cfg, n, plane, st) && BornInFrame(cfg, frame, m, n, st.tracks)
    ensures BornInFrame(cfg, frame, m, n, Step(cfg, n, m, frame, plane, st, pair).tracks)
  {
    StepKeeps(cfg, n, m, frame, plane, st, pair);
    var r := Step(cfg, n, m, frame, plane, st, pair).tracks;
    var (t, c) := pair;
    forall b | n <= b < |r|
      ensures r[b].frames == [frame] && !r[b].capped && 1 <= r[b].cellLabel <= m
      ensures r[b].history == Single(cfg.extract(frame, r[b].cellLabel))
    {
      if b < |st.tracks| {
        assert SameCore(r[b], st.tracks[b]);
      } else {
        assert SameCore(r[b], NewTrack(frame, c + 1, cfg.extract(frame, c + 1)));
      }
    }
  }

  /**
   * After the first k pairs, every track created by a birth is seen in
   * this frame only, is not capped, carries the label of a cell of the
   * frame and that cell's features.
   */
  lemma {:induction false} ApplyBirths(cfg: Config, frame: nat, plane: seq<nat>, ts: seq<Track>, m: nat, sigma: seq<nat>, k: nat)
    requires cfg.trackLength > 0 && AllFetchable(cfg.features, ts) && k <= |sigma|
    ensures BornInFrame(cfg, frame, m, |ts|, Apply(cfg, |ts|, m, frame, plane, Start(ts, |plane|), Handled(sigma, k)).tracks)
  {
    var n := |ts|;
    var st0 := Start(ts, |plane|);
    if k > 0 {
      ApplyBirths(cfg, frame, plane, ts, m, sigma, k - 1);
      var prev := Apply(cfg, n, m, frame, plane, st0, Handled(sigma, k - 1));
      ApplyHandled(cfg, n, m, frame, plane, st0, sigma, k);
      StepBirths(cfg, n, m, frame, plane, prev, (k - 1, sigma[k - 1]));
    }
  }

  // ------------------------------------------------------------ output plane

  /**
   * Every non-zero output pixel lies on a cell of the frame and names a
   * track seen in this frame: an old track paired with that cell, or a
   * track born for it.
   */
  ghost predicate Painted(frame: nat, n: nat, m: nat, plane: seq<nat>, sigma: seq<nat>, st: State) {
    && |st.out| == |plane|
    && forall p :: 0 <= p < |plane| && st.out[p] != 0 ==>
        && 1 <= plane[p] <= m
        && st.out[p] - 1 < |st.tracks|
        && frame in st.tracks[st.out[p] - 1].frames
        && (st.out[p] - 1 < n ==> st.out[p] - 1 < |sigma| && sigma[st.out[p] - 1] + 1 == plane[p])
        && (st.out[p] - 1 >= n ==> st.tracks[st.out[p] - 1].cellLabel == plane[p])
  }

  /** Every pixel of a cell that some pair assigns is painted. */
  ghost predicate Covered(m: nat, plane: seq<nat>, pairs: seq<(nat, nat)>, st: State) {
    && |st.out| == |plane|
    && forall p :: 0 <= p < |plane| && 1 <= plane[p] <= m && AssignsColumn(pairs, plane[p] - 1) ==> st.out[p] != 0
  }

  /** A column assigned by the first k pairs is assigned by the first k-1 or by pair k-1. */
  lemma AssignsColumnHandled(sigma: seq<nat>, k: nat, c: nat)
    requires 0 < k <= |sigma|
    ensures AssignsColumn(Handled(sigma, k), c) ==> AssignsColumn(Handled(sigma, k - 1), c) || sigma[k - 1] == c
  {
    if AssignsColumn(Handled(sigma, k), c) {
      var a :| 0 <= a < k && Handled(sigma, k)[a].1 == c;
      if a < k - 1 {
        assert Handled(sigma, k - 1)[a].1 == c;
      }
    }
  }

  /** A pair paints its cell, if it is a cell of the frame, with the track it continues or creates. */
  lemma StepOut(cfg: Config, n: nat, m: nat, frame: nat, plane: seq<nat>, st: State, pair: (nat, nat))
    requires Steppable(cfg, n, plane, st)
    ensures var r := Step(cfg, n, m, frame, plane, st, pair);
      r.out == if pair.1 < m then Paint(st.out, plane, pair.1 + 1, if pair.0 < n then pair.0 + 1 else |st.tracks| + 1) else st.out
  {
  }

  /** Painting cell c+1 with track v, seen in this frame and belonging to that cell, keeps the plane painted. */
  lemma PaintKeepsPainted(frame: nat, n: nat, m: nat, plane: seq<nat>, sigma: seq<nat>, st: State, r: State, c: nat, v: nat)
    requires Painted(frame, n, m, plane, sigma, st) && c < m
    requires r.out == Paint(st.out, plane, c + 1, v + 1)
    requires |r.tracks| >= |st.tracks| && v < |r.tracks| && frame in r.tracks[v].frames
    requires v < n ==> v < |sigma| && sigma[v] == c
    requires v >= n ==> v >= |st.tracks| && r.tracks[v].cellLabel == c + 1
    requires forall u :: 0 <= u < |st.tracks| && u != v ==> SameCore(r.tracks[u], st.tracks[u])
    ensures Painted(frame, n, m, plane, sigma, r)
  {
    forall p | 0 <= p < |plane| && r.out[p] != 0
      ensures 1 <= plane[p] <= m && r.out[p] - 1 < |r.tracks| && frame in r.tracks[r.out[p] - 1].frames
      ensures r.out[p] - 1 < n ==> r.out[p] - 1 < |sigma| && sigma[r.out[p] - 1] + 1 == plane[p]
      ensures r.out[p] - 1 >= n ==> r.tracks[r.out[p] - 1].cellLabel == plane[p]
    {
      if plane[p] != c + 1 {
        assert r.out[p] == st.out[p];
        var u := r.out[p] - 1;
        if u != v {
          assert SameCore(r.tracks[u], st.tracks[u]);
        }
      }
    }
  }

  /** Pair k-1 keeps the output plane painted. */
  lemma StepPainted(cfg: Config, n: nat, m: nat, frame: nat, plane: seq<nat>, st: State, sigma: seq<nat>, k: nat)
    requires Steppable(cfg, n, plane, st) && 0 < k <= |sigma|
    requires Painted(frame, n, m, plane, sigma, st)
    ensures Painted(frame, n, m, plane, sigma, Step(cfg, n, m, frame, plane, st, (k - 1, sigma[k - 1])))
  {
    var t, c := k - 1, sigma[k - 1];
    StepKeeps(cfg, n, m, frame, plane, st, (t, c));
    StepOut(cfg, n, m, frame, plane, st, (t, c));
    var r := Step(cfg, n, m, frame, plane, st, (t, c));
    if c < m {
      var v := if t < n then t else |st.tracks|;
      if t < n {
        assert r.tracks[t].frames == st.tracks[t].frames + [frame];
      }
      PaintKeepsPainted(frame, n, m, plane, sigma, st, r, c, v);
    } else {
      assert r == st;
    }
  }

  /** Pair k-1 keeps every cell assigned so far covered and covers its own cell. */
  lemma StepCovers(cfg: Config, n: nat, m: nat, frame: nat, plane: seq<nat>, st: State, sigma: seq<nat>, k: nat)
    requires Steppable(cfg, n, plane, st) && 0 < k <= |sigma|
    requires Covered(m, plane, Handled(sigma, k - 1), st)
    ensures Covered(m, plane, Handled(sigma, k), Step(cfg, n, m, frame, plane, st, (k - 1, sigma[k - 1])))
  {
    var t, c := k - 1, sigma[k - 1];
    StepOut(cfg, n, m, frame, plane, st, (t, c));
    var r := Step(cfg, n, m, frame, plane, st, (t, c));
    forall p | 0 <= p < |plane| && 1 <= plane[p] <= m && AssignsColumn(Handled(sigma, k), plane[p] - 1)
      ensures r.out[p] != 0
    {
      AssignsColumnHandled(sigma, k, plane[p] - 1);
      if plane[p] - 1 != c {
        assert st.out[p] != 0;
      }
    }
  }

  /** The output plane after the first k pairs is painted and covers every cell they assign. */
  lemma {:induction false} ApplyPaints(cfg: Config, frame: nat, plane: seq<nat>, ts: seq<Track>, m: nat, sigma: seq<nat>, k: nat)
    requires cfg.trackLength > 0 && AllFetchable(cfg.features, ts) && k <= |sigma|
    ensures var r := Apply(cfg, |ts|, m, frame, plane, Start(ts, |plane|), Handled(sigma, k));
      Painted(frame, |ts|, m, plane, sigma, r) && Covered(m, plane, Handled(sigma, k), r)
  {
    var n := |ts|;
    var st0 := Start(ts, |plane|);
    if k > 0 {
      ApplyPaints(cfg, frame, plane, ts, m, sigma, k - 1);
      var prev := Apply(cfg, n, m, frame, plane, st0, Handled(sigma, k - 1));
      ApplyHandled(cfg, n, m, frame, plane, st0, sigma, k);
      StepPainted(cfg, n, m, frame, plane, prev, sigma, k);
      StepCovers(cfg, n, m, frame, plane, prev, sigma, k);
    } else {
      forall p | 0 <= p < |plane|
        ensures st0.out[p] == 0
      {
      }
    }
  }

  // ------------------------------------------------------ store invariant

  /** Linking a parentless track that no track lists as a daughter keeps the links in agreement. */
  lemma LinkKeepsLinked(ts: seq<Track>, p: nat, d: nat)
    requires Linked(ts) && p < |ts| && d < |ts| && ts[d].parent == None
    requires forall q, k :: 0 <= q < |ts| && 0 <= k < |ts[q].daughters| ==> ts[q].daughters[k] != d
    ensures Linked(Link(ts, p, d))
  {
    var r := Link(ts, p, d);
    assert forall x :: 0 <= x < |ts| ==> r[x].parent == (if x == d then Some(p) else ts[x].parent);
    assert forall q :: 0 <= q < |ts| ==> r[q].daughters == ts[q].daughters + (if q == p then [d] else []);
    forall q, k | 0 <= q < |r| && 0 <= k < |r[q].daughters|
      ensures r[q].daughters[k] < |r| && r[r[q].daughters[k]].parent == Some(q)
    {
      if k < |ts[q].daughters| {
        assert r[q].daughters[k] == ts[q].daughters[k];
      }
    }
    forall x | 0 <= x < |r| && r[x].parent.Some?
      ensures r[x].parent.value < |r| && x in r[r[x].parent.value].daughters
    {
      if x != d {
        var y := ts[x].parent.value;
        assert x in ts[y].daughters;
      }
    }
  }

  /** Appending a fresh track keeps the store's invariant. */
  lemma NewTrackKeepsConsistent(fs: set<Feature>, ts: seq<Track>, frame: nat, cellId: int, cell: Bundle)
    requires Consistent(fs, ts)
    ensures Consistent(fs, ts + [NewTrack(frame, cellId, cell)])
    ensures forall q, k :: 0 <= q < |ts| + 1 && 0 <= k < |(ts + [NewTrack(frame, cellId, cell)])[q].daughters| ==>
      (ts + [NewTrack(frame, cellId, cell)])[q].daughters[k] != |ts|
  {
    var r := ts + [NewTrack(frame, cellId, cell)];
    assert forall q :: 0 <= q < |ts| ==> r[q] == ts[q];
  }

  /** Linking a parentless track that no track lists as a daughter keeps the store's invariant. */
  lemma LinkKeepsConsistent(fs: set<Feature>, ts: seq<Track>, p: nat, d: nat)
    requires Consistent(fs, ts) && p < |ts| && d < |ts| && ts[d].parent == None
    requires forall q, k :: 0 <= q < |ts| && 0 <= k < |ts[q].daughters| ==> ts[q].daughters[k] != d
    ensures Consistent(fs, Link(ts, p, d))
  {
    LinkKeepsLinked(ts, p, d);
    var r := Link(ts, p, d);
    assert forall x :: 0 <= x < |r| ==> SameCore(r[x], ts[x]) && |r[x].daughters| >= |ts[x].daughters|;
  }

  /** A birth keeps the store's invariant. */
  lemma BirthKeepsConsistent(cfg: Config, ts: seq<Track>, frame: nat, cellId: nat, r: seq<Track>)
    requires cfg.trackLength > 0 && AllFetchable(cfg.features, ts) && Consistent(cfg.features, ts)
    requires r == Birth(cfg, ts, frame, cellId)
    ensures Consistent(cfg.features, r)
  {
    var cell := cfg.extract(frame, cellId);
    var ts1 := ts + [NewTrack(frame, cellId, cell)];
    NewTrackKeepsConsistent(cfg.features, ts, frame, cellId, cell);
    assert AllFetchable(cfg.features, ts1);
    var parent := ParentOf(cfg, ts1, cell);
    if parent.Some? {
      LinkKeepsConsistent(cfg.features, ts1, parent.value, |ts|);
      assert r == Link(ts1, parent.value, |ts|);
    } else {
      assert r == ts1;
    }
  }

  /** A continuation keeps the store's invariant: frames and every history grow by one entry together. */
  lemma ContinueKeepsConsistent(fs: set<Feature>, ts: seq<Track>, t: nat, frame: nat, cell: Bundle, r: seq<Track>)
    requires Consistent(fs, ts) && t < |ts| && r == ts[t := Continue(ts[t], frame, cell)]
    ensures Consistent(fs, r)
  {
    assert forall x :: 0 <= x < |r| ==>
      (r[x].daughters == ts[x].daughters && r[x].parent == ts[x].parent && r[x].capped == ts[x].capped);
    assert Aligned(fs, r[t]);
  }

  /** Each pair keeps the store's invariant. */
  lemma StepKeepsConsistent(cfg: Config, n: nat, m: nat, frame: nat, plane: seq<nat>, st: State, pair: (nat, nat))
    requires Steppable(cfg, n, plane, st) && Consistent(cfg.features, st.tracks)
    ensures Consistent(cfg.features, Step(cfg, n, m, frame, plane, st, pair).tracks)
  {
    var (t, c) := pair;
    if t < n && c < m {
      StepContinueConsistent(cfg, n, m, frame, plane, st, pair);
    } else if t >= n && c < m {
      StepBirthConsistent(cfg, n, m, frame, plane, st, pair);
    } else {
      assert Step(cfg, n, m, frame, plane, st, pair) == st;
    }
  }

  /** A birth pair keeps the store consistent. */
  lemma StepBirthConsistent(cfg: Config, n: nat, m: nat, frame: nat, plane: seq<nat>, st: State, pair: (nat, nat))
    requires Steppable(cfg, n, plane, st) && Consistent(cfg.features, st.tracks) && pair.0 >= n && pair.1 < m
    ensures Consistent(cfg.features, Step(cfg, n, m, frame, plane, st, pair).tracks)
  {
    StepBirthIsBirth(cfg, n, m, frame, plane, st, pair);
    BirthKeepsConsistent(cfg, st.tracks, frame, pair.1 + 1, Step(cfg, n, m, frame, plane, st, pair).tracks);
  }

  /** A continuation pair keeps the store consistent. */
  lemma StepContinueConsistent(cfg: Config, n: nat, m: nat, frame: nat, plane: seq<nat>, st: State, pair: (nat, nat))
    requires Steppable(cfg, n, plane, st) && Consistent(cfg.features, st.tracks) && pair.0 < n && pair.1 < m
    ensures Consistent(cfg.features, Step(cfg, n, m, frame, plane, st, pair).tracks)
  {
    var (t, c) := pair;
    var cell := cfg.extract(frame, c + 1);
    ContinueKeepsConsistent(cfg.features, st.tracks, t, frame, cell, Step(cfg, n, m, frame, plane, st, pair).tracks);
  }

  /** Handling the first k pairs keeps the store's invariant. */
  lemma {:induction false} ApplyKeepsConsistent(cfg: Config, frame: nat, plane: seq<nat>, ts: seq<Track>, m: nat, sigma: seq<nat>, k: nat)
    requires cfg.trackLength > 0 && AllFetchable(cfg.features, ts) && Consistent(cfg.features, ts) && k <= |sigma|
    ensures Consistent(cfg.features, Apply(cfg, |ts|, m, frame, plane, Start(ts, |plane|), Handled(sigma, k)).tracks)
  {
    var n := |ts|;
    var st0 := Start(ts, |plane|);
    if k > 0 {
      ApplyKeepsConsistent(cfg, frame, plane, ts, m, sigma, k - 1);
      var prev := Apply(cfg, n, m, frame, plane, st0, Handled(sigma, k - 1));
      ApplyHandled(cfg, n, m, frame, plane, st0, sigma, k);
      StepKeepsConsistent(cfg, n, m, frame, plane, prev, (k - 1, sigma[k - 1]));
    }
  }

  // ------------------------------------------------------ capping and repair

  /** Every track with a daughter is capped. */
  ghost predicate DividedCapped(ts: seq<Track>) {
    forall t :: 0 <= t < |ts| && |ts[t].daughters| > 0 ==> ts[t].capped
  }

  /**
   * Capping changes only capped flags, never resets one, and afterwards a
   * track of a consistent store is capped exactly when it has a daughter.
   */
  lemma CapEffect(fs: set<Feature>, ts: seq<Track>)
    requires Consistent(fs, ts)
    ensures Consistent(fs, Cap(ts)) && DividedCapped(Cap(ts))
    ensures forall t :: 0 <= t < |ts| ==> (Cap(ts)[t].capped <==> |ts[t].daughters| > 0)
    ensures forall t :: 0 <= t < |ts| ==> Cap(ts)[t] == ts[t].(capped := Cap(ts)[t].capped)
  {
    var r := Cap(ts);
    assert forall x :: 0 <= x < |r| ==>
      (SameCore(r[x], ts[x].(capped := r[x].capped)) && r[x].daughters == ts[x].daughters && r[x].parent == ts[x].parent);
  }

  /** The position of the first occurrence of x. */
  function FirstIndex(s: seq<nat>, x: nat): (i: nat)
    requires x in s
    ensures i < |s| && s[i] == x && x !in s[..i]
  {
    if s[0] == x then 0
    else
      var j := FirstIndex(s[1..], x);
      assert s[..j + 1] == [s[0]] + s[1..][..j];
      j + 1
  }

  /** `list.remove` drops exactly the first occurrence and keeps the order of the rest. */
  lemma {:induction false} RemoveFirstSpec(s: seq<nat>, x: nat)
    requires x in s
    ensures RemoveFirst(s, x) == s[..FirstIndex(s, x)] + s[FirstIndex(s, x) + 1..]
  {
    if s[0] != x {
      RemoveFirstSpec(s[1..], x);
      var j := FirstIndex(s[1..], x);
      assert FirstIndex(s, x) == j + 1;
      assert s[..j + 1] == [s[0]] + s[1..][..j];
      assert s[j + 2..] == s[1..][j + 1..];
    }
  }

  /** The newest entry of every configured history of `before` was moved from `kept` to `moved`. */
  ghost predicate MovedNewest(fs: set<Feature>, before: History, kept: History, moved: History) {
    && (Appearance in fs ==> kept.appearance + moved.appearance == before.appearance && |moved.appearance| == 1)
    && (Distance in fs ==> kept.distance + moved.distance == before.distance && |moved.distance| == 1)
    && (Neighborhood in fs ==> kept.neighborhood + moved.neighborhood == before.neighborhood && |moved.neighborhood| == 1)
    && (Perimeter in fs ==> kept.perimeter + moved.perimeter == before.perimeter && |moved.perimeter| == 1)
  }

  /** The repair condition of lines 319-320. */
  predicate NeedsRepair(tr: Track, frame: nat) {
    |tr.daughters| > 0 && frame in tr.frames
  }

  /**
   * Repair of track t. Without a daughter or without the current frame
   * nothing changes. Otherwise a new track (id = the old count) with
   * parent t and t's label takes the frame and the newest entry of
   * every configured history from t and joins t's daughters; t keeps all
   * its other frames in order; no other track changes.
   */
  lemma RepairOneTracks(cfg: Config, frame: nat, st: State, t: nat)
    requires t < |st.tracks| && Consistent(cfg.features, st.tracks)
    ensures var r := RepairOne(cfg, frame, st, t);
      !NeedsRepair(st.tracks[t], frame) ==> r == st
    ensures var r := RepairOne(cfg, frame, st, t).tracks;
      var tr, id := st.tracks[t], |st.tracks|;
      NeedsRepair(tr, frame) ==>
        && |r| == id + 1
        && (forall u :: 0 <= u < id && u != t ==> r[u] == st.tracks[u])
        && r[id].parent == Some(t) && r[id].cellLabel == tr.cellLabel
        && r[id].frames == [frame] && r[id].daughters == [] && !r[id].capped
        && r[t].daughters == tr.daughters + [id]
        && r[t].parent == tr.parent && r[t].capped == tr.capped && r[t].cellLabel == tr.cellLabel
        && r[t].frames == tr.frames[..FirstIndex(tr.frames, frame)] + tr.frames[FirstIndex(tr.frames, frame) + 1..]
        && MovedNewest(cfg.features, tr.history, r[t].history, r[id].history)
  {
    var tr := st.tracks[t];
    if NeedsRepair(tr, frame) {
      var r := RepairOne(cfg, frame, st, t).tracks;
      var id := |st.tracks|;
      var created := NewTrack(frame, tr.cellLabel, cfg.extract(frame, tr.cellLabel));
      var daughter := created.(history := created.history.TakeLast(cfg.features, tr.history), parent := Some(t));
      var parent := tr.(frames := RemoveFirst(tr.frames, frame), history := tr.history.DropLast(cfg.features),
                        daughters := tr.daughters + [id]);
      assert r == (st.tracks + [daughter])[t := parent];
      assert r[id] == daughter && r[t] == parent;
      RemoveFirstSpec(tr.frames, frame);
      assert Aligned(cfg.features, tr);
      MovedNewestByRepair(cfg.features, tr.history, created.history);
    }
  }

  /** Dropping the newest entries and taking them into a one-entry history moves them. */
  lemma MovedNewestByRepair(fs: set<Feature>, h: History, start: History)
    requires forall f :: f in fs ==> h.Length(f) > 0
    ensures MovedNewest(fs, h, h.DropLast(fs), start.TakeLast(fs, h))
  {
    if Appearance in fs {
      assert h.Length(Appearance) > 0;
      InitLast(h.appearance);
    }
    if Distance in fs {
      assert h.Length(Distance) > 0;
      InitLast(h.distance);
    }
    if Neighborhood in fs {
      assert h.Length(Neighborhood) > 0;
      InitLast(h.neighborhood);
    }
    if Perimeter in fs {
      assert h.Length(Perimeter) > 0;
      InitLast(h.perimeter);
    }
  }

  lemma InitLast<T>(s: seq<T>)
    requires |s| > 0
    ensures Init(s) + Last(s) == s && |Last(s)| == 1
  {
    assert s == s[..|s| - 1] + [s[|s| - 1]];
  }

  /** Repair of track t moves the pixels naming t to the new track and changes no other pixel. */
  lemma RepairOneOut(cfg: Config, frame: nat, st: State, t: nat)
    requires t < |st.tracks|
    ensures var r := RepairOne(cfg, frame, st, t);
      NeedsRepair(st.tracks[t], frame) ==>
        forall p :: 0 <= p < |st.out| ==> r.out[p] == if st.out[p] == t + 1 then |st.tracks| + 1 else st.out[p]
  {
  }

  /** Every non-zero output pixel names a track that is seen in the current frame. */
  ghost predicate OutNamesTracks(frame: nat, st: State) {
    forall p :: 0 <= p < |st.out| && st.out[p] != 0 ==>
      st.out[p] - 1 < |st.tracks| && frame in st.tracks[st.out[p] - 1].frames
  }

  /** Repair keeps parent and daughter links in agreement. */
  lemma RepairOneLinked(cfg: Config, frame: nat, st: State, t: nat)
    requires t < |st.tracks| && Consistent(cfg.features, st.tracks)
    ensures Linked(RepairOne(cfg, frame, st, t).tracks)
  {
    RepairOneTracks(cfg, frame, st, t);
    var tr, id := st.tracks[t], |st.tracks|;
    if NeedsRepair(tr, frame) {
      var r := RepairOne(cfg, frame, st, t).tracks;
      forall q, k | 0 <= q < |r| && 0 <= k < |r[q].daughters|
        ensures r[q].daughters[k] < |r| && r[r[q].daughters[k]].parent == Some(q)
      {
        if q != id && !(q == t && k == |tr.daughters|) {
          var x := st.tracks[q].daughters[k];
          assert r[q].daughters[k] == x;
          assert st.tracks[x].parent == Some(q);
        }
      }
      forall x | 0 <= x < |r| && r[x].parent.Some?
        ensures r[x].parent.value < |r| && x in r[r[x].parent.value].daughters
      {
        if x != id {
          var y := st.tracks[x].parent.value;
          assert x in st.tracks[y].daughters;
        }
      }
    }
  }

  /** A track that hands its newest entries and one frame to a daughter leaves both aligned. */
  lemma AlignedAfterMove(fs: set<Feature>, tr: Track, kept: Track, moved: Track)
    requires Aligned(fs, tr) && MovedNewest(fs, tr.history, kept.history, moved.history)
    requires |kept.frames| + 1 == |tr.frames| && |moved.frames| == 1
    ensures Aligned(fs, kept) && Aligned(fs, moved)
  {
    forall f | f in fs
      ensures kept.history.Length(f) == |kept.frames| && moved.history.Length(f) == |moved.frames|
    {
      assert tr.history.Length(f) == |tr.frames|;
      match f
      case Appearance => assert |kept.history.appearance| + |moved.history.appearance| == |tr.history.appearance|;
      case Distance => assert |kept.history.distance| + |moved.history.distance| == |tr.history.distance|;
      case Neighborhood => assert |kept.history.neighborhood| + |moved.history.neighborhood| == |tr.history.neighborhood|;
      case Perimeter => assert |kept.history.perimeter| + |moved.history.perimeter| == |tr.history.perimeter|;
    }
  }

  /** Repair keeps the store's invariant and keeps divided tracks capped. */
  lemma RepairOneConsistent(cfg: Config, frame: nat, st: State, t: nat)
    requires t < |st.tracks| && Consistent(cfg.features, st.tracks) && DividedCapped(st.tracks)
    ensures Consistent(cfg.features, RepairOne(cfg, frame, st, t).tracks) && DividedCapped(RepairOne(cfg, frame, st, t).tracks)
  {
    RepairOneTracks(cfg, frame, st, t);
    RepairOneLinked(cfg, frame, st, t);
    var tr, id := st.tracks[t], |st.tracks|;
    if NeedsRepair(tr, frame) {
      var r := RepairOne(cfg, frame, st, t).tracks;
      AlignedAfterMove(cfg.features, tr, r[t], r[id]);
      forall u | 0 <= u < |r|
        ensures Aligned(cfg.features, r[u])
        ensures r[u].capped ==> |r[u].daughters| > 0
        ensures |r[u].daughters| > 0 ==> r[u].capped
      {
        if u != t && u != id {
          assert r[u] == st.tracks[u];
        }
      }
    }
  }

  /** Repair keeps every output pixel naming a track seen in this frame and keeps each pixel's zero-ness. */
  lemma RepairOneNames(cfg: Config, frame: nat, st: State, t: nat)
    requires t < |st.tracks| && Consistent(cfg.features, st.tracks) && OutNamesTracks(frame, st)
    ensures OutNamesTracks(frame, RepairOne(cfg, frame, st, t))
    ensures forall p :: 0 <= p < |st.out| ==> (RepairOne(cfg, frame, st, t).out[p] == 0 <==> st.out[p] == 0)
  {
    RepairOneOut(cfg, frame, st, t);
    var tr, id := st.tracks[t], |st.tracks|;
    if NeedsRepair(tr, frame) {
      var r := RepairOne(cfg, frame, st, t);
      var created := NewTrack(frame, tr.cellLabel, cfg.extract(frame, tr.cellLabel));
      var daughter := created.(history := created.history.TakeLast(cfg.features, tr.history), parent := Some(t));
      var parent := tr.(frames := RemoveFirst(tr.frames, frame), history := tr.history.DropLast(cfg.features),
                        daughters := tr.daughters + [id]);
      assert r.tracks == (st.tracks + [daughter])[t := parent];
      assert r.tracks[id].frames == [frame];
      forall p | 0 <= p < |r.out| && r.out[p] != 0
        ensures r.out[p] - 1 < |r.tracks| && frame in r.tracks[r.out[p] - 1].frames
      {
        if st.out[p] != t + 1 {
          assert r.out[p] == st.out[p];
          assert r.tracks[r.out[p] - 1] == st.tracks[r.out[p] - 1];
        }
      }
    }
  }

  /** Repair changes no old track's label or capped flag. */
  lemma RepairOneLabels(cfg: Config, frame: nat, st: State, t: nat)
    requires t < |st.tracks|
    ensures forall u :: 0 <= u < |st.tracks| ==>
      && RepairOne(cfg, frame, st, t).tracks[u].capped == st.tracks[u].capped
      && RepairOne(cfg, frame, st, t).tracks[u].cellLabel == st.tracks[u].cellLabel
  {
  }

  /** What the repair loop over tracks 0 .. k-1 keeps. */
  ghost predicate RepairInvariant(cfg: Config, frame: nat, st: State) {
    Consistent(cfg.features, st.tracks) && DividedCapped(st.tracks) && OutNamesTracks(frame, st)
  }

  /** From st to r no track is removed, no old track's label or capped flag changes and no pixel's zero-ness changes. */
  ghost predicate KeepsMarks(st: State, r: State) {
    && |r.tracks| >= |st.tracks| && |r.out| == |st.out|
    && (forall u :: 0 <= u < |st.tracks| ==> r.tracks[u].capped == st.tracks[u].capped && r.tracks[u].cellLabel == st.tracks[u].cellLabel)
    && (forall p :: 0 <= p < |st.out| ==> (r.out[p] == 0 <==> st.out[p] == 0))
  }

  lemma KeepsMarksTrans(a: State, b: State, c: State)
    requires KeepsMarks(a, b) && KeepsMarks(b, c)
    ensures KeepsMarks(a, c)
  {
    forall u | 0 <= u < |a.tracks|
      ensures c.tracks[u].capped == a.tracks[u].capped && c.tracks[u].cellLabel == a.tracks[u].cellLabel
    {
      assert c.tracks[u].capped == b.tracks[u].capped && c.tracks[u].cellLabel == b.tracks[u].cellLabel;
    }
  }

  /** Repairing one track keeps the repair loop's invariant and the marks. */
  lemma RepairOneKeeps(cfg: Config, frame: nat, st: State, t: nat)
    requires t < |st.tracks| && RepairInvariant(cfg, frame, st)
    ensures RepairInvariant(cfg, frame, RepairOne(cfg, frame, st, t))
    ensures KeepsMarks(st, RepairOne(cfg, frame, st, t))
  {
    RepairOneConsistent(cfg, frame, st, t);
    RepairOneNames(cfg, frame, st, t);
    RepairOneLabels(cfg, frame, st, t);
  }

  /**
   * The repair loop over tracks 0 .. k-1 keeps the store's invariant,
   * divided tracks capped and the output naming tracks of this frame; it
   * changes no old track's label or capped flag and no pixel's zero-ness.
   */
  lemma {:induction false} RepairKeeps(cfg: Config, frame: nat, st: State, k: nat)
    requires k <= |st.tracks| && RepairInvariant(cfg, frame, st)
    ensures RepairInvariant(cfg, frame, Repair(cfg, frame, st, k))
    ensures KeepsMarks(st, Repair(cfg, frame, st, k))
  {
    if k > 0 {
      RepairKeeps(cfg, frame, st, k - 1);
      var prev := Repair(cfg, frame, st, k - 1);
      RepairOneKeeps(cfg, frame, prev, k - 1);
      KeepsMarksTrans(st, prev, RepairOne(cfg, frame, prev, k - 1));
    }
  }

  /** x occurs at most once in s: nowhere after its first occurrence. */
  ghost predicate AtMostOnce(s: seq<nat>, x: nat) {
    x in s ==> x !in s[FirstIndex(s, x) + 1..]
  }

  /** Dropping the first occurrence of an element that occurs at most once removes it. */
  lemma DropOnlyOccurrence(s: seq<nat>, x: nat)
    requires x in s && AtMostOnce(s, x)
    ensures x !in s[..FirstIndex(s, x)] + s[FirstIndex(s, x) + 1..]
  {
  }

  /**
   * Progress of the repair loop over tracks 0 .. k-1 of the n tracks it
   * visits: no visited track with a daughter still holds the frame, every
   * track still to visit holds it at most once, and every track the loop
   * created has no daughter.
   */
  ghost predicate RepairedUpTo(frame: nat, ts: seq<Track>, k: nat, n: nat)
    requires k <= n <= |ts|
  {
    && (forall t :: 0 <= t < k && |ts[t].daughters| > 0 ==> frame !in ts[t].frames)
    && (forall t :: k <= t < n ==> AtMostOnce(ts[t].frames, frame))
    && (forall t :: n <= t < |ts| ==> ts[t].daughters == [])
  }

  /**
   * Repair of track t, as far as frames and daughters go: only a track
   * that needs repair changes; it loses the first occurrence of the frame
   * and keeps a daughter, and the new track holds only the frame and has
   * no daughter.
   */
  lemma RepairOneFrames(cfg: Config, frame: nat, st: State, t: nat)
    requires t < |st.tracks|
    ensures var r := RepairOne(cfg, frame, st, t).tracks;
      && (forall u :: 0 <= u < |st.tracks| && u != t ==> r[u] == st.tracks[u])
      && (!NeedsRepair(st.tracks[t], frame) ==> r == st.tracks)
      && (NeedsRepair(st.tracks[t], frame) ==>
            && |r| == |st.tracks| + 1
            && r[t].frames == RemoveFirst(st.tracks[t].frames, frame) && |r[t].daughters| > 0
            && r[|st.tracks|].frames == [frame] && r[|st.tracks|].daughters == [])
  {
  }

  /** Repairing track k, which holds the frame at most once, leaves it without the frame if it has a daughter. */
  lemma RepairOneRepaired(cfg: Config, frame: nat, st: State, j: nat, k: nat, n: nat, r: seq<Track>)
    requires k == j + 1 && k <= n <= |st.tracks| && r == RepairOne(cfg, frame, st, j).tracks
    requires RepairedUpTo(frame, st.tracks, j, n)
    ensures RepairedUpTo(frame, r, k, n)
  {
    RepairOneFrames(cfg, frame, st, j);
    var tr := st.tracks[j];
    if NeedsRepair(tr, frame) {
      RemoveFirstSpec(tr.frames, frame);
      DropOnlyOccurrence(tr.frames, frame);
    }
  }

  /** The repair loop over tracks 0 .. k-1 keeps its progress predicate. */
  lemma {:induction false} RepairProgress(cfg: Config, frame: nat, st: State, k: nat)
    requires k <= |st.tracks|
    requires RepairedUpTo(frame, st.tracks, 0, |st.tracks|)
    ensures RepairedUpTo(frame, Repair(cfg, frame, st, k).tracks, k, |st.tracks|)
  {
    if k > 0 {
      RepairProgress(cfg, frame, st, k - 1);
      RepairProgressStep(cfg, frame, st, k - 1, k);
    } else {
      assert Repair(cfg, frame, st, k) == st;
    }
  }

  /** Visiting track j of the repair loop extends RepairedUpTo from j tracks to k = j + 1. */
  lemma RepairProgressStep(cfg: Config, frame: nat, st: State, j: nat, k: nat)
    requires k == j + 1 && k <= |st.tracks|
    requires RepairedUpTo(frame, Repair(cfg, frame, st, j).tracks, j, |st.tracks|)
    ensures RepairedUpTo(frame, Repair(cfg, frame, st, k).tracks, k, |st.tracks|)
  {
    RepairOneRepaired(cfg, frame, Repair(cfg, frame, st, j), j, k, |st.tracks|, Repair(cfg, frame, st, k).tracks);
  }

  /**
   * The purpose of the repair loop (lines 317-344): when every track holds
   * the frame at most once, afterwards no track with a daughter holds it.
   */
  lemma RepairSeparates(cfg: Config, frame: nat, st: State)
    requires forall t :: 0 <= t < |st.tracks| ==> AtMostOnce(st.tracks[t].frames, frame)
    ensures var r := Repair(cfg, frame, st, |st.tracks|).tracks;
      forall t :: 0 <= t < |r| && |r[t].daughters| > 0 ==> frame !in r[t].frames
  {
    RepairProgress(cfg, frame, st, |st.tracks|);
  }

  /** From ts to r no track is removed and every old track keeps every frame other than `frame`. */
  ghost predicate KeepsOtherFrames(ts: seq<Track>, r: seq<Track>, frame: nat) {
    |r| >= |ts| && forall t, f :: 0 <= t < |ts| && f in ts[t].frames && f != frame ==> f in r[t].frames
  }

  lemma KeepsOtherFramesTrans(a: seq<Track>, b: seq<Track>, c: seq<Track>, frame: nat)
    requires KeepsOtherFrames(a, b, frame) && KeepsOtherFrames(b, c, frame)
    ensures KeepsOtherFrames(a, c, frame)
  {
  }

  /** `list.remove` keeps every element other than the one removed. */
  lemma {:induction false} RemoveFirstKeeps(s: seq<nat>, x: nat, f: nat)
    requires f in s && f != x
    ensures f in RemoveFirst(s, x)
  {
    if s[0] != x && s[0] != f {
      RemoveFirstKeeps(s[1..], x, f);
    }
  }

  /** Repair of one track takes only the current frame from it. */
  lemma RepairOneOtherFrames(cfg: Config, frame: nat, st: State, t: nat, r: seq<Track>)
    requires t < |st.tracks| && r == RepairOne(cfg, frame, st, t).tracks
    ensures KeepsOtherFrames(st.tracks, r, frame)
  {
    RepairOneFrames(cfg, frame, st, t);
    var tr := st.tracks[t];
    if NeedsRepair(tr, frame) {
      forall f | f in tr.frames && f != frame
        ensures f in RemoveFirst(tr.frames, frame)
      {
        RemoveFirstKeeps(tr.frames, frame, f);
      }
    }
  }

  /** The repair loop over tracks 0 .. k-1 takes only the current frame from any track. */
  lemma {:induction false} RepairOtherFrames(cfg: Config, frame: nat, st: State, k: nat)
    requires k <= |st.tracks|
    ensures KeepsOtherFrames(st.tracks, Repair(cfg, frame, st, k).tracks, frame)
  {
    if k > 0 {
      RepairOtherFrames(cfg, frame, st, k - 1);
      RepairOtherFramesStep(cfg, frame, st, k);
    } else {
      assert Repair(cfg, frame, st, k) == st;
    }
  }

  /** Visiting track k - 1 of the repair loop takes no other frame from any old track. */
  lemma RepairOtherFramesStep(cfg: Config, frame: nat, st: State, k: nat)
    requires 0 < k <= |st.tracks|
    requires KeepsOtherFrames(st.tracks, Repair(cfg, frame, st, k - 1).tracks, frame)
    ensures KeepsOtherFrames(st.tracks, Repair(cfg, frame, st, k).tracks, frame)
  {
    var prev := Repair(cfg, frame, st, k - 1);
    RepairOneOtherFrames(cfg, frame, prev, k - 1, Repair(cfg, frame, st, k).tracks);
    KeepsOtherFramesTrans(st.tracks, prev.tracks, Repair(cfg, frame, st, k).tracks, frame);
  }

  /** `list.remove` adds no element. */
  lemma {:induction false} RemoveFirstWithin(s: seq<nat>, x: nat, f: nat)
    requires f in RemoveFirst(s, x)
    ensures f in s
  {
    if s != [] && s[0] != x && s[0] != f {
      RemoveFirstWithin(s[1..], x, f);
    }
  }

  /** No old track's parent changes from a to b; b may hold more tracks. */
  ghost predicate ParentsKept(a: seq<Track>, b: seq<Track>) {
    |b| >= |a| && forall t :: 0 <= t < |a| ==> b[t].parent == a[t].parent
  }

  /**
   * From a to b a track gains no frame but `frame`: every frame a track of
   * b holds is `frame` or one the track held in a, an old track whose
   * first frame is another one keeps it first, and no old parent changes.
   */
  ghost predicate GainsOnly(a: seq<Track>, b: seq<Track>, frame: nat) {
    && ParentsKept(a, b)
    && (forall t, g :: 0 <= t < |b| && g in b[t].frames ==> g == frame || (t < |a| && g in a[t].frames))
    && (forall t :: 0 <= t < |a| && |a[t].frames| > 0 && a[t].frames[0] != frame ==>
          |b[t].frames| > 0 && b[t].frames[0] == a[t].frames[0])
  }

  lemma GainsOnlyTrans(a: seq<Track>, b: seq<Track>, c: seq<Track>, frame: nat)
    requires GainsOnly(a, b, frame) && GainsOnly(b, c, frame)
    ensures GainsOnly(a, c, frame)
  {
  }

  /** One repair gains only the current frame: the repaired track loses it, the new daughter holds only it. */
  lemma RepairOneGainsOnly(cfg: Config, frame: nat, st: State, t: nat, r: seq<Track>)
    requires t < |st.tracks| && r == RepairOne(cfg, frame, st, t).tracks
    ensures GainsOnly(st.tracks, r, frame)
  {
    RepairOneFrames(cfg, frame, st, t);
    var tr := st.tracks[t];
    if NeedsRepair(tr, frame) {
      assert r[t].parent == tr.parent;
      forall g | g in r[t].frames
        ensures g in tr.frames
      {
        RemoveFirstWithin(tr.frames, frame, g);
      }
      if |tr.frames| > 0 && tr.frames[0] != frame {
        assert r[t].frames == [tr.frames[0]] + RemoveFirst(tr.frames[1..], frame);
      }
    }
  }

  /** The repair loop over tracks 0 .. k-1 gains only the current frame. */
  lemma {:induction false} RepairGainsOnly(cfg: Config, frame: nat, st: State, k: nat)
    requires k <= |st.tracks|
    ensures GainsOnly(st.tracks, Repair(cfg, frame, st, k).tracks, frame)
  {
    if k > 0 {
      RepairGainsOnly(cfg, frame, st, k - 1);
      RepairGainsOnlyStep(cfg, frame, st, k - 1, k);
    } else {
      assert Repair(cfg, frame, st, k) == st;
    }
  }

  /** Visiting track j of the repair loop keeps GainsOnly from j tracks to k = j + 1. */
  lemma RepairGainsOnlyStep(cfg: Config, frame: nat, st: State, j: nat, k: nat)
    requires k == j + 1 && k <= |st.tracks|
    requires GainsOnly(st.tracks, Repair(cfg, frame, st, j).tracks, frame)
    ensures GainsOnly(st.tracks, Repair(cfg, frame, st, k).tracks, frame)
  {
    var prev := Repair(cfg, frame, st, j);
    RepairOneGainsOnly(cfg, frame, prev, j, Repair(cfg, frame, st, k).tracks);
    GainsOnlyTrans(st.tracks, prev.tracks, Repair(cfg, frame, st, k).tracks, frame);
  }

  /** No pair changes an old track's parent. */
  lemma StepParentsKept(cfg: Config, n: nat, m: nat, frame: nat, plane: seq<nat>, st: State, pair: (nat, nat))
    requires Steppable(cfg, n, plane, st)
    ensures ParentsKept(st.tracks, Step(cfg, n, m, frame, plane, st, pair).tracks)
  {
    if pair.1 >= m {
      assert Step(cfg, n, m, frame, plane, st, pair) == st;
    } else if pair.0 < n {
      StepContinueLinks(cfg, n, m, frame, plane, st, pair);
    } else {
      StepBirthLinks(cfg, n, m, frame, plane, st, pair);
    }
  }

  /** Handling any pairs changes no old track's parent. */
  lemma {:induction false} ApplyParentsKept(cfg: Config, n: nat, m: nat, frame: nat, plane: seq<nat>, st: State, pairs: seq<(nat, nat)>)
    requires Steppable(cfg, n, plane, st)
    ensures ParentsKept(st.tracks, Apply(cfg, n, m, frame, plane, st, pairs).tracks)
    decreases |pairs|
  {
    if pairs != [] {
      var init := pairs[..|pairs| - 1];
      ApplyParentsKept(cfg, n, m, frame, plane, st, init);
      StepParentsKept(cfg, n, m, frame, plane, Apply(cfg, n, m, frame, plane, st, init), pairs[|pairs| - 1]);
    }
  }

  // --------------------------------------------------------- whole update

  /** After the pairs and the capping the store is consistent, and no old track is removed, relabelled or uncapped. */
  lemma AssignAndCapStore(cfg: Config, frame: nat, plane: seq<nat>, ts: seq<Track>, sigma: seq<nat>)
    requires |plane| > 0 && cfg.trackLength > 0 && AllFetchable(cfg.features, ts) && Consistent(cfg.features, ts)
    ensures var r := AssignAndCap(cfg, frame, plane, ts, Pairs(sigma)).tracks;
      && Consistent(cfg.features, r) && DividedCapped(r) && |r| >= |ts|
      && forall t :: 0 <= t < |ts| ==> r[t].cellLabel == ts[t].cellLabel && (ts[t].capped ==> r[t].capped)
  {
    var m := NumberOfCells(plane);
    var st0 := Start(ts, |plane|);
    assert Handled(sigma, |sigma|) == Pairs(sigma);
    ApplyKeepsConsistent(cfg, frame, plane, ts, m, sigma, |sigma|);
    ApplyContinuations(cfg, frame, plane, ts, m, sigma, |sigma|);
    var st1 := Apply(cfg, |ts|, m, frame, plane, st0, Pairs(sigma));
    CapEffect(cfg.features, st1.tracks);
    assert AssignAndCap(cfg, frame, plane, ts, Pairs(sigma)).tracks == Cap(st1.tracks);
  }

  /** After the pairs and the capping every output pixel names a track seen in this frame. */
  lemma AssignAndCapNames(cfg: Config, frame: nat, plane: seq<nat>, ts: seq<Track>, sigma: seq<nat>)
    requires |plane| > 0 && cfg.trackLength > 0 && AllFetchable(cfg.features, ts)
    ensures OutNamesTracks(frame, AssignAndCap(cfg, frame, plane, ts, Pairs(sigma)))
  {
    var m := NumberOfCells(plane);
    assert Handled(sigma, |sigma|) == Pairs(sigma);
    ApplyPaints(cfg, frame, plane, ts, m, sigma, |sigma|);
    CapKeepsNames(frame, Apply(cfg, |ts|, m, frame, plane, Start(ts, |plane|), Pairs(sigma)));
  }

  /** Capping changes no track's frames, so the output plane still names tracks seen in this frame. */
  lemma CapKeepsNames(frame: nat, st: State)
    requires OutNamesTracks(frame, st)
    ensures OutNamesTracks(frame, State(Cap(st.tracks), st.out))
  {
    var r := Cap(st.tracks);
    assert forall t :: 0 <= t < |r| ==> r[t].frames == st.tracks[t].frames;
  }

  /**
   * After the pairs and the capping, the repair loop's invariant holds,
   * no old track is removed, relabelled or uncapped, and every divided
   * track is capped.
   */
  lemma AssignAndCapKeeps(cfg: Config, frame: nat, plane: seq<nat>, ts: seq<Track>, sigma: seq<nat>)
    requires |plane| > 0 && cfg.trackLength > 0 && AllFetchable(cfg.features, ts) && Consistent(cfg.features, ts)
    ensures var st2 := AssignAndCap(cfg, frame, plane, ts, Pairs(sigma));
      && RepairInvariant(cfg, frame, st2) && |st2.tracks| >= |ts|
      && forall t :: 0 <= t < |ts| ==> st2.tracks[t].cellLabel == ts[t].cellLabel && (ts[t].capped ==> st2.tracks[t].capped)
  {
    AssignAndCapStore(cfg, frame, plane, ts, sigma);
    AssignAndCapNames(cfg, frame, plane, ts, sigma);
  }

  /**
   * After the pairs and the capping, each old track holds its old frames,
   * with the current frame appended exactly when its row was paired with a
   * cell of the frame, and each track born in the frame holds only the frame.
   */
  lemma AssignAndCapFrames(cfg: Config, frame: nat, plane: seq<nat>, ts: seq<Track>, sigma: seq<nat>)
    requires |plane| > 0 && cfg.trackLength > 0 && AllFetchable(cfg.features, ts)
    ensures var r := AssignAndCap(cfg, frame, plane, ts, Pairs(sigma)).tracks;
      && |r| >= |ts|
      && (forall t :: 0 <= t < |ts| ==>
            r[t].frames == ts[t].frames + (if t < |sigma| && sigma[t] < NumberOfCells(plane) then [frame] else []))
      && (forall t :: |ts| <= t < |r| ==> r[t].frames == [frame])
  {
    var m := NumberOfCells(plane);
    var st0 := Start(ts, |plane|);
    assert Handled(sigma, |sigma|) == Pairs(sigma);
    ApplyContinuations(cfg, frame, plane, ts, m, sigma, |sigma|);
    ApplyBirths(cfg, frame, plane, ts, m, sigma, |sigma|);
    var st1 := Apply(cfg, |ts|, m, frame, plane, st0, Pairs(sigma));
    assert AssignAndCap(cfg, frame, plane, ts, Pairs(sigma)).tracks == Cap(st1.tracks);
    assert forall t :: 0 <= t < |st1.tracks| ==> Cap(st1.tracks)[t].frames == st1.tracks[t].frames;
  }

  /** An element absent from s occurs at most once in s and in s + [x]. */
  lemma OnceAppended(s: seq<nat>, x: nat)
    requires x !in s
    ensures AtMostOnce(s, x) && AtMostOnce(s + [x], x)
  {
    assert forall j :: 0 <= j < |s| ==> (s + [x])[j] == s[j];
    assert FirstIndex(s + [x], x) == |s|;
  }

  /** With the solver's permutation, after the pairs the output plane is zero exactly on the background. */
  lemma AssignCovers(cfg: Config, frame: nat, plane: seq<nat>, ts: seq<Track>, sigma: seq<nat>)
    requires |plane| > 0 && cfg.trackLength > 0 && AllFetchable(cfg.features, ts)
    requires IsPermutation(sigma, |ts| + NumberOfCells(plane))
    ensures var st2 := AssignAndCap(cfg, frame, plane, ts, Pairs(sigma));
      forall p :: 0 <= p < |plane| ==> (st2.out[p] == 0 <==> plane[p] == 0)
  {
    var m := NumberOfCells(plane);
    var st0 := Start(ts, |plane|);
    assert Handled(sigma, |sigma|) == Pairs(sigma);
    ApplyPaints(cfg, frame, plane, ts, m, sigma, |sigma|);
    PairsOfPermutation(sigma, |ts| + m);
    var st1 := Apply(cfg, |ts|, m, frame, plane, st0, Pairs(sigma));
    assert AssignAndCap(cfg, frame, plane, ts, Pairs(sigma)).out == st1.out;
    forall p | 0 <= p < |plane|
      ensures st1.out[p] == 0 <==> plane[p] == 0
    {
      if plane[p] != 0 {
        assert plane[p] <= m;
        assert AssignsColumn(Pairs(sigma), plane[p] - 1);
      }
    }
  }

  /**
   * An update keeps the store's invariant, leaves every divided track
   * capped, never uncaps a track and never relabels one.
   */
  lemma UpdateKeepsConsistent(cfg: Config, frame: nat, plane: seq<nat>, ts: seq<Track>, sigma: seq<nat>)
    requires |plane| > 0 && cfg.trackLength > 0 && AllFetchable(cfg.features, ts) && Consistent(cfg.features, ts)
    ensures var r := Update(cfg, frame, plane, ts, Pairs(sigma)).tracks;
      && Consistent(cfg.features, r) && DividedCapped(r) && |r| >= |ts|
      && (forall t :: 0 <= t < |ts| ==> r[t].cellLabel == ts[t].cellLabel && (ts[t].capped ==> r[t].capped))
    ensures var r := Update(cfg, frame, plane, ts, Pairs(sigma)).tracks;
      (forall t :: 0 <= t < |ts| ==> frame !in ts[t].frames) ==>
        forall t :: 0 <= t < |r| && |r[t].daughters| > 0 ==> frame !in r[t].frames
  {
    if forall t :: 0 <= t < |ts| ==> frame !in ts[t].frames {
      UpdateSeparates(cfg, frame, plane, ts, sigma);
    }
    var st2 := AssignAndCap(cfg, frame, plane, ts, Pairs(sigma));
    AssignAndCapKeeps(cfg, frame, plane, ts, sigma);
    RepairKeeps(cfg, frame, st2, |st2.tracks|);
    var r := Repair(cfg, frame, st2, |st2.tracks|);
    assert r == Update(cfg, frame, plane, ts, Pairs(sigma));
    forall t | 0 <= t < |ts|
      ensures r.tracks[t].cellLabel == ts[t].cellLabel && (ts[t].capped ==> r.tracks[t].capped)
    {
      assert r.tracks[t].cellLabel == st2.tracks[t].cellLabel && r.tracks[t].capped == st2.tracks[t].capped;
    }
  }

  /**
   * An update to a frame no track holds yet leaves no track with a
   * daughter holding the frame: the repair of lines 317-344 has moved it
   * to a new daughter.
   */
  lemma UpdateSeparates(cfg: Config, frame: nat, plane: seq<nat>, ts: seq<Track>, sigma: seq<nat>)
    requires |plane| > 0 && cfg.trackLength > 0 && AllFetchable(cfg.features, ts) && Consistent(cfg.features, ts)
    requires forall t :: 0 <= t < |ts| ==> frame !in ts[t].frames
    ensures var r := Update(cfg, frame, plane, ts, Pairs(sigma)).tracks;
      forall t :: 0 <= t < |r| && |r[t].daughters| > 0 ==> frame !in r[t].frames
  {
    var st2 := AssignAndCap(cfg, frame, plane, ts, Pairs(sigma));
    AssignAndCapKeeps(cfg, frame, plane, ts, sigma);
    AssignAndCapFrames(cfg, frame, plane, ts, sigma);
    forall t | 0 <= t < |st2.tracks|
      ensures AtMostOnce(st2.tracks[t].frames, frame)
    {
      if t < |ts| {
        OnceAppended(ts[t].frames, frame);
      } else {
        OnceAppended([], frame);
      }
    }
    RepairSeparates(cfg, frame, st2);
    assert Update(cfg, frame, plane, ts, Pairs(sigma)) == Repair(cfg, frame, st2, |st2.tracks|);
  }

  /** An update takes from the old tracks no frame but the current one. */
  lemma UpdateKeepsOtherFrames(cfg: Config, frame: nat, plane: seq<nat>, ts: seq<Track>, sigma: seq<nat>)
    requires |plane| > 0 && cfg.trackLength > 0 && AllFetchable(cfg.features, ts) && Consistent(cfg.features, ts)
    ensures KeepsOtherFrames(ts, Update(cfg, frame, plane, ts, Pairs(sigma)).tracks, frame)
  {
    var st2 := AssignAndCap(cfg, frame, plane, ts, Pairs(sigma));
    AssignAndCapKeeps(cfg, frame, plane, ts, sigma);
    AssignAndCapFrames(cfg, frame, plane, ts, sigma);
    assert KeepsOtherFrames(ts, st2.tracks, frame);
    RepairOtherFrames(cfg, frame, st2, |st2.tracks|);
    KeepsOtherFramesTrans(ts, st2.tracks, Repair(cfg, frame, st2, |st2.tracks|).tracks, frame);
  }

  /** The pairs and the capping gain only the current frame and change no old parent. */
  lemma AssignAndCapGainsOnly(cfg: Config, frame: nat, plane: seq<nat>, ts: seq<Track>, sigma: seq<nat>)
    requires |plane| > 0 && cfg.trackLength > 0 && AllFetchable(cfg.features, ts)
    ensures GainsOnly(ts, AssignAndCap(cfg, frame, plane, ts, Pairs(sigma)).tracks, frame)
  {
    AssignAndCapFrames(cfg, frame, plane, ts, sigma);
    var m := NumberOfCells(plane);
    var st1 := Apply(cfg, |ts|, m, frame, plane, Start(ts, |plane|), Pairs(sigma));
    ApplyParentsKept(cfg, |ts|, m, frame, plane, Start(ts, |plane|), Pairs(sigma));
    assert AssignAndCap(cfg, frame, plane, ts, Pairs(sigma)).tracks == Cap(st1.tracks);
    assert forall t :: 0 <= t < |st1.tracks| ==> Cap(st1.tracks)[t].parent == st1.tracks[t].parent;
  }

  /** An update gains only the current frame, keeps other first frames first and changes no old parent. */
  lemma UpdateGainsOnly(cfg: Config, frame: nat, plane: seq<nat>, ts: seq<Track>, sigma: seq<nat>)
    requires |plane| > 0 && cfg.trackLength > 0 && AllFetchable(cfg.features, ts)
    ensures GainsOnly(ts, Update(cfg, frame, plane, ts, Pairs(sigma)).tracks, frame)
  {
    var st2 := AssignAndCap(cfg, frame, plane, ts, Pairs(sigma));
    AssignAndCapGainsOnly(cfg, frame, plane, ts, sigma);
    RepairGainsOnly(cfg, frame, st2, |st2.tracks|);
    GainsOnlyTrans(ts, st2.tracks, Repair(cfg, frame, st2, |st2.tracks|).tracks, frame);
    assert Update(cfg, frame, plane, ts, Pairs(sigma)) == Repair(cfg, frame, st2, |st2.tracks|);
  }

  /** Every frame track `tr` holds comes before `frame`. */
  ghost predicate HoldsBefore(tr: Track, frame: nat) {
    forall g :: g in tr.frames ==> g < frame
  }

  /** Every frame any track holds comes before `frame`. */
  ghost predicate FramesBefore(ts: seq<Track>, frame: nat) {
    forall t {:trigger HoldsBefore(ts[t], frame)} :: 0 <= t < |ts| ==> HoldsBefore(ts[t], frame)
  }

  /** When d is a daughter of t and holds a frame, t holds only frames before d's first. */
  ghost predicate DaughterLater(ts: seq<Track>, t: nat, d: nat)
    requires t < |ts| && d < |ts|
  {
    d in ts[t].daughters && |ts[d].frames| > 0 ==> HoldsBefore(ts[t], ts[d].frames[0])
  }

  /**
   * Every frame a track holds comes before the first frame of each of its
   * daughters: a track that has divided gains no frame at or after the
   * division. A daughter that holds no frame bounds nothing.
   */
  ghost predicate DaughtersLater(ts: seq<Track>) {
    forall t, d {:trigger DaughterLater(ts, t, d)} :: 0 <= t < |ts| && 0 <= d < |ts| ==> DaughterLater(ts, t, d)
  }

  /**
   * From a store whose frames all come before `frame` to one that gains
   * only `frame`, keeps parents and whose divided tracks do not hold
   * `frame`, frames stay ordered: a daughter linked before keeps its first
   * frame, and a daughter linked now starts at `frame`.
   */
  lemma GainsOnlyOrders(ts: seq<Track>, r: seq<Track>, frame: nat)
    requires Linked(ts) && Linked(r) && GainsOnly(ts, r, frame)
    requires FramesBefore(ts, frame) && DaughtersLater(ts)
    requires forall t :: 0 <= t < |r| && |r[t].daughters| > 0 ==> frame !in r[t].frames
    ensures FramesBefore(r, frame + 1) && DaughtersLater(r)
  {
    forall t | 0 <= t < |r|
      ensures HoldsBefore(r[t], frame + 1)
    {
      if t < |ts| {
        assert HoldsBefore(ts[t], frame);
      }
    }
    forall t, d | 0 <= t < |r| && 0 <= d < |r|
      ensures DaughterLater(r, t, d)
    {
      if d in r[t].daughters && |r[d].frames| > 0 {
        var first := r[d].frames[0];
        assert first in r[d].frames;
        if t < |ts| {
          assert HoldsBefore(ts[t], frame);
        }
        if d < |ts| {
          assert HoldsBefore(ts[d], frame);
          if |ts[d].frames| > 0 {
            var k :| 0 <= k < |r[t].daughters| && r[t].daughters[k] == d;
            assert ts[d].parent == Some(t);
            assert ts[d].frames[0] in ts[d].frames;
            assert DaughterLater(ts, t, d);
          }
        }
        forall g | g in r[t].frames
          ensures g < first
        {
          assert t < |ts| && g in ts[t].frames;
        }
      }
    }
  }

  /**
   * An update to a frame after every frame the store holds leaves every
   * frame at or before it, and keeps each track's frames before the first
   * frame of each of its daughters.
   */
  lemma UpdateOrdersFrames(cfg: Config, frame: nat, plane: seq<nat>, ts: seq<Track>, sigma: seq<nat>)
    requires |plane| > 0 && cfg.trackLength > 0 && AllFetchable(cfg.features, ts) && Consistent(cfg.features, ts)
    requires FramesBefore(ts, frame) && DaughtersLater(ts)
    ensures var r := Update(cfg, frame, plane, ts, Pairs(sigma)).tracks;
      FramesBefore(r, frame + 1) && DaughtersLater(r)
  {
    UpdateGainsOnly(cfg, frame, plane, ts, sigma);
    forall t | 0 <= t < |ts|
      ensures frame !in ts[t].frames
    {
      assert HoldsBefore(ts[t], frame);
    }
    UpdateSeparates(cfg, frame, plane, ts, sigma);
    UpdateKeepsConsistent(cfg, frame, plane, ts, sigma);
    GainsOnlyOrders(ts, Update(cfg, frame, plane, ts, Pairs(sigma)).tracks, frame);
  }

  /**
   * With the solver's permutation, the output plane of an update is zero
   * exactly on the background, and every other pixel names a track that
   * is seen in this frame.
   */
  lemma UpdateOutput(cfg: Config, frame: nat, plane: seq<nat>, ts: seq<Track>, sigma: seq<nat>)
    requires |plane| > 0 && cfg.trackLength > 0 && AllFetchable(cfg.features, ts) && Consistent(cfg.features, ts)
    requires IsPermutation(sigma, |ts| + NumberOfCells(plane))
    ensures var r := Update(cfg, frame, plane, ts, Pairs(sigma));
      && (forall p :: 0 <= p < |plane| ==> (r.out[p] == 0 <==> plane[p] == 0))
      && OutNamesTracks(frame, r)
  {
    var st2 := AssignAndCap(cfg, frame, plane, ts, Pairs(sigma));
    AssignAndCapKeeps(cfg, frame, plane, ts, sigma);
    AssignCovers(cfg, frame, plane, ts, sigma);
    RepairKeeps(cfg, frame, st2, |st2.tracks|);
    var r := Repair(cfg, frame, st2, |st2.tracks|);
    assert r == Update(cfg, frame, plane, ts, Pairs(sigma));
    forall p | 0 <= p < |plane|
      ensures r.out[p] == 0 <==> plane[p] == 0
    {
      assert r.out[p] == 0 <==> st2.out[p] == 0;
    }
  }

  // ------------------------------------------------------------- frame loop

  /** From ts to r the store stays consistent with divided tracks capped, and no track is removed or relabelled. */
  ghost predicate Evolves(fs: set<Feature>, ts: seq<Track>, r: seq<Track>) {
    && Consistent(fs, r) && DividedCapped(r) && |r| >= |ts|
    && forall t :: 0 <= t < |ts| ==> r[t].cellLabel == ts[t].cellLabel
  }

  /**
   * The tracked plane `out` of frame f: as large as the annotation plane,
   * zero exactly on its background, and every other pixel names a track
   * of `ts` that is seen in frame f.
   */
  ghost predicate PlaneNames(plane: seq<nat>, out: seq<nat>, ts: seq<Track>, f: nat) {
    && |out| == |plane|
    && (forall p :: 0 <= p < |plane| ==> (out[p] == 0 <==> plane[p] == 0))
    && (forall p :: 0 <= p < |plane| && out[p] != 0 ==> out[p] - 1 < |ts| && f in ts[out[p] - 1].frames)
  }

  /** An update to a later frame keeps what an earlier tracked plane says. */
  lemma PlaneNamesKept(plane: seq<nat>, out: seq<nat>, ts: seq<Track>, f: nat, r: seq<Track>, frame: nat)
    requires PlaneNames(plane, out, ts, f) && KeepsOtherFrames(ts, r, frame) && f != frame
    ensures PlaneNames(plane, out, r, f)
  {
    forall p | 0 <= p < |plane| && out[p] != 0
      ensures out[p] - 1 < |r| && f in r[out[p] - 1].frames
    {
      assert f in ts[out[p] - 1].frames;
    }
  }

  /** With the solver's permutation, the plane an update appends is the tracked plane of its frame. */
  lemma UpdatePlane(cfg: Config, frame: nat, plane: seq<nat>, ts: seq<Track>, sigma: seq<nat>)
    requires |plane| > 0 && cfg.trackLength > 0 && AllFetchable(cfg.features, ts) && Consistent(cfg.features, ts)
    requires IsPermutation(sigma, |ts| + NumberOfCells(plane))
    ensures var r := Update(cfg, frame, plane, ts, Pairs(sigma));
      PlaneNames(plane, r.out, r.tracks, frame)
  {
    UpdateOutput(cfg, frame, plane, ts, sigma);
  }

  /** The planes appended for frames 1 .. upto-1, from index `base` of yt on, are the tracked planes of those frames. */
  ghost predicate PlanesName(y: seq<seq<nat>>, yt: seq<seq<nat>>, ts: seq<Track>, base: nat, upto: nat)
    requires upto <= |y|
  {
    forall f :: 1 <= f < upto ==> base + f - 1 < |yt| && PlaneNames(y[f], yt[base + f - 1], ts, f)
  }

  /**
   * With a solver that keeps its contract, one iteration of `_track_cells`
   * on a fetchable store succeeds exactly when the frame has no cell or
   * every feature kind is configured; it then appends the tracked plane of
   * its frame and keeps what the planes of the earlier frames say.
   */
  lemma TrackFramePlanes(cfg: Config, y: seq<seq<nat>>, frame: nat, ts: seq<Track>, yt: seq<seq<nat>>, base: nat)
    requires cfg.trackLength > 0 && 1 <= frame < |y| && Planes(y) && SolvesOptimally(cfg)
    requires AllFetchable(cfg.features, ts) && Consistent(cfg.features, ts)
    requires |yt| == base + frame - 1 && PlanesName(y, yt, ts, base, frame)
    ensures TrackFrame(cfg, y, frame, ts, yt).Some? <==> NumberOfCells(y[frame]) == 0 || AllFeatures <= cfg.features
    ensures TrackFrame(cfg, y, frame, ts, yt).Some? ==>
      var next := TrackFrame(cfg, y, frame, ts, yt).value;
      PlanesName(y, next.1, next.0, base, frame + 1)
  {
    var plane := y[frame];
    var cost := CostOf(cfg, ts, frame, NumberOfCells(plane));
    if cost.Some? {
      var c := FrameCost(cfg, ts, frame, NumberOfCells(plane));
      assert cost.value == c;
      var sigma := cfg.solve(c);
      assert Optimal(c, sigma);
      var r := Update(cfg, frame, plane, ts, Pairs(sigma));
      UpdatePlane(cfg, frame, plane, ts, sigma);
      UpdateKeepsOtherFrames(cfg, frame, plane, ts, sigma);
      var rt := yt + [r.out];
      assert TrackFrame(cfg, y, frame, ts, yt) == Some((r.tracks, rt));
      forall f | 1 <= f < frame + 1
        ensures base + f - 1 < |rt| && PlaneNames(y[f], rt[base + f - 1], r.tracks, f)
      {
        if f < frame {
          PlaneNamesKept(y[f], yt[base + f - 1], ts, f, r.tracks, frame);
        }
      }
    }
  }

  /**
   * One iteration of `_track_cells` on a consistent store, with a solver
   * that keeps its contract: when it succeeds the new store evolves from
   * the old one, the tracked plane of the frame is appended, the earlier
   * planes keep what they say, running on from the next frame is
   * running on from this one, and a store ordered up to this frame stays
   * ordered up to the next.
   */
  lemma TrackFrameKeeps(cfg: Config, y: seq<seq<nat>>, frame: nat, ts: seq<Track>, yt: seq<seq<nat>>, base: nat,
                        nts: seq<Track>, nyt: seq<seq<nat>>)
    requires cfg.trackLength > 0 && 1 <= frame < |y| && Planes(y) && SolvesOptimally(cfg)
    requires Consistent(cfg.features, ts) && DividedCapped(ts)
    requires |yt| == base + frame - 1 && PlanesName(y, yt, ts, base, frame)
    requires TrackFrame(cfg, y, frame, ts, yt) == Some((nts, nyt))
    ensures Run(cfg, y, frame, ts, yt) == Run(cfg, y, frame + 1, nts, nyt)
    ensures Evolves(cfg.features, ts, nts)
    ensures |nyt| == base + frame && PlanesName(y, nyt, nts, base, frame + 1)
    ensures FramesBefore(ts, frame) && DaughtersLater(ts) ==> FramesBefore(nts, frame + 1) && DaughtersLater(nts)
  {
    TrackFramePlanes(cfg, y, frame, ts, yt, base);
    var cost := CostOf(cfg, ts, frame, NumberOfCells(y[frame]));
    UpdateKeepsConsistent(cfg, frame, y[frame], ts, cfg.solve(cost.value));
    if FramesBefore(ts, frame) && DaughtersLater(ts) {
      TrackFrameOrders(cfg, y, frame, ts, yt, nts, nyt);
    }
  }

  /**
   * One iteration of `_track_cells` on a consistent store whose frames all
   * come before this one: the new store is consistent, its frames come
   * before the next one and each track's frames stay before its daughters'.
   */
  lemma TrackFrameOrders(cfg: Config, y: seq<seq<nat>>, frame: nat, ts: seq<Track>, yt: seq<seq<nat>>,
                         nts: seq<Track>, nyt: seq<seq<nat>>)
    requires cfg.trackLength > 0 && frame < |y| && Planes(y)
    requires Consistent(cfg.features, ts) && FramesBefore(ts, frame) && DaughtersLater(ts)
    requires TrackFrame(cfg, y, frame, ts, yt) == Some((nts, nyt))
    ensures Consistent(cfg.features, nts) && FramesBefore(nts, frame + 1) && DaughtersLater(nts)
  {
    var cost := CostOf(cfg, ts, frame, NumberOfCells(y[frame]));
    var sigma := cfg.solve(cost.value);
    UpdateKeepsConsistent(cfg, frame, y[frame], ts, sigma);
    UpdateOrdersFrames(cfg, frame, y[frame], ts, sigma);
  }

  /** Evolving is transitive, so it holds across any number of frames. */
  lemma EvolvesTrans(fs: set<Feature>, a: seq<Track>, b: seq<Track>, c: seq<Track>)
    requires Evolves(fs, a, b) && Evolves(fs, b, c)
    ensures Evolves(fs, a, c)
  {
    forall t | 0 <= t < |a|
      ensures c[t].cellLabel == a[t].cellLabel
    {
      assert c[t].cellLabel == b[t].cellLabel;
    }
  }
}
