/**
 * One tracking step as functions on the track arena: the cost matrix of a
 * frame (`_get_cost_matrix`), the parent search (`_get_parent`) and the
 * interpretation of the solver's pairs, capping and repair
 * (`_update_tracks`), and the frame loop (`_track_cells`).
 */
module Lifecycle {
  import opened Wrappers
  import opened Features
  import opened Tracks
  import opened CostMatrix
  import opened Assignment
  import Labels

  /**
   * The tracker's parameters. The network (`model.predict`), the feature
   * extraction (`_get_features`), the rescaling of a too-long displacement
   * and the assignment solver are left abstract.
   */
  datatype Config = Config(
    features: set<Feature>,
    death: real,
    birth: real,
    division: real,
    maxDistance: real,
    trackLength: nat,
    extract: (nat, int) -> Bundle,
    predict: Sample -> Probs,
    rescale: (Point, real) -> Point,
    solve: Matrix -> seq<nat>)

  /** `linear_sum_assignment` (line 259) keeps its contract: on every square matrix it returns a least-cost permutation. */
  ghost predicate SolvesOptimally(cfg: Config) {
    forall c :: IsMatrix(c, |c|, |c|) ==> Optimal(c, cfg.solve(c))
  }

  /** Every track's windows can be fetched. */
  predicate AllFetchable(fs: set<Feature>, ts: seq<Track>) {
    forall t :: 0 <= t < |ts| ==> Fetchable(fs, ts[t].history)
  }

  /** The number of cells of a cleaned frame, `np.amax(y[frame])`. */
  function NumberOfCells(plane: seq<nat>): nat
    requires |plane| > 0
  {
    Labels.MaxOf(plane)
  }

  // ------------------------------------------------------------ cost matrix

  /** The model input for one (track, cell) pair of `_get_cost_matrix` (lines 200-210). */
  function PairSample(cfg: Config, t: Track, cell: Bundle): Sample
    requires cfg.trackLength > 0 && Fetchable(cfg.features, t.history)
  {
    var win := TrackWindows(cfg.features, t.history, cfg.trackLength);
    map f | f in cfg.features :: PairPart(f, win, cell, cfg.maxDistance, cfg.rescale)
  }

  /** The continuation scores `predictions[:,:,1]`: cell j is the cell labelled j+1. */
  function ContinuationScores(cfg: Config, ts: seq<Track>, frame: nat, m: nat): (p1: Matrix)
    requires cfg.trackLength > 0 && AllFetchable(cfg.features, ts)
    ensures IsMatrix(p1, |ts|, m)
  {
    seq(|ts|, i requires 0 <= i < |ts| =>
      seq(m, j requires 0 <= j < m => cfg.predict(PairSample(cfg, ts[i], cfg.extract(frame, j + 1))).p1))
  }

  function CappedFlags(ts: seq<Track>): (capped: seq<bool>)
    ensures |capped| == |ts|
  {
    seq(|ts|, i requires 0 <= i < |ts| => ts[i].capped)
  }

  /** The cost matrix of a frame with m cells, once every window could be fetched. */
  function FrameCost(cfg: Config, ts: seq<Track>, frame: nat, m: nat): (c: Matrix)
    requires cfg.trackLength > 0 && AllFetchable(cfg.features, ts)
    ensures IsMatrix(c, |ts| + m, |ts| + m)
  {
    Cost(ContinuationScores(cfg, ts, frame, m), CappedFlags(ts), m, cfg.birth, cfg.death)
  }

  /**
   * `_get_cost_matrix` for a frame with m cells: fails (None) when an
   * appearance or neighborhood window of an empty history is fetched
   * (lines 169-171), and when the frame has a cell while a feature kind is
   * not configured: lines 183-186 store every feature `_get_features`
   * returns, all four kinds, into a table that holds the configured ones
   * only (KeyError).
   */
  function CostOf(cfg: Config, ts: seq<Track>, frame: nat, m: nat): (cost: Option<Matrix>)
    requires cfg.trackLength > 0
    ensures cost.Some? <==> AllFetchable(cfg.features, ts) && (m == 0 || AllFeatures <= cfg.features)
    ensures cost.Some? ==> IsMatrix(cost.value, |ts| + m, |ts| + m)
  {
    if !AllFetchable(cfg.features, ts) then None
    else if m > 0 && !(AllFeatures <= cfg.features) then None
    else Some(FrameCost(cfg, ts, frame, m))
  }

  // ---------------------------------------------------------- parent search

  /** The model input `_get_parent` builds for one track and the new cell (lines 361-411). */
  function ParentSample(cfg: Config, t: Track, cell: Bundle): Sample
    requires cfg.trackLength > 0 && Fetchable(cfg.features, t.history)
  {
    var win := TrackWindows(cfg.features, t.history, cfg.trackLength);
    map f | f in cfg.features :: ParentPart(f, win, cell, cfg.maxDistance, cfg.rescale)
  }

  /** `predictions[:,2]`: each track's score for being the cell's parent. */
  function DivisionScores(cfg: Config, ts: seq<Track>, cell: Bundle): (probs: seq<real>)
    requires cfg.trackLength > 0 && AllFetchable(cfg.features, ts)
    ensures |probs| == |ts|
  {
    seq(|ts|, t requires 0 <= t < |ts| => cfg.predict(ParentSample(cfg, ts[t], cell)).p2)
  }

  /** Lines 419-423: a capped track's score becomes 0. */
  function ZeroCapped(probs: seq<real>, ts: seq<Track>): (r: seq<real>)
    requires |probs| == |ts|
    ensures |r| == |probs|
  {
    seq(|probs|, t requires 0 <= t < |probs| => if ts[t].capped then 0.0 else probs[t])
  }

  /** `np.where(probs == np.amax(probs))[0][0]`: the first index of the maximum. */
  function FirstArgMax(s: seq<real>): (k: nat)
    requires |s| > 0
    ensures k < |s|
    ensures forall i :: 0 <= i < |s| ==> s[i] <= s[k]
    ensures forall i :: 0 <= i < k ==> s[i] < s[k]
  {
    if |s| == 1 then 0
    else
      var k := FirstArgMax(s[..|s| - 1]);
      assert forall i :: 0 <= i < |s| - 1 ==> s[i] == s[..|s| - 1][i];
      if s[|s| - 1] > s[k] then |s| - 1 else k
  }

  /** The capped-zeroed division scores `_get_parent` compares. */
  function ParentScores(cfg: Config, ts: seq<Track>, cell: Bundle): (probs: seq<real>)
    requires cfg.trackLength > 0 && AllFetchable(cfg.features, ts)
    ensures |probs| == |ts|
  {
    ZeroCapped(DivisionScores(cfg, ts, cell), ts)
  }

  /** `_get_parent`: the first best-scoring track, if its score exceeds `division` (lines 426-433). */
  function ParentOf(cfg: Config, ts: seq<Track>, cell: Bundle): (parent: Option<nat>)
    requires |ts| > 0 && cfg.trackLength > 0 && AllFetchable(cfg.features, ts)
    ensures parent.Some? ==> parent.value < |ts|
  {
    var probs := ParentScores(cfg, ts, cell);
    var k := FirstArgMax(probs);
    if probs[k] > cfg.division then Some(k) else None
  }

  // ------------------------------------------------------ assignment pairs

  /** A track seen in one more frame, with one more entry in every feature history (lines 280-285). */
  function Continue(t: Track, frame: nat, cell: Bundle): Track {
    t.(frames := t.frames + [frame], history := t.history.Append(cell))
  }

  /** Lines 299-300: the newborn d gets parent p, then d is appended to p's daughters (p may be d itself). */
  function Link(ts: seq<Track>, p: nat, d: nat): (r: seq<Track>)
    requires p < |ts| && d < |ts|
    ensures |r| == |ts|
  {
    var ts1 := ts[d := ts[d].(parent := Some(p))];
    ts1[p := ts1[p].(daughters := ts1[p].daughters + [d])]
  }

  /** A birth (lines 291-302): a new track for the cell, then the parent search over all tracks, the newborn included. */
  function Birth(cfg: Config, ts: seq<Track>, frame: nat, cellId: nat): (r: seq<Track>)
    requires cfg.trackLength > 0 && AllFetchable(cfg.features, ts)
    ensures |r| == |ts| + 1 && AllFetchable(cfg.features, r)
  {
    var cell := cfg.extract(frame, cellId);
    var ts1 := ts + [NewTrack(frame, cellId, cell)];
    assert Fetchable(cfg.features, ts1[|ts|].history);
    match ParentOf(cfg, ts1, cell)
    case Some(p) => Link(ts1, p, |ts|)
    case None => ts1
  }

  /** `y_tracked_update[y[frame] == cellId] = value`. */
  function Paint(out: seq<nat>, plane: seq<nat>, cellId: nat, value: nat): (r: seq<nat>)
    requires |out| == |plane|
    ensures |r| == |out|
  {
    seq(|out|, p requires 0 <= p < |out| => if plane[p] == cellId then value else out[p])
  }

  /** The arena and the output plane of the frame being tracked. */
  datatype State = State(tracks: seq<Track>, out: seq<nat>)

  /** The update state a plane of the given size starts from: the current tracks and an all-zero output. */
  function Start(ts: seq<Track>, size: nat): State {
    State(ts, seq(size, _ => 0))
  }

  ghost predicate Steppable(cfg: Config, n: nat, plane: seq<nat>, st: State) {
    cfg.trackLength > 0 && AllFetchable(cfg.features, st.tracks) && n <= |st.tracks| && |st.out| == |plane|
  }

  /**
   * One pair (track t, cell c) of lines 272-309 for n tracks and m cells:
   * a continuation when t < n and c < m, a birth when t >= n and c < m,
   * nothing otherwise.
   */
  function Step(cfg: Config, n: nat, m: nat, frame: nat, plane: seq<nat>, st: State, pair: (nat, nat)): (r: State)
    requires Steppable(cfg, n, plane, st)
    ensures Steppable(cfg, n, plane, r) && |r.tracks| >= |st.tracks|
  {
    var (t, c) := pair;
    if t < n && c < m then
      var ts := st.tracks[t := Continue(st.tracks[t], frame, cfg.extract(frame, c + 1))];
      assert Fetchable(cfg.features, ts[t].history);
      State(ts, Paint(st.out, plane, c + 1, t + 1))
    else if t >= n && c < m then
      State(Birth(cfg, st.tracks, frame, c + 1), Paint(st.out, plane, c + 1, |st.tracks| + 1))
    else
      st
  }

  /** The pairs handled in order (the loop of lines 272-309). */
  function Apply(cfg: Config, n: nat, m: nat, frame: nat, plane: seq<nat>, st: State, pairs: seq<(nat, nat)>): (r: State)
    requires Steppable(cfg, n, plane, st)
    ensures Steppable(cfg, n, plane, r) && |r.tracks| >= |st.tracks|
    decreases |pairs|
  {
    if pairs == [] then st
    else Step(cfg, n, m, frame, plane, Apply(cfg, n, m, frame, plane, st, pairs[..|pairs| - 1]), pairs[|pairs| - 1])
  }

  // ------------------------------------------------------- capping and repair

  /** Lines 312-315: every track with a daughter is capped. */
  function Cap(ts: seq<Track>): (r: seq<Track>)
    ensures |r| == |ts|
  {
    seq(|ts|, t requires 0 <= t < |ts| => if |ts[t].daughters| > 0 then ts[t].(capped := true) else ts[t])
  }

  /** `list.remove`: the first occurrence of x is dropped. */
  function RemoveFirst(s: seq<nat>, x: nat): (r: seq<nat>)
    ensures x in s ==> |r| == |s| - 1
    ensures x !in s ==> r == s
  {
    if s == [] then []
    else if s[0] == x then s[1..]
    else [s[0]] + RemoveFirst(s[1..], x)
  }

  /** `y_tracked_update[y_tracked_update == from] = to`. */
  function Replace(out: seq<nat>, from: nat, to: nat): (r: seq<nat>)
    ensures |r| == |out|
  {
    seq(|out|, p requires 0 <= p < |out| => if out[p] == from then to else out[p])
  }

  /**
   * Lines 319-344 for track t: a divided track that still holds the current
   * frame hands that frame and its newest feature entries to a new
   * daughter, which takes the track's label.
   */
  function RepairOne(cfg: Config, frame: nat, st: State, t: nat): (r: State)
    requires t < |st.tracks|
    ensures |r.tracks| >= |st.tracks| && |r.out| == |st.out|
  {
    var tr := st.tracks[t];
    if |tr.daughters| > 0 && frame in tr.frames then
      var id := |st.tracks|;
      var created := NewTrack(frame, tr.cellLabel, cfg.extract(frame, tr.cellLabel));
      var daughter := created.(history := created.history.TakeLast(cfg.features, tr.history), parent := Some(t));
      var parent := tr.(frames := RemoveFirst(tr.frames, frame), history := tr.history.DropLast(cfg.features),
                        daughters := tr.daughters + [id]);
      State((st.tracks + [daughter])[t := parent], Replace(st.out, t + 1, id + 1))
    else
      st
  }

  /** The repair loop over the tracks 0 .. k-1. */
  function Repair(cfg: Config, frame: nat, st: State, k: nat): (r: State)
    requires k <= |st.tracks|
    ensures |r.tracks| >= |st.tracks| && |r.out| == |st.out|
  {
    if k == 0 then st else RepairOne(cfg, frame, Repair(cfg, frame, st, k - 1), k - 1)
  }

  /** The first two phases of `_update_tracks`: the pairs (lines 272-309), then capping (lines 311-315). */
  function AssignAndCap(cfg: Config, frame: nat, plane: seq<nat>, ts: seq<Track>, pairs: seq<(nat, nat)>): (r: State)
    requires |plane| > 0 && cfg.trackLength > 0 && AllFetchable(cfg.features, ts)
    ensures |r.out| == |plane|
  {
    var st1 := Apply(cfg, |ts|, NumberOfCells(plane), frame, plane, Start(ts, |plane|), pairs);
    State(Cap(st1.tracks), st1.out)
  }

  /** `_update_tracks`: the pairs, then capping, then repair of the tracks that exist after the births. */
  function Update(cfg: Config, frame: nat, plane: seq<nat>, ts: seq<Track>, pairs: seq<(nat, nat)>): (r: State)
    requires |plane| > 0 && cfg.trackLength > 0 && AllFetchable(cfg.features, ts)
    ensures |r.out| == |plane|
  {
    var st2 := AssignAndCap(cfg, frame, plane, ts, pairs);
    Repair(cfg, frame, st2, |st2.tracks|)
  }

  // ------------------------------------------------------------- frame loop

  ghost predicate Planes(y: seq<seq<nat>>) {
    forall f :: 0 <= f < |y| ==> |y[f]| > 0
  }

  /**
   * One iteration of `_track_cells` (lines 655-659) from tracks `ts` and
   * tracked planes `yt`: build the frame's cost matrix, solve it and
   * update; None when a cost matrix cannot be built.
   */
  function TrackFrame(cfg: Config, y: seq<seq<nat>>, frame: nat, ts: seq<Track>, yt: seq<seq<nat>>): Option<(seq<Track>, seq<seq<nat>>)>
    requires cfg.trackLength > 0 && frame < |y| && Planes(y)
  {
    var cost := CostOf(cfg, ts, frame, NumberOfCells(y[frame]));
    if cost.None? then None
    else
      var sigma := cfg.solve(cost.value);
      var st := Update(cfg, frame, y[frame], ts, Pairs(sigma));
      Some((st.tracks, yt + [st.out]))
  }

  /**
   * `_track_cells` (lines 651-659) from frame `frame` to the last one,
   * starting from tracks `ts` and tracked planes `yt`; None as soon as a
   * cost matrix cannot be built. The whole loop is Run from frame 1.
   */
  function Run(cfg: Config, y: seq<seq<nat>>, frame: nat, ts: seq<Track>, yt: seq<seq<nat>>): Option<(seq<Track>, seq<seq<nat>>)>
    requires cfg.trackLength > 0 && frame <= |y| && Planes(y)
    decreases |y| - frame
  {
    if frame == |y| then Some((ts, yt))
    else
      var next := TrackFrame(cfg, y, frame, ts, yt);
      if next.None? then None else Run(cfg, y, frame + 1, next.value.0, next.value.1)
  }
}
