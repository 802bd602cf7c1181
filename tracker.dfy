/**
 * The `cell_tracker` object: the cleaned annotation, the track store and
 * the tracked label planes, changed in place by its methods. Each method
 * is proved against the functions of Lifecycle that say what it computes.
 */
module Tracker {
  import opened Wrappers
  import opened Features
  import opened Tracks
  import opened CostMatrix
  import opened Assignment
  import opened Lifecycle
  import opened Lineage
  import Labels

  class CellTracker {
    const cfg: Config
    /** The cleaned annotation `self.y`, one label plane per frame. */
    var y: seq<seq<nat>>
    /** The track store `self.tracks`: track id i is position i. */
    var tracks: seq<Track>
    /** `self.y_tracked`: one plane of track ids + 1 per tracked frame. */
    var yTracked: seq<seq<nat>>

    ghost predicate Valid()
      reads this
    {
      && cfg.trackLength > 0
      && |y| > 0 && Planes(y)
      && Consistent(cfg.features, tracks) && DividedCapped(tracks)
    }

    /** `__init__` (lines 15-63): clean the annotation, then create one track per cell of frame 0. */
    constructor(config: Config, annotation: seq<seq<int>>)
      requires config.trackLength > 0 && |annotation| > 0
      requires forall f :: 0 <= f < |annotation| ==> |annotation[f]| > 0
      ensures cfg == config
      ensures |y| == |annotation| && forall f :: 0 <= f < |annotation| ==> y[f] == Labels.Relabel(annotation[f])
      ensures tracks == InitialTracks(CellLabels(y[0]), config.extract)
      ensures yTracked == [y[0]]
      ensures Valid() && FramesBefore(tracks, 1) && DaughtersLater(tracks)
    {
      cfg := config;
      var cleaned := Labels.CleanUpAnnotations(annotation);
      y := cleaned;
      tracks := [];
      yTracked := [];
      new;
      InitializeTracks();
      InitialTracksConsistent(cfg.features, CellLabels(y[0]), cfg.extract);
      InitialTracksFresh(CellLabels(y[0]), cfg.extract);
      forall t | 0 <= t < |tracks|
        ensures HoldsBefore(tracks[t], 1) && forall d :: 0 <= d < |tracks| ==> DaughterLater(tracks, t, d)
      {
        assert tracks[t].frames == [0] && tracks[t].daughters == [];
      }
    }

    /** `_create_new_track` (lines 82-103): the new id is one more than the largest, so it is the store's size. */
    method CreateNewTrack(frame: nat, cellId: int) returns (id: nat)
      modifies this
      ensures id == old(|tracks|)
      ensures tracks == old(tracks) + [NewTrack(frame, cellId, cfg.extract(frame, cellId))]
      ensures y == old(y) && yTracked == old(yTracked)
    {
      NextIdIsCount(|tracks|);
      id := NextId(Keys(|tracks|));
      tracks := tracks + [NewTrack(frame, cellId, cfg.extract(frame, cellId))];
    }

    /** `_initialize_tracks` (lines 105-120): one track per non-zero label of frame 0; the first tracked plane is frame 0. */
    method InitializeTracks()
      modifies this
      requires |y| > 0
      ensures y == old(y)
      ensures tracks == InitialTracks(CellLabels(y[0]), cfg.extract)
      ensures yTracked == [y[0]]
    {
      tracks := [];
      var labels := CellLabels(y[0]);
      for i := 0 to |labels|
        invariant tracks == InitialTracks(labels[..i], cfg.extract)
        invariant y == old(y)
      {
        var id := CreateNewTrack(0, labels[i]);
        assert labels[..i + 1] == labels[..i] + [labels[i]];
      }
      assert labels[..|labels|] == labels;
      yTracked := [y[0]];
    }

    /** The loop of lines 203-210 for one (track, cell) pair: `_compute_feature` for every configured feature. */
    method BuildSample(win: History, cell: Bundle) returns (sample: Sample)
      ensures sample == map f | f in cfg.features :: PairPart(f, win, cell, cfg.maxDistance, cfg.rescale)
    {
      sample := map[];
      var todo := cfg.features;
      while todo != {}
        invariant todo <= cfg.features
        invariant sample == map f | f in cfg.features - todo :: PairPart(f, win, cell, cfg.maxDistance, cfg.rescale)
        decreases todo
      {
        var f :| f in todo;
        var part := ComputeFeature(f, win, cell, cfg.maxDistance, cfg.rescale);
        sample := sample[f := part];
        todo := todo - {f};
      }
    }

    /** Lines 169-171: every track's windows, or None as soon as one cannot be fetched. */
    method FetchWindows() returns (windows: Option<seq<History>>)
      requires cfg.trackLength > 0
      ensures windows.Some? <==> AllFetchable(cfg.features, tracks)
      ensures windows.Some? ==> |windows.value| == |tracks|
      ensures windows.Some? ==>
        forall i :: 0 <= i < |tracks| ==> windows.value[i] == TrackWindows(cfg.features, tracks[i].history, cfg.trackLength)
    {
      var ws: seq<History> := [];
      for t := 0 to |tracks|
        invariant |ws| == t
        invariant forall i :: 0 <= i < t ==> Fetchable(cfg.features, tracks[i].history)
        invariant forall i :: 0 <= i < t ==> ws[i] == TrackWindows(cfg.features, tracks[i].history, cfg.trackLength)
      {
        if !Fetchable(cfg.features, tracks[t].history) {
          return None;
        }
        ws := ws + [TrackWindows(cfg.features, tracks[t].history, cfg.trackLength)];
      }
      windows := Some(ws);
    }

    /**
     * Lines 176-186: the features of the frame's cells 1 .. m, stored
     * under every key `_get_features` returns; None (KeyError) as soon as
     * a cell's features hold a kind that is not configured.
     */
    method ExtractCells(frame: nat, m: nat) returns (cells: Option<seq<Bundle>>)
      ensures cells.Some? <==> m == 0 || AllFeatures <= cfg.features
      ensures cells.Some? ==> |cells.value| == m && forall j :: 0 <= j < m ==> cells.value[j] == cfg.extract(frame, j + 1)
    {
      var acc: seq<Bundle> := [];
      for c := 0 to m
        invariant AllFeatures <= cfg.features || c == 0
        invariant |acc| == c
        invariant forall j :: 0 <= j < c ==> acc[j] == cfg.extract(frame, j + 1)
      {
        var keys := AllFeatures;
        if !(keys <= cfg.features) {
          return None;
        }
        acc := acc + [cfg.extract(frame, c + 1)];
      }
      cells := Some(acc);
    }

    /** One row of `predictions[:,:,1]` (lines 199-229): track t's continuation score for every cell. */
    method ScoreRow(t: nat, win: History, cells: seq<Bundle>, frame: nat) returns (row: seq<real>)
      requires cfg.trackLength > 0 && t < |tracks| && AllFetchable(cfg.features, tracks)
      requires win == TrackWindows(cfg.features, tracks[t].history, cfg.trackLength)
      requires forall j :: 0 <= j < |cells| ==> cells[j] == cfg.extract(frame, j + 1)
      ensures row == ContinuationScores(cfg, tracks, frame, |cells|)[t]
    {
      ghost var expected := ContinuationScores(cfg, tracks, frame, |cells|)[t];
      row := [];
      for c := 0 to |cells|
        invariant |row| == c
        invariant forall j :: 0 <= j < c ==> row[j] == expected[j]
      {
        var sample := BuildSample(win, cells[c]);
        assert sample == PairSample(cfg, tracks[t], cfg.extract(frame, c + 1));
        row := row + [cfg.predict(sample).p1];
      }
    }

    /** `predictions[:,:,1]` (lines 199-229): every track's continuation score for every cell. */
    method ScoreMatrix(windows: seq<History>, cells: seq<Bundle>, frame: nat) returns (p1: Matrix)
      requires cfg.trackLength > 0 && AllFetchable(cfg.features, tracks) && |windows| == |tracks|
      requires forall i :: 0 <= i < |tracks| ==> windows[i] == TrackWindows(cfg.features, tracks[i].history, cfg.trackLength)
      requires forall j :: 0 <= j < |cells| ==> cells[j] == cfg.extract(frame, j + 1)
      ensures p1 == ContinuationScores(cfg, tracks, frame, |cells|)
    {
      ghost var expected := ContinuationScores(cfg, tracks, frame, |cells|);
      p1 := [];
      for t := 0 to |tracks|
        invariant |p1| == t
        invariant forall i :: 0 <= i < t ==> p1[i] == expected[i]
      {
        var row := ScoreRow(t, windows[t], cells, frame);
        p1 := p1 + [row];
      }
    }

    /**
     * `_get_cost_matrix` (lines 153-253): fetch every track's windows
     * (failing on an empty appearance or neighborhood history), extract the
     * cells' features (failing unless every kind is configured), score
     * every pair and assemble the blocks.
     */
    method GetCostMatrix(frame: nat) returns (cost: Option<Matrix>)
      requires Valid() && frame < |y|
      ensures cost == CostOf(cfg, tracks, frame, NumberOfCells(y[frame]))
    {
      var n := |tracks|;
      var m := Labels.MaxOf(y[frame]);
      var windows := FetchWindows();
      if windows.None? {
        return None;
      }
      var cells := ExtractCells(frame, m);
      if cells.None? {
        return None;
      }
      var p1 := ScoreMatrix(windows.value, cells.value, frame);
      var a := MaskCapped(Continuation(p1, n, m), CappedFlags(tracks), m);
      cost := Some(Assemble(a, SinkBlock(m, cfg.birth), SinkBlock(n, cfg.death), Transpose(a, n, m), n, m));
    }

    /** `_get_parent` (lines 349-433): score every track, zero the capped ones, take the first best above `division`. */
    method GetParent(frame: nat, cellId: nat) returns (parent: Option<nat>)
      requires cfg.trackLength > 0 && |tracks| > 0 && AllFetchable(cfg.features, tracks)
      ensures parent == ParentOf(cfg, tracks, cfg.extract(frame, cellId))
    {
      var cell := cfg.extract(frame, cellId);
      var probs := DivisionScores(cfg, tracks, cell);
      ghost var scores := probs;
      for t := 0 to |tracks|
        invariant |probs| == |tracks|
        invariant forall i :: 0 <= i < t ==> probs[i] == ZeroCapped(scores, tracks)[i]
        invariant forall i :: t <= i < |tracks| ==> probs[i] == scores[i]
      {
        if tracks[t].capped {
          probs := probs[t := 0.0];
        }
      }
      assert probs == ParentScores(cfg, tracks, cell);
      var k := FirstArgMax(probs);
      if probs[k] > cfg.division {
        parent := Some(k);
      } else {
        parent := None;
      }
    }

    /** A birth (lines 291-304): create the cell's track, search its parent among all tracks, link them. */
    method BirthTrack(frame: nat, cellId: nat) returns (id: nat)
      modifies this
      requires cfg.trackLength > 0 && AllFetchable(cfg.features, tracks)
      ensures y == old(y) && yTracked == old(yTracked)
      ensures id == old(|tracks|) && tracks == Birth(cfg, old(tracks), frame, cellId)
    {
      id := CreateNewTrack(frame, cellId);
      assert Fetchable(cfg.features, tracks[id].history);
      var parent := GetParent(frame, cellId);
      if parent.Some? {
        tracks := tracks[id := tracks[id].(parent := parent)];
        tracks := tracks[parent.value := tracks[parent.value].(daughters := tracks[parent.value].daughters + [id])];
      }
    }

    /** One pair of the loop of lines 272-309 on the store and the plane `out` being painted. */
    method HandleAssignment(n: nat, m: nat, frame: nat, plane: seq<nat>, out: seq<nat>, pair: (nat, nat)) returns (out': seq<nat>)
      modifies this
      requires Steppable(cfg, n, plane, State(tracks, out))
      ensures y == old(y) && yTracked == old(yTracked)
      ensures State(tracks, out') == Step(cfg, n, m, frame, plane, State(old(tracks), out), pair)
    {
      ghost var expected := Step(cfg, n, m, frame, plane, State(tracks, out), pair);
      out' := out;
      var (t, c) := pair;
      if t < n && c < m {
        tracks := tracks[t := Continue(tracks[t], frame, cfg.extract(frame, c + 1))];
        out' := Paint(out', plane, c + 1, t + 1);
        assert State(tracks, out') == expected;
      } else if t >= n && c < m {
        var id := BirthTrack(frame, c + 1);
        out' := Paint(out', plane, c + 1, id + 1);
        assert State(tracks, out') == expected;
      } else {
        assert State(tracks, out') == expected;
      }
    }

    /** The loop of lines 272-309 over all pairs, from an all-zero plane. */
    method HandleAssignments(assignments: seq<(nat, nat)>, frame: nat, plane: seq<nat>) returns (out: seq<nat>)
      modifies this
      requires cfg.trackLength > 0 && |plane| > 0 && AllFetchable(cfg.features, tracks)
      ensures y == old(y) && yTracked == old(yTracked)
      ensures State(tracks, out) ==
        Apply(cfg, old(|tracks|), NumberOfCells(plane), frame, plane, Start(old(tracks), |plane|), assignments)
    {
      var n := |tracks|;
      var m := Labels.MaxOf(plane);
      out := seq(|plane|, _ => 0);
      ghost var st0 := Start(tracks, |plane|);
      for a := 0 to |assignments|
        invariant y == old(y) && yTracked == old(yTracked)
        invariant State(tracks, out) == Apply(cfg, n, m, frame, plane, st0, assignments[..a])
      {
        assert assignments[..a + 1][..a] == assignments[..a];
        out := HandleAssignment(n, m, frame, plane, out, assignments[a]);
      }
      assert assignments[..|assignments|] == assignments;
    }

    /** Lines 312-315: cap every track with a daughter. */
    method CapTracks()
      modifies this
      ensures y == old(y) && yTracked == old(yTracked)
      ensures tracks == Cap(old(tracks))
    {
      for t := 0 to |tracks|
        invariant y == old(y) && yTracked == old(yTracked)
        invariant |tracks| == |old(tracks)|
        invariant forall i :: 0 <= i < t ==> tracks[i] == Cap(old(tracks))[i]
        invariant forall i :: t <= i < |tracks| ==> tracks[i] == old(tracks)[i]
      {
        if |tracks[t].daughters| > 0 {
          tracks := tracks[t := tracks[t].(capped := true)];
        }
      }
    }

    /** One iteration of the repair loop of lines 318-344, for track t. */
    method RepairTrack(frame: nat, out: seq<nat>, t: nat) returns (out': seq<nat>)
      modifies this
      requires t < |tracks|
      ensures y == old(y) && yTracked == old(yTracked)
      ensures State(tracks, out') == RepairOne(cfg, frame, State(old(tracks), out), t)
    {
      out' := out;
      if |tracks[t].daughters| > 0 && frame in tracks[t].frames {
        var cellLabel := tracks[t].cellLabel;
        var id := CreateNewTrack(frame, cellLabel);
        tracks := tracks[id := tracks[id].(history := tracks[id].history.TakeLast(cfg.features, tracks[t].history))];
        tracks := tracks[id := tracks[id].(parent := Some(t))];
        tracks := tracks[t := tracks[t].(frames := RemoveFirst(tracks[t].frames, frame))];
        tracks := tracks[t := tracks[t].(history := tracks[t].history.DropLast(cfg.features))];
        tracks := tracks[t := tracks[t].(daughters := tracks[t].daughters + [id])];
        out' := Replace(out', t + 1, id + 1);
      }
    }

    /**
     * `_update_tracks` (lines 264-347): handle each pair (continuation,
     * birth with parent search, or nothing), cap divided tracks, repair
     * divided tracks that still hold the frame, and append the plane.
     */
    method UpdateTracks(assignments: seq<(nat, nat)>, frame: nat)
      modifies this
      requires cfg.trackLength > 0 && frame < |y| && |y[frame]| > 0 && AllFetchable(cfg.features, tracks)
      ensures y == old(y)
      ensures var st := Update(cfg, frame, y[frame], old(tracks), assignments);
        tracks == st.tracks && yTracked == old(yTracked) + [st.out]
    {
      var out := HandleAssignments(assignments, frame, y[frame]);
      ghost var st1 := State(tracks, out);
      CapTracks();
      ghost var st2 := State(tracks, out);
      assert st2 == AssignAndCap(cfg, frame, y[frame], old(tracks), assignments);
      var total := |tracks|;
      for t := 0 to total
        invariant y == old(y) && yTracked == old(yTracked)
        invariant State(tracks, out) == Repair(cfg, frame, st2, t)
      {
        out := RepairTrack(frame, out, t);
      }
      yTracked := yTracked + [out];
    }

    /**
     * One pass of the loop of `_track_cells` (lines 655-659): the cost
     * matrix of `frame`, its assignment and the update of the tracks;
     * false, with nothing changed, when the cost matrix cannot be built.
     */
    method TrackOneFrame(frame: nat, ghost base: nat) returns (ok: bool)
      modifies this
      requires Valid() && SolvesOptimally(cfg) && 1 <= frame < |y|
      requires |yTracked| == base + frame - 1 && PlanesName(y, yTracked, tracks, base, frame)
      ensures y == old(y) && Valid()
      ensures TrackFrame(cfg, y, frame, old(tracks), old(yTracked)) == if ok then Some((tracks, yTracked)) else None
      ensures !ok ==> tracks == old(tracks) && yTracked == old(yTracked)
      ensures ok ==> Run(cfg, y, frame, old(tracks), old(yTracked)) == Run(cfg, y, frame + 1, tracks, yTracked)
      ensures ok ==> Evolves(cfg.features, old(tracks), tracks)
      ensures ok ==> |yTracked| == base + frame && PlanesName(y, yTracked, tracks, base, frame + 1)
      ensures ok && FramesBefore(old(tracks), frame) && DaughtersLater(old(tracks)) ==>
        FramesBefore(tracks, frame + 1) && DaughtersLater(tracks)
    {
      var cost := GetCostMatrix(frame);
      if cost.None? {
        return false;
      }
      var sigma := cfg.solve(cost.value);
      ghost var before, beforePlanes := tracks, yTracked;
      UpdateTracks(Pairs(sigma), frame);
      assert TrackFrame(cfg, y, frame, before, beforePlanes) == Some((tracks, yTracked));
      TrackFrameKeeps(cfg, y, frame, before, beforePlanes, base, tracks, yTracked);
      return true;
    }

    /**
     * `_track_cells` (lines 651-659): frames 1 .. last in order; stops
     * (false) when a cost matrix cannot be built, with the store as the
     * frames before left it. A completed run keeps the store's invariant,
     * removes and relabels no track, and adds one tracked plane per frame:
     * the plane of frame f is zero exactly on the background of `y[f]`,
     * and its other pixels name tracks seen in f. Started from a store
     * that holds frame 0 only, as `__init__` leaves it, a track never
     * holds a frame at or after the first frame of one of its daughters.
     */
    method TrackCells() returns (ok: bool)
      modifies this
      requires Valid() && SolvesOptimally(cfg)
      ensures y == old(y)
      ensures Run(cfg, y, 1, old(tracks), old(yTracked)) == if ok then Some((tracks, yTracked)) else None
      ensures Valid() && Evolves(cfg.features, old(tracks), tracks)
      ensures ok ==> |yTracked| == old(|yTracked|) + |y| - 1
      ensures ok ==> PlanesName(y, yTracked, tracks, old(|yTracked|), |y|)
      ensures ok && FramesBefore(old(tracks), 1) && DaughtersLater(old(tracks)) ==>
        FramesBefore(tracks, |y|) && DaughtersLater(tracks)
    {
      ghost var base := |yTracked|;
      ghost var ordered := FramesBefore(tracks, 1) && DaughtersLater(tracks);
      for frame := 1 to |y|
        invariant y == old(y) && Valid()
        invariant Run(cfg, y, 1, old(tracks), old(yTracked)) == Run(cfg, y, frame, tracks, yTracked)
        invariant Evolves(cfg.features, old(tracks), tracks)
        invariant |yTracked| == base + frame - 1
        invariant PlanesName(y, yTracked, tracks, base, frame)
        invariant ordered ==> FramesBefore(tracks, frame) && DaughtersLater(tracks)
      {
        ghost var before := tracks;
        var stepped := TrackOneFrame(frame, base);
        if !stepped {
          return false;
        }
        EvolvesTrans(cfg.features, old(tracks), before, tracks);
      }
      return true;
    }
  }
}
