/**
 * The track store: one record per track, kept in an arena whose positions
 * are the dictionary's keys 0 .. n-1 (`_create_new_track`,
 * `_initialize_tracks`).
 */
module Tracks {
  import opened Wrappers
  import opened Features
  import Labels

  /** One track: its display label, the frames it appears in, its lineage and its feature histories. */
  datatype Track = Track(
    cellLabel: int,
    frames: seq<nat>,
    daughters: seq<nat>,
    capped: bool,
    parent: Option<nat>,
    history: History)

  /** The record `_create_new_track` stores (lines 90-103), with the features extracted for (frame, cellLabel). */
  function NewTrack(frame: nat, cellLabel: int, cell: Bundle): Track {
    Track(cellLabel, [frame], [], false, None, Single(cell))
  }

  /** `list(self.tracks.keys())`: ids in insertion order. */
  function Keys(n: nat): (keys: seq<nat>)
    ensures |keys| == n
  {
    seq(n, i requires 0 <= i < n => i)
  }

  /** `np.amax` of a non-empty list of ids. */
  function MaxKey(keys: seq<nat>): (m: nat)
    requires |keys| > 0
    ensures m in keys
    ensures forall i :: 0 <= i < |keys| ==> keys[i] <= m
  {
    if |keys| == 1 then keys[0]
    else
      var m := MaxKey(keys[1..]);
      assert forall i :: 1 <= i < |keys| ==> keys[i] == keys[1..][i - 1];
      if keys[0] > m then keys[0] else m
  }

  /** The id `_create_new_track` picks (lines 86-89): one more than the largest id, or 0 for an empty store; it is fresh. */
  function NextId(keys: seq<nat>): (id: nat)
    ensures forall i :: 0 <= i < |keys| ==> keys[i] < id
  {
    if |keys| > 0 then MaxKey(keys) + 1 else 0
  }

  /** With ids 0 .. n-1 the next id is n, so the ids stay exactly 0 .. n-1 and a track's id is its arena position. */
  lemma NextIdIsCount(n: nat)
    ensures NextId(Keys(n)) == n
  {
    if n > 0 {
      var keys := Keys(n);
      assert keys[n - 1] == n - 1;
    }
  }

  /** The cell labels of frame 0 that become tracks: the distinct labels without the background 0 (lines 111-114). */
  function CellLabels(plane: seq<int>): (labels: seq<int>)
  {
    RemoveZero(Labels.Unique(plane))
  }

  /** `np.delete(u, np.where(u == 0))`. */
  function RemoveZero(u: seq<int>): (r: seq<int>)
    ensures forall x :: x in r <==> x in u && x != 0
    ensures |r| <= |u|
  {
    if u == [] then []
    else if u[0] == 0 then RemoveZero(u[1..])
    else [u[0]] + RemoveZero(u[1..])
  }

  /** Removing the zero keeps a strictly increasing sequence strictly increasing. */
  lemma {:induction false} RemoveZeroIncreasing(u: seq<int>)
    requires Labels.StrictlyIncreasing(u)
    ensures Labels.StrictlyIncreasing(RemoveZero(u))
  {
    if u != [] {
      RemoveZeroIncreasing(u[1..]);
      var rest := RemoveZero(u[1..]);
      assert forall k :: 0 <= k < |rest| ==> rest[k] in u[1..];
    }
  }

  /** The tracks `_initialize_tracks` creates, one per cell label of frame 0 (lines 116-117). */
  function InitialTracks(labels: seq<int>, extract: (nat, int) -> Bundle): (ts: seq<Track>)
    ensures |ts| == |labels|
  {
    seq(|labels|, i requires 0 <= i < |labels| => NewTrack(0, labels[i], extract(0, labels[i])))
  }

  /**
   * Initialisation makes exactly one track per non-zero label of frame 0,
   * in increasing label order, each labelled with its cell label.
   */
  lemma InitialTrackLabels(plane: seq<int>, extract: (nat, int) -> Bundle)
    ensures var ts := InitialTracks(CellLabels(plane), extract);
      && (forall x :: x in plane && x != 0 <==> exists i :: 0 <= i < |ts| && ts[i].cellLabel == x)
      && (forall i, j :: 0 <= i < j < |ts| ==> ts[i].cellLabel < ts[j].cellLabel)
  {
    var u := Labels.Unique(plane);
    var labels := CellLabels(plane);
    var ts := InitialTracks(labels, extract);
    RemoveZeroIncreasing(u);
    forall i | 0 <= i < |ts|
      ensures ts[i].cellLabel == labels[i]
    {
      assert ts[i] == NewTrack(0, labels[i], extract(0, labels[i]));
    }
    forall x
      ensures x in plane && x != 0 <==> exists i :: 0 <= i < |ts| && ts[i].cellLabel == x
    {
      assert x in plane <==> x in Labels.Elements(plane);
      assert x in u <==> x in Labels.Elements(u);
      if x in plane && x != 0 {
        assert x in labels;
        var i :| 0 <= i < |labels| && labels[i] == x;
        assert ts[i].cellLabel == x;
      }
      if exists i :: 0 <= i < |ts| && ts[i].cellLabel == x {
        var i :| 0 <= i < |ts| && ts[i].cellLabel == x;
        assert labels[i] in labels;
      }
    }
    assert forall x :: x in plane && x != 0 <==> exists i :: 0 <= i < |ts| && ts[i].cellLabel == x;
    assert forall i, j :: 0 <= i < j < |ts| ==> ts[i].cellLabel < ts[j].cellLabel;
  }

  /** Each initial track is seen in frame 0 only, is parentless, has no daughters and is not capped. */
  lemma InitialTracksFresh(labels: seq<int>, extract: (nat, int) -> Bundle)
    ensures forall i :: 0 <= i < |labels| ==>
      var t := InitialTracks(labels, extract)[i];
      t.frames == [0] && t.daughters == [] && !t.capped && t.parent == None
      && t.history == Single(extract(0, labels[i]))
  {
    var ts := InitialTracks(labels, extract);
    forall i | 0 <= i < |labels|
      ensures ts[i] == NewTrack(0, labels[i], extract(0, labels[i]))
    {
    }
  }

  // ------------------------------------------------------------ invariants

  /** Every configured feature history of the track is as long as its list of frames. */
  ghost predicate Aligned(fs: set<Feature>, t: Track) {
    forall f :: f in fs ==> t.history.Length(f) == |t.frames|
  }

  /**
   * Parent and daughter links point inside the arena and agree: d is a
   * daughter of p exactly when p is d's parent.
   */
  ghost predicate Linked(ts: seq<Track>) {
    && (forall p, k :: 0 <= p < |ts| && 0 <= k < |ts[p].daughters| ==>
          ts[p].daughters[k] < |ts| && ts[ts[p].daughters[k]].parent == Some(p))
    && (forall d :: 0 <= d < |ts| && ts[d].parent.Some? ==>
          ts[d].parent.value < |ts| && d in ts[ts[d].parent.value].daughters)
  }

  /** A track is capped only once it has a daughter. */
  ghost predicate CappedHasDaughters(ts: seq<Track>) {
    forall t :: 0 <= t < |ts| && ts[t].capped ==> |ts[t].daughters| > 0
  }

  /** The track store's invariant between frames. */
  ghost predicate Consistent(fs: set<Feature>, ts: seq<Track>) {
    && (forall t :: 0 <= t < |ts| ==> Aligned(fs, ts[t]))
    && Linked(ts)
    && CappedHasDaughters(ts)
  }

  /** Freshly initialised tracks satisfy the store's invariant. */
  lemma InitialTracksConsistent(fs: set<Feature>, labels: seq<int>, extract: (nat, int) -> Bundle)
    ensures Consistent(fs, InitialTracks(labels, extract))
  {
    var ts := InitialTracks(labels, extract);
    forall t | 0 <= t < |ts|
      ensures Aligned(fs, ts[t]) && ts[t].daughters == [] && ts[t].parent == None && !ts[t].capped
    {
      assert ts[t] == NewTrack(0, labels[t], extract(0, labels[t]));
    }
  }
}
