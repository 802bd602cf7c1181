/**
 * Per-cell features, per-track feature histories, the history window the
 * model is fed, and the feature transforms applied before scoring
 * (`_compute_feature`, the distance branch of `_get_parent`).
 */
module Features {

  /** The feature kinds a tracker can be configured with. */
  datatype Feature = Appearance | Distance | Neighborhood | Perimeter

  /** Every feature kind: `_get_features` returns all four, whatever is configured. */
  const AllFeatures: set<Feature> := {Appearance, Distance, Neighborhood, Perimeter}

  /** An image crop (appearance) or occupancy grid (neighborhood), flattened. */
  type Image = seq<real>

  /** A cell centroid, or the displacement between two centroids. */
  datatype Point = Point(x: real, y: real)

  const Origin := Point(0.0, 0.0)

  /** The features of one cell in one frame, as `_get_features` returns them. */
  datatype Bundle = Bundle(appearance: Image, distance: Point, neighborhood: Image, perimeter: real)

  /** A track's per-feature histories, oldest entry first. Also used for the fetched windows. */
  datatype History = History(appearance: seq<Image>, distance: seq<Point>, neighborhood: seq<Image>, perimeter: seq<real>)
  {
    function Length(f: Feature): nat {
      match f
      case Appearance => |appearance|
      case Distance => |distance|
      case Neighborhood => |neighborhood|
      case Perimeter => |perimeter|
    }

    /** Appends one bundle to every history (line 283 iterates over all extracted features). */
    function Append(b: Bundle): (h: History)
      ensures forall f :: h.Length(f) == Length(f) + 1
    {
      History(appearance + [b.appearance], distance + [b.distance],
              neighborhood + [b.neighborhood], perimeter + [b.perimeter])
    }

    /** Drops the newest entry of every history in `fs` (`x[0:-1]`, which leaves an empty history empty). */
    function DropLast(fs: set<Feature>): History {
      History(if Appearance in fs then Init(appearance) else appearance,
              if Distance in fs then Init(distance) else distance,
              if Neighborhood in fs then Init(neighborhood) else neighborhood,
              if Perimeter in fs then Init(perimeter) else perimeter)
    }

    /** Replaces every history in `fs` by the newest entry of `src`'s (`x[[-1]]`). */
    function TakeLast(fs: set<Feature>, src: History): History {
      History(if Appearance in fs then Last(src.appearance) else appearance,
              if Distance in fs then Last(src.distance) else distance,
              if Neighborhood in fs then Last(src.neighborhood) else neighborhood,
              if Perimeter in fs then Last(src.perimeter) else perimeter)
    }
  }

  /** All but the newest entry; empty stays empty. */
  function Init<T>(s: seq<T>): (r: seq<T>)
    ensures |s| > 0 ==> |r| == |s| - 1 && r == s[..|s| - 1]
    ensures |s| == 0 ==> r == []
  {
    if |s| > 0 then s[..|s| - 1] else s
  }

  /**
   * The newest entry alone. Numpy raises on an empty history here; the
   * lifecycle only calls this on histories the frames invariant keeps
   * non-empty (see Lineage.AlignedAfterMove).
   */
  function Last<T>(s: seq<T>): (r: seq<T>)
    ensures |s| > 0 ==> r == [s[|s| - 1]]
  {
    if |s| > 0 then [s[|s| - 1]] else []
  }

  /** The histories of a freshly created track: one entry each. */
  function Single(b: Bundle): (h: History)
    ensures forall f :: h.Length(f) == 1
  {
    History([b.appearance], [b.distance], [b.neighborhood], [b.perimeter])
  }

  // ---------------------------------------------------------------- windows

  /** `range(-1, -l-1, -1) + [-l] * (w - l)`: the index list of line 464. */
  function PadIndices(l: nat, w: nat): (idx: seq<int>)
    requires l <= w
  {
    var oldest := -(l as int);
    seq(l, i => -1 - i) + seq(w - l, _ => oldest)
  }

  /** Numpy fancy indexing `h[idx]`, negative indices counting from the end. */
  function Gather<T>(h: seq<T>, idx: seq<int>): (r: seq<T>)
    requires forall k :: 0 <= k < |idx| ==> -|h| <= idx[k] < |h|
  {
    seq(|idx|, i requires 0 <= i < |idx| => if idx[i] < 0 then h[|h| + idx[i]] else h[idx[i]])
  }

  /**
   * The window of `w` history entries the model is fed (lines 459-465): a
   * long history gives its last `w` entries; a short one is gathered with
   * the index list of line 464.
   */
  function Window<T>(h: seq<T>, w: nat): (r: seq<T>)
    requires |h| > 0 && w > 0
    ensures |r| == w
  {
    if |h| > w - 1 then h[|h| - w..]
    else Gather(h, PadIndices(|h|, w))
  }

  /**
   * The window of a perimeter or centroid history: an empty history makes
   * numpy raise, the bare `except` of lines 487-493 and 512-517 swallows it
   * and the window keeps the zeros it was allocated with.
   */
  function WindowOrZeros<T>(h: seq<T>, w: nat, zero: T): (r: seq<T>)
    requires w > 0
    ensures |r| == w
    ensures |h| == 0 ==> forall i :: 0 <= i < w ==> r[i] == zero
    ensures |h| > 0 ==> r == Window(h, w)
  {
    if |h| == 0 then seq(w, _ => zero) else Window(h, w)
  }

  /**
   * The window always has `w` entries. A history of `w` or more entries
   * gives its last `w`, oldest first; a shorter one of length L gives its
   * entries newest first, then its oldest entry repeated.
   */
  lemma WindowShape<T>(h: seq<T>, w: nat)
    requires |h| > 0 && w > 0
    ensures |h| >= w ==> forall i :: 0 <= i < w ==> Window(h, w)[i] == h[|h| - w + i]
    ensures |h| < w ==> forall i :: 0 <= i < w ==>
              Window(h, w)[i] == if i < |h| then h[|h| - 1 - i] else h[0]
  {
  }

  /** A one-entry history yields that entry `w` times, never zeros. */
  lemma WindowOfSingle<T>(x: T, w: nat)
    requires w > 0
    ensures Window([x], w) == seq(w, _ => x)
  {
    WindowShape([x], w);
  }

  /** The fetch of an appearance or neighborhood window raises on an empty history. */
  predicate Fetchable(fs: set<Feature>, h: History) {
    && (Appearance in fs ==> |h.appearance| > 0)
    && (Neighborhood in fs ==> |h.neighborhood| > 0)
  }

  /**
   * The windows `_fetch_track_feature` returns for one track, one per
   * configured feature (an unconfigured feature is not fetched: empty).
   */
  function TrackWindows(fs: set<Feature>, h: History, w: nat): (r: History)
    requires w > 0 && Fetchable(fs, h)
    ensures forall f :: f in fs ==> r.Length(f) == w
  {
    History(if Appearance in fs then Window(h.appearance, w) else [],
            if Distance in fs then WindowOrZeros(h.distance, w, Origin) else [],
            if Neighborhood in fs then Window(h.neighborhood, w) else [],
            if Perimeter in fs then WindowOrZeros(h.perimeter, w, 0.0) else [])
  }

  // ------------------------------------------------------ distance feature

  function Sub(a: Point, b: Point): Point {
    Point(a.x - b.x, a.y - b.y)
  }

  function SqNorm(p: Point): real {
    p.x * p.x + p.y * p.y
  }

  /**
   * `np.linalg.norm(d) > max_distance`, stated on squared norms: the norm is
   * never negative, so it exceeds a negative bound always and a
   * non-negative bound exactly when its square exceeds the bound's square.
   */
  predicate TooFar(d: Point, maxDistance: real) {
    maxDistance < 0.0 || SqNorm(d) > maxDistance * maxDistance
  }

  /**
   * Lines 141-142: a displacement longer than `maxDistance` is rescaled to
   * that length; the rescaled value (a division by the norm) is `rescale`'s.
   */
  function Clamp(d: Point, maxDistance: real, rescale: (Point, real) -> Point): Point {
    if TooFar(d, maxDistance) then rescale(d, maxDistance) else d
  }

  /** `[0] + np.diff(cs)`: a zero displacement, then the differences of consecutive centroids. */
  function Displacements(cs: seq<Point>): (ds: seq<Point>)
    requires |cs| > 0
    ensures |ds| == |cs|
  {
    [Origin] + seq(|cs| - 1, k requires 0 <= k < |cs| - 1 => Sub(cs[k + 1], cs[k]))
  }

  /** Every displacement clamped: the loop of lines 138-142. */
  function ClampAll(ds: seq<Point>, maxDistance: real, rescale: (Point, real) -> Point): (r: seq<Point>)
    ensures |r| == |ds|
  {
    seq(|ds|, j requires 0 <= j < |ds| => Clamp(ds[j], maxDistance, rescale))
  }

  /**
   * The distance branch of `_compute_feature` (lines 131-143): displacements
   * along the track window extended by the cell's centroid, every one of
   * them clamped; the last is the cell's part.
   */
  function DistanceFeature(track: seq<Point>, cell: Point, maxDistance: real, rescale: (Point, real) -> Point)
    : (seq<Point>, Point)
  {
    var cl := ClampAll(Displacements(track + [cell]), maxDistance, rescale);
    (cl[..|track|], cl[|track|])
  }

  /**
   * The distance branch of `_get_parent` (lines 371-386): the same
   * displacements, but only the cell's part is clamped.
   */
  function ParentDistanceFeature(track: seq<Point>, cell: Point, maxDistance: real, rescale: (Point, real) -> Point)
    : (seq<Point>, Point)
  {
    var ds := Displacements(track + [cell]);
    (ds[..|track|], Clamp(ds[|track|], maxDistance, rescale))
  }

  /** Displacement k of a window extended by a cell: zero first, then steps between consecutive centroids. */
  lemma DisplacementOfExtended(track: seq<Point>, cell: Point, k: nat)
    requires k <= |track|
    ensures Displacements(track + [cell])[k] ==
      if k == 0 then Origin
      else if k == |track| then Sub(cell, track[k - 1])
      else Sub(track[k], track[k - 1])
  {
    var cs := track + [cell];
    if k > 0 {
      assert cs[k - 1] == track[k - 1];
      assert k < |track| ==> cs[k] == track[k];
    }
  }

  /**
   * The track part has the window's length; its first displacement is the
   * clamped zero vector (zero itself for a non-negative bound, see
   * ClampKeepsOrigin); every later entry is the clamped difference of
   * consecutive centroids; the cell's part is the clamped step from the
   * newest centroid to the cell.
   */
  lemma DistanceFeatureShape(track: seq<Point>, cell: Point, maxDistance: real, rescale: (Point, real) -> Point)
    requires |track| > 0
    ensures |DistanceFeature(track, cell, maxDistance, rescale).0| == |track|
    ensures DistanceFeature(track, cell, maxDistance, rescale).0[0] == Clamp(Origin, maxDistance, rescale)
    ensures forall k :: 1 <= k < |track| ==>
              DistanceFeature(track, cell, maxDistance, rescale).0[k] == Clamp(Sub(track[k], track[k - 1]), maxDistance, rescale)
    ensures DistanceFeature(track, cell, maxDistance, rescale).1 == Clamp(Sub(cell, track[|track| - 1]), maxDistance, rescale)
  {
    var cl := ClampAll(Displacements(track + [cell]), maxDistance, rescale);
    DisplacementOfExtended(track, cell, 0);
    DisplacementOfExtended(track, cell, |track|);
    forall k | 1 <= k < |track|
      ensures cl[..|track|][k] == Clamp(Sub(track[k], track[k - 1]), maxDistance, rescale)
    {
      DisplacementOfExtended(track, cell, k);
    }
  }

  /**
   * The distance feature over a fetched centroid window. A history of at
   * least `w` entries gives the clamped steps between its last `w`
   * centroids and the clamped step from its newest centroid to the cell.
   * A shorter history of length L is fetched newest first and padded with
   * its oldest entry, so its entries 1 .. L-1 are the clamped steps walked
   * backwards, the padding gives clamped zero steps, and the cell is
   * measured from the track's first centroid.
   */
  lemma DistanceOfWindow(h: seq<Point>, w: nat, cell: Point, maxDistance: real, rescale: (Point, real) -> Point)
    requires |h| > 0 && w > 0
    ensures var d := DistanceFeature(Window(h, w), cell, maxDistance, rescale);
      && |d.0| == w
      && d.1 == Clamp(Sub(cell, if |h| >= w then h[|h| - 1] else h[0]), maxDistance, rescale)
      && (|h| >= w ==> forall k :: 1 <= k < w ==>
            d.0[k] == Clamp(Sub(h[|h| - w + k], h[|h| - w + k - 1]), maxDistance, rescale))
      && (|h| < w ==> forall k :: 1 <= k < |h| ==>
            d.0[k] == Clamp(Sub(h[|h| - 1 - k], h[|h| - k]), maxDistance, rescale))
      && (|h| < w ==> forall k :: |h| <= k < w ==> d.0[k] == Clamp(Origin, maxDistance, rescale))
  {
    var win := Window(h, w);
    var d := DistanceFeature(win, cell, maxDistance, rescale);
    WindowShape(h, w);
    DisplacementOfExtended(win, cell, w);
    assert win[w - 1] == if |h| >= w then h[|h| - 1] else h[0];
    if |h| >= w {
      forall k | 1 <= k < w
        ensures d.0[k] == Clamp(Sub(h[|h| - w + k], h[|h| - w + k - 1]), maxDistance, rescale)
      {
        WindowStep(h, w, cell, maxDistance, rescale, k);
        assert win[k] == h[|h| - w + k] && win[k - 1] == h[|h| - w + k - 1];
      }
    } else {
      forall k | 1 <= k < |h|
        ensures d.0[k] == Clamp(Sub(h[|h| - 1 - k], h[|h| - k]), maxDistance, rescale)
      {
        WindowStep(h, w, cell, maxDistance, rescale, k);
        assert win[k] == h[|h| - 1 - k] && win[k - 1] == h[|h| - k];
      }
      forall k | |h| <= k < w
        ensures d.0[k] == Clamp(Origin, maxDistance, rescale)
      {
        WindowStep(h, w, cell, maxDistance, rescale, k);
        assert win[k] == h[0] && win[k - 1] == h[0];
        assert Sub(win[k], win[k - 1]) == Origin;
      }
    }
  }

  /** Entry k >= 1 of the distance feature's track part is the clamped step between window entries k-1 and k. */
  lemma WindowStep(h: seq<Point>, w: nat, cell: Point, maxDistance: real, rescale: (Point, real) -> Point, k: nat)
    requires |h| > 0 && 1 <= k < w
    ensures DistanceFeature(Window(h, w), cell, maxDistance, rescale).0[k]
      == Clamp(Sub(Window(h, w)[k], Window(h, w)[k - 1]), maxDistance, rescale)
  {
    DisplacementOfExtended(Window(h, w), cell, k);
  }

  /** Nothing is too far from a non-negative bound when it has no length. */
  lemma ZeroNotTooFar(d: Point, maxDistance: real)
    requires d.x == 0.0 && d.y == 0.0 && 0.0 <= maxDistance
    ensures !TooFar(d, maxDistance)
  {
    SqNormOfZero(d);
    SquareNonNegative(maxDistance);
  }

  lemma SqNormOfZero(d: Point)
    requires d.x == 0.0 && d.y == 0.0
    ensures SqNorm(d) == 0.0
  {
  }

  lemma SquareNonNegative(a: real)
    ensures a * a >= 0.0
  {
  }

  /** A displacement no longer than `maxDistance` is left unchanged; so is the zero displacement whenever the bound is non-negative. */
  lemma ClampKeepsShort(d: Point, maxDistance: real, rescale: (Point, real) -> Point)
    requires 0.0 <= maxDistance
    requires SqNorm(d) <= maxDistance * maxDistance
    ensures Clamp(d, maxDistance, rescale) == d
  {
  }

  lemma ClampKeepsOrigin(maxDistance: real, rescale: (Point, real) -> Point)
    requires 0.0 <= maxDistance
    ensures Clamp(Origin, maxDistance, rescale) == Origin
  {
    ZeroNotTooFar(Origin, maxDistance);
  }

  /**
   * In the parent search only the cell's part is clamped: the track part is
   * the plain displacements, so a long step along the track reaches the
   * model unclamped.
   */
  lemma ParentDistanceFeatureShape(track: seq<Point>, cell: Point, maxDistance: real, rescale: (Point, real) -> Point)
    requires |track| > 0
    ensures |ParentDistanceFeature(track, cell, maxDistance, rescale).0| == |track|
    ensures ParentDistanceFeature(track, cell, maxDistance, rescale).0[0] == Origin
    ensures forall k :: 1 <= k < |track| ==>
              ParentDistanceFeature(track, cell, maxDistance, rescale).0[k] == Sub(track[k], track[k - 1])
    ensures ParentDistanceFeature(track, cell, maxDistance, rescale).1 == Clamp(Sub(cell, track[|track| - 1]), maxDistance, rescale)
  {
    var ds := Displacements(track + [cell]);
    DisplacementOfExtended(track, cell, 0);
    DisplacementOfExtended(track, cell, |track|);
    forall k | 1 <= k < |track|
      ensures ds[..|track|][k] == Sub(track[k], track[k - 1])
    {
      DisplacementOfExtended(track, cell, k);
    }
  }

  /** The clamping loop of lines 138-142, in place over the displacement list. */
  method ComputeDistanceFeature(track: seq<Point>, cell: Point, maxDistance: real, rescale: (Point, real) -> Point)
    returns (trackPart: seq<Point>, cellPart: Point)
    ensures (trackPart, cellPart) == DistanceFeature(track, cell, maxDistance, rescale)
  {
    var distances := Displacements(track + [cell]);
    ghost var raw := distances;
    for j := 0 to |distances|
      invariant |distances| == |raw|
      invariant forall k :: 0 <= k < j ==> distances[k] == Clamp(raw[k], maxDistance, rescale)
      invariant forall k :: j <= k < |raw| ==> distances[k] == raw[k]
    {
      if TooFar(distances[j], maxDistance) {
        distances := distances[j := rescale(distances[j], maxDistance)];
      }
    }
    assert distances == ClampAll(raw, maxDistance, rescale);
    trackPart, cellPart := distances[..|track|], distances[|track|];
  }

  // -------------------------------------------------------- model inputs

  /** One feature's input pair for one (track, cell) sample: the track's window and the cell's value. */
  datatype Part =
    | Images(trackImages: seq<Image>, cellImage: Image)
    | Points(trackPoints: seq<Point>, cellPoint: Point)
    | Scalars(trackScalars: seq<real>, cellScalar: real)

  /** One sample for the model: an input pair per configured feature. */
  type Sample = map<Feature, Part>

  /** The model's three outputs for one sample; p1 is read as the continuation score (line 229), p2 as the division score (lines 237, 414). */
  datatype Probs = Probs(p0: real, p1: real, p2: real)

  /** `_compute_feature`: only the distance feature is transformed. */
  function PairPart(f: Feature, win: History, cell: Bundle, maxDistance: real, rescale: (Point, real) -> Point): Part {
    match f
    case Appearance => Images(win.appearance, cell.appearance)
    case Distance =>
      var (tp, cp) := DistanceFeature(win.distance, cell.distance, maxDistance, rescale);
      Points(tp, cp)
    case Neighborhood => Images(win.neighborhood, cell.neighborhood)
    case Perimeter => Scalars(win.perimeter, cell.perimeter)
  }

  /**
   * `get_track_and_frame_feature` of `_get_parent`. The neighborhood branch
   * runs a `MovieDataGenerator` built with no rotation, no flips and
   * default (zero) ranges, taken here as the identity.
   */
  function ParentPart(f: Feature, win: History, cell: Bundle, maxDistance: real, rescale: (Point, real) -> Point): Part {
    match f
    case Appearance => Images(win.appearance, cell.appearance)
    case Distance =>
      var (tp, cp) := ParentDistanceFeature(win.distance, cell.distance, maxDistance, rescale);
      Points(tp, cp)
    case Neighborhood => Images(win.neighborhood, cell.neighborhood)
    case Perimeter => Scalars(win.perimeter, cell.perimeter)
  }

  /** `_compute_feature` as the loop of lines 203-210 calls it, for one feature. */
  method ComputeFeature(f: Feature, win: History, cell: Bundle, maxDistance: real, rescale: (Point, real) -> Point)
    returns (part: Part)
    ensures part == PairPart(f, win, cell, maxDistance, rescale)
  {
    match f
    case Appearance => part := Images(win.appearance, cell.appearance);
    case Distance =>
      var tp, cp := ComputeDistanceFeature(win.distance, cell.distance, maxDistance, rescale);
      part := Points(tp, cp);
    case Neighborhood => part := Images(win.neighborhood, cell.neighborhood);
    case Perimeter => part := Scalars(win.perimeter, cell.perimeter);
  }
}
