# Cell tracker core, modelled in Dafny

This project models the bookkeeping of `cell_tracker` in `deepcell/tracking.py`. The tracker follows segmented cells through a time-lapse label movie. For each frame it does the following:

- it builds a square cost matrix from a network's scores and from birth and death costs;
- it lets a linear-assignment solver pair tracks with cells;
- it interprets the pairs as continuations, births (with a parent search for divisions) and deaths;
- it caps divided tracks and repairs a divided track that still holds the current frame;
- it appends one plane of track ids to the tracked movie.

Modules, in dependency order:

- `Wrappers`: `Option`.
- `Labels`: `_clean_up_annotations`. Each frame is renumbered by the rank of each label among the frame's distinct labels. A method has the nested loop of the source, and a function states what it computes.
- `Features`: per-track feature histories, the history window the model is fed (`_fetch_track_*`), the distance feature with its clamping loop (`_compute_feature`, and the distance branch of `_get_parent`), and the per-pair model input.
- `Tracks`: the track record, id allocation (`_create_new_track`), initialisation from frame 0 (`_initialize_tracks`) and the track store's invariant. Tracks live in an arena: the dictionary key `i` is position `i` of a sequence. `Tracks.NextIdIsCount` proves that this is what the source's id rule maintains.
- `CostMatrix`: the four blocks of `_get_cost_matrix` and their assembly.
- `Assignment`: the contract of `_run_lap`. The solver returns rows `0..k-1` in order together with a permutation of least total cost. This module also proves the consequence the capped-row masking is there for.
- `Lifecycle`: what one frame does, written as functions on the arena and the output plane: cost matrix, parent search, the pairs, capping, repair, and the frame loop `_track_cells`.
- `Lineage`: what those functions guarantee. This covers the parent rule, the effect of each kind of pair, painting of the output plane, capping, repair, and the store's invariant across a whole update.
- `Tracker`: the class `CellTracker`, with the fields `y`, `tracks` and `yTracked` that the source mutates in place. Each of its methods keeps the loops of the source and is proved equal to the `Lifecycle` function that specifies it.

The network, the feature extractor, the rescaling of a too-long displacement and the solver are parameters of `Lifecycle.Config`.

Where the code departs from the tracker's documented intent, the model follows the code:

- Clean-up maps a frame's distinct labels to `0..k-1` by rank. Background 0 stays 0 only because it is the smallest label. The docstring (line 69) speaks of labels 1 to N.
- A history shorter than the window `W` is fetched as its entries newest first, followed by its oldest entry repeated (line 464). The docstrings (lines 449-451) speak of filling in with the first frame. For the distance feature (lines 131-143) this means that, for a track younger than `W` frames, the cell is measured from the track's first centroid rather than its newest, and the track part holds the steps walked backwards followed by zero steps (`Features.DistanceOfWindow`). With the default `track_length` of 1 every history is at least as long as the window, so this does not arise.
- Index 1 of the network's output is read as the continuation score (line 229) and index 2 as the division score (lines 237 and 414).
- In `_get_parent`, only the cell's displacement is clamped (lines 380-384). In `_compute_feature`, every displacement is clamped (lines 138-142).
- The parent search runs after the newborn's track is created (lines 292-296), so the newborn can be chosen as its own parent. `Lifecycle.Link` reproduces this. A newborn that is its own parent is divided, so repair moves its only frame to a new daughter and leaves it with empty histories. The same happens to a newborn that a later newborn of the same frame chooses as parent.
- The next frame's window fetch of an empty history fails only for appearance and neighborhood (lines 465 and 539): `CostOf` then gives `None`. For distance and perimeter the bare `except` keeps the zeros the arrays were allocated with (lines 487-493 and 512-517).
- `_get_features` returns all four feature kinds whatever is configured (line 648), and lines 183-186 store each of them into a table keyed by the configured kinds only. A frame with at least one cell therefore raises `KeyError` unless all four kinds are configured, and `CostOf` gives `None` then too. A proper subset of the features only works for a frame with no cell.

## Model

| member | source | states |
|---|---|---|
| Labels.Unique | deepcell/tracking.py:75 | `np.unique`: the result is strictly increasing and holds exactly the frame's values |
| Labels.MaxOf | deepcell/tracking.py:161 | `np.amax` of a plane: a value of the plane, at least every entry |
| Labels.Relabel | deepcell/tracking.py:74-79 | the cleaned frame has as many pixels as the frame; what it holds is stated by the three lemmas below |
| Labels.RelabelKeepsIdentity | deepcell/tracking.py:74-79 | after clean-up, two pixels share a label exactly when they shared one before |
| Labels.RelabelKeepsOrder | deepcell/tracking.py:74-79 | clean-up keeps the order of labels, in both directions |
| Labels.RelabelRange | deepcell/tracking.py:66-80 | a cleaned frame uses exactly the labels `0..k-1`, with `k` its number of distinct labels, and its new maximum is `k-1` |
| Labels.RelabelFrame | deepcell/tracking.py:75-79 | the nested loop over distinct labels and pixels computes the rank relabelling `Relabel` |
| Labels.CleanUpAnnotations | deepcell/tracking.py:66-80 | every frame of the volume is replaced by its rank relabelling, and the frame count is kept |
| Tracks.MaxKey | deepcell/tracking.py:87 | `np.amax` of the ids: one of them, at least every other |
| Tracks.NextId | deepcell/tracking.py:86-89 | the new id is larger than every existing id, so it is fresh |
| Tracks.NextIdIsCount | deepcell/tracking.py:86-89 | with ids `0..n-1` the next id is `n` (0 for an empty store), so ids stay contiguous and an id is an arena position |
| Tracks.RemoveZero | deepcell/tracking.py:114 | deleting the background keeps exactly the non-zero labels |
| Tracks.InitialTrackLabels | deepcell/tracking.py:110-117 | initialisation makes one track per non-zero label of frame 0, in both directions, in increasing label order |
| Tracks.InitialTracksFresh | deepcell/tracking.py:92-103 | each initial track has frames `[0]`, no daughters, is not capped, has no parent, and has the cell's features as a one-entry history |
| Tracks.InitialTracksConsistent | deepcell/tracking.py:105-117 | the initial store satisfies the store invariant: histories aligned with frames, parent and daughter links in agreement, capped only when divided |
| Features.Window | deepcell/tracking.py:459-465 | a window of a non-empty history has exactly `W` entries |
| Features.WindowShape | deepcell/tracking.py:459-465 | the window has `W` entries. A history of at least `W` entries gives its last `W` in order; a shorter one of length `L` gives entry `L-1-i` at `i < L` and entry 0 after that |
| Features.WindowOfSingle | deepcell/tracking.py:459-465 | a one-entry history yields that entry `W` times, never zeros |
| Features.WindowOrZeros | deepcell/tracking.py:478-493 | perimeter and centroid windows have `W` entries; an empty history gives `W` zeros, which the bare `except` keeps, and a non-empty one gives its ordinary window |
| Features.TrackWindows | deepcell/tracking.py:447-541 | every configured feature's window of a fetchable track has exactly `W` entries |
| Features.History.Append | deepcell/tracking.py:283-285 | a continuation adds exactly one entry to every feature history |
| Features.DistanceFeatureShape | deepcell/tracking.py:131-143 | the track part is as long as the window; its first entry is the clamped zero displacement, each later entry is the clamped difference of consecutive centroids, and the cell part is the clamped step from the window's last entry to the cell |
| Features.DistanceOfWindow | deepcell/tracking.py:131-143 | over a fetched centroid window: for a history of at least `W` entries, the clamped steps between its last `W` centroids and the clamped step from its newest centroid to the cell; for a shorter history of length `L`, entries `1..L-1` are the clamped steps walked backwards, the rest are clamped zero steps, and the cell is measured from the track's first centroid |
| Features.ClampKeepsShort | deepcell/tracking.py:138-142 | a displacement whose norm is at most `max_distance` is left unchanged (stated on squared norms) |
| Features.ClampKeepsOrigin | deepcell/tracking.py:138-142 | the zero displacement is never rescaled when `max_distance` is non-negative |
| Features.ParentDistanceFeatureShape | deepcell/tracking.py:371-386 | in the parent search the track part is the unclamped displacements (zero first, then consecutive differences) and only the cell part is clamped |
| Features.ComputeDistanceFeature | deepcell/tracking.py:131-143 | the in-place clamping loop returns exactly `DistanceFeature` |
| Features.ComputeFeature | deepcell/tracking.py:122-147 | `_compute_feature` returns the window and the cell's value unchanged for appearance, neighborhood and perimeter, and the distance feature for distance |
| CostMatrix.MaskCapped | deepcell/tracking.py:231-234 | the loop sets every entry of a capped track's row to 1 and leaves the other rows unchanged |
| CostMatrix.Assemble | deepcell/tracking.py:247-251 | the four blocks, of sizes `N x M`, `M x M`, `N x N` and `M x N`, assemble into an `(N+M) x (N+M)` matrix |
| CostMatrix.Cost | deepcell/tracking.py:163 | the cost matrix is `(N+M) x (N+M)` |
| CostMatrix.CostEntries | deepcell/tracking.py:229-251 | entry by entry: `1 - p1` (1 for a capped track) in the top-left block, `death` on the diagonal and 1 elsewhere in the top-right block, `birth` on the diagonal and 1 elsewhere in the bottom-left block, and the transposed top-left block in the bottom-right block |
| CostMatrix.BottomRightIsTranspose | deepcell/tracking.py:245 | the bottom-right block is the transpose of the continuation block |
| Assignment.PairsOfPermutation | deepcell/tracking.py:255-262 | for a permutation, pair `a` has row `a`, and every column is assigned by exactly one pair |
| Assignment.OptimalNoCheaperSwap | deepcell/tracking.py:259 | in a least-cost assignment, exchanging two rows' columns never lowers the cost |
| Assignment.CappedTrackNotContinued | deepcell/tracking.py:231-234 | if death costs less than 1, birth at most 1 and the scores are non-negative, no least-cost assignment matches a capped track to a cell |
| Lifecycle.FirstArgMax | deepcell/tracking.py:426-427 | `np.where(probs == max)[0][0]`: an index of the maximum, strictly above every earlier entry |
| Lifecycle.CostOf | deepcell/tracking.py:153-253 | `_get_cost_matrix` fails exactly when some track's appearance or neighborhood history is empty, or when the frame has a cell and a feature kind is not configured; otherwise it gives an `(N+M) x (N+M)` matrix |
| Lifecycle.ParentOf | deepcell/tracking.py:349-433 | a parent found is an existing track |
| Lifecycle.Birth | deepcell/tracking.py:291-302 | a birth adds exactly one track and keeps every history fetchable |
| Lifecycle.Step | deepcell/tracking.py:274-309 | a pair removes no track, keeps every history fetchable and keeps the plane's size |
| Lifecycle.Apply | deepcell/tracking.py:272-309 | all pairs together remove no track, keep every history fetchable and keep the plane's size |
| Lifecycle.Cap | deepcell/tracking.py:311-315 | capping keeps the number of tracks |
| Lifecycle.RepairOne | deepcell/tracking.py:318-344 | repairing one track removes no track and keeps the plane's size |
| Lifecycle.Repair | deepcell/tracking.py:317-344 | the repair loop removes no track and keeps the plane's size |
| Lifecycle.Update | deepcell/tracking.py:264-347 | the plane appended by an update has the frame's size |
| Lifecycle.FrameCost | deepcell/tracking.py:153-253 | a frame's cost matrix is `(N+M) x (N+M)` for `N` tracks and `M` cells |
| Lineage.ParentChoice | deepcell/tracking.py:419-433 | a parent is found exactly when some capped-zeroed division score exceeds `division`; it is then the first index of the highest score |
| Lineage.ParentNeverCapped | deepcell/tracking.py:419-432 | with a non-negative `division`, a capped track is never chosen as parent |
| Lineage.BirthKeeps | deepcell/tracking.py:291-302 | a birth appends the cell's new track and changes no other track's label, frames, capped flag or history |
| Lineage.BirthLinked | deepcell/tracking.py:291-302 | a birth gives the newborn the parent `ParentOf` finds among all tracks, the newborn included; that parent's daughters gain exactly the newborn; no other track's parent or daughters change |
| Lineage.ContinueKeepsLinks | deepcell/tracking.py:280-285 | a continuation changes no track's parent or daughters |
| Lineage.StepKeeps | deepcell/tracking.py:274-309 | a continuation pair replaces that track by its continuation; a birth pair appends a track created for the cell; a pair with a sink cell changes nothing; no other track's label, frames, capped flag or history changes |
| Lineage.StepContinueLinks | deepcell/tracking.py:278-289 | a continuation pair changes no track's parent or daughters |
| Lineage.StepBirthLinks | deepcell/tracking.py:291-304 | a birth pair writes the links of a birth: the newborn's parent is the one found, and only that parent gains the newborn as a daughter |
| Lineage.StepOut | deepcell/tracking.py:287-304 | a continuation paints the cell's pixels `track+1`, a birth paints them `new id + 1`, and a pair with a sink cell paints nothing |
| Lineage.ApplyContinuations | deepcell/tracking.py:274-289 | after the pairs, each original track keeps its label and capped flag, and gains the frame and the cell's features exactly when its row was paired with a real cell |
| Lineage.ApplyBirths | deepcell/tracking.py:291-304 | every track born in the frame has frames `[frame]`, is uncapped, is labelled with a cell of the frame and holds that cell's features |
| Lineage.ApplyPaints | deepcell/tracking.py:272-309 | every painted pixel names a track seen in this frame: its own row's cell for a continued track, its own label for a newborn; every pixel of an assigned cell is painted |
| Lineage.AssignCovers | deepcell/tracking.py:272-315 | with the solver's permutation, after the pairs and capping a pixel is painted exactly when it is not background |
| Lineage.LinkKeepsConsistent | deepcell/tracking.py:299-300 | linking a parentless newborn keeps the store invariant |
| Lineage.BirthKeepsConsistent | deepcell/tracking.py:291-302 | a birth with its parent link keeps the store invariant |
| Lineage.StepKeepsConsistent | deepcell/tracking.py:274-309 | every kind of pair keeps the store invariant |
| Lineage.ApplyKeepsConsistent | deepcell/tracking.py:272-309 | all pairs together keep the store invariant |
| Lineage.CapEffect | deepcell/tracking.py:311-315 | capping changes only capped flags; afterwards a track is capped exactly when it has a daughter, and the invariant still holds |
| Lineage.RemoveFirstSpec | deepcell/tracking.py:338 | `list.remove` drops exactly the first occurrence |
| Lineage.RepairOneTracks | deepcell/tracking.py:317-344 | a track without daughters or without the frame is left alone. Otherwise: a new track with parent `t` and `t`'s label takes the frame and the newest entry of each configured history; `t` loses the first occurrence of the frame and that entry and gains the new daughter; no other track changes |
| Lineage.MovedNewestByRepair | deepcell/tracking.py:332-340 | the entries kept by the parent followed by the one moved to the daughter are the parent's former history, per configured feature |
| Lineage.RepairOneOut | deepcell/tracking.py:344 | repair repaints exactly the pixels of `t+1` to `new id + 1` |
| Lineage.RepairOneConsistent | deepcell/tracking.py:317-344 | repairing one track keeps the store invariant and keeps every divided track capped |
| Lineage.RepairOneNames | deepcell/tracking.py:317-344 | repairing one track keeps every painted pixel naming a track seen in the frame, and changes no pixel's background status |
| Lineage.RepairKeeps | deepcell/tracking.py:317-344 | the repair loop keeps the store invariant and the output naming, removes no track, and changes no old track's label or capped flag |
| Lineage.RepairOneFrames | deepcell/tracking.py:318-344 | as far as frames and daughters go, only a divided track holding the frame changes: it loses the first occurrence of the frame, and the new track holds only the frame and has no daughter |
| Lineage.RepairOneRepaired | deepcell/tracking.py:318-344 | repairing a track that holds the frame at most once leaves it without the frame if it has a daughter, and keeps the loop's progress |
| Lineage.RepairProgress | deepcell/tracking.py:317-344 | after the loop has visited tracks `0..k-1`, no visited divided track holds the frame, the others still hold it at most once, and the tracks the loop created have no daughter |
| Lineage.RepairSeparates | deepcell/tracking.py:317-344 | the purpose of the repair loop: when every track holds the frame at most once, afterwards no track with a daughter holds the frame |
| Lineage.RemoveFirstKeeps | deepcell/tracking.py:338 | `list.remove` keeps every element other than the one removed |
| Lineage.RepairOneOtherFrames | deepcell/tracking.py:318-344 | repairing one track removes no track and takes no frame other than the current one from any track |
| Lineage.RepairOtherFrames | deepcell/tracking.py:317-344 | the repair loop removes no track and takes no frame other than the current one from any track |
| Lineage.RemoveFirstWithin | deepcell/tracking.py:338 | `list.remove` adds no element |
| Lineage.RepairOneGainsOnly | deepcell/tracking.py:318-344 | repairing one track gives no track a frame other than the current one, keeps every other first frame first, and changes no old track's parent |
| Lineage.RepairGainsOnly | deepcell/tracking.py:317-344 | the whole repair loop gives no track a frame other than the current one, keeps every other first frame first, and changes no old track's parent |
| Lineage.StepParentsKept | deepcell/tracking.py:274-309 | no pair changes an old track's parent |
| Lineage.ApplyParentsKept | deepcell/tracking.py:272-309 | all pairs together change no old track's parent |
| Lineage.AssignAndCapFrames | deepcell/tracking.py:272-315 | after the pairs and capping, each old track holds its old frames followed by the frame when its row was paired with a cell of the frame, and exactly its old frames otherwise; each newborn holds only the frame |
| Lineage.OnceAppended | deepcell/tracking.py:278 | appending a frame a track did not hold leaves it holding that frame exactly once |
| Lineage.AssignAndCapKeeps | deepcell/tracking.py:272-315 | after the pairs and capping, the store invariant and output naming hold, no track is removed or relabelled, and no capped flag is reset |
| Lineage.UpdateKeepsConsistent | deepcell/tracking.py:264-347 | `_update_tracks` keeps the store invariant, leaves every divided track capped, removes no track and relabels none; when no track held the frame before, no track with a daughter holds it afterwards |
| Lineage.AssignAndCapGainsOnly | deepcell/tracking.py:272-315 | the pairs and capping give no track a frame other than the current one, keep every other first frame first, and change no old track's parent |
| Lineage.UpdateGainsOnly | deepcell/tracking.py:264-344 | a whole update gives no track a frame other than the current one, keeps every other first frame first, and changes no old track's parent |
| Lineage.GainsOnlyOrders | deepcell/tracking.py:264-344 | if every frame held comes before `frame`, each track's frames come before its daughters' first frame, the update gains only `frame` and no divided track holds `frame`, then the order holds afterwards with every frame at or before `frame` |
| Lineage.UpdateOrdersFrames | deepcell/tracking.py:264-347 | an update to a frame after every frame the store holds keeps every track's frames before the first frame of each of its daughters: a track that has divided gains no frame at or after the division |
| Lineage.UpdateSeparates | deepcell/tracking.py:264-344 | an update to a frame no track held leaves no track with a daughter holding the frame |
| Lineage.UpdateKeepsOtherFrames | deepcell/tracking.py:264-344 | an update removes no track and takes no frame other than the current one from any track |
| Lineage.UpdateOutput | deepcell/tracking.py:264-347 | with the solver's permutation, the appended plane is background exactly where the frame is, and every other pixel names a track seen in this frame |
| Lineage.UpdatePlane | deepcell/tracking.py:264-347 | with the solver's permutation, the appended plane is the tracked plane of the frame: background exactly where the frame is, every other pixel naming a track seen in the frame |
| Lineage.PlaneNamesKept | deepcell/tracking.py:651-659 | an update to a later frame keeps every earlier tracked plane naming tracks seen in its frame |
| Lineage.TrackFramePlanes | deepcell/tracking.py:651-659 | one frame of `_track_cells` succeeds exactly when the frame has no cell or all four feature kinds are configured (given fetchable histories); with a solver that keeps its contract it then appends the frame's tracked plane and keeps what the earlier planes say |
| Lineage.TrackFrameKeeps | deepcell/tracking.py:655-659 | one successful frame: running on from the next frame is running on from this one, the store evolves, the frame's tracked plane is appended, and a store ordered up to this frame stays ordered up to the next |
| Lineage.TrackFrameOrders | deepcell/tracking.py:655-659 | one successful frame on an ordered store leaves it consistent and ordered up to the next frame |
| Lineage.EvolvesTrans | deepcell/tracking.py:655-659 | the per-frame guarantee (invariant kept, nothing removed or relabelled) composes across frames |
| Tracker.CellTracker.constructor | deepcell/tracking.py:15-63 | `__init__` cleans every frame and creates the initial tracks; the first tracked plane is frame 0, the invariant holds, every frame a track holds is frame 0, and each track's frames come before the first frame of each of its daughters |
| Tracker.CellTracker.CreateNewTrack | deepcell/tracking.py:82-103 | the new id is the old track count, and exactly one fresh record is appended |
| Tracker.CellTracker.InitializeTracks | deepcell/tracking.py:105-120 | the loop creates `InitialTracks` of frame 0's non-zero labels and starts `y_tracked` with frame 0 |
| Tracker.CellTracker.BuildSample | deepcell/tracking.py:203-210 | the loop over features builds exactly the pair's model input |
| Tracker.CellTracker.FetchWindows | deepcell/tracking.py:169-171 | the windows are returned exactly when every track's appearance and neighborhood histories are non-empty, and are each track's windows |
| Tracker.CellTracker.ExtractCells | deepcell/tracking.py:176-186 | fails (`KeyError`) exactly when the frame has a cell and some feature kind is not configured; otherwise cell `j` of the frame is the features of label `j+1` |
| Tracker.CellTracker.ScoreRow | deepcell/tracking.py:199-229 | one track's row of continuation scores |
| Tracker.CellTracker.ScoreMatrix | deepcell/tracking.py:199-229 | the matrix of continuation scores `predictions[:,:,1]` |
| Tracker.CellTracker.GetCostMatrix | deepcell/tracking.py:153-253 | the cost matrix of the frame, or `None` when a window cannot be fetched or a cell's features hold a kind that is not configured, as `CostOf` |
| Tracker.CellTracker.GetParent | deepcell/tracking.py:349-433 | the zeroing loop and the arg-max give `ParentOf`, whose rule `Lineage.ParentChoice` states |
| Tracker.CellTracker.BirthTrack | deepcell/tracking.py:291-302 | creates the track and links it to the parent found, as `Birth` |
| Tracker.CellTracker.HandleAssignment | deepcell/tracking.py:274-309 | one pair changes the store and the plane as `Step` |
| Tracker.CellTracker.HandleAssignments | deepcell/tracking.py:272-309 | the loop over the pairs, from an all-zero plane, gives `Apply` |
| Tracker.CellTracker.CapTracks | deepcell/tracking.py:311-315 | the capping loop gives `Cap` |
| Tracker.CellTracker.RepairTrack | deepcell/tracking.py:318-344 | one repair iteration gives `RepairOne` |
| Tracker.CellTracker.UpdateTracks | deepcell/tracking.py:264-347 | the store becomes `Update`'s tracks and its plane is appended to `y_tracked` |
| Tracker.CellTracker.TrackOneFrame | deepcell/tracking.py:655-659 | one pass of the loop: the new store and planes are `TrackFrame` of the old ones, or nothing changes when the cost matrix cannot be built; on success it keeps the guarantees of `TrackFrameKeeps` |
| Tracker.CellTracker.TrackCells | deepcell/tracking.py:651-659 | the frame loop computes `Run` from frame 1, and it stops on the first frame whose cost matrix cannot be built. Whether it succeeds or stops, the invariant holds and no track was removed or relabelled. On success one plane per frame was appended; with a solver that keeps its contract, the plane of frame `f` is zero exactly on the background of `f` and its other pixels name tracks seen in `f`; and started from the constructor's store, every track's frames come before the first frame of each of its daughters, so a capped track gains no frame at or after its division |

## Left out

- `_get_features` (lines 543-649) is the parameter `Config.extract`. Image cropping, region properties and resizing are library numerics.
- Lifecycle.RepairOne: the repair creates the daughter with `_create_new_track(frame, label)` (lines 329-330), and `_get_features` reads `props[0]` (lines 578-580), which raises when the parent's label has no pixel in the frame. `Config.extract` is total, so the model does not capture that exception.
- `self.model.predict` (lines 227 and 413) is the parameter `Config.predict`, from one sample to a score triple. Batching and reshaping are not modelled.
- `linear_sum_assignment` (line 259) is the parameter `Config.solve`. Its contract is `Lifecycle.SolvesOptimally`: on every square matrix it returns a least-cost permutation (`Assignment.Optimal`). `TrackCells` requires it, and the update lemmas use only the permutation part.
- The rescaling `dist / norm * max_distance` (lines 141-142 and 384) is the parameter `Config.rescale`. The "too far" test is kept, on squared norms.
- Floating-point values are modelled as `real`. `float32` rounding is not modelled.
- The neighborhood augmentation of `_get_parent` (lines 388-402) is taken as the identity. Its generator has zero rotation, no flips and default ranges.
- `print` calls (lines 298, 322-326, 416, 428, 490-492, 515-517 and 656) are not modelled.
- Line 325 prints `new_track_id`, which is unbound when a repair happens in a frame without a birth, so the source raises there. The model repairs the track.
- Line 151 formats an undefined `feature` on an unknown feature name. `Features.Feature` is a closed type, so that path does not exist in the model.
- `features=None` raising `ValueError` (lines 35-36), `data_format` and the channel axis (lines 32-33 and 50) are not modelled.
- The `cell_id=None` default of `_create_new_track` (lines 92-93) is not modelled: every caller passes a label.
- An exception raised on an empty appearance or neighborhood history (lines 465 and 539), and the `KeyError` of line 186, are modelled as `None` from `CostOf` and `false` from `TrackCells`.
- Tracker.CellTracker.constructor: requires a positive `track_length` and non-empty frames. With `track_length` 0 the fetch of line 460 would give a window of the wrong shape.
- `_track_cells` iterates over the frames of the movie `x` (line 655). The model uses the frames of the annotation and assumes both have the same count.
- Tracker.CellTracker.TrackCells: the guarantees across frames are stated on the method (loop invariants) rather than as a lemma about `Lifecycle.Run`.
- Features.TrackWindows: the window is a property of one track; the preallocated `(tracks, W, ...)` arrays of the fetch functions are represented as one `History` of windows per track.
