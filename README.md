# DynamicCinemachineMixingCamera, modelled in Dafny

`DynamicCinemachineMixingCamera` is a Cinemachine camera manager. It blends the
camera states of its child virtual cameras by user-assigned weights. It keeps:

- a weight table: an ordered list of (camera, weight) rows;
- a lazily rebuilt child cache. A rebuild prunes rows whose camera is dead and
  lists the live cameras;
- the result of the last tick: the blended camera state, the live (dominant)
  child and its percentage of the total weight.

The model has one file per concern:

- `cameras.dfy` (module `Cameras`): camera references as opaque identities.
  `NoCamera` is the null reference. Whether a camera is alive (Unity's
  implicit bool conversion of the reference; the source tests `!pair.Camera`
  for a dead one) is decided by a set of destroyed ids. Whether it is active and
  enabled is decided by a set of enabled ids. Both sets are inputs. The file
  also holds `Epsilon` and `Mathf.Max(0, ·)`.
- `weight_table.dfy` (module `WeightTable`): the rows and the pure operations
  on the table:
  - index reads and writes;
  - first-match lookup by camera;
  - `List.Remove`, which drops the first row equal in camera and weight;
  - pruning to the live rows;
  - the cache a rebuild leaves;
  - the validate and reset passes;
  - lemmas about all of these.
- `blend.dfy` (module `Blend`): the loop of `InternalUpdateCameraState` as a
  left fold (`Fold`) over the cached children. `Step` is one pass of the loop
  body. Lemmas give the totals, the dominant child, the percentage, the
  one-child case and the weighted average.
- `decimal.dfy` (module `Decimal`): the decimal text of an integer, which
  `Description` appends. It is canonical (no leading zero, no "-0") and reads
  back as the integer, and it is the only canonical text that reads back as
  that integer (`Decimal.CanonicalDecimalUnique`).
- `mixing_camera.dfy` (module `MixingCamera`): the class
  `DynamicMixingCamera<S>`. Its fields are the table, the cache (an `Option`;
  `None` is the null reference), the flags `_childCamerasDisposed`,
  `_updatingCache` and `PreviousStateIsValid`, `m_CameraState`,
  `m_LiveChildPercent` and `LiveChild`. Every method of the source that is
  modelled is a method here, whose `ensures` gives its new state in terms of
  the old one. The read-only members are functions over the fields. The
  methods not modelled are listed under "Left out".

What the source reads from the engine is passed in:

- the destroyed and enabled camera sets;
- each camera's `State`, and `CameraState.Lerp`, as the fields `stateOf` and
  `lerp` of an `Engine<S>`. `S` is the camera-state type;
- what `ChildCameras` yields before and after `base.UpdateCameraCache()`, as
  `first` and `second`;
- a camera's `Name`, and `Mathf.RoundToInt`.

Two behaviours of the code are modelled as written:

- The rebuild walks the table from the last row to the first and appends, so
  the cache holds the table's cameras in reverse order (`CacheOf`).
- The blend pairs cache entry `i` with the weight of table row `i`
  (`BlendWeight`). So a child is blended with the weight of the row at its
  mirrored position.

For the table `[(A, 1), (B, 3)]` with both cameras active:

- the cache is `[B, A]`;
- B is blended with weight 1 and A with weight 3;
- A is the live child at 75%;
- the state is `Lerp(State(B), State(A), 3/4)`.

`Blend.TwoCameraTick` proves this. B has the larger weight in the table, yet A
is the live child, because the blend pairs cache entry i with row i's weight.

Likewise, a single qualifying child with weight in (Epsilon, 0.001] gets
percentage 0, not 100. That range is nonempty because Epsilon (0.0001) is below
0.001. That is because of the `totalWeight > 0.001` test
(`Blend.FoldSingle`).

## Model

| member | source | states |
|---|---|---|
| `WeightTable.SetThenGet` | com.unity.cinemachine/Runtime/Behaviours/DynamicCinemachineMixingCamera.cs:106-131 | After SetWeight(index, w), GetWeight(index) reads `w` when index is in range. Every other index reads what it read before. No camera moves. Past the end the table is unchanged. |
| `WeightTable.FindCamera` | com.unity.cinemachine/Runtime/Behaviours/DynamicCinemachineMixingCamera.cs:139 | The result is the first row whose camera matches. It is -1 exactly when no row matches. |
| `WeightTable.FindPair` | com.unity.cinemachine/Runtime/Behaviours/DynamicCinemachineMixingCamera.cs:22-25 | The index of the first row equal to the pair (same camera, same weight), or -1 exactly when no row is equal. |
| `WeightTable.RemoveFirst` | com.unity.cinemachine/Runtime/Behaviours/DynamicCinemachineMixingCamera.cs:22-25 | List.Remove under the pair's value equality. A table without the pair is unchanged. Otherwise the table is one row shorter. |
| `WeightTable.RemoveFirstAt` | com.unity.cinemachine/Runtime/Behaviours/DynamicCinemachineMixingCamera.cs:243 | The row removed is the one at the first index holding the pair. |
| `WeightTable.RemoveFirstSplits` | com.unity.cinemachine/Runtime/Behaviours/DynamicCinemachineMixingCamera.cs:263 | When the pair occurs, the result is the table with its first occurrence cut out. Exactly one copy of the pair is gone and nothing else changes (multiset). |
| `WeightTable.RemoveFirstAppend` | com.unity.cinemachine/Runtime/Behaviours/DynamicCinemachineMixingCamera.cs:240-243 | Removing a pair that occurs in the front part of a table leaves the back part untouched. This is why the rebuild's removals never disturb the rows it has already passed. |
| `WeightTable.RemoveCameraDrops` | com.unity.cinemachine/Runtime/Behaviours/DynamicCinemachineMixingCamera.cs:268 | RemoveCamera's argument to List.Remove drops the first row holding the camera. With no such row, it removes the default (no camera, 0) pair. |
| `WeightTable.Survivors` | com.unity.cinemachine/Runtime/Behaviours/DynamicCinemachineMixingCamera.cs:238-247 | The pruned table is no longer than the table, and every row in it has a live camera. |
| `WeightTable.LiveIndices` | com.unity.cinemachine/Runtime/Behaviours/DynamicCinemachineMixingCamera.cs:238-247 | The pruned rows are table rows at strictly increasing indices: pruning keeps the relative order. |
| `WeightTable.LiveIndicesCover` | com.unity.cinemachine/Runtime/Behaviours/DynamicCinemachineMixingCamera.cs:241-246 | A table index is among the survivors' indices exactly when its camera is alive. No live row is removed, and no dead row is kept. |
| `WeightTable.PruneDeadRow` | com.unity.cinemachine/Runtime/Behaviours/DynamicCinemachineMixingCamera.cs:240-244 | Removing the dead row at index i, as the rebuild does, leaves a table one row shorter. The rows before i prune to what the rows up to and including i pruned to, and the rows after i move down by one. |
| `WeightTable.KeepLiveRow` | com.unity.cinemachine/Runtime/Behaviours/DynamicCinemachineMixingCamera.cs:240-246 | A live row at index i is kept in place. The cache of the rows from i on is the cache of the rows after i, followed by that row's camera. |
| `WeightTable.SurvivorsAppend` | com.unity.cinemachine/Runtime/Behaviours/DynamicCinemachineMixingCamera.cs:238-247 | Pruning a table in two parts is pruning the parts, in order. |
| `WeightTable.SurvivorsRemoveDead` | com.unity.cinemachine/Runtime/Behaviours/DynamicCinemachineMixingCamera.cs:241-244 | Removing a row whose camera is dead, wherever List.Remove finds it, does not change what survives. |
| `WeightTable.SurvivorsCount` | com.unity.cinemachine/Runtime/Behaviours/DynamicCinemachineMixingCamera.cs:241-246 | Pruning keeps every copy of a row with a live camera and no copy of a row with a dead one. |
| `WeightTable.SurvivorsOfLiveTable` | com.unity.cinemachine/Runtime/Behaviours/DynamicCinemachineMixingCamera.cs:238-247 | A table whose cameras are all alive is not pruned. |
| `WeightTable.CacheOfConcat` | com.unity.cinemachine/Runtime/Behaviours/DynamicCinemachineMixingCamera.cs:238-246 | The cache is as long as the table. The cameras of a back part come before those of a front part (reverse order). |
| `WeightTable.CacheOfSameCameras` | com.unity.cinemachine/Runtime/Behaviours/DynamicCinemachineMixingCamera.cs:121-131 | Weight changes do not change the cache a rebuild would produce. |
| `WeightTable.ValidatedClamps` | com.unity.cinemachine/Runtime/Behaviours/DynamicCinemachineMixingCamera.cs:54-58 | After validation every weight is max(0, old weight): non-negative weights are kept and negative ones become 0. Cameras and length stay, and validating twice changes nothing more. |
| `WeightTable.ResetMakesFirstDominant` | com.unity.cinemachine/Runtime/Behaviours/DynamicCinemachineMixingCamera.cs:61-66 | After the reset pass row 0 has weight 1 and every other row weight 0. Cameras and length stay, and the result needs no validation. |
| `Decimal.IntToDecimal` | com.unity.cinemachine/Runtime/Behaviours/DynamicCinemachineMixingCamera.cs:93 | The text StringBuilder.Append(int) writes is canonical decimal: an optional '-' exactly for a negative integer, then digits with no leading zero, never "-0". |
| `Decimal.LeadingDigitPositive` | com.unity.cinemachine/Runtime/Behaviours/DynamicCinemachineMixingCamera.cs:93 | Digits whose first digit is not '0' have a value of at least 1. |
| `Decimal.CanonicalDigitsUnique` | com.unity.cinemachine/Runtime/Behaviours/DynamicCinemachineMixingCamera.cs:93 | Canonical digits are exactly the digits written for their value. |
| `Decimal.CanonicalDecimalUnique` | com.unity.cinemachine/Runtime/Behaviours/DynamicCinemachineMixingCamera.cs:93 | Canonical decimal text is exactly the text written for the integer it reads back as, so "canonical and reads back as n" determines the text. |
| `Decimal.NatToDecimalValue` | com.unity.cinemachine/Runtime/Behaviours/DynamicCinemachineMixingCamera.cs:93 | The decimal digits written for a natural number read back as that number. |
| `Decimal.IntToDecimalRoundTrip` | com.unity.cinemachine/Runtime/Behaviours/DynamicCinemachineMixingCamera.cs:93 | The text StringBuilder.Append(int) writes, with its optional '-', reads back as the integer. |
| `Blend.Fold` | com.unity.cinemachine/Runtime/Behaviours/DynamicCinemachineMixingCamera.cs:289-312 | The loop variables after the first n children; the running total weight is never negative. |
| `Blend.FoldTotals` | com.unity.cinemachine/Runtime/Behaviours/DynamicCinemachineMixingCamera.cs:289-312 | The blend's results when zero, some or all children qualify (see the list after this table). |
| `Blend.FoldDominant` | com.unity.cinemachine/Runtime/Behaviours/DynamicCinemachineMixingCamera.cs:305-309 | When something qualifies, liveChild is the child at the first cache index whose weight equals the maximum. Every earlier qualifying weight is strictly smaller, so ties go to the earlier entry. |
| `Blend.StepDominant` | com.unity.cinemachine/Runtime/Behaviours/DynamicCinemachineMixingCamera.cs:305-309 | One pass of the loop body moves highestWeight and liveChild exactly when the child qualifies with a weight above the highest so far. Otherwise both stay. |
| `Blend.FoldIgnoresStart` | com.unity.cinemachine/Runtime/Behaviours/DynamicCinemachineMixingCamera.cs:287-312 | The totals and the dominant child do not depend on the previous tick's state. The blended state does not either, once some child qualifies. |
| `Blend.FoldRepeat` | com.unity.cinemachine/Runtime/Behaviours/DynamicCinemachineMixingCamera.cs:287-313 | Blending the same children against the same table again, from the state the first blend left, gives the same totals, dominant child and state. |
| `Blend.FoldPercent` | com.unity.cinemachine/Runtime/Behaviours/DynamicCinemachineMixingCamera.cs:313 | m_LiveChildPercent lies in [0, 100], and is 0 when nothing qualifies. |
| `Blend.PercentRange` | com.unity.cinemachine/Runtime/Behaviours/DynamicCinemachineMixingCamera.cs:313 | highest * 100 / total, or 0 when total <= 0.001, lies in [0, 100] whenever 0 <= highest <= total. |
| `Blend.FoldSingle` | com.unity.cinemachine/Runtime/Behaviours/DynamicCinemachineMixingCamera.cs:299-313 | With exactly one qualifying child, the state is that child's State and it is the live child. Total and highest are its weight, and the percentage is 100, or 0 when that weight is at most 0.001. |
| `Blend.FoldTotalPositive` | com.unity.cinemachine/Runtime/Behaviours/DynamicCinemachineMixingCamera.cs:294-299 | The total weight is positive exactly when some child qualifies. |
| `Blend.WeightedStep` | com.unity.cinemachine/Runtime/Behaviours/DynamicCinemachineMixingCamera.cs:299-303 | For numeric states with Lerp(a, b, x) = a + (b - a) x: moving the state towards x by w / (total + w) keeps "state times total" equal to the running weighted sum. |
| `Blend.StepWeightedSum` | com.unity.cinemachine/Runtime/Behaviours/DynamicCinemachineMixingCamera.cs:293-311 | For numeric states, one pass of the loop body adds weight times state to "state times total" when the child qualifies. Otherwise it adds nothing. |
| `Blend.FoldWeightedSum` | com.unity.cinemachine/Runtime/Behaviours/DynamicCinemachineMixingCamera.cs:291-312 | For numeric states, after the loop the state times the total weight is the sum of weight times state over the qualifying children. |
| `Blend.FoldWeightedAverage` | com.unity.cinemachine/Runtime/Behaviours/DynamicCinemachineMixingCamera.cs:299-303 | For numeric states with something qualifying, the blended state is the weighted average of the qualifying children's states, sum of w_i x_i divided by the sum of w_i. |
| `Blend.TwoCameraTick` | com.unity.cinemachine/Runtime/Behaviours/DynamicCinemachineMixingCamera.cs:287-313 | For the table [(A, 1), (B, 3)] with both active: cache [B, A], total 4, highest 3, live child A at 75%, state Lerp(State(B), State(A), 3/4). |
| `MixingCamera.DynamicMixingCamera.constructor` | com.unity.cinemachine/Runtime/Behaviours/DynamicCinemachineMixingCamera.cs:38-44 | A new component has an empty table, no cache, the cache marked disposed, and the default camera state. |
| `MixingCamera.DynamicMixingCamera.GetWeight` | com.unity.cinemachine/Runtime/Behaviours/DynamicCinemachineMixingCamera.cs:106-115 | Row index's weight in range, 0 past the end. |
| `MixingCamera.DynamicMixingCamera.SetWeight` | com.unity.cinemachine/Runtime/Behaviours/DynamicCinemachineMixingCamera.cs:121-131 | Only row index's weight changes, to `w`, unclamped. Cameras, length and every other row stay, past the end nothing changes, and the cache invariant is kept. |
| `MixingCamera.DynamicMixingCamera.OnValidate` | com.unity.cinemachine/Runtime/Behaviours/DynamicCinemachineMixingCamera.cs:54-58 | The table becomes its validated form: every weight max(0, old weight). |
| `MixingCamera.DynamicMixingCamera.Reset` | com.unity.cinemachine/Runtime/Behaviours/DynamicCinemachineMixingCamera.cs:61-66 | The table becomes its reset form: weight 1 at row 0, 0 elsewhere. |
| `MixingCamera.DynamicMixingCamera.UpdateCameraList` | com.unity.cinemachine/Runtime/Behaviours/DynamicCinemachineMixingCamera.cs:235-248 | Although List.Remove may drop an equal row before the current index, the table ends as exactly its live rows in order. A present cache ends as their cameras, last row first; an absent cache stays absent. |
| `MixingCamera.DynamicMixingCamera.UpdateCameraCache` | com.unity.cinemachine/Runtime/Behaviours/DynamicCinemachineMixingCamera.cs:182-212 | The cache guard and the effects of a rebuild (see the list after this table). |
| `MixingCamera.DynamicMixingCamera.InvalidateCameraCache` | com.unity.cinemachine/Runtime/Behaviours/DynamicCinemachineMixingCamera.cs:249-254 | A present cache is emptied and an absent one stays absent. The cache is marked disposed and PreviousStateIsValid is false. |
| `MixingCamera.DynamicMixingCamera.GetWeightOf` | com.unity.cinemachine/Runtime/Behaviours/DynamicCinemachineMixingCamera.cs:136-143 | After the cache refresh, the result is the weight of the first row holding the camera, or 0 when none does. |
| `MixingCamera.DynamicMixingCamera.SetWeightOf` | com.unity.cinemachine/Runtime/Behaviours/DynamicCinemachineMixingCamera.cs:148-157 | After the cache refresh, only the first row holding the camera gets the new weight. With no such row the refreshed table stays. |
| `MixingCamera.DynamicMixingCamera.AddCameraWeightPair` | com.unity.cinemachine/Runtime/Behaviours/DynamicCinemachineMixingCamera.cs:256-260 | The pair is appended at the end. The cache is cleared and disposed, and PreviousStateIsValid is false. |
| `MixingCamera.DynamicMixingCamera.RemoveCameraWeightPair` | com.unity.cinemachine/Runtime/Behaviours/DynamicCinemachineMixingCamera.cs:261-265 | The first equal row is cut out, or nothing when the pair is absent. The cache is cleared and disposed, and PreviousStateIsValid is false. |
| `MixingCamera.DynamicMixingCamera.RemoveCamera` | com.unity.cinemachine/Runtime/Behaviours/DynamicCinemachineMixingCamera.cs:266-270 | The first row holding the camera is cut out. Otherwise the first default (no camera, 0) row is removed, if any. The cache is cleared and disposed, and PreviousStateIsValid is false. |
| `MixingCamera.DynamicMixingCamera.InternalUpdateCameraState` | com.unity.cinemachine/Runtime/Behaviours/DynamicCinemachineMixingCamera.cs:283-317 | The cache refresh, then the tick's results (see the list after this table). |
| `MixingCamera.DynamicMixingCamera.RepeatedTick` | com.unity.cinemachine/Runtime/Behaviours/DynamicCinemachineMixingCamera.cs:283-317 | Two InternalUpdateCameraState calls in a row from a valid state: the second skips the refresh under the cache guard and gives the same m_CameraState, LiveChild and m_LiveChildPercent as the first. |
| `MixingCamera.DynamicMixingCamera.BlendChildren` | com.unity.cinemachine/Runtime/Behaviours/DynamicCinemachineMixingCamera.cs:287-312 | The loop's totals, dominant child and new m_CameraState are exactly the fold of the blend over the given children, against the current table, from the previous state. |
| `MixingCamera.DynamicMixingCamera.IsChild` | com.unity.cinemachine/Runtime/Behaviours/DynamicCinemachineMixingCamera.cs:171-178 | True exactly when some row holds the camera. |
| `MixingCamera.DynamicMixingCamera.IsLiveChild` | com.unity.cinemachine/Runtime/Behaviours/DynamicCinemachineMixingCamera.cs:160-169 | With dominantChildOnly, whether the camera is LiveChild. Otherwise, whether the first row holding the camera has weight > Epsilon and an active camera. |
| `MixingCamera.DynamicMixingCamera.Description` | com.unity.cinemachine/Runtime/Behaviours/DynamicCinemachineMixingCamera.cs:82-100 | "[(none)]" exactly when there is no live child. Otherwise it is '[', the child's name, a space, canonical decimal text (no leading zero, no "-0") that reads back as the rounded percentage, and "%]". By `Decimal.CanonicalDecimalUnique` that text is the one Append(int) writes. |

The three rows that say "see the list" state the following.

`Blend.FoldTotals`:

- the total is the sum of the qualifying weights;
- 0 <= highest <= total;
- every qualifying weight is at most the highest;
- the highest is 0 exactly when nothing qualifies;
- liveChild is null exactly when nothing qualifies;
- with nothing qualifying, the state is the previous tick's.

`MixingCamera.DynamicMixingCamera.UpdateCameraCache`:

- Under the guard (cache not disposed and present, or an update in progress),
  nothing changes and the result is false.
- Otherwise the table is pruned to its live rows.
- The cache is present exactly when the held reference or one of the two
  fetches gave a list. A present cache is the pruned table's cameras, last row
  first.
- After a rebuild: not disposed, not updating, and PreviousStateIsValid is false.
- The result is true exactly when a cache reference was already held.
- After a rebuild that left a cache, the guard holds, so a second call changes
  nothing.

`MixingCamera.DynamicMixingCamera.InternalUpdateCameraState`:

- The cache is refreshed as UpdateCameraCache does.
- The blend loop is the method `BlendChildren`.
- m_CameraState, LiveChild and m_LiveChildPercent are the fold of the blend over
  the cached children, against the current table: the `Blend` lemmas apply to
  them.
- PreviousStateIsValid is true.
- From a valid state, the result is valid with the cache not disposed, so the
  cache guard holds for the next call. The children blended are the table's
  cameras in reverse order.

## Left out

- `Start`, `base.UpdateCameraCache()` and the `ChildCameras` property (lines 68-76, 195-199) belong to the framework. The model takes what `ChildCameras` yields as the inputs `first` and `second`. That the cache list is the base class's own list (aliasing) is not modelled.
- Re-entry into `UpdateCameraCache` through the framework's `ChildCameras` getter is not modelled. Only the `_updatingCache` guard itself is.
- `SetLiveChild` is the assignment of `LiveChild`. `Start`, `OnTransitionFromCamera` (lines 273-279), `ChooseCurrentCamera` (line 320), the `State` property and `base.Reset()` are engine callbacks or accessors and have no member.
- `InvokePostPipelineStageCallback` (line 315) receives `m_CameraState` by `ref`. The model assumes it leaves the state unchanged, so `InternalUpdateCameraState`'s `cameraState == r.state` and `RepeatedTick` hold only for callbacks that do not change the state.
- `Cameras.Active` does not imply `Alive`: the enabled and destroyed sets are independent inputs. `isActiveAndEnabled` on a destroyed camera (lines 167 and 294) raises in Unity. The model answers by the enabled set alone there, in `IsLiveChild` and in a blend over a cache that was not rebuilt.
- `CameraState` is a type parameter, and `CameraState.Lerp` and each camera's `State` are inputs. The weighted-average lemmas assume numeric states with an affine Lerp.
- Weights are exact reals. Single-precision rounding, overflow and `float ==` are not modelled.
- `Mathf.RoundToInt` and a camera's `Name` are inputs to `Description`. The decimal text assumes the invariant culture's digits and minus sign.
- Unity's overloaded null and destroyed-object equality are reduced to the `destroyed` id set, with camera comparison by identity.
- `Debug.LogError` calls are no-ops. `GetHashCode` and the serialization attributes are not modelled.
- A negative index throws in C#. Indices are `nat` here.
- `InternalUpdateCameraState` dereferences a null cache reference. A present cache after the refresh is its precondition.
- `MixingCamera.DynamicMixingCamera.IsLiveChild`: a first matching row with a null camera and weight above Epsilon makes the source throw. The model answers false there, because a null camera is never active.
- `MixingCamera.DynamicMixingCamera.InternalUpdateCameraState`: a null entry in a cache that was not rebuilt would make the source throw. The model skips it as an inactive child; a rebuilt cache has no null entry.
- The effects of declaring `InvalidateCameraCache` with `new` (hiding, not overriding, the base-class method) are not modelled.
- `UnityVectorExtensions` is not part of this model. `Epsilon` is taken as 0.0001. The proofs use only that it is positive, except `Blend.TwoCameraTick`, which uses that it is below 1 (0.0001 is).
- `PreviousStateIsValid` and `LiveChild` start as false and null; the base class that declares them is not part of this model.
