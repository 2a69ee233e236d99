/** DynamicCinemachineMixingCamera: a camera manager that blends its children by
    the weights in its camera-weight table, with a lazily rebuilt child cache. */
module MixingCamera {
  import opened Wrappers
  import opened Cameras
  import opened WeightTable
  import opened Blend
  import opened Decimal

  /** The table left by UpdateCameraCache: untouched when the guard returns at
      once, otherwise pruned by UpdateCameraList. */
  function RefreshedPairs(t: seq<Pair>, skipped: bool, destroyed: set<nat>): seq<Pair>
  {
    if skipped then t else Survivors(t, destroyed)
  }

  /** The cache reference a rebuild starts from: the one held, else the base
      class's ChildCameras (`first`), else ChildCameras after base.UpdateCameraCache
      (`second`). */
  function Fetched(cache: Option<seq<Cam>>, first: Option<seq<Cam>>, second: Option<seq<Cam>>): Option<seq<Cam>>
  {
    if cache.Some? then cache else if first.Some? then first else second
  }

  /** The text of Description for a live child called `n` at `percent`, rounded by `round` */
  function LiveText(n: string, percent: real, round: real -> int): string
  {
    "[" + n + " " + IntToDecimal(round(percent)) + "%]"
  }

  class DynamicMixingCamera<S> {
    /** CameraWeightPairs */
    var pairs: seq<Pair>
    /** _childCamerasDisposed */
    var disposed: bool
    /** _childCamerasReference; None is the null reference */
    var cache: Option<seq<Cam>>
    /** _updatingCache */
    var updating: bool
    /** PreviousStateIsValid */
    var previousStateIsValid: bool
    /** m_CameraState */
    var cameraState: S
    /** m_LiveChildPercent */
    var liveChildPercent: real
    /** LiveChild, as SetLiveChild leaves it; NoCamera is null */
    var liveChild: Cam

    /** Between calls no rebuild is in progress, and a cache that is not disposed
        holds the table's cameras, last row first. */
    ghost predicate Valid()
      reads this
    {
      !updating && (!disposed && cache.Some? ==> cache.value == CacheOf(pairs))
    }

    /** The guard of UpdateCameraCache: it returns at once when this holds. */
    predicate Skips()
      reads this
    {
      (!disposed && cache.Some?) || updating
    }

    /** A new component: empty table, no cache, disposed. `initial` stands for
        CameraState.Default. */
    constructor (initial: S)
      ensures Valid()
      ensures pairs == [] && disposed && cache == None && !updating && !previousStateIsValid
      ensures cameraState == initial && liveChildPercent == 0.0 && liveChild == NoCamera
    {
      pairs := [];
      disposed := true;
      cache := None;
      updating := false;
      previousStateIsValid := false;
      cameraState := initial;
      liveChildPercent := 0.0;
      liveChild := NoCamera;
    }

    /** GetWeight(index): the weight of row `index`, 0 past the end */
    function GetWeight(index: nat): (r: real)
      reads this
      ensures index < |pairs| ==> r == pairs[index].weight
      ensures index >= |pairs| ==> r == 0.0
    {
      WeightAt(pairs, index)
    }

    /** SetWeight(index, w): row `index` gets weight `w` as given; every other row,
        the cameras and the length stay. Past the end nothing changes. */
    method SetWeight(index: nat, w: real)
      modifies this`pairs
      ensures pairs == WithWeight(old(pairs), index, w)
      ensures |pairs| == |old(pairs)|
      ensures forall j :: 0 <= j < |pairs| ==>
        pairs[j].camera == old(pairs)[j].camera &&
        pairs[j].weight == if j == index then w else old(pairs)[j].weight
      ensures old(Valid()) ==> Valid()
    {
      SetThenGet(pairs, index, w, index);
      CacheOfSameCameras(WithWeight(pairs, index, w), pairs);
      if index < |pairs| {
        pairs := pairs[index := Pair(pairs[index].camera, w)];
      }
    }

    /** OnValidate: every weight becomes max(0, weight). */
    method OnValidate()
      modifies this`pairs
      ensures pairs == Validated(old(pairs))
      ensures old(Valid()) ==> Valid()
    {
      ghost var t := pairs;
      for i := 0 to |pairs|
        invariant |pairs| == |t|
        invariant forall j :: 0 <= j < |t| ==> pairs[j] == if j < i then Validated(t)[j] else t[j]
        invariant old(Valid()) ==> Valid()
      {
        SetWeight(i, Max0(GetWeight(i)));
      }
    }

    /** Reset (after base.Reset): row 0 gets weight 1, every other row weight 0. */
    method Reset()
      modifies this`pairs
      ensures pairs == ResetWeights(old(pairs))
      ensures old(Valid()) ==> Valid()
    {
      ghost var t := pairs;
      for i := 0 to |pairs|
        invariant |pairs| == |t|
        invariant forall j :: 0 <= j < |t| ==> pairs[j] == if j < i then ResetWeights(t)[j] else t[j]
        invariant old(Valid()) ==> Valid()
      {
        SetWeight(i, if i == 0 then 1.0 else 0.0);
      }
    }

    /** UpdateCameraList: clears the cache, then walks the table from the last row
        to the first; a row whose camera is dead is removed with List.Remove (the
        first row equal to it), a live one has its camera appended to the cache.
        The table ends as its live rows in order, and the cache as their cameras,
        last row first. */
    method UpdateCameraList(destroyed: set<nat>)
      modifies this`pairs, this`cache
      ensures pairs == Survivors(old(pairs), destroyed)
      ensures cache == if old(cache).Some? then Some(CacheOf(pairs)) else None
    {
      ghost var t := pairs;
      if cache.Some? {
        cache := Some([]);
      }
      var i: int := |pairs| - 1;
      assert pairs[..i + 1] == pairs && pairs[i + 1..] == [];
      assert CacheOf([]) == [];
      while i >= 0
        invariant -1 <= i < |pairs|
        invariant Survivors(pairs[..i + 1], destroyed) + pairs[i + 1..] == Survivors(t, destroyed)
        invariant forall j :: i < j < |pairs| ==> Alive(destroyed, pairs[j].camera)
        invariant cache == if old(cache).Some? then Some(CacheOf(pairs[i + 1..])) else None
        decreases i
      {
        var pair := pairs[i];
        if !Alive(destroyed, pair.camera) {
          PruneDeadRow(pairs, i, destroyed);
          pairs := RemoveFirst(pairs, pair);
          i := i - 1;
          continue;
        }
        KeepLiveRow(pairs, i, destroyed);
        if cache.Some? {
          cache := Some(cache.value + [pair.camera]);
        }
        i := i - 1;
      }
      assert pairs[..0] == [] && pairs[0..] == pairs;
      SurvivorsOfLiveTable(pairs, destroyed);
    }

    /** What UpdateCameraCache leaves in the cache and the flags, for the table
        `mid` it prunes the rows to. Under the guard nothing changes; otherwise the
        cache is present exactly when one of the fetches gave a list, and then it
        mirrors `mid`; the cache is no longer disposed and the blend's previous
        state is no longer valid. */
    twostate predicate CacheUpdated(destroyed: set<nat>, first: Option<seq<Cam>>, second: Option<seq<Cam>>)
      reads this
    {
      if old(Skips()) then
        cache == old(cache) && disposed == old(disposed) && updating == old(updating)
        && previousStateIsValid == old(previousStateIsValid)
      else
        && cache == (if Fetched(old(cache), first, second).Some?
                     then Some(CacheOf(Survivors(old(pairs), destroyed))) else None)
        && !disposed && !updating && !previousStateIsValid
    }

    /** UpdateCameraCache. `first` and `second` are what ChildCameras yields before
        and after base.UpdateCameraCache. It returns true exactly when it rebuilt
        a cache it already held. */
    method UpdateCameraCache(destroyed: set<nat>, first: Option<seq<Cam>>, second: Option<seq<Cam>>)
      returns (r: bool)
      modifies this`pairs, this`cache, this`disposed, this`updating, this`previousStateIsValid
      ensures CacheUpdated(destroyed, first, second)
      ensures pairs == RefreshedPairs(old(pairs), old(Skips()), destroyed)
      ensures r <==> !old(Skips()) && old(cache).Some?
      ensures !old(Skips()) && cache.Some? ==> Skips()
      ensures old(Valid()) ==> Valid() && !disposed
    {
      if Skips() {
        return false;
      }
      updating := true;
      disposed := false;
      previousStateIsValid := false;
      if cache.None? {
        cache := first;
        if cache.None? {
          cache := second;
        }
        UpdateCameraList(destroyed);
        updating := false;
        return false;
      }
      UpdateCameraList(destroyed);
      updating := false;
      return true;
    }

    /** InvalidateCameraCache: empties the cache list, if there is one, and marks it
        disposed; the blend's previous state is no longer valid. */
    method InvalidateCameraCache()
      modifies this`cache, this`disposed, this`previousStateIsValid
      ensures cache == if old(cache).Some? then Some([]) else None
      ensures disposed && !previousStateIsValid
      ensures old(Valid()) ==> Valid()
    {
      if cache.Some? {
        cache := Some([]);
      }
      disposed := true;
      previousStateIsValid := false;
    }

    /** GetWeight(vcam): refreshes the cache, then reads the first row holding
        `vcam`; 0 when none does. */
    method GetWeightOf(vcam: Cam, destroyed: set<nat>, first: Option<seq<Cam>>, second: Option<seq<Cam>>)
      returns (r: real)
      modifies this`pairs, this`cache, this`disposed, this`updating, this`previousStateIsValid
      ensures CacheUpdated(destroyed, first, second)
      ensures pairs == RefreshedPairs(old(pairs), old(Skips()), destroyed)
      ensures (exists k :: 0 <= k < |pairs| && pairs[k].camera == vcam
                 && (forall j :: 0 <= j < k ==> pairs[j].camera != vcam) && r == pairs[k].weight)
              || ((forall j :: 0 <= j < |pairs| ==> pairs[j].camera != vcam) && r == 0.0)
      ensures old(Valid()) ==> Valid()
    {
      var _ := UpdateCameraCache(destroyed, first, second);
      var index := FindCamera(pairs, vcam);
      if index >= 0 {
        r := GetWeight(index);
      } else {
        r := 0.0;
      }
    }

    /** SetWeight(vcam, w): refreshes the cache, then sets the weight of the first
        row holding `vcam`; when none does, the table stays as the refresh left it. */
    method SetWeightOf(vcam: Cam, w: real, destroyed: set<nat>, first: Option<seq<Cam>>, second: Option<seq<Cam>>)
      modifies this`pairs, this`cache, this`disposed, this`updating, this`previousStateIsValid
      ensures CacheUpdated(destroyed, first, second)
      ensures var mid := RefreshedPairs(old(pairs), old(Skips()), destroyed);
        var k := FindCamera(mid, vcam);
        pairs == if k >= 0 then WithWeight(mid, k, w) else mid
      ensures old(Valid()) ==> Valid()
    {
      var _ := UpdateCameraCache(destroyed, first, second);
      var index := FindCamera(pairs, vcam);
      if index >= 0 {
        SetWeight(index, w);
      }
    }

    /** AddCameraWeightPair: appends the row and invalidates the cache. */
    method AddCameraWeightPair(pair: Pair)
      modifies this`pairs, this`cache, this`disposed, this`previousStateIsValid
      ensures pairs == old(pairs) + [pair]
      ensures cache == if old(cache).Some? then Some([]) else None
      ensures disposed && !previousStateIsValid
      ensures old(Valid()) ==> Valid()
    {
      pairs := pairs + [pair];
      InvalidateCameraCache();
    }

    /** RemoveCameraWeightPair: removes the first row equal to `pair` (same camera,
        same weight), if any, and invalidates the cache. */
    method RemoveCameraWeightPair(pair: Pair)
      modifies this`pairs, this`cache, this`disposed, this`previousStateIsValid
      ensures pairs == RemoveFirst(old(pairs), pair)
      ensures pair !in old(pairs) ==> pairs == old(pairs)
      ensures pair in old(pairs) ==>
        exists k :: 0 <= k < |old(pairs)| && old(pairs)[k] == pair
          && (forall j :: 0 <= j < k ==> old(pairs)[j] != pair)
          && pairs == old(pairs)[..k] + old(pairs)[k + 1..]
      ensures cache == if old(cache).Some? then Some([]) else None
      ensures disposed && !previousStateIsValid
      ensures old(Valid()) ==> Valid()
    {
      if pair in pairs {
        RemoveFirstSplits(pairs, pair);
      }
      pairs := RemoveFirst(pairs, pair);
      InvalidateCameraCache();
    }

    /** RemoveCamera: removes the first row holding `camera`; when no row holds it,
        List.Remove is handed the default pair, so the first (no camera, 0) row
        goes, if there is one. The cache is invalidated either way. */
    method RemoveCamera(camera: Cam)
      modifies this`pairs, this`cache, this`disposed, this`previousStateIsValid
      ensures var k := FindCamera(old(pairs), camera);
        pairs == if k >= 0 then old(pairs)[..k] + old(pairs)[k + 1..]
                 else RemoveFirst(old(pairs), DefaultPair)
      ensures cache == if old(cache).Some? then Some([]) else None
      ensures disposed && !previousStateIsValid
      ensures old(Valid()) ==> Valid()
    {
      RemoveCameraDrops(pairs, camera);
      pairs := RemoveFirst(pairs, CameraTarget(pairs, camera));
      InvalidateCameraCache();
    }

    /** InternalUpdateCameraState: refreshes the cache, then blends the cached
        children in one pass, pairing child i with the weight of table row i, and
        records the dominant child and its percentage. The source dereferences the
        cache, so one must be present once the refresh is done. */
    method InternalUpdateCameraState(e: Engine<S>, destroyed: set<nat>, first: Option<seq<Cam>>, second: Option<seq<Cam>>)
      requires cache.Some? || (!updating && (first.Some? || second.Some?))
      modifies this`pairs, this`cache, this`disposed, this`updating, this`previousStateIsValid
      modifies this`cameraState, this`liveChildPercent, this`liveChild
      ensures old(Skips()) ==> cache == old(cache) && disposed == old(disposed) && updating == old(updating)
      ensures !old(Skips()) ==> !disposed && !updating
      ensures pairs == RefreshedPairs(old(pairs), old(Skips()), destroyed)
      ensures cache.Some?
      ensures var r := Fold(e, cache.value, pairs, |cache.value|, old(cameraState));
        && cameraState == r.state
        && liveChild == r.live
        && liveChildPercent == LivePercent(r.total, r.highest)
      ensures previousStateIsValid
      ensures old(Valid()) ==> Valid() && !disposed && cache.value == CacheOf(pairs)
    {
      var _ := UpdateCameraCache(destroyed, first, second);
      assert old(Skips()) ==> cache == old(cache) && disposed == old(disposed) && updating == old(updating);
      assert !old(Skips()) ==> !disposed && !updating;
      var children := cache.value;
      var totalWeight, highestWeight, live := BlendChildren(e, children);
      liveChildPercent := if totalWeight > 0.001 then highestWeight * 100.0 / totalWeight else 0.0;
      liveChild := live;
      previousStateIsValid := true;
    }

    /** Two ticks with nothing changed in between: the first leaves a valid
        state with the cache guard holding, so the second skips the refresh,
        blends the same children against the same table, and reproduces the
        state, live child and percentage of the first (the out-parameters). */
    method RepeatedTick(e: Engine<S>, destroyed: set<nat>, first: Option<seq<Cam>>, second: Option<seq<Cam>>)
      returns (state1: S, live1: Cam, percent1: real)
      requires Valid()
      requires cache.Some? || first.Some? || second.Some?
      modifies this`pairs, this`cache, this`disposed, this`updating, this`previousStateIsValid
      modifies this`cameraState, this`liveChildPercent, this`liveChild
      ensures cameraState == state1 && liveChild == live1 && liveChildPercent == percent1
      ensures Valid() && Skips()
    {
      InternalUpdateCameraState(e, destroyed, first, second);
      state1, live1, percent1 := cameraState, liveChild, liveChildPercent;
      ghost var children, t, s0 := cache.value, pairs, cameraState;
      ghost var before := Fold(e, children, t, |children|, old(cameraState));
      assert s0 == before.state;
      InternalUpdateCameraState(e, destroyed, first, second);
      assert cache.value == children && pairs == t;
      FoldRepeat(e, children, t, |children|, old(cameraState));
    }

    /** The blend loop of InternalUpdateCameraState: child i of `children` is
        paired with the weight of table row i; m_CameraState is blended in place
        and the totals and the dominant child are returned. */
    method BlendChildren(e: Engine<S>, children: seq<Cam>) returns (totalWeight: real, highestWeight: real, live: Cam)
      modifies this`cameraState
      ensures Fold(e, children, pairs, |children|, old(cameraState)) == Tally(totalWeight, highestWeight, live, cameraState)
    {
      live := NoCamera;
      highestWeight := 0.0;
      totalWeight := 0.0;
      ghost var s0 := cameraState;
      for i := 0 to |children|
        invariant Fold(e, children, pairs, i, s0) == Tally(totalWeight, highestWeight, live, cameraState)
      {
        var vcam := children[i];
        ghost var before := Tally(totalWeight, highestWeight, live, cameraState);
        if Active(e.enabled, vcam) {
          var weight := Max0(GetWeight(i));
          if weight > Epsilon {
            totalWeight := totalWeight + weight;
            if totalWeight == weight {
              cameraState := e.stateOf(vcam);
            } else {
              cameraState := e.lerp(cameraState, e.stateOf(vcam), weight / totalWeight);
            }
            if weight > highestWeight {
              highestWeight := weight;
              live := vcam;
            }
          }
        }
        assert Tally(totalWeight, highestWeight, live, cameraState) == Step(e, before, vcam, WeightAt(pairs, i));
      }
    }

    /** IsChild: some row holds `vcam`. */
    function IsChild(vcam: Cam): (r: bool)
      reads this
      ensures r <==> exists i :: 0 <= i < |pairs| && pairs[i].camera == vcam
    {
      FindCamera(pairs, vcam) >= 0
    }

    /** IsLiveChild: with dominantChildOnly, whether `vcam` is the live child;
        otherwise whether the first row holding `vcam` has a weight above Epsilon
        and an active camera. */
    function IsLiveChild(vcam: Cam, dominantChildOnly: bool, enabled: set<nat>): (r: bool)
      reads this
      ensures dominantChildOnly ==> (r <==> liveChild == vcam)
      ensures !dominantChildOnly ==>
        (r <==> exists k :: 0 <= k < |pairs| && pairs[k].camera == vcam
                  && (forall j :: 0 <= j < k ==> pairs[j].camera != vcam)
                  && pairs[k].weight > Epsilon && Active(enabled, vcam))
    {
      if dominantChildOnly then liveChild == vcam
      else
        var k := FindCamera(pairs, vcam);
        k >= 0 && GetWeight(k) > Epsilon && Active(enabled, pairs[k].camera)
    }

    /** Description: "[(none)]" exactly when there is no live child; otherwise
        '[', the child's name, a space, the rounded percentage in canonical
        decimal, "%]". By Decimal.CanonicalDecimalUnique the middle text is then
        determined. */
    function Description(name: Cam -> string, round: real -> int): (r: string)
      reads this
      ensures r == "[(none)]" <==> liveChild == NoCamera
      ensures liveChild != NoCamera ==>
        var n := name(liveChild);
        && |r| >= |n| + 5
        && r[0] == '[' && r[1..|n| + 1] == n && r[|n| + 1] == ' '
        && r[|r| - 2..] == "%]"
        && CanonicalDecimal(r[|n| + 2..|r| - 2])
        && ParseInt(r[|n| + 2..|r| - 2]) == round(liveChildPercent)
    {
      if liveChild == NoCamera then "[(none)]"
      else
        var n, d := name(liveChild), IntToDecimal(round(liveChildPercent));
        var text := LiveText(n, liveChildPercent, round);
        IntToDecimalRoundTrip(round(liveChildPercent));
        assert text[1..|n| + 1] == n && text[|n| + 2..|text| - 2] == d;
        assert text[|text| - 2] == '%';
        text
    }
  }
}
