/** The weight table of the mixing camera: an ordered list of (camera, weight)
    rows, and the pure operations the class performs on it. */
module WeightTable {
  import opened Cameras

  /** One row of the table (CameraWeightPair). Two rows are equal when they hold
      the same camera reference and the same weight, as the pair's Equals says. */
  datatype Pair = Pair(camera: Cam, weight: real)

  /** default(CameraWeightPair): no camera, weight 0 */
  const DefaultPair: Pair := Pair(NoCamera, 0.0)

  /** GetWeight(index): the weight of row `index`, or 0 when the index is past
      the end (the source logs an error there). */
  function WeightAt(t: seq<Pair>, index: nat): real
  {
    if index < |t| then t[index].weight else 0.0
  }

  /** SetWeight(index, w): row `index` keeps its camera and gets weight `w`, not
      clamped; past the end nothing changes. */
  function WithWeight(t: seq<Pair>, index: nat, w: real): seq<Pair>
  {
    if index < |t| then t[index := Pair(t[index].camera, w)] else t
  }

  /** Two tables of the same length whose rows hold the same cameras, row by row */
  predicate SameCameras(a: seq<Pair>, b: seq<Pair>)
  {
    |a| == |b| && forall i :: 0 <= i < |a| ==> a[i].camera == b[i].camera
  }

  /** Reading back after SetWeight: the row written reads `w`, every other index
      reads what it read before, and no camera moves. */
  lemma SetThenGet(t: seq<Pair>, index: nat, w: real, j: nat)
    ensures SameCameras(WithWeight(t, index, w), t)
    ensures WeightAt(WithWeight(t, index, w), j) ==
              if j == index && index < |t| then w else WeightAt(t, j)
    ensures index >= |t| ==> WithWeight(t, index, w) == t
  {
  }

  /** FindIndex(pair => pair.Camera == c): the first row holding camera `c`, or -1 */
  function FindCamera(t: seq<Pair>, c: Cam): (k: int)
    ensures -1 <= k < |t|
    ensures k >= 0 ==> t[k].camera == c && forall j :: 0 <= j < k ==> t[j].camera != c
    ensures k < 0 <==> forall j :: 0 <= j < |t| ==> t[j].camera != c
  {
    if t == [] then -1
    else if t[0].camera == c then 0
    else
      var k := FindCamera(t[1..], c);
      assert forall j :: 1 <= j < |t| ==> t[j] == t[1..][j - 1];
      if k < 0 then -1 else k + 1
  }

  /** IndexOf(p): the first row equal to `p` (same camera, same weight), or -1 */
  function FindPair(t: seq<Pair>, p: Pair): (k: int)
    ensures -1 <= k < |t|
    ensures k >= 0 ==> t[k] == p && forall j :: 0 <= j < k ==> t[j] != p
    ensures k < 0 <==> p !in t
  {
    if t == [] then -1
    else if t[0] == p then 0
    else
      var k := FindPair(t[1..], p);
      assert forall j :: 1 <= j < |t| ==> t[j] == t[1..][j - 1];
      assert p in t ==> p in t[1..];
      if k < 0 then -1 else k + 1
  }

  /** List.Remove(p): the row at IndexOf(p) is dropped; with none, nothing changes. */
  function RemoveFirst(t: seq<Pair>, p: Pair): (r: seq<Pair>)
    ensures p !in t ==> r == t
    ensures p in t ==> |r| == |t| - 1
  {
    var k := FindPair(t, p);
    if k < 0 then t else t[..k] + t[k + 1..]
  }

  /** RemoveFirst drops exactly the row at the first index holding `p`. */
  lemma RemoveFirstAt(t: seq<Pair>, p: Pair, k: nat)
    requires k < |t| && t[k] == p
    requires forall j :: 0 <= j < k ==> t[j] != p
    ensures RemoveFirst(t, p) == t[..k] + t[k + 1..]
  {
  }

  /** When `p` occurs, RemoveFirst cuts out its first occurrence and nothing
      else: one copy of `p` is gone. */
  lemma RemoveFirstSplits(t: seq<Pair>, p: Pair)
    requires p in t
    ensures exists k :: 0 <= k < |t| && t[k] == p && (forall j :: 0 <= j < k ==> t[j] != p)
                        && RemoveFirst(t, p) == t[..k] + t[k + 1..]
    ensures multiset(RemoveFirst(t, p)) == multiset(t) - multiset{p}
  {
    var k := FindPair(t, p);
    assert t == t[..k] + [p] + t[k + 1..];
    assert multiset(t) == multiset(t[..k]) + multiset{p} + multiset(t[k + 1..]);
  }

  /** Removing a row found in the front part of a table leaves the back part alone. */
  lemma RemoveFirstAppend(a: seq<Pair>, b: seq<Pair>, p: Pair)
    requires p in a
    ensures RemoveFirst(a + b, p) == RemoveFirst(a, p) + b
  {
    var k := FindPair(a, p);
    assert forall j :: 0 <= j <= k ==> (a + b)[j] == a[j];
    RemoveFirstAt(a + b, p, k);
    assert (a + b)[..k] == a[..k];
    assert (a + b)[k + 1..] == a[k + 1..] + b;
  }

  /** The row RemoveCamera(c) asks List.Remove to drop: the first row holding `c`
      (Where(...).FirstOrDefault()), or the default pair when none does. */
  function CameraTarget(t: seq<Pair>, c: Cam): Pair
  {
    var k := FindCamera(t, c);
    if k >= 0 then t[k] else DefaultPair
  }

  /** RemoveCamera(c) drops the first row holding `c`; when no row holds it, it
      drops the first default (no camera, weight 0) row, if there is one. */
  lemma RemoveCameraDrops(t: seq<Pair>, c: Cam)
    ensures var k := FindCamera(t, c);
      && (k >= 0 ==> RemoveFirst(t, CameraTarget(t, c)) == t[..k] + t[k + 1..])
      && (k < 0 ==> RemoveFirst(t, CameraTarget(t, c)) == RemoveFirst(t, DefaultPair))
  {
    var k := FindCamera(t, c);
    if k >= 0 {
      assert forall j :: 0 <= j < k ==> t[j] != t[k] by {
        assert forall j :: 0 <= j < k ==> t[j].camera != c;
      }
      RemoveFirstAt(t, t[k], k);
    }
  }

  /** The rows whose camera is still alive, in table order */
  function Survivors(t: seq<Pair>, destroyed: set<nat>): (r: seq<Pair>)
    ensures |r| <= |t|
    ensures forall i :: 0 <= i < |r| ==> Alive(destroyed, r[i].camera)
  {
    if t == [] then []
    else if Alive(destroyed, t[0].camera) then [t[0]] + Survivors(t[1..], destroyed)
    else Survivors(t[1..], destroyed)
  }

  /** Where the survivors sit in the table: the indices of the live rows, in
      increasing order. So pruning keeps every live row, drops every dead one
      and keeps the live rows in their relative order. */
  function LiveIndices(t: seq<Pair>, destroyed: set<nat>): (f: seq<nat>)
    ensures |f| == |Survivors(t, destroyed)|
    ensures forall i :: 0 <= i < |f| ==> f[i] < |t| && Survivors(t, destroyed)[i] == t[f[i]]
    ensures forall i, j :: 0 <= i < j < |f| ==> f[i] < f[j]
  {
    if t == [] then []
    else
      var rest := Shift(LiveIndices(t[1..], destroyed));
      if Alive(destroyed, t[0].camera) then [0] + rest else rest
  }

  /** Every index of `s` one higher */
  function Shift(s: seq<nat>): (r: seq<nat>)
    ensures |r| == |s| && forall i :: 0 <= i < |s| ==> r[i] == s[i] + 1
  {
    seq(|s|, i requires 0 <= i < |s| => s[i] + 1)
  }

  lemma ShiftMember(s: seq<nat>, k: nat)
    ensures k + 1 in Shift(s) <==> k in s
    ensures 0 !in Shift(s)
  {
    var r := Shift(s);
    if k in s {
      var i :| 0 <= i < |s| && s[i] == k;
      assert r[i] == k + 1;
    }
    if k + 1 in r {
      var i :| 0 <= i < |r| && r[i] == k + 1;
      assert s[i] == k;
    }
  }

  /** Every live row, and no dead one, has its index among the survivors'. */
  lemma {:induction false} LiveIndicesCover(t: seq<Pair>, destroyed: set<nat>, k: nat)
    requires k < |t|
    ensures k in LiveIndices(t, destroyed) <==> Alive(destroyed, t[k].camera)
  {
    var rest := LiveIndices(t[1..], destroyed);
    ShiftMember(rest, if k > 0 then k - 1 else 0);
    if k > 0 {
      LiveIndicesCover(t[1..], destroyed, k - 1);
      assert t[1..][k - 1] == t[k];
    }
  }

  /** Pruning a table in two parts keeps the parts in their order. */
  lemma {:induction false} SurvivorsAppend(a: seq<Pair>, b: seq<Pair>, destroyed: set<nat>)
    ensures Survivors(a + b, destroyed) == Survivors(a, destroyed) + Survivors(b, destroyed)
  {
    if a == [] {
      assert a + b == b;
    } else {
      assert (a + b)[0] == a[0];
      assert (a + b)[1..] == a[1..] + b;
      SurvivorsAppend(a[1..], b, destroyed);
    }
  }

  /** Removing a row whose camera is dead does not change what survives. */
  lemma SurvivorsRemoveDead(t: seq<Pair>, p: Pair, destroyed: set<nat>)
    requires !Alive(destroyed, p.camera)
    ensures Survivors(RemoveFirst(t, p), destroyed) == Survivors(t, destroyed)
  {
    var k := FindPair(t, p);
    if k >= 0 {
      var front, back := t[..k], t[k + 1..];
      assert t == front + ([p] + back);
      assert ([p] + back)[1..] == back;
      SurvivorsAppend(front, [p] + back, destroyed);
      SurvivorsAppend(front, back, destroyed);
    }
  }

  /** One pass of the rebuild loop over a dead row at index i: the pruned front
      part and the untouched back part are what they were. */
  lemma PruneDeadRow(t: seq<Pair>, i: nat, destroyed: set<nat>)
    requires i < |t| && !Alive(destroyed, t[i].camera)
    ensures var r := RemoveFirst(t, t[i]);
      && |r| == |t| - 1
      && Survivors(r[..i], destroyed) == Survivors(t[..i + 1], destroyed)
      && r[i..] == t[i + 1..]
  {
    var front, back := t[..i + 1], t[i + 1..];
    assert t == front + back;
    assert t[i] in front by { assert front[i] == t[i]; }
    RemoveFirstAppend(front, back, t[i]);
    SurvivorsRemoveDead(front, t[i], destroyed);
    var r := RemoveFirst(t, t[i]);
    assert r[..i] == RemoveFirst(front, t[i]);
  }

  /** One pass of the rebuild loop over a live row at index i: the row moves from
      the part still to scan to the part scanned, and its camera goes after the
      cameras of the rows already scanned. */
  lemma KeepLiveRow(t: seq<Pair>, i: nat, destroyed: set<nat>)
    requires i < |t| && Alive(destroyed, t[i].camera)
    ensures Survivors(t[..i], destroyed) + t[i..] == Survivors(t[..i + 1], destroyed) + t[i + 1..]
    ensures CacheOf(t[i..]) == CacheOf(t[i + 1..]) + [t[i].camera]
  {
    assert t[..i + 1] == t[..i] + [t[i]];
    assert t[i..] == [t[i]] + t[i + 1..];
    SurvivorsAppend(t[..i], [t[i]], destroyed);
    CacheOfConcat([t[i]], t[i + 1..]);
    assert CacheOf([t[i]]) == [t[i].camera];
  }

  /** Pruning keeps every copy of a row whose camera is alive and no copy of a
      row whose camera is dead. */
  lemma {:induction false} SurvivorsCount(t: seq<Pair>, p: Pair, destroyed: set<nat>)
    ensures multiset(Survivors(t, destroyed))[p] ==
              if Alive(destroyed, p.camera) then multiset(t)[p] else 0
  {
    if t != [] {
      SurvivorsCount(t[1..], p, destroyed);
      assert t == [t[0]] + t[1..];
    }
  }

  /** A table whose cameras are all alive is not pruned at all. */
  lemma {:induction false} SurvivorsOfLiveTable(t: seq<Pair>, destroyed: set<nat>)
    requires forall i :: 0 <= i < |t| ==> Alive(destroyed, t[i].camera)
    ensures Survivors(t, destroyed) == t
  {
    if t != [] {
      SurvivorsOfLiveTable(t[1..], destroyed);
      assert t == [t[0]] + t[1..];
    }
  }

  /** The child cache a rebuild leaves: the table's cameras, last row first */
  function CacheOf(t: seq<Pair>): seq<Cam>
  {
    seq(|t|, i requires 0 <= i < |t| => t[|t| - 1 - i].camera)
  }

  /** The cache reverses the table: the cameras of a back part come before those
      of a front part, and its length is the table's. */
  lemma CacheOfConcat(a: seq<Pair>, b: seq<Pair>)
    ensures |CacheOf(a)| == |a|
    ensures CacheOf(a + b) == CacheOf(b) + CacheOf(a)
  {
    var l, r := CacheOf(a + b), CacheOf(b) + CacheOf(a);
    assert |l| == |r|;
    forall i | 0 <= i < |l| ensures l[i] == r[i] {
      if i < |b| {
        assert (a + b)[|a| + |b| - 1 - i] == b[|b| - 1 - i];
      } else {
        assert (a + b)[|a| + |b| - 1 - i] == a[|a| - 1 - (i - |b|)];
      }
    }
  }

  /** The cache depends on the cameras only, not on the weights. */
  lemma CacheOfSameCameras(a: seq<Pair>, b: seq<Pair>)
    requires SameCameras(a, b)
    ensures CacheOf(a) == CacheOf(b)
  {
  }

  /** OnValidate: every weight becomes max(0, weight), cameras stay. */
  function Validated(t: seq<Pair>): seq<Pair>
  {
    seq(|t|, i requires 0 <= i < |t| => Pair(t[i].camera, Max0(t[i].weight)))
  }

  /** After validation no weight is negative, non-negative weights are kept, and
      validating again changes nothing. */
  lemma ValidatedClamps(t: seq<Pair>)
    ensures SameCameras(Validated(t), t)
    ensures forall i :: 0 <= i < |t| ==>
      Validated(t)[i].weight >= 0.0 &&
      (t[i].weight >= 0.0 ==> Validated(t)[i].weight == t[i].weight) &&
      (t[i].weight < 0.0 ==> Validated(t)[i].weight == 0.0)
    ensures Validated(Validated(t)) == Validated(t)
  {
  }

  /** The loop of Reset: row 0 gets weight 1 and every other row weight 0. */
  function ResetWeights(t: seq<Pair>): seq<Pair>
  {
    seq(|t|, i requires 0 <= i < |t| => Pair(t[i].camera, if i == 0 then 1.0 else 0.0))
  }

  /** Reset makes the first camera fully dominant, keeps every camera in place, and
      leaves nothing for validation to change. */
  lemma ResetMakesFirstDominant(t: seq<Pair>)
    ensures SameCameras(ResetWeights(t), t)
    ensures |t| > 0 ==> WeightAt(ResetWeights(t), 0) == 1.0
    ensures forall i :: 0 < i < |t| ==> ResetWeights(t)[i].weight == 0.0
    ensures Validated(ResetWeights(t)) == ResetWeights(t)
  {
  }
}
