/**
 * The pose library's data: pose markers (name, frame) and the thumbnail
 * records kept beside them, the first-match lookups by frame, and the
 * binder that creates or updates the record of one pose.
 */
module Records {
  import opened Wrappers
  import opened PoseNames

  datatype PoseMarker = PoseMarker(name: string, frame: int)

  /** One thumbnail record; `frame` is the key that ties it to its pose. */
  datatype Thumbnail = Thumbnail(name: string, index: int, frame: int, filepath: string)

  /** A record as the host adds it, before any field is set. */
  const NewThumbnail: Thumbnail := Thumbnail("", -1, -1, "")

  /** The pose markers and the thumbnail records of one pose library. */
  datatype Library = Library(markers: seq<PoseMarker>, info: seq<Thumbnail>)

  /** One pose (by position) to bind to one image path. */
  datatype Binding = Binding(pose: nat, image: string)

  function RecordFrames(info: seq<Thumbnail>): (r: seq<int>)
    ensures |r| == |info|
    ensures forall k :: 0 <= k < |r| ==> r[k] == info[k].frame
  {
    seq(|info|, k requires 0 <= k < |info| => info[k].frame)
  }

  function MarkerFrames(markers: seq<PoseMarker>): (r: seq<int>)
    ensures |r| == |markers|
    ensures forall k :: 0 <= k < |r| ==> r[k] == markers[k].frame
  {
    seq(|markers|, k requires 0 <= k < |markers| => markers[k].frame)
  }

  /** No frame occurs twice. */
  predicate UniqueFrames(frames: seq<int>) {
    forall i, j :: 0 <= i < j < |frames| ==> frames[i] != frames[j]
  }

  /** The position of the first occurrence of `frame`, or None. */
  function FirstIndexOf(frames: seq<int>, frame: int): (r: Option<nat>)
    ensures r.None? <==> frame !in frames
    ensures r.Some? ==> r.value < |frames| && frames[r.value] == frame
    ensures r.Some? ==> forall j :: 0 <= j < r.value ==> frames[j] != frame
  {
    if frames == [] then None
    else if frames[0] == frame then Some(0)
    else
      match FirstIndexOf(frames[1..], frame)
      case None => None
      case Some(k) => Some(k + 1)
  }

  /** `get_thumbnail_from_pose`: the position of the first record with the pose's frame. */
  method GetThumbnailFromPose(info: seq<Thumbnail>, pose: Option<PoseMarker>) returns (r: Option<nat>)
    ensures pose.None? ==> r.None?
    ensures pose.Some? ==> r == FirstIndexOf(RecordFrames(info), pose.value.frame)
  {
    if pose.None? {
      return None;
    }
    var i := 0;
    while i < |info|
      invariant 0 <= i <= |info|
      invariant forall j :: 0 <= j < i ==> info[j].frame != pose.value.frame
    {
      if info[i].frame == pose.value.frame {
        return Some(i);
      }
      i := i + 1;
    }
    return None;
  }

  /** `get_pose_from_thumbnail`: the first pose marker with the record's frame. */
  method GetPoseFromThumbnail(markers: seq<PoseMarker>, thumbnail: Option<Thumbnail>)
    returns (r: Option<PoseMarker>)
    ensures thumbnail.None? ==> r.None?
    ensures thumbnail.Some? ==>
      match FirstIndexOf(MarkerFrames(markers), thumbnail.value.frame)
      case None => r.None?
      case Some(k) => r == Some(markers[k])
  {
    if thumbnail.None? {
      return None;
    }
    var i := 0;
    while i < |markers|
      invariant 0 <= i <= |markers|
      invariant forall j :: 0 <= j < i ==> markers[j].frame != thumbnail.value.frame
    {
      if markers[i].frame == thumbnail.value.frame {
        return Some(markers[i]);
      }
      i := i + 1;
    }
    return None;
  }

  /** `get_thumbnail_index`: the position of the first pose marker with the record's frame. */
  method GetThumbnailIndex(markers: seq<PoseMarker>, thumbnail: Thumbnail) returns (r: Option<nat>)
    ensures r == FirstIndexOf(MarkerFrames(markers), thumbnail.frame)
  {
    var i := 0;
    while i < |markers|
      invariant 0 <= i <= |markers|
      invariant forall j :: 0 <= j < i ==> markers[j].frame != thumbnail.frame
    {
      if thumbnail.frame == markers[i].frame {
        return Some(i);
      }
      i := i + 1;
    }
    return None;
  }

  /** For each pose in order, the first record with its frame; poses without one are skipped. */
  function ThumbnailsInPoseOrder(markers: seq<PoseMarker>, info: seq<Thumbnail>): (r: seq<Thumbnail>)
    ensures |r| <= |markers|
    ensures forall k :: 0 <= k < |r| ==> r[k] in info
  {
    if markers == [] then []
    else
      var earlier := ThumbnailsInPoseOrder(markers[..|markers| - 1], info);
      match FirstIndexOf(RecordFrames(info), markers[|markers| - 1].frame)
      case None => earlier
      case Some(k) => earlier + [info[k]]
  }

  /**
   * When every pose has a record, the records come out one per pose, in
   * pose order, each the first record with that pose's frame.
   */
  lemma {:induction false} ThumbnailsInPoseOrderComplete(markers: seq<PoseMarker>, info: seq<Thumbnail>)
    requires forall m :: m in markers ==> m.frame in RecordFrames(info)
    ensures |ThumbnailsInPoseOrder(markers, info)| == |markers|
    ensures forall k :: 0 <= k < |markers| ==>
      var at := FirstIndexOf(RecordFrames(info), markers[k].frame);
      at.Some? && ThumbnailsInPoseOrder(markers, info)[k] == info[at.value]
  {
    if markers != [] {
      var n := |markers| - 1;
      var front := markers[..n];
      assert forall m :: m in front ==> m in markers;
      ThumbnailsInPoseOrderComplete(front, info);
      assert markers[n] in markers;
      var at := FirstIndexOf(RecordFrames(info), markers[n].frame);
      var r := ThumbnailsInPoseOrder(markers, info);
      assert r == ThumbnailsInPoseOrder(front, info) + [info[at.value]];
      forall k | 0 <= k < |markers|
        ensures var a := FirstIndexOf(RecordFrames(info), markers[k].frame);
                a.Some? && r[k] == info[a.value]
      {
        if k < n {
          assert front[k] == markers[k];
        }
      }
    }
  }

  /** The poses, in order, whose frame some record carries. */
  function PosesWithRecords(markers: seq<PoseMarker>, info: seq<Thumbnail>): (r: seq<PoseMarker>)
    ensures |r| <= |markers|
    ensures forall m :: m in r <==> m in markers && m.frame in RecordFrames(info)
  {
    if markers == [] then []
    else
      var n := |markers| - 1;
      assert markers == markers[..n] + [markers[n]];
      var front := PosesWithRecords(markers[..n], info);
      if markers[n].frame in RecordFrames(info) then front + [markers[n]] else front
  }

  /** A single pose is kept exactly when some record carries its frame. */
  lemma PosesWithRecordsSingle(m: PoseMarker, info: seq<Thumbnail>)
    ensures PosesWithRecords([m], info) == if m.frame in RecordFrames(info) then [m] else []
  {
    assert [m][..0] == [];
  }

  /** Adding a pose at the end adds it to the result exactly when it has a record. */
  lemma PosesWithRecordsSnoc(s: seq<PoseMarker>, m: PoseMarker, info: seq<Thumbnail>)
    ensures PosesWithRecords(s + [m], info) ==
      PosesWithRecords(s, info) + if m.frame in RecordFrames(info) then [m] else []
  {
    assert (s + [m])[..|s|] == s;
  }

  /**
   * Keeping the poses with records is an order-preserving filter: it
   * distributes over concatenation.
   */
  lemma {:induction false} PosesWithRecordsAppend(a: seq<PoseMarker>, b: seq<PoseMarker>, info: seq<Thumbnail>)
    ensures PosesWithRecords(a + b, info) == PosesWithRecords(a, info) + PosesWithRecords(b, info)
  {
    if b == [] {
      assert a + b == a;
    } else {
      var front := b[..|b| - 1];
      assert b == front + [b[|b| - 1]];
      PosesWithRecordsAppend(a, front, info);
      AppendStep(a, front, b[|b| - 1], info);
    }
  }

  /** The inductive step of `PosesWithRecordsAppend`: one more pose at the end of `b`. */
  lemma AppendStep(a: seq<PoseMarker>, front: seq<PoseMarker>, m: PoseMarker, info: seq<Thumbnail>)
    requires PosesWithRecords(a + front, info) == PosesWithRecords(a, info) + PosesWithRecords(front, info)
    ensures PosesWithRecords(a + (front + [m]), info) == PosesWithRecords(a, info) + PosesWithRecords(front + [m], info)
  {
    ConcatAssoc(a, front, [m]);
    PosesWithRecordsSnoc(a + front, m, info);
    PosesWithRecordsSnoc(front, m, info);
    var t := if m.frame in RecordFrames(info) then [m] else [];
    ConcatAssoc(PosesWithRecords(a, info), PosesWithRecords(front, info), t);
  }

  lemma ConcatAssoc<T>(x: seq<T>, y: seq<T>, z: seq<T>)
    ensures (x + y) + z == x + (y + z)
  {
  }

  /**
   * For any library: the records come out one per pose that has a record,
   * in pose order, each the first record with that pose's frame; poses
   * without a record are skipped.
   */
  lemma {:induction false} ThumbnailsInPoseOrderSkipsUnrecorded(markers: seq<PoseMarker>, info: seq<Thumbnail>)
    ensures var r := ThumbnailsInPoseOrder(markers, info);
      var has := PosesWithRecords(markers, info);
      |r| == |has| &&
      forall k :: 0 <= k < |has| ==>
        var at := FirstIndexOf(RecordFrames(info), has[k].frame);
        at.Some? && r[k] == info[at.value]
  {
    if markers != [] {
      var n := |markers| - 1;
      ThumbnailsInPoseOrderSkipsUnrecorded(markers[..n], info);
      var r := ThumbnailsInPoseOrder(markers, info);
      var has := PosesWithRecords(markers, info);
      var rf := ThumbnailsInPoseOrder(markers[..n], info);
      var hf := PosesWithRecords(markers[..n], info);
      var at := FirstIndexOf(RecordFrames(info), markers[n].frame);
      if at.Some? {
        assert r == rf + [info[at.value]];
        assert has == hf + [markers[n]];
        forall k | 0 <= k < |has|
          ensures var a := FirstIndexOf(RecordFrames(info), has[k].frame);
            a.Some? && r[k] == info[a.value]
        {
          if k < |hf| {
            assert has[k] == hf[k] && r[k] == rf[k];
          }
        }
      } else {
        assert r == rf && has == hf;
      }
    }
  }

  /** `sort_thumbnails`: the records of the library, in the order of the poses. */
  method SortThumbnails(markers: seq<PoseMarker>, info: seq<Thumbnail>) returns (r: seq<Thumbnail>)
    ensures r == ThumbnailsInPoseOrder(markers, info)
  {
    r := [];
    var i := 0;
    while i < |markers|
      invariant 0 <= i <= |markers|
      invariant r == ThumbnailsInPoseOrder(markers[..i], info)
    {
      assert markers[..i + 1][..i] == markers[..i];
      var thumbnail := GetThumbnailFromPose(info, Some(markers[i]));
      if thumbnail.Some? {
        r := r + [info[thumbnail.value]];
      }
      i := i + 1;
    }
    assert markers[..i] == markers;
  }

  /**
   * Find-or-append by frame: the first record with `rec.frame` is replaced
   * by `rec`, or `rec` is appended when there is none.
   */
  function Upsert(info: seq<Thumbnail>, rec: Thumbnail): (r: seq<Thumbnail>)
    ensures var at := FirstIndexOf(RecordFrames(info), rec.frame);
      |r| == (if at.Some? then |info| else |info| + 1) &&
      (forall j :: 0 <= j < |info| && at != Some(j) ==> r[j] == info[j])
    ensures var at := FirstIndexOf(RecordFrames(r), rec.frame);
      at.Some? && r[at.value] == rec
    ensures RecordFrames(r) == RecordFrames(info) || RecordFrames(r) == RecordFrames(info) + [rec.frame]
  {
    match FirstIndexOf(RecordFrames(info), rec.frame)
    case Some(k) =>
      var r := info[k := rec];
      assert RecordFrames(r) == RecordFrames(info);
      r
    case None =>
      var r := info + [rec];
      assert RecordFrames(r) == RecordFrames(info) + [rec.frame];
      assert FirstIndexOf(RecordFrames(r), rec.frame) == Some(|info|);
      r
  }

  /** Find-or-append never creates a second record for a frame. */
  lemma UpsertKeepsUniqueFrames(info: seq<Thumbnail>, rec: Thumbnail)
    requires UniqueFrames(RecordFrames(info))
    ensures UniqueFrames(RecordFrames(Upsert(info, rec)))
  {
    var r := Upsert(info, rec);
    if RecordFrames(r) != RecordFrames(info) {
      assert rec.frame !in RecordFrames(info);
    }
  }

  /**
   * `create_thumbnail` on pose `p`: unless overwriting is off and the pose
   * already has a record, the pose is renamed with the suffix and the
   * pose's record (found or appended) gets the clean name, `index`, the
   * pose's frame and `image`.
   */
  function Bind(lib: Library, index: int, p: nat, image: string, overwriteExisting: bool,
                suffix: string): (r: Library)
    requires p < |lib.markers|
    ensures |r.markers| == |lib.markers| && MarkerFrames(r.markers) == MarkerFrames(lib.markers)
    ensures forall j :: 0 <= j < |lib.markers| && j != p ==> r.markers[j] == lib.markers[j]
    ensures |lib.info| <= |r.info| <= |lib.info| + 1
    ensures RecordFrames(r.info) == RecordFrames(lib.info) ||
            RecordFrames(r.info) == RecordFrames(lib.info) + [lib.markers[p].frame]
    ensures forall j :: 0 <= j < |lib.info| && lib.info[j].frame != lib.markers[p].frame ==>
      r.info[j] == lib.info[j]
    ensures lib.markers[p].frame in RecordFrames(lib.info) ==> |r.info| == |lib.info|
    ensures forall j :: 0 <= j < |lib.info| && Some(j) != FirstIndexOf(RecordFrames(lib.info), lib.markers[p].frame) ==>
      r.info[j] == lib.info[j]
    ensures var pose := lib.markers[p];
      !overwriteExisting && pose.frame in RecordFrames(lib.info) ==> r == lib
    ensures var pose := lib.markers[p];
      overwriteExisting || pose.frame !in RecordFrames(lib.info) ==>
        r.markers[p] == PoseMarker(SuffixPoseName(pose.name, suffix), pose.frame) &&
        var at := FirstIndexOf(RecordFrames(r.info), pose.frame);
        at.Some? && r.info[at.value] == Thumbnail(CleanPoseName(pose.name, suffix), index, pose.frame, image)
  {
    var pose := lib.markers[p];
    if !overwriteExisting && FirstIndexOf(RecordFrames(lib.info), pose.frame).Some? then lib
    else
      var markers := lib.markers[p := PoseMarker(SuffixPoseName(pose.name, suffix), pose.frame)];
      assert MarkerFrames(markers) == MarkerFrames(lib.markers);
      Library(markers, Upsert(lib.info, Thumbnail(CleanPoseName(pose.name, suffix), index, pose.frame, image)))
  }

  lemma BindKeepsUniqueFrames(lib: Library, index: int, p: nat, image: string, overwriteExisting: bool,
                              suffix: string)
    requires p < |lib.markers| && UniqueFrames(RecordFrames(lib.info))
    ensures UniqueFrames(RecordFrames(Bind(lib, index, p, image, overwriteExisting, suffix).info))
  {
    var pose := lib.markers[p];
    if overwriteExisting || pose.frame !in RecordFrames(lib.info) {
      UpsertKeepsUniqueFrames(lib.info, Thumbnail(CleanPoseName(pose.name, suffix), index, pose.frame, image));
    }
  }

  /**
   * Without overwriting, binding the same pose a second time changes
   * nothing: the first image stays.
   */
  lemma SecondBindWithoutOverwriteIsNoOp(lib: Library, p: nat, image1: string, image2: string,
                                         overwrite1: bool, suffix: string)
    requires p < |lib.markers|
    ensures var once := Bind(lib, p, p, image1, overwrite1, suffix);
      Bind(once, p, p, image2, false, suffix) == once
  {
    var once := Bind(lib, p, p, image1, overwrite1, suffix);
    var pose := lib.markers[p];
    if overwrite1 || pose.frame !in RecordFrames(lib.info) {
      var at := FirstIndexOf(RecordFrames(once.info), pose.frame);
      assert RecordFrames(once.info)[at.value] == pose.frame;
    }
    assert once.markers[p].frame == pose.frame by {
      assert MarkerFrames(once.markers)[p] == MarkerFrames(lib.markers)[p];
    }
  }

  /** The poses named by a sequence of bindings. */
  function Poses(bs: seq<Binding>): set<nat> {
    set b | b in bs :: b.pose
  }

  predicate PosesBelow(bs: seq<Binding>, n: nat) {
    forall b :: b in bs ==> b.pose < n
  }

  /** The bindings name their poses in strictly increasing order. */
  predicate StrictlyIncreasing(bs: seq<Binding>) {
    forall i, j :: 0 <= i < j < |bs| ==> bs[i].pose < bs[j].pose
  }

  /** A pose at or above every bound pose is not bound. */
  lemma PoseNotBound(bs: seq<Binding>, n: nat)
    requires PosesBelow(bs, n)
    ensures n !in Poses(bs)
  {
  }

  /** The library after binding each of `bs` in order. */
  function ApplyBindings(lib: Library, bs: seq<Binding>, overwriteExisting: bool, suffix: string): (r: Library)
    requires PosesBelow(bs, |lib.markers|)
    ensures |r.markers| == |lib.markers| && MarkerFrames(r.markers) == MarkerFrames(lib.markers)
    ensures forall j :: 0 <= j < |lib.markers| && j !in Poses(bs) ==> r.markers[j] == lib.markers[j]
    ensures |lib.info| <= |r.info| <= |lib.info| + |bs|
    decreases |bs|
  {
    if bs == [] then lib
    else
      var b := bs[|bs| - 1];
      var before := ApplyBindings(lib, bs[..|bs| - 1], overwriteExisting, suffix);
      assert b in bs;
      assert Poses(bs) == Poses(bs[..|bs| - 1]) + {b.pose} by {
        assert bs == bs[..|bs| - 1] + [b];
      }
      Bind(before, b.pose, b.pose, b.image, overwriteExisting, suffix)
  }

  /** Binding one more pose after `bs` is one more `Bind`. */
  lemma ApplyBindingsSnoc(lib: Library, bs: seq<Binding>, b: Binding, overwriteExisting: bool, suffix: string)
    requires PosesBelow(bs, |lib.markers|) && b.pose < |lib.markers|
    ensures PosesBelow(bs + [b], |lib.markers|)
    ensures ApplyBindings(lib, bs + [b], overwriteExisting, suffix) ==
      Bind(ApplyBindings(lib, bs, overwriteExisting, suffix), b.pose, b.pose, b.image, overwriteExisting, suffix)
  {
    assert (bs + [b])[..|bs|] == bs;
  }

  lemma {:induction false} ApplyBindingsKeepsUniqueFrames(lib: Library, bs: seq<Binding>,
                                                          overwriteExisting: bool, suffix: string)
    requires PosesBelow(bs, |lib.markers|) && UniqueFrames(RecordFrames(lib.info))
    ensures UniqueFrames(RecordFrames(ApplyBindings(lib, bs, overwriteExisting, suffix).info))
    decreases |bs|
  {
    if bs != [] {
      var b := bs[|bs| - 1];
      ApplyBindingsKeepsUniqueFrames(lib, bs[..|bs| - 1], overwriteExisting, suffix);
      BindKeepsUniqueFrames(ApplyBindings(lib, bs[..|bs| - 1], overwriteExisting, suffix),
                            b.pose, b.pose, b.image, overwriteExisting, suffix);
    }
  }

  /**
   * With overwriting off, the records that existed before are kept as they
   * were: binding only ever appends records for poses that had none.
   */
  lemma {:induction false} NoOverwriteKeepsRecords(lib: Library, bs: seq<Binding>, suffix: string)
    requires PosesBelow(bs, |lib.markers|)
    ensures lib.info <= ApplyBindings(lib, bs, false, suffix).info
    decreases |bs|
  {
    if bs != [] {
      var front := bs[..|bs| - 1];
      var b := bs[|bs| - 1];
      assert b in bs;
      assert forall x :: x in front ==> x in bs;
      NoOverwriteKeepsRecords(lib, front, suffix);
      var before := ApplyBindings(lib, front, false, suffix);
      var after := ApplyBindings(lib, bs, false, suffix);
      assert after == Bind(before, b.pose, b.pose, b.image, false, suffix);
      var frame := before.markers[b.pose].frame;
      if frame !in RecordFrames(before.info) {
        forall j | 0 <= j < |before.info| ensures after.info[j] == before.info[j] {
          assert RecordFrames(before.info)[j] == before.info[j].frame;
        }
      }
      assert before.info <= after.info;
    }
  }

  /** Appending a frame does not move the first occurrence of a frame already present. */
  lemma {:induction false} FirstIndexOfAfterAppend(frames: seq<int>, g: int, f: int)
    requires f in frames
    ensures FirstIndexOf(frames + [g], f) == FirstIndexOf(frames, f)
  {
    var ext := frames + [g];
    var b := FirstIndexOf(frames, f).value;
    assert ext[b] == f;
    assert f in ext;
    var a := FirstIndexOf(ext, f).value;
    assert frames[a] == ext[a];
  }

  /**
   * Binding a pose leaves the record of any other frame where it was:
   * the first record with that frame is found at the same place and is
   * unchanged.
   */
  lemma BindKeepsOtherRecord(lib: Library, index: int, p: nat, image: string, overwriteExisting: bool,
                             suffix: string, f: int)
    requires p < |lib.markers| && f != lib.markers[p].frame && f in RecordFrames(lib.info)
    ensures var r := Bind(lib, index, p, image, overwriteExisting, suffix);
      FirstIndexOf(RecordFrames(r.info), f) == FirstIndexOf(RecordFrames(lib.info), f) &&
      r.info[FirstIndexOf(RecordFrames(lib.info), f).value] == lib.info[FirstIndexOf(RecordFrames(lib.info), f).value]
  {
    var r := Bind(lib, index, p, image, overwriteExisting, suffix);
    var k := FirstIndexOf(RecordFrames(lib.info), f).value;
    assert lib.info[k].frame == f by { assert RecordFrames(lib.info)[k] == f; }
    if RecordFrames(r.info) != RecordFrames(lib.info) {
      FirstIndexOfAfterAppend(RecordFrames(lib.info), lib.markers[p].frame, f);
    }
  }

  /**
   * Binding `b` is visible in `r` (a later state of `lib`): its pose carries
   * the suffix and the first record with its frame holds its clean name,
   * position and image.
   */
  ghost predicate Stored(lib: Library, r: Library, b: Binding, suffix: string)
    requires b.pose < |lib.markers| && |r.markers| == |lib.markers|
  {
    var pose := lib.markers[b.pose];
    r.markers[b.pose] == PoseMarker(SuffixPoseName(pose.name, suffix), pose.frame) &&
    var at := FirstIndexOf(RecordFrames(r.info), pose.frame);
    at.Some? && r.info[at.value] == Thumbnail(CleanPoseName(pose.name, suffix), b.pose, pose.frame, b.image)
  }

  lemma StoredSurvivesBind(lib: Library, before: Library, b: Binding, q: nat, image: string, suffix: string)
    requires b.pose < |lib.markers| && q < |lib.markers| && q != b.pose
    requires |before.markers| == |lib.markers| && MarkerFrames(before.markers) == MarkerFrames(lib.markers)
    requires lib.markers[b.pose].frame != lib.markers[q].frame
    requires Stored(lib, before, b, suffix)
    ensures Stored(lib, Bind(before, q, q, image, true, suffix), b, suffix)
  {
    var f := lib.markers[b.pose].frame;
    assert f != before.markers[q].frame by {
      assert MarkerFrames(before.markers)[q] == MarkerFrames(lib.markers)[q];
    }
    assert f in RecordFrames(before.info);
    BindKeepsOtherRecord(before, q, q, image, true, suffix, f);
  }

  /** Binding a pose that earlier bindings left alone stores that binding. */
  lemma StoredByBind(lib: Library, before: Library, b: Binding, suffix: string)
    requires b.pose < |lib.markers| && |before.markers| == |lib.markers|
    requires before.markers[b.pose] == lib.markers[b.pose]
    ensures Stored(lib, Bind(before, b.pose, b.pose, b.image, true, suffix), b, suffix)
  {
  }

  /** The last of strictly increasing bindings names a pose above all the others. */
  lemma LastPoseAbove(bs: seq<Binding>)
    requires StrictlyIncreasing(bs) && bs != []
    ensures var n := |bs| - 1;
      StrictlyIncreasing(bs[..n]) &&
      (forall b :: b in bs[..n] ==> b.pose < bs[n].pose) &&
      (forall b :: b in bs ==> b == bs[n] || b in bs[..n])
  {
    var n := |bs| - 1;
    forall b | b in bs[..n] ensures b.pose < bs[n].pose {
      var i :| 0 <= i < n && bs[..n][i] == b;
    }
    forall b | b in bs ensures b == bs[n] || b in bs[..n] {
      var i :| 0 <= i < |bs| && bs[i] == b;
      if i < n {
        assert bs[..n][i] == b;
      }
    }
  }

  /**
   * With overwriting on, distinct poses with distinct frames, every binding
   * is visible at the end.
   */
  lemma {:induction false} ApplyBindingsStoresEach(lib: Library, bs: seq<Binding>, suffix: string)
    requires PosesBelow(bs, |lib.markers|) && StrictlyIncreasing(bs)
    requires UniqueFrames(MarkerFrames(lib.markers))
    ensures forall b :: b in bs ==> Stored(lib, ApplyBindings(lib, bs, true, suffix), b, suffix)
    decreases |bs|
  {
    if bs != [] {
      var n := |bs| - 1;
      var last, front := bs[n], bs[..n];
      LastPoseAbove(bs);
      assert last in bs;
      ApplyBindingsStoresEach(lib, front, suffix);
      var before := ApplyBindings(lib, front, true, suffix);
      var r := ApplyBindings(lib, bs, true, suffix);
      assert r == Bind(before, last.pose, last.pose, last.image, true, suffix);
      PoseNotBound(front, last.pose);
      StoredByBind(lib, before, last, suffix);
      forall b | b in front ensures Stored(lib, r, b, suffix) {
        assert lib.markers[b.pose].frame != lib.markers[last.pose].frame by {
          assert MarkerFrames(lib.markers)[b.pose] != MarkerFrames(lib.markers)[last.pose];
        }
        StoredSurvivesBind(lib, before, b, last.pose, last.image, suffix);
      }
    }
  }
}
