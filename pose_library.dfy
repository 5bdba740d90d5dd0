/**
 * The pose library as the operators change it in place: a class whose
 * fields are the pose markers and the thumbnail records, with the binder
 * and the matching loops of the two "add thumbnail" operators.
 */
module Operators {
  import opened Wrappers
  import opened PoseNames
  import opened ImageFiles
  import opened Numbering
  import opened Records
  import opened Plans

  /** How a run of the directory operator ended. */
  datatype Outcome = Finished | IndexError

  class PoseLibrary {
    var markers: seq<PoseMarker>
    var info: seq<Thumbnail>

    function State(): Library
      reads this
    {
      Library(markers, info)
    }

    constructor (markers0: seq<PoseMarker>, info0: seq<Thumbnail>)
      ensures markers == markers0 && info == info0
    {
      markers := markers0;
      info := info0;
    }

    /**
     * `create_thumbnail`: bind pose `p` to `image`, recording `index` as the
     * pose's position.
     */
    method CreateThumbnail(index: int, p: nat, image: string, overwriteExisting: bool, suffix: string)
      requires p < |markers|
      modifies this
      ensures State() == Bind(old(State()), index, p, image, overwriteExisting, suffix)
    {
      var existing := GetThumbnailFromPose(info, Some(markers[p]));
      if !overwriteExisting && existing.Some? {
        return;
      }
      var pose := markers[p];
      var name := CleanPoseName(pose.name, suffix);
      markers := markers[p := pose.(name := SuffixPoseName(pose.name, suffix))];
      var found := GetThumbnailFromPose(info, Some(markers[p]));
      var k: nat;
      if found.Some? {
        k := found.value;
      } else {
        info := info + [NewThumbnail];
        k := |info| - 1;
      }
      info := info[k := info[k].(name := name)];
      info := info[k := info[k].(index := index)];
      info := info[k := info[k].(frame := markers[p].frame)];
      info := info[k := info[k].(filepath := image)];
      assert found.None? ==> info == old(info) + [Thumbnail(name, index, pose.frame, image)];
    }

    /**
     * The single-file operator (`AddPoseThumbnail.execute`): bind the active
     * pose to the chosen file, made relative when asked, always overwriting.
     */
    method AddPoseThumbnail(activeIndex: nat, filepath: string, useRelativePath: bool,
                            relpath: string -> string, suffix: string)
      requires activeIndex < |markers|
      modifies this
      ensures var path := if useRelativePath then relpath(filepath) else filepath;
        State() == Bind(old(State()), activeIndex, activeIndex, path, true, suffix)
    {
      var path := if !useRelativePath then filepath else relpath(filepath);
      CreateThumbnail(activeIndex, activeIndex, path, true, suffix);
    }

    /**
     * `match_thumbnails_by_index`: numbered or sequential; returns whether
     * the numbered loop raised an IndexError (the bindings made before it
     * stay).
     */
    method MatchThumbnailsByIndex(images: seq<string>, matchByNumber: bool, startNumber: int,
                                  overwriteExisting: bool, suffix: string) returns (indexError: bool)
      modifies this
      ensures var plan := IndexPlan(|old(markers)|, images, matchByNumber, startNumber);
        State() == ApplyBindings(old(State()), plan.bindings, overwriteExisting, suffix) &&
        indexError == plan.indexError
    {
      if matchByNumber {
        indexError := MatchByNumber(NumberedImages(images), startNumber, overwriteExisting, suffix);
      } else {
        MatchInOrder(images, overwriteExisting, suffix);
        indexError := false;
      }
    }

    /**
     * The numbered branch: walk the poses, binding pose `i` to the head of
     * the numbered list (and dropping it) when `i + startNumber` is its
     * number; an exhausted list with poses left raises IndexError.
     */
    method MatchByNumber(numbered: seq<IndexImage>, startNumber: int, overwriteExisting: bool, suffix: string)
      returns (indexError: bool)
      modifies this
      ensures var plan := NumericPlan(|old(markers)|, numbered, startNumber);
        State() == ApplyBindings(old(State()), plan.bindings, overwriteExisting, suffix) &&
        indexError == plan.indexError
    {
      if numbered == [] {
        return false;
      }
      var n := |markers|;
      var rest := numbered;
      ghost var lib := State();
      ghost var whole := NumericWalk(0, n, numbered, startNumber);
      ghost var done: seq<Binding> := [];
      var i := 0;
      while i < |markers|
        invariant 0 <= i <= |markers| == n
        invariant PosesBelow(done, n)
        invariant State() == ApplyBindings(lib, done, overwriteExisting, suffix)
        invariant whole.bindings == done + NumericWalk(i, n, rest, startNumber).bindings
        invariant whole.indexError == NumericWalk(i, n, rest, startNumber).indexError
      {
        if rest == [] {
          assert done + [] == done;
          return true;
        }
        if i + startNumber == rest[0].number {
          var image := rest[0].image;
          NumericWalkTake(done, i, n, rest, startNumber);
          ApplyBindingsSnoc(lib, done, Binding(i, image), overwriteExisting, suffix);
          rest := rest[1..];
          CreateThumbnail(i, i, image, overwriteExisting, suffix);
          done := done + [Binding(i, image)];
        } else {
          NumericWalkSkip(i, n, rest, startNumber);
        }
        i := i + 1;
      }
      assert done + [] == done;
      return false;
    }

    /** The sequential branch: pose `i` gets image `i` while both remain. */
    method MatchInOrder(images: seq<string>, overwriteExisting: bool, suffix: string)
      modifies this
      ensures State() == ApplyBindings(old(State()), SequentialPlan(|old(markers)|, images), overwriteExisting, suffix)
    {
      ghost var lib := State();
      var i := 0;
      while i < |markers| && i < |images|
        invariant 0 <= i <= |markers| == |lib.markers| && i <= |images|
        invariant State() == ApplyBindings(lib, SequentialPlan(i, images), overwriteExisting, suffix)
      {
        SequentialPlanStep(i, images);
        ApplyBindingsSnoc(lib, SequentialPlan(i, images), Binding(i, images[i]), overwriteExisting, suffix);
        CreateThumbnail(i, i, images[i], overwriteExisting, suffix);
        i := i + 1;
      }
      SequentialPlanSaturates(i, |lib.markers|, images);
    }

    /**
     * `match_thumbnails_by_name`: the files are keyed by stem (a later file
     * with the same stem wins), then each pose is matched against the stems.
     */
    method MatchThumbnailsByName(images: seq<string>, matcher: Matcher, cutoff: real,
                                 overwriteExisting: bool, suffix: string)
      requires ReturnsCandidates(matcher)
      modifies this
      ensures var plan := NamePlan(old(markers), KeyOrder(images, Stem), KeyMap(images, Stem), matcher, cutoff, suffix);
        State() == ApplyBindings(old(State()), plan, overwriteExisting, suffix)
    {
      var files := KeyMap(images, Stem);
      MatchNames(KeyOrder(images, Stem), files, matcher, cutoff, overwriteExisting, suffix);
    }

    /**
     * The loop of the name mode: each pose whose clean name has a close
     * match among `keys` is bound to the file under the best match.
     */
    method MatchNames(keys: seq<string>, files: map<string, string>, matcher: Matcher, cutoff: real,
                      overwriteExisting: bool, suffix: string)
      requires ReturnsCandidates(matcher) && forall k :: k in keys ==> k in files
      modifies this
      ensures var plan := NamePlan(old(markers), keys, files, matcher, cutoff, suffix);
        State() == ApplyBindings(old(State()), plan, overwriteExisting, suffix)
    {
      ghost var lib := State();
      var i := 0;
      while i < |markers|
        invariant 0 <= i <= |markers| == |lib.markers|
        invariant State() == ApplyBindings(lib, NamePlan(lib.markers[..i], keys, files, matcher, cutoff, suffix),
                                           overwriteExisting, suffix)
      {
        NameLoopStep(lib, i, keys, files, matcher, cutoff, overwriteExisting, suffix);
        var found := matcher(CleanPoseName(markers[i].name, suffix), keys, 1.0 - cutoff);
        if found != [] {
          CreateThumbnail(i, i, files[found[0]], overwriteExisting, suffix);
        }
        i := i + 1;
      }
      assert lib.markers[..i] == lib.markers;
    }

    /** `match_thumbnails`: dispatch on the map method; the frame method does nothing and the operator finishes. */
    method MatchThumbnails(opts: FromDirOptions, images: seq<string>, matcher: Matcher, suffix: string)
      returns (outcome: Outcome)
      requires ReturnsCandidates(matcher)
      modifies this
      ensures var plan := MatchPlan(opts, old(markers), images, matcher, suffix);
        State() == ApplyBindings(old(State()), plan.bindings, opts.overwriteExisting, suffix) &&
        outcome == if plan.indexError then IndexError else Finished
    {
      match opts.mapMethod
      case ByName =>
        MatchThumbnailsByName(images, matcher, opts.cutoff, opts.overwriteExisting, suffix);
        outcome := Finished;
      case ByIndex =>
        var raised := MatchThumbnailsByIndex(images, opts.matchByNumber, opts.startNumber,
                                             opts.overwriteExisting, suffix);
        outcome := if raised then IndexError else Finished;
      case ByFrame =>
        outcome := Finished;
    }

    /**
     * The directory operator (`AddPoseThumbnailsFromDir.execute`): choose
     * the image paths, then match them to the poses.
     */
    method AddThumbnailsFromDir(directory: string, files: seq<string>, listing: seq<string>,
                                opts: FromDirOptions, join: (string, string) -> string,
                                relpath: string -> string, matcher: Matcher, suffix: string)
      returns (outcome: Outcome)
      requires ReturnsCandidates(matcher)
      modifies this
      ensures var images := OperatorImageFiles(directory, files, listing, opts.useRelativePath, join, relpath);
        var plan := MatchPlan(opts, old(markers), images, matcher, suffix);
        State() == ApplyBindings(old(State()), plan.bindings, opts.overwriteExisting, suffix) &&
        outcome == if plan.indexError then IndexError else Finished
    {
      var images := OperatorImageFiles(directory, files, listing, opts.useRelativePath, join, relpath);
      outcome := MatchThumbnails(opts, images, matcher, suffix);
    }
  }
}
