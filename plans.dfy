/**
 * Which image each pose gets, as a sequence of bindings: the sequential
 * and numbered index modes and the name mode. Binding the plan's entries in
 * order is what the operator's loops do (see PoseLibrary).
 */
module Plans {
  import opened Wrappers
  import opened PoseNames
  import opened ImageFiles
  import opened Numbering
  import opened Records

  /** The bindings a matching loop makes, and whether it stopped with an IndexError. */
  datatype Plan = Plan(bindings: seq<Binding>, indexError: bool)

  function Min(a: nat, b: nat): nat {
    if a <= b then a else b
  }

  /** Sequential index mode: `zip(poses, images)`. */
  function SequentialPlan(poseCount: nat, images: seq<string>): (r: seq<Binding>)
    ensures |r| == Min(poseCount, |images|)
    ensures forall k :: 0 <= k < |r| ==> r[k] == Binding(k, images[k])
  {
    seq(Min(poseCount, |images|), k requires 0 <= k < Min(poseCount, |images|) => Binding(k, images[k]))
  }

  /** Allowing one more pose adds that pose's binding while images remain. */
  lemma SequentialPlanStep(i: nat, images: seq<string>)
    requires i < |images|
    ensures SequentialPlan(i + 1, images) == SequentialPlan(i, images) + [Binding(i, images[i])]
  {
  }

  /** Once the poses or the images run out, further poses add nothing. */
  lemma SequentialPlanSaturates(i: nat, poseCount: nat, images: seq<string>)
    requires i <= poseCount && (i == poseCount || i == |images|)
    ensures SequentialPlan(i, images) == SequentialPlan(poseCount, images)
  {
  }

  /**
   * Sequential mode binds pose `i` to image `i` for exactly the
   * `i < min(|poses|, |images|)`: with overwriting on and distinct pose
   * frames each of those is stored, and every other pose is untouched.
   */
  lemma SequentialModeEffect(lib: Library, images: seq<string>, suffix: string)
    requires UniqueFrames(MarkerFrames(lib.markers))
    ensures var plan := SequentialPlan(|lib.markers|, images);
      PosesBelow(plan, |lib.markers|) &&
      var r := ApplyBindings(lib, plan, true, suffix);
      (forall i :: 0 <= i < Min(|lib.markers|, |images|) ==> Stored(lib, r, Binding(i, images[i]), suffix)) &&
      (forall j :: Min(|lib.markers|, |images|) <= j < |lib.markers| ==> r.markers[j] == lib.markers[j])
  {
    var plan := SequentialPlan(|lib.markers|, images);
    var m := Min(|lib.markers|, |images|);
    assert PosesBelow(plan, |lib.markers|);
    ApplyBindingsStoresEach(lib, plan, suffix);
    forall i | 0 <= i < m ensures Binding(i, images[i]) in plan {
      assert plan[i] == Binding(i, images[i]);
    }
    forall j | m <= j < |lib.markers| ensures j !in Poses(plan) {
    }
  }

  /**
   * Numbered index mode from pose `i` on, with `rest` the numbered images
   * not yet used: pose `i` takes the head of `rest` when `i + start` is the
   * head's number; an empty `rest` while poses remain is an IndexError.
   */
  function NumericWalk(i: nat, poseCount: nat, rest: seq<IndexImage>, start: int): (r: Plan)
    ensures PosesBelow(r.bindings, poseCount)
    ensures forall b :: b in r.bindings ==> i <= b.pose
    ensures StrictlyIncreasing(r.bindings)
    ensures |r.bindings| <= |rest|
    decreases poseCount - i
  {
    if i >= poseCount then Plan([], false)
    else if rest == [] then Plan([], true)
    else if i + start == rest[0].number then
      var t := NumericWalk(i + 1, poseCount, rest[1..], start);
      var bs := [Binding(i, rest[0].image)] + t.bindings;
      assert forall k :: 1 <= k < |bs| ==> bs[k] == t.bindings[k - 1];
      assert forall k :: 1 <= k < |bs| ==> i < bs[k].pose by {
        forall k | 1 <= k < |bs| ensures i < bs[k].pose {
          assert t.bindings[k - 1] in t.bindings;
        }
      }
      assert StrictlyIncreasing(bs) by {
        forall x, y | 0 <= x < y < |bs| ensures bs[x].pose < bs[y].pose {
          if x > 0 { assert bs[x] == t.bindings[x - 1] && bs[y] == t.bindings[y - 1]; }
        }
      }
      assert forall b :: b in bs ==> b == bs[0] || b in t.bindings;
      Plan(bs, t.indexError)
    else
      NumericWalk(i + 1, poseCount, rest, start)
  }

  /**
   * The walk uses the numbered images as an in-order prefix, each bound to
   * the pose whose position plus `start` is its number.
   */
  lemma {:induction false} NumericWalkPairs(i: nat, poseCount: nat, rest: seq<IndexImage>, start: int)
    ensures var r := NumericWalk(i, poseCount, rest, start);
      forall k :: 0 <= k < |r.bindings| ==>
        r.bindings[k].image == rest[k].image && r.bindings[k].pose + start == rest[k].number
    decreases poseCount - i
  {
    if i < poseCount && rest != [] {
      if i + start == rest[0].number {
        NumericWalkPairs(i + 1, poseCount, rest[1..], start);
        var r := NumericWalk(i, poseCount, rest, start);
        var t := NumericWalk(i + 1, poseCount, rest[1..], start);
        assert r.bindings == [Binding(i, rest[0].image)] + t.bindings;
        forall k | 1 <= k < |r.bindings|
          ensures r.bindings[k].image == rest[k].image && r.bindings[k].pose + start == rest[k].number
        {
          assert r.bindings[k] == t.bindings[k - 1] && rest[k] == rest[1..][k - 1];
        }
      } else {
        NumericWalkPairs(i + 1, poseCount, rest, start);
      }
    }
  }

  /**
   * The walk stops with an IndexError exactly when it has used every
   * numbered image while a pose after the last bound one remains.
   */
  lemma {:induction false} NumericWalkIndexError(i: nat, poseCount: nat, rest: seq<IndexImage>, start: int)
    ensures var r := NumericWalk(i, poseCount, rest, start);
      r.indexError <==>
        i < poseCount && |r.bindings| == |rest| &&
        (r.bindings == [] || r.bindings[|r.bindings| - 1].pose + 1 < poseCount)
    decreases poseCount - i
  {
    if i < poseCount && rest != [] {
      var r := NumericWalk(i, poseCount, rest, start);
      if i + start == rest[0].number {
        NumericWalkIndexError(i + 1, poseCount, rest[1..], start);
        var t := NumericWalk(i + 1, poseCount, rest[1..], start);
        assert r.bindings == [Binding(i, rest[0].image)] + t.bindings;
        if t.bindings != [] {
          assert r.bindings[|r.bindings| - 1] == t.bindings[|t.bindings| - 1];
          assert t.bindings[|t.bindings| - 1] in t.bindings;
        }
      } else {
        NumericWalkIndexError(i + 1, poseCount, rest, start);
        if |r.bindings| == |rest| {
          assert r.bindings[|r.bindings| - 1] in r.bindings;
        }
      }
    }
  }

  /**
   * The walk binds every numbered image it can: when it stops short of the
   * last image, the next image's number names no pose after the last bound
   * one (or, with nothing bound, from pose `i` on).
   */
  lemma {:induction false} NumericWalkStops(i: nat, poseCount: nat, rest: seq<IndexImage>, start: int)
    ensures var r := NumericWalk(i, poseCount, rest, start);
      |r.bindings| < |rest| ==>
        var next := rest[|r.bindings|].number - start;
        var from := if r.bindings == [] then i else r.bindings[|r.bindings| - 1].pose + 1;
        !(from <= next < poseCount)
    decreases poseCount - i
  {
    if i < poseCount && rest != [] {
      var r := NumericWalk(i, poseCount, rest, start);
      if i + start == rest[0].number {
        NumericWalkStops(i + 1, poseCount, rest[1..], start);
        var t := NumericWalk(i + 1, poseCount, rest[1..], start);
        assert r.bindings == [Binding(i, rest[0].image)] + t.bindings;
        if |r.bindings| < |rest| {
          assert rest[|r.bindings|] == rest[1..][|t.bindings|];
          if t.bindings != [] {
            assert r.bindings[|r.bindings| - 1] == t.bindings[|t.bindings| - 1];
          }
        }
      } else {
        NumericWalkStops(i + 1, poseCount, rest, start);
      }
    }
  }

  /**
   * Numbered index mode (`match_by_number`): nothing at all when no image
   * is numbered, otherwise the walk from the first pose.
   */
  function NumericPlan(poseCount: nat, numbered: seq<IndexImage>, start: int): (r: Plan)
    ensures numbered == [] ==> r == Plan([], false)
    ensures PosesBelow(r.bindings, poseCount) && StrictlyIncreasing(r.bindings)
    ensures |r.bindings| <= |numbered|
    ensures forall k :: 0 <= k < |r.bindings| ==>
      r.bindings[k].image == numbered[k].image && r.bindings[k].pose + start == numbered[k].number
    ensures |r.bindings| < |numbered| ==>
      var next := numbered[|r.bindings|].number - start;
      var from := if r.bindings == [] then 0 else r.bindings[|r.bindings| - 1].pose + 1;
      !(from <= next < poseCount)
    ensures r.indexError <==>
      numbered != [] && |r.bindings| == |numbered| && r.bindings[|r.bindings| - 1].pose + 1 < poseCount
  {
    if numbered == [] then Plan([], false)
    else
      NumericWalkStops(0, poseCount, numbered, start);
      NumericWalkPairs(0, poseCount, numbered, start);
      NumericWalkIndexError(0, poseCount, numbered, start);
      NumericWalk(0, poseCount, numbered, start)
  }

  /** The numbered images, in order, paired with the poses their numbers name. */
  predicate NumberedPrefix(poseCount: nat, numbered: seq<IndexImage>, start: int, bs: seq<Binding>) {
    PosesBelow(bs, poseCount) && StrictlyIncreasing(bs) && |bs| <= |numbered| &&
    forall k :: 0 <= k < |bs| ==> bs[k].image == numbered[k].image && bs[k].pose + start == numbered[k].number
  }

  /** The pose the first unpaired image would take lies after the last paired one. */
  predicate CanExtend(poseCount: nat, numbered: seq<IndexImage>, start: int, bs: seq<Binding>) {
    |bs| < |numbered| &&
    var next := numbered[|bs|].number - start;
    var from := if bs == [] then 0 else bs[|bs| - 1].pose + 1;
    from <= next < poseCount
  }

  /** A pairing that takes every image it can. */
  predicate NumberedPairing(poseCount: nat, numbered: seq<IndexImage>, start: int, bs: seq<Binding>) {
    NumberedPrefix(poseCount, numbered, start, bs) && !CanExtend(poseCount, numbered, start, bs)
  }

  /**
   * The contract of `NumericPlan` determines its bindings: a pairing that
   * takes every image it can is the plan's own.
   */
  lemma NumericPlanUnique(poseCount: nat, numbered: seq<IndexImage>, start: int, bs: seq<Binding>)
    requires NumberedPairing(poseCount, numbered, start, bs)
    ensures bs == NumericPlan(poseCount, numbered, start).bindings
  {
    var r := NumericPlan(poseCount, numbered, start).bindings;
    assert NumberedPairing(poseCount, numbered, start, r);
    if |bs| < |r| {
      ShorterPrefixExtends(poseCount, numbered, start, bs, r);
      assert false;
    }
    if |r| < |bs| {
      ShorterPrefixExtends(poseCount, numbered, start, r, bs);
      assert false;
    }
    forall k | 0 <= k < |bs| ensures bs[k] == r[k] {
    }
  }

  /** A shorter prefix than another one could still take the next image. */
  lemma ShorterPrefixExtends(poseCount: nat, numbered: seq<IndexImage>, start: int, a: seq<Binding>, b: seq<Binding>)
    requires NumberedPrefix(poseCount, numbered, start, a)
    requires NumberedPrefix(poseCount, numbered, start, b)
    requires |a| < |b|
    ensures CanExtend(poseCount, numbered, start, a)
  {
    var n := |a|;
    assert b[n] in b;
    if n > 0 {
      assert a[n - 1].pose == b[n - 1].pose;
      assert b[n - 1].pose < b[n].pose;
    }
  }

  /**
   * Three poses, start number 1, files "002-a.png" and "003-b.png": the
   * first pose is left alone, the second gets "002-a.png", the third
   * "003-b.png".
   */
  lemma NumericPlanExample(a: string, b: string)
    requires a == "002-a.png" && b == "003-b.png"
    ensures NumericPlan(3, NumberedImages([a, b]), 1) == Plan([Binding(1, a), Binding(2, b)], false)
  {
    ExampleNumber(a, 2);
    ExampleNumber(b, 3);
    NumericPlanTwoFiles(a, b);
  }

  lemma NumericPlanTwoFiles(a: string, b: string)
    requires ParseLeadingNumber(a) == Some(2) && ParseLeadingNumber(b) == Some(3)
    ensures NumericPlan(3, NumberedImages([a, b]), 1) == Plan([Binding(1, a), Binding(2, b)], false)
  {
    NumberedTwoFiles(a, b);
    NumericPlanOfTwo(a, b);
  }

  lemma NumberedTwoFiles(a: string, b: string)
    requires ParseLeadingNumber(a) == Some(2) && ParseLeadingNumber(b) == Some(3)
    ensures NumberedImages([a, b]) == [IndexImage(2, a), IndexImage(3, b)]
  {
    assert [a, b][1..] == [b];
    assert [b][1..] == [];
    assert NumberedImages([b]) == [IndexImage(3, b)];
  }

  lemma NumericPlanOfTwo(x: string, y: string)
    ensures NumericPlan(3, [IndexImage(2, x), IndexImage(3, y)], 1) == Plan([Binding(1, x), Binding(2, y)], false)
  {
    var ns := [IndexImage(2, x), IndexImage(3, y)];
    assert ns[1..] == [IndexImage(3, y)];
    assert ns[1..][1..] == [];
    assert NumericWalk(3, 3, [], 1) == Plan([], false);
    assert NumericWalk(2, 3, ns[1..], 1) == Plan([Binding(2, y)], false);
    assert NumericWalk(1, 3, ns, 1) == Plan([Binding(1, x), Binding(2, y)], false);
    assert NumericWalk(0, 3, ns, 1) == NumericWalk(1, 3, ns, 1);
  }

  /** A file name "00d-..." without a directory is numbered `d`. */
  lemma ExampleNumber(name: string, d: nat)
    requires d < 10 && |name| > 3 && name[..3] == "00" + [('0' as int + d) as char] && name[3] == '-'
    requires '/' !in name
    ensures ParseLeadingNumber(name) == Some(d)
  {
    assert Basename(name) == name by { assert LastIndexOf(name, '/') == -1; }
    ExampleDigits(name);
    ExampleValue(name[..3], d);
  }

  lemma ExampleDigits(name: string)
    requires |name| > 3 && IsDigit(name[0]) && IsDigit(name[1]) && IsDigit(name[2]) && name[3] == '-'
    ensures LeadingDigits(name) == name[..3]
  {
    assert LeadingDigits(name[3..]) == [];
    assert name[2..][1..] == name[3..];
    assert LeadingDigits(name[2..]) == [name[2]];
    assert name[1..][1..] == name[2..];
    assert LeadingDigits(name[1..]) == [name[1], name[2]];
    assert name[..3] == [name[0], name[1], name[2]];
  }

  lemma ExampleValue(ds: string, d: nat)
    requires d < 10 && ds == "00" + [('0' as int + d) as char]
    ensures AllDigits(ds) && DecimalValue(ds) == d
  {
    assert DecimalValue("0") == 0 by { assert "0"[..0] == ""; }
    assert DecimalValue("00") == 0 by { assert "00"[..1] == "0"; }
    assert ds[..2] == "00";
    assert (ds[2] - '0') as int == d;
  }

  /**
   * Three poses, start number 1, one file "001.png": the first pose takes
   * it, and the second pose then reads the head of an empty list.
   */
  lemma NumericPlanIndexErrorExample()
    ensures NumericPlan(3, [IndexImage(1, "001.png")], 1) == Plan([Binding(0, "001.png")], true)
  {
    assert [IndexImage(1, "001.png")][1..] == [];
  }

  /** The base name without its extension: the key of the name mode's dictionary. */
  function Stem(path: string): (r: string)
    ensures '/' !in r
    ensures r + Ext(Basename(path)) == Basename(path)
  {
    Splitext(Basename(path)).0
  }

  /**
   * A dictionary comprehension `{key(f): f for f in files}`: a later file
   * with the same key wins.
   */
  function KeyMap(files: seq<string>, key: string -> string): (m: map<string, string>)
    ensures forall s :: s in m ==> key(m[s]) == s && m[s] in files
    ensures forall f :: f in files ==> key(f) in m
  {
    if files == [] then map[]
    else
      var front := files[..|files| - 1];
      var last := files[|files| - 1];
      assert forall f :: f in files ==> f in front || f == last;
      KeyMap(front, key)[key(last) := last]
  }

  lemma {:induction false} KeyMapLastWins(files: seq<string>, key: string -> string, j: nat)
    requires j < |files|
    requires forall k :: j < k < |files| ==> key(files[k]) != key(files[j])
    ensures KeyMap(files, key)[key(files[j])] == files[j]
  {
    var n := |files| - 1;
    var front := files[..n];
    if j < n {
      assert front[j] == files[j];
      assert forall k :: j < k < |front| ==> front[k] == files[k];
      KeyMapLastWins(front, key, j);
    }
  }

  /** The dictionary's keys in insertion order (a key keeps its first position). */
  function KeyOrder(files: seq<string>, key: string -> string): (r: seq<string>)
    ensures forall i, j :: 0 <= i < j < |r| ==> r[i] != r[j]
    ensures forall s :: s in r <==> s in KeyMap(files, key)
  {
    if files == [] then []
    else
      var front := KeyOrder(files[..|files| - 1], key);
      var s := key(files[|files| - 1]);
      if s in front then front else front + [s]
  }

  /**
   * Keys keep their first insertion position: the keys of every prefix of
   * the files come first, in the same order, in front of any later key.
   */
  lemma {:induction false} KeyOrderExtendsPrefix(files: seq<string>, key: string -> string, n: nat)
    requires n <= |files|
    ensures KeyOrder(files[..n], key) <= KeyOrder(files, key)
  {
    if n < |files| {
      var front := files[..|files| - 1];
      KeyOrderExtendsPrefix(front, key, n);
      assert front[..n] == files[..n];
    } else {
      assert files[..n] == files;
    }
  }

  /** The close-match search (`difflib.get_close_matches`): word, candidates, ratio threshold. */
  type Matcher = (string, seq<string>, real) -> seq<string>

  /** The search only ever returns some of the candidates it was given. */
  ghost predicate ReturnsCandidates(matcher: Matcher) {
    forall word, keys, threshold, j :: 0 <= j < |matcher(word, keys, threshold)| ==>
      matcher(word, keys, threshold)[j] in keys
  }

  /** The close matches for a pose name: its clean name against the keys, threshold `1 - cutoff`. */
  function MatchesFor(name: string, keys: seq<string>, matcher: Matcher, cutoff: real, suffix: string): (r: seq<string>)
    ensures ReturnsCandidates(matcher) ==> forall j :: 0 <= j < |r| ==> r[j] in keys
  {
    matcher(CleanPoseName(name, suffix), keys, 1.0 - cutoff)
  }

  /**
   * Name mode over the file dictionary `files` (stem to path) and its key
   * order `keys`: a pose is bound, to the file of its best match, when the
   * search returns at least one match.
   */
  function NamePlan(markers: seq<PoseMarker>, keys: seq<string>, files: map<string, string>,
                    matcher: Matcher, cutoff: real, suffix: string): (r: seq<Binding>)
    requires ReturnsCandidates(matcher) && forall k :: k in keys ==> k in files
    ensures PosesBelow(r, |markers|) && StrictlyIncreasing(r)
  {
    if markers == [] then []
    else
      var i := |markers| - 1;
      var front := NamePlan(markers[..i], keys, files, matcher, cutoff, suffix);
      var m := MatchesFor(markers[i].name, keys, matcher, cutoff, suffix);
      if m != [] then
        assert m[0] in keys;
        var r := front + [Binding(i, files[m[0]])];
        assert forall b :: b in r ==> b in front || b == r[|front|];
        r
      else front
  }

  /**
   * In name mode a pose is bound exactly when the search finds a match for
   * its clean name, and then to the file under the best match.
   */
  lemma {:induction false} NamePlanBindsMatches(markers: seq<PoseMarker>, keys: seq<string>,
                                                files: map<string, string>, matcher: Matcher,
                                                cutoff: real, suffix: string)
    requires ReturnsCandidates(matcher) && forall k :: k in keys ==> k in files
    ensures var r := NamePlan(markers, keys, files, matcher, cutoff, suffix);
      forall i :: 0 <= i < |markers| ==>
        var m := MatchesFor(markers[i].name, keys, matcher, cutoff, suffix);
        (i in Poses(r) <==> m != []) &&
        (forall b :: b in r && b.pose == i ==> m != [] && m[0] in files && b.image == files[m[0]])
  {
    if markers != [] {
      var n := |markers| - 1;
      var front := markers[..n];
      NamePlanBindsMatches(front, keys, files, matcher, cutoff, suffix);
      var r := NamePlan(markers, keys, files, matcher, cutoff, suffix);
      var fr := NamePlan(front, keys, files, matcher, cutoff, suffix);
      var m := MatchesFor(markers[n].name, keys, matcher, cutoff, suffix);
      var extra := if m != [] then [Binding(n, files[m[0]])] else [];
      assert r == fr + extra;
      AppendAtPose(fr, extra, n);
      forall i | 0 <= i < |markers|
        ensures var mi := MatchesFor(markers[i].name, keys, matcher, cutoff, suffix);
          (i in Poses(r) <==> mi != []) &&
          (forall b :: b in r && b.pose == i ==> mi != [] && mi[0] in files && b.image == files[mi[0]])
      {
        if i < n {
          assert front[i] == markers[i];
        }
      }
    }
  }

  /** Appending bindings of pose `n` to bindings of poses below `n`. */
  lemma AppendAtPose(fr: seq<Binding>, extra: seq<Binding>, n: nat)
    requires PosesBelow(fr, n) && forall e :: e in extra ==> e.pose == n
    ensures forall i :: i < n ==> (i in Poses(fr + extra) <==> i in Poses(fr))
    ensures forall b :: b in fr + extra && b.pose < n ==> b in fr
    ensures forall b :: b in fr + extra && b.pose == n ==> b in extra
    ensures n in Poses(fr + extra) <==> extra != []
  {
    assert forall b :: b in fr + extra <==> b in fr || b in extra;
    if extra != [] {
      assert extra[0] in fr + extra;
    }
  }

  /** One more pose extends the name plan by that pose's binding, if any. */
  lemma NamePlanStep(markers: seq<PoseMarker>, i: nat, keys: seq<string>, files: map<string, string>,
                     matcher: Matcher, cutoff: real, suffix: string)
    requires ReturnsCandidates(matcher) && forall k :: k in keys ==> k in files
    requires i < |markers|
    ensures var front := NamePlan(markers[..i], keys, files, matcher, cutoff, suffix);
      var m := MatchesFor(markers[i].name, keys, matcher, cutoff, suffix);
      NamePlan(markers[..i + 1], keys, files, matcher, cutoff, suffix) ==
        if m != [] && m[0] in files then front + [Binding(i, files[m[0]])] else front
  {
    assert markers[..i + 1][..i] == markers[..i];
  }

  /**
   * One step of the name-matching loop: after the first `i` poses, pose `i`
   * is still as it was, and handling it is one more `Bind` when its search
   * finds a match.
   */
  lemma NameLoopStep(lib: Library, i: nat, keys: seq<string>, files: map<string, string>,
                     matcher: Matcher, cutoff: real, overwriteExisting: bool, suffix: string)
    requires ReturnsCandidates(matcher) && forall k :: k in keys ==> k in files
    requires i < |lib.markers|
    ensures var done := NamePlan(lib.markers[..i], keys, files, matcher, cutoff, suffix);
      var cur := ApplyBindings(lib, done, overwriteExisting, suffix);
      var m := MatchesFor(lib.markers[i].name, keys, matcher, cutoff, suffix);
      var next := NamePlan(lib.markers[..i + 1], keys, files, matcher, cutoff, suffix);
      PosesBelow(next, |lib.markers|) &&
      cur.markers[i] == lib.markers[i] &&
      (m == [] ==> next == done) &&
      (m != [] ==>
         m[0] in files &&
         ApplyBindings(lib, next, overwriteExisting, suffix) == Bind(cur, i, i, files[m[0]], overwriteExisting, suffix))
  {
    var done := NamePlan(lib.markers[..i], keys, files, matcher, cutoff, suffix);
    var m := MatchesFor(lib.markers[i].name, keys, matcher, cutoff, suffix);
    NamePlanStep(lib.markers, i, keys, files, matcher, cutoff, suffix);
    PoseNotBound(done, i);
    if m != [] {
      assert m[0] in keys;
      ApplyBindingsSnoc(lib, done, Binding(i, files[m[0]]), overwriteExisting, suffix);
    }
  }

  /** A step of the numbered walk that binds pose `i` to the head of `rest`. */
  lemma NumericWalkTake(done: seq<Binding>, i: nat, poseCount: nat, rest: seq<IndexImage>, start: int)
    requires i < poseCount && rest != [] && i + start == rest[0].number
    ensures var here := NumericWalk(i, poseCount, rest, start);
      var next := NumericWalk(i + 1, poseCount, rest[1..], start);
      done + here.bindings == (done + [Binding(i, rest[0].image)]) + next.bindings &&
      here.indexError == next.indexError
  {
    var next := NumericWalk(i + 1, poseCount, rest[1..], start);
    assert done + ([Binding(i, rest[0].image)] + next.bindings) == (done + [Binding(i, rest[0].image)]) + next.bindings;
  }

  /** A step of the numbered walk that skips pose `i`. */
  lemma NumericWalkSkip(i: nat, poseCount: nat, rest: seq<IndexImage>, start: int)
    requires i < poseCount && rest != [] && i + start != rest[0].number
    ensures NumericWalk(i, poseCount, rest, start) == NumericWalk(i + 1, poseCount, rest, start)
  {
  }

  /**
   * The index mode's plan: numbered when `match_by_number` is set,
   * sequential otherwise.
   */
  function IndexPlan(poseCount: nat, images: seq<string>, matchByNumber: bool, startNumber: int): (r: Plan)
    ensures PosesBelow(r.bindings, poseCount) && StrictlyIncreasing(r.bindings)
    ensures !matchByNumber ==> !r.indexError
  {
    if matchByNumber then NumericPlan(poseCount, NumberedImages(images), startNumber)
    else Plan(SequentialPlan(poseCount, images), false)
  }

  /** The operator's `map_method` choices. */
  datatype MapMethod = ByName | ByIndex | ByFrame

  /** The "add thumbnails from directory" operator's settings. */
  datatype FromDirOptions = FromDirOptions(
    mapMethod: MapMethod,
    overwriteExisting: bool,
    cutoff: real,
    matchByNumber: bool,
    startNumber: int,
    useRelativePath: bool)

  /**
   * The bindings `match_thumbnails` makes for the chosen method; the frame
   * method is a stub that binds nothing.
   */
  function MatchPlan(opts: FromDirOptions, markers: seq<PoseMarker>, images: seq<string>,
                     matcher: Matcher, suffix: string): (r: Plan)
    requires ReturnsCandidates(matcher)
    ensures PosesBelow(r.bindings, |markers|) && StrictlyIncreasing(r.bindings)
    ensures opts.mapMethod == ByFrame ==> r == Plan([], false)
    ensures r.indexError ==> opts.mapMethod == ByIndex && opts.matchByNumber
  {
    match opts.mapMethod
    case ByName =>
      Plan(NamePlan(markers, KeyOrder(images, Stem), KeyMap(images, Stem), matcher, opts.cutoff, suffix), false)
    case ByIndex => IndexPlan(|markers|, images, opts.matchByNumber, opts.startNumber)
    case ByFrame => Plan([], false)
  }
}
