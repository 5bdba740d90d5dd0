/**
 * Numbering image files by the digits their base name starts with (the
 * regular expression `^([0-9]+).*` followed by `int`), keeping every
 * numbered file in order, duplicates included.
 */
module Numbering {
  import opened Wrappers
  import opened ImageFiles

  predicate IsDigit(c: char) {
    '0' <= c <= '9'
  }

  predicate AllDigits(s: string) {
    forall k :: 0 <= k < |s| ==> IsDigit(s[k])
  }

  /** The longest run of ASCII digits at the start of `s`. */
  function LeadingDigits(s: string): (r: string)
    ensures r <= s && AllDigits(r)
    ensures |r| == |s| || !IsDigit(s[|r|])
  {
    if s != [] && IsDigit(s[0]) then [s[0]] + LeadingDigits(s[1..]) else []
  }

  /** `int(ds)` for a string of decimal digits (leading zeros allowed). */
  function Pow10(n: nat): (r: nat)
    ensures r >= 1
  {
    if n == 0 then 1 else 10 * Pow10(n - 1)
  }

  function DecimalValue(ds: string): (r: nat)
    requires AllDigits(ds)
    ensures r < Pow10(|ds|)
  {
    if ds == [] then 0
    else 10 * DecimalValue(ds[..|ds| - 1]) + (ds[|ds| - 1] - '0') as nat
  }

  /** Leading zeros do not change the value. */
  lemma {:induction false} LeadingZeroIgnored(ds: string)
    requires AllDigits(ds)
    ensures AllDigits(['0'] + ds) && DecimalValue(['0'] + ds) == DecimalValue(ds)
  {
    var z := ['0'] + ds;
    if ds != [] {
      assert z[..|z| - 1] == ['0'] + ds[..|ds| - 1];
      LeadingZeroIgnored(ds[..|ds| - 1]);
    }
  }

  /** The number a file's base name starts with, or None. */
  function ParseLeadingNumber(path: string): (r: Option<nat>)
    ensures r.None? <==> (Basename(path) == [] || !IsDigit(Basename(path)[0]))
  {
    var digits := LeadingDigits(Basename(path));
    if digits == [] then None else Some(DecimalValue(digits))
  }

  predicate HasLeadingNumber(path: string) {
    ParseLeadingNumber(path).Some?
  }

  /**
   * Names such as "009-pose.jpg" and "00009-pose.jpg" get the same number,
   * which is why numbered files may repeat a number.
   */
  lemma LeadingZeroSameNumber(name: string)
    requires '/' !in name && name != [] && IsDigit(name[0])
    ensures ParseLeadingNumber(['0'] + name) == ParseLeadingNumber(name)
  {
    var z := ['0'] + name;
    assert '/' !in z;
    BasenameOfBareName(name);
    BasenameOfBareName(z);
    assert LeadingDigits(z) == ['0'] + LeadingDigits(name) by { assert z[1..] == name; }
    LeadingZeroIgnored(LeadingDigits(name));
  }

  datatype IndexImage = IndexImage(number: nat, image: string)

  function Images(numbered: seq<IndexImage>): (r: seq<string>)
    ensures |r| == |numbered|
  {
    if numbered == [] then [] else [numbered[0].image] + Images(numbered[1..])
  }

  /** Putting an element that satisfies `p` in front of elements that do keeps them all satisfying it. */
  lemma PrependKeeps<T>(x: T, s: seq<T>, p: T -> bool)
    requires p(x) && forall k :: 0 <= k < |s| ==> p(s[k])
    ensures forall k :: 0 <= k < |[x] + s| ==> p(([x] + s)[k])
  {
    var r := [x] + s;
    assert forall k :: 1 <= k < |r| ==> r[k] == s[k - 1];
  }

  /**
   * `get_numbered_images`: each file whose base name starts with a digit,
   * paired with that leading number, in the order of `files`.
   */
  function NumberedImages(files: seq<string>): (r: seq<IndexImage>)
    ensures |r| <= |files|
    ensures forall k :: 0 <= k < |r| ==> ParseLeadingNumber(r[k].image) == Some(r[k].number)
  {
    if files == [] then []
    else
      var rest := NumberedImages(files[1..]);
      match ParseLeadingNumber(files[0])
      case Some(n) =>
        var e := IndexImage(n, files[0]);
        PrependKeeps(e, rest, (x: IndexImage) => ParseLeadingNumber(x.image) == Some(x.number));
        [e] + rest
      case None => rest
  }

  /**
   * The numbered files are exactly the files with a leading number, in
   * their original order and with their multiplicity.
   */
  lemma {:induction false} NumberedImagesKeepOrder(files: seq<string>)
    ensures Images(NumberedImages(files)) == Filter(files, HasLeadingNumber)
  {
    if files != [] {
      NumberedImagesKeepOrder(files[1..]);
      if HasLeadingNumber(files[0]) {
        var r := NumberedImages(files);
        assert r[1..] == NumberedImages(files[1..]);
      }
    }
  }
}
