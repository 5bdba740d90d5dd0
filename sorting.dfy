/**
 * Python's ordering of `str` values (lexicographic by code point) and the
 * builtin `sorted` on lists of strings, modelled as an insertion sort that
 * is proved to produce the unique sorted permutation of its input.
 */
module Sorting {

  /** `a <= b` on Python strings. */
  predicate AtMost(a: string, b: string) {
    a == [] || (b != [] && (a[0] < b[0] || (a[0] == b[0] && AtMost(a[1..], b[1..]))))
  }

  /** `a` and `b` agree before position `k` and `a` is smaller at `k`. */
  predicate DiffersFirstAt(a: string, b: string, k: nat) {
    k < |a| && k < |b| && a[..k] == b[..k] && a[k] < b[k]
  }

  /**
   * `AtMost` is the lexicographic order: `a` is a prefix of `b`, or `a` is
   * smaller at the first position where the two differ.
   */
  lemma {:induction false} AtMostIsLexicographic(a: string, b: string)
    ensures AtMost(a, b) <==> a <= b || exists k: nat :: DiffersFirstAt(a, b, k)
  {
    if a != [] && b != [] {
      AtMostIsLexicographic(a[1..], b[1..]);
      forall k: nat | DiffersFirstAt(a, b, k) && k > 0
        ensures a[0] == b[0] && DiffersFirstAt(a[1..], b[1..], k - 1)
      {
        assert a[..k][0] == a[0] && b[..k][0] == b[0];
        assert a[1..][..k - 1] == a[..k][1..] && b[1..][..k - 1] == b[..k][1..];
      }
      if a[0] < b[0] {
        assert DiffersFirstAt(a, b, 0);
      } else if a[0] == b[0] {
        if exists k: nat :: DiffersFirstAt(a[1..], b[1..], k) {
          var k: nat :| DiffersFirstAt(a[1..], b[1..], k);
          assert a[..k + 1] == [a[0]] + a[1..][..k] && b[..k + 1] == [b[0]] + b[1..][..k];
          assert DiffersFirstAt(a, b, k + 1);
        }
        assert a == [a[0]] + a[1..] && b == [b[0]] + b[1..];
        assert a <= b <==> a[1..] <= b[1..];
      }
    }
  }

  lemma {:induction false} AtMostReflexive(a: string)
    ensures AtMost(a, a)
  {
    if a != [] { AtMostReflexive(a[1..]); }
  }

  lemma {:induction false} AtMostTotal(a: string, b: string)
    ensures AtMost(a, b) || AtMost(b, a)
  {
    if a != [] && b != [] && a[0] == b[0] {
      AtMostTotal(a[1..], b[1..]);
    }
  }

  lemma {:induction false} AtMostAntisymmetric(a: string, b: string)
    requires AtMost(a, b) && AtMost(b, a)
    ensures a == b
  {
    if a != [] && b != [] {
      AtMostAntisymmetric(a[1..], b[1..]);
      assert a == [a[0]] + a[1..] && b == [b[0]] + b[1..];
    }
  }

  lemma {:induction false} AtMostTransitive(a: string, b: string, c: string)
    requires AtMost(a, b) && AtMost(b, c)
    ensures AtMost(a, c)
  {
    if a != [] && b != [] && c != [] && a[0] == b[0] && b[0] == c[0] {
      AtMostTransitive(a[1..], b[1..], c[1..]);
    }
  }

  ghost predicate IsSorted(s: seq<string>) {
    forall i, j :: 0 <= i < j < |s| ==> AtMost(s[i], s[j])
  }

  /** Putting in front an element that is at most every element keeps the order. */
  lemma ConsSorted(y: string, t: seq<string>)
    requires IsSorted(t)
    requires forall e :: e in t ==> AtMost(y, e)
    ensures IsSorted([y] + t)
  {
    forall i, j | 0 <= i < j < |t| + 1 ensures AtMost(([y] + t)[i], ([y] + t)[j]) {
      assert ([y] + t)[j] == t[j - 1];
      if i > 0 {
        assert ([y] + t)[i] == t[i - 1];
      }
    }
  }

  /** Inserts `x` before the first element it does not follow. */
  function Insert(x: string, s: seq<string>): (r: seq<string>)
    ensures multiset(r) == multiset(s) + multiset{x}
    ensures |r| == |s| + 1
  {
    if s == [] then [x]
    else if AtMost(x, s[0]) then [x] + s
    else
      assert s == [s[0]] + s[1..];
      [s[0]] + Insert(x, s[1..])
  }

  /** Inserting into a sorted sequence keeps it sorted. */
  lemma {:induction false} InsertKeepsSorted(x: string, s: seq<string>)
    requires IsSorted(s)
    ensures IsSorted(Insert(x, s))
  {
    if s == [] {
    } else if AtMost(x, s[0]) {
      forall e | e in s ensures AtMost(x, e) {
        SortedHeadAtMost(s, e);
        AtMostTransitive(x, s[0], e);
      }
      ConsSorted(x, s);
    } else {
      AtMostTotal(x, s[0]);
      SortedTail(s);
      InsertKeepsSorted(x, s[1..]);
      var t := Insert(x, s[1..]);
      forall e | e in t ensures AtMost(s[0], e) {
        InsertedFrom(x, s[1..], e);
        if e != x {
          SortedHeadAtMost(s, e);
        }
      }
      ConsSorted(s[0], t);
    }
  }

  /** Every element of `Insert(x, s)` is `x` or an element of `s`. */
  lemma InsertedFrom(x: string, s: seq<string>, e: string)
    requires e in Insert(x, s)
    ensures e == x || e in s
  {
    assert e in multiset(Insert(x, s));
  }

  /** Python's `sorted(s)` for a list of strings. */
  function SortStrings(s: seq<string>): (r: seq<string>)
    ensures IsSorted(r)
    ensures multiset(r) == multiset(s)
    ensures |r| == |s|
  {
    if s == [] then []
    else
      assert s == [s[0]] + s[1..];
      var t := SortStrings(s[1..]);
      InsertKeepsSorted(s[0], t);
      Insert(s[0], t)
  }

  /** The head of a sorted sequence is at most each of its elements. */
  lemma SortedHeadAtMost(a: seq<string>, x: string)
    requires IsSorted(a) && x in a
    ensures AtMost(a[0], x)
  {
    var i :| 0 <= i < |a| && a[i] == x;
    if i == 0 {
      AtMostReflexive(x);
    }
  }

  lemma SortedTail(a: seq<string>)
    requires IsSorted(a) && a != []
    ensures IsSorted(a[1..])
  {
    forall i, j | 0 <= i < j < |a| - 1 ensures AtMost(a[1..][i], a[1..][j]) {
      assert a[1..][i] == a[i + 1] && a[1..][j] == a[j + 1];
    }
  }

  lemma TailMultiset(a: seq<string>)
    requires a != []
    ensures multiset(a[1..]) == multiset(a) - multiset{a[0]}
  {
    assert a == [a[0]] + a[1..];
  }

  /**
   * A sorted permutation is unique, so `SortStrings` agrees with every
   * correct sort, Python's `sorted` included.
   */
  lemma {:induction false} SortedPermutationUnique(a: seq<string>, b: seq<string>)
    requires IsSorted(a) && IsSorted(b)
    requires multiset(a) == multiset(b)
    ensures a == b
    decreases |a|
  {
    if a == [] {
      assert |b| == |multiset(b)|;
    } else {
      assert a[0] in multiset(b);
      assert b[0] in multiset(a);
      SortedHeadAtMost(b, a[0]);
      SortedHeadAtMost(a, b[0]);
      AtMostAntisymmetric(a[0], b[0]);
      TailMultiset(a);
      TailMultiset(b);
      SortedTail(a);
      SortedTail(b);
      SortedPermutationUnique(a[1..], b[1..]);
      SameHeadSameTail(a, b);
    }
  }

  lemma SameHeadSameTail(a: seq<string>, b: seq<string>)
    requires a != [] && b != [] && a[0] == b[0] && a[1..] == b[1..]
    ensures a == b
  {
    assert a == [a[0]] + a[1..] && b == [b[0]] + b[1..];
  }
}
