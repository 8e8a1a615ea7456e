/** Byte strings ordered as Go orders strings with `<` (byte by byte, a proper
    prefix first), and the three library operations the dictionary uses on a
    list of them: checking that it is sorted, sorting it, and binary search. */
module ByteStrings {
  import opened Utf8

  /** a is a proper prefix of b. */
  ghost predicate ProperPrefix(a: Bytes, b: Bytes) {
    |a| < |b| && a == b[..|a|]
  }

  /** a and b agree up to some position k, where a has the smaller byte. */
  ghost predicate SmallerAtFirstDifference(a: Bytes, b: Bytes) {
    exists k :: 0 <= k < |a| && k < |b| && a[..k] == b[..k] && a[k] < b[k]
  }

  /** Go's a < b on strings: lexicographic order on bytes. The empty string
      is below every other one, and a smaller string never has the larger
      first byte. */
  predicate Less(a: Bytes, b: Bytes): (r: bool)
    ensures |a| == 0 ==> (r <==> |b| > 0)
    ensures r ==> |b| > 0 && (|a| > 0 ==> a[0] <= b[0])
    decreases |a|
  {
    if |a| == 0 then |b| > 0
    else if |b| == 0 then false
    else if a[0] != b[0] then a[0] < b[0]
    else Less(a[1..], b[1..])
  }

  /** Less is the lexicographic order: a is a proper prefix of b, or the two
      agree up to a position where a has the smaller byte. */
  lemma {:induction false} LessIffLexicographic(a: Bytes, b: Bytes)
    ensures Less(a, b) <==> ProperPrefix(a, b) || SmallerAtFirstDifference(a, b)
    decreases |a|
  {
    if |a| == 0 {
      assert !SmallerAtFirstDifference(a, b);
    } else if |b| == 0 {
      assert !SmallerAtFirstDifference(a, b);
    } else if a[0] != b[0] {
      DifferentFirstBytes(a, b);
    } else {
      SameFirstByte(a, b);
      LessIffLexicographic(a[1..], b[1..]);
    }
  }

  lemma DifferentFirstBytes(a: Bytes, b: Bytes)
    requires |a| > 0 && |b| > 0 && a[0] != b[0]
    ensures !ProperPrefix(a, b)
    ensures SmallerAtFirstDifference(a, b) <==> a[0] < b[0]
  {
    forall k | 0 < k < |a| && k < |b|
      ensures a[..k] != b[..k]
    {
      assert a[..k][0] != b[..k][0];
    }
    if a[0] < b[0] {
      assert a[..0] == b[..0];
    }
    if |a| < |b| {
      assert b[..|a|][0] != a[0];
    }
  }

  lemma SameFirstByte(a: Bytes, b: Bytes)
    requires |a| > 0 && |b| > 0 && a[0] == b[0]
    ensures ProperPrefix(a, b) <==> ProperPrefix(a[1..], b[1..])
    ensures SmallerAtFirstDifference(a, b) <==> SmallerAtFirstDifference(a[1..], b[1..])
  {
    if ProperPrefix(a, b) {
      assert a[1..] == b[..|a|][1..];
    }
    if ProperPrefix(a[1..], b[1..]) {
      assert a == [a[0]] + a[1..] && b[..|a|] == [b[0]] + b[1..][..|a| - 1];
    }
    if SmallerAtFirstDifference(a, b) {
      var k :| 0 <= k < |a| && k < |b| && a[..k] == b[..k] && a[k] < b[k];
      assert k != 0;
      assert a[1..][..k - 1] == a[..k][1..] && b[1..][..k - 1] == b[..k][1..];
      assert a[1..][k - 1] == a[k];
    }
    if SmallerAtFirstDifference(a[1..], b[1..]) {
      var k :| 0 <= k < |a| - 1 && k < |b| - 1 && a[1..][..k] == b[1..][..k] && a[1..][k] < b[1..][k];
      assert a[..k + 1] == [a[0]] + a[1..][..k] && b[..k + 1] == [b[0]] + b[1..][..k];
      assert a[k + 1] < b[k + 1];
    }
  }

  lemma {:induction false} LessIrreflexive(a: Bytes)
    ensures !Less(a, a)
    decreases |a|
  {
    if |a| > 0 {
      LessIrreflexive(a[1..]);
    }
  }

  lemma {:induction false} LessTransitive(a: Bytes, b: Bytes, c: Bytes)
    requires Less(a, b) && Less(b, c)
    ensures Less(a, c)
    decreases |a|
  {
    if |a| > 0 && a[0] == b[0] && b[0] == c[0] {
      LessTransitive(a[1..], b[1..], c[1..]);
    }
  }

  /** Any two byte strings are equal or ordered one way. */
  lemma {:induction false} LessTotal(a: Bytes, b: Bytes)
    ensures a == b || Less(a, b) || Less(b, a)
    decreases |a|
  {
    if |a| > 0 && |b| > 0 && a[0] == b[0] {
      LessTotal(a[1..], b[1..]);
      if a[1..] == b[1..] {
        assert a == [a[0]] + a[1..] && b == [b[0]] + b[1..];
      }
    }
  }

  /** A proper prefix comes first. */
  lemma {:induction false} PrefixIsLess(a: Bytes, b: Bytes)
    requires |a| < |b| && a == b[..|a|]
    ensures Less(a, b)
    decreases |a|
  {
    if |a| > 0 {
      PrefixIsLess(a[1..], b[1..]);
    }
  }

  lemma {:induction false} LessAsymmetric(a: Bytes, b: Bytes)
    ensures !(Less(a, b) && Less(b, a))
    decreases |a|
  {
    if |a| > 0 && |b| > 0 && a[0] == b[0] {
      LessAsymmetric(a[1..], b[1..]);
    }
  }

  /** a <= b <= c gives a <= c, with a <= b written !Less(b, a). */
  lemma NotLessTransitive(a: Bytes, b: Bytes, c: Bytes)
    requires !Less(b, a) && !Less(c, b)
    ensures !Less(c, a)
  {
    LessTotal(a, b);
    LessTotal(b, c);
    if a != b && b != c {
      LessTransitive(a, b, c);
      LessAsymmetric(a, c);
    }
  }

  /** Ascending as sort.Strings leaves a list: no element is less than one
      before it. */
  ghost predicate Sorted(s: seq<Bytes>) {
    forall i, j :: 0 <= i < j < |s| ==> !Less(s[j], s[i])
  }

  /** Sortedness follows from each element not being less than its predecessor. */
  lemma {:induction false} AdjacentSorted(s: seq<Bytes>)
    requires forall k :: 0 < k < |s| ==> !Less(s[k], s[k - 1])
    ensures Sorted(s)
    decreases |s|
  {
    if |s| > 1 {
      AdjacentSorted(s[1..]);
      forall j | 1 <= j < |s|
        ensures !Less(s[j], s[0])
      {
        if j > 1 {
          assert !Less(s[1..][j - 1], s[1..][0]);
          NotLessTransitive(s[0], s[1], s[j]);
        }
      }
    }
  }

  /** No entry of a sorted list is less than its first one. */
  lemma SortedFirstIsLeast(s: seq<Bytes>, x: Bytes)
    requires Sorted(s) && x in multiset(s)
    ensures !Less(x, s[0])
  {
    var k :| 0 <= k < |s| && s[k] == x;
    if k == 0 {
      LessIrreflexive(x);
    }
  }

  lemma TailMultiset(s: seq<Bytes>)
    requires |s| > 0
    ensures multiset(s[1..]) == multiset(s) - multiset{s[0]}
  {
    assert s == [s[0]] + s[1..];
  }

  /** The sorted list with the same elements is unique: sort.Strings has one
      possible result. */
  lemma {:induction false} SortedUnique(a: seq<Bytes>, b: seq<Bytes>)
    requires Sorted(a) && Sorted(b) && multiset(a) == multiset(b)
    ensures a == b
    decreases |a|
  {
    assert |b| == |a| by {
      assert |multiset(b)| == |multiset(a)|;
    }
    if |a| > 0 {
      assert a[0] in multiset(a) && b[0] in multiset(b);
      SortedFirstIsLeast(a, b[0]);
      SortedFirstIsLeast(b, a[0]);
      LessTotal(a[0], b[0]);
      TailMultiset(a);
      TailMultiset(b);
      SortedUnique(a[1..], b[1..]);
      assert a == [a[0]] + a[1..] && b == [b[0]] + b[1..];
    }
  }

  /** sort.StringsAreSorted, scanning from the end as the library does. */
  method StringsAreSorted(s: seq<Bytes>) returns (sorted: bool)
    ensures sorted <==> Sorted(s)
  {
    var i := |s|;
    while i > 1
      invariant 0 <= i <= |s|
      invariant forall k :: i <= k < |s| && k > 0 ==> !Less(s[k], s[k - 1])
    {
      if Less(s[i - 1], s[i - 2]) {
        return false;
      }
      i := i - 1;
    }
    AdjacentSorted(s);
    return true;
  }

  /** x placed in front of the first element of s that is not less than it. */
  function Insert(x: Bytes, s: seq<Bytes>): (r: seq<Bytes>)
    ensures multiset(r) == multiset(s) + multiset{x}
  {
    if s == [] || !Less(s[0], x) then [x] + s
    else
      assert s == [s[0]] + s[1..];
      [s[0]] + Insert(x, s[1..])
  }

  /** A sorted list stays sorted with an element in front that is not greater
      than any of its entries. */
  lemma ConsSorted(x: Bytes, s: seq<Bytes>)
    requires Sorted(s)
    requires forall j :: 0 <= j < |s| ==> !Less(s[j], x)
    ensures Sorted([x] + s)
  {
    var r := [x] + s;
    forall i, j | 0 <= i < j < |r|
      ensures !Less(r[j], r[i])
    {
      if i > 0 {
        assert r[i] == s[i - 1] && r[j] == s[j - 1];
      }
    }
  }

  lemma {:induction false} InsertSorted(x: Bytes, s: seq<Bytes>)
    requires Sorted(s)
    ensures Sorted(Insert(x, s))
  {
    if s == [] || !Less(s[0], x) {
      forall j | 0 <= j < |s|
        ensures !Less(s[j], x)
      {
        if j > 0 {
          NotLessTransitive(x, s[0], s[j]);
        }
      }
      ConsSorted(x, s);
    } else {
      var t := Insert(x, s[1..]);
      InsertSorted(x, s[1..]);
      forall j | 0 <= j < |t|
        ensures !Less(t[j], s[0])
      {
        var y := t[j];
        assert y in multiset(t);
        if y == x {
          LessAsymmetric(s[0], x);
        } else {
          assert y in multiset(s[1..]);
          var k :| 0 <= k < |s[1..]| && s[1..][k] == y;
          assert s[k + 1] == y;
        }
      }
      ConsSorted(s[0], t);
    }
  }

  /** A stand-in for sort.Strings: insertion sort into a fresh sequence. */
  method SortStrings(s: seq<Bytes>) returns (r: seq<Bytes>)
    ensures Sorted(r) && multiset(r) == multiset(s)
  {
    r := [];
    for i := 0 to |s|
      invariant Sorted(r) && multiset(r) == multiset(s[..i])
    {
      InsertSorted(s[i], r);
      r := Insert(s[i], r);
      assert s[..i + 1] == s[..i] + [s[i]];
    }
    assert s[..|s|] == s;
  }

  /** sort.SearchStrings: the first index whose element is not less than x,
      |s| when there is none. */
  method SearchStrings(s: seq<Bytes>, x: Bytes) returns (idx: nat)
    requires Sorted(s)
    ensures idx <= |s|
    ensures forall k :: 0 <= k < idx ==> Less(s[k], x)
    ensures forall k :: idx <= k < |s| ==> !Less(s[k], x)
  {
    var i, j := 0, |s|;
    while i < j
      invariant 0 <= i <= j <= |s|
      invariant forall k :: 0 <= k < i ==> Less(s[k], x)
      invariant forall k :: j <= k < |s| ==> !Less(s[k], x)
    {
      var h := (i + j) / 2;
      if Less(s[h], x) {
        forall k | 0 <= k <= h
          ensures Less(s[k], x)
        {
          if k < h {
            LessTotal(s[k], s[h]);
            if s[k] != s[h] {
              LessTransitive(s[k], s[h], x);
            }
          }
        }
        i := h + 1;
      } else {
        forall k | h <= k < |s|
          ensures !Less(s[k], x)
        {
          if k > h {
            NotLessTransitive(x, s[h], s[k]);
          }
        }
        j := h;
      }
    }
    idx := i;
  }
}
