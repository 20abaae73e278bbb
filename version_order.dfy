/** Ordering of version strings: Python's string comparison, the in-place
    `list.sort()` of main.py line 110, and why the last element of the sorted
    token list is the numerically largest release. */
module VersionOrder {
  import opened Text
  import opened VersionScan

  /** Python's `a < b` on str: code point by code point, a proper prefix first. */
  predicate Less(a: string, b: string)
    decreases |a|
  {
    if a == [] then b != []
    else if b == [] then false
    else if a[0] != b[0] then a[0] < b[0]
    else Less(a[1..], b[1..])
  }

  predicate LessEq(a: string, b: string)
  {
    a == b || Less(a, b)
  }

  lemma {:induction false} LessIrreflexive(a: string)
    ensures !Less(a, a)
  {
    if a != [] { LessIrreflexive(a[1..]); }
  }

  lemma {:induction false} LessAsymmetric(a: string, b: string)
    ensures Less(a, b) ==> !Less(b, a)
  {
    if a != [] && b != [] && a[0] == b[0] { LessAsymmetric(a[1..], b[1..]); }
  }

  lemma {:induction false} LessTransitive(a: string, b: string, c: string)
    ensures Less(a, b) && Less(b, c) ==> Less(a, c)
  {
    if a != [] && b != [] && c != [] && a[0] == b[0] && b[0] == c[0] {
      LessTransitive(a[1..], b[1..], c[1..]);
    }
  }

  lemma {:induction false} LessTotal(a: string, b: string)
    ensures a == b || Less(a, b) || Less(b, a)
  {
    if a != [] && b != [] && a[0] == b[0] {
      LessTotal(a[1..], b[1..]);
      if a[1..] == b[1..] {
        assert a == [a[0]] + a[1..] && b == [b[0]] + b[1..];
      }
    }
  }

  lemma LessEqTransitive(a: string, b: string, c: string)
    ensures LessEq(a, b) && LessEq(b, c) ==> LessEq(a, c)
  {
    LessTransitive(a, b, c);
  }

  /** Ascending order, as `list.sort()` leaves the list. */
  predicate Sorted(s: seq<string>)
  {
    forall i, j :: 0 <= i < j < |s| ==> LessEq(s[i], s[j])
  }

  /** A list stays sorted under a new head no greater than every element. */
  lemma SortedCons(x: string, s: seq<string>)
    requires Sorted(s)
    requires forall j :: 0 <= j < |s| ==> LessEq(x, s[j])
    ensures Sorted([x] + s)
  {
    var r := [x] + s;
    forall i, j | 0 <= i < j < |r| ensures LessEq(r[i], r[j]) {
      assert r[j] == s[j - 1];
      if i > 0 {
        assert r[i] == s[i - 1];
      }
    }
  }

  /** A head no greater than the first element of a sorted list is no
      greater than any. */
  lemma SortedHeadBound(x: string, s: seq<string>)
    requires Sorted(s) && s != [] && LessEq(x, s[0])
    ensures forall j :: 0 <= j < |s| ==> LessEq(x, s[j])
  {
    forall j | 0 <= j < |s| ensures LessEq(x, s[j]) {
      LessEqTransitive(x, s[0], s[j]);
    }
  }

  /** Every element of a list with the multiset of `s` plus `x` is bounded
      below by a bound of `s` and `x`. */
  lemma MultisetBound(y: string, s: seq<string>, x: string, r: seq<string>)
    requires multiset(r) == multiset(s) + multiset{x}
    requires LessEq(y, x) && forall j :: 0 <= j < |s| ==> LessEq(y, s[j])
    ensures forall j :: 0 <= j < |r| ==> LessEq(y, r[j])
  {
    forall j | 0 <= j < |r| ensures LessEq(y, r[j]) {
      assert r[j] in multiset(r);
      if r[j] != x {
        assert r[j] in multiset(s);
        var k :| 0 <= k < |s| && s[k] == r[j];
      }
    }
  }

  lemma SortedTail(s: seq<string>)
    requires Sorted(s) && s != []
    ensures Sorted(s[1..])
    ensures forall j :: 0 <= j < |s[1..]| ==> LessEq(s[0], s[1..][j])
  {
    assert forall j :: 0 <= j < |s[1..]| ==> s[1..][j] == s[j + 1];
  }

  /** Inserts `x` into a sorted list after every element smaller than it. */
  function Insert(x: string, s: seq<string>): (r: seq<string>)
    requires Sorted(s)
    ensures Sorted(r)
    ensures multiset(r) == multiset(s) + multiset{x}
  {
    if s == [] then [x]
    else if LessEq(x, s[0]) then
      SortedHeadBound(x, s);
      SortedCons(x, s);
      [x] + s
    else
      assert s == [s[0]] + s[1..];
      SortedTail(s);
      var rest := Insert(x, s[1..]);
      LessTotal(x, s[0]);
      MultisetBound(s[0], s[1..], x, rest);
      SortedCons(s[0], rest);
      [s[0]] + rest
  }

  /** `list.sort()` on a list of str: an ascending permutation of the input. */
  function Sort(s: seq<string>): (r: seq<string>)
    ensures Sorted(r)
    ensures multiset(r) == multiset(s)
    ensures |r| == |s|
  {
    if s == [] then []
    else
      assert s == [s[0]] + s[1..];
      Insert(s[0], Sort(s[1..]))
  }

  /** Two sorted lists with the same elements start with the same element. */
  lemma SortedHeadsAgree(a: seq<string>, b: seq<string>)
    requires Sorted(a) && Sorted(b) && a != [] && b != []
    requires multiset(a) == multiset(b)
    ensures a[0] == b[0]
  {
    assert a[0] in multiset(b) && b[0] in multiset(a);
    var i :| 0 <= i < |b| && b[i] == a[0];
    var j :| 0 <= j < |a| && a[j] == b[0];
    assert LessEq(b[0], a[0]) by { if i > 0 { assert LessEq(b[0], b[i]); } }
    assert LessEq(a[0], b[0]) by { if j > 0 { assert LessEq(a[0], a[j]); } }
    LessAsymmetric(a[0], b[0]);
  }

  lemma TailMultiset(a: seq<string>)
    requires a != []
    ensures multiset(a[1..]) == multiset(a) - multiset{a[0]}
  {
    assert a == [a[0]] + a[1..];
    assert multiset(a) == multiset([a[0]]) + multiset(a[1..]);
  }

  /** A sorted permutation is unique, so `Sort` gives the list that Python's
      own sorting algorithm gives. */
  lemma {:induction false} SortedPermutationUnique(a: seq<string>, b: seq<string>)
    requires Sorted(a) && Sorted(b)
    requires multiset(a) == multiset(b)
    ensures a == b
  {
    assert |b| == |a| by { assert |multiset(a)| == |multiset(b)|; }
    if a != [] {
      SortedHeadsAgree(a, b);
      TailMultiset(a);
      TailMultiset(b);
      SortedTail(a);
      SortedTail(b);
      SortedPermutationUnique(a[1..], b[1..]);
      assert a == [a[0]] + a[1..] && b == [b[0]] + b[1..];
    }
  }

  /** The two-digit major number of a token `vMM.mm`. */
  function Major(t: string): nat
    requires IsToken(t)
  {
    DigitValue(t[1]) * 10 + DigitValue(t[2])
  }

  /** The two-digit minor number of a token `vMM.mm`. */
  function Minor(t: string): nat
    requires IsToken(t)
  {
    DigitValue(t[4]) * 10 + DigitValue(t[5])
  }

  /** Numeric release order: by major, then by minor. */
  predicate VersionBefore(a: string, b: string)
    requires IsToken(a) && IsToken(b)
  {
    Major(a) < Major(b) || (Major(a) == Major(b) && Minor(a) < Minor(b))
  }

  lemma LessStep(a: string, b: string)
    requires a != [] && b != []
    ensures Less(a, b) <==> a[0] < b[0] || (a[0] == b[0] && Less(a[1..], b[1..]))
  {
  }

  /** For tokens of the fixed shape `vNN.NN`, string order is numeric release
      order, and string equality is equality of both numbers. */
  lemma TokenOrderIsNumeric(a: string, b: string)
    requires IsToken(a) && IsToken(b)
    ensures Less(a, b) <==> VersionBefore(a, b)
    ensures a == b <==> Major(a) == Major(b) && Minor(a) == Minor(b)
  {
    LessStep(a, b);
    LessStep(a[1..], b[1..]);
    assert a[1..][1..] == a[2..] && b[1..][1..] == b[2..];
    LessStep(a[2..], b[2..]);
    assert a[2..][1..] == a[3..] && b[2..][1..] == b[3..];
    LessStep(a[3..], b[3..]);
    assert a[3..][1..] == a[4..] && b[3..][1..] == b[4..];
    LessStep(a[4..], b[4..]);
    assert a[4..][1..] == a[5..] && b[4..][1..] == b[5..];
    LessStep(a[5..], b[5..]);
    assert a[5..][1..] == [] && b[5..][1..] == [];
    if Major(a) == Major(b) && Minor(a) == Minor(b) {
      assert a[1] == b[1] && a[2] == b[2] && a[4] == b[4] && a[5] == b[5];
      assert a == [a[0], a[1], a[2], a[3], a[4], a[5]];
      assert b == [b[0], b[1], b[2], b[3], b[4], b[5]];
    }
  }

  /** After sorting tokens, the last one is the newest release in the list:
      no element is numerically after it. */
  lemma SortedTokensLastIsNewest(s: seq<string>)
    requires Sorted(s)
    requires forall i :: 0 <= i < |s| ==> IsToken(s[i])
    requires |s| > 0
    ensures forall i :: 0 <= i < |s| ==> !VersionBefore(s[|s| - 1], s[i])
  {
    forall i | 0 <= i < |s| ensures !VersionBefore(s[|s| - 1], s[i]) {
      var last := s[|s| - 1];
      TokenOrderIsNumeric(last, s[i]);
      if i < |s| - 1 {
        assert LessEq(s[i], last);
        LessAsymmetric(s[i], last);
        LessIrreflexive(last);
      } else {
        LessIrreflexive(last);
      }
    }
  }

  /** Sorting keeps exactly the members it was given. */
  lemma SortKeepsMembers(s: seq<string>)
    ensures forall x :: x in Sort(s) <==> x in s
  {
    var r := Sort(s);
    assert forall x :: x in r <==> x in multiset(r);
    assert forall x :: x in s <==> x in multiset(s);
  }

  /** The last of a sorted list of tokens is one of them and the newest. */
  lemma SortedLastIsNewest(s: seq<string>)
    requires forall i :: 0 <= i < |s| ==> IsToken(s[i])
    requires |s| > 0
    ensures var r := Sort(s); |r| == |s| && r[|r| - 1] in s && IsToken(r[|r| - 1])
    ensures var r := Sort(s); forall i :: 0 <= i < |s| ==> !VersionBefore(r[|r| - 1], s[i])
  {
    var r := Sort(s);
    SortKeepsTokens(s);
    SortedTokensLastIsNewest(r);
    LastIsNewestMember(r);
    SortKeepsMembers(s);
    assert forall i :: 0 <= i < |s| ==> s[i] in r;
  }

  lemma LastIsNewestMember(r: seq<string>)
    requires |r| > 0
    requires forall i :: 0 <= i < |r| ==> IsToken(r[i])
    requires forall i :: 0 <= i < |r| ==> !VersionBefore(r[|r| - 1], r[i])
    ensures forall x :: x in r ==> !VersionBefore(r[|r| - 1], x)
  {
    forall x | x in r ensures !VersionBefore(r[|r| - 1], x) {
      var j :| 0 <= j < |r| && r[j] == x;
    }
  }

  lemma SortKeepsTokens(s: seq<string>)
    requires forall i :: 0 <= i < |s| ==> IsToken(s[i])
    ensures forall i :: 0 <= i < |Sort(s)| ==> IsToken(Sort(s)[i])
  {
    var r := Sort(s);
    SortKeepsMembers(s);
    forall i | 0 <= i < |r| ensures IsToken(r[i]) {
      assert r[i] in s;
    }
  }
}
