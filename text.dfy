/** String helpers shared by the model: prefixes, substrings, ASCII case,
    joining with a separator, decimal rendering of integers. */
module Text {
  import opened Wrappers

  /** An ASCII decimal digit (the model's reading of the regex class `\d`). */
  predicate IsDigit(c: char)
  {
    '0' <= c <= '9'
  }

  function DigitValue(c: char): (d: nat)
    requires IsDigit(c)
    ensures d < 10
  {
    (c as int) - ('0' as int)
  }

  function DigitChar(d: nat): (c: char)
    requires d < 10
    ensures IsDigit(c) && DigitValue(c) == d
  {
    (('0' as int) + d) as char
  }

  /** `p` is a prefix of `s` (Python's `s.startswith(p)`). */
  predicate IsPrefix(p: string, s: string)
  {
    |p| <= |s| && s[..|p|] == p
  }

  /** `p` occurs in `s` starting at index `i`. */
  predicate OccursAt(s: string, p: string, i: int)
  {
    0 <= i && i + |p| <= |s| && s[i..i + |p|] == p
  }

  /** `p in s` for strings. */
  predicate Contains(s: string, p: string)
  {
    exists i | 0 <= i <= |s| - |p| :: OccursAt(s, p, i)
  }

  lemma OccursAtPrefix(s: string, p: string, i: int)
    requires 0 <= i <= |s|
    ensures OccursAt(s, p, i) <==> IsPrefix(p, s[i..])
  {
    if OccursAt(s, p, i) {
      assert s[i..][..|p|] == s[i..i + |p|];
    }
    if IsPrefix(p, s[i..]) {
      assert s[i..][..|p|] == s[i..i + |p|];
    }
  }

  /** ASCII lowercasing of one character (the model's `str.lower`). */
  function LowerChar(c: char): (r: char)
    ensures 'A' <= c <= 'Z' ==> r as int == c as int + 32
    ensures !('A' <= c <= 'Z') ==> r == c
  {
    if 'A' <= c <= 'Z' then ((c as int) + 32) as char else c
  }

  function Lower(s: string): (r: string)
    ensures |r| == |s|
    ensures forall i :: 0 <= i < |s| ==> r[i] == LowerChar(s[i])
  {
    if s == [] then [] else [LowerChar(s[0])] + Lower(s[1..])
  }

  /** Python's `s[-n:]`: the last `n` characters, or all of `s` when it is shorter. */
  function LastN(s: string, n: nat): (r: string)
    ensures |r| == if |s| <= n then |s| else n
    ensures r == s[|s| - |r|..]
  {
    if |s| <= n then s else s[|s| - n..]
  }

  /** Python's `sep.join(xs)`. */
  function Join(xs: seq<string>, sep: string): string
  {
    if xs == [] then ""
    else if |xs| == 1 then xs[0]
    else xs[0] + sep + Join(xs[1..], sep)
  }

  /** Position of the first `c` in `s` (`str.find` for one character). */
  function IndexOf(s: string, c: char): (r: Option<nat>)
    ensures r.Some? ==> r.value < |s| && s[r.value] == c && c !in s[..r.value]
    ensures r.None? ==> c !in s
  {
    if s == [] then None
    else if s[0] == c then Some(0)
    else match IndexOf(s[1..], c)
      case Some(i) =>
        assert s[..i + 1] == [s[0]] + s[1..][..i];
        Some(i + 1)
      case None => None
  }

  /** The first `c` of `a + b` is the head of `b` when `a` holds none. */
  lemma {:induction false} IndexOfAfter(a: string, b: string, c: char)
    requires c !in a && |b| > 0 && b[0] == c
    ensures IndexOf(a + b, c) == Some(|a|)
  {
    if a == [] {
      assert a + b == b;
    } else {
      assert (a + b)[1..] == a[1..] + b;
      IndexOfAfter(a[1..], b, c);
    }
  }

  /** Number of occurrences of character `c` in `s`. */
  function CountChar(s: string, c: char): nat
  {
    if s == [] then 0 else (if s[0] == c then 1 else 0) + CountChar(s[1..], c)
  }

  lemma {:induction false} CountCharAppend(a: string, b: string, c: char)
    ensures CountChar(a + b, c) == CountChar(a, c) + CountChar(b, c)
  {
    if a == [] {
      assert a + b == b;
    } else {
      assert (a + b)[1..] == a[1..] + b;
      CountCharAppend(a[1..], b, c);
    }
  }

  /** Decimal digits of a natural number, most significant first. */
  function NatToString(n: nat): (r: string)
    ensures |r| > 0
    ensures forall i :: 0 <= i < |r| ==> IsDigit(r[i])
  {
    if n < 10 then [DigitChar(n)] else NatToString(n / 10) + [DigitChar(n % 10)]
  }

  /** Python's `str(n)` for an int. */
  function IntToString(n: int): (r: string)
    ensures |r| > 0
    ensures forall i :: 0 <= i < |r| ==> IsDigit(r[i]) || (i == 0 && r[i] == '-')
  {
    if n < 0 then "-" + NatToString(-n) else NatToString(n)
  }

  /** Reads a run of decimal digits back as a number. */
  function ParseNat(s: string): nat
    requires forall i :: 0 <= i < |s| ==> IsDigit(s[i])
  {
    if s == [] then 0 else ParseNat(s[..|s| - 1]) * 10 + DigitValue(s[|s| - 1])
  }

  /** Reads an optional `-` followed by decimal digits. */
  function ParseInt(s: string): int
    requires forall i :: 0 <= i < |s| ==> IsDigit(s[i]) || (i == 0 && s[i] == '-')
  {
    if |s| > 0 && s[0] == '-' then -(ParseNat(s[1..]) as int) else ParseNat(s)
  }

  lemma {:induction false} NatToStringRoundTrip(n: nat)
    ensures ParseNat(NatToString(n)) == n
  {
    if n >= 10 {
      var s := NatToString(n);
      assert s[..|s| - 1] == NatToString(n / 10);
      NatToStringRoundTrip(n / 10);
    }
  }

  /** `str(n)` can be read back: decimal rendering loses nothing. */
  lemma IntToStringRoundTrip(n: int)
    ensures ParseInt(IntToString(n)) == n
  {
    if n < 0 {
      assert IntToString(n)[1..] == NatToString(-n);
      NatToStringRoundTrip(-n);
    } else {
      NatToStringRoundTrip(n);
    }
  }

  /** The characters at which Python's `str.splitlines` breaks a string. */
  predicate IsLineBoundary(c: char)
  {
    c == '\n' || c == '\r' || c == '\U{000B}' || c == '\U{000C}' || c == '\U{001C}' ||
    c == '\U{001D}' || c == '\U{001E}' || c == '\U{0085}' || c == '\U{2028}' || c == '\U{2029}'
  }

  predicate HasLineBoundary(s: string)
  {
    exists i :: 0 <= i < |s| && IsLineBoundary(s[i])
  }

  /** Where the line break that starts at `i` ends: `\r\n` is one break. */
  function BreakEnd(s: string, i: nat): (e: nat)
    requires i < |s|
    ensures i < e <= |s|
  {
    if s[i] == '\r' && i + 1 < |s| && s[i + 1] == '\n' then i + 2 else i + 1
  }

  /** Index of the first line boundary at or after `i`, or the length. */
  function NextBreak(s: string, i: nat): (j: nat)
    requires i <= |s|
    decreases |s| - i
    ensures i <= j <= |s|
    ensures j < |s| ==> IsLineBoundary(s[j])
    ensures forall k :: i <= k < j ==> !IsLineBoundary(s[k])
  {
    if i == |s| || IsLineBoundary(s[i]) then i else NextBreak(s, i + 1)
  }

  /** `len(s.splitlines())`: a final break does not start another line. */
  function LineCount(s: string): nat
    decreases |s|
  {
    if s == [] then 0
    else
      var j := NextBreak(s, 0);
      if j == |s| then 1 else 1 + LineCount(s[BreakEnd(s, j)..])
  }

  /** A break at `i` with more text after it. */
  predicate InnerBreakAt(s: string, i: int)
  {
    0 <= i < |s| && IsLineBoundary(s[i]) && BreakEnd(s, i) < |s|
  }

  /** Some break in `s` has more text after it, scanned from the front. */
  predicate HasInnerBreak(s: string)
  {
    s != [] && ((IsLineBoundary(s[0]) && BreakEnd(s, 0) < |s|) || HasInnerBreak(s[1..]))
  }

  lemma {:induction false} HasInnerBreakIff(s: string)
    decreases |s|
    ensures HasInnerBreak(s) <==> exists i :: InnerBreakAt(s, i)
  {
    if s != [] {
      var t := s[1..];
      HasInnerBreakIff(t);
      forall i | 0 <= i < |t| ensures InnerBreakAt(s, i + 1) <==> InnerBreakAt(t, i) {
        assert s[i + 1] == t[i];
        if i + 2 < |s| { assert s[i + 2] == t[i + 1]; }
        assert BreakEnd(s, i + 1) == BreakEnd(t, i) + 1;
      }
      assert HasInnerBreak(s) <==> InnerBreakAt(s, 0) || HasInnerBreak(t);
      if exists i :: InnerBreakAt(s, i) {
        var i :| InnerBreakAt(s, i);
        if i > 0 { assert InnerBreakAt(t, i - 1); }
      }
      if exists i :: InnerBreakAt(t, i) {
        var i :| InnerBreakAt(t, i);
        assert InnerBreakAt(s, i + 1);
      }
    }
  }

  /** `s.splitlines()` has more than one line exactly when some break is
      followed by more text; a trailing `\n`, `\r` or `\r\n` is not. */
  lemma SeveralLines(s: string)
    ensures LineCount(s) > 1 <==> exists i :: InnerBreakAt(s, i)
  {
    if s != [] {
      var j := NextBreak(s, 0);
      if j < |s| {
        var e := BreakEnd(s, j);
        var rest := s[e..];
        assert LineCount(s) == 1 + LineCount(rest);
        assert LineCount(rest) > 0 <==> rest != [];
        assert LineCount(s) > 1 <==> InnerBreakAt(s, j);
        forall i | InnerBreakAt(s, i) ensures InnerBreakAt(s, j) {
          assert i >= j;
          if e == j + 2 && i == j + 1 {
            assert BreakEnd(s, i) == i + 1;
          }
          assert e <= i || BreakEnd(s, i) <= e;
        }
      }
    }
  }

  lemma LineBoundaryConcat(a: string, b: string)
    ensures HasLineBoundary(a + b) <==> HasLineBoundary(a) || HasLineBoundary(b)
  {
    if HasLineBoundary(a + b) {
      var i :| 0 <= i < |a + b| && IsLineBoundary((a + b)[i]);
      if i >= |a| { assert b[i - |a|] == (a + b)[i]; }
    }
    if HasLineBoundary(b) {
      var i :| 0 <= i < |b| && IsLineBoundary(b[i]);
      assert (a + b)[|a| + i] == b[i];
    }
    if HasLineBoundary(a) {
      var i :| 0 <= i < |a| && IsLineBoundary(a[i]);
      assert (a + b)[i] == a[i];
    }
  }

  /** Text in front without any break moves every break but changes none of them. */
  lemma InnerBreakAfterPlainPrefix(p: string, s: string)
    requires !HasLineBoundary(p)
    ensures (exists i :: InnerBreakAt(p + s, i)) <==> (exists j :: InnerBreakAt(s, j))
  {
    var x := p + s;
    forall j | InnerBreakAt(s, j) ensures InnerBreakAt(x, |p| + j) {
      assert x[|p| + j] == s[j];
      if j + 1 < |s| { assert x[|p| + j + 1] == s[j + 1]; }
    }
    assert forall i :: 0 <= i < |p| ==> x[i] == p[i];
    forall i | InnerBreakAt(x, i) ensures InnerBreakAt(s, i - |p|) {
      assert x[i] == s[i - |p|];
      if i + 1 < |x| { assert x[i + 1] == s[i - |p| + 1]; }
    }
  }

  /** A nonempty tail without breaks after `a` turns every break of `a`,
      even a last one, into an inner break. */
  lemma InnerBreakBeforePlainTail(a: string, t: string)
    requires |t| > 0 && !HasLineBoundary(t)
    ensures (exists i :: InnerBreakAt(a + t, i)) <==> HasLineBoundary(a)
  {
    var x := a + t;
    if HasLineBoundary(a) {
      var i :| 0 <= i < |a| && IsLineBoundary(a[i]);
      assert x[i] == a[i];
      if i + 1 == |a| { assert x[i + 1] == t[0]; }
      assert InnerBreakAt(x, i);
    }
    forall i | InnerBreakAt(x, i) ensures HasLineBoundary(a) {
      if i >= |a| { assert x[i] == t[i - |a|]; } else { assert x[i] == a[i]; }
    }
  }

  lemma {:induction false} JoinWithoutBreaks(xs: seq<string>, sep: string)
    requires !HasLineBoundary(sep)
    requires forall i :: 0 <= i < |xs| ==> !HasLineBoundary(xs[i])
    decreases |xs|
    ensures !HasLineBoundary(Join(xs, sep))
  {
    if |xs| > 1 {
      JoinWithoutBreaks(xs[1..], sep);
      assert xs[0] == xs[0];
      LineBoundaryConcat(xs[0], sep);
      LineBoundaryConcat(xs[0] + sep, Join(xs[1..], sep));
    }
  }
}
