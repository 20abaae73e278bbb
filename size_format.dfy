/** `sizeof_fmt` of main.py: choosing the binary unit for a byte count.
    Numbers are reals; dividing by 1024 is exact in binary floating point, so
    the scaled value is the exact quotient. Only its `%3.1f` rendering is
    outside the model. */
module SizeFormat {

  /** 1024 to the power `k`. */
  function Pow1024(k: nat): (p: real)
    ensures p >= 1.0
  {
    if k == 0 then 1.0 else 1024.0 * Pow1024(k - 1)
  }

  function Abs(x: real): (r: real)
    ensures r >= 0.0 && (r == x || r == -x)
  {
    if x < 0.0 then -x else x
  }

  /** The unit prefixes the loop walks through, in order. */
  const Prefixes: seq<string> := ["", "Ki", "Mi", "Gi", "Ti", "Pi", "Ei", "Zi"]

  /** The prefix used once the loop runs out of `Prefixes`. */
  const FinalPrefix: string := "Yi"

  /** A formatted size: the scaled number (shown with one decimal) followed by
      its unit, the prefix with the suffix appended. */
  datatype Sized = Sized(value: real, unit: string)

  /** The loop's early exit at step `k`: the scaled value is below 1024. */
  predicate FitsAt(num: real, k: nat)
  {
    Abs(num / Pow1024(k)) < 1024.0
  }

  function ExponentFrom(num: real, i: nat): (k: nat)
    requires i <= |Prefixes|
    decreases |Prefixes| - i
    ensures i <= k <= |Prefixes|
    ensures k < |Prefixes| ==> FitsAt(num, k)
    ensures forall j :: i <= j < k ==> !FitsAt(num, j)
  {
    if i == |Prefixes| then i
    else if FitsAt(num, i) then i
    else ExponentFrom(num, i + 1)
  }

  /** The number of divisions by 1024 the loop performs: the smallest `k` below
      8 at which the scaled value fits, or 8 when there is none. */
  function UnitExponent(num: real): (k: nat)
    ensures k <= |Prefixes|
    ensures k < |Prefixes| ==> FitsAt(num, k)
    ensures forall j :: 0 <= j < k ==> !FitsAt(num, j)
  {
    ExponentFrom(num, 0)
  }

  /** The characterisation of `UnitExponent` by its contract is unique. */
  lemma UnitExponentUnique(num: real, i: nat)
    requires i <= |Prefixes|
    requires i < |Prefixes| ==> FitsAt(num, i)
    requires forall j :: 0 <= j < i ==> !FitsAt(num, j)
    ensures UnitExponent(num) == i
  {
  }

  function UnitPrefix(k: nat): string
    requires k <= |Prefixes|
  {
    if k < |Prefixes| then Prefixes[k] else FinalPrefix
  }

  /** What `sizeof_fmt(num, suffix)` shows, as a specification. */
  function SizeOf(num: real, suffix: string): Sized
  {
    var k := UnitExponent(num);
    Sized(num / Pow1024(k), UnitPrefix(k) + suffix)
  }

  lemma DivideStep(x: real, k: nat)
    ensures x / Pow1024(k) / 1024.0 == x / Pow1024(k + 1)
  {
    var p := Pow1024(k);
    assert Pow1024(k + 1) == 1024.0 * p;
    calc {
      x / p / 1024.0;
      == { assert (x / p) * p == x; }
      x / (1024.0 * p);
    }
  }

  /** `sizeof_fmt`: divide by 1024 until the magnitude fits, at most through
      `Zi`, then fall through to `Yi`. */
  method SizeofFmt(num: real, suffix: string) returns (r: Sized)
    ensures r == SizeOf(num, suffix)
  {
    var n := num;
    var i := 0;
    while i < |Prefixes|
      invariant 0 <= i <= |Prefixes|
      invariant n == num / Pow1024(i)
      invariant forall j :: 0 <= j < i ==> !FitsAt(num, j)
    {
      if Abs(n) < 1024.0 {
        UnitExponentUnique(num, i);
        return Sized(n, Prefixes[i] + suffix);
      }
      DivideStep(num, i);
      n := n / 1024.0;
      i := i + 1;
    }
    UnitExponentUnique(num, i);
    r := Sized(n, FinalPrefix + suffix);
  }

  lemma AbsDivide(x: real, p: real)
    requires p > 0.0
    ensures Abs(x / p) == Abs(x) / p
  {
    if x < 0.0 {
      assert x / p < 0.0;
      assert -(x / p) == (-x) / p;
    } else {
      assert x / p >= 0.0;
    }
  }

  /** The shown unit is the one with the smallest exponent that brings the
      magnitude under 1024, `Yi` only when none of the eight earlier ones
      does; the suffix comes last. For every unit after the plain one the
      shown magnitude is at least 1. */
  lemma SizeOfChoosesSmallestUnit(num: real, suffix: string)
    ensures var k := UnitExponent(num);
      SizeOf(num, suffix).value == num / Pow1024(k) &&
      SizeOf(num, suffix).unit == UnitPrefix(k) + suffix &&
      (k < |Prefixes| ==> Abs(SizeOf(num, suffix).value) < 1024.0) &&
      (forall j :: 0 <= j < k ==> Abs(num / Pow1024(j)) >= 1024.0) &&
      (k > 0 ==> Abs(SizeOf(num, suffix).value) >= 1.0)
  {
    var k := UnitExponent(num);
    if k > 0 {
      assert !FitsAt(num, k - 1);
      DivideStep(num, k - 1);
      var q := num / Pow1024(k - 1);
      AbsDivide(q, 1024.0);
      assert Abs(q / 1024.0) == Abs(q) / 1024.0;
      assert Abs(q) >= 1024.0;
    }
  }

  /** The sign is kept: the loop tests the magnitude but divides the signed value. */
  lemma SizeOfKeepsSign(num: real, suffix: string)
    ensures SizeOf(num, suffix).value < 0.0 <==> num < 0.0
    ensures SizeOf(num, suffix).value == 0.0 <==> num == 0.0
  {
    DivideSign(num, Pow1024(UnitExponent(num)));
  }

  lemma DivideSign(x: real, p: real)
    requires p > 0.0
    ensures x / p < 0.0 <==> x < 0.0
    ensures x / p == 0.0 <==> x == 0.0
  {
    assert x / p * p == x;
  }

  lemma DivideMonotonic(x: real, y: real, p: real)
    requires p > 0.0 && x <= y
    ensures x / p <= y / p
  {
  }

  /** A larger magnitude never gets a smaller unit. */
  lemma UnitExponentMonotonic(a: real, b: real)
    requires Abs(a) <= Abs(b)
    ensures UnitExponent(a) <= UnitExponent(b)
  {
    var ka, kb := UnitExponent(a), UnitExponent(b);
    if kb < ka {
      var p := Pow1024(kb);
      assert FitsAt(b, kb) && !FitsAt(a, kb);
      AbsDivide(a, p);
      AbsDivide(b, p);
      DivideMonotonic(Abs(a), Abs(b), p);
    }
  }

  lemma PowValues()
    ensures Pow1024(1) == 1024.0 && Pow1024(2) == 1048576.0
    ensures Pow1024(4) == 1099511627776.0
    ensures Pow1024(8) == 1208925819614629174706176.0
  {
    assert Pow1024(3) == 1073741824.0;
    assert Pow1024(5) == 1125899906842624.0;
    assert Pow1024(6) == 1152921504606846976.0;
    assert Pow1024(7) == 1180591620717411303424.0;
  }

  lemma SizeOfSmallExamples()
    ensures SizeOf(0.0, "B") == Sized(0.0, "B")
    ensures SizeOf(1024.0, "B") == Sized(1.0, "KiB")
    ensures SizeOf(1536.0, "B") == Sized(1.5, "KiB")
    ensures SizeOf(-2048.0, "B") == Sized(-2.0, "KiB")
  {
    assert Pow1024(1) == 1024.0;
    UnitExponentUnique(0.0, 0);
    UnitExponentUnique(1024.0, 1);
    UnitExponentUnique(1536.0, 1);
    UnitExponentUnique(-2048.0, 1);
  }

  lemma SizeOfTebiExample()
    ensures SizeOf(1099511627776.0, "B") == Sized(1.0, "TiB")
  {
    PowValues();
    var t := 1099511627776.0;
    assert Pow1024(3) == 1073741824.0;
    forall j | 0 <= j < 4 ensures !FitsAt(t, j) {
      assert j == 0 || j == 1 || j == 2 || j == 3;
    }
    UnitExponentUnique(t, 4);
  }

  lemma SizeOfYobiExample()
    ensures SizeOf(1024.0 * 1208925819614629174706176.0, "B") == Sized(1024.0, "YiB")
  {
    PowValues();
    var y := 1024.0 * 1208925819614629174706176.0;
    assert Pow1024(3) == 1073741824.0;
    assert Pow1024(5) == 1125899906842624.0;
    assert Pow1024(6) == 1152921504606846976.0;
    assert Pow1024(7) == 1180591620717411303424.0;
    forall j | 0 <= j < 8 ensures !FitsAt(y, j) {
      assert j == 0 || j == 1 || j == 2 || j == 3 || j == 4 || j == 5 || j == 6 || j == 7;
    }
    UnitExponentUnique(y, 8);
  }

  /** Sample values (before the one-decimal rendering): 0 B, 1.0 KiB,
      1.5 KiB, 1.0 TiB, -2.0 KiB, and past `Zi` the `Yi` unit whatever the
      magnitude. */
  lemma SizeOfExamples()
    ensures SizeOf(0.0, "B") == Sized(0.0, "B")
    ensures SizeOf(1024.0, "B") == Sized(1.0, "KiB")
    ensures SizeOf(1536.0, "B") == Sized(1.5, "KiB")
    ensures SizeOf(1099511627776.0, "B") == Sized(1.0, "TiB")
    ensures SizeOf(-2048.0, "B") == Sized(-2.0, "KiB")
    ensures SizeOf(1024.0 * 1208925819614629174706176.0, "B") == Sized(1024.0, "YiB")
  {
    SizeOfSmallExamples();
    SizeOfTebiExample();
    SizeOfYobiExample();
  }
}
