/**
 * A stand-in for `VersionSpec`, whose own source (src/version_spec.rs) is not
 * part of this model. What the package code needs from it is a constructor
 * from text (`VersionSpec::new`), a total order (`Ord::cmp`) and a display
 * form (`to_string`). The stand-in reads dot-separated decimal text such as
 * `3.9.0` as a sequence of release numbers, ordered lexicographically, and
 * keeps any other text as an opaque value ordered after every release.
 */
module Versions {
  import opened Orders
  import opened Strings

  datatype VersionSpec = Release(segments: seq<nat>) | Opaque(raw: string)

  predicate IsDigit(ch: char) {
    '0' <= ch <= '9'
  }

  /** A non-empty run of decimal digits. */
  predicate IsNumeral(s: string) {
    |s| > 0 && forall i :: 0 <= i < |s| ==> IsDigit(s[i])
  }

  predicate AllNumerals(parts: seq<string>) {
    forall i :: 0 <= i < |parts| ==> IsNumeral(parts[i])
  }

  function DigitChar(d: nat): (ch: char)
    requires d < 10
    ensures IsDigit(ch)
  {
    ('0' as int + d) as char
  }

  /** The value of a string of decimal digits. */
  function ParseNat(s: string): nat
    requires forall i :: 0 <= i < |s| ==> IsDigit(s[i])
    decreases |s|
  {
    if |s| == 0 then 0
    else
      assert IsDigit(s[|s| - 1]);
      ParseNat(s[..|s| - 1]) * 10 + (s[|s| - 1] as int - '0' as int)
  }

  /** The decimal form of `n`, without leading zeros. */
  function NatToString(n: nat): (s: string)
    ensures IsNumeral(s)
    ensures '.' !in s && '-' !in s
  {
    if n < 10 then [DigitChar(n)] else NatToString(n / 10) + [DigitChar(n % 10)]
  }

  lemma {:induction false} ParseNatToString(n: nat)
    ensures ParseNat(NatToString(n)) == n
  {
    if n >= 10 {
      var s := NatToString(n);
      ParseNatToString(n / 10);
      assert s[..|s| - 1] == NatToString(n / 10);
    }
  }

  /**
   * `VersionSpec::new(text)`: a release exactly when every dot-separated
   * part is a decimal numeral, one number per part; any other text is kept
   * whole.
   */
  function Parse(text: string): (v: VersionSpec)
    ensures WellFormed(v)
    ensures v.Release? <==> AllNumerals(Split(text, '.'))
    ensures v.Release? ==> |v.segments| == |Split(text, '.')|
    ensures v.Opaque? ==> v.raw == text
  {
    var parts := Split(text, '.');
    if AllNumerals(parts) then
      Release(seq(|parts|, i requires 0 <= i < |parts| => ParseNat(parts[i])))
    else
      Opaque(text)
  }

  function Numerals(segments: seq<nat>): (parts: seq<string>)
    ensures |parts| == |segments|
    ensures AllNumerals(parts)
    ensures forall i :: 0 <= i < |parts| ==> '.' !in parts[i] && '-' !in parts[i]
  {
    seq(|segments|, i requires 0 <= i < |segments| => NatToString(segments[i]))
  }

  /**
   * `version.to_string()`: a release is its numbers in decimal, separated by
   * dots, so it holds no `-` and ends in a digit; opaque text is unchanged.
   */
  function ToString(v: VersionSpec): (r: string)
    ensures v.Release? && |v.segments| >= 1 ==>
      && '-' !in r
      && |r| > 0 && IsDigit(r[|r| - 1])
    ensures v.Opaque? ==> r == v.raw
  {
    match v
    case Release(segments) =>
      var parts := Numerals(segments);
      var r := Join(parts, ".");
      if |parts| >= 1 then
        JoinNoChar(parts, ".", '-');
        if |parts| >= 2 then
          JoinLast(parts, ".");
          assert r[|r| - 1] == parts[|parts| - 1][|parts[|parts| - 1]| - 1];
          r
        else
          r
      else
        r
    case Opaque(raw) => raw
  }

  /** The values `Parse` can produce. */
  predicate WellFormed(v: VersionSpec) {
    match v
    case Release(segments) => |segments| >= 1
    case Opaque(raw) => !AllNumerals(Split(raw, '.'))
  }

  /** Displaying a version and reading it back gives the same version. */
  lemma ParseToString(v: VersionSpec)
    requires WellFormed(v)
    ensures Parse(ToString(v)) == v
  {
    if v.Release? {
      var parts := Numerals(v.segments);
      SplitJoin(parts, '.');
      forall i | 0 <= i < |parts|
        ensures ParseNat(parts[i]) == v.segments[i]
      {
        ParseNatToString(v.segments[i]);
      }
    }
  }

  /** Parsing is canonical: re-parsing the display form changes nothing. */
  lemma ParseIdempotent(text: string)
    ensures Parse(ToString(Parse(text))) == Parse(text)
  {
    ParseToString(Parse(text));
  }

  lemma {:induction false} JoinNoChar(parts: seq<string>, sep: string, c: char)
    requires c !in sep
    requires forall i :: 0 <= i < |parts| ==> c !in parts[i]
    ensures c !in Join(parts, sep)
    decreases |parts|
  {
    if |parts| > 1 {
      JoinNoChar(parts[1..], sep, c);
    }
  }

  /** `Ord::cmp` of the stand-in: releases lexicographically, then opaque text. */
  function Cmp(a: VersionSpec, b: VersionSpec): (r: Ordering)
    ensures r == Equal <==> a == b
  {
    match (a, b)
    case (Release(x), Release(y)) => LexCompare(x, y)
    case (Release(_), Opaque(_)) => Less
    case (Opaque(_), Release(_)) => Greater
    case (Opaque(x), Opaque(y)) =>
      var r := LexCompare(Codes(x), Codes(y));
      if r == Equal then CodesInjective(x, y); r else r
  }

  lemma CmpFlip(a: VersionSpec, b: VersionSpec)
    ensures Cmp(b, a) == Cmp(a, b).Flip()
  {
    match (a, b)
    case (Release(x), Release(y)) => LexCompareFlip(x, y);
    case (Opaque(x), Opaque(y)) => LexCompareFlip(Codes(x), Codes(y));
    case _ =>
  }

  lemma CmpLessTransitive(a: VersionSpec, b: VersionSpec, c: VersionSpec)
    requires Cmp(a, b) == Less && Cmp(b, c) == Less
    ensures Cmp(a, c) == Less
  {
    if a.Release? && b.Release? && c.Release? {
      LexCompareLessTransitive(a.segments, b.segments, c.segments);
    } else if a.Opaque? && b.Opaque? && c.Opaque? {
      LexCompareLessTransitive(Codes(a.raw), Codes(b.raw), Codes(c.raw));
    }
  }

  /** The display form of the release `2024.6.0`. */
  lemma ExampleRelease2024()
    ensures ToString(Release([2024, 6, 0])) == "2024.6.0"
  {
    assert NatToString(2024) == "2024" by {
      assert NatToString(20) == "20";
      assert NatToString(202) == "202";
    }
    assert Numerals([2024, 6, 0]) == ["2024", "6", "0"];
    assert Join(["2024", "6", "0"], ".") == "2024.6.0";
  }

  lemma ExampleRelease0211()
    ensures ToString(Release([0, 21, 1])) == "0.21.1"
  {
    assert NatToString(21) == "21";
    assert Numerals([0, 21, 1]) == ["0", "21", "1"];
    assert Join(["0", "21", "1"], ".") == "0.21.1";
  }

  lemma ExampleRelease390()
    ensures ToString(Release([3, 9, 0])) == "3.9.0"
  {
    assert Numerals([3, 9, 0]) == ["3", "9", "0"];
    assert Join(["3", "9", "0"], ".") == "3.9.0";
  }

  lemma ExampleRelease130()
    ensures ToString(Release([1, 3, 0])) == "1.3.0"
  {
    assert Numerals([1, 3, 0]) == ["1", "3", "0"];
    assert Join(["1", "3", "0"], ".") == "1.3.0";
  }

  lemma ExampleRelease212()
    ensures ToString(Release([2, 1, 2])) == "2.1.2"
  {
    assert Numerals([2, 1, 2]) == ["2", "1", "2"];
    assert Join(["2", "1", "2"], ".") == "2.1.2";
  }
}
