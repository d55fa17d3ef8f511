/**
 * The identity of one installed distribution (src/package.rs): a name, a
 * version and optional provenance, read from the name of a wheel
 * `.dist-info` metadata directory (`<name>-<version>.dist-info`, the layout
 * of the Python binary distribution format), with a case-insensitive
 * name-then-version order and a `name-version` display form.
 */
module Packages {
  import opened Wrappers
  import opened Orders
  import opened Strings
  import opened Versions

  /**
   * The provenance record read from `direct_url.json` (src/package_durl.rs,
   * which is not part of this model). It is carried and compared, never
   * inspected.
   */
  datatype DirectUrl = DirectUrl(contents: string)

  /**
   * Structural equality (`==`) covers all three fields, as the derived
   * `PartialEq` does; the order `Cmp` looks only at the lower-cased name and
   * the version.
   */
  datatype Package = Package(name: string, version: VersionSpec, directUrl: Option<DirectUrl>)

  const DistInfoSuffix: string := ".dist-info"

  /** `Package::from_name_and_version`: never fails, and records no provenance. */
  function FromNameAndVersion(name: string, version: string): (r: Option<Package>)
    ensures r.Some? && r.value.directUrl.None? && r.value.name == name
    ensures r.value.version == Parse(version)
    ensures ToString(Parse(version)) == version ==> Display(r.value) == name + "-" + version
  {
    Some(Package(name, Parse(version), None))
  }

  /** `Package::from_name_version_direct_url`: never fails, and keeps the given provenance. */
  function FromNameVersionDirectUrl(name: string, version: string, directUrl: Option<DirectUrl>): (r: Option<Package>)
    ensures r.Some? && r.value.directUrl == directUrl
    ensures r.value.name == name
    ensures FromNameAndVersion(name, version) == Some(r.value.(directUrl := None))
  {
    Some(Package(name, Parse(version), directUrl))
  }

  /**
   * The split both constructors from a directory name share: the text is cut
   * into `-`-separated parts, the last part is the version text and the
   * others, joined again with `-`, are the name. There is no result unless
   * there are at least two parts.
   */
  function SplitNameVersion(text: string): (r: Option<(string, string)>)
    ensures r.Some? <==> '-' in text
    ensures r.Some? ==> r.value.0 + "-" + r.value.1 == text
    ensures r.Some? ==> '-' !in r.value.1
  {
    var parts := Split(text, '-');
    SplitAtLeastTwo(text, '-');
    if |parts| >= 2 then
      var n := |parts|;
      var name := Join(parts[..n - 1], "-");
      var version := parts[n - 1];
      JoinLast(parts, "-");
      JoinSplit(text, '-');
      Some((name, version))
    else
      None
  }

  /** The version text after the last `-` is what the name leaves over. */
  lemma SplitNameVersionUnique(text: string, name: string, version: string)
    requires name + "-" + version == text && '-' !in version
    ensures SplitNameVersion(text) == Some((name, version))
  {
    var r := SplitNameVersion(text).value;
    assert text[|name|] == '-' && text[|r.0|] == '-';
    assert forall i | |name| < i < |text| :: text[i] == version[i - |name| - 1];
    assert forall i | |r.0| < i < |text| :: text[i] == r.1[i - |r.0| - 1];
    assert |r.0| == |name|;
    assert r.0 == text[..|name|] == name;
    assert r.1 == text[|name| + 1..] == version;
  }

  /** The directory name with every trailing `.dist-info` removed. */
  function StripDistInfo(input: string): (r: string)
    ensures |r| <= |input| && r == input[..|r|]
    ensures !EndsWith(r, DistInfoSuffix)
  {
    TrimEndMatches(input, DistInfoSuffix)
  }

  /** `Package::from_dist_info`. */
  function FromDistInfo(input: string): (r: Option<Package>)
    ensures r.Some? <==> EndsWith(input, DistInfoSuffix) && '-' in StripDistInfo(input)
    ensures r.Some? ==> r.value.directUrl.None?
    ensures r.Some? ==>
      var t := StripDistInfo(input);
      var n := |r.value.name|;
      && n < |t|
      && t[..n] == r.value.name
      && t[n] == '-'
      && '-' !in t[n + 1..]
      && r.value.version == Parse(t[n + 1..])
  {
    if EndsWith(input, DistInfoSuffix) then
      var t := StripDistInfo(input);
      match SplitNameVersion(t)
      case Some((name, version)) =>
        assert t[|name| + 1..] == version;
        FromNameAndVersion(name, version)
      case None => None
    else
      None
  }

  /**
   * `Package::from_file_path`, with the file system queries passed in:
   * `fileName` is the path's last component when it is valid text, `isDir`
   * whether the path is a directory, `durlIsFile` whether `direct_url.json`
   * exists beside it as a file, and `durlRead` the outcome of reading that
   * file (`None` when it does not parse).
   */
  function FromFilePath(fileName: Option<string>, isDir: bool, durlIsFile: bool, durlRead: Option<DirectUrl>): (r: Option<Package>)
    ensures fileName.None? || !isDir ==> r.None?
    ensures fileName.Some? && isDir ==> (r.Some? <==> FromDistInfo(fileName.value).Some?)
    ensures r.Some? ==>
      r.value == FromDistInfo(fileName.value).value.(directUrl := if durlIsFile then durlRead else None)
  {
    match fileName
    case None => None
    case Some(name) =>
      if EndsWith(name, DistInfoSuffix) && isDir then
        var durl := if durlIsFile then durlRead else None;
        var t := TrimEndMatches(name, DistInfoSuffix);
        match SplitNameVersion(t)
        case Some((n, v)) => FromNameVersionDirectUrl(n, v, durl)
        case None => None
      else
        None
  }

  /** `Ord::cmp`: lower-cased names first, versions only on a tie. */
  function Cmp(p: Package, q: Package): (r: Ordering)
    ensures r == Equal <==> ToLower(p.name) == ToLower(q.name) && p.version == q.version
    ensures LexCompare(Codes(ToLower(p.name)), Codes(ToLower(q.name))) != Equal ==>
      r == LexCompare(Codes(ToLower(p.name)), Codes(ToLower(q.name)))
    ensures ToLower(p.name) == ToLower(q.name) ==> r == Versions.Cmp(p.version, q.version)
  {
    var byName := LexCompare(Codes(ToLower(p.name)), Codes(ToLower(q.name)));
    if byName == Equal then CodesInjective(ToLower(p.name), ToLower(q.name)); byName.Then(Versions.Cmp(p.version, q.version))
    else byName
  }

  /** `PartialOrd::partial_cmp`: always defined, so the order is total. */
  function PartialCmp(p: Package, q: Package): (r: Option<Ordering>)
    ensures r.Some?
    ensures r.value == Cmp(p, q)
  {
    Some(Cmp(p, q))
  }

  /** `p < q` and `p > q` as Rust derives them from `partial_cmp`. */
  function Lt(p: Package, q: Package): (b: bool)
    ensures b <==>
      || LexLess(Codes(ToLower(p.name)), Codes(ToLower(q.name)))
      || (ToLower(p.name) == ToLower(q.name) && Versions.Cmp(p.version, q.version) == Less)
  {
    LexCompareLessIff(Codes(ToLower(p.name)), Codes(ToLower(q.name)));
    PartialCmp(p, q) == Some(Less)
  }

  function Gt(p: Package, q: Package): (b: bool)
    ensures b <==> Lt(q, p)
  {
    CmpFlip(q, p);
    PartialCmp(p, q) == Some(Greater)
  }

  lemma CmpFlip(p: Package, q: Package)
    ensures Cmp(q, p) == Cmp(p, q).Flip()
  {
    LexCompareFlip(Codes(ToLower(p.name)), Codes(ToLower(q.name)));
    Versions.CmpFlip(p.version, q.version);
    FlipThen(LexCompare(Codes(ToLower(p.name)), Codes(ToLower(q.name))), Versions.Cmp(p.version, q.version));
  }

  /** Exactly one of `p < q`, a tie, `p > q` holds, and `p < q` exactly when `q > p`. */
  lemma Trichotomy(p: Package, q: Package)
    ensures Lt(p, q) <==> Gt(q, p)
    ensures (Lt(p, q) || Gt(p, q) || Cmp(p, q) == Equal)
    ensures !(Lt(p, q) && Gt(p, q))
  {
    CmpFlip(p, q);
  }

  lemma LtTransitive(p: Package, q: Package, s: Package)
    requires Lt(p, q) && Lt(q, s)
    ensures Lt(p, s)
  {
    var a, b, c := Codes(ToLower(p.name)), Codes(ToLower(q.name)), Codes(ToLower(s.name));
    if LexCompare(a, b) == Equal && LexCompare(b, c) == Equal {
      Versions.CmpLessTransitive(p.version, q.version, s.version);
    } else if LexCompare(a, b) == Equal {
      assert a == b;
    } else if LexCompare(b, c) == Equal {
      assert b == c;
    } else {
      LexCompareLessTransitive(a, b, c);
    }
  }

  /** A tie under `Cmp` does not make two packages equal. */
  lemma TieIsNotEquality()
    ensures var p := Package("NumPy", Release([2, 1, 2]), None);
            var q := Package("numpy", Release([2, 1, 2]), Some(DirectUrl("file:///src/numpy")));
            Cmp(p, q) == Equal && p != q
  {
    var p := Package("NumPy", Release([2, 1, 2]), None);
    var q := Package("numpy", Release([2, 1, 2]), Some(DirectUrl("file:///src/numpy")));
    assert ToLower(p.name) == "numpy";
  }

  /** `Display`: the name, a `-`, and the version's display form. */
  function Display(p: Package): (r: string)
    ensures |r| > |p.name| && r[..|p.name|] == p.name && r[|p.name|] == '-'
    ensures r[|p.name| + 1..] == ToString(p.version)
  {
    p.name + "-" + ToString(p.version)
  }

  /** `Debug`: the display form wrapped as `<Package: ...>`. */
  function DebugText(p: Package): (r: string)
    ensures r == "<Package: " + Display(p) + ">"
  {
    "<Package: " + p.name + "-" + ToString(p.version) + ">"
  }

  /**
   * A package with a release version and no provenance is recovered exactly
   * from its display form with `.dist-info` appended, whatever its name.
   */
  lemma DisplayRoundTrip(p: Package)
    requires p.directUrl.None? && p.version.Release? && |p.version.segments| >= 1
    ensures FromDistInfo(Display(p) + DistInfoSuffix) == Some(p)
  {
    var d := Display(p);
    var input := d + DistInfoSuffix;
    var v := ToString(p.version);
    assert input[|input| - |DistInfoSuffix|..] == DistInfoSuffix;
    assert input[..|input| - |DistInfoSuffix|] == d;
    assert !EndsWith(d, DistInfoSuffix) by {
      assert d[|d| - 1] == v[|v| - 1];
    }
    assert TrimEndMatches(input, DistInfoSuffix) == TrimEndMatches(d, DistInfoSuffix);
    assert StripDistInfo(input) == d;
    SplitNameVersionUnique(d, p.name, v);
    assert d[|p.name| + 1..] == v;
    ParseToString(p.version);
  }

  /** Every trailing repetition of `.dist-info` is stripped, not only the last. */
  lemma FromDistInfoRepeatedSuffix(base: string, k: nat)
    requires k >= 1
    ensures FromDistInfo(base + Repeat(DistInfoSuffix, k)) == FromDistInfo(base + DistInfoSuffix)
  {
    var input := base + Repeat(DistInfoSuffix, k);
    assert Repeat(DistInfoSuffix, 1) == DistInfoSuffix;
    TrimEndMatchesRepeat(base, DistInfoSuffix, k);
    TrimEndMatchesRepeat(base, DistInfoSuffix, 1);
    assert input == (base + Repeat(DistInfoSuffix, k - 1)) + DistInfoSuffix;
    assert EndsWith(input, DistInfoSuffix);
    assert EndsWith(base + DistInfoSuffix, DistInfoSuffix);
  }

  /** A name without the `.dist-info` ending never yields a package. */
  lemma FromDistInfoWrongSuffix()
    ensures FromDistInfo("matplotlib-3.9.0.dist-in") == None
  {
    var s := "matplotlib-3.9.0.dist-in";
    assert s[|s| - 1] != DistInfoSuffix[|DistInfoSuffix| - 1];
    assert !EndsWith(s, DistInfoSuffix);
  }

  /**
   * A name with no `-` before its `.dist-info` endings yields no package,
   * however many endings it has.
   */
  lemma FromDistInfoNoDash(base: string, k: nat)
    requires '-' !in base && k >= 1
    ensures FromDistInfo(base + Repeat(DistInfoSuffix, k)) == None
  {
    var input := base + Repeat(DistInfoSuffix, k);
    TrimEndMatchesRepeat(base, DistInfoSuffix, k);
    var t := StripDistInfo(input);
    assert t == base[..|t|];
    assert '-' !in t by {
      forall i | 0 <= i < |t|
        ensures t[i] != '-'
      {
        assert t[i] == base[i];
      }
    }
  }

  /** The display form, given the version's display form. */
  lemma DisplayText(p: Package, versionText: string, shown: string)
    requires ToString(p.version) == versionText && shown == p.name + "-" + versionText
    ensures Display(p) == shown
  {
  }

  /** `DisplayRoundTrip` for a given directory name, as the examples below use it. */
  lemma FromDistInfoOfDisplayText(text: string, name: string, version: VersionSpec, versionText: string)
    requires version.Release? && |version.segments| >= 1 && ToString(version) == versionText
    requires text == name + "-" + versionText + DistInfoSuffix
    ensures FromDistInfo(text) == Some(Package(name, version, None))
  {
    DisplayRoundTrip(Package(name, version, None));
  }

  /** The parse of `matplotlib-3.9.0.dist-info`. */
  lemma ExampleMatplotlib()
    ensures FromDistInfo("matplotlib-3.9.0.dist-info") == Some(Package("matplotlib", Release([3, 9, 0]), None))
  {
    ExampleRelease390();
    FromDistInfoOfDisplayText("matplotlib-3.9.0.dist-info", "matplotlib", Release([3, 9, 0]), "3.9.0");
  }

  /** The display form of that parse. */
  lemma ExampleMatplotlibDisplay()
    ensures Display(Package("matplotlib", Release([3, 9, 0]), None)) == "matplotlib-3.9.0"
  {
    ExampleRelease390();
    DisplayText(Package("matplotlib", Release([3, 9, 0]), None), "3.9.0", "matplotlib-3.9.0");
  }

  /** A name that itself contains `-` survives the split on the last `-`. */
  lemma ExampleHyphenatedName()
    ensures FromDistInfo("scikit-learn-1.3.0.dist-info") == Some(Package("scikit-learn", Release([1, 3, 0]), None))
  {
    ExampleRelease130();
    FromDistInfoOfDisplayText("scikit-learn-1.3.0.dist-info", "scikit-learn", Release([1, 3, 0]), "1.3.0");
  }

  lemma ExampleXarrayOld()
    ensures FromDistInfo("xarray-0.21.1.dist-info") == Some(Package("xarray", Release([0, 21, 1]), None))
  {
    ExampleRelease0211();
    FromDistInfoOfDisplayText("xarray-0.21.1.dist-info", "xarray", Release([0, 21, 1]), "0.21.1");
  }

  lemma ExampleXarrayNew()
    ensures FromDistInfo("xarray-2024.6.0.dist-info") == Some(Package("xarray", Release([2024, 6, 0]), None))
  {
    ExampleRelease2024();
    FromDistInfoOfDisplayText("xarray-2024.6.0.dist-info", "xarray", Release([2024, 6, 0]), "2024.6.0");
  }

  /** Two releases of one package order by version; parsing one name twice gives equal packages. */
  lemma ExampleXarrayOrder()
    ensures FromDistInfo("xarray-0.21.1.dist-info").Some?
    ensures FromDistInfo("xarray-2024.6.0.dist-info").Some?
    ensures var p1 := FromDistInfo("xarray-0.21.1.dist-info").value;
            var p2 := FromDistInfo("xarray-2024.6.0.dist-info").value;
            var p3 := FromDistInfo("xarray-2024.6.0.dist-info").value;
            Gt(p2, p1) && Lt(p1, p2) && p1 != p3 && p2 == p3
  {
    ExampleXarrayOld();
    ExampleXarrayNew();
    var p1 := Package("xarray", Release([0, 21, 1]), None);
    var p2 := Package("xarray", Release([2024, 6, 0]), None);
    assert Cmp(p1, p2) == Less by {
      assert LexCompare([0, 21, 1], [2024, 6, 0]) == Less;
    }
    CmpFlip(p1, p2);
  }

  /** A package built from canonical version text displays as that text after the name. */
  lemma FromNameAndVersionDisplayText(name: string, versionText: string, version: VersionSpec, shown: string)
    requires WellFormed(version) && ToString(version) == versionText
    requires shown == name + "-" + versionText
    ensures Display(FromNameAndVersion(name, versionText).value) == shown
  {
    ParseToString(version);
  }

  /** `from_name_and_version("numpy", "2.1.2")` displays as `numpy-2.1.2`. */
  lemma ExampleNumpyDisplay()
    ensures Display(FromNameAndVersion("numpy", "2.1.2").value) == "numpy-2.1.2"
  {
    ExampleRelease212();
    FromNameAndVersionDisplayText("numpy", "2.1.2", Release([2, 1, 2]), "numpy-2.1.2");
  }

  /** Its debug form wraps the displayed text: `<Package: numpy-2.1.2>`. */
  lemma ExampleNumpyDebug()
    ensures DebugText(FromNameAndVersion("numpy", "2.1.2").value) == "<Package: numpy-2.1.2>"
  {
    ExampleNumpyDisplay();
  }
}
