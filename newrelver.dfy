/**
 * The version resolution of newrelver.go: find the base version (explicit, or
 * from a manifest), reconcile it with the release tags, and increment.
 *
 * The project directory is a map from file name to contents, the tag source's
 * answer is a `Result` (the tags, or the error `ListTags` returned), and the
 * regular-expression and JSON/XML libraries are the `Decoders` of module
 * Manifest.
 */
module Resolver {
  import opened Wrappers
  import opened Text
  import opened SemVer
  import opened Manifest

  datatype Error =
    | InvalidVersion(text: string)  // a version string neither library accepts
    | TagListing(reason: string)    // whatever the tag source reported

  /** The release version configuration (the directory is the `files` map; debug output is left out). */
  datatype NewRelVer = NewRelVer(baseVersion: string, sameRelease: bool, minor: bool)

  /** The two results of `GetLatestVersion`: the latest tag, if it is used, and the base version. */
  datatype LatestAndBase = LatestAndBase(latest: Option<Version>, base: Version)

  /** True when both versions belong to the same major.minor release line. */
  predicate MajorMinorEqual(v1: Version, v2: Version)
  {
    v1.major == v2.major && v1.minor == v2.minor
  }

  function Component(numbers: seq<string>, i: nat): nat
    requires forall k :: 0 <= k < |numbers| ==> IsDigits(numbers[k])
  {
    if i < |numbers| then (assert IsDigits(numbers[i]); DigitsValue(numbers[i])) else 0
  }

  /**
   * The grammar after the optional `v`: one to three dot-separated decimal
   * numbers (missing ones are 0), then optionally `-` and a dot-separated list
   * of identifiers.
   */
  function ParseVersion(body: string): (r: Option<Version>)
    ensures r.Some? ==> r.value.Valid()
  {
    var dash := IndexOf(body, '-');
    var numbers := Split(body[..dash], '.');
    var pre := if dash < |body| then body[dash + 1..] else "";
    if |numbers| > 3 || !(forall k :: 0 <= k < |numbers| ==> IsDigits(numbers[k])) then
      None
    else if dash < |body| && !IsIdentifierList(pre) then
      None
    else
      Some(Version(Component(numbers, 0), Component(numbers, 1), Component(numbers, 2), pre))
  }

  /**
   * `NewSemVer`: the lenient parse of hashicorp/go-version followed by the
   * strict one of coreos/go-semver, approximated by `ParseVersion` after an
   * optional leading `v`. A string that does not parse is an error naming it.
   */
  function NewSemVer(s: string): (r: Result<Version, Error>)
    ensures r.Ok? ==> r.value.Valid()
    ensures r.Err? ==> r.error == InvalidVersion(s)
  {
    var body := if |s| > 0 && s[0] == 'v' then s[1..] else s;
    match ParseVersion(body)
    case None => Err(InvalidVersion(s))
    case Some(v) => Ok(v)
  }

  lemma IndexOfAt(x: string, y: string, c: char)
    requires c !in x
    requires y == [] || y[0] == c
    ensures IndexOf(x + y, c) == |x|
  {
    var s := x + y;
    assert forall k :: 0 <= k < |x| ==> s[k] == x[k] && s[k] != c;
    if y != [] {
      assert s[|x|] == c;
    }
  }

  /** Reduces `ParseVersion` on `core + Suffix(pre)` with a valid label to the numbers of `core`. */
  lemma ParseVersionSplits(core: string, pre: string)
    requires '-' !in core
    requires pre == "" || IsIdentifierList(pre)
    requires |Split(core, '.')| <= 3
    requires forall k :: 0 <= k < |Split(core, '.')| ==> IsDigits(Split(core, '.')[k])
    ensures var numbers := Split(core, '.');
      ParseVersion(core + Suffix(pre))
      == Some(Version(Component(numbers, 0), Component(numbers, 1), Component(numbers, 2), pre))
  {
    var s := core + Suffix(pre);
    IndexOfAt(core, Suffix(pre), '-');
    assert s[..|core|] == core;
    if pre != "" {
      assert s[|core| + 1..] == pre;
    }
  }

  lemma DigitsHaveNoSeparator(s: string)
    requires IsDigits(s)
    ensures '.' !in s && '-' !in s && s[0] != 'v'
  {
    assert forall k :: 0 <= k < |s| ==> IsDigit(s[k]) && s[k] != '.' && s[k] != '-';
  }

  /** The numbers of a rendered version split back into the three digit strings. */
  lemma SplitNumbers(a: string, b: string, c: string)
    requires IsDigits(a) && IsDigits(b) && IsDigits(c)
    ensures Split(a + "." + b + "." + c, '.') == [a, b, c]
    ensures '-' !in a + "." + b + "." + c
  {
    DigitsHaveNoSeparator(a);
    DigitsHaveNoSeparator(b);
    DigitsHaveNoSeparator(c);
    var bc := b + ['.'] + c;
    SplitWithoutSeparator(c, '.');
    SplitFirst(b, '.', c);
    SplitFirst(a, '.', bc);
    JoinThree(a, b, c, '.');
  }

  /** Parsing the rendering of a valid version gives it back, with or without a leading `v`. */
  lemma {:induction false} NewSemVerOfString(v: Version)
    requires v.Valid()
    ensures NewSemVer(v.ToString()) == Ok(v)
    ensures NewSemVer("v" + v.ToString()) == Ok(v)
  {
    var a, b, c := NatToString(v.major), NatToString(v.minor), NatToString(v.patch);
    var core := a + "." + b + "." + c;
    SplitNumbers(a, b, c);
    ParseVersionSplits(core, v.preRelease);
    var s := v.ToString();
    assert s == core + Suffix(v.preRelease);
    DigitsHaveNoSeparator(a);
    assert s[0] == a[0];
    assert ("v" + s)[1..] == s;
  }

  /** A missing minor or patch number reads as 0, and the label is kept: "1.0-SNAPSHOT" is 1.0.0-SNAPSHOT. */
  lemma {:induction false} NewSemVerFillsDefaults(major: nat, minor: nat, pre: string)
    requires pre == "" || IsIdentifierList(pre)
    ensures NewSemVer(NatToString(major) + Suffix(pre)) == Ok(Version(major, 0, 0, pre))
    ensures NewSemVer(NatToString(major) + "." + NatToString(minor) + Suffix(pre))
            == Ok(Version(major, minor, 0, pre))
  {
    var a, b := NatToString(major), NatToString(minor);
    DigitsHaveNoSeparator(a);
    DigitsHaveNoSeparator(b);
    SplitWithoutSeparator(a, '.');
    ParseVersionSplits(a, pre);
    assert (a + Suffix(pre))[0] == a[0];
    var ab := a + "." + b;
    SplitWithoutSeparator(b, '.');
    SplitFirst(a, '.', b);
    assert ab == a + ['.'] + b;
    assert Split(ab, '.') == [a, b];
    assert '-' !in ab;
    ParseVersionSplits(ab, pre);
    assert (ab + Suffix(pre))[0] == a[0];
  }

  /** `ParseVersion` refuses a string with more than three numbers before its label. */
  lemma ParseVersionRejectsLongCore(core: string, pre: string)
    requires '-' !in core
    requires |Split(core, '.')| > 3
    ensures ParseVersion(core + Suffix(pre)).None?
  {
    var full := core + Suffix(pre);
    IndexOfAt(core, Suffix(pre), '-');
    assert full[..|core|] == core;
  }

  /** More than three numbers are refused, with or without a leading `v` and whatever the label. */
  lemma TooManyNumbers(core: string, pre: string)
    requires core != [] && core[0] != 'v' && '-' !in core
    requires |Split(core, '.')| > 3
    ensures NewSemVer(core + Suffix(pre)) == Err(InvalidVersion(core + Suffix(pre)))
    ensures NewSemVer("v" + core + Suffix(pre)) == Err(InvalidVersion("v" + core + Suffix(pre)))
  {
    ParseVersionRejectsLongCore(core, pre);
    ConsConcat('v', core, Suffix(pre));
    NewSemVerRejects(core + Suffix(pre), core + Suffix(pre));
    NewSemVerRejects("v" + core + Suffix(pre), core + Suffix(pre));
  }

  /** When the text after the optional `v` does not parse, `NewSemVer` reports the whole string. */
  lemma NewSemVerRejects(s: string, body: string)
    requires body == if |s| > 0 && s[0] == 'v' then s[1..] else s
    requires ParseVersion(body).None?
    ensures NewSemVer(s) == Err(InvalidVersion(s))
  {
  }

  /** Four numbers are one too many: "1.2.3.4" is not a version. */
  lemma FourNumbersAreTooMany(a: string, b: string, c: string, e: string)
    requires IsDigits(a) && IsDigits(b) && IsDigits(c) && IsDigits(e)
    ensures var core := a + "." + b + "." + c + "." + e;
      core != [] && core[0] != 'v' && '-' !in core && |Split(core, '.')| == 4
  {
    var rest := b + "." + c + "." + e;
    var core := a + "." + b + "." + c + "." + e;
    assert core == a + ['.'] + rest;
    SplitNumbers(b, c, e);
    DigitsHaveNoSeparator(a);
    SplitFirst(a, '.', rest);
  }

  /** Every parsed version renders back to a string that parses to it again. */
  lemma NewSemVerNormalizes(s: string)
    requires NewSemVer(s).Ok?
    ensures NewSemVer(NewSemVer(s).value.ToString()) == NewSemVer(s)
  {
    NewSemVerOfString(NewSemVer(s).value);
  }

  /** Sharing a release line is an equivalence that ignores patch numbers and labels. */
  lemma MajorMinorEqualIsEquivalence(u: Version, v: Version, w: Version)
    ensures MajorMinorEqual(u, u)
    ensures MajorMinorEqual(u, v) ==> MajorMinorEqual(v, u)
    ensures MajorMinorEqual(u, v) && MajorMinorEqual(v, w) ==> MajorMinorEqual(u, w)
    ensures MajorMinorEqual(u, Version(u.major, u.minor, v.patch, v.preRelease))
  {
  }

  /** A release line is an interval of the version order. */
  lemma MajorMinorEqualIsInterval(u: Version, v: Version, w: Version)
    requires Compare(u, v) <= 0 && Compare(v, w) <= 0
    requires MajorMinorEqual(u, w)
    ensures MajorMinorEqual(u, v) && MajorMinorEqual(v, w)
  {
  }

  // ---------------------------------------------------------------------------
  // GetBaseVersion

  /**
   * What `GetBaseVersion` may return: the parse of an explicit base version;
   * otherwise the parse of what SOME rule whose file exists extracted (which
   * one is up to Go's map iteration order); otherwise 0.0.0.
   */
  ghost predicate BaseVersionOutcome(r: NewRelVer, files: map<string, string>, d: Decoders, res: Result<Version, Error>)
  {
    if r.baseVersion != "" then
      res == NewSemVer(r.baseVersion)
    else if exists name :: TryRule(name, files, d).Some? then
      exists name :: TryRule(name, files, d).Some? && res == NewSemVer(TryRule(name, files, d).value)
    else
      res == Ok(Zero)
  }

  /**
   * `GetBaseVersion`: rules are tried in an arbitrary order; a missing file or
   * a failing extractor moves on to the next rule, and the first extracted
   * string is parsed and returned, even when it does not parse.
   */
  method GetBaseVersion(r: NewRelVer, files: map<string, string>, d: Decoders) returns (res: Result<Version, Error>)
    ensures BaseVersionOutcome(r, files, d, res)
  {
    if r.baseVersion != "" {
      return NewSemVer(r.baseVersion);
    }
    var remaining := VersionFiles.Keys;
    while remaining != {}
      invariant remaining <= VersionFiles.Keys
      invariant forall name :: name in VersionFiles && name !in remaining ==> TryRule(name, files, d).None?
      decreases remaining
    {
      var verFile :| verFile in remaining;
      if verFile in files {
        var found := Extract(VersionFiles[verFile], files[verFile], d);
        if found.Some? {
          assert TryRule(verFile, files, d) == found;
          return NewSemVer(found.value);
        }
      }
      remaining := remaining - {verFile};
    }
    return Ok(Zero);
  }

  /** An explicit base version decides alone: neither the project's files nor the decoders matter. */
  lemma ExplicitBaseIgnoresManifests(r: NewRelVer, files1: map<string, string>, d1: Decoders,
                                     files2: map<string, string>, d2: Decoders, res: Result<Version, Error>)
    requires r.baseVersion != ""
    ensures BaseVersionOutcome(r, files1, d1, res) <==> BaseVersionOutcome(r, files2, d2, res)
    ensures BaseVersionOutcome(r, files1, d1, res) <==> res == NewSemVer(r.baseVersion)
  {
  }

  /** With no manifest that yields a version, the base version is 0.0.0 and there is no error. */
  lemma NoManifestMeansZero(r: NewRelVer, files: map<string, string>, d: Decoders)
    requires r.baseVersion == ""
    requires forall name :: name in VersionFiles && name in files ==> Extract(VersionFiles[name], files[name], d).None?
    ensures forall res :: BaseVersionOutcome(r, files, d, res) <==> res == Ok(Zero)
  {
    forall name ensures TryRule(name, files, d).None? {
    }
  }

  /** When exactly one manifest yields a version, the base version is the parse of that version. */
  lemma OneManifestDecides(r: NewRelVer, files: map<string, string>, d: Decoders, name: string)
    requires r.baseVersion == ""
    requires TryRule(name, files, d).Some?
    requires forall other :: TryRule(other, files, d).Some? ==> other == name
    ensures forall res :: BaseVersionOutcome(r, files, d, res) <==> res == NewSemVer(TryRule(name, files, d).value)
  {
  }

  /**
   * When every manifest that yields a version yields the same string (in
   * particular, when only one does), the base version is determined.
   */
  lemma BaseVersionDeterminedByOneManifest(r: NewRelVer, files: map<string, string>, d: Decoders,
                                           res1: Result<Version, Error>, res2: Result<Version, Error>)
    requires forall n1, n2 :: TryRule(n1, files, d).Some? && TryRule(n2, files, d).Some? ==>
               TryRule(n1, files, d) == TryRule(n2, files, d)
    requires BaseVersionOutcome(r, files, d, res1) && BaseVersionOutcome(r, files, d, res2)
    ensures res1 == res2
  {
  }

  // ---------------------------------------------------------------------------
  // GetLatestVersion

  /**
   * The versions `GetLatestVersion` collects, in tag order: each tag that
   * parses and, with `sameRelease`, shares major.minor with the base.
   */
  function Surviving(tags: seq<string>, base: Version, sameRelease: bool): (vs: seq<Version>)
    ensures |vs| <= |tags|
  {
    if tags == [] then []
    else
      var rest := Surviving(tags[..|tags| - 1], base, sameRelease);
      var parsed := NewSemVer(tags[|tags| - 1]);
      if parsed.Ok? && (!sameRelease || MajorMinorEqual(base, parsed.value)) then
        rest + [parsed.value]
      else
        rest
  }

  /**
   * Every collected version is the parse of one of the tags and, with
   * `sameRelease`, shares major.minor with the base.
   */
  lemma {:induction false} SurvivingIsSound(tags: seq<string>, base: Version, sameRelease: bool)
    ensures forall v :: v in Surviving(tags, base, sameRelease) ==>
      && (exists j :: 0 <= j < |tags| && NewSemVer(tags[j]) == Ok(v))
      && (sameRelease ==> MajorMinorEqual(base, v))
  {
    if tags != [] {
      var init, last := tags[..|tags| - 1], |tags| - 1;
      SurvivingIsSound(init, base, sameRelease);
      var rest, parsed := Surviving(init, base, sameRelease), NewSemVer(tags[last]);
      var keep := parsed.Ok? && (!sameRelease || MajorMinorEqual(base, parsed.value));
      assert Surviving(tags, base, sameRelease) == if keep then rest + [parsed.value] else rest;
      forall v | v in Surviving(tags, base, sameRelease)
        ensures exists j :: 0 <= j < |tags| && NewSemVer(tags[j]) == Ok(v)
        ensures sameRelease ==> MajorMinorEqual(base, v)
      {
        if v in rest {
          var j :| 0 <= j < |init| && NewSemVer(init[j]) == Ok(v);
          assert init[j] == tags[j];
        } else {
          assert NewSemVer(tags[last]) == Ok(v);
        }
      }
    }
  }

  /** Conversely, every tag that parses and passes the same-release filter is collected. */
  lemma {:induction false} SurvivingIsComplete(tags: seq<string>, base: Version, sameRelease: bool, j: nat)
    requires j < |tags| && NewSemVer(tags[j]).Ok?
    requires !sameRelease || MajorMinorEqual(base, NewSemVer(tags[j]).value)
    ensures NewSemVer(tags[j]).value in Surviving(tags, base, sameRelease)
  {
    if j < |tags| - 1 {
      SurvivingIsComplete(tags[..|tags| - 1], base, sameRelease, j);
    }
  }

  /** The latest version `GetLatestVersion` reports, given the base version. */
  function LatestVersion(tags: seq<string>, base: Version, sameRelease: bool): (latest: Option<Version>)
    ensures |tags| == 0 || |Surviving(tags, base, sameRelease)| == 0 ==> latest.None?
    ensures latest.Some? ==> latest.value in Surviving(tags, base, sameRelease) && Compare(base, latest.value) <= 0
  {
    var versions := Surviving(tags, base, sameRelease);
    if |tags| == 0 || |versions| == 0 then None
    else if Compare(base, Max(versions)) > 0 then None
    else Some(Max(versions))
  }

  /**
   * There is no latest version exactly when the base version compares greater
   * than every collected tag (vacuously so when there is none). Otherwise the
   * latest version is the parse of one of the tags, no collected tag ranks
   * above it, the base does not rank above it, and with `sameRelease` it is
   * on the base's release line.
   */
  lemma LatestVersionIsGreatestTag(tags: seq<string>, base: Version, sameRelease: bool)
    ensures var vs, latest := Surviving(tags, base, sameRelease), LatestVersion(tags, base, sameRelease);
      && (latest.None? <==> forall v :: v in vs ==> Compare(base, v) > 0)
      && (latest.Some? ==>
            && latest.value in vs
            && (exists j :: 0 <= j < |tags| && NewSemVer(tags[j]) == Ok(latest.value))
            && (forall v :: v in vs ==> Compare(v, latest.value) <= 0)
            && Compare(base, latest.value) <= 0
            && (sameRelease ==> MajorMinorEqual(base, latest.value)))
  {
    var vs := Surviving(tags, base, sameRelease);
    SurvivingIsSound(tags, base, sameRelease);
    if |vs| > 0 {
      var m := Max(vs);
      MaxIsGreatest(vs);
      if Compare(base, m) > 0 {
        forall v | v in vs ensures Compare(base, v) > 0 {
          CompareAntisymmetric(base, m);
          CompareAntisymmetric(base, v);
          CompareTransitive(v, m, base);
        }
      }
      var i :| 0 <= i < |vs| && vs[i] == m;
    }
  }

  /**
   * A collected version that ranks at least as high as every other collected
   * version and as the base version is the latest version.
   */
  lemma LatestVersionIs(tags: seq<string>, base: Version, sameRelease: bool, m: Version)
    requires m in Surviving(tags, base, sameRelease)
    requires forall v :: v in Surviving(tags, base, sameRelease) ==> Compare(v, m) <= 0
    requires Compare(base, m) <= 0
    ensures LatestVersion(tags, base, sameRelease) == Some(m)
  {
    MaxIsUnique(Surviving(tags, base, sameRelease), m);
  }

  /** `semver.Sort(versions)` followed by `versions[len(versions)-1]`. */
  method SortAndTakeLast(versions: seq<Version>) returns (latest: Version)
    requires |versions| > 0
    ensures latest == Max(versions)
    ensures latest in versions && forall v :: v in versions ==> Compare(v, latest) <= 0
  {
    latest := versions[0];
    for i := 1 to |versions|
      invariant latest == Max(versions[..i])
    {
      assert versions[..i + 1][..i] == versions[..i];
      if Less(latest, versions[i]) {
        latest := versions[i];
      }
    }
    assert versions[..|versions|] == versions;
    MaxIsGreatest(versions);
  }

  /**
   * The loop of `GetLatestVersion` over the tags: keeps, in order, each tag
   * that parses and, with `sameRelease`, shares major.minor with the base.
   */
  method CollectVersions(tags: seq<string>, base: Version, sameRelease: bool) returns (versions: seq<Version>)
    ensures versions == Surviving(tags, base, sameRelease)
  {
    versions := [];
    for i := 0 to |tags|
      invariant versions == Surviving(tags[..i], base, sameRelease)
    {
      assert tags[..i + 1][..i] == tags[..i];
      var v := NewSemVer(tags[i]);
      if v.Ok? {
        if sameRelease && !MajorMinorEqual(base, v.value) {
          continue;
        }
        versions := versions + [v.value];
      }
    }
    assert tags[..|tags|] == tags;
  }

  /**
   * What `GetLatestVersion` may return: errors of the base version and of the
   * tag source are passed on (the base version's first); otherwise the latest
   * version is `LatestVersion` of the tags for the base version this run found.
   */
  ghost predicate LatestVersionOutcome(r: NewRelVer, files: map<string, string>, d: Decoders,
                                       listTags: Result<seq<string>, Error>, res: Result<LatestAndBase, Error>)
  {
    && (listTags.Err? ==> res.Err?)
    && (res.Ok? ==>
          && listTags.Ok?
          && BaseVersionOutcome(r, files, d, Ok(res.value.base))
          && res.value.latest == LatestVersion(listTags.value, res.value.base, r.sameRelease))
    && (res.Err? ==>
          || BaseVersionOutcome(r, files, d, Err(res.error))
          || (listTags.Err? && res.error == listTags.error && exists b :: BaseVersionOutcome(r, files, d, Ok(b))))
  }

  /** `GetLatestVersion`: the base version, then the tags, then the greatest surviving tag. */
  method GetLatestVersion(r: NewRelVer, files: map<string, string>, d: Decoders, listTags: Result<seq<string>, Error>)
    returns (res: Result<LatestAndBase, Error>)
    ensures LatestVersionOutcome(r, files, d, listTags, res)
  {
    var base :- GetBaseVersion(r, files, d);
    var tags :- listTags;
    if |tags| == 0 {
      return Ok(LatestAndBase(None, base));
    }

    var versions := CollectVersions(tags, base, r.sameRelease);
    if |versions| == 0 {
      return Ok(LatestAndBase(None, base));
    }
    var latest := SortAndTakeLast(versions);

    if Compare(base, latest) > 0 {
      return Ok(LatestAndBase(None, base));
    }
    return Ok(LatestAndBase(Some(latest), base));
  }

  // ---------------------------------------------------------------------------
  // GetNewVersion

  /**
   * The increment policy: an unreleased non-zero base version is offered as
   * it is; otherwise the latest version (or the zero base) is bumped.
   */
  function NewVersion(base: Version, latest: Option<Version>, minor: bool): (n: Version)
    ensures latest.Some? ==> Less(latest.value, n) && n.preRelease == "" && n.major == latest.value.major
    ensures latest.None? ==> n == base || (Compare(base, Zero) == 0 && n.preRelease == "")
  {
    if latest.None? && Compare(base, Zero) != 0 then base
    else
      var working := if latest.Some? then latest.value else base;
      if minor then working.BumpMinor() else working.BumpPatch()
  }

  /**
   * The cases of the increment policy: the base as it is, the first release
   * 0.0.1 or 0.1.0, or the latest tag with its minor or patch number raised.
   */
  lemma NewVersionCases(tags: seq<string>, base: Version, sameRelease: bool, minor: bool)
    ensures var latest := LatestVersion(tags, base, sameRelease);
      var n := NewVersion(base, latest, minor);
      && (latest.None? && base != Zero ==> n == base)
      && (latest.None? && base == Zero ==> n == if minor then Version(0, 1, 0, "") else Version(0, 0, 1, ""))
      && (latest.Some? ==>
            && n.major == latest.value.major && n.preRelease == ""
            && (minor ==> n.minor == latest.value.minor + 1 && n.patch == 0)
            && (!minor ==> n.minor == latest.value.minor && n.patch == latest.value.patch + 1))
  {
    CompareAntisymmetric(base, Zero);
  }

  /**
   * The new version ranks above every collected tag and not below the base
   * version: releasing it never goes backwards.
   */
  lemma {:induction false} NewVersionExceedsTags(tags: seq<string>, base: Version, sameRelease: bool, minor: bool)
    ensures var n := NewVersion(base, LatestVersion(tags, base, sameRelease), minor);
      && (forall v :: v in Surviving(tags, base, sameRelease) ==> Less(v, n))
      && Compare(base, n) <= 0
  {
    var vs, latest := Surviving(tags, base, sameRelease), LatestVersion(tags, base, sameRelease);
    var n := NewVersion(base, latest, minor);
    LatestVersionIsGreatestTag(tags, base, sameRelease);
    CompareAntisymmetric(base, Zero);
    CompareAntisymmetric(base, n);
    match latest
    case Some(l) =>
      assert Less(l, n);
      CompareTransitive(base, l, n);
      forall v | v in vs ensures Less(v, n) {
        CompareTransitive(v, l, n);
      }
    case None =>
      if base == Zero {
        assert Less(base, n);
      } else {
        assert n == base;
      }
      forall v | v in vs ensures Less(v, n) {
        CompareAntisymmetric(base, v);
        CompareTransitive(v, base, n);
      }
  }

  /** With `sameRelease` and patch increments, the new version stays on the base's release line. */
  lemma NewVersionStaysInRelease(tags: seq<string>, base: Version)
    ensures MajorMinorEqual(base, NewVersion(base, LatestVersion(tags, base, true), false))
  {
    LatestVersionIsGreatestTag(tags, base, true);
  }

  /**
   * What `GetNewVersion` may return: errors are passed on as
   * `GetLatestVersion` passes them; otherwise the result is `NewVersion` for
   * some base version `GetBaseVersion` may return.
   */
  ghost predicate NewVersionOutcome(r: NewRelVer, files: map<string, string>, d: Decoders,
                                    listTags: Result<seq<string>, Error>, res: Result<Version, Error>)
  {
    && (listTags.Err? ==> res.Err?)
    && (res.Ok? ==>
          && listTags.Ok?
          && exists b :: BaseVersionOutcome(r, files, d, Ok(b))
                         && res.value == NewVersion(b, LatestVersion(listTags.value, b, r.sameRelease), r.minor))
    && (res.Err? ==>
          || BaseVersionOutcome(r, files, d, Err(res.error))
          || (listTags.Err? && res.error == listTags.error && exists b :: BaseVersionOutcome(r, files, d, Ok(b))))
  }

  /**
   * `GetNewVersion`: the latest version bumped, or the base version when no
   * tag is used. The bump works on a copy: in the source it changes the
   * latest-version object, or the base version object itself.
   */
  method GetNewVersion(r: NewRelVer, files: map<string, string>, d: Decoders, listTags: Result<seq<string>, Error>)
    returns (res: Result<Version, Error>)
    ensures NewVersionOutcome(r, files, d, listTags, res)
  {
    var latestAndBase :- GetLatestVersion(r, files, d, listTags);
    var base := latestAndBase.base;
    var newVersion: Version;
    if latestAndBase.latest.None? {
      if Compare(base, Zero) != 0 {
        return Ok(base);
      }
      newVersion := base;
    } else {
      newVersion := latestAndBase.latest.value;
    }

    if r.minor {
      newVersion := newVersion.BumpMinor();
    } else {
      newVersion := newVersion.BumpPatch();
    }
    return Ok(newVersion);
  }

  /**
   * When the project determines the base version, a successful tag listing
   * determines `GetLatestVersion`'s result; a failed one gives its error.
   */
  lemma LatestVersionDeterminedByBase(r: NewRelVer, files: map<string, string>, d: Decoders,
                                      listTags: Result<seq<string>, Error>, base: Version, res: Result<LatestAndBase, Error>)
    requires forall b :: BaseVersionOutcome(r, files, d, b) <==> b == Ok(base)
    requires LatestVersionOutcome(r, files, d, listTags, res)
    ensures listTags.Ok? ==> res == Ok(LatestAndBase(LatestVersion(listTags.value, base, r.sameRelease), base))
    ensures listTags.Err? ==> res == Err(listTags.error)
  {
    if res.Err? {
      assert !BaseVersionOutcome(r, files, d, Err(res.error));
    }
  }

  /**
   * When the project determines the base version, a successful tag listing
   * determines `GetNewVersion`'s result; a failed one gives its error.
   */
  lemma NewVersionDeterminedByBase(r: NewRelVer, files: map<string, string>, d: Decoders,
                                   listTags: Result<seq<string>, Error>, base: Version, res: Result<Version, Error>)
    requires forall b :: BaseVersionOutcome(r, files, d, b) <==> b == Ok(base)
    requires NewVersionOutcome(r, files, d, listTags, res)
    ensures listTags.Ok? ==> res == Ok(NewVersion(base, LatestVersion(listTags.value, base, r.sameRelease), r.minor))
    ensures listTags.Err? ==> res == Err(listTags.error)
  {
    if res.Err? {
      assert !BaseVersionOutcome(r, files, d, Err(res.error));
    } else {
      var b :| BaseVersionOutcome(r, files, d, Ok(b))
               && res.value == NewVersion(b, LatestVersion(listTags.value, b, r.sameRelease), r.minor);
      var found: Result<Version, Error> := Ok(b);
      assert found == Ok(base);
    }
  }

  /**
   * An explicit base version that does not parse aborts both operations with
   * its own error, whatever the tag source answers.
   */
  lemma InvalidBaseIsReported(r: NewRelVer, files: map<string, string>, d: Decoders, listTags: Result<seq<string>, Error>,
                              latest: Result<LatestAndBase, Error>, next: Result<Version, Error>)
    requires r.baseVersion != "" && NewSemVer(r.baseVersion).Err?
    requires LatestVersionOutcome(r, files, d, listTags, latest)
    requires NewVersionOutcome(r, files, d, listTags, next)
    ensures latest == Err(InvalidVersion(r.baseVersion))
    ensures next == Err(InvalidVersion(r.baseVersion))
  {
  }
}
