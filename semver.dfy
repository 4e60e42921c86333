/**
 * The semantic-version value the resolver computes with: coreos/go-semver's
 * `Version` (major, minor, patch and a pre-release label), its `Compare`
 * ordering, its `BumpMinor`/`BumpPatch` increments and its `String` rendering.
 */
module SemVer {
  import opened Text
  import opened Order

  /**
   * A version `major.minor.patch[-preRelease]`. An empty `preRelease` means the
   * version has no pre-release label, as with go-semver's `PreRelease("")`.
   */
  datatype Version = Version(major: nat, minor: nat, patch: nat, preRelease: string)
  {
    /** The label, if any, is a dot-separated list of identifiers (go-semver's `validateIdentifier`). */
    predicate Valid()
    {
      preRelease == "" || IsIdentifierList(preRelease)
    }

    /** go-semver's `BumpMinor`: the next minor release of this major version. */
    function BumpMinor(): (r: Version)
      ensures r.major == major && r.minor == minor + 1 && r.patch == 0 && r.preRelease == ""
      ensures Less(this, r) && r.Valid()
    {
      Version(major, minor + 1, 0, "")
    }

    /** go-semver's `BumpPatch`: the next patch release of this major.minor. */
    function BumpPatch(): (r: Version)
      ensures r.major == major && r.minor == minor && r.patch == patch + 1 && r.preRelease == ""
      ensures Less(this, r) && r.Valid()
    {
      Version(major, minor, patch + 1, "")
    }

    /** go-semver's `String`: `major.minor.patch`, then `-label` when there is a label. */
    function ToString(): string
    {
      NatToString(major) + "." + NatToString(minor) + "." + NatToString(patch) + Suffix(preRelease)
    }
  }

  /** How a pre-release label is appended to the numbers: nothing, or `-` and the label. */
  function Suffix(pre: string): string
  {
    if pre == "" then "" else "-" + pre
  }

  /** `semver.Version{}`, the version 0.0.0. */
  const Zero := Version(0, 0, 0, "")

  predicate IsIdentifierChar(c: char)
  {
    IsDigit(c) || ('A' <= c <= 'Z') || ('a' <= c <= 'z') || c == '-'
  }

  predicate IsIdentifier(id: string)
  {
    |id| > 0 && forall k :: 0 <= k < |id| ==> IsIdentifierChar(id[k])
  }

  /** Matches `^[0-9A-Za-z-]+(\.[0-9A-Za-z-]+)*$`. */
  predicate IsIdentifierList(s: string)
  {
    var ids := Split(s, '.');
    forall i :: 0 <= i < |ids| ==> IsIdentifier(ids[i])
  }

  function CompareNat(a: nat, b: nat): int
  {
    if a < b then -1 else if a > b then 1 else 0
  }

  function CompareChar(a: char, b: char): int
  {
    if a < b then -1 else if a > b then 1 else 0
  }

  /**
   * Go's `<` and `>` on strings. Go compares UTF-8 bytes; UTF-8 preserves the
   * order of code points, so comparing characters gives the same answer.
   */
  function CompareStrings(a: string, b: string): int
  {
    Lex(a, b, CompareChar)
  }

  /**
   * One pre-release identifier against another: an identifier `strconv.Atoi`
   * accepts ranks below one it rejects; two numeric identifiers are ordered by
   * value, and everything still tied is ordered as strings.
   */
  function CompareIdentifier(a: string, b: string): int
  {
    var x, y := Atoi(a), Atoi(b);
    if x.Some? && y.None? then -1
    else if x.None? && y.Some? then 1
    else if x.Some? && y.Some? && x.value != y.value then (if x.value < y.value then -1 else 1)
    else CompareStrings(a, b)
  }

  /**
   * go-semver's `preReleaseCompare`: a version without a label ranks above one
   * with a label; two labels compare identifier by identifier, and a label
   * that is a proper prefix of another ranks below it.
   */
  function ComparePreRelease(a: string, b: string): int
  {
    if a == "" && b != "" then 1
    else if b == "" && a != "" then -1
    else Lex(Split(a, '.'), Split(b, '.'), CompareIdentifier)
  }

  /** go-semver's `Compare`: major, minor and patch numerically, then the pre-release labels. */
  function Compare(v: Version, w: Version): int
  {
    if v.major != w.major then CompareNat(v.major, w.major)
    else if v.minor != w.minor then CompareNat(v.minor, w.minor)
    else if v.patch != w.patch then CompareNat(v.patch, w.patch)
    else ComparePreRelease(v.preRelease, w.preRelease)
  }

  /** go-semver's `LessThan`, the order `semver.Sort` sorts by. */
  predicate Less(v: Version, w: Version)
  {
    Compare(v, w) < 0
  }

  lemma CompareStringsIsTotalOrder()
    ensures IsTotalOrder(CompareStrings)
  {
    assert IsTotalOrder(CompareChar);
    forall x: string, y: string
      ensures -1 <= CompareStrings(x, y) <= 1
      ensures CompareStrings(x, y) == -CompareStrings(y, x)
      ensures CompareStrings(x, y) == 0 ==> x == y
    {
      LexRange(x, y, CompareChar);
      LexAntisymmetric(x, y, CompareChar);
      LexZeroIsEqual(x, y, CompareChar);
    }
    forall x: string, y: string, z: string | CompareStrings(x, y) < 0 && CompareStrings(y, z) < 0
      ensures CompareStrings(x, z) < 0
    {
      LexTransitive(x, y, z, CompareChar);
    }
  }

  lemma CompareIdentifierIsTotalOrder()
    ensures IsTotalOrder(CompareIdentifier)
  {
    CompareStringsIsTotalOrder();
    forall x: string, y: string, z: string | CompareIdentifier(x, y) < 0 && CompareIdentifier(y, z) < 0
      ensures CompareIdentifier(x, z) < 0
    {
      assert CompareStrings(x, y) < 0 && CompareStrings(y, z) < 0 ==> CompareStrings(x, z) < 0;
    }
  }

  lemma ComparePreReleaseIsTotalOrder()
    ensures IsTotalOrder(ComparePreRelease)
  {
    CompareIdentifierIsTotalOrder();
    forall x: string, y: string
      ensures -1 <= ComparePreRelease(x, y) <= 1
      ensures ComparePreRelease(x, y) == -ComparePreRelease(y, x)
      ensures ComparePreRelease(x, y) == 0 ==> x == y
    {
      var xs, ys := Split(x, '.'), Split(y, '.');
      LexRange(xs, ys, CompareIdentifier);
      LexAntisymmetric(xs, ys, CompareIdentifier);
      LexZeroIsEqual(xs, ys, CompareIdentifier);
    }
    forall x: string, y: string, z: string | ComparePreRelease(x, y) < 0 && ComparePreRelease(y, z) < 0
      ensures ComparePreRelease(x, z) < 0
    {
      if x != "" && y != "" && z != "" {
        LexTransitive(Split(x, '.'), Split(y, '.'), Split(z, '.'), CompareIdentifier);
      }
    }
  }

  /** go-semver's `Compare` is a total order in which only equal versions compare equal. */
  lemma CompareIsTotalOrder()
    ensures IsTotalOrder(Compare)
  {
    ComparePreReleaseIsTotalOrder();
  }

  lemma CompareAntisymmetric(v: Version, w: Version)
    ensures Compare(v, w) == -Compare(w, v)
    ensures Compare(v, w) == 0 <==> v == w
  {
    CompareIsTotalOrder();
  }

  lemma CompareTransitive(u: Version, v: Version, w: Version)
    ensures Compare(u, v) <= 0 && Compare(v, w) <= 0 ==> Compare(u, w) <= 0
    ensures Compare(u, v) <= 0 && Compare(v, w) < 0 ==> Compare(u, w) < 0
    ensures Compare(u, v) < 0 && Compare(v, w) <= 0 ==> Compare(u, w) < 0
  {
    CompareIsTotalOrder();
  }

  /** A pre-release ranks below the release with the same numbers (section 11 of Semantic Versioning 2.0.0). */
  lemma PreReleaseRanksBelowRelease(major: nat, minor: nat, patch: nat, pre: string)
    requires pre != ""
    ensures Less(Version(major, minor, patch, pre), Version(major, minor, patch, ""))
  {
  }

  /** Two releases (no labels) are ordered by major, then minor, then patch number. */
  lemma ReleasesCompareByNumbers(v: Version, w: Version)
    requires v.preRelease == "" && w.preRelease == ""
    ensures Compare(v, w) <= 0 <==>
      || v.major < w.major
      || (v.major == w.major && v.minor < w.minor)
      || (v.major == w.major && v.minor == w.minor && v.patch <= w.patch)
  {
    CompareAntisymmetric(v, w);
  }

  /** The greatest version of a non-empty sequence; the later one wins a tie (there are none). */
  function Max(vs: seq<Version>): (m: Version)
    requires |vs| > 0
    ensures m in vs
  {
    if |vs| == 1 then vs[0]
    else
      var m := Max(vs[..|vs| - 1]);
      if Less(m, vs[|vs| - 1]) then vs[|vs| - 1] else m
  }

  lemma {:induction false} MaxIsGreatest(vs: seq<Version>)
    requires |vs| > 0
    ensures forall v :: v in vs ==> Compare(v, Max(vs)) <= 0
  {
    if |vs| > 1 {
      var init, last := vs[..|vs| - 1], vs[|vs| - 1];
      MaxIsGreatest(init);
      var m := Max(init);
      assert vs == init + [last];
      CompareAntisymmetric(m, last);
      CompareAntisymmetric(m, m);
      CompareAntisymmetric(last, last);
      assert Compare(m, Max(vs)) <= 0 && Compare(last, Max(vs)) <= 0;
      forall v | v in vs ensures Compare(v, Max(vs)) <= 0 {
        if v in init {
          CompareTransitive(v, m, Max(vs));
        }
      }
    } else {
      CompareAntisymmetric(vs[0], vs[0]);
    }
  }

  /** A version of `vs` that no other version of `vs` ranks above is `Max(vs)`. */
  lemma MaxIsUnique(vs: seq<Version>, m: Version)
    requires m in vs
    requires forall v :: v in vs ==> Compare(v, m) <= 0
    ensures Max(vs) == m
  {
    MaxIsGreatest(vs);
    CompareAntisymmetric(m, Max(vs));
  }

  /** The order `semver.Sort` leaves its argument in. */
  ghost predicate SortedAscending(vs: seq<Version>)
  {
    forall i, j :: 0 <= i < j < |vs| ==> Compare(vs[i], vs[j]) <= 0
  }

  /** In ascending order, no element ranks above the last one. */
  lemma SortedLastIsGreatest(sorted: seq<Version>, k: nat)
    requires SortedAscending(sorted) && k < |sorted|
    ensures Compare(sorted[k], sorted[|sorted| - 1]) <= 0
  {
    if k == |sorted| - 1 {
      CompareAntisymmetric(sorted[k], sorted[k]);
    }
  }

  /**
   * Whatever permutation a sort produces, its last element is `Max` of the
   * input: the latest version does not depend on the order the tags came in.
   */
  lemma SortedLastIsMax(vs: seq<Version>, sorted: seq<Version>)
    requires |vs| > 0
    requires multiset(sorted) == multiset(vs) && SortedAscending(sorted)
    ensures |sorted| == |vs| && sorted[|sorted| - 1] == Max(vs)
  {
    assert |sorted| == |vs| by {
      assert |multiset(sorted)| == |multiset(vs)|;
    }
    var last := sorted[|sorted| - 1];
    assert last in vs by {
      assert last in multiset(sorted);
    }
    forall v | v in vs
      ensures Compare(v, last) <= 0
    {
      assert v in multiset(sorted);
      var k :| 0 <= k < |sorted| && sorted[k] == v;
      SortedLastIsGreatest(sorted, k);
    }
    MaxIsUnique(vs, last);
  }
}
