/**
 * The situations newrelver_test.go checks, stated on the model: a project
 * released up to v99.0.17, with and without a base version, same-release
 * filtering and minor increments, and the parsing of short and labelled
 * version strings. The tag source is given as the tag list; a project with no
 * manifest is the empty file map, for which the decoders are never consulted.
 */
module Scenarios {
  import opened Wrappers
  import opened Text
  import opened SemVer
  import opened Manifest
  import opened Resolver

  /** The tags of the test repository, in the order the tag source lists them. */
  const Tags: seq<string> := [
    "v1.0.0", "v1.0.1", "v1.0.2",
    "v99.0.0", "v99.0.1", "v99.0.10", "v99.0.11", "v99.0.12", "v99.0.13", "v99.0.14",
    "v99.0.15", "v99.0.16", "v99.0.17", "v99.0.2", "v99.0.3", "v99.0.4", "v99.0.5",
    "v99.0.6", "v99.0.7", "v99.0.8", "v99.0.9"
  ]

  /** What each tag of `Tags` parses to, position by position. */
  const TagVersions: seq<Version> := [
    Version(1, 0, 0, ""), Version(1, 0, 1, ""), Version(1, 0, 2, ""),
    Version(99, 0, 0, ""), Version(99, 0, 1, ""), Version(99, 0, 10, ""), Version(99, 0, 11, ""),
    Version(99, 0, 12, ""), Version(99, 0, 13, ""), Version(99, 0, 14, ""), Version(99, 0, 15, ""),
    Version(99, 0, 16, ""), Version(99, 0, 17, ""), Version(99, 0, 2, ""), Version(99, 0, 3, ""),
    Version(99, 0, 4, ""), Version(99, 0, 5, ""), Version(99, 0, 6, ""), Version(99, 0, 7, ""),
    Version(99, 0, 8, ""), Version(99, 0, 9, "")
  ]

  /**
   * Each tag is `v` followed by the rendering of the version at its position.
   * The fact is proved one position at a time, by `Tag0Renders` to
   * `Tag20Renders`: each needs the solver to evaluate one string literal, and
   * proving all 21 in a single context costs far more than the 21 apart.
   */
  lemma TagRenders(j: nat)
    requires j < |Tags|
    ensures |Tags| == |TagVersions| && Tags[j] == "v" + TagVersions[j].ToString()
  {
    if j == 0 {
      Tag0Renders();
    } else if j == 1 {
      Tag1Renders();
    } else if j == 2 {
      Tag2Renders();
    } else if j == 3 {
      Tag3Renders();
    } else if j == 4 {
      Tag4Renders();
    } else if j == 5 {
      Tag5Renders();
    } else if j == 6 {
      Tag6Renders();
    } else if j == 7 {
      Tag7Renders();
    } else if j == 8 {
      Tag8Renders();
    } else if j == 9 {
      Tag9Renders();
    } else if j == 10 {
      Tag10Renders();
    } else if j == 11 {
      Tag11Renders();
    } else if j == 12 {
      Tag12Renders();
    } else if j == 13 {
      Tag13Renders();
    } else if j == 14 {
      Tag14Renders();
    } else if j == 15 {
      Tag15Renders();
    } else if j == 16 {
      Tag16Renders();
    } else if j == 17 {
      Tag17Renders();
    } else if j == 18 {
      Tag18Renders();
    } else if j == 19 {
      Tag19Renders();
    } else {
      Tag20Renders();
    }
  }

  lemma Tag0Renders()
    ensures |Tags| == |TagVersions| == 21 && Tags[0] == "v" + TagVersions[0].ToString()
  {
    assert Tags[0] == "v1.0.0" && TagVersions[0] == Version(1, 0, 0, "");
  }

  lemma Tag1Renders()
    ensures |Tags| == |TagVersions| == 21 && Tags[1] == "v" + TagVersions[1].ToString()
  {
    assert Tags[1] == "v1.0.1" && TagVersions[1] == Version(1, 0, 1, "");
  }

  lemma Tag2Renders()
    ensures |Tags| == |TagVersions| == 21 && Tags[2] == "v" + TagVersions[2].ToString()
  {
    assert Tags[2] == "v1.0.2" && TagVersions[2] == Version(1, 0, 2, "");
  }

  lemma Tag3Renders()
    ensures |Tags| == |TagVersions| == 21 && Tags[3] == "v" + TagVersions[3].ToString()
  {
    assert Tags[3] == "v99.0.0" && TagVersions[3] == Version(99, 0, 0, "");
  }

  lemma Tag4Renders()
    ensures |Tags| == |TagVersions| == 21 && Tags[4] == "v" + TagVersions[4].ToString()
  {
    assert Tags[4] == "v99.0.1" && TagVersions[4] == Version(99, 0, 1, "");
  }

  lemma Tag5Renders()
    ensures |Tags| == |TagVersions| == 21 && Tags[5] == "v" + TagVersions[5].ToString()
  {
    assert Tags[5] == "v99.0.10" && TagVersions[5] == Version(99, 0, 10, "");
  }

  lemma Tag6Renders()
    ensures |Tags| == |TagVersions| == 21 && Tags[6] == "v" + TagVersions[6].ToString()
  {
    assert Tags[6] == "v99.0.11" && TagVersions[6] == Version(99, 0, 11, "");
  }

  lemma Tag7Renders()
    ensures |Tags| == |TagVersions| == 21 && Tags[7] == "v" + TagVersions[7].ToString()
  {
    assert Tags[7] == "v99.0.12" && TagVersions[7] == Version(99, 0, 12, "");
  }

  lemma Tag8Renders()
    ensures |Tags| == |TagVersions| == 21 && Tags[8] == "v" + TagVersions[8].ToString()
  {
    assert Tags[8] == "v99.0.13" && TagVersions[8] == Version(99, 0, 13, "");
  }

  lemma Tag9Renders()
    ensures |Tags| == |TagVersions| == 21 && Tags[9] == "v" + TagVersions[9].ToString()
  {
    assert Tags[9] == "v99.0.14" && TagVersions[9] == Version(99, 0, 14, "");
  }

  lemma Tag10Renders()
    ensures |Tags| == |TagVersions| == 21 && Tags[10] == "v" + TagVersions[10].ToString()
  {
    assert Tags[10] == "v99.0.15" && TagVersions[10] == Version(99, 0, 15, "");
  }

  lemma Tag11Renders()
    ensures |Tags| == |TagVersions| == 21 && Tags[11] == "v" + TagVersions[11].ToString()
  {
    assert Tags[11] == "v99.0.16" && TagVersions[11] == Version(99, 0, 16, "");
  }

  lemma Tag12Renders()
    ensures |Tags| == |TagVersions| == 21 && Tags[12] == "v" + TagVersions[12].ToString()
  {
    assert Tags[12] == "v99.0.17" && TagVersions[12] == Version(99, 0, 17, "");
  }

  lemma Tag13Renders()
    ensures |Tags| == |TagVersions| == 21 && Tags[13] == "v" + TagVersions[13].ToString()
  {
    assert Tags[13] == "v99.0.2" && TagVersions[13] == Version(99, 0, 2, "");
  }

  lemma Tag14Renders()
    ensures |Tags| == |TagVersions| == 21 && Tags[14] == "v" + TagVersions[14].ToString()
  {
    assert Tags[14] == "v99.0.3" && TagVersions[14] == Version(99, 0, 3, "");
  }

  lemma Tag15Renders()
    ensures |Tags| == |TagVersions| == 21 && Tags[15] == "v" + TagVersions[15].ToString()
  {
    assert Tags[15] == "v99.0.4" && TagVersions[15] == Version(99, 0, 4, "");
  }

  lemma Tag16Renders()
    ensures |Tags| == |TagVersions| == 21 && Tags[16] == "v" + TagVersions[16].ToString()
  {
    assert Tags[16] == "v99.0.5" && TagVersions[16] == Version(99, 0, 5, "");
  }

  lemma Tag17Renders()
    ensures |Tags| == |TagVersions| == 21 && Tags[17] == "v" + TagVersions[17].ToString()
  {
    assert Tags[17] == "v99.0.6" && TagVersions[17] == Version(99, 0, 6, "");
  }

  lemma Tag18Renders()
    ensures |Tags| == |TagVersions| == 21 && Tags[18] == "v" + TagVersions[18].ToString()
  {
    assert Tags[18] == "v99.0.7" && TagVersions[18] == Version(99, 0, 7, "");
  }

  lemma Tag19Renders()
    ensures |Tags| == |TagVersions| == 21 && Tags[19] == "v" + TagVersions[19].ToString()
  {
    assert Tags[19] == "v99.0.8" && TagVersions[19] == Version(99, 0, 8, "");
  }

  lemma Tag20Renders()
    ensures |Tags| == |TagVersions| == 21 && Tags[20] == "v" + TagVersions[20].ToString()
  {
    assert Tags[20] == "v99.0.9" && TagVersions[20] == Version(99, 0, 9, "");
  }

  /** `tags[j]` parses to `versions[j]`, position by position. */
  ghost predicate ParsesTo(tags: seq<string>, versions: seq<Version>)
  {
    |tags| == |versions| && forall j :: 0 <= j < |tags| ==> NewSemVer(tags[j]) == Ok(versions[j])
  }

  /**
   * What the scenarios need of the test repository's releases: 1.0.2 and
   * 99.0.17 are among them, none ranks above 99.0.17, and none of release
   * 1.0 ranks above 1.0.2.
   */
  ghost predicate ShapedLikeTestTags(versions: seq<Version>)
  {
    && |versions| > 12
    && versions[2] == Version(1, 0, 2, "") && versions[12] == Version(99, 0, 17, "")
    && (forall j :: 0 <= j < |versions| ==> Compare(versions[j], Version(99, 0, 17, "")) <= 0)
    && (forall j :: 0 <= j < |versions| && MajorMinorEqual(Version(1, 0, 0, ""), versions[j]) ==>
          Compare(versions[j], Version(1, 0, 2, "")) <= 0)
  }

  /** A tag list that parses to releases shaped like the test repository's. */
  ghost predicate LikeTestTags(tags: seq<string>, versions: seq<Version>)
  {
    ParsesTo(tags, versions) && ShapedLikeTestTags(versions)
  }

  /** Every tag of the test repository is a version, the one at the same position of `TagVersions`. */
  lemma TagsParse()
    ensures ParsesTo(Tags, TagVersions)
  {
    forall j | 0 <= j < |Tags| ensures NewSemVer(Tags[j]) == Ok(TagVersions[j]) {
      TagRenders(j);
      NewSemVerOfString(TagVersions[j]);
    }
  }

  /** Every tag is a release of 1.0 up to 1.0.2, or of 99.0 up to 99.0.17. */
  lemma TagVersionsBounds()
    ensures forall j :: 0 <= j < |TagVersions| ==> TagVersions[j].preRelease == "" && TagVersions[j].minor == 0
    ensures forall j :: 0 <= j < |TagVersions| ==> TagVersions[j].major == 1 ==> TagVersions[j].patch <= 2
    ensures forall j :: 0 <= j < |TagVersions| ==> TagVersions[j].major <= 99 && TagVersions[j].patch <= 17
    ensures TagVersions[2] == Version(1, 0, 2, "") && TagVersions[12] == Version(99, 0, 17, "")
  {
  }

  /** No tag of the test repository ranks above 99.0.17; none of release 1.0 above 1.0.2. */
  lemma TagVersionsShape()
    ensures ShapedLikeTestTags(TagVersions)
  {
    TagVersionsBounds();
    forall j | 0 <= j < |TagVersions| ensures Compare(TagVersions[j], Version(99, 0, 17, "")) <= 0 {
      ReleasesCompareByNumbers(TagVersions[j], Version(99, 0, 17, ""));
    }
    forall j | 0 <= j < |TagVersions| && MajorMinorEqual(Version(1, 0, 0, ""), TagVersions[j])
      ensures Compare(TagVersions[j], Version(1, 0, 2, "")) <= 0
    {
      ReleasesCompareByNumbers(TagVersions[j], Version(1, 0, 2, ""));
    }
  }

  /** The test repository's tags are like themselves: every scenario below applies to them. */
  lemma TestTagsAreLikeTestTags()
    ensures LikeTestTags(Tags, TagVersions)
  {
    TagsParse();
    TagVersionsShape();
  }

  /** Of tags like the test repository's, 99.0.17 is the latest, whatever the base. */
  lemma TagsMaximum(tags: seq<string>, versions: seq<Version>, base: Version)
    requires LikeTestTags(tags, versions)
    ensures Version(99, 0, 17, "") in Surviving(tags, base, false)
    ensures forall v :: v in Surviving(tags, base, false) ==> Compare(v, Version(99, 0, 17, "")) <= 0
  {
    SurvivingIsComplete(tags, base, false, 12);
    SurvivingIsSound(tags, base, false);
    forall v | v in Surviving(tags, base, false) ensures Compare(v, Version(99, 0, 17, "")) <= 0 {
      var j :| 0 <= j < |tags| && NewSemVer(tags[j]) == Ok(v);
      assert v == versions[j];
    }
  }

  /** With base 1.0.0 and same-release filtering, 1.0.2 is the latest tag left. */
  lemma TagsMaximumInRelease(tags: seq<string>, versions: seq<Version>)
    requires LikeTestTags(tags, versions)
    ensures Version(1, 0, 2, "") in Surviving(tags, Version(1, 0, 0, ""), true)
    ensures forall v :: v in Surviving(tags, Version(1, 0, 0, ""), true) ==> Compare(v, Version(1, 0, 2, "")) <= 0
  {
    var base := Version(1, 0, 0, "");
    SurvivingIsComplete(tags, base, true, 2);
    SurvivingIsSound(tags, base, true);
    forall v | v in Surviving(tags, base, true) ensures Compare(v, Version(1, 0, 2, "")) <= 0 {
      var j :| 0 <= j < |tags| && NewSemVer(tags[j]) == Ok(v);
      assert v == versions[j];
    }
  }

  /** "1.0" is read as 1.0.0. */
  lemma ShortVersionParses()
    ensures NewSemVer("1.0") == Ok(Version(1, 0, 0, ""))
  {
    assert NatToString(1) + "." + NatToString(0) + Suffix("") == "1.0";
    NewSemVerFillsDefaults(1, 0, "");
  }

  /** "1.0.0" is read as 1.0.0. */
  lemma FullVersionParses()
    ensures NewSemVer("1.0.0") == Ok(Version(1, 0, 0, ""))
  {
    RenderedVersionParses(Version(1, 0, 0, ""), "1.0.0");
  }

  /** 100.0.0 ranks above the latest tag 99.0.17. */
  lemma HundredAboveTags()
    ensures Compare(Version(100, 0, 0, ""), Version(99, 0, 17, "")) > 0
  {
  }

  /** "100.0.0" is read as 100.0.0. */
  lemma HundredParses()
    ensures NewSemVer("100.0.0") == Ok(Version(100, 0, 0, ""))
  {
    RenderedVersionParses(Version(100, 0, 0, ""), "100.0.0");
  }

  /** A string that renders a valid version is read as that version. */
  lemma RenderedVersionParses(v: Version, s: string)
    requires v.Valid() && s == v.ToString()
    ensures NewSemVer(s) == Ok(v)
  {
    NewSemVerOfString(v);
  }

  /** Of tags like the test repository's, 99.0.17 is the latest unless the base ranks above it. */
  lemma LatestOfTestTagsIs(tags: seq<string>, versions: seq<Version>, base: Version)
    requires LikeTestTags(tags, versions)
    ensures Compare(base, Version(99, 0, 17, "")) <= 0 ==> LatestVersion(tags, base, false) == Some(Version(99, 0, 17, ""))
    ensures Compare(base, Version(99, 0, 17, "")) > 0 ==> LatestVersion(tags, base, false) == None
  {
    TagsMaximum(tags, versions, base);
    if Compare(base, Version(99, 0, 17, "")) <= 0 {
      LatestVersionIs(tags, base, false, Version(99, 0, 17, ""));
    } else {
      MaxIsUnique(Surviving(tags, base, false), Version(99, 0, 17, ""));
    }
  }

  /** From the base version 0.0.0, 99.0.17 is the latest of tags like the test repository's. */
  lemma LatestFromZero(tags: seq<string>, versions: seq<Version>)
    requires LikeTestTags(tags, versions)
    ensures LatestVersion(tags, Zero, false) == Some(Version(99, 0, 17, ""))
  {
    assert Compare(Zero, Version(99, 0, 17, "")) < 0;
    LatestOfTestTagsIs(tags, versions, Zero);
  }

  /** Of tags like the test repository's, with base 1.0.0 and same-release filtering, 1.0.2 is the latest. */
  lemma LatestInReleaseIs(tags: seq<string>, versions: seq<Version>)
    requires LikeTestTags(tags, versions)
    ensures LatestVersion(tags, Version(1, 0, 0, ""), true) == Some(Version(1, 0, 2, ""))
  {
    TagsMaximumInRelease(tags, versions);
    ReleasesCompareByNumbers(Version(1, 0, 0, ""), Version(1, 0, 2, ""));
    LatestVersionIs(tags, Version(1, 0, 0, ""), true, Version(1, 0, 2, ""));
  }

  /** The tests' empty project: no manifest, so any decoders give the base version 0.0.0. */
  const NoFiles: map<string, string> := map[]

  /**
   * The scenarios below are stated on the outcome predicates the resolver's
   * methods guarantee, so they hold for whatever result a run produces. They
   * take the tag list as a parameter: `tags` is the test repository's `Tags`
   * (see `TestTagsAreLikeTestTags`) or any list that parses to releases of the
   * same shape. Likewise `baseVersion` is the string the test sets (see
   * `ShortVersionParses`, `FullVersionParses` and `HundredParses`) or any
   * string read as the same version.
   */

  /** The test repository's tags, with no base version: 99.0.17 is the latest, the base is 0.0.0. */
  lemma LatestOfTestTags(tags: seq<string>, versions: seq<Version>, d: Decoders, res: Result<LatestAndBase, Error>)
    requires LikeTestTags(tags, versions)
    requires LatestVersionOutcome(NewRelVer("", false, false), NoFiles, d, Ok(tags), res)
    ensures res == Ok(LatestAndBase(Some(Version(99, 0, 17, "")), Zero))
  {
    NoManifestMeansZero(NewRelVer("", false, false), NoFiles, d);
    LatestVersionDeterminedByBase(NewRelVer("", false, false), NoFiles, d, Ok(tags), Zero, res);
    LatestFromZero(tags, versions);
  }

  /** No tags and no base version: no latest version, base 0.0.0. */
  lemma LatestWithoutTags(d: Decoders, res: Result<LatestAndBase, Error>)
    requires LatestVersionOutcome(NewRelVer("", false, false), NoFiles, d, Ok([]), res)
    ensures res == Ok(LatestAndBase(None, Zero))
  {
    NoManifestMeansZero(NewRelVer("", false, false), NoFiles, d);
  }

  /** No tags and the base version "1.0": no latest version, base 1.0.0. */
  lemma LatestWithoutTagsFromBase(baseVersion: string, d: Decoders, res: Result<LatestAndBase, Error>)
    requires baseVersion != "" && NewSemVer(baseVersion) == Ok(Version(1, 0, 0, ""))
    requires LatestVersionOutcome(NewRelVer(baseVersion, false, false), NoFiles, d, Ok([]), res)
    ensures res == Ok(LatestAndBase(None, Version(1, 0, 0, "")))
  {
  }

  /** The test repository's tags, no base version: 99.0.18, or 99.1.0 with `minor`. */
  lemma NextVersionOfTestTags(tags: seq<string>, versions: seq<Version>, d: Decoders, minor: bool, res: Result<Version, Error>)
    requires LikeTestTags(tags, versions)
    requires NewVersionOutcome(NewRelVer("", false, minor), NoFiles, d, Ok(tags), res)
    ensures res == Ok(if minor then Version(99, 1, 0, "") else Version(99, 0, 18, ""))
  {
    NoManifestMeansZero(NewRelVer("", false, minor), NoFiles, d);
    NewVersionDeterminedByBase(NewRelVer("", false, minor), NoFiles, d, Ok(tags), Zero, res);
    LatestFromZero(tags, versions);
  }

  /** No tags and no base version: the first release, 0.0.1, or 0.1.0 with `minor`. */
  lemma FirstVersion(d: Decoders, minor: bool, res: Result<Version, Error>)
    requires NewVersionOutcome(NewRelVer("", false, minor), NoFiles, d, Ok([]), res)
    ensures res == Ok(if minor then Version(0, 1, 0, "") else Version(0, 0, 1, ""))
  {
    NoManifestMeansZero(NewRelVer("", false, minor), NoFiles, d);
  }

  /** No tags and the base version "1.0": 1.0.0 is offered as it is. */
  lemma UnreleasedBaseVersion(baseVersion: string, d: Decoders, res: Result<Version, Error>)
    requires baseVersion != "" && NewSemVer(baseVersion) == Ok(Version(1, 0, 0, ""))
    requires NewVersionOutcome(NewRelVer(baseVersion, false, false), NoFiles, d, Ok([]), res)
    ensures res == Ok(Version(1, 0, 0, ""))
  {
  }

  /** The base version "100.0.0" ranks above every tag: it is offered as it is, with patch or minor increments. */
  lemma BaseVersionAboveTags(tags: seq<string>, versions: seq<Version>, baseVersion: string, d: Decoders,
                             minor: bool, res: Result<Version, Error>)
    requires LikeTestTags(tags, versions)
    requires baseVersion != "" && NewSemVer(baseVersion) == Ok(Version(100, 0, 0, ""))
    requires NewVersionOutcome(NewRelVer(baseVersion, false, minor), NoFiles, d, Ok(tags), res)
    ensures res == Ok(Version(100, 0, 0, ""))
  {
    HighBaseIsKept(tags, versions, minor);
  }

  /** Above the latest tag, the base version is kept with patch and with minor increments. */
  lemma HighBaseIsKept(tags: seq<string>, versions: seq<Version>, minor: bool)
    requires LikeTestTags(tags, versions)
    ensures NewVersion(Version(100, 0, 0, ""), LatestVersion(tags, Version(100, 0, 0, ""), false), minor)
            == Version(100, 0, 0, "")
  {
    HundredAboveTags();
    LatestOfTestTagsIs(tags, versions, Version(100, 0, 0, ""));
  }

  /** No tags and the base version "100.0.0" with minor increments: 100.0.0 is offered as it is. */
  lemma UnreleasedBaseVersionMinor(baseVersion: string, d: Decoders, res: Result<Version, Error>)
    requires baseVersion != "" && NewSemVer(baseVersion) == Ok(Version(100, 0, 0, ""))
    requires NewVersionOutcome(NewRelVer(baseVersion, false, true), NoFiles, d, Ok([]), res)
    ensures res == Ok(Version(100, 0, 0, ""))
  {
  }

  /** Same-release filtering from base "1.0": 1.0.3 with patch increments. */
  lemma NextVersionInRelease(tags: seq<string>, versions: seq<Version>, baseVersion: string, d: Decoders,
                             res: Result<Version, Error>)
    requires LikeTestTags(tags, versions)
    requires baseVersion != "" && NewSemVer(baseVersion) == Ok(Version(1, 0, 0, ""))
    requires NewVersionOutcome(NewRelVer(baseVersion, true, false), NoFiles, d, Ok(tags), res)
    ensures res == Ok(Version(1, 0, 3, ""))
  {
    LatestInReleaseIs(tags, versions);
  }

  /** Same-release filtering from base "1.0.0": 1.1.0 with minor increments. */
  lemma NextMinorVersionInRelease(tags: seq<string>, versions: seq<Version>, baseVersion: string, d: Decoders,
                                  res: Result<Version, Error>)
    requires LikeTestTags(tags, versions)
    requires baseVersion != "" && NewSemVer(baseVersion) == Ok(Version(1, 0, 0, ""))
    requires NewVersionOutcome(NewRelVer(baseVersion, true, true), NoFiles, d, Ok(tags), res)
    ensures res == Ok(Version(1, 1, 0, ""))
  {
    LatestInReleaseIs(tags, versions);
  }

  /** "SNAPSHOT" is a valid pre-release label. */
  lemma SnapshotIsLabel()
    ensures IsIdentifierList("SNAPSHOT")
  {
    var pre := "SNAPSHOT";
    assert forall k :: 0 <= k < |pre| ==> pre[k] != '.' && IsIdentifierChar(pre[k]);
    SplitWithoutSeparator(pre, '.');
  }

  /** "1.0-SNAPSHOT" is read as 1.0.0-SNAPSHOT. */
  lemma SnapshotParses()
    ensures NewSemVer("1.0-SNAPSHOT") == Ok(Version(1, 0, 0, "SNAPSHOT"))
  {
    SnapshotIsLabel();
    assert NatToString(1) + "." + NatToString(0) + Suffix("SNAPSHOT") == "1.0-SNAPSHOT";
    NewSemVerFillsDefaults(1, 0, "SNAPSHOT");
  }

  /** 1.0.0-SNAPSHOT renders as "1.0.0-SNAPSHOT". */
  lemma SnapshotRenders()
    ensures Version(1, 0, 0, "SNAPSHOT").ToString() == "1.0.0-SNAPSHOT"
  {
  }

  /** "1.2.0" is read as 1.2.0. */
  lemma ParsesOneTwoZero()
    ensures NewSemVer("1.2.0") == Ok(Version(1, 2, 0, ""))
  {
    assert Version(1, 2, 0, "").ToString() == "1.2.0";
    RenderedVersionParses(Version(1, 2, 0, ""), "1.2.0");
  }

  /** "1.2.3" is read as 1.2.3. */
  lemma ParsesOneTwoThree()
    ensures NewSemVer("1.2.3") == Ok(Version(1, 2, 3, ""))
  {
    assert Version(1, 2, 3, "").ToString() == "1.2.3";
    RenderedVersionParses(Version(1, 2, 3, ""), "1.2.3");
  }

  /** "1.3.0" is read as 1.3.0. */
  lemma ParsesOneThreeZero()
    ensures NewSemVer("1.3.0") == Ok(Version(1, 3, 0, ""))
  {
    assert Version(1, 3, 0, "").ToString() == "1.3.0";
    RenderedVersionParses(Version(1, 3, 0, ""), "1.3.0");
  }

  /** "2.0.0" is read as 2.0.0. */
  lemma ParsesTwoZeroZero()
    ensures NewSemVer("2.0.0") == Ok(Version(2, 0, 0, ""))
  {
    assert Version(2, 0, 0, "").ToString() == "2.0.0";
    RenderedVersionParses(Version(2, 0, 0, ""), "2.0.0");
  }

  /** "1.2.0" and "1.2.3" are on the same release line. */
  lemma SameReleaseLine()
    ensures NewSemVer("1.2.0").Ok? && NewSemVer("1.2.3").Ok?
    ensures MajorMinorEqual(NewSemVer("1.2.0").value, NewSemVer("1.2.3").value)
  {
    ParsesOneTwoZero();
    ParsesOneTwoThree();
  }

  /** "1.2.0" and "1.3.0" are on different release lines. */
  lemma DifferentReleaseLines()
    ensures NewSemVer("1.2.0").Ok? && NewSemVer("1.3.0").Ok?
    ensures !MajorMinorEqual(NewSemVer("1.2.0").value, NewSemVer("1.3.0").value)
  {
    ParsesOneTwoZero();
    ParsesOneThreeZero();
  }

  /** Strings that are not versions are refused with an error naming them. */
  lemma NonVersionsFail()
    ensures NewSemVer("") == Err(InvalidVersion(""))
    ensures NewSemVer("v") == Err(InvalidVersion("v"))
    ensures NewSemVer("release") == Err(InvalidVersion("release"))
  {
    assert !IsDigits("release");
  }

  /** A Gradle project whose build.gradle sets the version 1.2.3-SNAPSHOT. */
  const GradleProject: map<string, string> := map["build.gradle" := "version = '1.2.3-SNAPSHOT'\n"]

  /**
   * What the libraries find in that project: the build.gradle expression
   * captures "1.2.3-SNAPSHOT" in the build.gradle contents, and nothing else
   * matches or decodes to a version.
   */
  const GradleDecoders := Decoders(
    (regex, data) =>
      if regex == Sprintf(BuildGradleRegexf, VersionNumberRegex) && data == GradleProject["build.gradle"]
      then Some("1.2.3-SNAPSHOT") else None,
    data => "",
    data => "")

  /** "1.2.3-SNAPSHOT" is read as 1.2.3-SNAPSHOT. */
  lemma GradleVersionParses()
    ensures NewSemVer("1.2.3-SNAPSHOT") == Ok(Version(1, 2, 3, "SNAPSHOT"))
  {
    assert Version(1, 2, 3, "SNAPSHOT").ToString() == "1.2.3-SNAPSHOT";
    SnapshotIsLabel();
    RenderedVersionParses(Version(1, 2, 3, "SNAPSHOT"), "1.2.3-SNAPSHOT");
  }

  /** The version Gradle's regular expression captures has no surrounding spaces to trim. */
  lemma GradleVersionIsTrimmed()
    ensures TrimSpace("1.2.3-SNAPSHOT") == "1.2.3-SNAPSHOT"
  {
    var found := "1.2.3-SNAPSHOT";
    assert !IsSpace(found[0]) && !IsSpace(found[|found| - 1]);
    TrimSpaceOfTrimmed(found);
  }

  /** The rule for build.gradle finds "1.2.3-SNAPSHOT" in the Gradle project. */
  lemma GradleManifest()
    ensures TryRule("build.gradle", GradleProject, GradleDecoders) == Some("1.2.3-SNAPSHOT")
  {
    assert VersionFiles["build.gradle"] == Matcher(BuildGradleRegexf);
    var regex := Sprintf(BuildGradleRegexf, VersionNumberRegex);
    assert GradleDecoders.submatch(regex, GradleProject["build.gradle"]) == Some("1.2.3-SNAPSHOT");
    GradleVersionIsTrimmed();
  }

  /** build.gradle is the only manifest of the Gradle project. */
  lemma GradleManifestIsOnlyOne()
    ensures forall name :: TryRule(name, GradleProject, GradleDecoders).Some? ==> name == "build.gradle"
  {
  }

  /** A project whose only manifest that yields a version is a build.gradle yielding "1.2.3-SNAPSHOT". */
  ghost predicate LikeGradleProject(files: map<string, string>, d: Decoders)
  {
    && TryRule("build.gradle", files, d) == Some("1.2.3-SNAPSHOT")
    && forall name :: TryRule(name, files, d).Some? ==> name == "build.gradle"
  }

  /** The Gradle project is such a project. */
  lemma GradleProjectIsLikeGradleProject()
    ensures LikeGradleProject(GradleProject, GradleDecoders)
  {
    GradleManifest();
    GradleManifestIsOnlyOne();
  }

  /** Such a project has the base version 1.2.3-SNAPSHOT and no other. */
  lemma GradleOutcome(r: NewRelVer, files: map<string, string>, d: Decoders)
    requires r.baseVersion == "" && LikeGradleProject(files, d)
    ensures forall res :: BaseVersionOutcome(r, files, d, res) <==> res == Ok(Version(1, 2, 3, "SNAPSHOT"))
  {
    GradleVersionParses();
    OneManifestDecides(r, files, d, "build.gradle");
  }

  /** The base version of the Gradle project (or any project like it) is 1.2.3-SNAPSHOT. */
  method GradleBaseVersion(files: map<string, string>, d: Decoders) returns (res: Result<Version, Error>)
    requires LikeGradleProject(files, d)
    ensures res == Ok(Version(1, 2, 3, "SNAPSHOT"))
  {
    var r := NewRelVer("", false, false);
    res := GetBaseVersion(r, files, d);
    GradleOutcome(r, files, d);
  }

  /** A project with both a package.json (version 1.2.3) and a pom.xml (version 2.0.0). */
  const MixedProject: map<string, string> := map["package.json" := "{}", "pom.xml" := "<project/>"]

  /** What the JSON and XML decoders read from those two files. */
  const MixedDecoders := Decoders((regex, data) => None, data => "1.2.3", data => "2.0.0")

  /**
   * With two manifests that disagree, either version may become the base
   * version: which one depends on the order the rule table is iterated in.
   */
  lemma MixedProjectIsAmbiguous()
    ensures BaseVersionOutcome(NewRelVer("", false, false), MixedProject, MixedDecoders, Ok(Version(1, 2, 3, "")))
    ensures BaseVersionOutcome(NewRelVer("", false, false), MixedProject, MixedDecoders, Ok(Version(2, 0, 0, "")))
  {
    ParsesOneTwoThree();
    ParsesTwoZeroZero();
    MixedManifests();
  }

  /** The package.json rule finds "1.2.3" and the pom.xml rule "2.0.0". */
  lemma MixedManifests()
    ensures TryRule("package.json", MixedProject, MixedDecoders) == Some("1.2.3")
    ensures TryRule("pom.xml", MixedProject, MixedDecoders) == Some("2.0.0")
  {
  }
}
