/**
 * The manifest rules of newrelver.go: the regular expressions that find a
 * version in a build file, the JSON and XML extractors, and the fixed table
 * from manifest file name to extractor.
 *
 * Regular-expression matching and JSON/XML decoding are library behaviour the
 * model does not reproduce; they are supplied as the total functions of a
 * `Decoders` value, and each extractor states how it turns their answer into
 * success or failure.
 */
module Manifest {
  import opened Wrappers
  import opened Text

  /** Matches a version number: digits and dots, then optionally `-` and a word. */
  const VersionNumberRegex: string := "[\\.\\d]+(-\\w+)?"

  /**
   * A format string whose only verb is one `%s`, held as the text before the
   * verb and the text after it.
   */
  datatype Format = Format(before: string, after: string)
  {
    /** The format string as written, verb included. */
    function Text(): string
    {
      before + "%s" + after
    }
  }

  /** `fmt.Sprintf(f, arg)`: the verb replaced by `arg`. */
  function Sprintf(f: Format, arg: string): (r: string)
    ensures |r| == |f.Text()| - 2 + |arg|
    ensures r[..|f.before|] == f.before && r[|f.before|..|f.before| + |arg|] == arg
    ensures r[|f.before| + |arg|..] == f.after
    ensures r == f.Text()[..|f.before|] + arg + f.Text()[|f.before| + 2..]
  {
    assert f.Text()[..|f.before|] == f.before;
    assert f.Text()[|f.before| + 2..] == f.after;
    f.before + arg + f.after
  }

  const VersionsGradleRegexf := Format("(?m)project\\.version\\s*=\\s*['\"](", ")['\"]$")
  const BuildGradleRegexf := Format("(?m)^version\\s*=\\s*['\"](", ")['\"]$")
  const SetupCfgRegexf := Format("(?m)^version\\s*=\\s*(", ")$")
  const SetupPyRegexf := Format("(?ms)setup\\(.*\\s+version\\s*=\\s*['\"](", ")['\"].*\\)$")
  const CMakeListsTxtRegexf := Format("(?ms)^project\\s*\\(.*\\s+VERSION\\s+(", ").*\\)$")
  const MakefileRegexf := Format("(?m)^VERSION\\s*:=\\s*(", ")$")

  /**
   * The library behaviour the extractors rely on.
   * - `submatch(regex, data)`: the text of capture group 1 of the leftmost
   *   match of `regex` in `data` (Go's `FindSubmatch(...)[1]`), or `None` when
   *   nothing matches.
   * - `jsonVersion(data)` / `xmlVersion(data)`: the `version` field after
   *   `json.Unmarshal` / `xml.Unmarshal` into a struct that has only that
   *   field; `""` when the field is missing or the data does not decode
   *   (the source ignores the decoder's error and keeps the zero value).
   */
  datatype Decoders = Decoders(
    submatch: (string, string) -> Option<string>,
    jsonVersion: string -> string,
    xmlVersion: string -> string)

  /** The extractor a manifest file name is bound to. */
  datatype Rule =
    | Matcher(regexf: Format)  // versionMatcher(regexf, 1)
    | XmlVersion               // unmarshalXMLVersion
    | JsonVersion              // unmarshalJSONVersion

  /** The `versionFiles` table. Go iterates it in no particular order. */
  const VersionFiles: map<string, Rule> := map[
    "versions.gradle" := Matcher(VersionsGradleRegexf),
    "build.gradle" := Matcher(BuildGradleRegexf),
    "build.gradle.kts" := Matcher(BuildGradleRegexf),
    "pom.xml" := XmlVersion,
    "package.json" := JsonVersion,
    "setup.cfg" := Matcher(SetupCfgRegexf),
    "setup.py" := Matcher(SetupPyRegexf),
    "CMakeLists.txt" := Matcher(CMakeListsTxtRegexf),
    "Makefile" := Matcher(MakefileRegexf)
  ]

  /**
   * The table has nine manifests. Only pom.xml and package.json are decoded
   * rather than matched, and the two Gradle build files share one expression.
   */
  lemma VersionFilesRules()
    ensures VersionFiles.Keys == {"versions.gradle", "build.gradle", "build.gradle.kts", "pom.xml", "package.json",
                                  "setup.cfg", "setup.py", "CMakeLists.txt", "Makefile"}
    ensures forall name :: name in VersionFiles && !VersionFiles[name].Matcher? ==> name == "pom.xml" || name == "package.json"
    ensures VersionFiles["pom.xml"] == XmlVersion && VersionFiles["package.json"] == JsonVersion
    ensures VersionFiles["build.gradle"] == VersionFiles["build.gradle.kts"] == Matcher(BuildGradleRegexf)
  {
  }

  /**
   * `matchVersion`: on a match, the trimmed capture group and no error; with no
   * match, an error (the source's accompanying "0.0.0" is never read).
   */
  function MatchVersion(data: string, regex: string, d: Decoders): (r: Option<string>)
    ensures r.None? <==> d.submatch(regex, data).None?
    ensures r.Some? ==> r.value == TrimSpace(d.submatch(regex, data).value)
  {
    match d.submatch(regex, data)
    case None => None
    case Some(group) => Some(TrimSpace(group))
  }

  /** `unmarshalJSONVersion`: fails exactly when the decoded `version` field is empty. */
  function UnmarshalJsonVersion(data: string, d: Decoders): (r: Option<string>)
    ensures r.None? <==> d.jsonVersion(data) == ""
    ensures r.Some? ==> r.value == d.jsonVersion(data) && r.value != ""
  {
    var version := d.jsonVersion(data);
    if version != "" then Some(version) else None
  }

  /** `unmarshalXMLVersion`: fails exactly when the decoded `version` field is empty. */
  function UnmarshalXmlVersion(data: string, d: Decoders): (r: Option<string>)
    ensures r.None? <==> d.xmlVersion(data) == ""
    ensures r.Some? ==> r.value == d.xmlVersion(data) && r.value != ""
  {
    var version := d.xmlVersion(data);
    if version != "" then Some(version) else None
  }

  /**
   * Applies the extractor of a rule to the contents of its file; a matcher
   * first renders its expression with `VersionNumberRegex` (`versionMatcher`).
   */
  function Extract(rule: Rule, data: string, d: Decoders): (r: Option<string>)
    ensures rule.Matcher? ==>
      var regex := Sprintf(rule.regexf, VersionNumberRegex);
      && (r.None? <==> d.submatch(regex, data).None?)
      && (r.Some? ==> r.value == TrimSpace(d.submatch(regex, data).value))
    ensures !rule.Matcher? ==> (r.None? <==> (if rule.XmlVersion? then d.xmlVersion(data) else d.jsonVersion(data)) == "")
    ensures r.Some? && !rule.Matcher? ==> r.value != ""
  {
    match rule
    case Matcher(regexf) => MatchVersion(data, Sprintf(regexf, VersionNumberRegex), d)
    case XmlVersion => UnmarshalXmlVersion(data, d)
    case JsonVersion => UnmarshalJsonVersion(data, d)
  }

  /**
   * One step of the manifest search: the version the rule for `name` extracts
   * from the project directory `files` (file name to contents), or `None` when
   * `name` has no rule, the file is absent, or its extractor fails.
   */
  function TryRule(name: string, files: map<string, string>, d: Decoders): (r: Option<string>)
    ensures r.Some? ==> name in VersionFiles && name in files
    ensures r.Some? && !VersionFiles[name].Matcher? ==> r.value != ""
  {
    if name in VersionFiles && name in files then Extract(VersionFiles[name], files[name], d) else None
  }
}
