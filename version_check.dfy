/**
 * The version-consistency checker (tools/verify-version-consistency.php):
 * the version references are collected key by key into one array, then
 * compared. The parsed package.json, README.md and the PHP files of the
 * plugin directory (path and contents, in listing order) are inputs; PHP's
 * version_compare() is the parameter `less`.
 */
module VersionCheck {
  import opened Wrappers
  import opened Text
  import opened VersionScan

  /** The keys of the script's `$versions` array. */
  datatype Key = PackageJsonKey | StableTagKey | LatestChangelogKey | PluginMetadataKey | VersionConstantKey

  /** The script's `$versions` array: version strings by key. */
  type Versions = map<Key, string>

  const NotUpdated := "Error: Not all version references have been updated."

  function NotPrerelease(plugin: string, stable: string): string {
    "Expected plugin version (" + plugin + ") to match stable tag " + stable
      + " when the plugin version lacks a prerelease tag."
  }

  function NotAhead(plugin: string, stable: string): string {
    "Expected plugin version (" + plugin + ") to be greater than the stable tag " + stable
      + " due to the prerelease tag."
  }

  function LacksPatch(plugin: string): string {
    "Error: Release version (" + plugin + ") lacks patch number. For new point releases, "
      + "supply patch number of 0, such as 0.9.0 instead of 0.9."
  }

  /** What the bootstrap file's two patterns find in it. */
  datatype BootstrapScan = BootstrapScan(pluginVersion: Option<string>, constant: Option<string>)

  /**
   * What each lookup finds: package.json's version, the readme's stable tag
   * and first changelog line, and the bootstrap file, if one declares the
   * plugin.
   */
  datatype Scan = Scan(packageVersion: Option<string>, stableTag: Option<string>,
                       changelogLine: Option<string>, bootstrap: Option<BootstrapScan>)

  function Scanned(manifest: map<string, string>, readme: string, phpFiles: seq<(string, string)>): (r: Scan)
    ensures r.packageVersion.Some? <==> "version" in manifest
    ensures r.bootstrap.None? <==> forall k :: 0 <= k < |phpFiles| ==> !DeclaresPlugin(phpFiles[k].1)
    ensures r.bootstrap.Some? ==>
      exists i :: 0 <= i < |phpFiles| && DeclaresPlugin(phpFiles[i].1) &&
        r.bootstrap.value == BootstrapScan(PluginVersion(phpFiles[i].1), VersionConstant(phpFiles[i].1))
  {
    Scan(if "version" in manifest then Some(manifest["version"]) else None,
         StableTag(readme),
         ChangelogLine(readme),
         match BootstrapFrom(phpFiles, 0)
         case None => None
         case Some(i) => Some(BootstrapScan(PluginVersion(phpFiles[i].1), VersionConstant(phpFiles[i].1))))
  }

  /** The keys filled in before the bootstrap file is read. */
  function ReadmeKeys(entry: ChangelogEntry): set<Key> {
    {PackageJsonKey, StableTagKey} + (if entry.Latest? then {LatestChangelogKey} else {})
  }

  /**
   * The references in the order the script records them, or the message it
   * prints when one is missing: the first lookup that finds nothing decides.
   */
  function Recorded(scan: Scan): (r: Result<Versions, string>)
    ensures scan.packageVersion.None? ==> r == Failure("The 'version' key is missing in package.json")
    ensures r.Success? ==> && scan.packageVersion.Some? && scan.stableTag.Some? && scan.changelogLine.Some?
                           && scan.bootstrap.Some? && scan.bootstrap.value.pluginVersion.Some?
                           && scan.bootstrap.value.constant.Some?
    ensures r.Success? ==> var entry := ClassifyEntry(scan.changelogLine.value);
      && !entry.Unidentified?
      && r.value.Keys == ReadmeKeys(entry) + {PluginMetadataKey, VersionConstantKey}
      && (entry.Latest? ==> r.value[LatestChangelogKey] == entry.version)
    ensures && scan.packageVersion.Some? && scan.stableTag.Some? && scan.changelogLine.Some?
            && !ClassifyEntry(scan.changelogLine.value).Unidentified?
            && scan.bootstrap.Some? && scan.bootstrap.value.pluginVersion.Some?
            && scan.bootstrap.value.constant.Some?
            ==> r.Success?
    ensures r.Success? ==> && r.value[PackageJsonKey] == scan.packageVersion.value
                           && r.value[StableTagKey] == scan.stableTag.value
                           && r.value[PluginMetadataKey] == scan.bootstrap.value.pluginVersion.value
                           && r.value[VersionConstantKey] == scan.bootstrap.value.constant.value
  {
    match scan.packageVersion
    case None => Failure("The 'version' key is missing in package.json")
    case Some(packageVersion) =>
      match scan.stableTag
      case None => Failure("Could not find stable tag in readme.")
      case Some(tag) =>
        match scan.changelogLine
        case None => Failure("Could not find changelog in readme.")
        case Some(line) =>
          var entry := ClassifyEntry(line);
          var readmeVersions := map[PackageJsonKey := packageVersion, StableTagKey := tag];
          var versions := if entry.Latest? then readmeVersions[LatestChangelogKey := entry.version] else readmeVersions;
          if entry.Unidentified? then Failure("Could not identify first item of changelog in readme.")
          else
            match scan.bootstrap
            case None => Failure("Could not locate PHP bootstrap file.")
            case Some(bootstrap) =>
              match bootstrap.pluginVersion
              case None => Failure("Could not find version in readme metadata.")
              case Some(plugin) =>
                match bootstrap.constant
                case None => Failure("Could not find version in PLUGIN_VERSION/VERSION constant.")
                case Some(constant) => Success(versions[PluginMetadataKey := plugin][VersionConstantKey := constant])
  }

  /**
   * A failure names the first lookup that found nothing, in the script's
   * order: stable tag, changelog, its first entry, bootstrap file, plugin
   * header version, VERSION constant (the package.json case is part of
   * Recorded's contract).
   */
  lemma FirstMissingReported(scan: Scan)
    ensures scan.packageVersion.Some? && scan.stableTag.None? ==> Recorded(scan) == Failure("Could not find stable tag in readme.")
    ensures scan.packageVersion.Some? && scan.stableTag.Some? && scan.changelogLine.None?
            ==> Recorded(scan) == Failure("Could not find changelog in readme.")
    ensures scan.packageVersion.Some? && scan.stableTag.Some? && scan.changelogLine.Some?
            && ClassifyEntry(scan.changelogLine.value).Unidentified?
            ==> Recorded(scan) == Failure("Could not identify first item of changelog in readme.")
    ensures scan.packageVersion.Some? && scan.stableTag.Some? && scan.changelogLine.Some?
            && !ClassifyEntry(scan.changelogLine.value).Unidentified? && scan.bootstrap.None?
            ==> Recorded(scan) == Failure("Could not locate PHP bootstrap file.")
    ensures scan.packageVersion.Some? && scan.stableTag.Some? && scan.changelogLine.Some?
            && !ClassifyEntry(scan.changelogLine.value).Unidentified? && scan.bootstrap.Some?
            && scan.bootstrap.value.pluginVersion.None?
            ==> Recorded(scan) == Failure("Could not find version in readme metadata.")
    ensures scan.packageVersion.Some? && scan.stableTag.Some? && scan.changelogLine.Some?
            && !ClassifyEntry(scan.changelogLine.value).Unidentified? && scan.bootstrap.Some?
            && scan.bootstrap.value.pluginVersion.Some? && scan.bootstrap.value.constant.None?
            ==> Recorded(scan) == Failure("Could not find version in PLUGIN_VERSION/VERSION constant.")
  {
  }

  /** Every reference, in the order the script looks for them. */
  function Collected(manifest: map<string, string>, readme: string, phpFiles: seq<(string, string)>): Result<Versions, string> {
    Recorded(Scanned(manifest, readme, phpFiles))
  }

  /** Fills the references in one by one, stopping at the first one missing. */
  method CollectVersions(manifest: map<string, string>, readme: string, phpFiles: seq<(string, string)>)
    returns (r: Result<Versions, string>)
    ensures r == Collected(manifest, readme, phpFiles)
  {
    var versions: Versions := map[];
    if "version" !in manifest {
      return Failure("The 'version' key is missing in package.json");
    }
    versions := versions[PackageJsonKey := manifest["version"]];
    var tag := StableTag(readme);
    if tag.None? {
      return Failure("Could not find stable tag in readme.");
    }
    versions := versions[StableTagKey := tag.value];
    var line := ChangelogLine(readme);
    if line.None? {
      return Failure("Could not find changelog in readme.");
    }
    var entry := ClassifyEntry(line.value);
    if entry.Latest? {
      versions := versions[LatestChangelogKey := entry.version];
    } else if entry.Unidentified? {
      return Failure("Could not identify first item of changelog in readme.");
    }
    var bootstrap := FindBootstrap(phpFiles);
    if bootstrap.None? {
      return Failure("Could not locate PHP bootstrap file.");
    }
    var contents := phpFiles[bootstrap.value].1;
    var plugin := PluginVersion(contents);
    if plugin.None? {
      return Failure("Could not find version in readme metadata.");
    }
    versions := versions[PluginMetadataKey := plugin.value];
    var constant := VersionConstant(contents);
    if constant.None? {
      return Failure("Could not find version in PLUGIN_VERSION/VERSION constant.");
    }
    versions := versions[VersionConstantKey := constant.value];
    return Success(versions);
  }

  /** The distinct values of every reference but the stable tag (array_unique after the unset). */
  function OtherVersions(versions: Versions): set<string> {
    set k | k in versions && k != StableTagKey :: versions[k]
  }

  /** `^\d+\.\d+\.\d+$`: `$` also matches before a final line break. */
  predicate IsReleaseVersion(v: string) {
    var d1 := DigitRunEnd(v, 0);
    && 0 < d1 < |v| && v[d1] == '.'
    && var d2 := DigitRunEnd(v, d1 + 1);
       && d1 + 1 < d2 < |v| && v[d2] == '.'
       && var d3 := DigitRunEnd(v, d2 + 1);
          d2 + 1 < d3 && (d3 == |v| || (d3 + 1 == |v| && v[d3] == '\n'))
  }

  predicate IsNumber(part: string) {
    |part| >= 1 && forall k :: 0 <= k < |part| ==> IsDigit(part[k])
  }

  /** The intended shape of a release version: three numbers joined by dots. */
  predicate ThreeNumbers(v: string) {
    var parts := Split(v, '.');
    |parts| == 3 && IsNumber(parts[0]) && IsNumber(parts[1]) && IsNumber(parts[2])
  }

  /**
   * The comparison rules, in the script's order: one value for all
   * references but the stable tag; a stable tag that differs from the plugin
   * version only behind a prerelease that is greater; and a release version
   * with a patch number.
   */
  function Decide(versions: Versions, less: (string, string) -> bool): (r: Outcome<string>)
    requires StableTagKey in versions && PluginMetadataKey in versions
    ensures var stable := versions[StableTagKey];
      var plugin := versions[PluginMetadataKey];
      r.Pass? <==> && |OtherVersions(versions)| == 1
                   && (stable != plugin ==> '-' in plugin && less(stable, plugin))
                   && ('-' !in plugin ==> IsReleaseVersion(plugin))
    ensures |OtherVersions(versions)| != 1 ==> r == Fail(NotUpdated)
    ensures var stable := versions[StableTagKey];
      var plugin := versions[PluginMetadataKey];
      |OtherVersions(versions)| == 1 && stable != plugin && '-' !in plugin ==> r == Fail(NotPrerelease(plugin, stable))
    ensures var stable := versions[StableTagKey];
      var plugin := versions[PluginMetadataKey];
      |OtherVersions(versions)| == 1 && stable != plugin && '-' in plugin && !less(stable, plugin)
      ==> r == Fail(NotAhead(plugin, stable))
    ensures var plugin := versions[PluginMetadataKey];
      |OtherVersions(versions)| == 1 && versions[StableTagKey] == plugin && '-' !in plugin && !IsReleaseVersion(plugin)
      ==> r == Fail(LacksPatch(plugin))
  {
    var stable := versions[StableTagKey];
    var plugin := versions[PluginMetadataKey];
    if |OtherVersions(versions)| != 1 then Fail(NotUpdated)
    else if stable != plugin && '-' !in plugin then Fail(NotPrerelease(plugin, stable))
    else if stable != plugin && !less(stable, plugin) then Fail(NotAhead(plugin, stable))
    else if '-' !in plugin && !IsReleaseVersion(plugin) then Fail(LacksPatch(plugin))
    else Pass
  }

  /** One distinct value means every reference but the stable tag holds that value. */
  lemma OneValueMeansEqual(versions: Versions, v: string)
    requires PluginMetadataKey in versions && versions[PluginMetadataKey] == v
    ensures |OtherVersions(versions)| == 1 <==> forall k :: k in versions && k != StableTagKey ==> versions[k] == v
  {
    var others := OtherVersions(versions);
    assert v in others;
    if forall k :: k in versions && k != StableTagKey ==> versions[k] == v {
      assert others == {v};
    }
    if |others| == 1 {
      forall k | k in versions && k != StableTagKey
        ensures versions[k] == v
      {
        assert versions[k] in others;
        SingletonMember(others, v, versions[k]);
      }
    }
  }

  lemma SingletonMember(s: set<string>, a: string, b: string)
    requires |s| == 1 && a in s && b in s
    ensures a == b
  {
    var rest := s - {a};
    assert |rest| == 0;
    assert b !in rest;
  }

  /** References that all agree on a release X.Y.Z, the stable tag included, pass. */
  lemma AgreedReleasePasses(versions: Versions, v: string, less: (string, string) -> bool)
    requires StableTagKey in versions && PluginMetadataKey in versions
    requires forall k :: k in versions ==> versions[k] == v
    requires ThreeNumbers(v) && '\n' !in v
    ensures Decide(versions, less) == Pass
  {
    OneValueMeansEqual(versions, v);
    ReleaseVersionIsThreeNumbers(v);
  }

  /** A release without a patch number, such as 0.9, is rejected even when every reference agrees. */
  lemma ShortReleaseRejected(versions: Versions, less: (string, string) -> bool)
    requires StableTagKey in versions && PluginMetadataKey in versions
    requires forall k :: k in versions ==> versions[k] == "0.9"
    ensures Decide(versions, less) == Fail(LacksPatch("0.9"))
  {
    OneValueMeansEqual(versions, "0.9");
    assert DigitRunEnd("0.9", 0) == 1;
    assert DigitRunEnd("0.9", 2) == 3;
  }

  /** A prerelease ahead of the stable tag passes; one that is not ahead fails. */
  lemma PrereleaseAhead(versions: Versions, v: string, less: (string, string) -> bool)
    requires StableTagKey in versions && PluginMetadataKey in versions
    requires forall k :: k in versions && k != StableTagKey ==> versions[k] == v
    requires '-' in v && versions[StableTagKey] != v
    ensures Decide(versions, less).Pass? <==> less(versions[StableTagKey], v)
    ensures !less(versions[StableTagKey], v) ==> Decide(versions, less) == Fail(NotAhead(v, versions[StableTagKey]))
  {
    OneValueMeansEqual(versions, v);
  }

  lemma DigitsWithoutDot(part: string)
    requires IsNumber(part)
    ensures '.' !in part && '\n' !in part
  {
    assert forall k :: 0 <= k < |part| ==> IsDigit(part[k]);
  }

  /** The scanner for `^\d+\.\d+\.\d+$` accepts exactly three dot-separated numbers. */
  lemma ReleaseVersionIsThreeNumbers(v: string)
    requires '\n' !in v
    ensures IsReleaseVersion(v) <==> ThreeNumbers(v)
  {
    if IsReleaseVersion(v) {
      ScannedIsThreeNumbers(v);
    }
    if ThreeNumbers(v) {
      ThreeNumbersScanned(v);
    }
  }

  lemma ScannedIsThreeNumbers(v: string)
    requires '\n' !in v && IsReleaseVersion(v)
    ensures ThreeNumbers(v)
  {
    var d1 := DigitRunEnd(v, 0);
    var d2 := DigitRunEnd(v, d1 + 1);
    var a, b, c := v[..d1], v[d1 + 1..d2], v[d2 + 1..];
    assert IsNumber(a) && IsNumber(b);
    assert IsNumber(c) by {
      assert DigitRunEnd(v, d2 + 1) == |v|;
    }
    DigitsWithoutDot(a);
    DigitsWithoutDot(b);
    DigitsWithoutDot(c);
    assert v == a + ['.'] + (b + ['.'] + c);
    SplitAtDelimiter(a, b + ['.'] + c, '.');
    SplitAtDelimiter(b, c, '.');
    SplitWithoutDelimiter(c, '.');
  }

  lemma ThreeNumbersScanned(v: string)
    requires ThreeNumbers(v)
    ensures IsReleaseVersion(v)
  {
    var parts := Split(v, '.');
    JoinSplit(v, '.');
    assert Join(parts, '.') == parts[0] + ['.'] + parts[1] + ['.'] + parts[2] by {
      assert parts[1..][1..] == [parts[2]];
      assert Join(parts[1..], '.') == parts[1] + ['.'] + parts[2];
    }
    NumbersScanned(parts[0], parts[1], parts[2]);
  }

  lemma NumbersScanned(a: string, b: string, c: string)
    requires IsNumber(a) && IsNumber(b) && IsNumber(c)
    ensures IsReleaseVersion(a + ['.'] + b + ['.'] + c)
  {
    var v := a + ['.'] + b + ['.'] + c;
    var d1 := |a|;
    var d2 := d1 + 1 + |b|;
    assert forall k :: 0 <= k < d1 ==> v[k] == a[k];
    assert forall k :: d1 + 1 <= k < d2 ==> v[k] == b[k - d1 - 1];
    assert forall k :: d2 + 1 <= k < |v| ==> v[k] == c[k - d2 - 1];
    DigitRunEndIs(v, 0, d1);
    DigitRunEndIs(v, d1 + 1, d2);
    DigitRunEndIs(v, d2 + 1, |v|);
  }

  /**
   * The whole check on what the lookups found: the first missing reference
   * or the first broken rule, as the message the script prints. A pass means
   * package.json, the plugin header, the VERSION constant and a changelog
   * release heading all name the same version.
   */
  function Checked(scan: Scan, less: (string, string) -> bool): (r: Outcome<string>)
    ensures Recorded(scan).Failure? ==> r == Fail(Recorded(scan).error)
    ensures Recorded(scan).Success? ==> r == Decide(Recorded(scan).value, less)
    ensures r.Pass? ==> && scan.packageVersion.Some? && scan.bootstrap.Some?
                        && scan.bootstrap.value.pluginVersion == scan.packageVersion
                        && scan.bootstrap.value.constant == scan.packageVersion
    ensures r.Pass? ==> var entry := ClassifyEntry(scan.changelogLine.value);
      entry.Latest? ==> Some(entry.version) == scan.packageVersion
  {
    match Recorded(scan)
    case Failure(e) => Fail(e)
    case Success(versions) =>
      OneValueMeansEqual(versions, versions[PluginMetadataKey]);
      Decide(versions, less)
  }

  /**
   * A complete scan in which package.json, the stable tag, the plugin header
   * and the VERSION constant all read the release X.Y.Z passes, when the
   * first changelog entry is that release or a link to the full changelog.
   */
  lemma AgreedScanPasses(v: string, line: string, less: (string, string) -> bool)
    requires ThreeNumbers(v) && '\n' !in v
    requires ClassifyEntry(line) == Latest(v) || ClassifyEntry(line).External?
    ensures Checked(Scan(Some(v), Some(v), Some(line), Some(BootstrapScan(Some(v), Some(v)))), less) == Pass
  {
    var scan := Scan(Some(v), Some(v), Some(line), Some(BootstrapScan(Some(v), Some(v))));
    var versions := Recorded(scan).value;
    assert forall k :: k in versions ==> versions[k] == v;
    AgreedReleasePasses(versions, v, less);
  }

  /** In particular a release whose changelog starts with its own "### X.Y.Z" heading passes. */
  lemma ReleaseScanPasses(v: string, less: (string, string) -> bool)
    requires ThreeNumbers(v) && '\n' !in v
    ensures Checked(Scan(Some(v), Some(v), Some("### " + v), Some(BootstrapScan(Some(v), Some(v)))), less) == Pass
  {
    ThreeNumbersScanned(v);
    assert IsDigit(v[0]);
    var line := "### " + v;
    assert line[..4] == "### " && line[4] == v[0];
    AgreedScanPasses(v, line, less);
  }

  /** The script from its inputs to its verdict. */
  function Verify(manifest: map<string, string>, readme: string, phpFiles: seq<(string, string)>,
                  less: (string, string) -> bool): (r: Outcome<string>)
    ensures "version" !in manifest ==> r == Fail("The 'version' key is missing in package.json")
    ensures (forall k :: 0 <= k < |phpFiles| ==> !DeclaresPlugin(phpFiles[k].1)) ==> r.Fail?
    ensures r.Pass? ==>
      && "version" in manifest
      && exists i :: 0 <= i < |phpFiles| && DeclaresPlugin(phpFiles[i].1) &&
           PluginVersion(phpFiles[i].1) == Some(manifest["version"]) &&
           VersionConstant(phpFiles[i].1) == Some(manifest["version"])
  {
    Checked(Scanned(manifest, readme, phpFiles), less)
  }
}
