/** `update_enrolled_device_artifacts`: the artifacts of a device brought in line with
    the configurations of a status report. */
module StatusReports {
  import opened Wrappers

  datatype Configuration = Configuration(identifier: string, serverToken: string, active: bool, valid: string)

  datatype ArtifactType = Profile | EnterpriseApp
  datatype Status = Acknowledged | AwaitingConfirmation | Installed

  /** Artifacts with their type, and artifact versions with their artifact, by primary key. */
  datatype Tables = Tables(artifacts: map<string, ArtifactType>, versions: map<string, string>)

  /** The artifacts of one device, by artifact version. */
  type Rows = map<string, Status>

  // ----- identifiers -----

  /** `s.split(".")[-1]` */
  function LastComponent(s: string): string {
    if s == "" || s[|s| - 1] == '.' then "" else LastComponent(s[..|s| - 1]) + [s[|s| - 1]]
  }

  /** `part in s` */
  function Contains(s: string, part: string): bool {
    exists i | 0 <= i <= |s| :: part <= s[i..]
  }

  const LEGACY_PROFILE := "legacy-profile"

  /** `get_legacy_profile_identifier`, after the reversed domain name. */
  function LegacyProfileIdentifier(domain: string, artifact: string): string {
    domain + "." + LEGACY_PROFILE + "." + artifact
  }

  lemma {:induction false} LastComponentAfterDot(s: string, artifact: string)
    requires '.' !in artifact
    ensures LastComponent(s + "." + artifact) == artifact
  {
    var whole := s + "." + artifact;
    if artifact != "" {
      var front := artifact[..|artifact| - 1];
      assert whole[..|whole| - 1] == s + "." + front;
      assert whole[|whole| - 1] == artifact[|artifact| - 1] && artifact[|artifact| - 1] in artifact;
      LastComponentAfterDot(s, front);
      assert artifact == front + [artifact[|artifact| - 1]];
    }
  }

  /** `part` is somewhere in `s`. */
  ghost predicate Occurs(part: string, s: string) {
    exists before: string, after: string :: s == before + part + after
  }

  lemma {:induction false} ContainsIs(s: string, part: string)
    ensures Contains(s, part) <==> Occurs(part, s)
  {
    if Contains(s, part) {
      var i :| 0 <= i <= |s| && part <= s[i..];
      assert s == s[..i] + part + s[i..][|part|..];
    }
    if Occurs(part, s) {
      var before: string, after: string :| s == before + part + after;
      assert s[|before|..] == part + after;
    }
  }

  /** What comes after the last dot, or all of it. */
  ghost predicate EndsIn(s: string, artifact: string) {
    '.' !in artifact && (s == artifact || exists before: string :: s == before + "." + artifact)
  }

  lemma {:induction false} LastComponentIs(s: string, artifact: string)
    ensures LastComponent(s) == artifact <==> EndsIn(s, artifact)
  {
    LastComponentEnds(s);
    if EndsIn(s, artifact) {
      if s == artifact {
        NoDots(s);
      } else {
        var before: string :| s == before + "." + artifact;
        LastComponentAfterDot(before, artifact);
      }
    }
  }

  lemma {:induction false} NoDots(s: string)
    requires '.' !in s
    ensures LastComponent(s) == s
  {
    if s != "" {
      assert s == s[..|s| - 1] + [s[|s| - 1]] && s[|s| - 1] in s;
      NoDots(s[..|s| - 1]);
    }
  }

  lemma {:induction false} LastComponentEnds(s: string)
    ensures EndsIn(s, LastComponent(s))
  {
    if s != "" {
      var front, c := s[..|s| - 1], s[|s| - 1];
      assert s == front + [c];
      if c == '.' {
        assert s == front + "." + "";
      } else {
        LastComponentEnds(front);
        if front != LastComponent(front) {
          var before: string :| front == before + "." + LastComponent(front);
          assert s == before + "." + (LastComponent(front) + [c]);
        }
      }
    }
  }

  /** The identifiers given to devices are recognised and give back the artifact. */
  lemma {:induction false} LegacyProfileRoundTrip(domain: string, artifact: string)
    requires '.' !in artifact
    ensures domain + "." <= LegacyProfileIdentifier(domain, artifact)
    ensures Contains(LegacyProfileIdentifier(domain, artifact), LEGACY_PROFILE)
    ensures LastComponent(LegacyProfileIdentifier(domain, artifact)) == artifact
  {
    var identifier := LegacyProfileIdentifier(domain, artifact);
    assert identifier[|domain| + 1..] == LEGACY_PROFILE + "." + artifact;
    LastComponentAfterDot(domain + "." + LEGACY_PROFILE, artifact);
  }

  // ----- reported versions -----

  /** A profile installation that is reported as active and valid. */
  predicate Counts(c: Configuration) {
    Contains(c.identifier, LEGACY_PROFILE) && c.active && c.valid == "valid"
  }

  /** An entry of the dict of reported versions, in insertion order. */
  datatype Reported = Reported(artifact: string, version: string)

  /** `d[artifact] = version` */
  function Assign(d: seq<Reported>, artifact: string, version: string): seq<Reported> {
    if d == [] then [Reported(artifact, version)]
    else if d[0].artifact == artifact then [Reported(artifact, version)] + d[1..]
    else [d[0]] + Assign(d[1..], artifact, version)
  }

  function ReportedVersions(configurations: seq<Configuration>): seq<Reported> {
    if configurations == [] then []
    else
      var front, c := ReportedVersions(configurations[..|configurations| - 1]), configurations[|configurations| - 1];
      if Counts(c) then Assign(front, LastComponent(c.identifier), c.serverToken) else front
  }

  /** A configuration that reports a profile of the artifact as active and valid. */
  ghost predicate Reports(c: Configuration, artifact: string) {
    c.active && c.valid == "valid" && Occurs("legacy-profile", c.identifier) && EndsIn(c.identifier, artifact)
  }

  /** The last configuration that reports the artifact has this version. */
  ghost predicate LastReported(configurations: seq<Configuration>, artifact: string, version: string) {
    exists k: nat :: ReportedAt(configurations, artifact, k) && configurations[k].serverToken == version
  }

  ghost predicate ReportedAt(configurations: seq<Configuration>, artifact: string, k: nat) {
    && k < |configurations| && Reports(configurations[k], artifact)
    && forall j | k < j < |configurations| :: !Reports(configurations[j], artifact)
  }

  lemma {:induction false} LastReportedSnoc(front: seq<Configuration>, c: Configuration, artifact: string,
      version: string)
    ensures LastReported(front + [c], artifact, version) <==>
            if Reports(c, artifact) then c.serverToken == version else LastReported(front, artifact, version)
  {
    var all, n := front + [c], |front|;
    assert all[n] == c && forall k | 0 <= k < n :: all[k] == front[k];
    if Reports(c, artifact) {
      assert ReportedAt(all, artifact, n);
    } else {
      forall k: nat ensures ReportedAt(all, artifact, k) <==> ReportedAt(front, artifact, k) {
      }
      if LastReported(front, artifact, version) {
        var k: nat :| ReportedAt(front, artifact, k) && front[k].serverToken == version;
        assert ReportedAt(all, artifact, k);
      }
    }
  }

  lemma {:induction false} CountsIs(c: Configuration, artifact: string)
    ensures Counts(c) && LastComponent(c.identifier) == artifact <==> Reports(c, artifact)
  {
    ContainsIs(c.identifier, LEGACY_PROFILE);
    LastComponentIs(c.identifier, artifact);
  }

  ghost predicate OnePerArtifact(d: seq<Reported>) {
    forall i, j | 0 <= i < j < |d| :: d[i].artifact != d[j].artifact
  }

  lemma {:induction false} AssignHas(d: seq<Reported>, artifact: string, version: string)
    requires OnePerArtifact(d)
    ensures OnePerArtifact(Assign(d, artifact, version))
    ensures forall r :: r in Assign(d, artifact, version) <==>
        r == Reported(artifact, version) || (r in d && r.artifact != artifact)
    ensures |d| <= |Assign(d, artifact, version)|
    ensures forall i | 0 <= i < |d| :: Assign(d, artifact, version)[i].artifact == d[i].artifact
  {
    if d != [] {
      assert d == [d[0]] + d[1..];
      if d[0].artifact != artifact {
        AssignHas(d[1..], artifact, version);
      }
    }
  }

  lemma {:induction false} ReportedIsLast(configurations: seq<Configuration>)
    ensures OnePerArtifact(ReportedVersions(configurations))
    ensures forall r :: r in ReportedVersions(configurations) <==>
            LastReported(configurations, r.artifact, r.version)
  {
    if configurations != [] {
      var front, c := configurations[..|configurations| - 1], configurations[|configurations| - 1];
      assert configurations == front + [c];
      ReportedIsLast(front);
      AssignHas(ReportedVersions(front), LastComponent(c.identifier), c.serverToken);
      forall r ensures r in ReportedVersions(configurations) <==> LastReported(configurations, r.artifact, r.version) {
        LastReportedSnoc(front, c, r.artifact, r.version);
        CountsIs(c, r.artifact);
        if Counts(c) {
          assert r in ReportedVersions(configurations) <==>
            r == Reported(LastComponent(c.identifier), c.serverToken) ||
            (r in ReportedVersions(front) && r.artifact != LastComponent(c.identifier));
        }
      }
    }
  }

  /** A configuration that is inactive, not valid, or not of a profile, can be dropped. */
  lemma {:induction false} IgnoredConfiguration(before: seq<Configuration>, c: Configuration,
      after: seq<Configuration>)
    requires !c.active || c.valid != "valid" || !Occurs("legacy-profile", c.identifier)
    ensures ReportedVersions(before + [c] + after) == ReportedVersions(before + after)
  {
    ContainsIs(c.identifier, LEGACY_PROFILE);
    if after == [] {
      assert (before + [c] + after)[..|before|] == before && before + after == before;
    } else {
      var front, last := after[..|after| - 1], after[|after| - 1];
      IgnoredConfiguration(before, c, front);
      var long, short := before + [c] + after, before + after;
      assert long[..|long| - 1] == before + [c] + front && short[..|short| - 1] == before + front;
      assert long[|long| - 1] == last == short[|short| - 1];
    }
  }

  // ----- reconciliation -----

  predicate OfProfile(db: Tables, version: string) {
    version in db.versions && db.versions[version] in db.artifacts && db.artifacts[db.versions[version]].Profile?
  }

  predicate OfArtifact(db: Tables, version: string, artifact: string) {
    version in db.versions && db.versions[version] == artifact
  }

  predicate Has(reported: seq<Reported>, artifact: string) {
    exists r | r in reported :: r.artifact == artifact
  }

  /** The profiles that are not reported go away. */
  function CleanedUp(db: Tables, rows: Rows, reported: seq<Reported>): Rows {
    map version | version in rows && !(OfProfile(db, version) && !Has(reported, db.versions[version])) :: rows[version]
  }

  /** The other versions of the artifact go away, the reported one is installed. */
  function Replaced(db: Tables, rows: Rows, r: Reported): Rows {
    (map version | version in rows && !(OfArtifact(db, version, r.artifact) && version != r.version) ::
        rows[version])[r.version := Installed]
  }

  function ReplacedAll(db: Tables, rows: Rows, reported: seq<Reported>): Rows {
    if reported == [] then rows
    else Replaced(db, ReplacedAll(db, rows, reported[..|reported| - 1]), reported[|reported| - 1])
  }

  function Reconciled(db: Tables, rows: Rows, reported: seq<Reported>): Rows {
    ReplacedAll(db, CleanedUp(db, rows, reported), reported)
  }

  /** Every reported version exists. */
  predicate AllKnown(db: Tables, reported: seq<Reported>) {
    forall r | r in reported :: r.version in db.versions
  }

  class EnrolledDevice {
    var artifacts: Rows

    constructor (artifacts: Rows)
      ensures this.artifacts == artifacts
    {
      this.artifacts := artifacts;
    }

    /** Without a configurations list nothing changes; with an unknown version the
        request fails and is rolled back. */
    method UpdateArtifacts(db: Tables, configurations: Option<seq<Configuration>>) returns (ok: bool)
      modifies this
      ensures match configurations
              case None => ok && artifacts == old(artifacts)
              case Some(cs) =>
                && ok == AllKnown(db, ReportedVersions(cs))
                && artifacts == if ok then Reconciled(db, old(artifacts), ReportedVersions(cs)) else old(artifacts)
    {
      if configurations.None? {
        return true;
      }
      var reported := CollectReported(configurations.value);
      var before := artifacts;
      artifacts := CleanedUp(db, artifacts, reported);
      ghost var start := artifacts;
      for i := 0 to |reported|
        invariant artifacts == ReplacedAll(db, start, reported[..i])
        invariant forall k | 0 <= k < i :: reported[k].version in db.versions
      {
        assert reported[..i + 1][..i] == reported[..i];
        var r := reported[i];
        artifacts := map version | version in artifacts &&
            !(OfArtifact(db, version, r.artifact) && version != r.version) :: artifacts[version];
        if r.version !in db.versions {
          artifacts := before;
          assert r in reported;
          return false;
        }
        artifacts := artifacts[r.version := Installed];
      }
      assert reported[..|reported|] == reported;
      ok := true;
    }
  }

  method CollectReported(configurations: seq<Configuration>) returns (reported: seq<Reported>)
    ensures reported == ReportedVersions(configurations)
  {
    reported := [];
    for i := 0 to |configurations|
      invariant reported == ReportedVersions(configurations[..i])
    {
      assert configurations[..i + 1][..i] == configurations[..i];
      var c := configurations[i];
      if Counts(c) {
        reported := Assign(reported, LastComponent(c.identifier), c.serverToken);
      }
    }
    assert configurations[..|configurations|] == configurations;
  }

  // ----- what a report leaves -----

  /** A version of an artifact of some type. */
  ghost predicate IsVersion(db: Tables, version: string, artifact: string, kind: ArtifactType) {
    && version in db.versions && db.versions[version] == artifact
    && artifact in db.artifacts && db.artifacts[artifact] == kind
  }

  /** Each reported version is one of the profile it is reported for. */
  ghost predicate Consistent(db: Tables, reported: seq<Reported>) {
    forall r | r in reported :: IsVersion(db, r.version, r.artifact, Profile)
  }

  /** The profiles of the device are exactly the reported ones. */
  ghost predicate InLine(db: Tables, rows: Rows, reported: seq<Reported>) {
    && (forall version, artifact | version in rows && IsVersion(db, version, artifact, Profile) ::
          rows[version] == Installed && Reported(artifact, version) in reported)
    && (forall r | r in reported :: r.version in rows && IsVersion(db, r.version, r.artifact, Profile))
  }

  /** The rows a report can touch. */
  ghost predicate Touched(db: Tables, version: string, reported: seq<Reported>) {
    exists r :: r in reported && (r.version == version || OfArtifact(db, version, r.artifact))
  }

  /** One row after the replacements: the last one that touches it decides. */
  lemma {:induction false} ReplacedRow(db: Tables, rows: Rows, others: Rows, reported: seq<Reported>, version: string)
    ensures var a, b := ReplacedAll(db, rows, reported), ReplacedAll(db, others, reported);
            if Touched(db, version, reported) then
              && (version in a <==> version in b)
              && (version in a ==>
                  a[version] == b[version] == Installed &&
                  exists r :: r in reported && r.version == version)
            else
              && (version in a <==> version in rows)
              && (version in a ==> a[version] == rows[version])
  {
    if reported != [] {
      var front, last := reported[..|reported| - 1], reported[|reported| - 1];
      ReplacedRow(db, rows, others, front, version);
      assert forall r :: r in reported <==> r in front || r == last;
    }
  }

  /** With one version per artifact, each of its own artifact, all of them stay. */
  lemma {:induction false} ReplacedStay(db: Tables, rows: Rows, reported: seq<Reported>, r: Reported)
    requires OnePerArtifact(reported) && Consistent(db, reported) && r in reported
    ensures r.version in ReplacedAll(db, rows, reported)
  {
    var front, last := reported[..|reported| - 1], reported[|reported| - 1];
    assert reported == front + [last];
    if r != last {
      assert r in front;
      ReplacedStay(db, rows, front, r);
      var i :| 0 <= i < |front| && front[i] == r;
      assert reported[i].artifact != reported[|reported| - 1].artifact;
    }
  }

  /** The profiles end up in line with the report exactly when it is consistent. */
  lemma {:induction false} ReportedExactly(db: Tables, rows: Rows, reported: seq<Reported>)
    requires OnePerArtifact(reported)
    ensures InLine(db, Reconciled(db, rows, reported), reported) <==> Consistent(db, reported)
  {
    var start, after := CleanedUp(db, rows, reported), Reconciled(db, rows, reported);
    if Consistent(db, reported) {
      forall version, artifact | version in after && IsVersion(db, version, artifact, Profile)
        ensures after[version] == Installed && Reported(artifact, version) in reported
      {
        ReplacedRow(db, start, start, reported, version);
      }
      forall r | r in reported ensures r.version in after {
        ReplacedStay(db, start, reported, r);
      }
    }
  }

  /** Versions that are not of profiles are left alone. */
  lemma {:induction false} OthersUntouched(db: Tables, rows: Rows, reported: seq<Reported>, version: string)
    requires Consistent(db, reported) && !exists artifact :: IsVersion(db, version, artifact, Profile)
    ensures var after := Reconciled(db, rows, reported);
            && (version in after <==> version in rows)
            && (version in rows ==> after[version] == rows[version])
  {
    var start := CleanedUp(db, rows, reported);
    assert !OfProfile(db, version) by {
      if OfProfile(db, version) {
        assert IsVersion(db, version, db.versions[version], Profile);
      }
    }
    ReplacedRow(db, start, start, reported, version);
  }

  /** Processing the same report again changes nothing, whatever it says. */
  lemma {:induction false} ReportAgain(db: Tables, rows: Rows, reported: seq<Reported>)
    ensures Reconciled(db, Reconciled(db, rows, reported), reported) == Reconciled(db, rows, reported)
  {
    var once := Reconciled(db, rows, reported);
    var twice := Reconciled(db, once, reported);
    forall version ensures version in once <==> version in twice
                   ensures version in once ==> once[version] == twice[version]
    {
      ReplacedRow(db, CleanedUp(db, rows, reported), CleanedUp(db, once, reported), reported, version);
      ReplacedRow(db, CleanedUp(db, once, reported), CleanedUp(db, rows, reported), reported, version);
    }
  }

  /** A status report of a device, from its configurations to the rows it leaves. */
  lemma {:induction false} ReportedProfiles(db: Tables, rows: Rows, configurations: seq<Configuration>,
      artifact: string, version: string)
    requires Consistent(db, ReportedVersions(configurations))
    requires IsVersion(db, version, artifact, Profile)
    ensures version in Reconciled(db, rows, ReportedVersions(configurations)) <==>
            LastReported(configurations, artifact, version)
  {
    var reported := ReportedVersions(configurations);
    ReportedIsLast(configurations);
    ReportedExactly(db, rows, reported);
    assert Reported(artifact, version) in reported <==> LastReported(configurations, artifact, version);
  }

  /** One more active and valid configuration, for an artifact and one of its versions,
      makes that version the installed one, if no version of the artifact is reported for
      another artifact. */
  lemma {:induction false} ReportedLast(db: Tables, rows: Rows, configurations: seq<Configuration>, c: Configuration,
      artifact: string)
    requires c.active && c.valid == "valid" && Occurs("legacy-profile", c.identifier) && EndsIn(c.identifier, artifact)
    requires OfVersions(db, c.serverToken, artifact)
    requires forall k | 0 <= k < |configurations| && OfVersions(db, configurations[k].serverToken, artifact) ::
               EndsIn(configurations[k].identifier, artifact)
    ensures var after := Reconciled(db, rows, ReportedVersions(configurations + [c]));
            && c.serverToken in after && after[c.serverToken] == Installed
            && forall other | other in after && OfVersions(db, other, artifact) :: other == c.serverToken
  {
    var all := configurations + [c];
    var reported := ReportedVersions(all);
    ReportedIsLast(all);
    LastReportedSnoc(configurations, c, artifact, c.serverToken);
    assert Reported(artifact, c.serverToken) in reported;
    forall r | r in reported && OfVersions(db, r.version, artifact) ensures r == Reported(artifact, c.serverToken) {
      var k: nat :| ReportedAt(all, r.artifact, k) && all[k].serverToken == r.version;
      LastComponentIs(all[k].identifier, artifact);
      LastComponentIs(all[k].identifier, r.artifact);
      LastReportedSnoc(configurations, c, artifact, r.version);
    }
    OnlyVersion(db, CleanedUp(db, rows, reported), reported, artifact, c.serverToken);
  }

  ghost predicate OfVersions(db: Tables, version: string, artifact: string) {
    version in db.versions && db.versions[version] == artifact
  }

  lemma {:induction false} OnlyVersion(db: Tables, rows: Rows, reported: seq<Reported>, artifact: string,
      version: string)
    requires Reported(artifact, version) in reported && OfVersions(db, version, artifact)
    requires forall r | r in reported && OfVersions(db, r.version, artifact) :: r == Reported(artifact, version)
    requires OnePerArtifact(reported)
    ensures var after := ReplacedAll(db, rows, reported);
            && version in after && after[version] == Installed
            && forall other | other in after && OfVersions(db, other, artifact) :: other == version
  {
    var front, last := reported[..|reported| - 1], reported[|reported| - 1];
    assert reported == front + [last];
    if Reported(artifact, version) in front {
      OnlyVersion(db, rows, front, artifact, version);
    } else {
      assert last == Reported(artifact, version);
    }
  }

  /** A version of another profile in the report ends up as an artifact nobody reported. */
  lemma {:induction false} MisreportedVersion()
    ensures var db := Tables(map["A" := Profile, "B" := Profile], map["v" := "B"]);
            var configurations := [Configuration(LegacyProfileIdentifier("com.example", "A"), "v", true, "valid")];
            !InLine(db, Reconciled(db, map[], ReportedVersions(configurations)), ReportedVersions(configurations))
  {
    var db := Tables(map["A" := Profile, "B" := Profile], map["v" := "B"]);
    var configurations := [Configuration(LegacyProfileIdentifier("com.example", "A"), "v", true, "valid")];
    LegacyProfileRoundTrip("com.example", "A");
    OneReported(configurations[0], "A");
    ReportedExactly(db, map[], ReportedVersions(configurations));
  }

  lemma {:induction false} OneReported(c: Configuration, artifact: string)
    requires Counts(c) && LastComponent(c.identifier) == artifact
    ensures ReportedVersions([c]) == [Reported(artifact, c.serverToken)]
  {
    assert [c][..0] == [];
  }
}
