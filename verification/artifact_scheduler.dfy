/** Which artifact version an MDM target installs or removes next: the queries of
    `next_to_install` and `next_to_remove` read as relations over the tables, and what
    comes out of carrying out their answers one after the other. */
module ArtifactScheduler {
  import opened Wrappers

  // ----- tables -----

  datatype Channel = Device | User
  datatype Platform = IOS | IPadOS | MacOS | TvOS
  datatype ArtifactType = Profile | EnterpriseApp

  datatype Artifact = Artifact(kind: ArtifactType, channel: Channel, platforms: set<Platform>)
  datatype ArtifactVersion = ArtifactVersion(id: nat, artifact: nat, version: nat, createdAt: int)

  /** An artifact can be listed more than once in a blueprint. */
  datatype BlueprintArtifact =
    BlueprintArtifact(blueprint: nat, artifact: nat, beforeSetupAssistant: bool, autoUpdate: bool, priority: nat)

  datatype Tables = Tables(artifacts: map<nat, Artifact>, versions: set<ArtifactVersion>,
      blueprintArtifacts: set<BlueprintArtifact>)

  /** A device or a user, with the versions recorded as installed and the ids of the
      versions with a failed installation or removal command. */
  datatype Target = Target(
    channel: Channel, platform: Platform, blueprint: Option<nat>, awaitingConfiguration: bool,
    installed: set<ArtifactVersion>, failedInstalls: set<nat>, failedRemovals: set<nat>)

  /** Primary and foreign keys, and unique_together = (("artifact", "version"),) */
  ghost predicate GoodTables(db: Tables) {
    && (forall av | av in db.versions :: av.artifact in db.artifacts)
    && (forall a, b | a in db.versions && b in db.versions && a.id == b.id :: a == b)
    && (forall a, b | a in db.versions && b in db.versions && a.artifact == b.artifact &&
        a.version == b.version :: a == b)
  }

  /** At most one installed version for each artifact. */
  ghost predicate GoodTarget(db: Tables, target: Target) {
    && target.installed <= db.versions
    && forall a, b | a in target.installed && b in target.installed && a.artifact == b.artifact :: a == b
  }

  // ----- the common table expressions of the queries -----

  /** A row of the join of the artifact versions with the blueprint artifacts. */
  datatype Row = Row(av: ArtifactVersion, ba: BlueprintArtifact)

  predicate Selected(db: Tables, target: Target, ba: BlueprintArtifact) {
    && ba.artifact in db.artifacts
    && db.artifacts[ba.artifact].channel == target.channel
    && target.platform in db.artifacts[ba.artifact].platforms
    && target.blueprint == Some(ba.blueprint)
    && (target.awaitingConfiguration ==> ba.beforeSetupAssistant)
  }

  function AllBlueprintVersions(db: Tables, target: Target): set<Row> {
    set av, ba | av in db.versions && ba in db.blueprintArtifacts && ba.artifact == av.artifact &&
        Selected(db, target, ba) ::
      Row(av, ba)
  }

  /** rank() over (partition by artifact_id order by version desc) */
  function RowRank(rows: set<Row>, row: Row): nat {
    1 + |set r | r in rows && r.av.artifact == row.av.artifact && r.av.version > row.av.version|
  }

  function BlueprintVersions(db: Tables, target: Target): set<Row> {
    var all := AllBlueprintVersions(db, target);
    set r | r in all && RowRank(all, r) == 1
  }

  function VersionRank(versions: set<ArtifactVersion>, av: ArtifactVersion): nat {
    1 + |set v | v in versions && v.artifact == av.artifact && v.version > av.version|
  }

  function TargetVersions(target: Target): set<ArtifactVersion> {
    set av | av in target.installed && VersionRank(target.installed, av) == 1
  }

  /** The rows `next_to_install` chooses from. */
  function InstallRows(db: Tables, target: Target): set<Row> {
    var installed := TargetVersions(target);
    set r | r in BlueprintVersions(db, target)
      && r.av.id !in target.failedInstalls
      && ((forall t | t in installed :: t.artifact != r.av.artifact)
          || (exists t | t in installed :: t.artifact == r.av.artifact && r.av.id != t.id && r.ba.autoUpdate))
  }

  /** order by bav.priority desc, bav.created_at asc */
  predicate Before(a: Row, b: Row) {
    a.ba.priority > b.ba.priority || (a.ba.priority == b.ba.priority && a.av.createdAt < b.av.createdAt)
  }

  /** `next_to_install`; rows that are equal in the order can come in any order. */
  ghost predicate NextToInstall(db: Tables, target: Target, next: Option<ArtifactVersion>) {
    var rows := InstallRows(db, target);
    match next
    case None => target.blueprint.None? || rows == {}
    case Some(av) =>
      target.blueprint.Some? && exists r | r in rows :: r.av == av && forall other | other in rows :: !Before(other, r)
  }

  /** The versions `next_to_remove` chooses from. */
  function RemoveVersions(db: Tables, target: Target): set<ArtifactVersion> {
    set t | t in TargetVersions(target)
      && t.artifact in db.artifacts && db.artifacts[t.artifact].kind == Profile
      && t.id !in target.failedRemovals
      && forall r | r in BlueprintVersions(db, target) :: r.av.artifact != t.artifact
  }

  ghost predicate NextToRemove(db: Tables, target: Target, next: Option<ArtifactVersion>) {
    var versions := RemoveVersions(db, target);
    match next
    case None => versions == {}
    case Some(av) => av in versions && forall other | other in versions :: other.createdAt >= av.createdAt
  }

  // ----- what the queries mean -----

  /** An artifact of the channel of the target, and for its platform. */
  ghost predicate Suits(db: Tables, target: Target, artifact: nat) {
    && artifact in db.artifacts
    && db.artifacts[artifact].channel == target.channel && target.platform in db.artifacts[artifact].platforms
  }

  /** The blueprint of the target lists the artifact; before the setup assistant is done,
      only what is marked for that time counts. */
  ghost predicate Lists(db: Tables, target: Target, ba: BlueprintArtifact, artifact: nat) {
    && ba in db.blueprintArtifacts && ba.artifact == artifact
    && target.blueprint.Some? && ba.blueprint == target.blueprint.value
    && (ba.beforeSetupAssistant || !target.awaitingConfiguration)
  }

  ghost predicate InScope(db: Tables, target: Target, artifact: nat) {
    Suits(db, target, artifact) && exists ba :: Lists(db, target, ba, artifact)
  }

  ghost predicate AutoUpdated(db: Tables, target: Target, artifact: nat) {
    Suits(db, target, artifact) && exists ba :: Lists(db, target, ba, artifact) && ba.autoUpdate
  }

  /** What the filter of the queries selects. */
  lemma {:induction false} SelectedIs(db: Tables, target: Target, ba: BlueprintArtifact)
    requires ba in db.blueprintArtifacts
    ensures Selected(db, target, ba) <==> Suits(db, target, ba.artifact) && Lists(db, target, ba, ba.artifact)
  {
  }

  ghost predicate Latest(db: Tables, av: ArtifactVersion) {
    av in db.versions && forall other | other in db.versions &&
        other.artifact == av.artifact :: other.version <= av.version
  }

  ghost predicate Installed(target: Target, artifact: nat) {
    exists i :: i in target.installed && i.artifact == artifact
  }

  /** The latest version of an artifact in scope, that has not failed, and is either
      not installed in any version or an update that is allowed. */
  ghost predicate ToInstall(db: Tables, target: Target, av: ArtifactVersion) {
    && Latest(db, av) && InScope(db, target, av.artifact)
    && av.id !in target.failedInstalls
    && av !in target.installed
    && (Installed(target, av.artifact) ==> AutoUpdated(db, target, av.artifact))
  }

  /** An installed profile out of scope whose removal has not failed. */
  ghost predicate ToRemove(db: Tables, target: Target, av: ArtifactVersion) {
    && av in target.installed && av.artifact in db.artifacts && db.artifacts[av.artifact].kind == Profile
    && !InScope(db, target, av.artifact)
    && av.id !in target.failedRemovals
  }

  lemma {:induction false} RankOne(db: Tables, target: Target, row: Row)
    requires row in AllBlueprintVersions(db, target)
    ensures RowRank(AllBlueprintVersions(db, target), row) == 1 <==> Latest(db, row.av)
  {
    var all := AllBlueprintVersions(db, target);
    var above := set r | r in all && r.av.artifact == row.av.artifact && r.av.version > row.av.version;
    if !Latest(db, row.av) {
      var other :| other in db.versions && other.artifact == row.av.artifact && other.version > row.av.version;
      assert Row(other, row.ba) in above;
    }
    if above != {} {
      var r :| r in above;
      assert r.av in db.versions;
    }
  }

  lemma {:induction false} BlueprintVersionsMeaning(db: Tables, target: Target, r: Row)
    ensures r in BlueprintVersions(db, target) <==>
            Latest(db, r.av) && Suits(db, target, r.av.artifact) && Lists(db, target, r.ba, r.av.artifact)
  {
    if r.ba in db.blueprintArtifacts {
      SelectedIs(db, target, r.ba);
    }
    if r in AllBlueprintVersions(db, target) {
      RankOne(db, target, r);
    }
  }

  /** Of the installed versions of an artifact, the latest is looked at. */
  lemma {:induction false} TargetVersionsLatest(target: Target, av: ArtifactVersion)
    ensures av in TargetVersions(target) <==>
            && av in target.installed
            && forall i | i in target.installed && i.artifact == av.artifact :: i.version <= av.version
  {
    var above := set v | v in target.installed && v.artifact == av.artifact && v.version > av.version;
    if above != {} {
      var v :| v in above;
    } else {
      assert forall i | i in target.installed && i.artifact == av.artifact && i.version > av.version :: i in above;
    }
  }

  /** All installed versions are the latest installed of their artifact. */
  lemma {:induction false} TargetVersionsMeaning(db: Tables, target: Target)
    requires GoodTarget(db, target)
    ensures TargetVersions(target) == target.installed
  {
    forall av | av in target.installed ensures VersionRank(target.installed, av) == 1 {
      var above := set v | v in target.installed && v.artifact == av.artifact && v.version > av.version;
      assert above == {};
    }
  }

  lemma {:induction false} InstallRowsMeaning(db: Tables, target: Target, r: Row)
    requires GoodTables(db) && GoodTarget(db, target)
    ensures r in InstallRows(db, target) <==>
            && ToInstall(db, target, r.av) && Lists(db, target, r.ba, r.av.artifact)
            && (Installed(target, r.av.artifact) ==> r.ba.autoUpdate)
  {
    BlueprintVersionsMeaning(db, target, r);
    TargetVersionsMeaning(db, target);
  }

  /** The query of `next_to_install` finds exactly the versions to install. */
  lemma {:induction false} InstallMeaning(db: Tables, target: Target, av: ArtifactVersion)
    requires GoodTables(db) && GoodTarget(db, target)
    ensures (exists ba :: Row(av, ba) in InstallRows(db, target)) <==> ToInstall(db, target, av)
  {
    if ToInstall(db, target, av) {
      var ba;
      if Installed(target, av.artifact) {
        ba :| Lists(db, target, ba, av.artifact) && ba.autoUpdate;
      } else {
        ba :| Lists(db, target, ba, av.artifact);
      }
      InstallRowsMeaning(db, target, Row(av, ba));
    } else {
      forall ba ensures Row(av, ba) !in InstallRows(db, target) {
        InstallRowsMeaning(db, target, Row(av, ba));
      }
    }
  }

  /** The query of `next_to_remove` finds exactly the versions to remove. */
  lemma {:induction false} RemoveMeaning(db: Tables, target: Target, av: ArtifactVersion)
    requires GoodTables(db) && GoodTarget(db, target)
    ensures av in RemoveVersions(db, target) <==> ToRemove(db, target, av)
  {
    TargetVersionsMeaning(db, target);
    if av in target.installed {
      if InScope(db, target, av.artifact) {
        var ba :| Lists(db, target, ba, av.artifact);
        var latest := LatestVersion(db, db.versions, av);
        BlueprintVersionsMeaning(db, target, Row(latest, ba));
        assert Row(latest, ba).av.artifact == av.artifact;
      }
      forall r | r in BlueprintVersions(db, target) && r.av.artifact == av.artifact
        ensures InScope(db, target, av.artifact)
      {
        BlueprintVersionsMeaning(db, target, r);
      }
    }
  }

  /** The latest among some of the versions of the artifact of `av`. */
  lemma {:induction false} LatestVersion(db: Tables, versions: set<ArtifactVersion>,
      av: ArtifactVersion) returns (latest: ArtifactVersion)
    requires av in versions
    ensures latest in versions && latest.artifact == av.artifact
    ensures forall other | other in versions && other.artifact == av.artifact :: other.version <= latest.version
    decreases versions
  {
    var rest := versions - {av};
    if exists v :: v in rest && v.artifact == av.artifact {
      var v :| v in rest && v.artifact == av.artifact;
      latest := LatestVersion(db, rest, v);
      if latest.version < av.version {
        latest := av;
      }
    } else {
      latest := av;
    }
  }

  // ----- carrying out the answers -----

  datatype Operation = Install(av: ArtifactVersion) | Remove(av: ArtifactVersion)

  /** The command was acknowledged, or its error recorded. */
  datatype Step = Step(operation: Operation, acknowledged: bool)

  ghost predicate Pending(db: Tables, target: Target, o: Operation) {
    match o
    case Install(av) => ToInstall(db, target, av)
    case Remove(av) => ToRemove(db, target, av)
  }

  /** `command_acknowledged` of the install and remove commands, and the error status. */
  function After(target: Target, step: Step): Target {
    match step
    case Step(Install(av), true) => target.(installed := (set i | i in target.installed &&
        i.artifact != av.artifact) + {av})
    case Step(Install(av), false) => target.(failedInstalls := target.failedInstalls + {av.id})
    case Step(Remove(av), true) => target.(installed := set i | i in target.installed && i.artifact != av.artifact)
    case Step(Remove(av), false) => target.(failedRemovals := target.failedRemovals + {av.id})
  }

  lemma {:induction false} AfterScope(db: Tables, target: Target, step: Step, artifact: nat)
    ensures InScope(db, After(target, step), artifact) <==> InScope(db, target, artifact)
    ensures AutoUpdated(db, After(target, step), artifact) <==> AutoUpdated(db, target, artifact)
  {
    var t := After(target, step);
    assert forall ba :: Lists(db, t, ba, artifact) <==> Lists(db, target, ba, artifact);
  }

  lemma {:induction false} AfterGood(db: Tables, target: Target, step: Step)
    requires GoodTables(db) && GoodTarget(db, target) && Pending(db, target, step.operation)
    ensures GoodTarget(db, After(target, step))
  {
  }

  /** A step takes its operation off what is pending, and nothing else. */
  lemma {:induction false} StepPending(db: Tables, target: Target, step: Step, o: Operation)
    requires GoodTables(db) && GoodTarget(db, target) && Pending(db, target, step.operation)
    ensures Pending(db, After(target, step), o) <==> Pending(db, target, o) && o != step.operation
  {
    var t := After(target, step);
    AfterScope(db, target, step, o.av.artifact);
    if o.av.artifact == step.operation.av.artifact {
      SameArtifact(db, target, step, o);
    } else {
      OtherArtifact(db, target, step, o);
    }
  }

  lemma {:induction false} OtherArtifact(db: Tables, target: Target, step: Step, o: Operation)
    requires GoodTables(db) && GoodTarget(db, target) && Pending(db, target, step.operation)
    requires o.av.artifact != step.operation.av.artifact
    ensures Pending(db, After(target, step), o) <==> Pending(db, target, o)
  {
    var t := After(target, step);
    AfterScope(db, target, step, o.av.artifact);
    assert forall i: ArtifactVersion | i.artifact == o.av.artifact :: i in t.installed <==> i in target.installed;
    assert Installed(t, o.av.artifact) <==> Installed(target, o.av.artifact);
    if o.av in db.versions && step.operation.av in db.versions {
      assert o.av.id != step.operation.av.id;
    }
  }

  lemma {:induction false} SameArtifact(db: Tables, target: Target, step: Step, o: Operation)
    requires GoodTables(db) && GoodTarget(db, target) && Pending(db, target, step.operation)
    requires o.av.artifact == step.operation.av.artifact
    ensures Pending(db, After(target, step), o) <==> Pending(db, target, o) && o != step.operation
  {
    var t := After(target, step);
    AfterScope(db, target, step, o.av.artifact);
    if o.Install? && step.operation.Install? {
      if Latest(db, o.av) {
        assert o.av == step.operation.av;
      }
    } else if o.Remove? && step.operation.Remove? {
      if o.av in target.installed {
        assert o.av == step.operation.av;
      }
    }
  }

  // ----- the order of the answers -----

  /** What is returned is pending and, among all that is pending, has the highest priority
      its artifact was given, the oldest first; nothing is returned exactly when no
      installation is pending. */
  lemma {:induction false} NextInstallMeaning(db: Tables, target: Target, next: Option<ArtifactVersion>)
    requires GoodTables(db) && GoodTarget(db, target) && NextToInstall(db, target, next)
    ensures next.Some? ==> Pending(db, target, Install(next.value))
    ensures next.None? ==> forall av :: !Pending(db, target, Install(av))
    ensures next.Some? ==> exists ba :: Offers(db, target, next.value, ba) && ComesFirst(db, target, next.value, ba)
  {
    forall av ensures ToInstall(db, target, av) <==> exists ba :: Row(av, ba) in InstallRows(db, target) {
      InstallMeaning(db, target, av);
    }
    if next.Some? {
      var r :| r in InstallRows(db, target) && r.av == next.value &&
          forall other | other in InstallRows(db, target) :: !Before(other, r);
      InstallRowsMeaning(db, target, r);
      forall av, ba | Offers(db, target, av, ba)
        ensures ba.priority < r.ba.priority || (ba.priority == r.ba.priority && next.value.createdAt <= av.createdAt)
      {
        InstallRowsMeaning(db, target, Row(av, ba));
        assert !Before(Row(av, ba), r);
      }
      assert Offers(db, target, next.value, r.ba);
    }
  }

  /** A pending installation, and a row of the blueprint that allows it. */
  ghost predicate Offers(db: Tables, target: Target, av: ArtifactVersion, ba: BlueprintArtifact) {
    && Pending(db, target, Install(av)) && Lists(db, target, ba, av.artifact)
    && (Installed(target, av.artifact) ==> ba.autoUpdate)
  }

  /** No other row has a higher priority, or the same for an older version. */
  ghost predicate ComesFirst(db: Tables, target: Target, first: ArtifactVersion, row: BlueprintArtifact) {
    forall av, ba | Offers(db, target, av, ba) ::
      ba.priority < row.priority || (ba.priority == row.priority && first.createdAt <= av.createdAt)
  }

  /** What is returned for installation is an artifact of the target's own blueprint,
      channel and platform, and one for before the setup assistant if that is not done. */
  lemma {:induction false} AnswerIsOwn(db: Tables, target: Target, av: ArtifactVersion)
    requires GoodTables(db) && GoodTarget(db, target) && NextToInstall(db, target, Some(av))
    ensures av.artifact in db.artifacts && db.artifacts[av.artifact].channel == target.channel
    ensures target.platform in db.artifacts[av.artifact].platforms
    ensures exists ba ::
              && ba in db.blueprintArtifacts && ba.artifact == av.artifact && target.blueprint == Some(ba.blueprint)
              && (target.awaitingConfiguration ==> ba.beforeSetupAssistant)
  {
    NextInstallMeaning(db, target, Some(av));
    var ba :| Lists(db, target, ba, av.artifact);
    assert ba in db.blueprintArtifacts && ba.artifact == av.artifact && target.blueprint == Some(ba.blueprint);
  }

  /** A row of another blueprint, or for an artifact of another channel or platform. */
  predicate Foreign(db: Tables, target: Target, ba: BlueprintArtifact) {
    || target.blueprint != Some(ba.blueprint)
    || (ba.artifact in db.artifacts && db.artifacts[ba.artifact].channel != target.channel)
    || (ba.artifact in db.artifacts && target.platform !in db.artifacts[ba.artifact].platforms)
  }

  /** Such rows change nothing, whether they are added or dropped. */
  lemma {:induction false} ForeignRows(db: Tables, other: Tables, target: Target)
    requires other.artifacts == db.artifacts && other.versions == db.versions
    requires forall ba | !Foreign(db, target, ba) :: ba in db.blueprintArtifacts <==> ba in other.blueprintArtifacts
    ensures InstallRows(db, target) == InstallRows(other, target)
    ensures RemoveVersions(db, target) == RemoveVersions(other, target)
  {
    forall r ensures r in BlueprintVersions(db, target) <==> r in BlueprintVersions(other, target) {
      BlueprintVersionsMeaning(db, target, r);
      BlueprintVersionsMeaning(other, target, r);
    }
    assert BlueprintVersions(db, target) == BlueprintVersions(other, target);
  }

  /** Without a blueprint nothing is installed, and every installed profile is removed,
      unless that has failed. */
  lemma {:induction false} WithoutBlueprint(db: Tables, target: Target)
    requires GoodTables(db) && GoodTarget(db, target) && target.blueprint.None?
    ensures forall next | NextToInstall(db, target, next) :: next.None?
    ensures RemoveVersions(db, target) ==
            set av | av in target.installed && db.artifacts[av.artifact].kind == Profile &&
                av.id !in target.failedRemovals
  {
    forall av ensures av in RemoveVersions(db, target) <==>
        av in target.installed && db.artifacts[av.artifact].kind == Profile && av.id !in target.failedRemovals
    {
      RemoveMeaning(db, target, av);
    }
  }

  lemma {:induction false} NextRemoveMeaning(db: Tables, target: Target, next: Option<ArtifactVersion>)
    requires GoodTables(db) && GoodTarget(db, target) && NextToRemove(db, target, next)
    ensures next.Some? ==> Pending(db, target, Remove(next.value))
    ensures next.None? ==> forall av :: !Pending(db, target, Remove(av))
    ensures next.Some? ==> forall av | Pending(db, target, Remove(av)) :: next.value.createdAt <= av.createdAt
  {
    forall av ensures av in RemoveVersions(db, target) <==> ToRemove(db, target, av) {
      RemoveMeaning(db, target, av);
    }
  }

  /** There is always an answer. */
  lemma {:induction false} NextInstallExists(db: Tables, target: Target) returns (next: Option<ArtifactVersion>)
    ensures NextToInstall(db, target, next)
  {
    var rows := InstallRows(db, target);
    if rows == {} || target.blueprint.None? {
      next := None;
    } else {
      var r := FirstRow(rows);
      next := Some(r.av);
    }
  }

  lemma {:induction false} NextRemoveExists(db: Tables, target: Target) returns (next: Option<ArtifactVersion>)
    ensures NextToRemove(db, target, next)
  {
    var versions := RemoveVersions(db, target);
    if versions == {} {
      next := None;
    } else {
      var oldest := OldestVersion(versions);
      next := Some(oldest);
    }
  }

  lemma {:induction false} OldestVersion(versions: set<ArtifactVersion>) returns (oldest: ArtifactVersion)
    requires versions != {}
    ensures oldest in versions && forall other | other in versions :: other.createdAt >= oldest.createdAt
  {
    var v :| v in versions;
    var rest := versions - {v};
    assert versions == rest + {v};
    if rest == {} {
      oldest := v;
    } else {
      oldest := OldestVersion(rest);
      if v.createdAt < oldest.createdAt {
        oldest := v;
      }
    }
  }

  lemma {:induction false} FirstRow(rows: set<Row>) returns (first: Row)
    requires rows != {}
    ensures first in rows && forall other | other in rows :: !Before(other, first)
  {
    var r :| r in rows;
    var rest := rows - {r};
    assert rows == rest + {r};
    if rest == {} {
      first := r;
    } else {
      first := FirstRow(rest);
      if Before(r, first) {
        first := r;
      }
    }
  }

  // ----- whole runs -----

  ghost function PendingSet(db: Tables, target: Target): set<Operation> {
    (set av | av in db.versions && ToInstall(db, target, av) :: Install(av))
    + (set av | av in target.installed && ToRemove(db, target, av) :: Remove(av))
  }

  lemma {:induction false} PendingSetHas(db: Tables, target: Target, o: Operation)
    ensures o in PendingSet(db, target) <==> Pending(db, target, o)
  {
  }

  /** Any pending operation can come next: the answers of the queries are pending, in
      whatever order the two queries are asked. */
  ghost predicate IsRun(db: Tables, states: seq<Target>, steps: seq<Step>) {
    && |states| == |steps| + 1
    && GoodTarget(db, states[0])
    && forall i | 0 <= i < |steps| :: Pending(db, states[i], steps[i].operation) &&
        states[i + 1] == After(states[i], steps[i])
  }

  ghost function Operations(steps: seq<Step>): set<Operation> {
    set s | s in steps :: s.operation
  }

  /** After n steps, n different operations of those pending at the start are done, and
      the others are still pending. */
  lemma {:induction false} RunPending(db: Tables, states: seq<Target>, steps: seq<Step>, n: nat)
    requires GoodTables(db) && IsRun(db, states, steps) && n <= |steps|
    ensures GoodTarget(db, states[n])
    ensures Operations(steps[..n]) <= PendingSet(db, states[0])
    ensures PendingSet(db, states[n]) == PendingSet(db, states[0]) - Operations(steps[..n])
    ensures |PendingSet(db, states[n])| + n == |PendingSet(db, states[0])|
  {
    if n > 0 {
      RunPending(db, states, steps, n - 1);
      var before, step := states[n - 1], steps[n - 1];
      assert Pending(db, states[n - 1], steps[n - 1].operation) && states[n] == After(states[n - 1], steps[n - 1]);
      AfterGood(db, before, step);
      StepPendingSet(db, before, step);
      OperationsNext(steps, n - 1);
      TakeOne(PendingSet(db, states[0]), Operations(steps[..n - 1]), step.operation);
    }
  }

  lemma {:induction false} TakeOne(all: set<Operation>, done: set<Operation>, o: Operation)
    requires o in all - done
    ensures (all - done) - {o} == all - (done + {o})
    ensures |(all - done) - {o}| == |all - done| - 1
  {
  }

  lemma {:induction false} StepPendingSet(db: Tables, target: Target, step: Step)
    requires GoodTables(db) && GoodTarget(db, target) && Pending(db, target, step.operation)
    ensures step.operation in PendingSet(db, target)
    ensures PendingSet(db, After(target, step)) == PendingSet(db, target) - {step.operation}
  {
    var after := After(target, step);
    PendingSetHas(db, target, step.operation);
    forall o ensures o in PendingSet(db, after) <==> o in PendingSet(db, target) && o != step.operation {
      StepPending(db, target, step, o);
      PendingSetHas(db, target, o);
      PendingSetHas(db, after, o);
    }
  }

  lemma {:induction false} OperationsNext(steps: seq<Step>, n: nat)
    requires n < |steps|
    ensures Operations(steps[..n + 1]) == Operations(steps[..n]) + {steps[n].operation}
  {
    assert steps[..n + 1] == steps[..n] + [steps[n]];
  }

  /** No run is longer than the number of operations pending at the start, and a run
      that leaves nothing pending has carried out each of them once. */
  lemma {:induction false} RunsEnd(db: Tables, states: seq<Target>, steps: seq<Step>)
    requires GoodTables(db) && IsRun(db, states, steps)
    ensures |steps| <= |PendingSet(db, states[0])|
    ensures PendingSet(db, states[|steps|]) == {} <==> |steps| == |PendingSet(db, states[0])|
    ensures PendingSet(db, states[|steps|]) == {} ==> Operations(steps) == PendingSet(db, states[0])
  {
    RunPending(db, states, steps, |steps|);
    assert steps[..|steps|] == steps;
  }

  /** No artifact is both installed and removed in a run. */
  lemma {:induction false} NeverBoth(db: Tables, states: seq<Target>, steps: seq<Step>, i: nat, j: nat)
    requires GoodTables(db) && IsRun(db, states, steps) && i < |steps| && j < |steps|
    requires steps[i].operation.Install? && steps[j].operation.Remove?
    ensures steps[i].operation.av.artifact != steps[j].operation.av.artifact
  {
    RunPending(db, states, steps, |steps|);
    assert steps[..|steps|] == steps;
    assert steps[i].operation in Operations(steps) && steps[j].operation in Operations(steps);
    OneEach(db, states[0], steps[i].operation, steps[j].operation);
  }

  /** Nothing is left to do: every artifact in scope is at its latest version, or that
      version has failed, or updates are not automatic; and every profile out of scope
      could not be removed. */
  ghost predicate Settled(db: Tables, target: Target) {
    && (forall av | Latest(db, av) && InScope(db, target, av.artifact) ::
          || av in target.installed
          || av.id in target.failedInstalls
          || (Installed(target, av.artifact) && !AutoUpdated(db, target, av.artifact)))
    && (forall av | av in target.installed && av.artifact in db.artifacts &&
        db.artifacts[av.artifact].kind == Profile && !InScope(db, target, av.artifact) ::
          av.id in target.failedRemovals)
  }

  lemma {:induction false} NothingPendingIsSettled(db: Tables, target: Target)
    requires GoodTables(db) && GoodTarget(db, target)
    ensures PendingSet(db, target) == {} <==> Settled(db, target)
  {
    forall o ensures o in PendingSet(db, target) <==> Pending(db, target, o) {
      PendingSetHas(db, target, o);
    }
    if PendingSet(db, target) == {} {
      forall av | Latest(db, av) && InScope(db, target, av.artifact)
        ensures av in target.installed || av.id in target.failedInstalls ||
                (Installed(target, av.artifact) && !AutoUpdated(db, target, av.artifact))
      {
        assert !Pending(db, target, Install(av));
      }
      forall av | av in target.installed && av.artifact in db.artifacts &&
          db.artifacts[av.artifact].kind == Profile && !InScope(db, target, av.artifact)
        ensures av.id in target.failedRemovals
      {
        assert !Pending(db, target, Remove(av));
      }
    } else {
      var o :| o in PendingSet(db, target);
      assert Pending(db, target, o);
    }
  }

  ghost predicate Acknowledged(steps: seq<Step>, o: Operation) {
    exists i :: 0 <= i < |steps| && steps[i] == Step(o, true)
  }

  /** What a run does to one installed version: it stays unless its artifact was
      installed or removed, and comes only from an acknowledged installation. */
  lemma {:induction false} RunInstalls(db: Tables, states: seq<Target>, steps: seq<Step>, n: nat, av: ArtifactVersion)
    requires GoodTables(db) && IsRun(db, states, steps) && n <= |steps|
    ensures av in states[n].installed <==>
            || Acknowledged(steps[..n], Install(av))
            || (av in states[0].installed && forall o | Acknowledged(steps[..n], o) :: o.av.artifact != av.artifact)
  {
    if n > 0 {
      RunInstalls(db, states, steps, n - 1, av);
      var front, step := steps[..n - 1], steps[n - 1];
      assert steps[..n] == front + [step];
      forall o ensures Acknowledged(steps[..n], o) <==> Acknowledged(front, o) || step == Step(o, true) {
        if Acknowledged(front, o) {
          var i :| 0 <= i < |front| && front[i] == Step(o, true);
          assert steps[..n][i] == Step(o, true);
        }
        if step == Step(o, true) {
          assert steps[..n][n - 1] == Step(o, true);
        }
      }
      if Acknowledged(front, Install(av)) {
        OnlyOnce(db, states, steps, n, av);
      }
    }
  }

  /** The artifact of an installed version is not touched again. */
  lemma {:induction false} OnlyOnce(db: Tables, states: seq<Target>, steps: seq<Step>, n: nat, av: ArtifactVersion)
    requires GoodTables(db) && IsRun(db, states, steps) && 0 < n <= |steps|
    requires Acknowledged(steps[..n - 1], Install(av))
    ensures steps[n - 1].operation.av.artifact != av.artifact
  {
    DoneWasPending(db, states, steps, n - 1, Install(av));
    NextWasPending(db, states, steps, n - 1);
    OneEach(db, states[0], Install(av), steps[n - 1].operation);
  }

  lemma {:induction false} DoneWasPending(db: Tables, states: seq<Target>, steps: seq<Step>, n: nat, o: Operation)
    requires GoodTables(db) && IsRun(db, states, steps) && n <= |steps| && Acknowledged(steps[..n], o)
    ensures o in PendingSet(db, states[0]) && o in Operations(steps[..n])
  {
    RunPending(db, states, steps, n);
    AcknowledgedIsDone(steps[..n], o);
  }

  lemma {:induction false} NextWasPending(db: Tables, states: seq<Target>, steps: seq<Step>, n: nat)
    requires GoodTables(db) && IsRun(db, states, steps) && n < |steps|
    ensures steps[n].operation in PendingSet(db, states[0]) && steps[n].operation !in Operations(steps[..n])
  {
    RunPending(db, states, steps, n);
    PendingAt(db, states, steps, n);
  }

  lemma {:induction false} PendingAt(db: Tables, states: seq<Target>, steps: seq<Step>, i: nat)
    requires IsRun(db, states, steps) && i < |steps|
    ensures steps[i].operation in PendingSet(db, states[i])
  {
    PendingSetHas(db, states[i], steps[i].operation);
  }

  lemma {:induction false} AcknowledgedIsDone(steps: seq<Step>, o: Operation)
    requires Acknowledged(steps, o)
    ensures o in Operations(steps)
  {
    var i :| 0 <= i < |steps| && steps[i] == Step(o, true);
    assert steps[i] in steps;
  }

  /** Two operations pending together are about different artifacts. */
  lemma {:induction false} OneEach(db: Tables, target: Target, a: Operation, b: Operation)
    requires GoodTables(db) && GoodTarget(db, target)
    requires a in PendingSet(db, target) && b in PendingSet(db, target) && a != b
    ensures a.av.artifact != b.av.artifact
  {
    PendingSetHas(db, target, a);
    PendingSetHas(db, target, b);
  }
}
