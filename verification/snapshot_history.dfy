/** The events of a machine's whole commit chain, as `update_diff` finds them through
    the parent of each commit. */
module SnapshotHistory {
  import opened CommitTrees
  import opened ObjectStore
  import opened SnapshotEvents
  import SnapshotChain

  type Commits = map<nat, SnapshotChain.Commit>

  /** The snapshots of versions 1 to n. */
  ghost function Snapshots(commits: Commits, n: nat): (r: seq<nat>)
    requires forall v | 1 <= v <= n :: v in commits
    ensures |r| == n && forall k | 0 <= k < n :: r[k] == commits[k + 1].request.snapshot
  {
    if n == 0 then [] else Snapshots(commits, n - 1) + [commits[n].request.snapshot]
  }

  ghost predicate Stored(schema: Schema, s: Store, commits: Commits) {
    forall v | v in commits :: commits[v].request.snapshot in s.rows &&
        s.rows[commits[v].request.snapshot].model in schema
  }

  /** The collection events of one commit: none without a parent. */
  ghost function UpdateEvents(schema: Schema, s: Store, commits: Commits, v: nat, attributes: seq<string>): seq<Event>
    requires v in commits && Stored(schema, s, commits)
  {
    var parent := commits[v].parent;
    if parent.None? || parent.value !in commits then []
    else CollectionEvents(Diff(schema, s, commits[v].request.snapshot, commits[parent.value].request.snapshot),
        attributes)
  }

  ghost function HistoryEvents(schema: Schema, s: Store, commits: Commits, n: nat, attributes: seq<string>): seq<Event>
    requires Stored(schema, s, commits) && forall v | 1 <= v <= n :: v in commits
  {
    if n == 0 then []
    else HistoryEvents(schema, s, commits, n - 1, attributes) + UpdateEvents(schema, s, commits, n, attributes)
  }

  lemma {:induction false} SnapshotsStored(schema: Schema, s: Store, commits: Commits, n: nat)
    requires Stored(schema, s, commits) && forall v | 1 <= v <= n :: v in commits
    ensures forall x | x in Snapshots(commits, n) :: x in s.rows && s.rows[x].model in schema
  {
    var versions := Snapshots(commits, n);
    forall x | x in versions ensures x in s.rows && s.rows[x].model in schema {
      var k :| 0 <= k < n && versions[k] == x;
      assert k + 1 in commits;
    }
  }

  /** The events of version v come from the difference with version v - 1. */
  ghost predicate DiffersFromPrevious(schema: Schema, s: Store, commits: Commits, v: nat, attributes: seq<string>)
    requires v in commits && Stored(schema, s, commits)
  {
    UpdateEvents(schema, s, commits, v, attributes) ==
    if v <= 1 || v - 1 !in commits then []
    else CollectionEvents(Diff(schema, s, commits[v].request.snapshot, commits[v - 1].request.snapshot), attributes)
  }

  lemma {:induction false} UpdateIsDiff(schema: Schema, s: Store, commits: Commits, v: nat, attributes: seq<string>)
    requires SnapshotChain.IsChain(commits) && Stored(schema, s, commits) && v in commits
    ensures DiffersFromPrevious(schema, s, commits, v, attributes)
  {
    assert SnapshotChain.LinksBack(commits, v);
  }

  lemma {:induction false} ChainEventsNext(schema: Schema, s: Store, commits: Commits, n: nat, attributes: seq<string>)
    requires Stored(schema, s, commits) && n > 1 && forall v | 1 <= v <= n :: v in commits
    ensures forall x | x in Snapshots(commits, n) :: x in s.rows && s.rows[x].model in schema
    ensures forall x | x in Snapshots(commits, n - 1) :: x in s.rows && s.rows[x].model in schema
    ensures ChainEvents(schema, s, Snapshots(commits, n), attributes) ==
            ChainEvents(schema, s, Snapshots(commits, n - 1), attributes)
            + CollectionEvents(Diff(schema, s, commits[n].request.snapshot, commits[n - 1].request.snapshot),
                attributes)
  {
    SnapshotsStored(schema, s, commits, n);
    SnapshotsStored(schema, s, commits, n - 1);
    assert Snapshots(commits, n)[..n - 1] == Snapshots(commits, n - 1);
  }

  lemma {:induction false} HistoryIsChain(schema: Schema, s: Store, commits: Commits, n: nat, attributes: seq<string>)
    requires Stored(schema, s, commits) && forall v | 1 <= v <= n :: v in commits
    requires forall v {:trigger DiffersFromPrevious(schema, s, commits, v, attributes)} | 1 <= v <= n ::
               DiffersFromPrevious(schema, s, commits, v, attributes)
    ensures forall x | x in Snapshots(commits, n) :: x in s.rows && s.rows[x].model in schema
    ensures HistoryEvents(schema, s, commits, n, attributes) ==
            ChainEvents(schema, s, Snapshots(commits, n), attributes)
  {
    SnapshotsStored(schema, s, commits, n);
    if n > 0 {
      HistoryIsChain(schema, s, commits, n - 1, attributes);
      assert DiffersFromPrevious(schema, s, commits, n, attributes);
      if n > 1 {
        ChainEventsNext(schema, s, commits, n, attributes);
      } else {
        assert |Snapshots(commits, n)| == 1;
      }
    }
  }

  /** In every reachable state of the commit protocol, the events of the commits,
      replayed over the collections of the first snapshot, give those of the head. */
  lemma {:induction false} HistoryReplays(sha1: Sha1, schema: Schema, s: Store, model: string, attributes: seq<string>,
                       states: seq<SnapshotChain.State>, actions: seq<SnapshotChain.Action>, i: nat)
    requires SnapshotChain.IsRun(states, actions) && i < |states|
    requires states[i].chain.commits != map[]
    requires Setting(sha1, schema, s) && Plurals(attributes)
    requires forall v | v in states[i].chain.commits ::
             Comparable(sha1, schema, s, states[i].chain.commits[v].request.snapshot, model, attributes)
    ensures var commits := states[i].chain.commits;
            && SnapshotChain.IsChain(commits) && Stored(schema, s, commits) && 1 in commits && |commits| in commits
            && Replay(CollectionsOf(schema, s, commits[1].request.snapshot, attributes),
                      HistoryEvents(schema, s, commits, |commits|, attributes)) ==
               CollectionsOf(schema, s, commits[|commits|].request.snapshot, attributes)
  {
    SnapshotChain.RunKeeps(states, actions, i);
    ChainReplays(sha1, schema, s, model, attributes, states[i].chain.commits);
  }

  lemma {:induction false} ChainReplays(sha1: Sha1, schema: Schema, s: Store, model: string, attributes: seq<string>,
      commits: Commits)
    requires SnapshotChain.IsChain(commits) && commits != map[]
    requires Setting(sha1, schema, s) && Plurals(attributes)
    requires forall v | v in commits :: Comparable(sha1, schema, s, commits[v].request.snapshot, model, attributes)
    ensures Stored(schema, s, commits) && 1 in commits && |commits| in commits
    ensures Replay(CollectionsOf(schema, s, commits[1].request.snapshot, attributes),
                   HistoryEvents(schema, s, commits, |commits|, attributes)) ==
            CollectionsOf(schema, s, commits[|commits|].request.snapshot, attributes)
  {
    assert exists v :: v in commits;
    SnapshotsComparable(sha1, schema, s, commits, model, attributes);
    AllDifferFromPrevious(schema, s, commits, attributes);
    HistoryIsChain(schema, s, commits, |commits|, attributes);
    ReplayChain(sha1, schema, s, Snapshots(commits, |commits|), model, attributes);
  }

  lemma {:induction false} SnapshotsComparable(sha1: Sha1, schema: Schema, s: Store, commits: Commits, model: string,
      attributes: seq<string>)
    requires SnapshotChain.IsChain(commits)
    requires forall v | v in commits :: Comparable(sha1, schema, s, commits[v].request.snapshot, model, attributes)
    ensures Stored(schema, s, commits)
    ensures forall x | x in Snapshots(commits, |commits|) :: Comparable(sha1, schema, s, x, model, attributes)
  {
    var versions := Snapshots(commits, |commits|);
    forall x | x in versions ensures Comparable(sha1, schema, s, x, model, attributes) {
      var k :| 0 <= k < |versions| && versions[k] == x;
      assert k + 1 in commits;
    }
  }

  lemma {:induction false} AllDifferFromPrevious(schema: Schema, s: Store, commits: Commits, attributes: seq<string>)
    requires SnapshotChain.IsChain(commits) && Stored(schema, s, commits)
    ensures forall v {:trigger DiffersFromPrevious(schema, s, commits, v, attributes)} | 1 <= v <= |commits| ::
              DiffersFromPrevious(schema, s, commits, v, attributes)
  {
    forall v {:trigger DiffersFromPrevious(schema, s, commits, v, attributes)} | 1 <= v <= |commits|
      ensures DiffersFromPrevious(schema, s, commits, v, attributes)
    {
      UpdateIsDiff(schema, s, commits, v, attributes);
    }
  }
}
