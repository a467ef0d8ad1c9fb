/** The tables of machine snapshot commits and of current snapshots, for every machine
    and source, as `commit_machine_snapshot_tree` and `archive` change them when they
    run one after the other. */
module SnapshotTables {
  import opened Wrappers
  import opened SnapshotChain

  datatype Key = Key(serial: string, source: nat)

  datatype CommitRow = CommitRow(key: Key, commit: Commit)

  /** The rows of one machine and source, by version. */
  ghost function CommitsOf(rows: seq<CommitRow>, key: Key): map<nat, Commit> {
    if rows == [] then map[]
    else
      var front, last := CommitsOf(rows[..|rows| - 1], key), rows[|rows| - 1];
      if last.key == key then front[last.commit.version := last.commit] else front
  }

  /** unique_together = ('serial_number', 'source', 'version') */
  ghost predicate UniqueVersions(rows: seq<CommitRow>) {
    forall i, j | 0 <= i < j < |rows| && rows[i].key == rows[j].key :: rows[i].commit.version != rows[j].commit.version
  }

  lemma {:induction false} CommitsOfHas(rows: seq<CommitRow>, key: Key)
    requires UniqueVersions(rows)
    ensures forall i | 0 <= i < |rows| && rows[i].key == key :: Known(CommitsOf(rows, key), rows[i].commit)
    ensures forall v | v in CommitsOf(rows, key) ::
              exists i :: 0 <= i < |rows| && rows[i] == CommitRow(key, CommitsOf(rows, key)[v]) &&
                  rows[i].commit.version == v
  {
    if rows != [] {
      var front, last := rows[..|rows| - 1], rows[|rows| - 1];
      CommitsOfHas(front, key);
      assert rows == front + [last];
      forall v | v in CommitsOf(rows, key)
        ensures exists i ::
            0 <= i < |rows| && rows[i] == CommitRow(key, CommitsOf(rows, key)[v]) &&
            rows[i].commit.version == v
      {
        if last.key == key && v == last.commit.version {
          assert rows[|rows| - 1] == CommitRow(key, CommitsOf(rows, key)[v]);
        } else {
          var i :| 0 <= i < |front| && front[i] == CommitRow(key, CommitsOf(front, key)[v]) &&
              front[i].commit.version == v;
          assert rows[i] == front[i];
        }
      }
    }
  }

  class SnapshotTables {
    var rows: seq<CommitRow>
    var current: map<Key, Snapshot>

    constructor ()
      ensures Valid() && forall key :: View(key) == Chain(map[], None)
    {
      rows, current := [], map[];
    }

    ghost function View(key: Key): Chain
      reads this
    {
      Chain(CommitsOf(rows, key), if key in current then Some(current[key]) else None)
    }

    ghost predicate Valid()
      reads this
    {
      UniqueVersions(rows) && forall key :: IsChain(CommitsOf(rows, key))
    }

    /** The commit with the highest version. */
    method LastCommit(key: Key) returns (head: Option<Commit>)
      requires Valid()
      ensures head == Head(View(key).commits)
      ensures IsHead(View(key).commits, head)
    {
      ghost var commits := View(key).commits;
      CommitsOfHas(rows, key);
      head := None;
      for i := 0 to |rows|
        invariant head.None? ==> forall k | 0 <= k < i :: rows[k].key != key
        invariant head.Some? ==> Known(commits, head.value)
        invariant head.Some? ==>
                  forall k | 0 <= k < i && rows[k].key == key :: rows[k].commit.version <= head.value.version
      {
        if rows[i].key == key && (head.None? || head.value.version < rows[i].commit.version) {
          head := Some(rows[i].commit);
        }
      }
      IsHighest(rows, key, head);
      HeadOf(commits, head);
    }

    method CommitMachineSnapshotTree(key: Key, request: Request) returns (commit: Option<Commit>)
      requires Valid()
      modifies this
      ensures Valid()
      ensures commit == NewCommit(Head(old(View(key)).commits), request)
      ensures View(key) == CommitAlone(old(View(key)), request)
      ensures forall other | other != key :: View(other) == old(View(other))
    {
      var head := LastCommit(key);
      commit := NewCommit(head, request);
      ghost var before := rows;
      CommitAloneKeeps(View(key), request);
      if commit.Some? {
        rows := rows + [CommitRow(key, commit.value)];
        RowAdded(before, key, commit.value);
      }
      current := current[key := request.snapshot];
    }

    /** `MetaMachine.archive` */
    method Archive(serial: string)
      requires Valid()
      modifies this
      ensures Valid()
      ensures forall key :: View(key) ==
                            if key.serial == serial then old(View(key)).(current := None) else old(View(key))
    {
      current := map key | key in current && key.serial != serial :: current[key];
    }
  }

  lemma {:induction false} IsHighest(rows: seq<CommitRow>, key: Key, head: Option<Commit>)
    requires UniqueVersions(rows)
    requires head.None? ==> forall k | 0 <= k < |rows| :: rows[k].key != key
    requires head.Some? ==> Known(CommitsOf(rows, key), head.value)
    requires head.Some? ==>
             forall k | 0 <= k < |rows| && rows[k].key == key :: rows[k].commit.version <= head.value.version
    ensures IsHead(CommitsOf(rows, key), head)
  {
    CommitsOfHas(rows, key);
    var commits := CommitsOf(rows, key);
    assert commits == map[] || exists v :: v in commits;
  }

  lemma {:induction false} RowAdded(rows: seq<CommitRow>, key: Key, c: Commit)
    requires UniqueVersions(rows) && IsChain(CommitsOf(rows, key))
    requires c.version == |CommitsOf(rows, key)| + 1
    ensures UniqueVersions(rows + [CommitRow(key, c)])
    ensures CommitsOf(rows + [CommitRow(key, c)], key) == CommitsOf(rows, key)[c.version := c]
    ensures forall other | other != key :: CommitsOf(rows + [CommitRow(key, c)], other) == CommitsOf(rows, other)
  {
    CommitsOfHas(rows, key);
    assert (rows + [CommitRow(key, c)])[..|rows|] == rows;
  }
}
