/** Objects that do not come back from `serialize`: exactly those with a foreign key to an
    object that serializes to {}, because that key is dropped. */
module LostReferences {
  import opened Wrappers
  import opened CommitTrees
  import opened CommitTreeLaws
  import opened SealedTrees
  import opened ObjectStore
  import opened ObjectStoreKeeps
  import opened ObjectStoreOutcomes
  import opened ObjectStoreFailures
  import opened ObjectSerialization

  ghost predicate BlankReference(schema: Schema, s: Store, id: nat, a: Stored) {
    a.Reference? && a.id.Some? && SerializedBelow(schema, s, id, a.id.value) == Dict([])
  }

  /** Everything one level below serializes to its own hash. */
  ghost predicate SoundBelow(schema: Schema, s: Store, id: nat, a: Stored) {
    match a
    case Reference(Some(target)) => target < id && target in s.rows && NoBlankReference(schema, s, target)
    case References(ids) => NotBlank(schema, s, id, a)
    case _ => true
  }

  lemma {:induction false} BlankKeyAbsent(schema: Schema, s: Store, id: nat, defs: seq<FieldDef>, d: FieldDef)
    requires id in s.rows && DistinctNames(defs) && d in defs && BlankReference(schema, s, id, Attribute(s.rows[id], d))
    ensures forall item | item in SerializedItems(schema, s, id, defs) :: item.key != d.name
  {
    var front, last := defs[..|defs| - 1], defs[|defs| - 1];
    assert defs == front + [last];
    if d != last {
      BlankKeyAbsent(schema, s, id, front, d);
    } else {
      SerializedNames(schema, s, id, front);
    }
  }

  lemma {:induction false} SerializedNames(schema: Schema, s: Store, id: nat, defs: seq<FieldDef>)
    requires id in s.rows
    ensures forall item | item in SerializedItems(schema, s, id, defs) :: exists d :: d in defs && d.name == item.key
  {
    if defs != [] {
      SerializedNames(schema, s, id, defs[..|defs| - 1]);
    }
  }

  /** What the hasher is fed for the serialized object, and for the object. */
  ghost predicate TellsSerialized(sha1: Sha1, schema: Schema, s: Store, id: nat)
    requires id in s.rows && s.rows[id].model in schema
  {
    var defs := schema[s.rows[id].model];
    var p, f := PrepareItems(sha1, SerializedItems(schema, s, id, defs)), ShallowFields(sha1, s, s.rows[id], defs);
    p.Ok? && f.Ok? && FeedOf(p.value.fields) != FeedOf(f.value) ==>
      Digest(sha1, FeedOf(p.value.fields)) != Digest(sha1, FeedOf(f.value))
  }

  /** A lost key is not fed for the serialized object, but for the object. */
  lemma {:induction false} LostKey(sha1: Sha1, schema: Schema, s: Store, id: nat, d: FieldDef)
    requires GoodSchema(schema) && Inv(sha1, schema, s) && id in s.rows && s.rows[id].model in schema
    requires d in schema[s.rows[id].model] && BlankReference(schema, s, id, Attribute(s.rows[id], d))
    ensures ShallowFields(sha1, s, s.rows[id], schema[s.rows[id].model]).Ok?
    ensures d.name in ShallowFields(sha1, s, s.rows[id], schema[s.rows[id].model]).value
    ensures var p := PrepareItems(sha1, SerializedItems(schema, s, id, schema[s.rows[id].model]));
            p.Ok? ==> d.name !in p.value.fields
  {
    var row := s.rows[id];
    var defs := schema[row.model];
    assert RowOk(sha1, schema, s, id);
    assert RowOk(sha1, schema, s, Attribute(row, d).id.value) by {
      assert Typed(sha1, s, id, d, Attribute(row, d));
    }
    ShallowAt(sha1, s, row, defs, d);
    BlankKeyAbsent(schema, s, id, defs, d);
    SerializedPlain(sha1, schema, s, id);
    ItemsFeed(sha1, SerializedItems(schema, s, id, defs));
    assert d.name !in LiveKeys(SerializedItems(schema, s, id, defs));
  }

  /** The object returned has the hash that the tree was prepared with. */
  lemma {:induction false} CommitFindsHash(sha1: Sha1, schema: Schema, s: Store, model: string, u: Value, id: nat)
    requires Plain(u) && u.Dict? && Commit(sha1, schema, s, model, u).result == Ok((id, false))
    ensures Prepare(sha1, u).Ok? && IsRow(Commit(sha1, schema, s, model, u).store, model, HashText(sha1, u), id)
  {
    PrepareDictSeals(sha1, u.items);
  }

  ghost predicate NothingLost(schema: Schema, s: Store, id: nat)
    requires id in s.rows && s.rows[id].model in schema
  {
    forall d | d in schema[s.rows[id].model] :: !BlankReference(schema, s, id, Attribute(s.rows[id], d))
  }

  ghost predicate AllSoundBelow(schema: Schema, s: Store, id: nat)
    requires id in s.rows && s.rows[id].model in schema
  {
    forall d | d in schema[s.rows[id].model] :: SoundBelow(schema, s, id, Attribute(s.rows[id], d))
  }

  lemma {:induction false} NothingLostMeans(schema: Schema, s: Store, id: nat)
    requires id in s.rows && s.rows[id].model in schema && AllSoundBelow(schema, s, id) && NothingLost(schema, s, id)
    ensures NoBlankReference(schema, s, id)
  {
    forall d | d in schema[s.rows[id].model] ensures NotBlank(schema, s, id, Attribute(s.rows[id], d)) {
      assert SoundBelow(schema, s, id, Attribute(s.rows[id], d));
      assert !BlankReference(schema, s, id, Attribute(s.rows[id], d));
    }
  }

  /** With the objects below sound, the hasher is fed the object's own fields exactly when
      nothing is lost. */
  lemma {:induction false} SerializedFieldsExactly(sha1: Sha1, schema: Schema, s: Store, id: nat)
    requires GoodSchema(schema) && Inv(sha1, schema, s) && id in s.rows && s.rows[id].model in schema
    requires AllSoundBelow(schema, s, id)
    ensures ObjectSerialization.SameFields(sha1, schema, s, id, schema[s.rows[id].model]) <==>
            NothingLost(schema, s, id)
  {
    var defs := schema[s.rows[id].model];
    if NothingLost(schema, s, id) {
      assert RowOk(sha1, schema, s, id);
      NothingLostMeans(schema, s, id);
      SerializedSameFields(sha1, schema, s, id, defs);
    } else {
      var d :| d in defs && BlankReference(schema, s, id, Attribute(s.rows[id], d));
      LostKey(sha1, schema, s, id, d);
    }
  }

  /** Committing `obj.serialize()` returns the object with created=False exactly when
      nothing is lost, and then changes nothing. */
  lemma {:induction false} CommitSerializedExactly(sha1: Sha1, schema: Schema, s: Store, id: nat)
    requires GoodSchema(schema) && Inv(sha1, schema, s) && id in s.rows && s.rows[id].model in schema
    requires AllSoundBelow(schema, s, id) && TellsSerialized(sha1, schema, s, id)
    ensures var o := Commit(sha1, schema, s, s.rows[id].model, Serialized(schema, s, id));
            && (o.result == Ok((id, false)) <==> NothingLost(schema, s, id))
            && (NothingLost(schema, s, id) ==> o.store == s)
  {
    if NothingLost(schema, s, id) {
      NothingLostMeans(schema, s, id);
      CommitSerialized(sha1, schema, s, id);
    } else if Commit(sha1, schema, s, s.rows[id].model, Serialized(schema, s, id)).result == Ok((id, false)) {
      SerializedPlain(sha1, schema, s, id);
      CommitFindsHash(sha1, schema, s, s.rows[id].model, Serialized(schema, s, id), id);
      CommitKeeps(sha1, schema, s, s.rows[id].model, Serialized(schema, s, id));
      LostHash(sha1, schema, s, id);
      assert false;
    }
  }

  /** A lost key shows in the hash. */
  lemma {:induction false} LostHash(sha1: Sha1, schema: Schema, s: Store, id: nat)
    requires GoodSchema(schema) && Inv(sha1, schema, s) && id in s.rows && s.rows[id].model in schema
    requires TellsSerialized(sha1, schema, s, id) && !NothingLost(schema, s, id)
    requires Plain(Serialized(schema, s, id)) && Prepare(sha1, Serialized(schema, s, id)).Ok?
    ensures HashText(sha1, Serialized(schema, s, id)) != s.rows[id].mtHash
  {
    var defs := schema[s.rows[id].model];
    var d :| d in defs && BlankReference(schema, s, id, Attribute(s.rows[id], d));
    LostKey(sha1, schema, s, id, d);
    PlainHash(sha1, Serialized(schema, s, id));
    assert RowOk(sha1, schema, s, id);
    var p := PrepareItems(sha1, SerializedItems(schema, s, id, defs)).value;
    var f := ShallowFields(sha1, s, s.rows[id], defs).value;
    assert d.name in FeedOf(f) && d.name !in FeedOf(p.fields);
  }

  // ----- a snapshot that is stored twice -----

  const SYSTEM_INFO := Dict([Item("cpu_brand", Null)])
  const SNAPSHOT := Dict([Item("system_info", SYSTEM_INFO)])

  /** A text that may be null or blank. */
  function AnyText(v: Value): Option<Value> {
    if v == Null || v.Str? then Some(v) else None
  }

  const CPU_BRAND := FieldDef("cpu_brand", Scalar(Null, AnyText))
  const INFO := FieldDef("system_info", ForeignKey("SystemInfo", false))
  const SNAPSHOTS: Schema := map["SystemInfo" := [CPU_BRAND], "MachineSnapshot" := [INFO]]

  ghost function InfoRow(sha1: Sha1): Row {
    Row("SystemInfo", sha1(""), map["cpu_brand" := Plainly(Null)])
  }

  ghost function SnapshotRow(sha1: Sha1): Row {
    Row("MachineSnapshot", sha1("system_info" + sha1("")), map["system_info" := Reference(Some(0))])
  }

  function EmptySnapshotRow(sha1: Sha1): Row {
    Row("MachineSnapshot", sha1(""), map["system_info" := Reference(None)])
  }

  /** The system info and the snapshot. */
  ghost function BothRows(sha1: Sha1): Store {
    WithRow(WithRow(EMPTY, InfoRow(sha1)), SnapshotRow(sha1))
  }

  /** A prepared tree without items. */
  ghost function OnlyHash(sha1: Sha1): Value {
    Dict([Item(MT_HASH, Str(sha1("")))])
  }

  lemma {:induction false} PrepareNothing(sha1: Sha1)
    ensures Prepare(sha1, Dict([])) == Ok(OnlyHash(sha1))
    ensures Prepare(sha1, SYSTEM_INFO) == Ok(OnlyHash(sha1)) && Contribution(sha1, SYSTEM_INFO) == Ok([sha1("")])
  {
    assert SYSTEM_INFO.items[..0] == [];
    assert PrepareItems(sha1, SYSTEM_INFO.items) == Ok(PreparedItems([], map[]));
    assert FeedOf(map[]) == map[];
    DigestOfNothing(sha1);
    assert Prepare(sha1, Dict([])).value.items == OnlyHash(sha1).items;
  }

  /** Saving the only attribute of an object. */
  lemma {:induction false} SaveOne(sha1: Sha1, s: Store, row: Row, d: FieldDef, cleaned: Row)
    requires row.model in SNAPSHOTS && SNAPSHOTS[row.model] == [d] && Find(s, row.model, row.mtHash).None?
    requires Cleaned(d, Attribute(row, d)).Some? && row.vals.Keys <= {d.name}
    requires cleaned == Row(row.model, row.mtHash, map[d.name := Cleaned(d, Attribute(row, d)).value])
    requires ShallowHash(sha1, SNAPSHOTS, WithRow(s, cleaned), cleaned) == Ok(row.mtHash)
    ensures Save(sha1, SNAPSHOTS, s, row) == Outcome(WithRow(s, cleaned), Ok((s.next, true)))
  {
    assert [d][..0] == [] && FullClean(row, []) == Some(row);
    assert row.vals[d.name := Cleaned(d, Attribute(row, d)).value] == cleaned.vals;
    assert FullClean(row, [d]) == Some(cleaned);
  }

  lemma {:induction false} CommitInfo(sha1: Sha1)
    ensures CommitPrepared(sha1, SNAPSHOTS, EMPTY, "SystemInfo", OnlyHash(sha1)) ==
            Outcome(WithRow(EMPTY, InfoRow(sha1)), Ok((0, true)))
  {
    var items, row := OnlyHash(sha1).items, Row("SystemInfo", sha1(""), map[]);
    NothingFound("SystemInfo", sha1(""));
    assert items[..0] == [];
    assert Build(sha1, SNAPSHOTS, EMPTY, [CPU_BRAND], items) == Built(EMPTY, Ok(map[]));
    OneFieldHash(sha1, WithRow(EMPTY, InfoRow(sha1)), "SystemInfo", CPU_BRAND, sha1(""), Plainly(Null), None);
    SaveOne(sha1, EMPTY, row, CPU_BRAND, InfoRow(sha1));
  }

  lemma {:induction false} CommitSnapshot(sha1: Sha1)
    ensures Prepare(sha1, SNAPSHOT).Ok?
    ensures Commit(sha1, SNAPSHOTS, EMPTY, "MachineSnapshot", SNAPSHOT) ==
            Outcome(BothRows(sha1), Ok((1, true)))
  {
    var hash := sha1("system_info" + sha1(""));
    PrepareNothing(sha1);
    assert Plain(SYSTEM_INFO);
    OneEntry(sha1, "system_info", SYSTEM_INFO, sha1(""));
    var first, items := [Item("system_info", OnlyHash(sha1))],
        [Item("system_info", OnlyHash(sha1)), Item(MT_HASH, Str(hash))];
    assert Prepare(sha1, SNAPSHOT) == Ok(Dict(items));
    CommitInfo(sha1);
    var s := WithRow(EMPTY, InfoRow(sha1));
    SnapshotBuilt(sha1, first, items, s);
    NothingFound("MachineSnapshot", hash);
    WithHash(first, hash);
    assert first + [Item(MT_HASH, Str(hash))] == items;
    SnapshotSaved(sha1, s);
  }

  lemma {:induction false} SnapshotBuilt(sha1: Sha1, first: seq<Item>, items: seq<Item>, s: Store)
    requires first == [Item("system_info", OnlyHash(sha1))] && |items| == 2
    requires items[0] == first[0] && items[1].key == MT_HASH
    requires CommitPrepared(sha1, SNAPSHOTS, EMPTY, "SystemInfo", OnlyHash(sha1)) == Outcome(s, Ok((0, true)))
    ensures Build(sha1, SNAPSHOTS, EMPTY, [INFO], items) == Built(s, Ok(map["system_info" := Reference(Some(0))]))
  {
    assert items[..1] == first;
    InfoBuilt(sha1, first, s);
  }

  lemma {:induction false} InfoBuilt(sha1: Sha1, first: seq<Item>, s: Store)
    requires first == [Item("system_info", OnlyHash(sha1))]
    requires CommitPrepared(sha1, SNAPSHOTS, EMPTY, "SystemInfo", OnlyHash(sha1)) == Outcome(s, Ok((0, true)))
    ensures Build(sha1, SNAPSHOTS, EMPTY, [INFO], first) == Built(s, Ok(map["system_info" := Reference(Some(0))]))
  {
    assert first[..0] == [] && FindDef([INFO], "system_info") == Some(INFO);
    assert Build(sha1, SNAPSHOTS, EMPTY, [INFO], []) == Built(EMPTY, Ok(map[]));
    assert StoredFor(sha1, SNAPSHOTS, EMPTY, Some(INFO), OnlyHash(sha1)) == StoredValue(s, Ok(Reference(Some(0))));
  }

  lemma {:induction false} SnapshotSaved(sha1: Sha1, s: Store)
    requires s == WithRow(EMPTY, InfoRow(sha1))
    ensures Save(sha1, SNAPSHOTS, s, SnapshotRow(sha1)) == Outcome(WithRow(s, SnapshotRow(sha1)), Ok((1, true)))
  {
    var row := SnapshotRow(sha1);
    assert forall id: nat :: !IsRow(s, "MachineSnapshot", row.mtHash, id);
    OneFieldHash(sha1, WithRow(s, row), "MachineSnapshot", INFO, row.mtHash, Reference(Some(0)), Some(sha1("")));
    SaveOne(sha1, s, row, INFO, row);
  }

  /** The system info of the snapshot {"system_info": {"cpu_brand": None}} serializes to {},
      the snapshot without it; committing that stores a second snapshot. */
  lemma {:induction false} SnapshotStoredTwice(sha1: Sha1)
    requires sha1("system_info" + sha1("")) != sha1("")
    ensures var o := Commit(sha1, SNAPSHOTS, EMPTY, "MachineSnapshot", SNAPSHOT);
            && o.result == Ok((1, true)) && GoodSchema(SNAPSHOTS) && Inv(sha1, SNAPSHOTS, o.store)
            && !NothingLost(SNAPSHOTS, o.store, 1)
            && Serialized(SNAPSHOTS, o.store, 1) == Dict([])
            && Commit(sha1, SNAPSHOTS, o.store, "MachineSnapshot", Dict([])) ==
               Outcome(WithRow(o.store, EmptySnapshotRow(sha1)), Ok((2, true)))
  {
    CommitSnapshot(sha1);
    BothSound(sha1);
    BothAre(sha1, BothRows(sha1));
    InfoSerialized(sha1, BothRows(sha1));
    SnapshotSerialized(sha1, BothRows(sha1));
    EmptySnapshot(sha1, BothRows(sha1));
  }

  lemma {:induction false} BothSound(sha1: Sha1)
    ensures GoodSchema(SNAPSHOTS) && Inv(sha1, SNAPSHOTS, BothRows(sha1))
  {
    CommitSnapshot(sha1);
    SnapshotPlain();
    InitiallySound(sha1, SNAPSHOTS);
    CommitKeeps(sha1, SNAPSHOTS, EMPTY, "MachineSnapshot", SNAPSHOT);
  }

  lemma {:induction false} BothAre(sha1: Sha1, s: Store)
    requires s == BothRows(sha1) && sha1("system_info" + sha1("")) != sha1("")
    ensures s.rows.Keys == {0, 1} && s.rows[0] == InfoRow(sha1) && s.rows[1] == SnapshotRow(sha1) && s.next == 2
    ensures forall id: nat :: !IsRow(s, "MachineSnapshot", sha1(""), id)
  {
  }

  lemma {:induction false} InfoSerialized(sha1: Sha1, s: Store)
    requires 0 in s.rows && s.rows[0] == InfoRow(sha1)
    ensures Serialized(SNAPSHOTS, s, 0) == Dict([])
  {
    assert [CPU_BRAND][..0] == [] && SerializedItems(SNAPSHOTS, s, 0, []) == [];
    assert SerializedValue(SNAPSHOTS, s, 0, Attribute(s.rows[0], CPU_BRAND)) == Null;
    assert SerializedItems(SNAPSHOTS, s, 0, [CPU_BRAND]) == [];
  }

  lemma {:induction false} SnapshotSerialized(sha1: Sha1, s: Store)
    requires 1 in s.rows && s.rows[1] == SnapshotRow(sha1) && Serialized(SNAPSHOTS, s, 0) == Dict([])
    ensures Serialized(SNAPSHOTS, s, 1) == Dict([]) && !NothingLost(SNAPSHOTS, s, 1)
  {
    var a := Attribute(s.rows[1], INFO);
    assert a == Reference(Some(0)) && SerializedValue(SNAPSHOTS, s, 1, a) == Dict([]);
    assert BlankReference(SNAPSHOTS, s, 1, a) && INFO in SNAPSHOTS["MachineSnapshot"];
    assert [INFO][..0] == [] && SerializedItems(SNAPSHOTS, s, 1, []) == [];
    assert SerializedItems(SNAPSHOTS, s, 1, [INFO]) == [];
  }

  lemma {:induction false} SnapshotPlain()
    ensures Plain(SNAPSHOT) && GoodSchema(SNAPSHOTS)
  {
    assert Plain(SYSTEM_INFO);
  }

  lemma {:induction false} InitiallySound(sha1: Sha1, schema: Schema)
    ensures Inv(sha1, schema, EMPTY)
  {
  }

  lemma {:induction false} EmptySnapshot(sha1: Sha1, s: Store)
    requires forall id: nat :: !IsRow(s, "MachineSnapshot", sha1(""), id)
    ensures Commit(sha1, SNAPSHOTS, s, "MachineSnapshot", Dict([])) ==
            Outcome(WithRow(s, EmptySnapshotRow(sha1)), Ok((s.next, true)))
  {
    var items, row := OnlyHash(sha1).items, Row("MachineSnapshot", sha1(""), map[]);
    PrepareNothing(sha1);
    assert items[..0] == [];
    assert Build(sha1, SNAPSHOTS, s, [INFO], items) == Built(s, Ok(map[]));
    OneFieldHash(sha1, WithRow(s, EmptySnapshotRow(sha1)), "MachineSnapshot", INFO, sha1(""), Reference(None), None);
    SaveOne(sha1, s, row, INFO, EmptySnapshotRow(sha1));
  }
}
