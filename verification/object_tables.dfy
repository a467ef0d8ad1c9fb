/** `commit` and `hash` as they run: tables that are searched and added to, an object
    filled key by key, its subtrees committed on the way. */
module ObjectTables {
  import opened Wrappers
  import opened Sequences
  import opened CommitTrees
  import opened CommitTreeDicts
  import opened SealedTrees
  import opened ObjectStore

  class Tables {
    const sha1: Sha1
    const schema: Schema
    var rows: map<nat, Row>
    var next: nat

    constructor (sha1: Sha1, schema: Schema)
      ensures this.sha1 == sha1 && this.schema == schema
      ensures Valid() && Contents() == Store(map[], 0)
    {
      this.sha1, this.schema := sha1, schema;
      rows, next := map[], 0;
    }

    ghost function Contents(): Store
      reads this
    {
      Store(rows, next)
    }

    /** The unique constraint on `mt_hash`. */
    ghost predicate Valid()
      reads this
    {
      ValidStore(Contents())
    }

    method Get(model: string, hash: string) returns (r: Option<nat>)
      requires Valid()
      ensures r == Find(Contents(), model, hash)
    {
      for id := 0 to next
        invariant forall i: nat | i < id :: !IsRow(Contents(), model, hash, i)
      {
        if id in rows && rows[id].model == model && rows[id].mtHash == hash {
          assert IsRow(Contents(), model, hash, id);
          return Some(id);
        }
      }
      r := None;
    }

    /** `commit`. The subtrees of a prepared tree hold their hash, so that preparing them
        again, as the nested calls do, leaves them as they are. */
    method Commit(model: string, tree: TreeDict) returns (r: Result<(nat, bool), CommitError>)
      requires Valid()
      modifies this, tree
      ensures Valid()
      ensures Outcome(Contents(), r) == ObjectStore.Commit(sha1, schema, old(Contents()), model, Dict(old(tree.items)))
    {
      var prepared := tree.PrepareCommitTree(sha1);
      if prepared.Err? {
        return Err(BadTree(prepared.error));
      }
      r := CommitTree(model, Dict(tree.items));
    }

    method CommitTree(model: string, t: Value) returns (r: Result<(nat, bool), CommitError>)
      requires Valid()
      modifies this
      ensures Valid()
      ensures Outcome(Contents(), r) == CommitPrepared(sha1, schema, old(Contents()), model, t)
      decreases t, 1
    {
      if !t.Dict? {
        return Err(BadTree(NotADict));
      }
      if model !in schema {
        return Err(UnknownModel);
      }
      var hash := HashTextIn(t);
      var known := Get(model, hash);
      if known.Some? {
        return Ok((known.value, false));
      }
      var vals := FillObject(schema[model], t.items);
      if vals.Err? {
        return Err(vals.error);
      }
      r := SaveObject(Row(model, hash, vals.value));
    }

    /** The loop over `tree.items()`. */
    method FillObject(defs: seq<FieldDef>, items: seq<Item>) returns (r: Result<map<string, Stored>, CommitError>)
      requires Valid()
      modifies this
      ensures Valid()
      ensures Built(Contents(), r) == Build(sha1, schema, old(Contents()), defs, items)
      decreases items, 0
    {
      ghost var before := Contents();
      var vals := map[];
      for i := 0 to |items|
        invariant Valid()
        invariant Build(sha1, schema, before, defs, items[..i]) == Built(Contents(), Ok(vals))
      {
        assert items[..i + 1][..i] == items[..i];
        var item := items[i];
        if item.key != MT_HASH {
          var a := SetAttribute(FindDef(defs, item.key), item.val);
          if a.Err? {
            BuildFails(sha1, schema, before, defs, items, i + 1);
            return Err(a.error);
          }
          vals := vals[item.key := a.value];
        }
      }
      assert items[..|items|] == items;
      r := Ok(vals);
    }

    method SetAttribute(d: Option<FieldDef>, v: Value) returns (r: Result<Stored, CommitError>)
      requires Valid()
      modifies this
      ensures Valid()
      ensures StoredValue(Contents(), r) == StoredFor(sha1, schema, old(Contents()), d, v)
      decreases v, 2
    {
      if d.None? {
        return Err(UnknownField);
      }
      match v {
        case Dict(_) =>
          if d.value.kind.Json? {
            var t := CleanedUp(v);
            return Ok(AsJson(t));
          } else if d.value.kind.ForeignKey? {
            var o := CommitTree(d.value.kind.related, v);
            return if o.Ok? then Ok(Reference(Some(o.value.0))) else Err(o.error);
          } else {
            return Err(WrongKind);
          }
        case List(elems) =>
          if !d.value.kind.ManyToMany? {
            return Err(WrongKind);
          }
          var l := CommitSubtrees(d.value.kind.related, elems);
          return if l.Ok? then Ok(References(Distinct(l.value))) else Err(l.error);
        case _ =>
          return if d.value.kind.Scalar? then Ok(Plainly(v))
                 else if d.value.kind.Json? then Ok(AsJson(v))
                 else Err(WrongKind);
      }
    }

    method CommitSubtrees(model: string, elems: seq<Value>) returns (r: Result<seq<nat>, CommitError>)
      requires Valid()
      modifies this
      ensures Valid()
      ensures Committed(Contents(), r) == CommitEach(sha1, schema, old(Contents()), model, elems)
      decreases elems, 0
    {
      ghost var before := Contents();
      var ids := [];
      for i := 0 to |elems|
        invariant Valid()
        invariant CommitEach(sha1, schema, before, model, elems[..i]) == Committed(Contents(), Ok(ids))
      {
        assert elems[..i + 1][..i] == elems[..i];
        var o := CommitTree(model, elems[i]);
        if o.Err? {
          CommitEachFails(sha1, schema, before, model, elems, i + 1);
          return Err(o.error);
        }
        ids := ids + [o.value.0];
      }
      assert elems[..|elems|] == elems;
      r := Ok(ids);
    }

    method SaveObject(row: Row) returns (r: Result<(nat, bool), CommitError>)
      requires Valid() && row.model in schema
      modifies this
      ensures Valid()
      ensures Outcome(Contents(), r) == Save(sha1, schema, old(Contents()), row)
    {
      var known := Get(row.model, row.mtHash);
      if known.Some? {
        return Ok((known.value, false));
      }
      var cleaned := CleanObject(row);
      if cleaned.None? {
        return Err(Invalid);
      }
      r := StoreObject(cleaned.value);
    }

    /** The row is stored before its hash is checked. */
    method StoreObject(row: Row) returns (r: Result<(nat, bool), CommitError>)
      requires Valid() && row.model in schema && Find(Contents(), row.model, row.mtHash).None?
      modifies this
      ensures Valid()
      ensures Outcome(Contents(), r) == Checked(sha1, schema, old(Contents()), row)
    {
      var id := next;
      AddRow(Contents(), row);
      rows, next := rows[id := row], next + 1;
      var h := Hash(row);
      match h {
        case Err(e) => return Err(BadHash(e));
        case Ok(hash) => return if hash == row.mtHash then Ok((id, true)) else Err(HashMismatch);
      }
    }

    /** `full_clean`: each attribute is replaced by its cleaned value. */
    method CleanObject(row: Row) returns (r: Option<Row>)
      requires row.model in schema
      ensures r == FullClean(row, schema[row.model])
    {
      var defs, cleaned := schema[row.model], row;
      for i := 0 to |defs|
        invariant FullClean(row, defs[..i]) == Some(cleaned)
      {
        assert defs[..i + 1][..i] == defs[..i];
        var a := Cleaned(defs[i], Attribute(row, defs[i]));
        if a.None? {
          CleanFails(row, defs, i + 1);
          return None;
        }
        cleaned := cleaned.(vals := cleaned.vals[defs[i].name := a.value]);
      }
      assert defs[..|defs|] == defs;
      r := Some(cleaned);
    }

    /** `hash(recursive=False)` */
    method Hash(row: Row) returns (r: Result<Hex, TreeError>)
      requires row.model in schema
      ensures r == ShallowHash(sha1, schema, Contents(), row)
    {
      var defs := schema[row.model];
      var h := new Hasher();
      for i := 0 to |defs|
        invariant ShallowFields(sha1, Contents(), row, defs[..i]) == Ok(h.fields)
      {
        ShallowNext(sha1, Contents(), row, defs, i);
        var done := AddAttribute(row, defs[i], h);
        if done.Err? {
          ShallowFails(sha1, Contents(), row, defs, i + 1);
          return Err(done.error);
        }
      }
      assert defs[..|defs|] == defs;
      var hash := h.HexDigest(sha1);
      r := Ok(hash);
    }

    method AddAttribute(row: Row, d: FieldDef, h: Hasher) returns (r: Result<(), TreeError>)
      modifies h
      ensures match AddedField(sha1, Contents(), Attribute(row, d), d.name, old(h.fields))
              case Ok(fields) => r == Ok(()) && h.fields == fields
              case Err(e) => r == Err(e)
    {
      var v := ValueToHash(Attribute(row, d));
      if v.Err? {
        return Err(v.error);
      }
      r := h.AddField(d.name, v.value);
    }

    method ValueToHash(a: Stored) returns (r: Result<Value, TreeError>)
      ensures r == HashedValue(sha1, Contents(), a)
    {
      match a {
        case Plainly(v) => r := Ok(v);
        case AsJson(v) =>
          if !Truthy(v) {
            return Ok(v);
          }
          if !v.Dict? {
            return Err(NotADict);
          }
          var t := new TreeDict(v.items);
          var done := t.PrepareCommitTree(sha1);
          r := if done.Ok? then Ok(Lookup(t.items, MT_HASH).value) else Err(done.error);
        case Reference(id) =>
          r := Ok(if id.Some? && id.value in rows then Str(rows[id.value].mtHash) else Null);
        case References(ids) =>
          r := Ok(List(RowHashes(Store(rows, next), ids)));
      }
    }
  }

  ghost predicate ValidStore(s: Store) {
    (forall id | id in s.rows :: id < s.next) && Unique(s)
  }

  /** A row with a new hash keeps the hashes unique. */
  lemma {:induction false} AddRow(s: Store, row: Row)
    requires ValidStore(s) && Find(s, row.model, row.mtHash).None?
    ensures ValidStore(Store(s.rows[s.next := row], s.next + 1))
  {
    forall id | id in s.rows ensures s.rows[id].model != row.model || s.rows[id].mtHash != row.mtHash {
      assert !IsRow(s, row.model, row.mtHash, id);
    }
  }

  lemma {:induction false} ShallowNext(sha1: Sha1, s: Store, row: Row, defs: seq<FieldDef>, i: nat)
    requires i < |defs| && ShallowFields(sha1, s, row, defs[..i]).Ok?
    ensures ShallowFields(sha1, s, row, defs[..i + 1]) ==
            AddedField(sha1, s, Attribute(row, defs[i]), defs[i].name, ShallowFields(sha1, s, row, defs[..i]).value)
  {
    assert defs[..i + 1][..i] == defs[..i];
  }

  // An exception in a prefix of a loop is the exception of the whole loop.

  lemma {:induction false} BuildFails(sha1: Sha1, schema: Schema, s: Store, defs: seq<FieldDef>, items: seq<Item>,
      n: nat)
    requires n <= |items| && Build(sha1, schema, s, defs, items[..n]).vals.Err?
    ensures Build(sha1, schema, s, defs, items) == Build(sha1, schema, s, defs, items[..n])
  {
    if n < |items| {
      var front := items[..|items| - 1];
      assert front[..n] == items[..n];
      BuildFails(sha1, schema, s, defs, front, n);
    } else {
      assert items[..n] == items;
    }
  }

  lemma {:induction false} CommitEachFails(sha1: Sha1, schema: Schema, s: Store, model: string, elems: seq<Value>,
      n: nat)
    requires n <= |elems| && CommitEach(sha1, schema, s, model, elems[..n]).ids.Err?
    ensures CommitEach(sha1, schema, s, model, elems) == CommitEach(sha1, schema, s, model, elems[..n])
  {
    if n < |elems| {
      var front := elems[..|elems| - 1];
      assert front[..n] == elems[..n];
      CommitEachFails(sha1, schema, s, model, front, n);
    } else {
      assert elems[..n] == elems;
    }
  }

  lemma {:induction false} ShallowFails(sha1: Sha1, s: Store, row: Row, defs: seq<FieldDef>, n: nat)
    requires n <= |defs| && ShallowFields(sha1, s, row, defs[..n]).Err?
    ensures ShallowFields(sha1, s, row, defs) == Err(ShallowFields(sha1, s, row, defs[..n]).error)
  {
    if n < |defs| {
      var front := defs[..|defs| - 1];
      assert front[..n] == defs[..n];
      ShallowFails(sha1, s, row, front, n);
    } else {
      assert defs[..n] == defs;
    }
  }

  lemma {:induction false} CleanFails(row: Row, defs: seq<FieldDef>, n: nat)
    requires n <= |defs| && FullClean(row, defs[..n]).None?
    ensures FullClean(row, defs).None?
  {
    if n < |defs| {
      var front := defs[..|defs| - 1];
      assert front[..n] == defs[..n];
      CleanFails(row, front, n);
    } else {
      assert defs[..n] == defs;
    }
  }
}
