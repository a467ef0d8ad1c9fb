/** Trees with one field whose commit fails: a text that is refused, and rows that do not
    get the hash they came with. */
module ObjectStoreFailures {
  import opened Wrappers
  import opened CommitTrees
  import opened CommitTreeLaws
  import opened SealedTrees
  import opened ObjectStore

  const EMPTY := Store(map[], 0)

  function OneFieldSchema(model: string, d: FieldDef): Schema {
    map[model := [d]]
  }

  /** Preparing {k: v}, for a value that feeds one text. */
  lemma {:induction false} OneEntry(sha1: Sha1, k: string, v: Value, text: string)
    requires k != "" && k != MT_HASH && Plain(v) && !IsEmptyValue(v) && Contribution(sha1, v) == Ok([text])
    ensures Plain(Dict([Item(k, v)]))
    ensures Prepare(sha1, Dict([Item(k, v)])) ==
            Ok(Dict([Item(k, PrepareValue(sha1, v).value.tree), Item(MT_HASH, Str(sha1(k + text)))]))
  {
    OneKept(sha1, k, v, text);
    DigestOfOne(sha1, k, text);
    PreparedDict(sha1, [Item(k, v)]);
    TwoItems(Item(k, PrepareValue(sha1, v).value.tree), Item(MT_HASH, Str(sha1(k + text))));
  }

  lemma {:induction false} TwoItems(a: Item, b: Item)
    ensures [a] + [b] == [a, b]
  {
  }

  lemma {:induction false} OneKept(sha1: Sha1, k: string, v: Value, text: string)
    requires k != "" && Plain(v) && !IsEmptyValue(v) && Contribution(sha1, v) == Ok([text])
    ensures PrepareValue(sha1, v).Ok? && PrepareItems(sha1, [Item(k, v)]).Ok?
    ensures var p := PrepareItems(sha1, [Item(k, v)]).value;
            p.items == [Item(k, PrepareValue(sha1, v).value.tree)] && FeedOf(p.fields) == map[k := [text]]
  {
    var items, none := [Item(k, v)], PreparedItems([], map[]);
    assert items[..0] == [] && PrepareItems(sha1, []) == Ok(none);
    LastItemFits(sha1, none, items[0]);
    HashedNotEmpty(sha1, v);
    KeptItem(none, k, PrepareValue(sha1, v).value);
  }

  lemma {:induction false} OneFieldBuild(sha1: Sha1, model: string, d: FieldDef, tree: Value, hash: Value, a: Stored)
    requires d.name != MT_HASH
    requires StoredFor(sha1, OneFieldSchema(model, d), EMPTY, Some(d), tree) == StoredValue(EMPTY, Ok(a))
    ensures Build(sha1, OneFieldSchema(model, d), EMPTY, [d], [Item(d.name, tree), Item(MT_HASH, hash)]) ==
            Built(EMPTY, Ok(map[d.name := a]))
  {
    var schema, first, items := OneFieldSchema(model, d), [Item(d.name, tree)],
        [Item(d.name, tree), Item(MT_HASH, hash)];
    assert FindDef([d], d.name) == Some(d);
    assert items[..1] == first && first[..0] == [];
    assert Build(sha1, schema, EMPTY, [d], []) == Built(EMPTY, Ok(map[]));
    assert Build(sha1, schema, EMPTY, [d], first) == Built(EMPTY, Ok(map[d.name := a]));
  }

  /** Committing {k: v} to an empty table comes down to saving one attribute. */
  lemma {:induction false} OneFieldCommit(sha1: Sha1, model: string, d: FieldDef, v: Value, text: string, a: Stored)
    requires d.name != "" && d.name != MT_HASH && Plain(v) && !IsEmptyValue(v) && Contribution(sha1, v) == Ok([text])
    requires PrepareValue(sha1, v).Ok?
    requires StoredFor(sha1, OneFieldSchema(model, d), EMPTY, Some(d), PrepareValue(sha1, v).value.tree) ==
             StoredValue(EMPTY, Ok(a))
    ensures Commit(sha1, OneFieldSchema(model, d), EMPTY, model, Dict([Item(d.name, v)])) ==
            Save(sha1, OneFieldSchema(model, d), EMPTY, Row(model, sha1(d.name + text), map[d.name := a]))
  {
    var tree, hash := PrepareValue(sha1, v).value.tree, Str(sha1(d.name + text));
    OneEntry(sha1, d.name, v, text);
    OneFieldBuild(sha1, model, d, tree, hash, a);
    var t := Dict([Item(d.name, tree), Item(MT_HASH, hash)]);
    WithHash([Item(d.name, tree)], sha1(d.name + text));
    assert [Item(d.name, tree)] + [Item(MT_HASH, hash)] == t.items;
  }

  lemma {:induction false} OneFieldClean(model: string, d: FieldDef, hash: string, a: Stored)
    ensures FullClean(Row(model, hash, map[d.name := a]), [d]) ==
            if Cleaned(d, a).None? then None else Some(Row(model, hash, map[d.name := Cleaned(d, a).value]))
  {
    var row := Row(model, hash, map[d.name := a]);
    assert [d][..0] == [] && FullClean(row, []) == Some(row);
    if Cleaned(d, a).Some? {
      assert row.vals[d.name := Cleaned(d, a).value] == map[d.name := Cleaned(d, a).value];
    }
  }

  /** The hash of a row with one attribute: of its name and text, or of nothing. */
  lemma {:induction false} OneFieldHash(sha1: Sha1, s: Store, model: string, d: FieldDef, hash: string, a: Stored,
      text: Option<string>)
    requires d.name != "" && HashedValue(sha1, s, a).Ok?
    requires if text.Some? then !IsEmptyValue(HashedValue(sha1, s, a).value) &&
             FieldOf(HashedValue(sha1, s, a).value) == Ok(Text(text.value))
             else IsEmptyValue(HashedValue(sha1, s, a).value)
    ensures ShallowHash(sha1, OneFieldSchema(model, d), s, Row(model, hash, map[d.name := a])) ==
            Ok(if text.Some? then sha1(d.name + text.value) else sha1(""))
  {
    var row := Row(model, hash, map[d.name := a]);
    assert [d] == [] + [d];
    ShallowSnoc(sha1, s, row, [], d);
    assert ShallowFields(sha1, s, row, []) == Ok(map[]);
    if text.Some? {
      assert FeedOf(map[d.name := Text(text.value)]) == map[d.name := [text.value]];
      DigestOfOne(sha1, d.name, text.value);
    } else {
      assert FeedOf(map[]) == map[];
      DigestOfNothing(sha1);
    }
  }

  /** A stored row with another hash breaks the invariant. */
  lemma {:induction false} OneFieldMismatch(sha1: Sha1, model: string, d: FieldDef, hash: string, a: Stored,
      text: Option<string>)
    requires d.name != "" && HashedValue(sha1, WithRow(EMPTY, Row(model, hash, map[d.name := a])), a).Ok?
    requires var v := HashedValue(sha1, WithRow(EMPTY, Row(model, hash, map[d.name := a])), a).value;
             if text.Some? then !IsEmptyValue(v) && FieldOf(v) == Ok(Text(text.value)) else IsEmptyValue(v)
    requires hash != if text.Some? then sha1(d.name + text.value) else sha1("")
    ensures var row := Row(model, hash, map[d.name := a]);
            && Checked(sha1, OneFieldSchema(model, d), EMPTY, row) == Outcome(WithRow(EMPTY, row), Err(HashMismatch))
            && !Inv(sha1, OneFieldSchema(model, d), WithRow(EMPTY, row))
  {
    var row := Row(model, hash, map[d.name := a]);
    OneFieldHash(sha1, WithRow(EMPTY, row), model, d, hash, a, text);
    assert !RowOk(sha1, OneFieldSchema(model, d), WithRow(EMPTY, row), 0);
  }

  lemma {:induction false} NothingFound(model: string, hash: string)
    ensures Find(EMPTY, model, hash) == None
  {
  }

  /** {k: x} for a field that cleaning changes x in: refused if x is not valid; and if its
      cleaned text is hashed differently, the commit raises the mismatch error and leaves
      the row behind. */
  lemma {:induction false} ScalarMismatch(sha1: Sha1, model: string, k: string, unset: Value, clean: Clean, x: string)
    requires k != "" && k != MT_HASH
    ensures var schema, u := OneFieldSchema(model, FieldDef(k, Scalar(unset, clean))), Dict([Item(k, Str(x))]);
            var o := Commit(sha1, schema, EMPTY, model, u);
            && Plain(u) && Prepare(sha1, u).Ok?
            && (clean(Str(x)) == None ==> o == Outcome(EMPTY, Err(Invalid)))
            && (forall y: string | clean(Str(x)) == Some(Str(y)) && sha1(k + y) != sha1(k + x) ::
                  && o.result == Err(HashMismatch)
                  && o.store == WithRow(EMPTY, Row(model, sha1(k + x), map[k := Plainly(Str(y))]))
                  && !Inv(sha1, schema, o.store))
  {
    var d := FieldDef(k, Scalar(unset, clean));
    var schema := OneFieldSchema(model, d);
    OneEntry(sha1, k, Str(x), x);
    OneFieldCommit(sha1, model, d, Str(x), x, Plainly(Str(x)));
    OneFieldClean(model, d, sha1(k + x), Plainly(Str(x)));
    NothingFound(model, sha1(k + x));
    forall y: string | clean(Str(x)) == Some(Str(y)) && sha1(k + y) != sha1(k + x)
      ensures Save(sha1, schema, EMPTY, Row(model, sha1(k + x), map[k := Plainly(Str(x))])) ==
              Outcome(WithRow(EMPTY, Row(model, sha1(k + x), map[k := Plainly(Str(y))])), Err(HashMismatch))
      ensures !Inv(sha1, schema, WithRow(EMPTY, Row(model, sha1(k + x), map[k := Plainly(Str(y))])))
    {
      OneFieldMismatch(sha1, model, d, sha1(k + x), Plainly(Str(y)), Some(y));
    }
  }

  /** A text that must not be blank. */
  function NoBlankText(v: Value): Option<Value> {
    if v == Null || v == Str("") then None else Some(v)
  }

  /** `GenericIPAddressField` on two forms of one address. */
  function LowerAddress(v: Value): Option<Value> {
    if v == Str("FE80::1") then Some(Str("fe80::1")) else NoBlankText(v)
  }

  /** {"name": ""} is refused, and {"address": "FE80::1"} corrupts its table. */
  lemma {:induction false} BlankAndAddress(sha1: Sha1)
    requires sha1("address" + "FE80::1") != sha1("address" + "fe80::1")
    ensures var schema := OneFieldSchema("Disk", FieldDef("name", Scalar(Str(""), NoBlankText)));
            Commit(sha1, schema, EMPTY, "Disk", Dict([Item("name", Str(""))])) == Outcome(EMPTY, Err(Invalid))
    ensures var schema := OneFieldSchema("NetworkInterface", FieldDef("address", Scalar(Null, LowerAddress)));
            var o := Commit(sha1, schema, EMPTY, "NetworkInterface", Dict([Item("address", Str("FE80::1"))]));
            o.result == Err(HashMismatch) && o.store.rows.Keys == {0} && !Inv(sha1, schema, o.store)
  {
    ScalarMismatch(sha1, "Disk", "name", Str(""), NoBlankText, "");
    ScalarMismatch(sha1, "NetworkInterface", "address", Null, LowerAddress, "FE80::1");
    assert LowerAddress(Str("FE80::1")) == Some(Str("fe80::1"));
  }

  const EMPTY_CONFIG := Dict([Item("host", Null)])

  /** {"config": {"host": None}} is hashed with the hash of an empty dict, but stored with
      an empty config, which is not hashed at all. */
  lemma {:induction false} HollowJsonMismatch(sha1: Sha1)
    requires sha1("config" + sha1("")) != sha1("")
    ensures var schema, u := OneFieldSchema("Source", FieldDef("config", Json)), Dict([Item("config", EMPTY_CONFIG)]);
            var o := Commit(sha1, schema, EMPTY, "Source", u);
            && Plain(u) && Prepare(sha1, u).Ok?
            && o.result == Err(HashMismatch) && o.store.rows.Keys == {0} && !Inv(sha1, schema, o.store)
  {
    HollowConfig(sha1);
    OneEntry(sha1, "config", EMPTY_CONFIG, sha1(""));
    HollowSave(sha1, FieldDef("config", Json), sha1("config" + sha1("")));
    OneFieldCommit(sha1, "Source", FieldDef("config", Json), EMPTY_CONFIG, sha1(""), AsJson(Dict([])));
  }

  lemma {:induction false} HollowSave(sha1: Sha1, d: FieldDef, hash: Hex)
    requires d.name != "" && d.kind.Json? && hash != sha1("")
    ensures var schema, row := OneFieldSchema("Source", d), Row("Source", hash, map[d.name := AsJson(Dict([]))]);
            && Save(sha1, schema, EMPTY, row) == Outcome(WithRow(EMPTY, row), Err(HashMismatch))
            && !Inv(sha1, schema, WithRow(EMPTY, row)) && WithRow(EMPTY, row).rows.Keys == {0}
  {
    OneFieldClean("Source", d, hash, AsJson(Dict([])));
    NothingFound("Source", hash);
    OneFieldMismatch(sha1, "Source", d, hash, AsJson(Dict([])), None);
  }

  lemma {:induction false} HollowConfig(sha1: Sha1)
    ensures Plain(EMPTY_CONFIG) && Prepare(sha1, EMPTY_CONFIG).Ok? && Contribution(sha1, EMPTY_CONFIG) == Ok([sha1("")])
    ensures PrepareValue(sha1, EMPTY_CONFIG).Ok? && PrepareValue(sha1, EMPTY_CONFIG).value.tree.Dict?
    ensures Cleanup(PrepareValue(sha1, EMPTY_CONFIG).value.tree) == Dict([])
  {
    OneEmptyItem(sha1, "host", Null);
    assert PruneItems(EMPTY_CONFIG.items[..0]) == [];
    PlainHash(sha1, EMPTY_CONFIG);
    CleanupOfPrepare(sha1, EMPTY_CONFIG);
  }
}
