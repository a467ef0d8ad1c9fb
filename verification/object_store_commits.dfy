/** Committing well-formed trees: committing twice, committing an equivalent tree, and
    the recursive hash of what is stored. */
module ObjectStoreCommits {
  import opened Wrappers
  import opened CommitTrees
  import opened CommitTreeLaws
  import opened SealedTrees
  import opened ObjectStore
  import opened ObjectStoreKeeps
  import opened ObjectStoreLaws

  // ----- well-formed trees -----

  /** The live keys of the tree are fields of the model, with values of the right kind,
      which cleaning does not change once dates are naive; fields that are needed are
      there; JSON values keep their dicts when pruned. */
  ghost predicate WellFormed(schema: Schema, model: string, u: Value)
    decreases u, 1
  {
    && u.Dict?
    && model in schema
    && (forall i | 0 <= i < |u.items| && Live(u.items[i]) :: WellFormedItem(schema, model, u.items[i]))
    && forall d | d in schema[model] && d.name !in LiveKeys(u.items) :: AbsentOk(d.kind)
  }

  ghost predicate WellFormedItem(schema: Schema, model: string, item: Item)
    requires model in schema
    decreases item, 3
  {
    var d := FindDef(schema[model], item.key);
    d.Some? && WellFormedValue(schema, d.value, item.val)
  }

  ghost predicate WellFormedValue(schema: Schema, d: FieldDef, v: Value)
    decreases v, 2
  {
    match v
    case Dict(_) =>
      if d.kind.Json? then NoHollow(v) && Prune(v) != Dict([])
      else d.kind.ForeignKey? && WellFormed(schema, d.kind.related, v)
    case List(elems) =>
      d.kind.ManyToMany? && forall i | 0 <= i < |elems| :: WellFormed(schema, d.kind.related, elems[i])
    case _ => d.kind.Scalar? && IsScalar(v) && CleansSame(d.kind.clean, Prune(v))
  }

  lemma {:induction false} PreparedConforms(sha1: Sha1, schema: Schema, model: string, u: Value)
    requires Plain(u) && WellFormed(schema, model, u) && Prepare(sha1, u).Ok?
    ensures Conforms(sha1, schema, model, Prepare(sha1, u).value)
    decreases u, 1
  {
    PlainHash(sha1, u);
    var p := PrepareItems(sha1, u.items).value;
    var hash := Digest(sha1, FeedOf(p.fields));
    LookupNone(u.items, MT_HASH);
    PrepareItemsSeal(sha1, u.items);
    LookupNone(p.items, MT_HASH);
    ItemsFeed(sha1, u.items);
    KeptItemsConform(sha1, schema, model, u.items);
    WithHash(p.items, hash);
    assert FeedOf(p.fields).Keys == LiveKeys(u.items);
    WithHashConforms(sha1, schema, model, p.items, hash);
  }

  lemma {:induction false} WithHashConforms(sha1: Sha1, schema: Schema, model: string, items: seq<Item>, hash: Hex)
    requires model in schema
    requires forall i | 0 <= i < |items| :: KeptConforms(sha1, schema, model, items[i])
    requires DataFeed(items + [Item(MT_HASH, Str(hash))]) == DataFeed(items)
    requires forall d | d in schema[model] && d.name !in DataFeed(items) :: AbsentOk(d.kind)
    ensures Conforms(sha1, schema, model, Dict(items + [Item(MT_HASH, Str(hash))]))
  {
    var all := items + [Item(MT_HASH, Str(hash))];
    forall i | 0 <= i < |all| && all[i].key != MT_HASH ensures KeptConforms(sha1, schema, model, all[i]) {
      assert all[i] == items[i];
    }
  }

  ghost predicate KeptConforms(sha1: Sha1, schema: Schema, model: string, item: Item)
    requires model in schema
  {
    var d := FindDef(schema[model], item.key);
    d.Some? && ValueConforms(sha1, schema, d.value, item.val)
  }

  ghost predicate AllKeptConform(sha1: Sha1, schema: Schema, model: string, items: seq<Item>)
    requires model in schema
  {
    forall i | 0 <= i < |items| :: KeptConforms(sha1, schema, model, items[i])
  }

  lemma {:induction false} KeptConformSnoc(sha1: Sha1, schema: Schema, model: string, front: seq<Item>, last: Item)
    requires model in schema
    requires AllKeptConform(sha1, schema, model, front) && KeptConforms(sha1, schema, model, last)
    ensures AllKeptConform(sha1, schema, model, front + [last])
  {
  }

  lemma {:induction false} WellFormedFront(schema: Schema, model: string, front: seq<Item>, last: Item)
    requires model in schema
    requires forall i | 0 <= i < |front + [last]| && Live((front + [last])[i]) ::
               WellFormedItem(schema, model, (front + [last])[i])
    ensures forall i | 0 <= i < |front| && Live(front[i]) :: WellFormedItem(schema, model, front[i])
    ensures Live(last) ==> WellFormedItem(schema, model, last)
  {
    var items := front + [last];
    assert items[|front|] == last && forall i | 0 <= i < |front| :: items[i] == front[i];
  }

  lemma {:induction false} KeptItemsConform(sha1: Sha1, schema: Schema, model: string, items: seq<Item>)
    requires Plain(Dict(items)) && model in schema && PrepareItems(sha1, items).Ok?
    requires forall i | 0 <= i < |items| && Live(items[i]) :: WellFormedItem(schema, model, items[i])
    ensures AllKeptConform(sha1, schema, model, PrepareItems(sha1, items).value.items)
    decreases items, 0
  {
    if items != [] {
      var front, last := items[..|items| - 1], items[|items| - 1];
      assert items == front + [last];
      PlainFront(front, last);
      WellFormedFront(schema, model, front, last);
      PrepareSnoc(sha1, front, last);
      KeptItemsConform(sha1, schema, model, front);
      if Live(last) {
        KeptLast(sha1, front, last);
        PreparedValueConforms(sha1, schema, FindDef(schema[model], last.key).value, last.val);
        KeptConformSnoc(sha1, schema, model, PrepareItems(sha1, front).value.items,
          Item(last.key, PrepareValue(sha1, last.val).value.tree));
      }
    }
  }

  /** The last item of a prepared dict, if it is kept. */
  lemma {:induction false} KeptLast(sha1: Sha1, front: seq<Item>, last: Item)
    requires Plain(Dict(front + [last])) && PrepareItems(sha1, front + [last]).Ok? && Live(last)
    ensures PrepareItems(sha1, front).Ok? && PrepareValue(sha1, last.val).Ok?
    ensures PrepareItems(sha1, front + [last]).value.items ==
            PrepareItems(sha1, front).value.items + [Item(last.key, PrepareValue(sha1, last.val).value.tree)]
  {
    var items := front + [last];
    assert items[..|front|] == front && items[|front|] == last;
    ItemsFeed(sha1, items);
    assert ItemFits(sha1, items[|front|]);
    HashedNotEmpty(sha1, last.val);
    KeptItem(PrepareItems(sha1, front).value, last.key, PrepareValue(sha1, last.val).value);
  }

  lemma {:induction false} PreparedValueConforms(sha1: Sha1, schema: Schema, d: FieldDef, v: Value)
    requires Plain(v) && WellFormedValue(schema, d, v) && PrepareValue(sha1, v).Ok?
    ensures ValueConforms(sha1, schema, d, PrepareValue(sha1, v).value.tree)
    decreases v, 2
  {
    match v
    case Dict(items) =>
      if d.kind.Json? {
        PrunedJsonStable(sha1, v);
      } else {
        PreparedConforms(sha1, schema, d.kind.related, v);
      }
    case List(elems) =>
      PreparedElemsConform(sha1, schema, d.kind.related, elems);
    case _ =>
  }

  lemma {:induction false} PrunedJsonStable(sha1: Sha1, v: Value)
    requires Plain(v) && v.Dict? && NoHollow(v) && Prune(v) != Dict([]) && Prepare(sha1, v).Ok?
    ensures JsonStable(sha1, Prepare(sha1, v).value)
  {
    CleanupOfPrepare(sha1, v);
    PrunePlain(v);
    CleanedUpHash(sha1, v);
    PrepareDictSeals(sha1, v.items);
  }

  lemma {:induction false} PreparedElemsConform(sha1: Sha1, schema: Schema, model: string, elems: seq<Value>)
    requires Plain(List(elems)) && PrepareList(sha1, elems).Ok?
    requires forall i | 0 <= i < |elems| :: WellFormed(schema, model, elems[i])
    ensures forall i | 0 <= i < |PrepareList(sha1, elems).value.trees| ::
              Conforms(sha1, schema, model, PrepareList(sha1, elems).value.trees[i])
    decreases elems, 0
  {
    if elems != [] {
      var front, last := elems[..|elems| - 1], elems[|elems| - 1];
      PreparedElemsConform(sha1, schema, model, front);
      PreparedConforms(sha1, schema, model, last);
    }
  }

  // ----- commit -----

  /** `commit` of a well-formed tree succeeds and keeps the invariant; the object it
      returns has the hash of the tree. */
  lemma {:induction false} CommitSound(sha1: Sha1, schema: Schema, s: Store, model: string, u: Value)
    requires GoodSchema(schema) && Inv(sha1, schema, s)
    requires Plain(u) && WellFormed(schema, model, u) && Prepare(sha1, u).Ok?
    ensures var o := Commit(sha1, schema, s, model, u);
            && o.result.Ok? && Inv(sha1, schema, o.store) && Extends(s, o.store)
            && IsRow(o.store, model, HashText(sha1, u), o.result.value.0)
  {
    PrepareDictSeals(sha1, u.items);
    PreparedConforms(sha1, schema, model, u);
    CommitPreparedSound(sha1, schema, s, model, Prepare(sha1, u).value);
  }

  /** A tree whose hash is stored is not stored again. */
  lemma {:induction false} CommitStored(sha1: Sha1, schema: Schema, s: Store, model: string, u: Value, id: nat)
    requires model in schema && Inv(sha1, schema, s)
    requires Plain(u) && u.Dict? && Prepare(sha1, u).Ok?
    requires IsRow(s, model, HashText(sha1, u), id)
    ensures Commit(sha1, schema, s, model, u) == Outcome(s, Ok((id, false)))
  {
    PrepareDictSeals(sha1, u.items);
    assert !Find(s, model, HashText(sha1, u)).None?;
  }

  /** Committing a tree again, or any tree equivalent to it, returns the same object
      with created=False and changes nothing. */
  lemma {:induction false} CommitAgain(sha1: Sha1, schema: Schema, s: Store, model: string, u: Value, w: Value)
    requires GoodSchema(schema) && Inv(sha1, schema, s)
    requires Plain(u) && WellFormed(schema, model, u) && Prepare(sha1, u).Ok?
    requires Plain(w) && Equivalent(u, w)
    ensures var o := Commit(sha1, schema, s, model, u);
            o.result.Ok? && Commit(sha1, schema, o.store, model, w) == Outcome(o.store, Ok((o.result.value.0, false)))
  {
    CommitSound(sha1, schema, s, model, u);
    CanonicalHash(sha1, u, w);
    var o := Commit(sha1, schema, s, model, u);
    CommitStored(sha1, schema, o.store, model, w, o.result.value.0);
  }

  /** created=True comes with a new row, for a hash the model did not have. */
  lemma {:induction false} CreatedMeansNew(sha1: Sha1, schema: Schema, s: Store, model: string, u: Value)
    requires GoodSchema(schema) && Inv(sha1, schema, s) && Plain(u)
    requires Commit(sha1, schema, s, model, u).result.Ok? && Commit(sha1, schema, s, model, u).result.value.1
    ensures Find(s, model, HashText(sha1, u)).None?
    ensures Commit(sha1, schema, s, model, u).result.value.0 !in s.rows
  {
    PrepareDictSeals(sha1, u.items);
    var t := Prepare(sha1, u).value;
    BuildKeeps(sha1, schema, s, model, t.items, |t.items|, t);
    assert t.items[..|t.items|] == t.items;
    var b := Build(sha1, schema, s, schema[model], t.items);
    var row := Row(model, HashTextIn(t), b.vals.value);
    SaveCreates(sha1, schema, b.store, row);
    NextIsNew(sha1, schema, b.store, row);
  }

  lemma {:induction false} SaveCreates(sha1: Sha1, schema: Schema, s: Store, row: Row)
    requires row.model in schema && Save(sha1, schema, s, row).result.Ok? && Save(sha1, schema, s, row).result.value.1
    ensures Save(sha1, schema, s, row).result.value.0 == s.next
  {
  }

  // ----- hash(recursive=True) -----

  ghost function RecursiveFields(sha1: Sha1, schema: Schema, s: Store, id: nat,
      defs: seq<FieldDef>): Result<map<string, Field>, TreeError>
    requires id in s.rows
    decreases id, 3, |defs|
  {
    if defs == [] then Ok(map[])
    else
      var d := defs[|defs| - 1];
      var fields :- RecursiveFields(sha1, schema, s, id, defs[..|defs| - 1]);
      var v :- RecursiveValue(sha1, schema, s, id, Attribute(s.rows[id], d));
      AddTo(fields, d.name, v)
  }

  ghost function RecursiveValue(sha1: Sha1, schema: Schema, s: Store, id: nat, a: Stored): Result<Value, TreeError>
    decreases id, 2, 0
  {
    match a
    case Reference(Some(target)) => RecursiveHash(sha1, schema, s, id, target)
    case References(ids) =>
      var hashes :- RecursiveHashes(sha1, schema, s, id, ids);
      Ok(List(hashes))
    case _ => HashedValue(sha1, s, a)
  }

  /** `v.hash()` of a referenced object; references to newer rows do not occur. */
  ghost function RecursiveHash(sha1: Sha1, schema: Schema, s: Store, id: nat, target: nat): Result<Value, TreeError>
    decreases id, 0, 0
  {
    if target < id && target in s.rows && s.rows[target].model in schema then
      var fields :- RecursiveFields(sha1, schema, s, target, schema[s.rows[target].model]);
      Ok(Str(Digest(sha1, FeedOf(fields))))
    else Err(InvalidFieldValue)
  }

  ghost function RecursiveHashes(sha1: Sha1, schema: Schema, s: Store, id: nat,
      ids: seq<nat>): Result<seq<Value>, TreeError>
    decreases id, 1, |ids|
  {
    if ids == [] then Ok([])
    else
      var front :- RecursiveHashes(sha1, schema, s, id, ids[..|ids| - 1]);
      var h :- RecursiveHash(sha1, schema, s, id, ids[|ids| - 1]);
      Ok(front + [h])
  }

  lemma {:induction false} SameHashes(sha1: Sha1, schema: Schema, s: Store, id: nat, ids: seq<nat>)
    requires Inv(sha1, schema, s)
    requires forall t | t in ids :: t in s.rows && t < id
    ensures RecursiveHashes(sha1, schema, s, id, ids) == Ok(RowHashes(s, ids))
    decreases id, 1, |ids|
  {
    if ids != [] {
      var front, last := ids[..|ids| - 1], ids[|ids| - 1];
      assert ids == front + [last];
      SameHashes(sha1, schema, s, id, front);
      RecursiveHashIsHash(sha1, schema, s, id, last);
      assert RowHashes(s, ids) == RowHashes(s, front) + [Str(s.rows[last].mtHash)];
    }
  }

  lemma {:induction false} SameFields(sha1: Sha1, schema: Schema, s: Store, id: nat, defs: seq<FieldDef>)
    requires Inv(sha1, schema, s) && id in s.rows
    requires forall d | d in defs :: Typed(sha1, s, id, d, Attribute(s.rows[id], d))
    ensures RecursiveFields(sha1, schema, s, id, defs) == ShallowFields(sha1, s, s.rows[id], defs)
    decreases id, 2, |defs|
  {
    if defs != [] {
      var front, last := defs[..|defs| - 1], defs[|defs| - 1];
      assert defs == front + [last];
      SameFields(sha1, schema, s, id, front);
      SameValue(sha1, schema, s, id, last, Attribute(s.rows[id], last));
    }
  }

  lemma {:induction false} SameValue(sha1: Sha1, schema: Schema, s: Store, id: nat, d: FieldDef, a: Stored)
    requires Inv(sha1, schema, s) && Typed(sha1, s, id, d, a)
    ensures RecursiveValue(sha1, schema, s, id, a) == HashedValue(sha1, s, a)
    decreases id, 1, |if a.References? then a.ids else []| + 1
  {
    if a.Reference? && a.id.Some? {
      RecursiveHashIsHash(sha1, schema, s, id, a.id.value);
    } else if a.References? {
      SameHashes(sha1, schema, s, id, a.ids);
    }
  }

  /** The recursive hash of a stored object is its `mt_hash` as well. */
  lemma {:induction false} RecursiveHashIsHash(sha1: Sha1, schema: Schema, s: Store, id: nat, target: nat)
    requires Inv(sha1, schema, s) && target in s.rows && target < id
    ensures RecursiveHash(sha1, schema, s, id, target) == Ok(Str(s.rows[target].mtHash))
    decreases id, 0, 0
  {
    assert RowOk(sha1, schema, s, target);
    SameFields(sha1, schema, s, target, schema[s.rows[target].model]);
  }
}
