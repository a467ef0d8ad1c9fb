/** `serialize`: a stored object as a tree again. Preparing that tree gives the
    object's own `mt_hash` back, as long as no reference serializes to {}. */
module ObjectSerialization {
  import opened Wrappers
  import opened Sequences
  import opened CommitTrees
  import opened CommitTreeLaws
  import opened ObjectStore
  import opened ObjectStoreKeeps
  import opened ObjectStoreCommits

  ghost function SerializedItems(schema: Schema, s: Store, id: nat, defs: seq<FieldDef>): seq<Item>
    requires id in s.rows
    decreases id, 3, |defs|
  {
    if defs == [] then []
    else
      var d := defs[|defs| - 1];
      var front := SerializedItems(schema, s, id, defs[..|defs| - 1]);
      var v := SerializedValue(schema, s, id, Attribute(s.rows[id], d));
      if IsEmptyValue(v) then front else front + [Item(d.name, v)]
  }

  ghost function SerializedValue(schema: Schema, s: Store, id: nat, a: Stored): Value
    decreases id, 2
  {
    match a
    case Plainly(v) => if v.Date? then Str(v.iso) else v
    case AsJson(v) => v
    case Reference(None) => Null
    case Reference(Some(target)) => SerializedBelow(schema, s, id, target)
    case References(ids) => List(SerializedList(schema, s, id, ids))
  }

  ghost function SerializedList(schema: Schema, s: Store, id: nat, ids: seq<nat>): (r: seq<Value>)
    decreases id, 1, |ids|
  {
    if ids == [] then []
    else SerializedList(schema, s, id, ids[..|ids| - 1]) +
         [SerializedBelow(schema, s, id, ids[|ids| - 1])]
  }

  /** An object referenced by row `id`; references to newer rows do not occur. */
  ghost function SerializedBelow(schema: Schema, s: Store, id: nat, target: nat): Value
    decreases id, 0
  {
    if target < id then Serialized(schema, s, target) else Null
  }

  /** `obj.serialize()` */
  ghost function Serialized(schema: Schema, s: Store, id: nat): Value
    decreases id, 4
  {
    if id in s.rows && s.rows[id].model in schema then Dict(SerializedItems(schema, s, id, schema[s.rows[id].model]))
    else Null
  }

  /** No object reached from this one through a foreign key serializes to {}. */
  ghost predicate NoBlankReference(schema: Schema, s: Store, id: nat)
    requires id in s.rows
    decreases id, 1
  {
    s.rows[id].model in schema && forall d | d in schema[s.rows[id].model] ::
        NotBlank(schema, s, id, Attribute(s.rows[id], d))
  }

  ghost predicate NotBlank(schema: Schema, s: Store, id: nat, a: Stored)
    decreases id, 0
  {
    match a
    case Reference(Some(target)) =>
      target < id && target in s.rows && NoBlankReference(schema, s, target) &&
          Serialized(schema, s, target) != Dict([])
    case References(ids) => forall t | t in ids :: t < id && t in s.rows && NoBlankReference(schema, s, t)
    case _ => true
  }

  // ----- the serialized tree is a plain tree -----

  lemma {:induction false} SerializedPlain(sha1: Sha1, schema: Schema, s: Store, id: nat)
    requires GoodSchema(schema) && Inv(sha1, schema, s) && id in s.rows
    ensures Plain(Serialized(schema, s, id)) && Serialized(schema, s, id).Dict?
    decreases id, 4
  {
    assert RowOk(sha1, schema, s, id);
    SerializedItemsPlain(sha1, schema, s, id, schema[s.rows[id].model]);
  }

  ghost predicate TypedRow(sha1: Sha1, s: Store, id: nat, defs: seq<FieldDef>)
    requires id in s.rows
  {
    DistinctNames(defs) && forall d | d in defs :: Typed(sha1, s, id, d, Attribute(s.rows[id], d))
  }

  lemma {:induction false} TypedFront(sha1: Sha1, s: Store, id: nat, front: seq<FieldDef>, last: FieldDef)
    requires id in s.rows && TypedRow(sha1, s, id, front + [last])
    ensures TypedRow(sha1, s, id, front) && Typed(sha1, s, id, last, Attribute(s.rows[id], last))
    ensures last.name != "" && last.name != MT_HASH && last.name !in Names(front)
    ensures Names(front + [last]) == Names(front) + {last.name}
  {
    var defs := front + [last];
    assert defs[|front|] == last && forall i | 0 <= i < |front| :: defs[i] == front[i];
    assert forall d | d in front :: d in defs;
  }

  ghost predicate PlainItems(items: seq<Item>, names: set<string>) {
    Plain(Dict(items)) && forall i | 0 <= i < |items| :: items[i].key in names && Live(items[i])
  }

  lemma {:induction false} SerializedItemsPlain(sha1: Sha1, schema: Schema, s: Store, id: nat, defs: seq<FieldDef>)
    requires GoodSchema(schema) && Inv(sha1, schema, s) && id in s.rows && TypedRow(sha1, s, id, defs)
    ensures PlainItems(SerializedItems(schema, s, id, defs), Names(defs))
    decreases id, 3, |defs|
  {
    if defs != [] {
      var front, last := defs[..|defs| - 1], defs[|defs| - 1];
      assert defs == front + [last];
      TypedFront(sha1, s, id, front, last);
      SerializedItemsPlain(sha1, schema, s, id, front);
      SerializedValuePlain(sha1, schema, s, id, last, Attribute(s.rows[id], last));
    }
  }

  lemma {:induction false} SerializedValuePlain(sha1: Sha1, schema: Schema, s: Store, id: nat, d: FieldDef, a: Stored)
    requires GoodSchema(schema) && Inv(sha1, schema, s) && Typed(sha1, s, id, d, a)
    ensures Plain(SerializedValue(schema, s, id, a))
    decreases id, 2
  {
    if a.Reference? && a.id.Some? {
      SerializedPlain(sha1, schema, s, a.id.value);
    } else if a.References? {
      SerializedListPlain(sha1, schema, s, id, a.ids);
    }
  }

  lemma {:induction false} SerializedListPlain(sha1: Sha1, schema: Schema, s: Store, id: nat, ids: seq<nat>)
    requires GoodSchema(schema) && Inv(sha1, schema, s)
    requires forall t | t in ids :: t in s.rows && t < id
    ensures |SerializedList(schema, s, id, ids)| == |ids|
    ensures forall i | 0 <= i < |ids| :: SerializedList(schema, s, id, ids)[i] == Serialized(schema, s, ids[i])
    ensures Plain(List(SerializedList(schema, s, id, ids)))
    decreases id, 1, |ids|
  {
    if ids != [] {
      var front, last := ids[..|ids| - 1], ids[|ids| - 1];
      assert ids == front + [last];
      assert last in ids;
      SerializedListPlain(sha1, schema, s, id, front);
      SerializedPlain(sha1, schema, s, last);
      PlainListSnoc(SerializedList(schema, s, id, front), Serialized(schema, s, last));
    }
  }

  lemma {:induction false} PlainListSnoc(front: seq<Value>, last: Value)
    requires Plain(List(front)) && Plain(last)
    ensures Plain(List(front + [last]))
  {
    var all := front + [last];
    assert forall i | 0 <= i < |front| :: all[i] == front[i];
  }

  // ----- preparing the serialized tree -----

  /** The hasher ends up with the very fields the object is hashed with. */
  ghost predicate SameFields(sha1: Sha1, schema: Schema, s: Store, id: nat, defs: seq<FieldDef>)
    requires id in s.rows
  {
    var p := PrepareItems(sha1, SerializedItems(schema, s, id, defs));
    var f := ShallowFields(sha1, s, s.rows[id], defs);
    p.Ok? && f.Ok? && p.value.fields == f.value
  }

  lemma {:induction false} SerializedSameFields(sha1: Sha1, schema: Schema, s: Store, id: nat, defs: seq<FieldDef>)
    requires GoodSchema(schema) && Inv(sha1, schema, s) && id in s.rows && TypedRow(sha1, s, id, defs)
    requires forall d | d in defs :: NotBlank(schema, s, id, Attribute(s.rows[id], d))
    requires ShallowFields(sha1, s, s.rows[id], defs).Ok?
    ensures SameFields(sha1, schema, s, id, defs)
    decreases id, 3, |defs|
  {
    if defs != [] {
      var front, last := defs[..|defs| - 1], defs[|defs| - 1];
      assert defs == front + [last];
      TypedFront(sha1, s, id, front, last);
      SerializedSameFields(sha1, schema, s, id, front);
      assert NotBlank(schema, s, id, Attribute(s.rows[id], last));
      SerializedSameValue(sha1, schema, s, id, last, Attribute(s.rows[id], last));
      SameFieldsSnoc(sha1, schema, s, id, front, last);
    }
  }

  /** A serialized value is dropped when nothing was hashed for it, and is hashed the
      same otherwise. */
  ghost predicate SameValue(sha1: Sha1, schema: Schema, s: Store, id: nat, a: Stored) {
    var v, h := SerializedValue(schema, s, id, a), HashedValue(sha1, s, a);
    && h.Ok?
    && if IsEmptyValue(v) then IsEmptyValue(h.value)
       else PrepareValue(sha1, v).Ok? && !IsEmptyValue(h.value) && !IsEmptyValue(PrepareValue(sha1, v).value.hashed)
            && FieldOf(PrepareValue(sha1, v).value.hashed) == FieldOf(h.value)
  }

  lemma {:induction false} SerializedSnoc(schema: Schema, s: Store, id: nat, front: seq<FieldDef>, last: FieldDef)
    requires id in s.rows
    ensures var items, v := SerializedItems(schema, s, id, front),
            SerializedValue(schema, s, id, Attribute(s.rows[id], last));
            SerializedItems(schema, s, id, front + [last]) ==
            if IsEmptyValue(v) then items else items + [Item(last.name, v)]
  {
    assert (front + [last])[..|front|] == front;
  }

  /** A kept item adds to the hasher what its prepared value is hashed with. */
  lemma {:induction false} PreparedSnoc(sha1: Sha1, items: seq<Item>, last: Item)
    requires PrepareItems(sha1, items).Ok? && !IsEmptyValue(last.val) && PrepareValue(sha1, last.val).Ok?
    ensures var p, q := PrepareItems(sha1, items + [last]), PrepareValue(sha1, last.val).value;
            var fields := AddTo(PrepareItems(sha1, items).value.fields, last.key, q.hashed);
            (p.Ok? <==> fields.Ok?) && (p.Ok? ==> p.value.fields == fields.value)
  {
    assert (items + [last])[..|items|] == items;
  }

  lemma {:induction false} AddedAlike(fields: map<string, Field>, name: string, v: Value, w: Value)
    requires !IsEmptyValue(v) && !IsEmptyValue(w) && FieldOf(v) == FieldOf(w)
    ensures AddTo(fields, name, v) == AddTo(fields, name, w)
  {
  }

  lemma {:induction false} SameFieldsSnoc(sha1: Sha1, schema: Schema, s: Store, id: nat, front: seq<FieldDef>,
      last: FieldDef)
    requires id in s.rows && SameFields(sha1, schema, s, id, front)
    requires SameValue(sha1, schema, s, id, Attribute(s.rows[id], last))
    requires ShallowFields(sha1, s, s.rows[id], front + [last]).Ok?
    ensures SameFields(sha1, schema, s, id, front + [last])
  {
    var a, items := Attribute(s.rows[id], last), SerializedItems(schema, s, id, front);
    var v, fields := SerializedValue(schema, s, id, a), PrepareItems(sha1, items).value.fields;
    SerializedSnoc(schema, s, id, front, last);
    ShallowSnoc(sha1, s, s.rows[id], front, last);
    if !IsEmptyValue(v) {
      PreparedSnoc(sha1, items, Item(last.name, v));
      AddedAlike(fields, last.name, PrepareValue(sha1, v).value.hashed, HashedValue(sha1, s, a).value);
    }
  }

  lemma {:induction false} SerializedSameValue(sha1: Sha1, schema: Schema, s: Store, id: nat, d: FieldDef, a: Stored)
    requires GoodSchema(schema) && Inv(sha1, schema, s) && Typed(sha1, s, id, d, a) && NotBlank(schema, s, id, a)
    ensures SameValue(sha1, schema, s, id, a)
    decreases id, 2
  {
    match a
    case Reference(Some(target)) =>
      SerializedPlain(sha1, schema, s, target);
      SerializedHash(sha1, schema, s, target);
      assert RowOk(sha1, schema, s, target);
      ReferenceSameValue(sha1, schema, s, id, target);
    case References(ids) =>
      SerializedSameList(sha1, schema, s, id, d.kind.related, ids);
    case AsJson(v) =>
      if v.Dict? {
        PlainHash(sha1, v);
      }
    case _ =>
  }

  lemma {:induction false} ReferenceSameValue(sha1: Sha1, schema: Schema, s: Store, id: nat, target: nat)
    requires target in s.rows && target < id && |s.rows[target].mtHash| == 40
    requires var t := Serialized(schema, s, target);
             && t.Dict? && t != Dict([]) && Plain(t) && Prepare(sha1, t).Ok? &&
                 HashText(sha1, t) == s.rows[target].mtHash
    ensures SameValue(sha1, schema, s, id, Reference(Some(target)))
  {
    assert SerializedBelow(schema, s, id, target) == Serialized(schema, s, target);
    HashedByText(sha1, Serialized(schema, s, target), s.rows[target].mtHash);
  }

  lemma {:induction false} HashedByText(sha1: Sha1, t: Value, hash: string)
    requires t.Dict? && Plain(t) && Prepare(sha1, t).Ok? && HashText(sha1, t) == hash
    ensures PrepareValue(sha1, t).Ok? && PrepareValue(sha1, t).value.hashed == Str(hash)
  {
    HashableText(sha1, t);
  }

  lemma {:induction false} SerializedSameList(sha1: Sha1, schema: Schema, s: Store, id: nat, related: string,
      ids: seq<nat>)
    requires GoodSchema(schema) && Inv(sha1, schema, s) && NoDuplicates(ids)
    requires forall t | t in ids :: RefersTo(s, id, related, t) && NoBlankReference(schema, s, t)
    ensures SameValue(sha1, schema, s, id, References(ids))
    decreases id, 1, |ids|
  {
    var trees := SerializedList(schema, s, id, ids);
    SerializedListPlain(sha1, schema, s, id, ids);
    forall i | 0 <= i < |ids| ensures ElementHash(sha1, s, related, ids[i], trees[i]) {
      SerializedElement(sha1, schema, s, id, related, ids[i]);
    }
    ListHashes(sha1, s, related, ids, trees);
    assert PrepareValue(sha1, List(trees)) == Ok(Prepared(List(PrepareList(sha1, trees).value.trees),
           List(RowHashes(s, ids))));
  }

  ghost predicate ElementHash(sha1: Sha1, s: Store, related: string, target: nat, tree: Value) {
    && target in s.rows && s.rows[target].model == related && |s.rows[target].mtHash| == 40
    && Hashable(sha1, tree) && HashText(sha1, tree) == s.rows[target].mtHash
  }

  lemma {:induction false} SerializedElement(sha1: Sha1, schema: Schema, s: Store, id: nat, related: string,
      target: nat)
    requires GoodSchema(schema) && Inv(sha1, schema, s)
    requires RefersTo(s, id, related, target) && NoBlankReference(schema, s, target)
    ensures ElementHash(sha1, s, related, target, Serialized(schema, s, target))
    decreases id, 0
  {
    SerializedHash(sha1, schema, s, target);
    assert RowOk(sha1, schema, s, target);
  }

  lemma {:induction false} DifferentElements(sha1: Sha1, s: Store, related: string, ids: seq<nat>, trees: seq<Value>)
    requires Unique(s) && NoDuplicates(ids) && |trees| == |ids|
    requires forall i | 0 <= i < |ids| :: ElementHash(sha1, s, related, ids[i], trees[i])
    ensures NoDuplicates(HashTexts(sha1, trees)) && forall i | 0 <= i < |trees| :: Hashable(sha1, trees[i])
  {
    var texts := HashTexts(sha1, trees);
    forall i, j | 0 <= i < j < |texts| ensures texts[i] != texts[j] {
      assert ids[i] != ids[j];
      assert ElementHash(sha1, s, related, ids[i], trees[i]) && ElementHash(sha1, s, related, ids[j], trees[j]);
    }
    forall i | 0 <= i < |trees| ensures Hashable(sha1, trees[i]) {
      assert ElementHash(sha1, s, related, ids[i], trees[i]);
    }
  }

  lemma {:induction false} ListHashes(sha1: Sha1, s: Store, related: string, ids: seq<nat>, trees: seq<Value>)
    requires Unique(s) && NoDuplicates(ids) && |trees| == |ids| && Plain(List(trees))
    requires forall i | 0 <= i < |ids| :: ElementHash(sha1, s, related, ids[i], trees[i])
    ensures PrepareList(sha1, trees).Ok?
    ensures PrepareList(sha1, trees).value.hashes == RowHashes(s, ids)
  {
    DifferentElements(sha1, s, related, ids, trees);
    ListFeed(sha1, trees);
    var hashes := PrepareList(sha1, trees).value.hashes;
    forall i | 0 <= i < |ids| ensures hashes[i] == RowHashes(s, ids)[i] {
      assert ElementHash(sha1, s, related, ids[i], trees[i]);
    }
  }

  /** Preparing `obj.serialize()` gives back the hash of the object. */
  lemma {:induction false} SerializedHash(sha1: Sha1, schema: Schema, s: Store, id: nat)
    requires GoodSchema(schema) && Inv(sha1, schema, s) && id in s.rows && NoBlankReference(schema, s, id)
    ensures Serialized(schema, s, id).Dict? && Prepare(sha1, Serialized(schema, s, id)).Ok?
    ensures HashText(sha1, Serialized(schema, s, id)) == s.rows[id].mtHash
    decreases id, 4
  {
    assert RowOk(sha1, schema, s, id);
    var defs := schema[s.rows[id].model];
    SerializedPlain(sha1, schema, s, id);
    SerializedSameFields(sha1, schema, s, id, defs);
    PlainHash(sha1, Serialized(schema, s, id));
  }

  /** Committing `obj.serialize()` finds the object and stores nothing. */
  lemma {:induction false} CommitSerialized(sha1: Sha1, schema: Schema, s: Store, id: nat)
    requires GoodSchema(schema) && Inv(sha1, schema, s) && id in s.rows && NoBlankReference(schema, s, id)
    ensures Commit(sha1, schema, s, s.rows[id].model, Serialized(schema, s, id)) == Outcome(s, Ok((id, false)))
  {
    assert RowOk(sha1, schema, s, id);
    SerializedPlain(sha1, schema, s, id);
    SerializedHash(sha1, schema, s, id);
    CommitStored(sha1, schema, s, s.rows[id].model, Serialized(schema, s, id), id);
  }

  /** Objects of one model serialize differently. */
  lemma {:induction false} SerializedInjective(sha1: Sha1, schema: Schema, s: Store, i: nat, j: nat)
    requires GoodSchema(schema) && Inv(sha1, schema, s) && i in s.rows && j in s.rows
    requires NoBlankReference(schema, s, i) && NoBlankReference(schema, s, j)
    requires s.rows[i].model == s.rows[j].model && Serialized(schema, s, i) == Serialized(schema, s, j)
    ensures i == j
  {
    SerializedHash(sha1, schema, s, i);
    SerializedHash(sha1, schema, s, j);
  }

  // ----- what is serialized -----

  /** The value of a field: the attribute itself, a date as its ISO text, the serialized
      object of a foreign key, or the list of the serialized objects, in order. */
  ghost predicate SerializesTo(schema: Schema, s: Store, a: Stored, v: Value) {
    match a
    case Plainly(Date(iso, _)) => v == Str(iso)
    case Plainly(w) => v == w
    case AsJson(w) => v == w
    case Reference(None) => v == Null
    case Reference(Some(target)) => v == Serialized(schema, s, target)
    case References(ids) =>
      v.List? && |v.elems| == |ids| && forall i | 0 <= i < |ids| :: v.elems[i] == Serialized(schema, s, ids[i])
  }

  lemma {:induction false} SerializedValueIs(sha1: Sha1, schema: Schema, s: Store, id: nat, d: FieldDef)
    requires GoodSchema(schema) && Inv(sha1, schema, s) && id in s.rows && s.rows[id].model in schema
    requires d in schema[s.rows[id].model]
    ensures SerializesTo(schema, s, Attribute(s.rows[id], d), SerializedValue(schema, s, id, Attribute(s.rows[id], d)))
  {
    assert RowOk(sha1, schema, s, id);
    var a := Attribute(s.rows[id], d);
    assert Typed(sha1, s, id, d, a);
    if a.References? {
      SerializedListPlain(sha1, schema, s, id, a.ids);
    }
  }

  /** A serialized object has the fields of its model whose values are not None, [] or {}. */
  lemma {:induction false} SerializedIs(sha1: Sha1, schema: Schema, s: Store, id: nat, item: Item)
    requires GoodSchema(schema) && Inv(sha1, schema, s) && id in s.rows
    ensures Serialized(schema, s, id).Dict?
    ensures item in Serialized(schema, s, id).items <==>
            && item.val != Null && item.val != List([]) && item.val != Dict([])
            && exists d :: d in schema[s.rows[id].model] && d.name == item.key &&
                 SerializesTo(schema, s, Attribute(s.rows[id], d), item.val)
  {
    assert RowOk(sha1, schema, s, id);
    var defs := schema[s.rows[id].model];
    forall d | d in defs
      ensures SerializesTo(schema, s, Attribute(s.rows[id], d),
                           SerializedValue(schema, s, id, Attribute(s.rows[id], d)))
    {
      SerializedValueIs(sha1, schema, s, id, d);
    }
    ItemsAre(schema, s, id, defs, item);
    forall d | d in defs && SerializesTo(schema, s, Attribute(s.rows[id], d), item.val)
      ensures item.val == SerializedValue(schema, s, id, Attribute(s.rows[id], d))
    {
      OneSerialization(schema, s, Attribute(s.rows[id], d), item.val,
        SerializedValue(schema, s, id, Attribute(s.rows[id], d)));
    }
  }

  lemma {:induction false} OneSerialization(schema: Schema, s: Store, a: Stored, v: Value, w: Value)
    requires SerializesTo(schema, s, a, v) && SerializesTo(schema, s, a, w)
    ensures v == w
  {
    if a.References? {
      assert v.elems == w.elems;
    }
  }

  lemma {:induction false} ItemsAre(schema: Schema, s: Store, id: nat, defs: seq<FieldDef>, item: Item)
    requires id in s.rows
    ensures item in SerializedItems(schema, s, id, defs) <==>
            && item.val != Null && item.val != List([]) && item.val != Dict([])
            && exists d :: d in defs && d.name == item.key &&
                 item.val == SerializedValue(schema, s, id, Attribute(s.rows[id], d))
  {
    if defs != [] {
      var front, last := defs[..|defs| - 1], defs[|defs| - 1];
      assert defs == front + [last];
      ItemsAre(schema, s, id, front, item);
      SerializedSnoc(schema, s, id, front, last);
    }
  }
}
