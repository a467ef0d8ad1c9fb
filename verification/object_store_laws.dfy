/** What `commit` keeps: the store invariant, de-duplication relative to the hash,
    and the recursive hash of every stored object. */
module ObjectStoreLaws {
  import opened Wrappers
  import opened Sequences
  import opened Strings
  import opened CommitTrees
  import opened CommitTreeLaws
  import opened SealedTrees
  import opened ObjectStore
  import opened ObjectStoreKeeps

  // ----- conforming trees -----

  /** The stored JSON value is hashed like the tree it comes from. */
  ghost predicate JsonStable(sha1: Sha1, v: Value) {
    && Plain(Cleanup(v)) && Cleanup(v).Dict? && Cleanup(v) != Dict([])
    && RootHash(sha1, Cleanup(v)) == Ok(Str(HashTextIn(v)))
  }

  /** A scalar that `full_clean` accepts, and that is still hashed the same after it. */
  ghost predicate CleansSame(clean: Clean, v: Value) {
    && clean(v).Some? && IsScalar(clean(v).value)
    && FieldOf(clean(v).value).Ok? && FieldOf(clean(v).value) == FieldOf(v)
  }

  /** A field that may be left out: it is valid without a value, and then not hashed. */
  predicate AbsentOk(kind: Kind) {
    match kind
    case Scalar(unset, clean) => clean(unset) == Some(Null)
    case ForeignKey(_, mandatory) => !mandatory
    case _ => true
  }

  ghost predicate ValueConforms(sha1: Sha1, schema: Schema, d: FieldDef, v: Value)
    decreases v, 2
  {
    match v
    case Dict(_) =>
      if d.kind.Json? then JsonStable(sha1, v)
      else d.kind.ForeignKey? && Conforms(sha1, schema, d.kind.related, v)
    case List(elems) =>
      d.kind.ManyToMany? && forall i | 0 <= i < |elems| :: Conforms(sha1, schema, d.kind.related, elems[i])
    case _ => d.kind.Scalar? && IsScalar(v) && CleansSame(d.kind.clean, v)
  }

  /** A prepared tree whose keys are fields of the model, with values of the right kind
      that cleaning does not change, and no field missing that is needed. */
  ghost predicate Conforms(sha1: Sha1, schema: Schema, model: string, t: Value)
    decreases t, 1
  {
    && t.Dict?
    && model in schema
    && (forall i | 0 <= i < |t.items| && t.items[i].key != MT_HASH ::
          var d := FindDef(schema[model], t.items[i].key);
          d.Some? && ValueConforms(sha1, schema, d.value, t.items[i].val))
    && forall d | d in schema[model] && d.name !in DataFeed(t.items) :: AbsentOk(d.kind)
  }

  /** The same, but for the trees below, which only have to be in the right place. */
  ghost predicate ValueFits(sha1: Sha1, d: FieldDef, v: Value) {
    match v
    case Dict(_) => if d.kind.Json? then JsonStable(sha1, v) else d.kind.ForeignKey?
    case List(elems) => d.kind.ManyToMany?
    case _ => d.kind.Scalar? && IsScalar(v) && CleansSame(d.kind.clean, v)
  }

  ghost predicate Fits(sha1: Sha1, schema: Schema, model: string, t: Value) {
    && t.Dict?
    && model in schema
    && (forall i | 0 <= i < |t.items| && t.items[i].key != MT_HASH ::
          var d := FindDef(schema[model], t.items[i].key);
          d.Some? && ValueFits(sha1, d.value, t.items[i].val))
    && forall d | d in schema[model] && d.name !in DataFeed(t.items) :: AbsentOk(d.kind)
  }

  lemma {:induction false} ConformingFits(sha1: Sha1, schema: Schema, model: string, t: Value)
    requires Conforms(sha1, schema, model, t)
    ensures Fits(sha1, schema, model, t)
  {
  }

  /** A value of the right kind for a field, and if it is made of trees, of trees that
      conform. */
  ghost predicate ValueShaped(sha1: Sha1, schema: Schema, d: FieldDef, v: Value) {
    match v
    case Dict(_) => d.kind.Json? || (d.kind.ForeignKey? && Conforms(sha1, schema, d.kind.related, v))
    case List(elems) =>
      d.kind.ManyToMany? && forall i | 0 <= i < |elems| :: Conforms(sha1, schema, d.kind.related, elems[i])
    case _ => d.kind.Scalar? && IsScalar(v)
  }

  // ----- stored values reflect prepared values -----

  ghost predicate Reflects(s: Store, d: FieldDef, v: Value, a: Stored) {
    match v
    case Dict(_) =>
      if d.kind.Json? then a == AsJson(Cleanup(v))
      else d.kind.ForeignKey? && a.Reference? && a.id.Some? && IsRow(s, d.kind.related, HashTextIn(v), a.id.value)
    case List(elems) =>
      && d.kind.ManyToMany? && a.References? && ReflectList(s, d.kind.related, elems, a.ids)
    case _ => d.kind.Scalar? && a == Plainly(v)
  }

  ghost predicate ReflectList(s: Store, model: string, elems: seq<Value>, ids: seq<nat>) {
    |ids| == |elems| && forall i | 0 <= i < |ids| :: IsRow(s, model, HashTextIn(elems[i]), ids[i])
  }

  lemma {:induction false} ReflectsExtends(s: Store, t: Store, d: FieldDef, v: Value, a: Stored)
    requires Reflects(s, d, v, a) && Extends(s, t)
    ensures Reflects(t, d, v, a)
  {
  }

  ghost predicate ReflectItems(s: Store, defs: seq<FieldDef>, items: seq<Item>, vals: map<string, Stored>) {
    && (forall i | 0 <= i < |items| && items[i].key != MT_HASH ::
          && items[i].key in vals
          && FindDef(defs, items[i].key).Some?
          && Reflects(s, FindDef(defs, items[i].key).value, items[i].val, vals[items[i].key]))
    && vals.Keys == DataFeed(items).Keys
  }

  lemma {:induction false} ReflectItemsExtends(s: Store, t: Store, defs: seq<FieldDef>, items: seq<Item>,
      vals: map<string, Stored>)
    requires ReflectItems(s, defs, items, vals) && Extends(s, t)
    ensures ReflectItems(t, defs, items, vals)
  {
    forall i | 0 <= i < |items| && items[i].key != MT_HASH
      ensures Reflects(t, FindDef(defs, items[i].key).value, items[i].val, vals[items[i].key])
    {
      ReflectsExtends(s, t, FindDef(defs, items[i].key).value, items[i].val, vals[items[i].key]);
    }
  }

  // ----- the hash of a saved row -----

  /** A field feeds the chunks its item was hashed with, or nothing. */
  ghost predicate FieldFeeds(sha1: Sha1, s: Store, a: Stored, name: string, feed: Feed) {
    var v := HashedValue(sha1, s, a);
    && v.Ok?
    && if name in feed then
         !IsEmptyValue(v.value) && FieldOf(v.value).Ok? && Chunks(FieldOf(v.value).value) == feed[name]
       else IsEmptyValue(v.value)
  }

  ghost predicate DefFeeds(sha1: Sha1, s: Store, row: Row, d: FieldDef, feed: Feed) {
    FieldFeeds(sha1, s, Attribute(row, d), d.name, feed)
  }

  ghost predicate FedBy(fields: map<string, Field>, names: set<string>, feed: Feed) {
    fields.Keys == feed.Keys * names && forall k | k in fields :: Chunks(fields[k]) == feed[k]
  }

  lemma {:induction false} NextField(sha1: Sha1, s: Store, a: Stored, name: string, feed: Feed,
      fields: map<string, Field>, names: set<string>)
    requires FieldFeeds(sha1, s, a, name, feed) && FedBy(fields, names, feed) && name !in names && name != ""
    ensures AddedField(sha1, s, a, name, fields).Ok?
    ensures FedBy(AddedField(sha1, s, a, name, fields).value, names + {name}, feed)
  {
  }

  lemma {:induction false} ShallowFeeds(sha1: Sha1, s: Store, row: Row, defs: seq<FieldDef>, feed: Feed)
    requires DistinctNames(defs)
    requires forall d | d in defs :: DefFeeds(sha1, s, row, d, feed)
    ensures ShallowFields(sha1, s, row, defs).Ok?
    ensures FedBy(ShallowFields(sha1, s, row, defs).value, Names(defs), feed)
  {
    if defs != [] {
      var front, last := defs[..|defs| - 1], defs[|defs| - 1];
      assert defs == front + [last];
      FrontNames(front, last);
      ShallowFeeds(sha1, s, row, front, feed);
      ShallowSnoc(sha1, s, row, front, last);
      assert DefFeeds(sha1, s, row, last, feed);
      NextField(sha1, s, Attribute(row, last), last.name, feed, ShallowFields(sha1, s, row, front).value, Names(front));
    }
  }

  lemma {:induction false} SameFeedHash(sha1: Sha1, schema: Schema, s: Store, row: Row, feed: Feed)
    requires row.model in schema && DistinctNames(schema[row.model])
    requires forall d | d in schema[row.model] :: DefFeeds(sha1, s, row, d, feed)
    requires feed.Keys <= Names(schema[row.model])
    ensures ShallowHash(sha1, schema, s, row) == Ok(Digest(sha1, feed))
  {
    ShallowFeeds(sha1, s, row, schema[row.model], feed);
    assert FeedOf(ShallowFields(sha1, s, row, schema[row.model]).value) == feed;
  }

  // ----- what the items of a tree feed -----

  lemma {:induction false} DataFeedAt(items: seq<Item>)
    requires DistinctKeys(items)
    ensures forall i | 0 <= i < |items| && items[i].key != MT_HASH ::
              items[i].key in DataFeed(items) && DataFeed(items)[items[i].key] == PreparedChunks(items[i].val)
    ensures forall k | k in DataFeed(items) :: exists i :: 0 <= i < |items| && items[i].key == k && k != MT_HASH
  {
    if items != [] {
      var front, last := items[..|items| - 1], items[|items| - 1];
      assert items == front + [last];
      DataFeedAt(front);
      assert forall i | 0 <= i < |front| :: front[i] == items[i] && front[i].key != last.key;
    }
  }

  ghost predicate Fed(v: Result<Value, TreeError>, chunks: seq<string>) {
    v.Ok? && !IsEmptyValue(v.value) && FieldOf(v.value).Ok? && Chunks(FieldOf(v.value).value) == chunks
  }

  lemma {:induction false} RowHashesField(s: Store, ids: seq<nat>, texts: seq<string>)
    requires |texts| == |ids| && ids != []
    requires forall i | 0 <= i < |ids| :: ids[i] in s.rows && s.rows[ids[i]].mtHash == texts[i] && |texts[i]| == 40
    ensures FieldOf(List(RowHashes(s, ids))) == Ok(Hashes(texts)) && RowHashes(s, ids) != []
  {
    var hashes := RowHashes(s, ids);
    assert forall i | 0 <= i < |hashes| :: hashes[i] == Str(texts[i]) && IsHash(hashes[i]);
    assert Texts(hashes) == texts;
  }

  lemma {:induction false} ReflectListChunks(sha1: Sha1, s: Store, model: string, elems: seq<Value>, ids: seq<nat>)
    requires ReflectList(s, model, elems, ids) && AllSealed(sha1, elems) && elems != []
    ensures Fed(HashedValue(sha1, s, References(ids)), Sort(Map(HashTextIn, elems)))
  {
    var texts := Map(HashTextIn, elems);
    forall i | 0 <= i < |ids|
      ensures ids[i] in s.rows && s.rows[ids[i]].mtHash == texts[i] && |texts[i]| == 40
    {
      ReflectElem(sha1, s, model, elems, ids, i);
    }
    RowHashesField(s, ids, texts);
  }

  lemma {:induction false} ReflectElem(sha1: Sha1, s: Store, model: string, elems: seq<Value>, ids: seq<nat>, i: nat)
    requires ReflectList(s, model, elems, ids) && AllSealed(sha1, elems) && i < |elems|
    ensures ids[i] in s.rows && s.rows[ids[i]].mtHash == HashTextIn(elems[i]) && |HashTextIn(elems[i])| == 40
  {
    assert IsRow(s, model, HashTextIn(elems[i]), ids[i]);
    SealedText(sha1, elems[i]);
  }

  lemma {:induction false} SealedText(sha1: Sha1, t: Value)
    requires t.Dict? && Sealed(sha1, t)
    ensures |HashTextIn(t)| == 40
  {
  }

  lemma {:induction false} ReflectDictChunks(sha1: Sha1, s: Store, v: Value, hashed: Result<Value, TreeError>)
    requires v.Dict? && Sealed(sha1, v) && hashed == Ok(Str(HashTextIn(v)))
    ensures Fed(hashed, PreparedChunks(v))
  {
  }

  /** What is stored for a value is hashed like the value itself. */
  lemma {:induction false} ReflectChunks(sha1: Sha1, s: Store, d: FieldDef, v: Value, a: Stored)
    requires Reflects(s, d, v, a) && Sealed(sha1, v) && !IsEmptyValue(v) && ValueFits(sha1, d, v)
    ensures Fed(HashedValue(sha1, s, a), PreparedChunks(v))
  {
    if v.Dict? {
      ReflectDictChunks(sha1, s, v, HashedValue(sha1, s, a));
    } else if v.List? {
      assert AllSealed(sha1, v.elems);
      ReflectListChunks(sha1, s, d.kind.related, v.elems, a.ids);
    }
  }

  lemma {:induction false} CleanedScalar(clean: Clean, v: Value)
    requires CleansSame(clean, v)
    ensures Fed(Ok(clean(v).value), Chunks(FieldOf(v).value))
  {
  }

  /** Cleaning accepts it, and does not change what is hashed. */
  lemma {:induction false} ReflectCleaned(sha1: Sha1, s: Store, d: FieldDef, v: Value, a: Stored)
    requires Reflects(s, d, v, a) && Sealed(sha1, v) && !IsEmptyValue(v) && ValueFits(sha1, d, v)
    ensures Cleaned(d, a).Some? && Fed(HashedValue(sha1, s, Cleaned(d, a).value), PreparedChunks(v))
  {
    if v.Dict? || v.List? {
      ReflectChunks(sha1, s, d, v, a);
      assert Cleaned(d, a) == Some(a);
    } else {
      CleanedScalar(d.kind.clean, v);
      assert Cleaned(d, a) == Some(Plainly(d.kind.clean(v).value));
    }
  }

  /** All there is to know about the items of a tree that fits, and what was set for them. */
  ghost predicate ReadyToSave(sha1: Sha1, schema: Schema, s: Store, model: string, items: seq<Item>,
      vals: map<string, Stored>) {
    && GoodSchema(schema) && model in schema
    && Inv(sha1, schema, s)
    && Sealed(sha1, Dict(items))
    && Fits(sha1, schema, model, Dict(items))
    && ReflectItems(s, schema[model], items, vals)
  }

  lemma {:induction false} FindDefOf(defs: seq<FieldDef>, d: FieldDef)
    requires DistinctNames(defs) && d in defs
    ensures FindDef(defs, d.name) == Some(d)
  {
  }

  lemma {:induction false} AbsentFeeds(sha1: Sha1, t: Store, row: Row, d: FieldDef, feed: Feed)
    requires d.name !in row.vals && d.name !in feed && AbsentOk(d.kind)
    ensures Cleaned(d, Attribute(row, d)).Some?
    ensures FieldFeeds(sha1, t, Cleaned(d, Attribute(row, d)).value, d.name, feed)
  {
    if d.kind.ManyToMany? {
      assert RowHashes(t, []) == [];
    }
  }

  lemma {:induction false} PresentFeeds(sha1: Sha1, s: Store, t: Store, d: FieldDef, v: Value, a: Stored, feed: Feed)
    requires Reflects(s, d, v, a) && Sealed(sha1, v) && !IsEmptyValue(v) && ValueFits(sha1, d, v) && Extends(s, t)
    requires d.name in feed && feed[d.name] == PreparedChunks(v)
    ensures Cleaned(d, a).Some?
    ensures FieldFeeds(sha1, t, Cleaned(d, a).value, d.name, feed)
  {
    ReflectsExtends(s, t, d, v, a);
    ReflectCleaned(sha1, t, d, v, a);
  }

  lemma {:induction false} ItemNamed(items: seq<Item>, name: string) returns (i: nat)
    requires DistinctKeys(items) && name in DataFeed(items)
    ensures i < |items| && items[i].key == name && name != MT_HASH
    ensures DataFeed(items)[name] == PreparedChunks(items[i].val)
  {
    DataFeedAt(items);
    i :| 0 <= i < |items| && items[i].key == name;
  }

  lemma {:induction false} AttributeReady(sha1: Sha1, schema: Schema, s: Store, t: Store, row: Row, items: seq<Item>,
      d: FieldDef)
    requires ReadyToSave(sha1, schema, s, row.model, items, row.vals) && d in schema[row.model] && Extends(s, t)
    ensures Cleaned(d, Attribute(row, d)).Some?
    ensures FieldFeeds(sha1, t, Cleaned(d, Attribute(row, d)).value, d.name, DataFeed(items))
  {
    if d.name in row.vals {
      var i := ItemNamed(items, d.name);
      FindDefOf(schema[row.model], d);
      PresentFeeds(sha1, s, t, d, items[i].val, row.vals[d.name], DataFeed(items));
    } else {
      AbsentFeeds(sha1, t, row, d, DataFeed(items));
    }
  }

  ghost predicate SaveOk(s: Store, row: Row, o: Outcome) {
    o.result.Ok? && IsRow(o.store, row.model, row.mtHash, o.result.value.0)
  }

  lemma {:induction false} SaveSound(sha1: Sha1, schema: Schema, s: Store, row: Row, items: seq<Item>)
    requires ReadyToSave(sha1, schema, s, row.model, items, row.vals)
    requires row.mtHash == HashTextIn(Dict(items))
    ensures SaveOk(s, row, Save(sha1, schema, s, row))
  {
    if Find(s, row.model, row.mtHash).None? {
      var defs := schema[row.model];
      FullCleanAt(row, defs);
      forall d | d in defs ensures Cleaned(d, Attribute(row, d)).Some? {
        AttributeReady(sha1, schema, s, s, row, items, d);
      }
      ReadyHash(sha1, schema, s, row, FullClean(row, defs).value, items);
    }
  }

  lemma {:induction false} ReadyHash(sha1: Sha1, schema: Schema, s: Store, row: Row, cleaned: Row, items: seq<Item>)
    requires ReadyToSave(sha1, schema, s, row.model, items, row.vals)
    requires row.mtHash == HashTextIn(Dict(items)) && FullClean(row, schema[row.model]) == Some(cleaned)
    ensures ShallowHash(sha1, schema, WithRow(s, cleaned), cleaned) == Ok(row.mtHash)
  {
    var t, defs := WithRow(s, cleaned), schema[row.model];
    NextIsNew(sha1, schema, s, cleaned);
    FullCleanAt(row, defs);
    forall d | d in defs ensures DefFeeds(sha1, t, cleaned, d, DataFeed(items)) {
      AttributeReady(sha1, schema, s, t, row, items, d);
    }
    DataFeedNames(sha1, schema, row.model, items);
    SameFeedHash(sha1, schema, t, cleaned, DataFeed(items));
  }

  lemma {:induction false} DataFeedNames(sha1: Sha1, schema: Schema, model: string, items: seq<Item>)
    requires Fits(sha1, schema, model, Dict(items)) && DistinctKeys(items)
    ensures DataFeed(items).Keys <= Names(schema[model])
  {
    DataFeedAt(items);
    forall k | k in DataFeed(items) ensures k in Names(schema[model]) {
      var i :| 0 <= i < |items| && items[i].key == k && k != MT_HASH;
      assert FindDef(schema[model], k).Some?;
    }
  }

  // ----- commit -----

  ghost predicate Sound(sha1: Sha1, schema: Schema, s: Store, model: string, t: Value, o: Outcome) {
    && o.result.Ok? && Inv(sha1, schema, o.store) && Extends(s, o.store)
    && IsRow(o.store, model, HashTextIn(t), o.result.value.0)
  }

  lemma {:induction false} CommitPreparedSound(sha1: Sha1, schema: Schema, s: Store, model: string, t: Value)
    requires GoodSchema(schema) && Inv(sha1, schema, s) && Sealed(sha1, t) && Conforms(sha1, schema, model, t)
    ensures Sound(sha1, schema, s, model, t, CommitPrepared(sha1, schema, s, model, t))
    decreases t, 1
  {
    CommitPreparedKeeps(sha1, schema, s, model, t);
    if Find(s, model, HashTextIn(t)).None? {
      ConformingItems(sha1, schema, model, t);
      ConformingFits(sha1, schema, model, t);
      BuildSound(sha1, schema, s, model, t.items);
      var b := Build(sha1, schema, s, schema[model], t.items);
      SaveSound(sha1, schema, b.store, Row(model, HashTextIn(t), b.vals.value), t.items);
    }
  }

  ghost predicate BuildOk(sha1: Sha1, schema: Schema, s: Store, model: string, items: seq<Item>, b: Built) {
    && GoodSchema(schema) && model in schema
    && b.vals.Ok? && Inv(sha1, schema, b.store) && Extends(s, b.store)
    && ReflectItems(b.store, schema[model], items, b.vals.value)
  }

  ghost predicate ItemReady(sha1: Sha1, schema: Schema, model: string, item: Item)
    requires model in schema
  {
    var d := FindDef(schema[model], item.key);
    d.Some? && Sealed(sha1, item.val) && ValueShaped(sha1, schema, d.value, item.val)
  }

  ghost predicate ItemsReady(sha1: Sha1, schema: Schema, model: string, items: seq<Item>)
    requires model in schema
  {
    DistinctKeys(items) && forall i | 0 <= i < |items| &&
        items[i].key != MT_HASH :: ItemReady(sha1, schema, model, items[i])
  }

  lemma {:induction false} ReadyFront(sha1: Sha1, schema: Schema, model: string, front: seq<Item>, last: Item)
    requires model in schema && ItemsReady(sha1, schema, model, front + [last])
    ensures ItemsReady(sha1, schema, model, front)
    ensures last.key != MT_HASH ==> ItemReady(sha1, schema, model, last)
  {
    var items := front + [last];
    assert items[|front|] == last && forall i | 0 <= i < |front| :: items[i] == front[i];
  }

  lemma {:induction false} ConformingItems(sha1: Sha1, schema: Schema, model: string, t: Value)
    requires Sealed(sha1, t) && Conforms(sha1, schema, model, t)
    ensures ItemsReady(sha1, schema, model, t.items)
  {
  }

  lemma {:induction false} BuildSound(sha1: Sha1, schema: Schema, s: Store, model: string, items: seq<Item>)
    requires GoodSchema(schema) && Inv(sha1, schema, s) && model in schema && ItemsReady(sha1, schema, model, items)
    ensures BuildOk(sha1, schema, s, model, items, Build(sha1, schema, s, schema[model], items))
    decreases items, 0
  {
    if items != [] {
      var front, last := items[..|items| - 1], items[|items| - 1];
      assert items == front + [last];
      ReadyFront(sha1, schema, model, front, last);
      BuildSound(sha1, schema, s, model, front);
      if last.key != MT_HASH {
        BuildNext(sha1, schema, s, model, front, last);
      } else {
        var b := Build(sha1, schema, s, schema[model], front);
        ReflectHash(b.store, schema[model], front, last, b.vals.value);
      }
    }
  }

  lemma {:induction false} BuildNext(sha1: Sha1, schema: Schema, s: Store, model: string, front: seq<Item>, last: Item)
    requires DistinctKeys(front + [last]) && last.key != MT_HASH && model in schema
    requires BuildOk(sha1, schema, s, model, front, Build(sha1, schema, s, schema[model], front))
    requires ItemReady(sha1, schema, model, last)
    ensures BuildOk(sha1, schema, s, model, front + [last], Build(sha1, schema, s, schema[model], front + [last]))
    decreases last.val, 3
  {
    var b := Build(sha1, schema, s, schema[model], front);
    StoredForSound(sha1, schema, b.store, FindDef(schema[model], last.key).value, last.val);
    BuildStep(sha1, schema, s, model, front, last, b);
  }

  lemma {:induction false} ReflectHash(s: Store, defs: seq<FieldDef>, front: seq<Item>, last: Item,
      vals: map<string, Stored>)
    requires ReflectItems(s, defs, front, vals) && last.key == MT_HASH
    ensures ReflectItems(s, defs, front + [last], vals)
  {
    var all := front + [last];
    assert all[..|front|] == front && all[|front|] == last;
    assert forall i | 0 <= i < |front| :: all[i] == front[i];
  }

  lemma {:induction false} BuildStep(sha1: Sha1, schema: Schema, s: Store, model: string, front: seq<Item>,
      last: Item, b: Built)
    requires DistinctKeys(front + [last]) && last.key != MT_HASH
    requires BuildOk(sha1, schema, s, model, front, b) && b == Build(sha1, schema, s, schema[model], front)
    requires FindDef(schema[model], last.key).Some?
    requires var d := FindDef(schema[model], last.key).value;
             StoredSound(sha1, schema, b.store, d, last.val, StoredFor(sha1, schema, b.store, Some(d), last.val))
    ensures BuildOk(sha1, schema, s, model, front + [last], Build(sha1, schema, s, schema[model], front + [last]))
  {
    var d := FindDef(schema[model], last.key).value;
    var a := StoredFor(sha1, schema, b.store, Some(d), last.val);
    ReflectItemsExtends(b.store, a.store, schema[model], front, b.vals.value);
    ReflectOneMore(a.store, schema[model], front, last, b.vals.value, a.stored.value);
    assert (front + [last])[..|front|] == front;
  }

  lemma {:induction false} ReflectOneMore(s: Store, defs: seq<FieldDef>, front: seq<Item>, last: Item,
      vals: map<string, Stored>, a: Stored)
    requires DistinctKeys(front + [last]) && last.key != MT_HASH
    requires ReflectItems(s, defs, front, vals)
    requires FindDef(defs, last.key).Some? && Reflects(s, FindDef(defs, last.key).value, last.val, a)
    ensures ReflectItems(s, defs, front + [last], vals[last.key := a])
  {
    var all := front + [last];
    assert all[..|front|] == front;
    forall i | 0 <= i < |front| ensures front[i].key != last.key {
      assert all[i].key != all[|front|].key;
    }
  }

  ghost predicate StoredSound(sha1: Sha1, schema: Schema, s: Store, d: FieldDef, v: Value, a: StoredValue) {
    a.stored.Ok? && Inv(sha1, schema, a.store) && Extends(s, a.store) && Reflects(a.store, d, v, a.stored.value)
  }

  lemma {:induction false} StoredForSound(sha1: Sha1, schema: Schema, s: Store, d: FieldDef, v: Value)
    requires GoodSchema(schema) && Inv(sha1, schema, s) && Sealed(sha1, v) && ValueShaped(sha1, schema, d, v)
    ensures StoredSound(sha1, schema, s, d, v, StoredFor(sha1, schema, s, Some(d), v))
    decreases v, 2
  {
    match v
    case Dict(_) =>
      if !d.kind.Json? {
        CommitPreparedSound(sha1, schema, s, d.kind.related, v);
      }
    case List(elems) =>
      assert ElemsOk(sha1, schema, d.kind.related, elems);
      CommitEachSound(sha1, schema, s, d.kind.related, elems);
      var l := CommitEach(sha1, schema, s, d.kind.related, elems);
      ReflectDistinct(l.store, d.kind.related, elems, l.ids.value);
    case _ =>
  }

  /** Subtrees with different hashes are different objects. */
  lemma {:induction false} ReflectDistinct(s: Store, model: string, elems: seq<Value>, ids: seq<nat>)
    requires NoDuplicates(Map(HashTextIn, elems)) && ReflectList(s, model, elems, ids)
    ensures Distinct(ids) == ids
  {
    var hashes := Map(HashTextIn, elems);
    forall i, j | 0 <= i < j < |ids| ensures ids[i] != ids[j] {
      assert hashes[i] != hashes[j];
      assert IsRow(s, model, hashes[i], ids[i]) && IsRow(s, model, hashes[j], ids[j]);
    }
    DistinctIs(ids);
  }

  ghost predicate ElemsOk(sha1: Sha1, schema: Schema, model: string, elems: seq<Value>) {
    forall i | 0 <= i < |elems| :: Sealed(sha1, elems[i]) && Conforms(sha1, schema, model, elems[i])
  }

  ghost predicate EachSound(sha1: Sha1, schema: Schema, s: Store, model: string, elems: seq<Value>, l: Committed) {
    l.ids.Ok? && Inv(sha1, schema, l.store) && Extends(s, l.store) && ReflectList(l.store, model, elems, l.ids.value)
  }

  lemma {:induction false} CommitEachSound(sha1: Sha1, schema: Schema, s: Store, model: string, elems: seq<Value>)
    requires GoodSchema(schema) && Inv(sha1, schema, s) && ElemsOk(sha1, schema, model, elems)
    ensures EachSound(sha1, schema, s, model, elems, CommitEach(sha1, schema, s, model, elems))
    decreases elems, 0
  {
    if elems != [] {
      var front, last := elems[..|elems| - 1], elems[|elems| - 1];
      assert elems == front + [last];
      ElemsOkSnoc(sha1, schema, model, front, last);
      CommitEachSound(sha1, schema, s, model, front);
      var l := CommitEach(sha1, schema, s, model, front);
      CommitPreparedSound(sha1, schema, l.store, model, last);
      EachStep(sha1, schema, s, model, front, last, l, CommitPrepared(sha1, schema, l.store, model, last));
    }
  }

  lemma {:induction false} ElemsOkSnoc(sha1: Sha1, schema: Schema, model: string, front: seq<Value>, last: Value)
    requires ElemsOk(sha1, schema, model, front + [last])
    ensures ElemsOk(sha1, schema, model, front)
    ensures Sealed(sha1, last) && Conforms(sha1, schema, model, last)
  {
    var all := front + [last];
    assert all[|front|] == last && forall i | 0 <= i < |front| :: all[i] == front[i];
  }

  lemma {:induction false} EachStep(sha1: Sha1, schema: Schema, s: Store, model: string, front: seq<Value>,
      last: Value, l: Committed, o: Outcome)
    requires EachSound(sha1, schema, s, model, front, l) && Sound(sha1, schema, l.store, model, last, o)
    ensures EachSound(sha1, schema, s, model, front + [last], Committed(o.store, Ok(l.ids.value + [o.result.value.0])))
  {
    var all, ids := front + [last], l.ids.value + [o.result.value.0];
    forall i | 0 <= i < |ids| ensures IsRow(o.store, model, HashTextIn(all[i]), ids[i]) {
      if i < |front| {
        assert IsRow(l.store, model, HashTextIn(front[i]), l.ids.value[i]);
      }
    }
  }
}
