/** How a commit ends: exactly which trees, of those with values of the right kind, are
    committed, which are refused, and which leave a corrupt row behind. */
module ObjectStoreOutcomes {
  import opened Wrappers
  import opened CommitTrees
  import opened CommitTreeLaws
  import opened HollowTrees
  import opened SealedTrees
  import opened ObjectStore
  import opened ObjectStoreKeeps
  import opened ObjectStoreLaws
  import opened ObjectStoreCommits

  // ----- what a successful commit stores -----

  /** A value of the right kind for a field, whatever the trees in it. */
  predicate ValuePlaced(d: FieldDef, v: Value) {
    match v
    case Dict(_) => d.kind.Json? || d.kind.ForeignKey?
    case List(_) => d.kind.ManyToMany?
    case Other(_) => false
    case _ => d.kind.Scalar?
  }

  ghost predicate ItemPlaced(sha1: Sha1, schema: Schema, model: string, item: Item)
    requires model in schema
  {
    var d := FindDef(schema[model], item.key);
    d.Some? && Sealed(sha1, item.val) && ValuePlaced(d.value, item.val)
  }

  ghost predicate ItemsPlaced(sha1: Sha1, schema: Schema, model: string, items: seq<Item>)
    requires model in schema
  {
    && DistinctKeys(items)
    && forall i | 0 <= i < |items| && items[i].key != MT_HASH :: ItemPlaced(sha1, schema, model, items[i])
  }

  /** The object returned has the hash of the tree. */
  lemma {:induction false} CommitHasHash(sha1: Sha1, schema: Schema, s: Store, model: string, t: Value)
    requires GoodSchema(schema) && Inv(sha1, schema, s) && Sealed(sha1, t)
    requires CommitPrepared(sha1, schema, s, model, t).result.Ok?
    ensures Sound(sha1, schema, s, model, t, CommitPrepared(sha1, schema, s, model, t))
  {
    CommitPreparedKeeps(sha1, schema, s, model, t);
    if Find(s, model, HashTextIn(t)).None? {
      var b := Build(sha1, schema, s, schema[model], t.items);
      SavedHash(sha1, schema, b.store, Row(model, HashTextIn(t), b.vals.value));
    }
  }

  lemma {:induction false} SavedHash(sha1: Sha1, schema: Schema, s: Store, row: Row)
    requires row.model in schema && Save(sha1, schema, s, row).result.Ok?
    ensures SaveOk(s, row, Save(sha1, schema, s, row))
  {
  }

  lemma {:induction false} CommitEachReflects(sha1: Sha1, schema: Schema, s: Store, model: string, elems: seq<Value>)
    requires GoodSchema(schema) && Inv(sha1, schema, s) && AllSealed(sha1, elems)
    ensures var l := CommitEach(sha1, schema, s, model, elems);
            l.ids.Ok? ==> EachSound(sha1, schema, s, model, elems, l)
  {
    if elems != [] && CommitEach(sha1, schema, s, model, elems).ids.Ok? {
      var front, last := elems[..|elems| - 1], elems[|elems| - 1];
      assert elems == front + [last];
      SealedFront(sha1, front, last);
      CommitEachReflects(sha1, schema, s, model, front);
      var l := CommitEach(sha1, schema, s, model, front);
      CommitHasHash(sha1, schema, l.store, model, last);
      EachStep(sha1, schema, s, model, front, last, l, CommitPrepared(sha1, schema, l.store, model, last));
    }
  }

  lemma {:induction false} SealedFront(sha1: Sha1, front: seq<Value>, last: Value)
    requires AllSealed(sha1, front + [last])
    ensures AllSealed(sha1, front) && Sealed(sha1, last)
  {
    var all := front + [last];
    assert all[|front|] == last && forall i | 0 <= i < |front| :: all[i] == front[i];
  }

  lemma {:induction false} StoredForReflects(sha1: Sha1, schema: Schema, s: Store, d: FieldDef, v: Value)
    requires GoodSchema(schema) && Inv(sha1, schema, s) && Sealed(sha1, v) && ValuePlaced(d, v)
    requires StoredFor(sha1, schema, s, Some(d), v).stored.Ok?
    ensures StoredSound(sha1, schema, s, d, v, StoredFor(sha1, schema, s, Some(d), v))
  {
    match v
    case Dict(_) =>
      if !d.kind.Json? {
        CommitHasHash(sha1, schema, s, d.kind.related, v);
      }
    case List(elems) =>
      CommitEachReflects(sha1, schema, s, d.kind.related, elems);
      var l := CommitEach(sha1, schema, s, d.kind.related, elems);
      ReflectDistinct(l.store, d.kind.related, elems, l.ids.value);
    case _ =>
  }

  lemma {:induction false} PlacedFront(sha1: Sha1, schema: Schema, model: string, front: seq<Item>, last: Item)
    requires model in schema && ItemsPlaced(sha1, schema, model, front + [last])
    ensures ItemsPlaced(sha1, schema, model, front)
    ensures last.key != MT_HASH ==> ItemPlaced(sha1, schema, model, last)
  {
    var items := front + [last];
    assert items[|front|] == last && forall i | 0 <= i < |front| :: items[i] == front[i];
  }

  lemma {:induction false} BuildReflects(sha1: Sha1, schema: Schema, s: Store, model: string, items: seq<Item>)
    requires GoodSchema(schema) && Inv(sha1, schema, s) && model in schema && ItemsPlaced(sha1, schema, model, items)
    requires Build(sha1, schema, s, schema[model], items).vals.Ok?
    ensures BuildOk(sha1, schema, s, model, items, Build(sha1, schema, s, schema[model], items))
  {
    if items != [] {
      var front, last := items[..|items| - 1], items[|items| - 1];
      assert items == front + [last];
      PlacedFront(sha1, schema, model, front, last);
      BuiltBefore(sha1, schema, s, schema[model], front, last);
      BuildReflects(sha1, schema, s, model, front);
      var b := Build(sha1, schema, s, schema[model], front);
      if last.key == MT_HASH {
        ReflectHash(b.store, schema[model], front, last, b.vals.value);
      } else {
        StoredForReflects(sha1, schema, b.store, FindDef(schema[model], last.key).value, last.val);
        BuildStep(sha1, schema, s, model, front, last, b);
      }
    }
  }

  lemma {:induction false} BuiltBefore(sha1: Sha1, schema: Schema, s: Store, defs: seq<FieldDef>, front: seq<Item>,
      last: Item)
    requires Build(sha1, schema, s, defs, front + [last]).vals.Ok?
    ensures var b := Build(sha1, schema, s, defs, front);
            && b.vals.Ok?
            && if last.key == MT_HASH then Build(sha1, schema, s, defs, front + [last]) == b
               else StoredFor(sha1, schema, b.store, FindDef(defs, last.key), last.val).stored.Ok?
  {
    assert (front + [last])[..|front|] == front;
  }

  // ----- prepared trees -----

  /** The store when the subtrees are committed, and the row before it is cleaned. */
  ghost function Filled(sha1: Sha1, schema: Schema, s: Store, model: string, t: Value): Built
    requires t.Dict? && model in schema
  {
    Build(sha1, schema, s, schema[model], t.items)
  }

  /** What the stored row is hashed with, if it gets that far. */
  ghost function StoredFeed(sha1: Sha1, schema: Schema, s: Store, row: Row): Option<Feed>
    requires row.model in schema
  {
    match FullClean(row, schema[row.model])
    case None => None
    case Some(cleaned) =>
      var fields := ShallowFields(sha1, WithRow(s, cleaned), cleaned, schema[row.model]);
      if fields.Ok? then Some(FeedOf(fields.value)) else None
  }

  /** SHA-1 tells what the stored row is hashed with from what the tree was. */
  ghost predicate ToldApart(sha1: Sha1, schema: Schema, s: Store, row: Row, feed: Feed)
    requires row.model in schema
  {
    var stored := StoredFeed(sha1, schema, s, row);
    stored.Some? && stored.value != feed ==> Digest(sha1, stored.value) != Digest(sha1, feed)
  }

  /** What one field adds to the hasher. */
  lemma {:induction false} AddedFieldIs(sha1: Sha1, s: Store, a: Stored, name: string, fields: map<string, Field>)
    requires AddedField(sha1, s, a, name, fields).Ok?
    ensures HashedValue(sha1, s, a).Ok? && name !in fields
    ensures var v, after := HashedValue(sha1, s, a).value, AddedField(sha1, s, a, name, fields).value;
            if IsEmptyValue(v) then after == fields else FieldOf(v).Ok? && after == fields[name := FieldOf(v).value]
  {
  }

  lemma {:induction false} ShallowAt(sha1: Sha1, s: Store, row: Row, defs: seq<FieldDef>, d: FieldDef)
    requires DistinctNames(defs) && d in defs && ShallowFields(sha1, s, row, defs).Ok?
    ensures HashedValue(sha1, s, Attribute(row, d)).Ok?
    ensures var v, fields := HashedValue(sha1, s, Attribute(row, d)).value, ShallowFields(sha1, s, row, defs).value;
            if IsEmptyValue(v) then d.name !in fields else d.name in fields && FieldOf(v) == Ok(fields[d.name])
  {
    var front, last := defs[..|defs| - 1], defs[|defs| - 1];
    assert defs == front + [last];
    FrontNames(front, last);
    ShallowSnoc(sha1, s, row, front, last);
    AddedFieldIs(sha1, s, Attribute(row, last), last.name, ShallowFields(sha1, s, row, front).value);
    if d in front {
      assert d.name in Names(front);
      ShallowAt(sha1, s, row, front, d);
    }
  }

  /** A row that is fed as the tree was: each attribute is hashed like its item. */
  lemma {:induction false} FeedsBack(sha1: Sha1, s: Store, row: Row, defs: seq<FieldDef>, d: FieldDef, feed: Feed)
    requires DistinctNames(defs) && d in defs && ShallowFields(sha1, s, row, defs).Ok?
    requires FeedOf(ShallowFields(sha1, s, row, defs).value) == feed
    ensures DefFeeds(sha1, s, row, d, feed)
  {
    ShallowAt(sha1, s, row, defs, d);
  }

  lemma {:induction false} ScalarCleansSame(sha1: Sha1, s: Store, d: FieldDef, v: Value, a: Stored, feed: Feed)
    requires d.kind.Scalar? && GoodClean(d) && IsScalar(v) && !IsEmptyValue(v) && FieldOf(v).Ok?
    requires d.name in feed && feed[d.name] == PreparedChunks(v)
    requires Cleaned(d, Plainly(v)) == Some(a) && FieldFeeds(sha1, s, a, d.name, feed)
    ensures CleansSame(d.kind.clean, v)
  {
    var w := d.kind.clean(v).value;
    assert a == Plainly(w) && !w.List? && !w.Dict?;
    assert Chunks(FieldOf(w).value)[0] == Chunks(FieldOf(v).value)[0];
  }

  lemma {:induction false} JsonIsStable(sha1: Sha1, s: Store, d: FieldDef, v: Value, feed: Feed)
    requires v.Dict? && Sealed(sha1, v) && d.name in feed && feed[d.name] == PreparedChunks(v)
    requires FieldFeeds(sha1, s, AsJson(Cleanup(v)), d.name, feed)
    ensures JsonStable(sha1, v)
  {
    SealedCleanupPlain(sha1, v);
    PlainHash(sha1, Cleanup(v));
    var h := HashedValue(sha1, s, AsJson(Cleanup(v))).value;
    assert Chunks(FieldOf(h).value)[0] == HashTextIn(v);
  }

  lemma {:induction false} AbsentIsOk(sha1: Sha1, s: Store, row: Row, d: FieldDef, a: Stored, feed: Feed)
    requires GoodClean(d) && d.name !in row.vals && d.name !in feed
    requires Cleaned(d, Attribute(row, d)) == Some(a) && FieldFeeds(sha1, s, a, d.name, feed)
    ensures AbsentOk(d.kind)
  {
  }

  /** What a successful save says about one field. */
  lemma {:induction false} FieldFits(sha1: Sha1, s: Store, t: Store, d: FieldDef, v: Value, set_: Stored, a: Stored,
      feed: Feed)
    requires ValuePlaced(d, v) && Sealed(sha1, v) && !IsEmptyValue(v) && GoodClean(d)
    requires Reflects(s, d, v, set_) && Cleaned(d, set_) == Some(a) && FieldFeeds(sha1, t, a, d.name, feed)
    requires d.name in feed && feed[d.name] == PreparedChunks(v)
    ensures ValueFits(sha1, d, v)
  {
    match v
    case Dict(_) =>
      if d.kind.Json? {
        JsonIsStable(sha1, t, d, v, feed);
      }
    case List(_) =>
    case _ => ScalarCleansSame(sha1, t, d, v, a, feed);
  }

  lemma {:induction false} SavedFits(sha1: Sha1, schema: Schema, s: Store, model: string, t: Value,
      vals: map<string, Stored>)
    requires GoodSchema(schema) && Sealed(sha1, t) && t.Dict? && model in schema
    requires ItemsPlaced(sha1, schema, model, t.items) && ReflectItems(s, schema[model], t.items, vals)
    requires var row := Row(model, HashTextIn(t), vals);
             && Find(s, model, HashTextIn(t)).None? && Save(sha1, schema, s, row).result.Ok?
             && ToldApart(sha1, schema, s, row, DataFeed(t.items))
    ensures Fits(sha1, schema, model, t)
  {
    var row, defs, feed := Row(model, HashTextIn(t), vals), schema[model], DataFeed(t.items);
    var cleaned := FullClean(row, defs).value;
    var after := WithRow(s, cleaned);
    FullCleanAt(row, defs);
    DataFeedAt(t.items);
    assert FeedOf(ShallowFields(sha1, after, cleaned, defs).value) == feed;
    forall d | d in defs ensures DefFeeds(sha1, after, cleaned, d, feed) {
      FeedsBack(sha1, after, cleaned, defs, d, feed);
    }
    forall i | 0 <= i < |t.items| && t.items[i].key != MT_HASH
      ensures ValueFits(sha1, FindDef(defs, t.items[i].key).value, t.items[i].val)
    {
      assert ItemPlaced(sha1, schema, model, t.items[i]);
      var d := FindDef(defs, t.items[i].key).value;
      assert DefFeeds(sha1, after, cleaned, d, feed) && GoodClean(d);
      FieldFits(sha1, s, after, d, t.items[i].val, vals[d.name], Attribute(cleaned, d), feed);
    }
    forall d | d in defs && d.name !in feed ensures AbsentOk(d.kind) {
      assert DefFeeds(sha1, after, cleaned, d, feed) && GoodClean(d);
      AbsentIsOk(sha1, after, row, d, Attribute(cleaned, d), feed);
    }
  }

  /** A tree whose subtrees are committed, with a new hash, is saved exactly if it fits. */
  lemma {:induction false} SaveSucceedsExactly(sha1: Sha1, schema: Schema, s: Store, model: string, t: Value)
    requires GoodSchema(schema) && Inv(sha1, schema, s) && Sealed(sha1, t) && t.Dict? && model in schema
    requires ItemsPlaced(sha1, schema, model, t.items) && Filled(sha1, schema, s, model, t).vals.Ok?
    requires var b := Filled(sha1, schema, s, model, t);
             && Find(b.store, model, HashTextIn(t)).None?
             && ToldApart(sha1, schema, b.store, Row(model, HashTextIn(t), b.vals.value), DataFeed(t.items))
    ensures var b := Filled(sha1, schema, s, model, t);
            Save(sha1, schema, b.store, Row(model, HashTextIn(t), b.vals.value)).result.Ok? <==>
            Fits(sha1, schema, model, t)
  {
    BuildReflects(sha1, schema, s, model, t.items);
    var b := Filled(sha1, schema, s, model, t);
    if Fits(sha1, schema, model, t) {
      SaveSound(sha1, schema, b.store, Row(model, HashTextIn(t), b.vals.value), t.items);
    } else if Save(sha1, schema, b.store, Row(model, HashTextIn(t), b.vals.value)).result.Ok? {
      SavedFits(sha1, schema, b.store, model, t, b.vals.value);
      assert false;
    }
  }

  // ----- trees nobody prepared yet -----

  /** The live keys are fields of the model, with values of the right kind. */
  ghost predicate Shaped(schema: Schema, model: string, u: Value) {
    && u.Dict? && model in schema
    && forall i | 0 <= i < |u.items| && Live(u.items[i]) :: ShapedItem(schema, model, u.items[i])
  }

  predicate ShapedItem(schema: Schema, model: string, item: Item)
    requires model in schema
  {
    var d := FindDef(schema[model], item.key);
    d.Some? && ValuePlaced(d.value, item.val)
  }

  /** Every scalar is valid and cleaned to a value that is hashed the same, no JSON value
      has a dict that prunes to {}, and no field is missing that is needed. */
  ghost predicate Faithful(schema: Schema, model: string, u: Value)
    requires Shaped(schema, model, u)
  {
    && (forall i | 0 <= i < |u.items| && Live(u.items[i]) ::
          FaithfulValue(FindDef(schema[model], u.items[i].key).value, u.items[i].val))
    && forall d | d in schema[model] && d.name !in LiveKeys(u.items) :: AbsentOk(d.kind)
  }

  ghost predicate FaithfulValue(d: FieldDef, v: Value) {
    match d.kind
    case Scalar(_, clean) => CleansSame(clean, Prune(v))
    case Json => NoHollow(v) && Prune(v) != Dict([])
    case _ => true
  }

  /** The trees in a value are well-formed. */
  ghost predicate TreesWellFormed(schema: Schema, d: FieldDef, v: Value) {
    match v
    case Dict(_) => d.kind.ForeignKey? ==> WellFormed(schema, d.kind.related, v)
    case List(elems) =>
      d.kind.ManyToMany? ==> forall k | 0 <= k < |elems| :: WellFormed(schema, d.kind.related, elems[k])
    case _ => true
  }

  lemma {:induction false} ValueWellFormedIs(schema: Schema, d: FieldDef, v: Value)
    requires ValuePlaced(d, v)
    ensures WellFormedValue(schema, d, v) <==> FaithfulValue(d, v) && TreesWellFormed(schema, d, v)
  {
  }

  /** Well-formed trees are those that are faithful at every depth. */
  lemma {:induction false} WellFormedIs(schema: Schema, model: string, u: Value)
    requires Shaped(schema, model, u)
    ensures WellFormed(schema, model, u) <==>
            && Faithful(schema, model, u)
            && forall i | 0 <= i < |u.items| && Live(u.items[i]) ::
                 TreesWellFormed(schema, FindDef(schema[model], u.items[i].key).value, u.items[i].val)
  {
    forall i | 0 <= i < |u.items| && Live(u.items[i])
      ensures var d := FindDef(schema[model], u.items[i].key).value;
              WellFormedItem(schema, model, u.items[i]) <==>
              FaithfulValue(d, u.items[i].val) && TreesWellFormed(schema, d, u.items[i].val)
    {
      assert ShapedItem(schema, model, u.items[i]);
      ValueWellFormedIs(schema, FindDef(schema[model], u.items[i].key).value, u.items[i].val);
    }
  }

  /** Each live item is in the prepared dict. */
  lemma {:induction false} PreparedAt(sha1: Sha1, items: seq<Item>, i: nat)
    requires Plain(Dict(items)) && PrepareItems(sha1, items).Ok? && i < |items| && Live(items[i])
    ensures PrepareValue(sha1, items[i].val).Ok?
    ensures Item(items[i].key, PrepareValue(sha1, items[i].val).value.tree) in PrepareItems(sha1, items).value.items
  {
    var front, last := items[..|items| - 1], items[|items| - 1];
    assert items == front + [last];
    PlainFront(front, last);
    if Live(last) {
      KeptLast(sha1, front, last);
    }
    if i < |front| {
      PreparedAt(sha1, front, i);
    }
  }

  /** SHA-1 tells the JSON values of the tree from their cleaned up forms, if those are
      not equivalent. */
  ghost predicate TellsJson(sha1: Sha1, schema: Schema, model: string, u: Value)
    requires Shaped(schema, model, u)
  {
    forall i | 0 <= i < |u.items| && Live(u.items[i]) && u.items[i].val.Dict?
      && FindDef(schema[model], u.items[i].key).value.kind.Json? ::
      TellsPruned(sha1, u.items[i].val)
  }

  /** A JSON value keeps its hash exactly if no dict in it prunes to {}, and it does not
      itself. */
  lemma {:induction false} StableExactly(sha1: Sha1, v: Value)
    requires Plain(v) && v.Dict? && Prepare(sha1, v).Ok? && TellsPruned(sha1, v)
    ensures JsonStable(sha1, Prepare(sha1, v).value) <==> NoHollow(v) && Prune(v) != Dict([])
  {
    CleanupOfPrepare(sha1, v);
    PrepareDictSeals(sha1, v.items);
    PrunePlain(v);
    CleanedUpHashExactly(sha1, v);
  }

  /** The items of a prepared tree: those of its loop, and the hash. */
  lemma {:induction false} PreparedTree(sha1: Sha1, u: Value)
    requires Plain(u) && u.Dict? && Prepare(sha1, u).Ok?
    ensures PrepareItems(sha1, u.items).Ok?
    ensures var t, p := Prepare(sha1, u).value, PrepareItems(sha1, u.items).value;
            && t == Dict(p.items + [Item(MT_HASH, Str(Digest(sha1, FeedOf(p.fields))))])
            && (forall i | 0 <= i < |p.items| :: p.items[i].key != MT_HASH)
            && DataFeed(t.items).Keys == LiveKeys(u.items)
  {
    PlainHash(sha1, u);
    var p := PrepareItems(sha1, u.items).value;
    LookupNone(u.items, MT_HASH);
    PrepareItemsSeal(sha1, u.items);
    LookupNone(p.items, MT_HASH);
    ItemsFeed(sha1, u.items);
    WithHash(p.items, Digest(sha1, FeedOf(p.fields)));
    assert FeedOf(p.fields).Keys == LiveKeys(u.items);
  }

  /** The value of a live item fits once it is prepared exactly if it is faithful. */
  lemma {:induction false} FitsExactly(sha1: Sha1, d: FieldDef, v: Value)
    requires Plain(v) && ValuePlaced(d, v) && PrepareValue(sha1, v).Ok?
    requires v.Dict? && d.kind.Json? ==> TellsPruned(sha1, v)
    ensures ValueFits(sha1, d, PrepareValue(sha1, v).value.tree) <==> FaithfulValue(d, v)
  {
    if v.Dict? && d.kind.Json? {
      StableExactly(sha1, v);
    }
  }

  /** The prepared tree has values of the right kind. */
  lemma {:induction false} PreparedPlaced(sha1: Sha1, d: FieldDef, v: Value)
    requires ValuePlaced(d, v) && PrepareValue(sha1, v).Ok?
    ensures ValuePlaced(d, PrepareValue(sha1, v).value.tree)
  {
  }

  ghost predicate KeptFrom(sha1: Sha1, items: seq<Item>, q: Item, i: nat) {
    && i < |items| && Live(items[i]) && PrepareValue(sha1, items[i].val).Ok?
    && q == Item(items[i].key, PrepareValue(sha1, items[i].val).value.tree)
  }

  /** Each item of the prepared dict comes from a live one. */
  lemma {:induction false} KeptItems(sha1: Sha1, items: seq<Item>, q: Item) returns (i: nat)
    requires Plain(Dict(items)) && PrepareItems(sha1, items).Ok? && q in PrepareItems(sha1, items).value.items
    ensures KeptFrom(sha1, items, q, i)
  {
    var front, last := items[..|items| - 1], items[|items| - 1];
    assert items == front + [last];
    PlainFront(front, last);
    PrepareSnoc(sha1, front, last);
    if Live(last) {
      KeptLast(sha1, front, last);
    }
    if Live(last) && q == Item(last.key, PrepareValue(sha1, last.val).value.tree) {
      i := |front|;
    } else {
      i := KeptItems(sha1, front, q);
    }
  }

  lemma {:induction false} PreparedShape(sha1: Sha1, schema: Schema, model: string, u: Value)
    requires Plain(u) && Prepare(sha1, u).Ok? && Shaped(schema, model, u)
    ensures Sealed(sha1, Prepare(sha1, u).value)
    ensures ItemsPlaced(sha1, schema, model, Prepare(sha1, u).value.items)
  {
    PrepareDictSeals(sha1, u.items);
    PreparedTree(sha1, u);
    var t, p := Prepare(sha1, u).value, PrepareItems(sha1, u.items).value;
    forall k | 0 <= k < |t.items| && t.items[k].key != MT_HASH ensures ItemPlaced(sha1, schema, model, t.items[k]) {
      assert t.items[k] == p.items[k];
      var i := KeptItems(sha1, u.items, p.items[k]);
      assert ShapedItem(schema, model, u.items[i]);
      PreparedPlaced(sha1, FindDef(schema[model], u.items[i].key).value, u.items[i].val);
    }
  }

  /** The prepared tree fits exactly if the tree is faithful. */
  lemma {:induction false} PreparedFitsExactly(sha1: Sha1, schema: Schema, model: string, u: Value)
    requires Plain(u) && Prepare(sha1, u).Ok? && Shaped(schema, model, u) && TellsJson(sha1, schema, model, u)
    ensures Fits(sha1, schema, model, Prepare(sha1, u).value) <==> Faithful(schema, model, u)
  {
    if Fits(sha1, schema, model, Prepare(sha1, u).value) {
      FittingIsFaithful(sha1, schema, model, u);
    } else if Faithful(schema, model, u) {
      FaithfulFits(sha1, schema, model, u);
    }
  }

  lemma {:induction false} FittingIsFaithful(sha1: Sha1, schema: Schema, model: string, u: Value)
    requires Plain(u) && Prepare(sha1, u).Ok? && Shaped(schema, model, u) && TellsJson(sha1, schema, model, u)
    requires Fits(sha1, schema, model, Prepare(sha1, u).value)
    ensures Faithful(schema, model, u)
  {
    PreparedTree(sha1, u);
    var t, p := Prepare(sha1, u).value, PrepareItems(sha1, u.items).value;
    forall i | 0 <= i < |u.items| && Live(u.items[i])
      ensures FaithfulValue(FindDef(schema[model], u.items[i].key).value, u.items[i].val)
    {
      PreparedAt(sha1, u.items, i);
      var q := Item(u.items[i].key, PrepareValue(sha1, u.items[i].val).value.tree);
      var k :| 0 <= k < |p.items| && p.items[k] == q;
      assert t.items[k] == q && ShapedItem(schema, model, u.items[i]);
      FitsExactly(sha1, FindDef(schema[model], u.items[i].key).value, u.items[i].val);
    }
  }

  lemma {:induction false} FaithfulFits(sha1: Sha1, schema: Schema, model: string, u: Value)
    requires Plain(u) && Prepare(sha1, u).Ok? && Shaped(schema, model, u) && TellsJson(sha1, schema, model, u)
    requires Faithful(schema, model, u)
    ensures Fits(sha1, schema, model, Prepare(sha1, u).value)
  {
    PreparedTree(sha1, u);
    var t, p := Prepare(sha1, u).value, PrepareItems(sha1, u.items).value;
    forall k | 0 <= k < |t.items| && t.items[k].key != MT_HASH
      ensures var d := FindDef(schema[model], t.items[k].key);
              d.Some? && ValueFits(sha1, d.value, t.items[k].val)
    {
      assert t.items[k] == p.items[k];
      var i := KeptItems(sha1, u.items, p.items[k]);
      assert ShapedItem(schema, model, u.items[i]);
      FitsExactly(sha1, FindDef(schema[model], u.items[i].key).value, u.items[i].val);
    }
  }

  /** The row `commit` is about to save for a tree that has the right shape. */
  ghost function RowFor(sha1: Sha1, schema: Schema, s: Store, model: string, t: Value): Row
    requires t.Dict? && model in schema
  {
    var b := Filled(sha1, schema, s, model, t);
    Row(model, HashTextIn(t), if b.vals.Ok? then b.vals.value else map[])
  }

  /** A tree with values of the right kind and a hash that is not in the table. If its
      subtrees are committed, SHA-1 tells what is hashed for the row from what was hashed
      for the tree, if they differ. */
  ghost predicate NewTree(sha1: Sha1, schema: Schema, s: Store, model: string, u: Value) {
    && Plain(u) && Prepare(sha1, u).Ok? && Shaped(schema, model, u) && TellsJson(sha1, schema, model, u)
    && var t := Prepare(sha1, u).value;
    var filled := Filled(sha1, schema, s, model, t);
    && Find(s, model, HashTextIn(t)).None?
    && (filled.vals.Ok? ==>
          && Find(filled.store, model, HashTextIn(t)).None?
          && ToldApart(sha1, schema, filled.store, RowFor(sha1, schema, s, model, t), DataFeed(t.items)))
  }

  /** Of such trees, exactly those are committed that are faithful, and whose subtrees are
      committed. */
  lemma {:induction false} CommitSucceedsExactly(sha1: Sha1, schema: Schema, s: Store, model: string, u: Value)
    requires GoodSchema(schema) && Inv(sha1, schema, s) && NewTree(sha1, schema, s, model, u)
    ensures Commit(sha1, schema, s, model, u).result.Ok? <==>
            Filled(sha1, schema, s, model, Prepare(sha1, u).value).vals.Ok? && Faithful(schema, model, u)
  {
    var t := Prepare(sha1, u).value;
    PreparedShape(sha1, schema, model, u);
    PreparedFitsExactly(sha1, schema, model, u);
    if Filled(sha1, schema, s, model, t).vals.Ok? {
      SaveSucceedsExactly(sha1, schema, s, model, t);
    }
  }

  /** The others end with the error of a subtree; are refused by `full_clean`, with nothing
      stored but their subtrees; or leave a corrupt row, exactly if `full_clean` accepts it. */
  lemma {:induction false} CommitFailsExactly(sha1: Sha1, schema: Schema, s: Store, model: string, u: Value)
    requires GoodSchema(schema) && Inv(sha1, schema, s) && NewTree(sha1, schema, s, model, u)
    ensures var t, o := Prepare(sha1, u).value, Commit(sha1, schema, s, model, u);
            var filled, row := Filled(sha1, schema, s, model, t), RowFor(sha1, schema, s, model, t);
            var clean := FullClean(row, schema[model]);
            if filled.vals.Err? then o == Outcome(filled.store, Err(filled.vals.error))
            else if clean.None? then o == Outcome(filled.store, Err(Invalid)) && Inv(sha1, schema, o.store)
            else
              && o.store == WithRow(filled.store, clean.value)
              && (Spoiled(o.result) <==> !Faithful(schema, model, u))
              && (Inv(sha1, schema, o.store) <==> Faithful(schema, model, u))
  {
    var t := Prepare(sha1, u).value;
    CommitSucceedsExactly(sha1, schema, s, model, u);
    CommitKeeps(sha1, schema, s, model, u);
    if Filled(sha1, schema, s, model, t).vals.Ok? {
      SaveEnds(sha1, schema, Filled(sha1, schema, s, model, t).store, RowFor(sha1, schema, s, model, t));
    }
    if Spoiled(Commit(sha1, schema, s, model, u).result) {
      BrokenIsNotSound(sha1, schema, Commit(sha1, schema, s, model, u).store);
    }
  }

  lemma {:induction false} SaveEnds(sha1: Sha1, schema: Schema, s: Store, row: Row)
    requires row.model in schema && Find(s, row.model, row.mtHash).None?
    ensures var o, clean := Save(sha1, schema, s, row), FullClean(row, schema[row.model]);
            if clean.None? then o == Outcome(s, Err(Invalid))
            else o.store == WithRow(s, clean.value) && (o.result.Ok? || Spoiled(o.result))
  {
  }
}
