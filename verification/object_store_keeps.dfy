/** What `commit` keeps, whatever the tree: the tables stay sound, even if the commit
    fails halfway, unless a row is stored that fails its hash check. */
module ObjectStoreKeeps {
  import opened Wrappers
  import opened Sequences
  import opened CommitTrees
  import opened CommitTreeLaws
  import opened SealedTrees
  import opened ObjectStore

  // ----- full_clean -----

  ghost function Names(defs: seq<FieldDef>): (r: set<string>)
    ensures forall n :: n in r <==> exists d :: d in defs && d.name == n
  {
    set d | d in defs :: d.name
  }

  lemma {:induction false} FrontNames(front: seq<FieldDef>, last: FieldDef)
    requires DistinctNames(front + [last])
    ensures DistinctNames(front) && last.name !in Names(front) && last.name != ""
    ensures Names(front + [last]) == Names(front) + {last.name}
  {
    var defs := front + [last];
    assert defs[|front|] == last && forall i | 0 <= i < |front| :: defs[i] == front[i];
  }

  lemma {:induction false} FullCleanSnoc(row: Row, front: seq<FieldDef>, last: FieldDef)
    ensures var before, a := FullClean(row, front), Cleaned(last, Attribute(row, last));
            FullClean(row, front + [last]) ==
            if before.None? || a.None? then None else
                Some(before.value.(vals := before.value.vals[last.name := a.value]))
  {
    assert (front + [last])[..|front|] == front;
  }

  lemma {:induction false} FullCleanSome(row: Row, defs: seq<FieldDef>)
    ensures FullClean(row, defs).Some? <==> forall d | d in defs :: Cleaned(d, Attribute(row, d)).Some?
  {
    if defs != [] {
      var front, last := defs[..|defs| - 1], defs[|defs| - 1];
      assert defs == front + [last];
      FullCleanSome(row, front);
      FullCleanSnoc(row, front, last);
    }
  }

  lemma {:induction false} FullCleanField(row: Row, defs: seq<FieldDef>, d: FieldDef)
    requires DistinctNames(defs) && FullClean(row, defs).Some? && d in defs
    ensures Some(Attribute(FullClean(row, defs).value, d)) == Cleaned(d, Attribute(row, d))
  {
    var front, last := defs[..|defs| - 1], defs[|defs| - 1];
    assert defs == front + [last];
    FrontNames(front, last);
    FullCleanSnoc(row, front, last);
    if d in front {
      assert d.name in Names(front);
      FullCleanField(row, front, d);
    }
  }

  lemma {:induction false} FullCleanAt(row: Row, defs: seq<FieldDef>)
    requires DistinctNames(defs)
    ensures FullClean(row, defs).Some? <==> forall d | d in defs :: Cleaned(d, Attribute(row, d)).Some?
    ensures FullClean(row, defs).Some? ==>
              forall d | d in defs :: Some(Attribute(FullClean(row, defs).value, d)) == Cleaned(d, Attribute(row, d))
  {
    FullCleanSome(row, defs);
    if FullClean(row, defs).Some? {
      forall d | d in defs ensures Some(Attribute(FullClean(row, defs).value, d)) == Cleaned(d, Attribute(row, d)) {
        FullCleanField(row, defs, d);
      }
    }
  }

  // ----- larger stores -----

  lemma {:induction false} TypedStable(sha1: Sha1, s: Store, t: Store, id: nat, d: FieldDef, a: Stored)
    requires Extends(s, t) && Typed(sha1, s, id, d, a)
    ensures Typed(sha1, t, id, d, a)
    ensures HashedValue(sha1, t, a) == HashedValue(sha1, s, a)
  {
    if a.References? {
      assert forall i | 0 <= i < |a.ids| :: a.ids[i] in a.ids;
      assert RowHashes(t, a.ids) == RowHashes(s, a.ids);
    }
  }

  /** Stored rows still hash to the same, and still are well typed, in a larger store. */
  lemma {:induction false} ShallowStable(sha1: Sha1, s: Store, t: Store, id: nat, row: Row, defs: seq<FieldDef>)
    requires Extends(s, t)
    requires forall d | d in defs :: Typed(sha1, s, id, d, Attribute(row, d))
    ensures ShallowFields(sha1, t, row, defs) == ShallowFields(sha1, s, row, defs)
    ensures forall d | d in defs :: Typed(sha1, t, id, d, Attribute(row, d))
  {
    if defs != [] {
      var front, last := defs[..|defs| - 1], defs[|defs| - 1];
      assert defs == front + [last];
      ShallowStable(sha1, s, t, id, row, front);
      TypedStable(sha1, s, t, id, last, Attribute(row, last));
    }
  }

  lemma {:induction false} RowStable(sha1: Sha1, schema: Schema, s: Store, t: Store, id: nat)
    requires Extends(s, t) && id in s.rows && RowOk(sha1, schema, s, id)
    ensures RowOk(sha1, schema, t, id)
  {
    ShallowStable(sha1, s, t, id, s.rows[id], schema[s.rows[id].model]);
  }

  // ----- a stored row -----

  ghost predicate InTable(s: Store, model: string, id: nat) {
    id in s.rows && s.rows[id].model == model
  }

  /** An attribute as the loop of `commit` sets it. */
  ghost predicate SetOk(s: Store, d: FieldDef, a: Stored) {
    match d.kind
    case Scalar(_, _) => a.Plainly?
    case Json => a.AsJson? && !a.v.List? && (a.v.Dict? ==> Plain(a.v))
    case ForeignKey(related, _) => a.Reference? && (a.id.Some? ==> InTable(s, related, a.id.value))
    case ManyToMany(related) => a.References? && NoDuplicates(a.ids) && forall t | t in a.ids :: InTable(s, related, t)
  }

  ghost predicate ValsOk(s: Store, defs: seq<FieldDef>, vals: map<string, Stored>) {
    forall d | d in defs && d.name in vals :: SetOk(s, d, vals[d.name])
  }

  lemma {:induction false} ValsOkExtends(s: Store, t: Store, defs: seq<FieldDef>, vals: map<string, Stored>)
    requires ValsOk(s, defs, vals) && Extends(s, t)
    ensures ValsOk(t, defs, vals)
  {
    forall d | d in defs && d.name in vals ensures SetOk(t, d, vals[d.name]) {
      assert SetOk(s, d, vals[d.name]);
    }
  }

  lemma {:induction false} ShallowOkAt(sha1: Sha1, s: Store, row: Row, defs: seq<FieldDef>, d: FieldDef)
    requires ShallowFields(sha1, s, row, defs).Ok? && d in defs
    ensures HashedValue(sha1, s, Attribute(row, d)).Ok?
    ensures IsEmptyValue(HashedValue(sha1, s, Attribute(row, d)).value) ||
            FieldOf(HashedValue(sha1, s, Attribute(row, d)).value).Ok?
  {
    var front, last := defs[..|defs| - 1], defs[|defs| - 1];
    assert defs == front + [last];
    if d != last {
      ShallowOkAt(sha1, s, row, front, d);
    }
  }

  /** A value that can be hashed has the type of its field. */
  lemma {:induction false} CleanedTyped(sha1: Sha1, s: Store, id: nat, d: FieldDef, set_: Stored, a: Stored)
    requires SetOk(s, d, set_) && Cleaned(d, set_) == Some(a) && GoodClean(d)
    requires HashedValue(sha1, s, a).Ok?
    requires IsEmptyValue(HashedValue(sha1, s, a).value) || FieldOf(HashedValue(sha1, s, a).value).Ok?
    requires forall t | t in s.rows :: t < id
    ensures Typed(sha1, s, id, d, a)
  {
  }

  lemma {:induction false} UnsetOk(s: Store, row: Row, d: FieldDef)
    requires d.name !in row.vals
    ensures SetOk(s, d, Attribute(row, d))
  {
  }

  lemma {:induction false} FindNone(s: Store, row: Row)
    requires Unique(s) && Find(s, row.model, row.mtHash).None? && s.next !in s.rows
    ensures Unique(WithRow(s, row))
  {
    forall id | id in s.rows ensures s.rows[id].model != row.model || s.rows[id].mtHash != row.mtHash {
      assert !IsRow(s, row.model, row.mtHash, id);
    }
  }

  lemma {:induction false} NextIsNew(sha1: Sha1, schema: Schema, s: Store, row: Row)
    requires Inv(sha1, schema, s)
    ensures forall id | id in s.rows :: id < s.next
    ensures Extends(s, WithRow(s, row))
  {
    forall id | id in s.rows ensures id < s.next {
      assert RowOk(sha1, schema, s, id);
    }
  }

  /** A row whose hash is right keeps the invariant. */
  lemma {:induction false} CheckedKeeps(sha1: Sha1, schema: Schema, s: Store, row: Row, cleaned: Row)
    requires GoodSchema(schema) && Inv(sha1, schema, s) && row.model in schema
    requires ValsOk(s, schema[row.model], row.vals)
    requires FullClean(row, schema[row.model]) == Some(cleaned) && Find(s, row.model, row.mtHash).None?
    requires ShallowHash(sha1, schema, WithRow(s, cleaned), cleaned) == Ok(row.mtHash)
    ensures Inv(sha1, schema, WithRow(s, cleaned)) && Extends(s, WithRow(s, cleaned))
  {
    var t, defs := WithRow(s, cleaned), schema[row.model];
    FullCleanAt(row, defs);
    NextIsNew(sha1, schema, s, cleaned);
    FindNone(s, cleaned);
    NewRowTyped(sha1, schema, s, row, cleaned);
    assert RowOk(sha1, schema, t, s.next);
    forall id {:trigger RowOk(sha1, schema, t, id)} | id in t.rows ensures RowOk(sha1, schema, t, id) {
      if id != s.next {
        assert RowOk(sha1, schema, s, id);
        RowStable(sha1, schema, s, t, id);
      }
    }
  }

  lemma {:induction false} NewRowTyped(sha1: Sha1, schema: Schema, s: Store, row: Row, cleaned: Row)
    requires GoodSchema(schema) && row.model in schema && ValsOk(s, schema[row.model], row.vals)
    requires FullClean(row, schema[row.model]) == Some(cleaned) && cleaned.model == row.model
    requires forall id | id in s.rows :: id < s.next
    requires ShallowHash(sha1, schema, WithRow(s, cleaned), cleaned).Ok?
    ensures forall d | d in schema[row.model] :: Typed(sha1, WithRow(s, cleaned), s.next, d, Attribute(cleaned, d))
  {
    var t, defs := WithRow(s, cleaned), schema[row.model];
    FullCleanAt(row, defs);
    forall d | d in defs ensures Typed(sha1, t, s.next, d, Attribute(cleaned, d)) {
      OneTyped(sha1, s, t, defs, d, row, cleaned);
    }
  }

  lemma {:induction false} OneTyped(sha1: Sha1, s: Store, t: Store, defs: seq<FieldDef>, d: FieldDef, row: Row,
      cleaned: Row)
    requires t == WithRow(s, cleaned) && ValsOk(s, defs, row.vals) && d in defs && GoodClean(d)
    requires Cleaned(d, Attribute(row, d)) == Some(Attribute(cleaned, d))
    requires forall id | id in s.rows :: id < s.next
    requires ShallowFields(sha1, t, cleaned, defs).Ok?
    ensures Typed(sha1, t, s.next, d, Attribute(cleaned, d))
  {
    ShallowOkAt(sha1, t, cleaned, defs, d);
    if d.name in row.vals {
      assert SetOk(s, d, row.vals[d.name]);
    } else {
      UnsetOk(s, row, d);
    }
    SameHashedValue(sha1, s, t, d, Attribute(cleaned, d));
    CleanedTyped(sha1, s, s.next, d, Attribute(row, d), Attribute(cleaned, d));
    TypedStable(sha1, s, t, s.next, d, Attribute(cleaned, d));
  }

  lemma {:induction false} SameHashedValue(sha1: Sha1, s: Store, t: Store, d: FieldDef, a: Stored)
    requires Extends(s, t) && (a.Reference? || a.References? ==> SetOk(s, d, a))
    ensures HashedValue(sha1, t, a) == HashedValue(sha1, s, a)
  {
    if a.References? {
      assert forall i | 0 <= i < |a.ids| :: a.ids[i] in a.ids;
      assert RowHashes(t, a.ids) == RowHashes(s, a.ids);
    }
  }

  // ----- corrupt rows -----

  /** The rows an attribute refers to are present. */
  ghost predicate RefsOk(s: Store, a: Stored) {
    match a
    case Reference(Some(target)) => target in s.rows
    case References(ids) => forall t | t in ids :: t in s.rows
    case _ => true
  }

  /** A stored row that does not hash to its `mt_hash`. */
  ghost predicate Corrupt(sha1: Sha1, schema: Schema, s: Store, id: nat) {
    && id in s.rows && s.rows[id].model in schema
    && (forall d | d in schema[s.rows[id].model] :: RefsOk(s, Attribute(s.rows[id], d)))
    && ShallowHash(sha1, schema, s, s.rows[id]) != Ok(s.rows[id].mtHash)
  }

  ghost predicate FreshIds(s: Store) {
    forall id | id in s.rows :: id < s.next
  }

  ghost predicate Broken(sha1: Sha1, schema: Schema, s: Store) {
    FreshIds(s) && exists id: nat :: Corrupt(sha1, schema, s, id)
  }

  lemma {:induction false} BrokenIsNotSound(sha1: Sha1, schema: Schema, s: Store)
    requires Broken(sha1, schema, s)
    ensures !Inv(sha1, schema, s)
  {
    var id: nat :| Corrupt(sha1, schema, s, id);
    assert !RowOk(sha1, schema, s, id);
  }

  /** The attributes of a cleaned row refer to what those of the row referred to. */
  lemma {:induction false} CleanedRefs(s: Store, row: Row, defs: seq<FieldDef>, cleaned: Row)
    requires DistinctNames(defs) && ValsOk(s, defs, row.vals) && FullClean(row, defs) == Some(cleaned)
    ensures forall d | d in defs :: RefsOk(s, Attribute(cleaned, d))
  {
    FullCleanAt(row, defs);
    forall d | d in defs ensures RefsOk(s, Attribute(cleaned, d)) {
      if d.name in row.vals {
        assert SetOk(s, d, row.vals[d.name]);
      } else {
        UnsetOk(s, row, d);
      }
      SetRefs(s, d, Attribute(row, d), Attribute(cleaned, d));
    }
  }

  lemma {:induction false} SetRefs(s: Store, d: FieldDef, set_: Stored, a: Stored)
    requires SetOk(s, d, set_) && Cleaned(d, set_) == Some(a)
    ensures RefsOk(s, a)
  {
  }

  /** A row that fails its hash check breaks the store. */
  lemma {:induction false} MismatchBreaks(sha1: Sha1, schema: Schema, s: Store, row: Row, cleaned: Row)
    requires GoodSchema(schema) && Inv(sha1, schema, s) && row.model in schema
    requires ValsOk(s, schema[row.model], row.vals) && FullClean(row, schema[row.model]) == Some(cleaned)
    requires ShallowHash(sha1, schema, WithRow(s, cleaned), cleaned) != Ok(row.mtHash)
    ensures Broken(sha1, schema, WithRow(s, cleaned))
  {
    var t := WithRow(s, cleaned);
    NextIsNew(sha1, schema, s, cleaned);
    CleanedRefs(s, row, schema[row.model], cleaned);
    assert Corrupt(sha1, schema, t, s.next);
  }

  // ----- commit -----

  /** A row was stored that fails its hash check. */
  predicate Spoiled<T>(r: Result<T, CommitError>) {
    r.Err? && (r.error.BadHash? || r.error.HashMismatch?)
  }

  ghost predicate Grown(sha1: Sha1, schema: Schema, s: Store, t: Store) {
    Inv(sha1, schema, t) && Extends(s, t)
  }

  ghost predicate CommitKept(sha1: Sha1, schema: Schema, s: Store, model: string, o: Outcome) {
    if Spoiled(o.result) then Broken(sha1, schema, o.store)
    else Grown(sha1, schema, s, o.store) && (o.result.Ok? ==> InTable(o.store, model, o.result.value.0))
  }

  lemma {:induction false} SaveKeeps(sha1: Sha1, schema: Schema, s: Store, row: Row)
    requires GoodSchema(schema) && Inv(sha1, schema, s) && row.model in schema
    requires ValsOk(s, schema[row.model], row.vals)
    ensures CommitKept(sha1, schema, s, row.model, Save(sha1, schema, s, row))
  {
    var cleaned := FullClean(row, schema[row.model]);
    if Find(s, row.model, row.mtHash).None? && cleaned.Some? {
      if ShallowHash(sha1, schema, WithRow(s, cleaned.value), cleaned.value) == Ok(row.mtHash) {
        CheckedKeeps(sha1, schema, s, row, cleaned.value);
      } else {
        MismatchBreaks(sha1, schema, s, row, cleaned.value);
      }
    }
  }

  lemma {:induction false} SealedCleanupPlain(sha1: Sha1, v: Value)
    requires Sealed(sha1, v)
    ensures Plain(Cleanup(v))
    decreases v, 1
  {
    match v
    case Dict(items) => SealedItemsPlain(sha1, items, |items|);
      assert items[..|items|] == items;
    case List(elems) => SealedListPlain(sha1, elems, |elems|);
      assert elems[..|elems|] == elems;
    case _ =>
  }

  lemma {:induction false} SealedItemsPlain(sha1: Sha1, items: seq<Item>, n: nat)
    requires DistinctKeys(items) && n <= |items|
    requires forall i | 0 <= i < |items| && items[i].key != MT_HASH :: Sealed(sha1, items[i].val)
    ensures Plain(Dict(CleanupItems(items[..n])))
    decreases items, 0, n
  {
    if n > 0 {
      var front, last := items[..n - 1], items[n - 1];
      assert items[..n] == front + [last];
      SealedItemsPlain(sha1, items, n - 1);
      CleanupSnoc(front, last);
      if last.key != MT_HASH {
        SealedCleanupPlain(sha1, last.val);
        CleanupKeys(front, last.key);
        PlainSnoc(CleanupItems(front), Item(last.key, Cleanup(last.val)));
      }
    }
  }

  lemma {:induction false} CleanupKeys(items: seq<Item>, key: string)
    requires forall i | 0 <= i < |items| :: items[i].key != key
    ensures forall k | k in CleanupItems(items) :: k.key != key
  {
    if items != [] {
      CleanupKeys(items[..|items| - 1], key);
    }
  }

  lemma {:induction false} PlainSnoc(front: seq<Item>, last: Item)
    requires Plain(Dict(front)) && Plain(last.val) && last.key != MT_HASH
    requires forall k | k in front :: k.key != last.key
    ensures Plain(Dict(front + [last]))
  {
    var all := front + [last];
    assert forall i | 0 <= i < |front| :: all[i] == front[i] && front[i] in front;
  }

  lemma {:induction false} SealedListPlain(sha1: Sha1, elems: seq<Value>, n: nat)
    requires n <= |elems| && forall i | 0 <= i < |elems| :: Sealed(sha1, elems[i])
    ensures Plain(List(CleanupList(elems[..n])))
    decreases elems, 0, n
  {
    if n > 0 {
      assert elems[..n][..n - 1] == elems[..n - 1];
      SealedListPlain(sha1, elems, n - 1);
      SealedCleanupPlain(sha1, elems[n - 1]);
    }
  }

  lemma {:induction false} CommitPreparedKeeps(sha1: Sha1, schema: Schema, s: Store, model: string, t: Value)
    requires GoodSchema(schema) && Inv(sha1, schema, s) && Sealed(sha1, t)
    ensures CommitKept(sha1, schema, s, model, CommitPrepared(sha1, schema, s, model, t))
    decreases t, 1
  {
    if t.Dict? && model in schema && Find(s, model, HashTextIn(t)).None? {
      BuildKeeps(sha1, schema, s, model, t.items, |t.items|, t);
      assert t.items[..|t.items|] == t.items;
      var b := Build(sha1, schema, s, schema[model], t.items);
      if b.vals.Ok? {
        SaveKeeps(sha1, schema, b.store, Row(model, HashTextIn(t), b.vals.value));
      }
    }
  }

  ghost predicate BuildKept(sha1: Sha1, schema: Schema, s: Store, defs: seq<FieldDef>, b: Built) {
    if Spoiled(b.vals) then Broken(sha1, schema, b.store)
    else Grown(sha1, schema, s, b.store) && (b.vals.Ok? ==> ValsOk(b.store, defs, b.vals.value))
  }

  lemma {:induction false} BuildKeeps(sha1: Sha1, schema: Schema, s: Store, model: string, items: seq<Item>, n: nat,
      t: Value)
    requires n <= |items| && t == Dict(items) && model in schema
    requires GoodSchema(schema) && Inv(sha1, schema, s) && Sealed(sha1, t)
    ensures BuildKept(sha1, schema, s, schema[model], Build(sha1, schema, s, schema[model], items[..n]))
    decreases items, 0, n
  {
    if n > 0 {
      BuildKeeps(sha1, schema, s, model, items, n - 1, t);
      assert items[..n][..n - 1] == items[..n - 1] && items[..n][n - 1] == items[n - 1];
      var b, last := Build(sha1, schema, s, schema[model], items[..n - 1]), items[n - 1];
      if b.vals.Ok? && last.key != MT_HASH {
        var d := FindDef(schema[model], last.key);
        StoredForKeeps(sha1, schema, b.store, model, d, last.val);
        StepKept(sha1, schema, s, schema[model], b, last.key, StoredFor(sha1, schema, b.store, d, last.val));
      }
    }
  }

  ghost predicate StoredKept(sha1: Sha1, schema: Schema, s: Store, d: Option<FieldDef>, a: StoredValue) {
    if Spoiled(a.stored) then Broken(sha1, schema, a.store)
    else Grown(sha1, schema, s, a.store) && (a.stored.Ok? ==> d.Some? && SetOk(a.store, d.value, a.stored.value))
  }

  lemma {:induction false} StepKept(sha1: Sha1, schema: Schema, s: Store, defs: seq<FieldDef>, b: Built, key: string,
      a: StoredValue)
    requires DistinctNames(defs) && b.vals.Ok? && BuildKept(sha1, schema, s, defs, b)
    requires StoredKept(sha1, schema, b.store, FindDef(defs, key), a)
    ensures BuildKept(sha1, schema, s, defs,
                      Built(a.store, if a.stored.Ok? then Ok(b.vals.value[key := a.stored.value]) else
                          Err(a.stored.error)))
  {
    if !Spoiled(a.stored) {
      ValsOkExtends(b.store, a.store, defs, b.vals.value);
    }
  }

  lemma {:induction false} StoredForKeeps(sha1: Sha1, schema: Schema, s: Store, model: string, d: Option<FieldDef>,
      v: Value)
    requires GoodSchema(schema) && Inv(sha1, schema, s) && Sealed(sha1, v)
    ensures StoredKept(sha1, schema, s, d, StoredFor(sha1, schema, s, d, v))
    decreases v, 2
  {
    if d.Some? {
      match v
      case Dict(_) =>
        if d.value.kind.Json? {
          SealedCleanupPlain(sha1, v);
        } else if d.value.kind.ForeignKey? {
          CommitPreparedKeeps(sha1, schema, s, d.value.kind.related, v);
        }
      case List(elems) =>
        if d.value.kind.ManyToMany? {
          CommitEachKeeps(sha1, schema, s, d.value.kind.related, elems);
          var l := CommitEach(sha1, schema, s, d.value.kind.related, elems);
          if l.ids.Ok? {
            DistinctIs(l.ids.value);
          }
        }
      case _ =>
    }
  }

  ghost predicate EachKept(sha1: Sha1, schema: Schema, s: Store, model: string, l: Committed) {
    if Spoiled(l.ids) then Broken(sha1, schema, l.store)
    else Grown(sha1, schema, s, l.store) && (l.ids.Ok? ==> forall t | t in l.ids.value :: InTable(l.store, model, t))
  }

  lemma {:induction false} CommitEachKeeps(sha1: Sha1, schema: Schema, s: Store, model: string, elems: seq<Value>)
    requires GoodSchema(schema) && Inv(sha1, schema, s) && forall i | 0 <= i < |elems| :: Sealed(sha1, elems[i])
    ensures EachKept(sha1, schema, s, model, CommitEach(sha1, schema, s, model, elems))
    decreases elems, 0
  {
    if elems != [] {
      var front, last := elems[..|elems| - 1], elems[|elems| - 1];
      assert forall i | 0 <= i < |front| :: front[i] == elems[i];
      CommitEachKeeps(sha1, schema, s, model, front);
      var l := CommitEach(sha1, schema, s, model, front);
      if l.ids.Ok? {
        CommitPreparedKeeps(sha1, schema, l.store, model, last);
      }
    }
  }

  /** Any tree nobody prepared yet, well-formed or not: sound tables stay sound, unless
      a row was stored that fails its hash check. */
  lemma {:induction false} CommitKeeps(sha1: Sha1, schema: Schema, s: Store, model: string, u: Value)
    requires GoodSchema(schema) && Inv(sha1, schema, s) && Plain(u)
    ensures CommitKept(sha1, schema, s, model, Commit(sha1, schema, s, model, u))
  {
    if Prepare(sha1, u).Ok? {
      PrepareDictSeals(sha1, u.items);
      CommitPreparedKeeps(sha1, schema, s, model, Prepare(sha1, u).value);
    }
  }
}
