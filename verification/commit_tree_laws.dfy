/** What preparing a commit tree promises: a canonical hash, idempotence, and the
    cleaned up tree. A tree is `Plain` when it is a Python value nobody has
    prepared yet: dict keys are distinct and none of them is "mt_hash". */
module CommitTreeLaws {
  import opened Wrappers
  import opened Sequences
  import opened Strings
  import opened CommitTrees

  ghost predicate Plain(v: Value) {
    match v
    case Dict(items) =>
      && DistinctKeys(items)
      && forall i | 0 <= i < |items| :: items[i].key != MT_HASH && Plain(items[i].val)
    case List(elems) => forall i | 0 <= i < |elems| :: Plain(elems[i])
    case _ => true
  }

  predicate Live(item: Item) {
    !IsEmptyValue(item.val)
  }

  ghost function LiveKeys(items: seq<Item>): set<string> {
    set i | 0 <= i < |items| && Live(items[i]) :: items[i].key
  }

  /** Same tree up to the insertion order of dicts, the order of lists, the
      timezone of dates, and keys that hold None, [] or {}, at any depth. */
  ghost predicate Equivalent(a: Value, b: Value) {
    match a
    case Dict(x) =>
      && b.Dict?
      && LiveKeys(x) == LiveKeys(b.items)
      && forall i, j | 0 <= i < |x| && 0 <= j < |b.items| && x[i].key == b.items[j].key && Live(x[i]) &&
          Live(b.items[j]) ::
           Equivalent(x[i].val, b.items[j].val)
    case List(x) =>
      && b.List?
      && exists y: seq<Value> ::
           && |y| == |x|
           && multiset(y) == multiset(b.elems)
           && forall i | 0 <= i < |x| :: Equivalent(x[i], y[i])
    case Date(iso, _) => b.Date? && b.iso == iso
    case _ => a == b
  }

  // ----- what a value contributes to the hash of its parent -----

  ghost function RootHash(sha1: Sha1, t: Value): Result<Value, TreeError> {
    var p :- Prepare(sha1, t);
    Ok(HashIn(p))
  }

  ghost function Contribution(sha1: Sha1, v: Value): Result<seq<string>, TreeError> {
    var q :- PrepareValue(sha1, v);
    var f :- FieldOf(q.hashed);
    Ok(Chunks(f))
  }

  /** Either both raise, or both give the same value. */
  ghost predicate Agree<T(!new)>(a: Result<T, TreeError>, b: Result<T, TreeError>) {
    if a.Ok? then b == a else b.Err?
  }

  lemma {:induction false} LookupNone(items: seq<Item>, key: string)
    requires forall i | 0 <= i < |items| :: items[i].key != key
    ensures Lookup(items, key) == None
    ensures forall v :: Put(items, key, v) == items + [Item(key, v)]
  {
    if items != [] {
      LookupNone(items[1..], key);
      forall v ensures Put(items, key, v) == items + [Item(key, v)] {
        assert Put(items, key, v) == [items[0]] + (items[1..] + [Item(key, v)]);
      }
    }
  }

  lemma {:induction false} PlainHash(sha1: Sha1, t: Value)
    requires Plain(t) && t.Dict?
    ensures Prepare(sha1, t).Ok? <==> PrepareItems(sha1, t.items).Ok?
    ensures Prepare(sha1, t).Ok? ==>
              RootHash(sha1, t) == Ok(Str(Digest(sha1, FeedOf(PrepareItems(sha1, t.items).value.fields))))
    ensures Contribution(sha1, t).Ok? <==> Prepare(sha1, t).Ok?
    ensures Prepare(sha1, t).Ok? ==>
              Contribution(sha1, t) == Ok([Digest(sha1, FeedOf(PrepareItems(sha1, t.items).value.fields))])
  {
    LookupNone(t.items, MT_HASH);
    var r := PrepareItems(sha1, t.items);
    if r.Ok? {
      LookupPut(r.value.items, MT_HASH, Str(Digest(sha1, FeedOf(r.value.fields))));
    }
  }

  ghost predicate ItemFits(sha1: Sha1, item: Item) {
    Live(item) ==> item.key != "" && Contribution(sha1, item.val).Ok?
  }

  lemma {:induction false} HashedNotEmpty(sha1: Sha1, v: Value)
    requires Plain(v) && !IsEmptyValue(v) && PrepareValue(sha1, v).Ok?
    ensures !IsEmptyValue(PrepareValue(sha1, v).value.hashed)
  {
    match v
    case Dict(_) => PlainHash(sha1, v);
    case List(elems) => PrepareListLength(sha1, elems);
    case _ =>
  }

  lemma {:induction false} PrepareListLength(sha1: Sha1, elems: seq<Value>)
    requires PrepareList(sha1, elems).Ok?
    ensures |PrepareList(sha1, elems).value.trees| == |elems|
    ensures |PrepareList(sha1, elems).value.hashes| == |elems|
  {
    if elems != [] {
      PrepareListLength(sha1, elems[..|elems| - 1]);
    }
  }

  lemma {:induction false} KeptItem(p: PreparedItems, key: string, q: Prepared)
    requires Kept(p, key, q).Ok? && !IsEmptyValue(q.hashed)
    ensures key !in p.fields && FieldOf(q.hashed).Ok?
    ensures Kept(p, key, q).value == PreparedItems(p.items + [Item(key, q.tree)],
            p.fields[key := FieldOf(q.hashed).value])
  {
  }

  lemma {:induction false} FeedOfUpdate(fields: map<string, Field>, key: string, f: Field)
    ensures FeedOf(fields[key := f]) == FeedOf(fields)[key := Chunks(f)]
  {
  }

  ghost predicate AllFit(sha1: Sha1, items: seq<Item>) {
    forall i | 0 <= i < |items| :: ItemFits(sha1, items[i])
  }

  /** The fields hold what each live item contributes, under its name. */
  ghost predicate FedItems(sha1: Sha1, items: seq<Item>, fields: map<string, Field>) {
    && fields.Keys == LiveKeys(items)
    && forall i | 0 <= i < |items| && Live(items[i]) ::
         && Contribution(sha1, items[i].val).Ok?
         && FeedOf(fields)[items[i].key] == Contribution(sha1, items[i].val).value
  }

  lemma {:induction false} AllFitSnoc(sha1: Sha1, front: seq<Item>, last: Item)
    ensures AllFit(sha1, front + [last]) <==> AllFit(sha1, front) && ItemFits(sha1, last)
  {
    var items := front + [last];
    assert items[|front|] == last && forall i | 0 <= i < |front| :: items[i] == front[i];
  }

  lemma {:induction false} FedItemsSnoc(sha1: Sha1, front: seq<Item>, last: Item, fields: map<string, Field>,
      after: map<string, Field>)
    requires DistinctKeys(front + [last]) && FedItems(sha1, front, fields)
    requires if Live(last) then
               && Contribution(sha1, last.val).Ok?
               && after.Keys == fields.Keys + {last.key}
               && FeedOf(after) == FeedOf(fields)[last.key := Contribution(sha1, last.val).value]
             else after == fields
    ensures FedItems(sha1, front + [last], after)
  {
    var items := front + [last];
    LiveKeysSnoc(front, last);
    forall i | 0 <= i < |items| && Live(items[i])
      ensures Contribution(sha1, items[i].val).Ok?
      ensures FeedOf(after)[items[i].key] == Contribution(sha1, items[i].val).value
    {
      if i < |front| {
        assert items[i] == front[i] && items[i].key != items[|front|].key;
        assert front[i].key in LiveKeys(front);
      }
    }
  }

  lemma {:induction false} PrepareSnoc(sha1: Sha1, front: seq<Item>, last: Item)
    ensures PrepareItems(sha1, front + [last]) ==
            var p := PrepareItems(sha1, front);
            if p.Err? || !Live(last) then p
            else
              var q := PrepareValue(sha1, last.val);
              if q.Err? then Err(q.error) else Kept(p.value, last.key, q.value)
  {
    assert (front + [last])[..|front|] == front;
  }

  /** Preparing the items of a dict succeeds exactly when every non-empty item has
      a name and a hashable value, and feeds each of them under its own name. */
  lemma {:induction false} ItemsFeed(sha1: Sha1, items: seq<Item>)
    requires Plain(Dict(items))
    ensures PrepareItems(sha1, items).Ok? <==> AllFit(sha1, items)
    ensures PrepareItems(sha1, items).Ok? ==> FedItems(sha1, items, PrepareItems(sha1, items).value.fields)
  {
    if items != [] {
      var front, last := items[..|items| - 1], items[|items| - 1];
      assert items == front + [last];
      PlainFront(front, last);
      ItemsFeed(sha1, front);
      LiveKeysSnoc(front, last);
      AllFitSnoc(sha1, front, last);
      PrepareSnoc(sha1, front, last);
      if PrepareItems(sha1, front).Ok? {
        var fields := PrepareItems(sha1, front).value.fields;
        if Live(last) {
          LastItemFits(sha1, PrepareItems(sha1, front).value, last);
        }
        if ItemFits(sha1, last) {
          FedItemsSnoc(sha1, front, last, fields, PrepareItems(sha1, items).value.fields);
        }
      }
    }
  }

  lemma {:induction false} LiveKeysSnoc(front: seq<Item>, last: Item)
    requires DistinctKeys(front + [last])
    ensures LiveKeys(front + [last]) == LiveKeys(front) + if Live(last) then {last.key} else {}
    ensures last.key !in LiveKeys(front)
  {
    var items := front + [last];
    assert items[|front|] == last && forall i | 0 <= i < |front| :: front[i] == items[i];
  }

  lemma {:induction false} LastItemFits(sha1: Sha1, p: PreparedItems, last: Item)
    requires Plain(last.val) && Live(last) && last.key !in p.fields
    ensures ItemFits(sha1, last) <==>
              PrepareValue(sha1, last.val).Ok? && Kept(p, last.key, PrepareValue(sha1, last.val).value).Ok?
    ensures ItemFits(sha1, last) ==>
              var fields := Kept(p, last.key, PrepareValue(sha1, last.val).value).value.fields;
              && fields.Keys == p.fields.Keys + {last.key}
              && FeedOf(fields) == FeedOf(p.fields)[last.key := Contribution(sha1, last.val).value]
  {
    if PrepareValue(sha1, last.val).Ok? {
      HashedNotEmpty(sha1, last.val);
      var q := PrepareValue(sha1, last.val).value;
      if ItemFits(sha1, last) {
        FeedOfUpdate(p.fields, last.key, FieldOf(q.hashed).value);
      }
    }
  }

  /** None, [] and {} are dropped; any other value stays, if it can be hashed: 0, False and
      the empty string as well. */
  lemma {:induction false} DroppedExactly(sha1: Sha1, front: seq<Item>, k: string, v: Value)
    requires Plain(Dict(front + [Item(k, v)])) && PrepareItems(sha1, front + [Item(k, v)]).Ok?
    ensures PrepareItems(sha1, front).Ok?
    ensures var before, after := PrepareItems(sha1, front).value, PrepareItems(sha1, front + [Item(k, v)]).value;
            if v == Null || v == List([]) || v == Dict([]) then after == before
            else |after.items| == |before.items| + 1 && after.items[|before.items|].key == k && k in after.fields
  {
    PrepareSnoc(sha1, front, Item(k, v));
    if Live(Item(k, v)) {
      PlainFront(front, Item(k, v));
      HashedNotEmpty(sha1, v);
      KeptItem(PrepareItems(sha1, front).value, k, PrepareValue(sha1, v).value);
    }
  }

  // ----- lists of subtrees -----

  ghost function HashText(sha1: Sha1, t: Value): string {
    var r := RootHash(sha1, t);
    if r.Ok? && r.value.Str? then r.value.s else ""
  }

  ghost function HashTexts(sha1: Sha1, ts: seq<Value>): (r: seq<string>)
    ensures |r| == |ts|
    ensures forall i | 0 <= i < |ts| :: r[i] == HashText(sha1, ts[i])
  {
    Map((t: Value) => HashText(sha1, t), ts)
  }

  ghost predicate Hashable(sha1: Sha1, t: Value) {
    t.Dict? && Prepare(sha1, t).Ok?
  }

  ghost predicate AllHashable(sha1: Sha1, ts: seq<Value>) {
    forall i | 0 <= i < |ts| :: Hashable(sha1, ts[i])
  }

  lemma {:induction false} HashableText(sha1: Sha1, t: Value)
    requires Plain(t) && Hashable(sha1, t)
    ensures HashIn(Prepare(sha1, t).value) == Str(HashText(sha1, t))
    ensures |HashText(sha1, t)| == 40
    ensures Contribution(sha1, t) == Ok([HashText(sha1, t)])
  {
    PlainHash(sha1, t);
  }

  ghost predicate AreHashes(hashes: seq<Value>, texts: seq<string>) {
    |hashes| == |texts| && forall i | 0 <= i < |hashes| :: IsHash(hashes[i]) && hashes[i].s == texts[i]
  }

  lemma {:induction false} ListFeed(sha1: Sha1, elems: seq<Value>)
    requires Plain(List(elems))
    ensures PrepareList(sha1, elems).Ok? <==> AllHashable(sha1, elems) && NoDuplicates(HashTexts(sha1, elems))
    ensures PrepareList(sha1, elems).Ok? ==> AreHashes(PrepareList(sha1, elems).value.hashes, HashTexts(sha1, elems))
  {
    if elems != [] {
      var n := |elems| - 1;
      var front, last := elems[..n], elems[n];
      assert elems == front + [last];
      ListFeed(sha1, front);
      AllHashableSnoc(sha1, front, last);
      if PrepareList(sha1, front).Ok? && Hashable(sha1, last) {
        HashableText(sha1, last);
        MemberOfHashes(PrepareList(sha1, front).value.hashes, HashTexts(sha1, front), HashText(sha1, last));
        NoDuplicatesSnoc(HashTexts(sha1, front), HashText(sha1, last));
      } else if AllHashable(sha1, front) {
        NoDuplicatesSnoc(HashTexts(sha1, front), HashText(sha1, last));
      }
    }
  }

  lemma {:induction false} AllHashableSnoc(sha1: Sha1, front: seq<Value>, last: Value)
    ensures AllHashable(sha1, front + [last]) <==> AllHashable(sha1, front) && Hashable(sha1, last)
  {
    var ts := front + [last];
    assert ts[|front|] == last;
    assert forall i | 0 <= i < |front| :: ts[i] == front[i];
  }

  lemma {:induction false} MemberOfHashes(hashes: seq<Value>, texts: seq<string>, t: string)
    requires AreHashes(hashes, texts)
    ensures Str(t) in hashes <==> t in texts
  {
    if t in texts {
      var i :| 0 <= i < |texts| && texts[i] == t;
      assert hashes[i] == Str(t);
    }
  }

  lemma {:induction false} HashesField(hashes: seq<Value>, texts: seq<string>)
    requires AreHashes(hashes, texts)
    ensures FieldOf(List(hashes)) == Ok(Hashes(texts))
  {
    assert Texts(hashes) == texts;
  }

  /** A list contributes the sorted hashes of its subtrees. */
  lemma {:induction false} ListContribution(sha1: Sha1, elems: seq<Value>)
    requires Plain(List(elems))
    ensures Contribution(sha1, List(elems)).Ok? <==> AllHashable(sha1, elems) && NoDuplicates(HashTexts(sha1, elems))
    ensures Contribution(sha1, List(elems)).Ok? ==>
              Contribution(sha1, List(elems)) == Ok(Sort(HashTexts(sha1, elems)))
  {
    ListFeed(sha1, elems);
    var r := PrepareList(sha1, elems);
    if r.Ok? {
      HashesField(r.value.hashes, HashTexts(sha1, elems));
      assert PrepareValue(sha1, List(elems)) == Ok(Prepared(List(r.value.trees), List(r.value.hashes)));
    }
  }

  // ----- the hash is canonical -----

  lemma {:induction false} PermutedList(sha1: Sha1, y: seq<Value>, z: seq<Value>)
    requires Plain(List(y)) && Plain(List(z)) && multiset(y) == multiset(z)
    ensures Agree(Contribution(sha1, List(y)), Contribution(sha1, List(z)))
  {
    ListContribution(sha1, y);
    ListContribution(sha1, z);
    MapPermuted((t: Value) => HashText(sha1, t), y, z);
    SortCanonical(HashTexts(sha1, y), HashTexts(sha1, z));
    NoDuplicatesCounts(HashTexts(sha1, y));
    NoDuplicatesCounts(HashTexts(sha1, z));
    if AllHashable(sha1, y) {
      PermutedHashable(sha1, y, z);
    }
    if AllHashable(sha1, z) {
      PermutedHashable(sha1, z, y);
    }
  }

  lemma {:induction false} PermutedHashable(sha1: Sha1, y: seq<Value>, z: seq<Value>)
    requires multiset(y) == multiset(z) && AllHashable(sha1, y)
    ensures AllHashable(sha1, z)
  {
    forall i | 0 <= i < |z| ensures Hashable(sha1, z[i]) {
      assert z[i] in multiset(y);
    }
  }

  /** Two dicts with the same live keys whose values contribute the same. */
  ghost predicate SameContributions(sha1: Sha1, x: seq<Item>, y: seq<Item>) {
    && LiveKeys(x) == LiveKeys(y)
    && forall i, j | 0 <= i < |x| && 0 <= j < |y| && x[i].key == y[j].key && Live(x[i]) && Live(y[j]) ::
         Agree(Contribution(sha1, x[i].val), Contribution(sha1, y[j].val))
  }

  lemma {:induction false} LiveItem(items: seq<Item>, k: string) returns (i: nat)
    requires k in LiveKeys(items)
    ensures i < |items| && items[i].key == k && Live(items[i])
  {
    i :| 0 <= i < |items| && items[i].key == k && Live(items[i]);
  }

  lemma {:induction false} SameContributionsFit(sha1: Sha1, x: seq<Item>, y: seq<Item>)
    requires SameContributions(sha1, x, y)
    requires forall i | 0 <= i < |x| :: ItemFits(sha1, x[i])
    ensures forall j | 0 <= j < |y| :: ItemFits(sha1, y[j])
  {
    forall j | 0 <= j < |y| ensures ItemFits(sha1, y[j]) {
      if Live(y[j]) {
        assert y[j].key in LiveKeys(y);
        var i := LiveItem(x, y[j].key);
        assert ItemFits(sha1, x[i]);
      }
    }
  }

  lemma {:induction false} SameContributionsFeed(sha1: Sha1, x: seq<Item>, y: seq<Item>)
    requires Plain(Dict(x)) && Plain(Dict(y)) && SameContributions(sha1, x, y)
    requires PrepareItems(sha1, x).Ok?
    ensures PrepareItems(sha1, y).Ok?
    ensures FeedOf(PrepareItems(sha1, x).value.fields) == FeedOf(PrepareItems(sha1, y).value.fields)
  {
    ItemsFeed(sha1, x);
    ItemsFeed(sha1, y);
    SameContributionsFit(sha1, x, y);
    var fx, fy := FeedOf(PrepareItems(sha1, x).value.fields), FeedOf(PrepareItems(sha1, y).value.fields);
    forall k | k in fx.Keys ensures fx[k] == fy[k] {
      var i := LiveItem(x, k);
      var j := LiveItem(y, k);
      assert Agree(Contribution(sha1, x[i].val), Contribution(sha1, y[j].val));
      assert ItemFits(sha1, x[i]);
    }
  }

  lemma {:induction false} EquivalentContribution(sha1: Sha1, a: Value, b: Value)
    requires Plain(a) && Plain(b) && Equivalent(a, b)
    ensures Agree(Contribution(sha1, a), Contribution(sha1, b))
    decreases a
  {
    match a
    case Dict(x) =>
      forall i, j | 0 <= i < |x| && 0 <= j < |b.items| && x[i].key == b.items[j].key && Live(x[i]) && Live(b.items[j])
        ensures Agree(Contribution(sha1, x[i].val), Contribution(sha1, b.items[j].val))
        ensures Agree(Contribution(sha1, b.items[j].val), Contribution(sha1, x[i].val))
      {
        EquivalentContribution(sha1, x[i].val, b.items[j].val);
      }
      SameContributionsDict(sha1, a, b);
    case List(x) =>
      EquivalentListContribution(sha1, x, b.elems);
    case _ =>
  }

  /** A list matches one that is a permutation of the other, element by element. */
  ghost predicate Matches(x: seq<Value>, y: seq<Value>) {
    |y| == |x| && forall i | 0 <= i < |x| :: Equivalent(x[i], y[i])
  }

  lemma {:induction false} EquivalentListContribution(sha1: Sha1, x: seq<Value>, z: seq<Value>)
    requires Plain(List(x)) && Plain(List(z)) && Equivalent(List(x), List(z))
    ensures Agree(Contribution(sha1, List(x)), Contribution(sha1, List(z)))
    decreases x, 1
  {
    var y: seq<Value> :| |y| == |x| && multiset(y) == multiset(z) && forall i | 0 <= i < |x| :: Equivalent(x[i], y[i]);
    forall i | 0 <= i < |y| ensures Plain(y[i]) {
      assert y[i] in multiset(z);
    }
    assert Matches(x, y);
    MatchedElements(sha1, x, y);
    PointwiseList(sha1, x, y);
    PermutedList(sha1, y, z);
  }

  lemma {:induction false} MatchedElements(sha1: Sha1, x: seq<Value>, y: seq<Value>)
    requires Plain(List(x)) && Plain(List(y)) && Matches(x, y)
    ensures SameElements(sha1, x, y)
    decreases x, 0
  {
    forall i | 0 <= i < |x|
      ensures Hashable(sha1, x[i]) <==> Hashable(sha1, y[i])
      ensures Hashable(sha1, x[i]) ==> HashText(sha1, x[i]) == HashText(sha1, y[i])
    {
      EquivalentContribution(sha1, x[i], y[i]);
      SameElement(sha1, x[i], y[i]);
    }
  }

  lemma {:induction false} SameContributionsDict(sha1: Sha1, a: Value, b: Value)
    requires a.Dict? && b.Dict? && Plain(a) && Plain(b)
    requires SameContributions(sha1, a.items, b.items) && SameContributions(sha1, b.items, a.items)
    ensures Agree(Contribution(sha1, a), Contribution(sha1, b))
  {
    PlainHash(sha1, a);
    PlainHash(sha1, b);
    if PrepareItems(sha1, a.items).Ok? {
      SameContributionsFeed(sha1, a.items, b.items);
    } else if PrepareItems(sha1, b.items).Ok? {
      SameContributionsFeed(sha1, b.items, a.items);
    }
  }

  lemma {:induction false} SameElement(sha1: Sha1, x: Value, y: Value)
    requires Plain(x) && Plain(y) && x.Dict? == y.Dict? && Agree(Contribution(sha1, x), Contribution(sha1, y))
    ensures Hashable(sha1, x) <==> Hashable(sha1, y)
    ensures Hashable(sha1, x) ==> HashText(sha1, x) == HashText(sha1, y)
  {
    if x.Dict? {
      PlainHash(sha1, x);
      PlainHash(sha1, y);
    }
  }

  ghost predicate SameElements(sha1: Sha1, x: seq<Value>, y: seq<Value>) {
    && |x| == |y|
    && forall i | 0 <= i < |x| ::
         && (Hashable(sha1, x[i]) <==> Hashable(sha1, y[i]))
         && (Hashable(sha1, x[i]) ==> HashText(sha1, x[i]) == HashText(sha1, y[i]))
  }

  lemma {:induction false} SameElementsTexts(sha1: Sha1, x: seq<Value>, y: seq<Value>)
    requires SameElements(sha1, x, y) && AllHashable(sha1, x)
    ensures AllHashable(sha1, y) && HashTexts(sha1, x) == HashTexts(sha1, y)
  {
    forall i | 0 <= i < |x| ensures Hashable(sha1, y[i]) && HashText(sha1, x[i]) == HashText(sha1, y[i]) {
      assert Hashable(sha1, x[i]);
    }
  }

  lemma {:induction false} PointwiseList(sha1: Sha1, x: seq<Value>, y: seq<Value>)
    requires Plain(List(x)) && Plain(List(y)) && SameElements(sha1, x, y)
    ensures Agree(Contribution(sha1, List(x)), Contribution(sha1, List(y)))
  {
    ListContribution(sha1, x);
    ListContribution(sha1, y);
    if AllHashable(sha1, x) {
      SameElementsTexts(sha1, x, y);
    } else if AllHashable(sha1, y) {
      SameElementsTexts(sha1, y, x);
    }
  }

  /** Equivalent trees are prepared alike: both raise, or both get the same hash. */
  lemma {:induction false} CanonicalHash(sha1: Sha1, a: Value, b: Value)
    requires Plain(a) && Plain(b) && a.Dict? && Equivalent(a, b)
    ensures Agree(RootHash(sha1, a), RootHash(sha1, b))
  {
    EquivalentContribution(sha1, a, b);
    PlainHash(sha1, a);
    PlainHash(sha1, b);
  }

  // ----- what counts as equivalent -----

  lemma {:induction false} EquivalentReflexive(a: Value)
    requires Plain(a)
    ensures Equivalent(a, a)
  {
    match a
    case Dict(items) =>
      forall i, j | 0 <= i < |items| && 0 <= j < |items| && items[i].key == items[j].key
        ensures Equivalent(items[i].val, items[j].val)
      {
        assert i == j;
        EquivalentReflexive(items[i].val);
      }
    case List(elems) =>
      forall i | 0 <= i < |elems| ensures Equivalent(elems[i], elems[i]) {
        EquivalentReflexive(elems[i]);
      }
      EquivalentLists(elems, elems, elems);
    case _ =>
  }

  lemma {:induction false} EquivalentLists(x: seq<Value>, y: seq<Value>, z: seq<Value>)
    requires |x| == |y| && multiset(y) == multiset(z)
    requires forall i | 0 <= i < |x| :: Equivalent(x[i], y[i])
    ensures Equivalent(List(x), List(z))
  {
  }

  /** Reordering a dict and dropping or adding empty values anywhere in it. */
  lemma {:induction false} ReorderedDict(x: seq<Item>, y: seq<Item>)
    requires Plain(Dict(x)) && Plain(Dict(y))
    requires forall item :: item in x && Live(item) <==> item in y && Live(item)
    ensures Equivalent(Dict(x), Dict(y))
  {
    forall k ensures k in LiveKeys(x) <==> k in LiveKeys(y) {
      if k in LiveKeys(x) {
        var i := LiveItem(x, k);
        assert x[i] in y;
      }
      if k in LiveKeys(y) {
        var j := LiveItem(y, k);
        assert y[j] in x;
      }
    }
    forall i, j | 0 <= i < |x| && 0 <= j < |y| && x[i].key == y[j].key && Live(x[i]) && Live(y[j])
      ensures Equivalent(x[i].val, y[j].val)
    {
      assert x[i] in y;
      EquivalentReflexive(x[i].val);
    }
  }

  /** Reordering a list. */
  lemma {:induction false} ReorderedList(x: seq<Value>, y: seq<Value>)
    requires Plain(List(x)) && multiset(x) == multiset(y)
    ensures Equivalent(List(x), List(y))
  {
    forall i | 0 <= i < |x| ensures Equivalent(x[i], x[i]) {
      EquivalentReflexive(x[i]);
    }
    EquivalentLists(x, x, y);
  }

  /** Preparing a prepared tree changes nothing. */
  lemma {:induction false} PrepareIdempotent(sha1: Sha1, t: Value)
    requires Plain(t) && Prepare(sha1, t).Ok?
    ensures Prepare(sha1, Prepare(sha1, t).value) == Prepare(sha1, t)
  {
    PlainHash(sha1, t);
  }

  // ----- cleanup_commit_tree -----

  /** `cleanup_commit_tree`: the hashes are taken out again, at every depth. */
  function Cleanup(t: Value): Value
    decreases t, 1
  {
    match t
    case Dict(items) => Dict(CleanupItems(items))
    case List(elems) => List(CleanupList(elems))
    case _ => t
  }

  function CleanupItems(items: seq<Item>): seq<Item>
    decreases items, 0
  {
    if items == [] then []
    else
      var front, last := CleanupItems(items[..|items| - 1]), items[|items| - 1];
      if last.key == MT_HASH then front else front + [Item(last.key, Cleanup(last.val))]
  }

  function CleanupList(elems: seq<Value>): seq<Value>
    decreases elems, 0
  {
    if elems == [] then [] else CleanupList(elems[..|elems| - 1]) + [Cleanup(elems[|elems| - 1])]
  }

  /** The tree without its empty values and without timezones: what the caller
      meant, said without any reference to hashing. */
  function Prune(t: Value): Value
    decreases t, 1
  {
    match t
    case Dict(items) => Dict(PruneItems(items))
    case List(elems) => List(PruneList(elems))
    case Date(iso, _) => Date(iso, false)
    case _ => t
  }

  function PruneItems(items: seq<Item>): seq<Item>
    decreases items, 0
  {
    if items == [] then []
    else
      var front, last := PruneItems(items[..|items| - 1]), items[|items| - 1];
      if Live(last) then front + [Item(last.key, Prune(last.val))] else front
  }

  function PruneList(elems: seq<Value>): (r: seq<Value>)
    ensures |r| == |elems|
    ensures forall i | 0 <= i < |elems| :: r[i] == Prune(elems[i])
    decreases elems, 0
  {
    if elems == [] then [] else PruneList(elems[..|elems| - 1]) + [Prune(elems[|elems| - 1])]
  }

  lemma {:induction false} CleanupOfValue(sha1: Sha1, v: Value)
    requires Plain(v) && PrepareValue(sha1, v).Ok?
    ensures Cleanup(PrepareValue(sha1, v).value.tree) == Prune(v)
    decreases v, 1
  {
    if v.Dict? {
      CleanupOfDict(sha1, v.items);
    } else if v.List? {
      CleanupOfPreparedList(sha1, v.elems);
    }
  }

  lemma {:induction false} CleanupOfDict(sha1: Sha1, items: seq<Item>)
    requires Plain(Dict(items)) && Prepare(sha1, Dict(items)).Ok?
    ensures Cleanup(Prepare(sha1, Dict(items)).value) == Prune(Dict(items))
    decreases items, 1
  {
    PlainHash(sha1, Dict(items));
    CleanupOfPreparedItems(sha1, items);
    var p := PrepareItems(sha1, items).value;
    PreparedDict(sha1, items);
    CleanupSnoc(p.items, Item(MT_HASH, Str(Digest(sha1, FeedOf(p.fields)))));
  }

  /** The hash is added last, under a new key. */
  lemma {:induction false} PreparedDict(sha1: Sha1, items: seq<Item>)
    requires Plain(Dict(items)) && PrepareItems(sha1, items).Ok? && NoHashKey(PrepareItems(sha1, items).value.items)
    ensures var p := PrepareItems(sha1, items).value;
            Prepare(sha1, Dict(items)) == Ok(Dict(p.items + [Item(MT_HASH, Str(Digest(sha1, FeedOf(p.fields))))]))
  {
    LookupNone(items, MT_HASH);
    LookupNone(PrepareItems(sha1, items).value.items, MT_HASH);
  }

  lemma {:induction false} CleanupSnoc(items: seq<Item>, last: Item)
    ensures CleanupItems(items + [last]) ==
            if last.key == MT_HASH then CleanupItems(items) else
                CleanupItems(items) + [Item(last.key, Cleanup(last.val))]
  {
    assert (items + [last])[..|items|] == items;
  }

  ghost predicate NoHashKey(items: seq<Item>) {
    forall i | 0 <= i < |items| :: items[i].key != MT_HASH
  }

  lemma {:induction false} CleanupOfPreparedItems(sha1: Sha1, items: seq<Item>)
    requires Plain(Dict(items)) && PrepareItems(sha1, items).Ok?
    ensures NoHashKey(PrepareItems(sha1, items).value.items)
    ensures CleanupItems(PrepareItems(sha1, items).value.items) == PruneItems(items)
    decreases items, 0
  {
    if items != [] {
      var front, last := items[..|items| - 1], items[|items| - 1];
      PlainFront(front, last);
      assert items == front + [last];
      CleanupOfPreparedItems(sha1, front);
      if Live(last) {
        CleanupOfValue(sha1, last.val);
        HashedNotEmpty(sha1, last.val);
        CleanupOfKept(PrepareItems(sha1, front).value, last, PrepareValue(sha1, last.val).value, PruneItems(front));
      }
    }
  }

  lemma {:induction false} PlainFront(front: seq<Item>, last: Item)
    requires Plain(Dict(front + [last]))
    ensures Plain(Dict(front)) && Plain(last.val) && last.key != MT_HASH
    ensures forall i | 0 <= i < |front| :: front[i].key != last.key
  {
    var items := front + [last];
    assert items[|front|] == last && forall i | 0 <= i < |front| :: items[i] == front[i];
  }

  lemma {:induction false} CleanupOfKept(p: PreparedItems, last: Item, q: Prepared, pruned: seq<Item>)
    requires Kept(p, last.key, q).Ok? && !IsEmptyValue(q.hashed) && last.key != MT_HASH
    requires NoHashKey(p.items) && CleanupItems(p.items) == pruned && Cleanup(q.tree) == Prune(last.val)
    ensures NoHashKey(Kept(p, last.key, q).value.items)
    ensures CleanupItems(Kept(p, last.key, q).value.items) == pruned + [Item(last.key, Prune(last.val))]
  {
    KeptItem(p, last.key, q);
    var item := Item(last.key, q.tree);
    CleanupSnoc(p.items, item);
    assert Kept(p, last.key, q).value.items == p.items + [item];
    NoHashKeySnoc(p.items, item);
  }

  lemma {:induction false} NoHashKeySnoc(items: seq<Item>, last: Item)
    requires NoHashKey(items) && last.key != MT_HASH
    ensures NoHashKey(items + [last])
  {
  }

  lemma {:induction false} CleanupOfPreparedList(sha1: Sha1, elems: seq<Value>)
    requires Plain(List(elems)) && PrepareList(sha1, elems).Ok?
    ensures CleanupList(PrepareList(sha1, elems).value.trees) == PruneList(elems)
    decreases elems, 0
  {
    if elems != [] {
      var front, last := elems[..|elems| - 1], elems[|elems| - 1];
      CleanupOfPreparedList(sha1, front);
      CleanupOfValue(sha1, last);
      var l := PrepareList(sha1, front).value.trees;
      var t := Prepare(sha1, last).value;
      assert (l + [t])[..|l|] == l;
    }
  }

  /** Cleaning up a prepared tree gives exactly the pruned tree. */
  lemma {:induction false} CleanupOfPrepare(sha1: Sha1, t: Value)
    requires Plain(t) && Prepare(sha1, t).Ok?
    ensures Cleanup(Prepare(sha1, t).value) == Prune(t)
  {
    CleanupOfValue(sha1, t);
  }

  // ----- preparing the cleaned up tree again -----

  /** No dict kept under a key is pruned down to {}: such a dict is hashed the
      first time, and dropped the second time. */
  ghost predicate NoHollow(v: Value) {
    match v
    case Dict(items) =>
      forall i | 0 <= i < |items| && Live(items[i]) :: !IsEmptyValue(Prune(items[i].val)) && NoHollow(items[i].val)
    case List(elems) => forall i | 0 <= i < |elems| :: NoHollow(elems[i])
    case _ => true
  }

  ghost predicate PrunedFrom(items: seq<Item>, q: Item, i: nat) {
    i < |items| && Live(items[i]) && q == Item(items[i].key, Prune(items[i].val))
  }

  ghost predicate IsPruned(items: seq<Item>, q: Item) {
    exists i: nat :: PrunedFrom(items, q, i)
  }

  lemma {:induction false} PrunedItems(items: seq<Item>)
    requires Plain(Dict(items))
    ensures DistinctKeys(PruneItems(items))
    ensures forall q | q in PruneItems(items) :: IsPruned(items, q)
    ensures forall i | 0 <= i < |items| && Live(items[i]) ::
            Item(items[i].key, Prune(items[i].val)) in PruneItems(items)
  {
    if items != [] {
      var front, last := items[..|items| - 1], items[|items| - 1];
      assert items == front + [last];
      PlainFront(front, last);
      PrunedItems(front);
      PrunedOneMore(front, last, PruneItems(front));
      assert forall i | 0 <= i < |front| :: front[i] == items[i];
    }
  }

  lemma {:induction false} PrunedOneMore(front: seq<Item>, last: Item, pruned: seq<Item>)
    requires DistinctKeys(pruned) && forall q | q in pruned :: IsPruned(front, q)
    requires forall i | 0 <= i < |front| :: front[i].key != last.key
    ensures forall q | q in pruned :: IsPruned(front + [last], q)
    ensures DistinctKeys(pruned + [Item(last.key, Prune(last.val))])
    ensures Live(last) ==> IsPruned(front + [last], Item(last.key, Prune(last.val)))
  {
    var items := front + [last];
    forall q | q in pruned ensures q.key != last.key && IsPruned(items, q) {
      var i: nat :| PrunedFrom(front, q, i);
      assert PrunedFrom(items, q, i);
    }
    if Live(last) {
      assert PrunedFrom(items, Item(last.key, Prune(last.val)), |front|);
    }
  }

  lemma {:induction false} PrunePlain(v: Value)
    requires Plain(v)
    ensures Plain(Prune(v))
  {
    match v
    case Dict(items) =>
      PrunedItems(items);
      var p := PruneItems(items);
      forall j | 0 <= j < |p| ensures p[j].key != MT_HASH && Plain(p[j].val) {
        assert IsPruned(items, p[j]);
        var i: nat :| PrunedFrom(items, p[j], i);
        PrunePlain(items[i].val);
      }
    case List(elems) =>
      forall i | 0 <= i < |elems| ensures Plain(PruneList(elems)[i]) {
        PrunePlain(elems[i]);
      }
    case _ =>
  }

  lemma {:induction false} PruneEquivalent(v: Value)
    requires Plain(v) && NoHollow(v)
    ensures Equivalent(Prune(v), v)
  {
    match v
    case Dict(items) =>
      PrunedItems(items);
      var p := PruneItems(items);
      forall j, i | 0 <= j < |p| && 0 <= i < |items| && p[j].key == items[i].key && Live(p[j]) && Live(items[i])
        ensures Equivalent(p[j].val, items[i].val)
      {
        assert IsPruned(items, p[j]);
        var i': nat :| PrunedFrom(items, p[j], i');
        assert i == i';
        PruneEquivalent(items[i].val);
      }
      forall k ensures k in LiveKeys(p) <==> k in LiveKeys(items) {
        if k in LiveKeys(items) {
          var i := LiveItem(items, k);
          assert Item(k, Prune(items[i].val)) in p;
        }
        if k in LiveKeys(p) {
          var j := LiveItem(p, k);
          assert IsPruned(items, p[j]);
        var i: nat :| PrunedFrom(items, p[j], i);
        }
      }
    case List(elems) =>
      forall i | 0 <= i < |elems| ensures Equivalent(PruneList(elems)[i], elems[i]) {
        PruneEquivalent(elems[i]);
      }
      EquivalentLists(PruneList(elems), elems, elems);
    case _ =>
  }

  /** Without hollow dicts, the cleaned up tree is prepared to the same hash. */
  lemma {:induction false} CleanedUpHash(sha1: Sha1, t: Value)
    requires Plain(t) && t.Dict? && NoHollow(t)
    requires Prepare(sha1, t).Ok?
    ensures RootHash(sha1, Cleanup(Prepare(sha1, t).value)) == RootHash(sha1, t)
  {
    CleanupOfPrepare(sha1, t);
    PrunePlain(t);
    PruneEquivalent(t);
    CanonicalHash(sha1, Prune(t), t);
  }

  lemma {:induction false} PruneItemsShrinks(items: seq<Item>)
    ensures |PruneItems(items)| <= |items|
  {
    if items != [] {
      PruneItemsShrinks(items[..|items| - 1]);
    }
  }

  lemma {:induction false} PruneItemsStable(items: seq<Item>)
    requires Plain(Dict(items))
    ensures PruneItems(PruneItems(items)) == PruneItems(items) <==> NoHollow(Dict(items))
    decreases items, 0
  {
    if items != [] {
      var front, last := items[..|items| - 1], items[|items| - 1];
      assert Plain(Dict(front)) && items == front + [last];
      PruneItemsStable(front);
      assert NoHollow(Dict(items)) <==>
             NoHollow(Dict(front)) && (Live(last) ==> !IsEmptyValue(Prune(last.val)) && NoHollow(last.val))
        by {
          assert forall i | 0 <= i < |front| :: front[i] == items[i];
        }
      if Live(last) {
        PruneStable(last.val);
        var p, q := PruneItems(front), Item(last.key, Prune(last.val));
        assert (p + [q])[..|p|] == p;
        PruneItemsShrinks(p);
        var again := PruneItems(p + [q]);
        if again == p + [q] {
          assert Live(q) && again == PruneItems(p) + [Item(q.key, Prune(q.val))];
          assert again[..|p|] == p && again[|p|] == q;
        }
      }
    }
  }

  lemma {:induction false} PruneListStable(elems: seq<Value>)
    requires Plain(List(elems))
    ensures PruneList(PruneList(elems)) == PruneList(elems) <==> NoHollow(List(elems))
    decreases elems, 0
  {
    forall i | 0 <= i < |elems|
      ensures PruneList(PruneList(elems))[i] == PruneList(elems)[i] <==> NoHollow(elems[i])
    {
      PruneStable(elems[i]);
    }
  }

  /** The cleaned up tree leaves nothing to prune exactly when no dict was hollow. */
  lemma {:induction false} PruneStable(v: Value)
    requires Plain(v)
    ensures Prune(Prune(v)) == Prune(v) <==> NoHollow(v)
    decreases v, 1
  {
    match v
    case Dict(items) => PruneItemsStable(items);
    case List(elems) => PruneListStable(elems);
    case _ =>
  }

  /** A tree with a hollow dict: {"a": {"b": None}}. */
  const HOLLOW := Dict([Item("a", Dict([Item("b", Null)]))])

  lemma {:induction false} DigestOfNothing(sha1: Sha1)
    ensures Digest(sha1, map[]) == sha1("")
  {
    var empty: Feed := map[];
    assert empty.Keys == {};
    assert SortedKeys(empty.Keys) == [];
  }

  lemma {:induction false} DigestOfOne(sha1: Sha1, k: string, chunk: string)
    ensures Digest(sha1, map[k := [chunk]]) == sha1(k + chunk)
  {
    var feed: Feed := map[k := [chunk]];
    assert feed.Keys == {k} && {k} - {k} == {};
    assert SortedKeys({}) == [];
    assert SortedKeys({k}) == [k] by {
      assert Least({k}) == k;
    }
    assert Concat([chunk]) == chunk by {
      assert [chunk][1..] == [];
    }
    assert FedText([k], feed) == k + chunk by {
      assert [k][..0] == [];
    }
  }

  /** Its cleaned up form is {"a": {}}, and gets another hash as soon as SHA-1 tells
      the text fed for it, the empty one, from the text it was first fed. */
  lemma {:induction false} HollowChangesHash(sha1: Sha1)
    requires sha1("a" + sha1("")) != sha1("")
    ensures Plain(HOLLOW) && Prepare(sha1, HOLLOW).Ok? && !NoHollow(HOLLOW)
    ensures Cleanup(Prepare(sha1, HOLLOW).value) == Dict([Item("a", Dict([]))])
    ensures RootHash(sha1, Cleanup(Prepare(sha1, HOLLOW).value)) != RootHash(sha1, HOLLOW)
  {
    OneEmptyItem(sha1, "b", Null);
    OneEmptyItem(sha1, "a", Dict([]));
    HollowPrunes();
    OneItem(sha1, "a", Dict([Item("b", Null)]));
    CleanupOfPrepare(sha1, HOLLOW);
  }

  lemma {:induction false} HollowPrunes()
    ensures Plain(HOLLOW) && !NoHollow(HOLLOW) && Prune(HOLLOW) == Dict([Item("a", Dict([]))])
  {
    var inner := Dict([Item("b", Null)]);
    assert Plain(inner);
    assert Prune(inner) == Dict([]) by {
      assert PruneItems(inner.items[..0]) == [];
    }
    assert PruneItems(HOLLOW.items[..0]) == [];
    assert HOLLOW.items[0] == Item("a", inner) && Live(HOLLOW.items[0]) && IsEmptyValue(Prune(HOLLOW.items[0].val));
  }

  /** A dict with one dict under a key is fed that key and the dict's hash. */
  lemma {:induction false} OneItem(sha1: Sha1, k: string, v: Value)
    requires k != MT_HASH && k != "" && Plain(v) && v.Dict? && v != Dict([]) && Prepare(sha1, v).Ok?
    ensures Plain(Dict([Item(k, v)])) && Prepare(sha1, Dict([Item(k, v)])).Ok?
    ensures RootHash(sha1, Dict([Item(k, v)])) == Ok(Str(sha1(k + HashText(sha1, v))))
  {
    var items := [Item(k, v)];
    var t := Dict(items);
    HashableText(sha1, v);
    assert ItemFits(sha1, items[0]);
    ItemsFeed(sha1, items);
    PlainHash(sha1, t);
    var feed := FeedOf(PrepareItems(sha1, items).value.fields);
    assert LiveKeys(items) == {k} by {
      assert Live(items[0]);
    }
    assert feed == map[k := [HashText(sha1, v)]];
    DigestOfOne(sha1, k, HashText(sha1, v));
  }

  lemma {:induction false} OneEmptyItem(sha1: Sha1, k: string, v: Value)
    requires k != MT_HASH && (v == Null || v == Dict([]))
    ensures Plain(Dict([Item(k, v)]))
    ensures RootHash(sha1, Dict([Item(k, v)])) == Ok(Str(sha1("")))
  {
    var items := [Item(k, v)];
    assert Plain(v);
    assert PrepareItems(sha1, items[..0]) == Ok(PreparedItems([], map[]));
    assert FeedOf(map[]) == map[];
    DigestOfNothing(sha1);
    PlainHash(sha1, Dict(items));
  }
}
