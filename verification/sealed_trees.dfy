/** Prepared trees: every dict carries the hash of its own items, so that what a
    dict feeds to SHA-1 can be read off the hashes stored one level below. */
module SealedTrees {
  import opened Wrappers
  import opened Sequences
  import opened Strings
  import opened CommitTrees
  import opened CommitTreeLaws

  /** `v['mt_hash']` */
  function HashTextIn(v: Value): string {
    if v.Dict? then
      var h := Lookup(v.items, MT_HASH);
      if h.Some? && h.value.Str? then h.value.s else ""
    else ""
  }

  /** The chunks a prepared, non-empty value was hashed with. */
  ghost function PreparedChunks(v: Value): seq<string> {
    match v
    case Dict(_) => [HashTextIn(v)]
    case List(elems) => Sort(Map(HashTextIn, elems))
    case _ => if FieldOf(v).Ok? then Chunks(FieldOf(v).value) else []
  }

  /** What the items of a prepared dict feed to SHA-1. */
  ghost function DataFeed(items: seq<Item>): Feed {
    if items == [] then map[]
    else
      var front, last := DataFeed(items[..|items| - 1]), items[|items| - 1];
      if last.key == MT_HASH then front else front[last.key := PreparedChunks(last.val)]
  }

  /** A value prepared without error from a plain one. */
  ghost predicate Sealed(sha1: Sha1, v: Value) {
    match v
    case Dict(items) =>
      && DistinctKeys(items)
      && HashTextIn(v) == Digest(sha1, DataFeed(items))
      && forall i | 0 <= i < |items| && items[i].key != MT_HASH :: Live(items[i]) && Sealed(sha1, items[i].val)
    case List(elems) =>
      && (forall i | 0 <= i < |elems| :: elems[i].Dict? && Sealed(sha1, elems[i]))
      && NoDuplicates(Map(HashTextIn, elems))
    case _ => FieldOf(v).Ok?
  }

  // ----- preparing a plain tree seals it -----

  lemma {:induction false} PrepareSeals(sha1: Sha1, v: Value)
    requires Plain(v) && !IsEmptyValue(v) && Contribution(sha1, v).Ok?
    ensures Sealed(sha1, PrepareValue(sha1, v).value.tree)
    ensures !IsEmptyValue(PrepareValue(sha1, v).value.tree)
    ensures PreparedChunks(PrepareValue(sha1, v).value.tree) == Contribution(sha1, v).value
    decreases v, 3
  {
    if v.Dict? {
      PrepareDictValueSeals(sha1, v);
    } else if v.List? {
      PrepareListValueSeals(sha1, v.elems);
    } else {
      ScalarSeals(sha1, v);
    }
  }

  lemma {:induction false} PrepareDictValueSeals(sha1: Sha1, v: Value)
    requires Plain(v) && v.Dict? && Contribution(sha1, v).Ok?
    ensures PrepareValue(sha1, v).Ok? && PrepareValue(sha1, v).value.tree.Dict?
    ensures Sealed(sha1, PrepareValue(sha1, v).value.tree)
    ensures !IsEmptyValue(PrepareValue(sha1, v).value.tree)
    ensures PreparedChunks(PrepareValue(sha1, v).value.tree) == Contribution(sha1, v).value
    decreases v, 2
  {
    PlainHash(sha1, v);
    PrepareDictSeals(sha1, v.items);
  }

  lemma {:induction false} PrepareListValueSeals(sha1: Sha1, elems: seq<Value>)
    requires Plain(List(elems)) && elems != [] && Contribution(sha1, List(elems)).Ok?
    ensures var t := PrepareValue(sha1, List(elems)).value.tree;
            Sealed(sha1, t) && !IsEmptyValue(t) && PreparedChunks(t) == Contribution(sha1, List(elems)).value
    decreases elems, 1
  {
    ListContribution(sha1, elems);
    PrepareListSeals(sha1, elems);
    PrepareListLength(sha1, elems);
    SealList(sha1, PrepareList(sha1, elems).value.trees);
    assert PrepareValue(sha1, List(elems)).value.tree == List(PrepareList(sha1, elems).value.trees);
  }

  lemma {:induction false} SealList(sha1: Sha1, trees: seq<Value>)
    requires AllSealed(sha1, trees) && NoDuplicates(Map(HashTextIn, trees))
    ensures Sealed(sha1, List(trees))
  {
  }

  lemma {:induction false} ScalarSeals(sha1: Sha1, v: Value)
    requires !v.Dict? && !v.List? && v != Null && Contribution(sha1, v).Ok?
    ensures var t := PrepareValue(sha1, v).value.tree;
            Sealed(sha1, t) && !IsEmptyValue(t) && PreparedChunks(t) == Contribution(sha1, v).value
  {
  }

  lemma {:induction false} PrepareDictSeals(sha1: Sha1, items: seq<Item>)
    requires Plain(Dict(items)) && Prepare(sha1, Dict(items)).Ok?
    ensures Sealed(sha1, Prepare(sha1, Dict(items)).value)
    ensures RootHash(sha1, Dict(items)) == Ok(Str(HashTextIn(Prepare(sha1, Dict(items)).value)))
    decreases items, 1
  {
    PlainHash(sha1, Dict(items));
    PrepareItemsSeal(sha1, items);
    var p := PrepareItems(sha1, items).value;
    SealDict(sha1, p.items);
    LookupNone(items, MT_HASH);
    LookupNone(p.items, MT_HASH);
  }

  lemma {:induction false} SealDict(sha1: Sha1, items: seq<Item>)
    requires SealedItems(sha1, items)
    ensures Sealed(sha1, Dict(items + [Item(MT_HASH, Str(Digest(sha1, DataFeed(items))))]))
    ensures HashTextIn(Dict(items + [Item(MT_HASH, Str(Digest(sha1, DataFeed(items))))])) ==
            Digest(sha1, DataFeed(items))
  {
    var hash := Digest(sha1, DataFeed(items));
    WithHash(items, hash);
    SealedWithHash(sha1, items, hash);
  }

  lemma {:induction false} WithHash(items: seq<Item>, hash: Hex)
    requires forall i | 0 <= i < |items| :: items[i].key != MT_HASH
    ensures HashTextIn(Dict(items + [Item(MT_HASH, Str(hash))])) == hash
    ensures DataFeed(items + [Item(MT_HASH, Str(hash))]) == DataFeed(items)
  {
    LookupNone(items, MT_HASH);
    LookupPut(items, MT_HASH, Str(hash));
    assert (items + [Item(MT_HASH, Str(hash))])[..|items|] == items;
  }

  lemma {:induction false} SealedWithHash(sha1: Sha1, items: seq<Item>, hash: Hex)
    requires SealedItems(sha1, items)
    requires HashTextIn(Dict(items + [Item(MT_HASH, Str(hash))])) == hash
    requires Digest(sha1, DataFeed(items + [Item(MT_HASH, Str(hash))])) == hash
    ensures Sealed(sha1, Dict(items + [Item(MT_HASH, Str(hash))]))
  {
    var all := items + [Item(MT_HASH, Str(hash))];
    assert forall i | 0 <= i < |items| :: all[i] == items[i];
  }

  ghost predicate SealedItems(sha1: Sha1, items: seq<Item>) {
    && DistinctKeys(items)
    && forall i | 0 <= i < |items| :: items[i].key != MT_HASH && Live(items[i]) && Sealed(sha1, items[i].val)
  }

  ghost function KeySet(items: seq<Item>): (r: set<string>)
    ensures forall i | 0 <= i < |items| :: items[i].key in r
  {
    if items == [] then {} else KeySet(items[..|items| - 1]) + {items[|items| - 1].key}
  }

  lemma {:induction false} PrepareItemsSeal(sha1: Sha1, items: seq<Item>)
    requires Plain(Dict(items)) && PrepareItems(sha1, items).Ok?
    ensures SealedItems(sha1, PrepareItems(sha1, items).value.items)
    ensures FeedOf(PrepareItems(sha1, items).value.fields) == DataFeed(PrepareItems(sha1, items).value.items)
    ensures PrepareItems(sha1, items).value.fields.Keys == KeySet(PrepareItems(sha1, items).value.items)
    decreases items, 0
  {
    if items != [] {
      var front, last := items[..|items| - 1], items[|items| - 1];
      assert Plain(Dict(front));
      PrepareItemsSeal(sha1, front);
      if Live(last) {
        ItemsFeed(sha1, items);
        assert ItemFits(sha1, last);
        PrepareSeals(sha1, last.val);
        HashedNotEmpty(sha1, last.val);
        var p, q := PrepareItems(sha1, front).value, PrepareValue(sha1, last.val).value;
        KeptItem(p, last.key, q);
        SealOneMore(sha1, p, last.key, q.tree, FieldOf(q.hashed).value);
      }
    }
  }

  lemma {:induction false} SealOneMore(sha1: Sha1, p: PreparedItems, key: string, tree: Value, f: Field)
    requires SealedItems(sha1, p.items) && FeedOf(p.fields) == DataFeed(p.items) && p.fields.Keys == KeySet(p.items)
    requires key != MT_HASH && key !in p.fields
    requires Sealed(sha1, tree) && !IsEmptyValue(tree) && Chunks(f) == PreparedChunks(tree)
    ensures SealedItems(sha1, p.items + [Item(key, tree)])
    ensures FeedOf(p.fields[key := f]) == DataFeed(p.items + [Item(key, tree)])
    ensures p.fields[key := f].Keys == KeySet(p.items + [Item(key, tree)])
  {
    FeedOfUpdate(p.fields, key, f);
    SealedItemsSnoc(sha1, p.items, Item(key, tree));
  }

  lemma {:induction false} SealedItemsSnoc(sha1: Sha1, items: seq<Item>, last: Item)
    requires SealedItems(sha1, items) && last.key !in KeySet(items)
    requires last.key != MT_HASH && Live(last) && Sealed(sha1, last.val)
    ensures SealedItems(sha1, items + [last])
    ensures DataFeed(items + [last]) == DataFeed(items)[last.key := PreparedChunks(last.val)]
    ensures KeySet(items + [last]) == KeySet(items) + {last.key}
  {
    var all := items + [last];
    assert all[..|items|] == items;
    assert forall i | 0 <= i < |items| :: all[i] == items[i] && items[i].key in KeySet(items);
  }

  ghost predicate AllSealed(sha1: Sha1, elems: seq<Value>) {
    forall i | 0 <= i < |elems| :: elems[i].Dict? && Sealed(sha1, elems[i])
  }

  lemma {:induction false} AllSealedSnoc(sha1: Sha1, front: seq<Value>, last: Value)
    requires AllSealed(sha1, front) && last.Dict? && Sealed(sha1, last)
    ensures AllSealed(sha1, front + [last])
    ensures Map(HashTextIn, front + [last]) == Map(HashTextIn, front) + [HashTextIn(last)]
  {
    assert (front + [last])[..|front|] == front;
  }

  lemma {:induction false} PrepareListSeals(sha1: Sha1, elems: seq<Value>)
    requires Plain(List(elems)) && PrepareList(sha1, elems).Ok?
    ensures AllSealed(sha1, PrepareList(sha1, elems).value.trees)
    ensures Map(HashTextIn, PrepareList(sha1, elems).value.trees) == HashTexts(sha1, elems)
    decreases elems, 0
  {
    if elems != [] {
      var front, last := elems[..|elems| - 1], elems[|elems| - 1];
      assert elems == front + [last];
      PrepareListSeals(sha1, front);
      PrepareDictSeals(sha1, last.items);
      ListSealsSnoc(sha1, front, last);
    }
  }

  lemma {:induction false} ListSealsSnoc(sha1: Sha1, front: seq<Value>, last: Value)
    requires PrepareList(sha1, front).Ok? && AllSealed(sha1, PrepareList(sha1, front).value.trees)
    requires Map(HashTextIn, PrepareList(sha1, front).value.trees) == HashTexts(sha1, front)
    requires Prepare(sha1, last).Ok? && Sealed(sha1, Prepare(sha1, last).value)
    requires RootHash(sha1, last) == Ok(Str(HashTextIn(Prepare(sha1, last).value)))
    requires PrepareList(sha1, front + [last]).Ok?
    ensures AllSealed(sha1, PrepareList(sha1, front + [last]).value.trees)
    ensures Map(HashTextIn, PrepareList(sha1, front + [last]).value.trees) == HashTexts(sha1, front + [last])
  {
    var l, t := PrepareList(sha1, front).value.trees, Prepare(sha1, last).value;
    assert (front + [last])[..|front|] == front;
    assert PrepareList(sha1, front + [last]).value.trees == l + [t];
    AllSealedSnoc(sha1, l, t);
    HashTextsSnoc(sha1, front, last, t);
  }

  lemma {:induction false} HashTextsSnoc(sha1: Sha1, front: seq<Value>, last: Value, t: Value)
    requires RootHash(sha1, last) == Ok(Str(HashTextIn(t)))
    ensures HashTexts(sha1, front + [last]) == HashTexts(sha1, front) + [HashTextIn(t)]
  {
  }
}
