/** Trees with a dict that prunes to {}: exactly those are not equivalent to their cleaned
    up form, because a live key is lost. Counting the live keys at every depth shows it. */
module HollowTrees {
  import opened Sequences
  import opened CommitTrees
  import opened CommitTreeLaws

  /** The number of live keys at every depth. */
  function Size(v: Value): nat
    decreases v, 1
  {
    match v
    case Dict(items) => SizeOfItems(items)
    case List(elems) => SizeOfList(elems)
    case _ => 0
  }

  function SizeOfItems(items: seq<Item>): nat
    decreases items, 0
  {
    if items == [] then 0
    else
      var last := items[|items| - 1];
      SizeOfItems(items[..|items| - 1]) + if Live(last) then 1 + Size(last.val) else 0
  }

  function SizeOfList(elems: seq<Value>): nat
    decreases elems, 0
  {
    if elems == [] then 0 else SizeOfList(elems[..|elems| - 1]) + Size(elems[|elems| - 1])
  }

  function ItemSize(item: Item): nat {
    if Live(item) then 1 + Size(item.val) else 0
  }

  lemma {:induction false} SizeSnoc(front: seq<Item>, last: Item)
    ensures SizeOfItems(front + [last]) == SizeOfItems(front) + ItemSize(last)
  {
    assert (front + [last])[..|front|] == front;
  }

  lemma {:induction false} ListSizeSnoc(front: seq<Value>, last: Value)
    ensures SizeOfList(front + [last]) == SizeOfList(front) + Size(last)
  {
    assert (front + [last])[..|front|] == front;
  }

  // ----- pruning never adds keys -----

  lemma {:induction false} PruneShrinks(v: Value)
    requires Plain(v)
    ensures Size(Prune(v)) <= Size(v)
    ensures Size(Prune(v)) == Size(v) ==> NoHollow(v)
    decreases v, 1
  {
    match v
    case Dict(items) => PruneItemsShrinkSize(items);
    case List(elems) => PruneListShrinks(elems);
    case _ =>
  }

  lemma {:induction false} PruneItemsShrinkSize(items: seq<Item>)
    requires Plain(Dict(items))
    ensures SizeOfItems(PruneItems(items)) <= SizeOfItems(items)
    ensures SizeOfItems(PruneItems(items)) == SizeOfItems(items) ==> NoHollow(Dict(items))
    decreases items, 0
  {
    if items != [] {
      var front, last := items[..|items| - 1], items[|items| - 1];
      assert items == front + [last];
      PlainFront(front, last);
      PruneItemsShrinkSize(front);
      NoHollowSnoc(front, last);
      if Live(last) {
        PruneShrinks(last.val);
        SizeSnoc(PruneItems(front), Item(last.key, Prune(last.val)));
      }
    }
  }

  lemma {:induction false} NoHollowSnoc(front: seq<Item>, last: Item)
    ensures NoHollow(Dict(front + [last])) <==>
            NoHollow(Dict(front)) && (Live(last) ==> !IsEmptyValue(Prune(last.val)) && NoHollow(last.val))
  {
    var items := front + [last];
    assert items[|front|] == last && forall i | 0 <= i < |front| :: items[i] == front[i];
  }

  lemma {:induction false} PruneListShrinks(elems: seq<Value>)
    requires Plain(List(elems))
    ensures SizeOfList(PruneList(elems)) <= SizeOfList(elems)
    ensures SizeOfList(PruneList(elems)) == SizeOfList(elems) ==> NoHollow(List(elems))
    decreases elems, 0
  {
    if elems != [] {
      var front, last := elems[..|elems| - 1], elems[|elems| - 1];
      assert elems == front + [last];
      PruneListShrinks(front);
      PruneShrinks(last);
      ListSizeSnoc(PruneList(front), Prune(last));
    }
  }

  // ----- equivalent trees have as many keys -----

  lemma {:induction false} SizeSplit(l: seq<Item>, x: Item, r: seq<Item>)
    ensures SizeOfItems(l + [x] + r) == SizeOfItems(l + r) + ItemSize(x)
  {
    if r == [] {
      assert l + [x] + r == l + [x] && l + r == l;
      SizeSnoc(l, x);
    } else {
      var front, last := r[..|r| - 1], r[|r| - 1];
      assert l + [x] + r == (l + [x] + front) + [last] && l + r == (l + front) + [last];
      SizeSplit(l, x, front);
      SizeSnoc(l + [x] + front, last);
      SizeSnoc(l + front, last);
    }
  }

  /** Dicts with the same live keys, of the same sizes. */
  ghost predicate SameSizes(x: seq<Item>, y: seq<Item>) {
    && LiveKeys(x) == LiveKeys(y)
    && forall i, j | 0 <= i < |x| && 0 <= j < |y| && x[i].key == y[j].key && Live(x[i]) && Live(y[j]) ::
         Size(x[i].val) == Size(y[j].val)
  }

  /** A live item of one dict, taken out of the other. */
  lemma {:induction false} TakeOut(front: seq<Item>, last: Item, y: seq<Item>)
    returns (l: seq<Item>, r: seq<Item>, m: Item)
    requires DistinctKeys(front + [last]) && DistinctKeys(y) && Live(last) && SameSizes(front + [last], y)
    ensures y == l + [m] + r && ItemSize(m) == ItemSize(last)
    ensures DistinctKeys(l + r) && SameSizes(front, l + r)
  {
    var x := front + [last];
    LiveKeysSnoc(front, last);
    assert last.key in LiveKeys(x);
    var j := LiveItem(y, last.key);
    l, m, r := y[..j], y[j], y[j + 1..];
    assert y == l + [m] + r;
    assert x[|front|] == last;
    WithoutOne(front, last, y, j);
  }

  lemma {:induction false} WithoutOne(front: seq<Item>, last: Item, y: seq<Item>, j: nat)
    requires DistinctKeys(front + [last]) && DistinctKeys(y) && SameSizes(front + [last], y)
    requires j < |y| && y[j].key == last.key && Live(last) && Live(y[j])
    ensures DistinctKeys(y[..j] + y[j + 1..]) && SameSizes(front, y[..j] + y[j + 1..])
  {
    var x, rest := front + [last], y[..j] + y[j + 1..];
    assert forall i | 0 <= i < |front| :: x[i] == front[i];
    assert forall k | 0 <= k < |rest| :: rest[k] == y[if k < j then k else k + 1];
    LiveKeysSnoc(front, last);
    forall k ensures k in LiveKeys(rest) <==> k in LiveKeys(y) && k != last.key {
      if k in LiveKeys(y) && k != last.key {
        var i := LiveItem(y, k);
        assert rest[if i < j then i else i - 1] == y[i];
      }
    }
  }

  lemma {:induction false} SameSizesSize(x: seq<Item>, y: seq<Item>)
    requires DistinctKeys(x) && DistinctKeys(y) && SameSizes(x, y)
    ensures SizeOfItems(x) == SizeOfItems(y)
    decreases |x| + |y|
  {
    if x == [] {
      NothingLive(y);
    } else {
      var front, last := x[..|x| - 1], x[|x| - 1];
      assert x == front + [last];
      SizeSnoc(front, last);
      if Live(last) {
        var l, r, m := TakeOut(front, last, y);
        SizeSplit(l, m, r);
        SameSizesSize(front, l + r);
      } else {
        LiveKeysSnoc(front, last);
        assert forall i | 0 <= i < |front| :: x[i] == front[i];
        SameSizesSize(front, y);
      }
    }
  }

  lemma {:induction false} NothingLive(y: seq<Item>)
    requires LiveKeys(y) == {}
    ensures SizeOfItems(y) == 0
  {
    if y != [] {
      var front, last := y[..|y| - 1], y[|y| - 1];
      assert y == front + [last];
      NotLive(y, |front|);
      forall i | 0 <= i < |front| ensures !Live(front[i]) {
        NotLive(y, i);
      }
      NothingLive(front);
    }
  }

  lemma {:induction false} NotLive(items: seq<Item>, i: nat)
    requires LiveKeys(items) == {} && i < |items|
    ensures !Live(items[i])
  {
    if Live(items[i]) {
      KeyIsLive(items, i);
    }
  }

  lemma {:induction false} KeyIsLive(items: seq<Item>, i: nat)
    requires i < |items| && Live(items[i])
    ensures items[i].key in LiveKeys(items)
  {
  }

  lemma {:induction false} ListSizeSplit(l: seq<Value>, x: Value, r: seq<Value>)
    ensures SizeOfList(l + [x] + r) == SizeOfList(l + r) + Size(x)
  {
    if r == [] {
      assert l + [x] + r == l + [x] && l + r == l;
      ListSizeSnoc(l, x);
    } else {
      var front, last := r[..|r| - 1], r[|r| - 1];
      assert l + [x] + r == (l + [x] + front) + [last] && l + r == (l + front) + [last];
      ListSizeSplit(l, x, front);
      ListSizeSnoc(l + [x] + front, last);
      ListSizeSnoc(l + front, last);
    }
  }

  lemma {:induction false} PermutedSize(x: seq<Value>, y: seq<Value>)
    requires multiset(x) == multiset(y)
    ensures SizeOfList(x) == SizeOfList(y)
  {
    if x == [] {
      assert |multiset(y)| == |y| == 0;
    } else {
      var l, r := MatchHead(x, y);
      PermutedSize(x[1..], l + r);
      ListSizeSplit(l, x[0], r);
      ListSizeSplit([], x[0], x[1..]);
      assert x == [] + [x[0]] + x[1..] && [] + x[1..] == x[1..];
    }
  }

  lemma {:induction false} PointwiseSize(x: seq<Value>, y: seq<Value>)
    requires |x| == |y| && forall i | 0 <= i < |x| :: Size(x[i]) == Size(y[i])
    ensures SizeOfList(x) == SizeOfList(y)
  {
    if x != [] {
      PointwiseSize(x[..|x| - 1], y[..|y| - 1]);
    }
  }

  lemma {:induction false} EquivalentSize(a: Value, b: Value)
    requires Plain(a) && Plain(b) && Equivalent(a, b)
    ensures Size(a) == Size(b)
    decreases a
  {
    match a
    case Dict(x) =>
      forall i, j | 0 <= i < |x| && 0 <= j < |b.items| && x[i].key == b.items[j].key && Live(x[i]) && Live(b.items[j])
        ensures Size(x[i].val) == Size(b.items[j].val)
      {
        EquivalentSize(x[i].val, b.items[j].val);
      }
      SameSizesSize(x, b.items);
    case List(x) =>
      EquivalentListSize(x, b.elems);
    case _ =>
  }

  lemma {:induction false} EquivalentListSize(x: seq<Value>, z: seq<Value>)
    requires Plain(List(x)) && Plain(List(z)) && Equivalent(List(x), List(z))
    ensures SizeOfList(x) == SizeOfList(z)
    decreases x, 0
  {
    var y: seq<Value> :| |y| == |x| && multiset(y) == multiset(z) && forall i | 0 <= i < |x| :: Equivalent(x[i], y[i]);
    forall i | 0 <= i < |x| ensures Size(x[i]) == Size(y[i]) {
      assert y[i] in multiset(z);
      EquivalentSize(x[i], y[i]);
    }
    PointwiseSize(x, y);
    PermutedSize(y, z);
  }

  // ----- exactly the trees with hollow dicts -----

  /** The cleaned up tree is equivalent to the tree exactly when no dict in it pruned to {}. */
  lemma {:induction false} PruneEquivalentExactly(v: Value)
    requires Plain(v)
    ensures Equivalent(Prune(v), v) <==> NoHollow(v)
  {
    if NoHollow(v) {
      PruneEquivalent(v);
    }
    if Equivalent(Prune(v), v) {
      PrunePlain(v);
      EquivalentSize(Prune(v), v);
      PruneShrinks(v);
    }
  }

  /** SHA-1 tells a tree from its cleaned up form when they are not equivalent. */
  ghost predicate TellsPruned(sha1: Sha1, t: Value) {
    !Equivalent(Prune(t), t) ==> RootHash(sha1, Prune(t)) != RootHash(sha1, t)
  }

  /** The cleaned up tree is prepared to the same hash exactly when no dict in it
      pruned to {}. */
  lemma {:induction false} CleanedUpHashExactly(sha1: Sha1, t: Value)
    requires Plain(t) && t.Dict? && Prepare(sha1, t).Ok? && TellsPruned(sha1, t)
    ensures RootHash(sha1, Cleanup(Prepare(sha1, t).value)) == RootHash(sha1, t) <==> NoHollow(t)
  {
    CleanupOfPrepare(sha1, t);
    PruneEquivalentExactly(t);
    if NoHollow(t) {
      CleanedUpHash(sha1, t);
    }
  }
}
