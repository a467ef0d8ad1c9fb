/** When two trees get the same hash: what is fed to SHA-1, said without the hasher, and the
    converse of the hash being canonical. */
module EqualHashes {
  import opened Wrappers
  import opened Sequences
  import opened Strings
  import opened CommitTrees
  import opened CommitTreeLaws
  import Decimal

  // ----- the text that is fed -----

  /** The chunks one after the other. */
  function Joined(chunks: seq<string>): string {
    if chunks == [] then "" else Joined(chunks[..|chunks| - 1]) + chunks[|chunks| - 1]
  }

  /** The fields in the order of their names, each with its name before its chunks. */
  ghost function TextOf(feed: Feed): string {
    if feed.Keys == {} then ""
    else
      var k := Least(feed.Keys);
      k + Joined(feed[k]) + TextOf(feed - {k})
  }

  lemma {:induction false} JoinedIsConcat(chunks: seq<string>)
    ensures Joined(chunks) == Concat(chunks)
  {
    if chunks != [] {
      var front, last := chunks[..|chunks| - 1], chunks[|chunks| - 1];
      assert chunks == front + [last];
      JoinedIsConcat(front);
      ConcatSnoc(front, last);
    }
  }

  /** A first key, before the others. */
  lemma {:induction false} FedFirst(k: string, keys: seq<string>, feed: Feed)
    ensures FedText([k] + keys, feed) == k + (if k in feed then Concat(feed[k]) else "") + FedText(keys, feed)
  {
    var all := [k] + keys;
    if keys == [] {
      assert all == [k] && [k][..0] == [];
    } else {
      var front := keys[..|keys| - 1];
      assert all[..|all| - 1] == [k] + front;
      FedFirst(k, front, feed);
    }
  }

  lemma {:induction false} FedLess(keys: seq<string>, feed: Feed, k: string)
    requires k !in keys
    ensures FedText(keys, feed - {k}) == FedText(keys, feed)
  {
    if keys != [] {
      assert keys[|keys| - 1] in keys;
      FedLess(keys[..|keys| - 1], feed, k);
    }
  }

  lemma {:induction false} TextIsFed(feed: Feed)
    ensures TextOf(feed) == FedText(SortedKeys(feed.Keys), feed)
    decreases |feed.Keys|
  {
    if feed.Keys != {} {
      var k := Least(feed.Keys);
      var rest := feed - {k};
      assert rest.Keys == feed.Keys - {k};
      TextIsFed(rest);
      JoinedIsConcat(feed[k]);
      FedFirst(k, SortedKeys(rest.Keys), feed);
      FedLess(SortedKeys(rest.Keys), feed, k);
    }
  }

  /** The digest is that of the fields in the order of their names, each with its name
      before its chunks. */
  lemma {:induction false} DigestIs(sha1: Sha1, feed: Feed)
    ensures Digest(sha1, feed) == sha1(TextOf(feed))
  {
    TextIsFed(feed);
  }

  // ----- what a value is fed as -----

  /** The text of a scalar: True and False, a number from which the number is read back,
      a string itself, a date in its naive form. */
  ghost predicate Prints(v: Value, text: string) {
    match v
    case Bool(b) => text == if b then "True" else "False"
    case Int(n) => Decimal.Read(text) == Some(n)
    case Str(s) => text == s
    case Date(iso, _) => text == iso
    case _ => false
  }

  lemma {:induction false} FieldPrints(v: Value)
    requires !v.List?
    ensures FieldOf(v).Ok? <==> exists text :: Prints(v, text)
    ensures forall text :: Prints(v, text) <==> FieldOf(v) == Ok(Text(text))
  {
    if v.Int? {
      forall text ensures Prints(v, text) <==> text == Decimal.Str(v.n) {
        Decimal.ReadExactly(v.n, text);
      }
    }
    if FieldOf(v).Ok? {
      assert Prints(v, FieldOf(v).value.s);
    }
  }

  /** What a value is fed as: the hash of a dict, the hashes of a list of dicts in order, the
      text of a scalar. */
  ghost predicate IsFed(sha1: Sha1, v: Value, chunks: seq<string>) {
    match v
    case Dict(_) => chunks == [HashText(sha1, v)]
    case List(elems) => Sorted(chunks) && multiset(chunks) == multiset(HashTexts(sha1, elems))
    case _ => |chunks| == 1 && Prints(v, chunks[0])
  }

  lemma {:induction false} ContributionIs(sha1: Sha1, v: Value, chunks: seq<string>)
    requires Plain(v) && Contribution(sha1, v).Ok?
    ensures IsFed(sha1, v, chunks) <==> Contribution(sha1, v) == Ok(chunks)
  {
    match v
    case Dict(_) => PlainHash(sha1, v);
    case List(elems) =>
      ListContribution(sha1, elems);
      SortCorrect(HashTexts(sha1, elems));
      if IsFed(sha1, v, chunks) {
        SortedUnique(chunks, Sort(HashTexts(sha1, elems)));
      }
    case Null =>
    case Other(_) =>
    case _ =>
      FieldPrints(v);
      if IsFed(sha1, v, chunks) {
        assert chunks == [chunks[0]];
      }
  }

  // ----- trees with the same hash -----

  /** Two values that are fed as the same chunks. */
  ghost predicate FedAlike(sha1: Sha1, a: Value, b: Value) {
    exists chunks :: IsFed(sha1, a, chunks) && IsFed(sha1, b, chunks)
  }

  /** The same live keys at every depth, the same texts of scalars, and the same subtrees
      in lists. A scalar can be the text of a hash, and a list can have one subtree. */
  ghost predicate Resembles(sha1: Sha1, a: Value, b: Value) {
    if a.Dict? && b.Dict? then
      && LiveKeys(a.items) == LiveKeys(b.items)
      && forall i, j | 0 <= i < |a.items| && 0 <= j < |b.items| && a.items[i].key == b.items[j].key &&
          Live(a.items[i]) && Live(b.items[j]) ::
           Resembles(sha1, a.items[i].val, b.items[j].val)
    else if a.List? && b.List? then
      exists y: seq<Value> ::
        && |y| == |a.elems|
        && multiset(y) == multiset(b.elems)
        && forall i | 0 <= i < |a.elems| :: Resembles(sha1, a.elems[i], y[i])
    else FedAlike(sha1, a, b)
  }

  ghost function FeedFor(sha1: Sha1, t: Value): Feed
    requires t.Dict? && PrepareItems(sha1, t.items).Ok?
  {
    FeedOf(PrepareItems(sha1, t.items).value.fields)
  }

  /** SHA-1 tells two dicts apart. */
  ghost predicate Tells(sha1: Sha1, a: Value, b: Value) {
    a.Dict? && b.Dict? && PrepareItems(sha1, a.items).Ok? && PrepareItems(sha1, b.items).Ok? &&
    Digest(sha1, FeedFor(sha1, a)) == Digest(sha1, FeedFor(sha1, b)) ==>
      FeedFor(sha1, a) == FeedFor(sha1, b)
  }

  /** SHA-1 tells apart the dicts in the same places of two trees. */
  ghost predicate TellsAll(sha1: Sha1, a: Value, b: Value) {
    && Tells(sha1, a, b)
    && (a.Dict? && b.Dict? ==>
          forall i, j | 0 <= i < |a.items| && 0 <= j < |b.items| && a.items[i].key == b.items[j].key ::
            TellsAll(sha1, a.items[i].val, b.items[j].val))
    && (a.List? && b.List? ==>
          forall i, j | 0 <= i < |a.elems| && 0 <= j < |b.elems| :: TellsAll(sha1, a.elems[i], b.elems[j]))
  }

  /** What is fed alike is alike. */
  lemma {:induction false} FedTheSame(sha1: Sha1, a: Value, b: Value)
    requires Plain(a) && Plain(b) && TellsAll(sha1, a, b)
    requires Contribution(sha1, a).Ok? && Contribution(sha1, b) == Contribution(sha1, a)
    ensures Resembles(sha1, a, b)
    decreases a, 1
  {
    if a.Dict? && b.Dict? {
      DictsFedTheSame(sha1, a, b);
    } else if a.List? && b.List? {
      ListsFedTheSame(sha1, a.elems, b.elems);
    } else {
      ContributionIs(sha1, a, Contribution(sha1, a).value);
      ContributionIs(sha1, b, Contribution(sha1, a).value);
    }
  }

  lemma {:induction false} DictsFedTheSame(sha1: Sha1, a: Value, b: Value)
    requires Plain(a) && Plain(b) && a.Dict? && b.Dict? && TellsAll(sha1, a, b)
    requires Contribution(sha1, a).Ok? && Contribution(sha1, b) == Contribution(sha1, a)
    ensures Resembles(sha1, a, b)
    decreases a, 0
  {
    PlainHash(sha1, a);
    PlainHash(sha1, b);
    ItemsFeed(sha1, a.items);
    ItemsFeed(sha1, b.items);
    assert Contribution(sha1, a).value[0] == Contribution(sha1, b).value[0];
    var feed := FeedFor(sha1, a);
    assert feed == FeedFor(sha1, b);
    assert feed.Keys == LiveKeys(a.items) == LiveKeys(b.items);
    forall i, j | 0 <= i < |a.items| && 0 <= j < |b.items| && a.items[i].key == b.items[j].key &&
        Live(a.items[i]) && Live(b.items[j])
      ensures Resembles(sha1, a.items[i].val, b.items[j].val)
    {
      assert ItemFits(sha1, a.items[i]) && ItemFits(sha1, b.items[j]);
      assert feed[a.items[i].key] == Contribution(sha1, a.items[i].val).value;
      assert feed[b.items[j].key] == Contribution(sha1, b.items[j].val).value;
      FedTheSame(sha1, a.items[i].val, b.items[j].val);
    }
  }

  lemma {:induction false} ListsFedTheSame(sha1: Sha1, x: seq<Value>, z: seq<Value>)
    requires Plain(List(x)) && Plain(List(z)) && TellsAll(sha1, List(x), List(z))
    requires Contribution(sha1, List(x)).Ok? && Contribution(sha1, List(z)) == Contribution(sha1, List(x))
    ensures Resembles(sha1, List(x), List(z))
    decreases x, 0
  {
    ListContribution(sha1, x);
    ListContribution(sha1, z);
    SortCorrect(HashTexts(sha1, x));
    SortCorrect(HashTexts(sha1, z));
    var y := PermuteTo((t: Value) => HashText(sha1, t), HashTexts(sha1, x), z);
    forall i | 0 <= i < |x| ensures Resembles(sha1, x[i], y[i]) {
      assert y[i] in multiset(z);
      var j :| 0 <= j < |z| && z[j] == y[i];
      assert Hashable(sha1, x[i]) && Hashable(sha1, z[j]);
      HashableText(sha1, x[i]);
      HashableText(sha1, z[j]);
      FedTheSame(sha1, x[i], z[j]);
    }
    ListsResemble(sha1, x, y, z);
  }

  lemma {:induction false} ListsResemble(sha1: Sha1, x: seq<Value>, y: seq<Value>, z: seq<Value>)
    requires |y| == |x| && multiset(y) == multiset(z) && forall i | 0 <= i < |x| :: Resembles(sha1, x[i], y[i])
    ensures Resembles(sha1, List(x), List(z))
  {
  }

  /** What is alike is fed alike. */
  lemma {:induction false} ResemblingFed(sha1: Sha1, a: Value, b: Value)
    requires Plain(a) && Plain(b) && Resembles(sha1, a, b)
    requires Contribution(sha1, a).Ok? && Contribution(sha1, b).Ok?
    ensures Contribution(sha1, b) == Contribution(sha1, a)
    decreases a, 1
  {
    if a.Dict? && b.Dict? {
      ResemblingDicts(sha1, a, b);
    } else if a.List? && b.List? {
      ResemblingLists(sha1, a.elems, b.elems);
    } else {
      var chunks :| IsFed(sha1, a, chunks) && IsFed(sha1, b, chunks);
      ContributionIs(sha1, a, chunks);
      ContributionIs(sha1, b, chunks);
    }
  }

  lemma {:induction false} ResemblingDicts(sha1: Sha1, a: Value, b: Value)
    requires Plain(a) && Plain(b) && a.Dict? && b.Dict? && Resembles(sha1, a, b)
    requires Contribution(sha1, a).Ok? && Contribution(sha1, b).Ok?
    ensures Contribution(sha1, b) == Contribution(sha1, a)
    decreases a, 0
  {
    PlainHash(sha1, a);
    PlainHash(sha1, b);
    ItemsFeed(sha1, a.items);
    ItemsFeed(sha1, b.items);
    forall i, j | 0 <= i < |a.items| && 0 <= j < |b.items| && a.items[i].key == b.items[j].key &&
        Live(a.items[i]) && Live(b.items[j])
      ensures Agree(Contribution(sha1, a.items[i].val), Contribution(sha1, b.items[j].val))
    {
      assert ItemFits(sha1, a.items[i]) && ItemFits(sha1, b.items[j]);
      ResemblingFed(sha1, a.items[i].val, b.items[j].val);
    }
    SameContributionsFeed(sha1, a.items, b.items);
  }

  lemma {:induction false} ResemblingLists(sha1: Sha1, x: seq<Value>, z: seq<Value>)
    requires Plain(List(x)) && Plain(List(z)) && Resembles(sha1, List(x), List(z))
    requires Contribution(sha1, List(x)).Ok? && Contribution(sha1, List(z)).Ok?
    ensures Contribution(sha1, List(z)) == Contribution(sha1, List(x))
    decreases x, 0
  {
    var y: seq<Value> :| |y| == |x| && multiset(y) == multiset(z) &&
      forall i | 0 <= i < |x| :: Resembles(sha1, x[i], y[i]);
    ListContribution(sha1, x);
    ListContribution(sha1, z);
    forall i | 0 <= i < |x| ensures HashText(sha1, x[i]) == HashText(sha1, y[i]) {
      assert Hashable(sha1, x[i]) && y[i] in multiset(z);
      var j :| 0 <= j < |z| && z[j] == y[i];
      assert Hashable(sha1, z[j]);
      HashableText(sha1, x[i]);
      HashableText(sha1, y[i]);
      ResemblingFed(sha1, x[i], y[i]);
    }
    SameTexts(sha1, x, y, z);
  }

  lemma {:induction false} SameTexts(sha1: Sha1, x: seq<Value>, y: seq<Value>, z: seq<Value>)
    requires |y| == |x| && multiset(y) == multiset(z)
    requires forall i | 0 <= i < |x| :: HashText(sha1, x[i]) == HashText(sha1, y[i])
    ensures Sort(HashTexts(sha1, x)) == Sort(HashTexts(sha1, z))
  {
    assert HashTexts(sha1, x) == HashTexts(sha1, y);
    MapPermuted((t: Value) => HashText(sha1, t), y, z);
    SortCanonical(HashTexts(sha1, y), HashTexts(sha1, z));
  }

  /** Two trees get the same hash exactly if they have the same live keys, texts and
      subtrees at every depth, provided SHA-1 tells apart the dicts in the same places. */
  lemma {:induction false} SameHashExactly(sha1: Sha1, a: Value, b: Value)
    requires Plain(a) && Plain(b) && a.Dict? && b.Dict? && Prepare(sha1, a).Ok? && Prepare(sha1, b).Ok?
    requires TellsAll(sha1, a, b)
    ensures RootHash(sha1, a) == RootHash(sha1, b) <==> Resembles(sha1, a, b)
  {
    PlainHash(sha1, a);
    PlainHash(sha1, b);
    if Resembles(sha1, a, b) {
      ResemblingFed(sha1, a, b);
      assert Contribution(sha1, a).value[0] == Contribution(sha1, b).value[0];
    }
    if RootHash(sha1, a) == RootHash(sha1, b) {
      FedTheSame(sha1, a, b);
    }
  }

  /** One field with another number is another tree, which the hash shows. */
  lemma {:induction false} NumberShows(sha1: Sha1, k: string, m: int, n: int)
    requires k != "" && k != MT_HASH && m != n
    requires TellsAll(sha1, Dict([Item(k, Int(m))]), Dict([Item(k, Int(n))]))
    ensures RootHash(sha1, Dict([Item(k, Int(m))])) != RootHash(sha1, Dict([Item(k, Int(n))]))
  {
    var a, b := Dict([Item(k, Int(m))]), Dict([Item(k, Int(n))]);
    ScalarPrepared(sha1, k, m);
    ScalarPrepared(sha1, k, n);
    SameHashExactly(sha1, a, b);
    if Resembles(sha1, a, b) {
      ResemblingNumbers(sha1, k, m, n);
    }
  }

  lemma {:induction false} ResemblingNumbers(sha1: Sha1, k: string, m: int, n: int)
    requires Resembles(sha1, Dict([Item(k, Int(m))]), Dict([Item(k, Int(n))]))
    ensures m == n
  {
    var x, y := [Item(k, Int(m))], [Item(k, Int(n))];
    assert Live(x[0]) && Live(y[0]);
    assert Resembles(sha1, x[0].val, y[0].val);
    var chunks :| IsFed(sha1, Int(m), chunks) && IsFed(sha1, Int(n), chunks);
  }

  lemma {:induction false} ScalarPrepared(sha1: Sha1, k: string, n: int)
    requires k != "" && k != MT_HASH
    ensures Plain(Dict([Item(k, Int(n))])) && Prepare(sha1, Dict([Item(k, Int(n))])).Ok?
  {
    var items := [Item(k, Int(n))];
    assert ItemFits(sha1, items[0]);
    ItemsFeed(sha1, items);
    PlainHash(sha1, Dict(items));
  }
}
