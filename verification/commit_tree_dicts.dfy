/** `prepare_commit_tree` and `cleanup_commit_tree` as they run: loops that pop and
    set the keys of a dict in place. A nested dict is worked on as an object of its
    own and then stored back under its key. */
module CommitTreeDicts {
  import opened Wrappers
  import opened Sequences
  import opened CommitTrees
  import opened CommitTreeLaws

  class TreeDict {
    var items: seq<Item>

    constructor (items: seq<Item>)
      ensures this.items == items
    {
      this.items := items;
    }

    method PrepareCommitTree(sha1: Sha1) returns (r: Result<(), TreeError>)
      modifies this
      ensures match Prepare(sha1, Dict(old(items)))
              case Ok(t) => r == Ok(()) && Dict(items) == t
              case Err(e) => r == Err(e)
      decreases Dict(items), 1
    {
      if IsPrepared(items) {
        return Ok(());
      }
      var h := new Hasher();
      r := PrepareEachItem(sha1, h);
      if r.Ok? {
        var hash := h.HexDigest(sha1);
        items := Put(items, MT_HASH, Str(hash));
      }
    }

    /** The loop over `list(tree.items())`. */
    method PrepareEachItem(sha1: Sha1, h: Hasher) returns (r: Result<(), TreeError>)
      requires h.fields == map[]
      modifies this, h
      ensures match PrepareItems(sha1, old(items))
              case Ok(p) => r == Ok(()) && items == p.items && h.fields == p.fields
              case Err(e) => r == Err(e)
      decreases Dict(items), 0
    {
      var snapshot := items;
      ghost var kept := PreparedItems([], map[]);
      for i := 0 to |snapshot|
        invariant PrepareItems(sha1, snapshot[..i]) == Ok(kept)
        invariant items == kept.items + snapshot[i..]
        invariant h.fields == kept.fields
      {
        var item := snapshot[i];
        var at := |items| - (|snapshot| - i);
        PrepareItemsNext(sha1, snapshot, i, kept);
        if IsEmptyValue(item.val) {
          DropNext(kept.items, snapshot, i);
          items := items[..at] + items[at + 1..];
        } else {
          var done := KeepItem(sha1, h, at, item);
          if done.Err? {
            PrepareItemsFails(sha1, snapshot, i + 1);
            return Err(done.error);
          }
          SetNext(kept.items, snapshot, i, Item(item.key, done.value.tree));
          kept := Kept(kept, item.key, done.value).value;
        }
      }
      assert snapshot[..|snapshot|] == snapshot && items == kept.items;
      r := Ok(());
    }

    /** A non-empty item is prepared, set under its key again, and hashed. */
    method KeepItem(sha1: Sha1, h: Hasher, at: nat, item: Item) returns (r: Result<Prepared, TreeError>)
      requires at < |items|
      modifies this, h
      ensures match PrepareValue(sha1, item.val)
              case Err(e) => r == Err(e)
              case Ok(q) =>
                match AddTo(old(h.fields), item.key, q.hashed)
                case Err(e) => r == Err(e)
                case Ok(fields) => r == Ok(q) && h.fields == fields && items == old(items)[at := Item(item.key, q.tree)]
      decreases item.val, 3
    {
      r := PreparedValue(sha1, item.val);
      if r.Ok? {
        items := items[at := Item(item.key, r.value.tree)];
        var added := h.AddField(item.key, r.value.hashed);
        if added.Err? {
          r := Err(added.error);
        }
      }
    }

    /** A hash is popped, any other value is cleaned up under its key. */
    method CleanupItem(at: nat, item: Item)
      requires at < |items|
      modifies this
      ensures items == if item.key == MT_HASH then old(items)[..at] + old(items)[at + 1..]
                       else old(items)[at := Item(item.key, Cleanup(item.val))]
      decreases item.val, 2
    {
      if item.key == MT_HASH {
        items := items[..at] + items[at + 1..];
      } else {
        var v := CleanedUp(item.val);
        items := items[at := Item(item.key, v)];
      }
    }

    method CleanupCommitTree()
      modifies this
      ensures Dict(items) == Cleanup(Dict(old(items)))
      decreases Dict(items), 0
    {
      var snapshot := items;
      assert CleanupItems(snapshot[..0]) + snapshot[0..] == snapshot;
      for i := 0 to |snapshot|
        invariant items == CleanupItems(snapshot[..i]) + snapshot[i..]
      {
        ghost var before := items;
        var at := |items| - (|snapshot| - i);
        CleanupItem(at, snapshot[i]);
        CleanupStep(snapshot, i, before, at, items);
      }
      assert snapshot[..|snapshot|] == snapshot && items == CleanupItems(snapshot);
    }
  }

  /** The loop of `cleanup_commit_tree`, one item further. */
  lemma {:induction false} CleanupStep(snapshot: seq<Item>, i: nat, before: seq<Item>, at: nat, after: seq<Item>)
    requires i < |snapshot| && before == CleanupItems(snapshot[..i]) + snapshot[i..] &&
             at == |before| - (|snapshot| - i)
    requires after == if snapshot[i].key == MT_HASH then before[..at] + before[at + 1..]
                      else before[at := Item(snapshot[i].key, Cleanup(snapshot[i].val))]
    ensures after == CleanupItems(snapshot[..i + 1]) + snapshot[i + 1..]
  {
    CleanupNext(snapshot, i);
    DropNext(CleanupItems(snapshot[..i]), snapshot, i);
    SetNext(CleanupItems(snapshot[..i]), snapshot, i, Item(snapshot[i].key, Cleanup(snapshot[i].val)));
  }

  lemma {:induction false} CleanupNext(items: seq<Item>, i: nat)
    requires i < |items|
    ensures CleanupItems(items[..i + 1]) ==
            if items[i].key == MT_HASH then CleanupItems(items[..i])
            else CleanupItems(items[..i]) + [Item(items[i].key, Cleanup(items[i].val))]
  {
    assert items[..i + 1][..i] == items[..i];
  }

  /** The loop of `prepare_commit_tree`, one item further. */
  lemma {:induction false} PrepareItemsNext(sha1: Sha1, items: seq<Item>, i: nat, kept: PreparedItems)
    requires i < |items| && PrepareItems(sha1, items[..i]) == Ok(kept)
    ensures PrepareItems(sha1, items[..i + 1]) ==
            if IsEmptyValue(items[i].val) then Ok(kept)
            else match PrepareValue(sha1, items[i].val)
              case Err(e) => Err(e)
              case Ok(q) => Kept(kept, items[i].key, q)
  {
    assert items[..i + 1][..i] == items[..i];
  }

  /** One value of the loop of `prepare_commit_tree`: what is set under its key, and
      what the hasher is given. */
  method PreparedValue(sha1: Sha1, v: Value) returns (r: Result<Prepared, TreeError>)
    ensures r == PrepareValue(sha1, v)
    decreases v, 2
  {
    match v {
      case Dict(items) =>
        var d := new TreeDict(items);
        var done := d.PrepareCommitTree(sha1);
        if done.Err? {
          return Err(done.error);
        }
        return Ok(Prepared(Dict(d.items), Lookup(d.items, MT_HASH).value));
      case List(elems) =>
        var l := PreparedSubtrees(sha1, elems);
        if l.Err? {
          return Err(l.error);
        }
        return Ok(Prepared(List(l.value.trees), List(l.value.hashes)));
      case Date(iso, _) =>
        return Ok(Prepared(Date(iso, false), Date(iso, false)));
      case _ =>
        return Ok(Prepared(v, v));
    }
  }

  method PreparedSubtrees(sha1: Sha1, elems: seq<Value>) returns (r: Result<PreparedList, TreeError>)
    ensures r == PrepareList(sha1, elems)
    decreases elems, 0
  {
    var trees, hashes := [], [];
    for i := 0 to |elems|
      invariant PrepareList(sha1, elems[..i]) == Ok(PreparedList(trees, hashes))
    {
      assert elems[..i + 1][..i] == elems[..i];
      var subtree := elems[i];
      if !subtree.Dict? {
        PrepareListFails(sha1, elems, i + 1);
        return Err(NotADict);
      }
      var d := new TreeDict(subtree.items);
      var done := d.PrepareCommitTree(sha1);
      if done.Err? {
        PrepareListFails(sha1, elems, i + 1);
        return Err(done.error);
      }
      var hash := Lookup(d.items, MT_HASH).value;
      if hash in hashes {
        PrepareListFails(sha1, elems, i + 1);
        return Err(DuplicatedSubtree);
      }
      trees, hashes := trees + [Dict(d.items)], hashes + [hash];
    }
    assert elems[..|elems|] == elems;
    r := Ok(PreparedList(trees, hashes));
  }

  method CleanedUp(v: Value) returns (r: Value)
    ensures r == Cleanup(v)
    decreases v, 1
  {
    match v {
      case Dict(items) =>
        var d := new TreeDict(items);
        d.CleanupCommitTree();
        r := Dict(d.items);
      case List(elems) =>
        var cleaned := [];
        for i := 0 to |elems|
          invariant cleaned == CleanupList(elems[..i])
        {
          assert elems[..i + 1][..i] == elems[..i];
          var e := CleanedUp(elems[i]);
          cleaned := cleaned + [e];
        }
        assert elems[..|elems|] == elems;
        r := List(cleaned);
      case _ =>
        r := v;
    }
  }

  /** An exception in a prefix of the items is the exception of the whole dict. */
  lemma {:induction false} PrepareItemsFails(sha1: Sha1, items: seq<Item>, n: nat)
    requires n <= |items| && PrepareItems(sha1, items[..n]).Err?
    ensures PrepareItems(sha1, items) == Err(PrepareItems(sha1, items[..n]).error)
  {
    if n < |items| {
      var front := items[..|items| - 1];
      assert front[..n] == items[..n];
      PrepareItemsFails(sha1, front, n);
    } else {
      assert items[..n] == items;
    }
  }

  lemma {:induction false} PrepareListFails(sha1: Sha1, elems: seq<Value>, n: nat)
    requires n <= |elems| && PrepareList(sha1, elems[..n]).Err?
    ensures PrepareList(sha1, elems) == Err(PrepareList(sha1, elems[..n]).error)
  {
    if n < |elems| {
      var front := elems[..|elems| - 1];
      assert front[..n] == elems[..n];
      PrepareListFails(sha1, front, n);
    } else {
      assert elems[..n] == elems;
    }
  }
}
