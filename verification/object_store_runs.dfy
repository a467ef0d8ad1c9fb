/** Runs of commits: the tables are sound exactly as long as no commit leaves a row behind
    that fails its hash check, and a corrupt row stays corrupt. */
module ObjectStoreRuns {
  import opened Wrappers
  import opened CommitTrees
  import opened CommitTreeLaws
  import opened ObjectStore
  import opened ObjectStoreKeeps

  // ----- corrupt rows stay -----

  lemma {:induction false} RefsStable(sha1: Sha1, s: Store, t: Store, a: Stored)
    requires Extends(s, t) && RefsOk(s, a)
    ensures RefsOk(t, a) && HashedValue(sha1, t, a) == HashedValue(sha1, s, a)
  {
    if a.References? {
      assert forall i | 0 <= i < |a.ids| :: a.ids[i] in a.ids;
      assert RowHashes(t, a.ids) == RowHashes(s, a.ids);
    }
  }

  lemma {:induction false} SameShallow(sha1: Sha1, s: Store, t: Store, row: Row, defs: seq<FieldDef>)
    requires Extends(s, t) && forall d | d in defs :: RefsOk(s, Attribute(row, d))
    ensures ShallowFields(sha1, t, row, defs) == ShallowFields(sha1, s, row, defs)
    ensures forall d | d in defs :: RefsOk(t, Attribute(row, d))
  {
    if defs != [] {
      var front, last := defs[..|defs| - 1], defs[|defs| - 1];
      assert defs == front + [last];
      SameShallow(sha1, s, t, row, front);
      RefsStable(sha1, s, t, Attribute(row, last));
    }
  }

  lemma {:induction false} BrokenStays(sha1: Sha1, schema: Schema, s: Store, t: Store)
    requires Broken(sha1, schema, s) && Extends(s, t) && FreshIds(t)
    ensures Broken(sha1, schema, t)
  {
    var id: nat :| Corrupt(sha1, schema, s, id);
    SameShallow(sha1, s, t, s.rows[id], schema[s.rows[id].model]);
    assert Corrupt(sha1, schema, t, id);
  }

  // ----- commits only add rows -----

  ghost predicate OnlyAdded(s: Store, t: Store) {
    FreshIds(t) && Extends(s, t)
  }

  lemma {:induction false} CommitAdds(sha1: Sha1, schema: Schema, s: Store, model: string, t: Value)
    requires FreshIds(s)
    ensures OnlyAdded(s, CommitPrepared(sha1, schema, s, model, t).store)
    decreases t, 1
  {
    if t.Dict? && model in schema {
      BuildAdds(sha1, schema, s, schema[model], t.items);
    }
  }

  lemma {:induction false} BuildAdds(sha1: Sha1, schema: Schema, s: Store, defs: seq<FieldDef>, items: seq<Item>)
    requires FreshIds(s)
    ensures OnlyAdded(s, Build(sha1, schema, s, defs, items).store)
    decreases items, 0
  {
    if items != [] {
      var front, last := items[..|items| - 1], items[|items| - 1];
      BuildAdds(sha1, schema, s, defs, front);
      StoredForAdds(sha1, schema, Build(sha1, schema, s, defs, front).store, FindDef(defs, last.key), last.val);
    }
  }

  lemma {:induction false} StoredForAdds(sha1: Sha1, schema: Schema, s: Store, d: Option<FieldDef>, v: Value)
    requires FreshIds(s)
    ensures OnlyAdded(s, StoredFor(sha1, schema, s, d, v).store)
    decreases v, 2
  {
    if d.Some? && v.Dict? && d.value.kind.ForeignKey? {
      CommitAdds(sha1, schema, s, d.value.kind.related, v);
    } else if d.Some? && v.List? && d.value.kind.ManyToMany? {
      CommitEachAdds(sha1, schema, s, d.value.kind.related, v.elems);
    }
  }

  lemma {:induction false} CommitEachAdds(sha1: Sha1, schema: Schema, s: Store, model: string, elems: seq<Value>)
    requires FreshIds(s)
    ensures OnlyAdded(s, CommitEach(sha1, schema, s, model, elems).store)
    decreases elems, 0
  {
    if elems != [] {
      var front, last := elems[..|elems| - 1], elems[|elems| - 1];
      CommitEachAdds(sha1, schema, s, model, front);
      CommitAdds(sha1, schema, CommitEach(sha1, schema, s, model, front).store, model, last);
    }
  }

  // ----- reachable stores -----

  /** A commit, either inside a transaction that ends with it when it fails, or on its own,
      where a failed commit leaves the rows it stored so far. */
  datatype Request = Request(model: string, tree: Value, inTransaction: bool)

  ghost function After(sha1: Sha1, schema: Schema, s: Store, r: Request): Store {
    var o := Commit(sha1, schema, s, r.model, r.tree);
    if r.inTransaction && o.result.Err? then s else o.store
  }

  ghost function Run(sha1: Sha1, schema: Schema, requests: seq<Request>): Store {
    if requests == [] then Store(map[], 0)
    else After(sha1, schema, Run(sha1, schema, requests[..|requests| - 1]), requests[|requests| - 1])
  }

  /** The commit leaves a row behind that fails its hash check. */
  ghost predicate Spoils(sha1: Sha1, schema: Schema, s: Store, r: Request) {
    !r.inTransaction && Spoiled(Commit(sha1, schema, s, r.model, r.tree).result)
  }

  ghost predicate NoneSpoils(sha1: Sha1, schema: Schema, requests: seq<Request>) {
    forall k | 0 <= k < |requests| :: !Spoils(sha1, schema, Run(sha1, schema, requests[..k]), requests[k])
  }

  ghost predicate SoundOrBroken(sha1: Sha1, schema: Schema, s: Store, sound: bool) {
    if sound then Inv(sha1, schema, s) else Broken(sha1, schema, s)
  }

  lemma {:induction false} SoundIds(sha1: Sha1, schema: Schema, s: Store)
    requires Inv(sha1, schema, s)
    ensures FreshIds(s)
  {
    forall id | id in s.rows ensures id < s.next {
      assert RowOk(sha1, schema, s, id);
    }
  }

  lemma {:induction false} AfterStep(sha1: Sha1, schema: Schema, s: Store, r: Request, sound: bool)
    requires GoodSchema(schema) && Plain(r.tree) && SoundOrBroken(sha1, schema, s, sound)
    ensures SoundOrBroken(sha1, schema, After(sha1, schema, s, r), sound && !Spoils(sha1, schema, s, r))
  {
    if sound {
      CommitKeeps(sha1, schema, s, r.model, r.tree);
    } else {
      if Prepare(sha1, r.tree).Ok? {
        CommitAdds(sha1, schema, s, r.model, Prepare(sha1, r.tree).value);
      }
      BrokenStays(sha1, schema, s, Commit(sha1, schema, s, r.model, r.tree).store);
    }
  }

  lemma {:induction false} NoneSpoilsSnoc(sha1: Sha1, schema: Schema, front: seq<Request>, last: Request)
    ensures NoneSpoils(sha1, schema, front + [last]) <==>
            NoneSpoils(sha1, schema, front) && !Spoils(sha1, schema, Run(sha1, schema, front), last)
  {
    var all := front + [last];
    assert all[..|front|] == front && all[|front|] == last;
    assert forall k | 0 <= k < |front| :: all[..k] == front[..k] && all[k] == front[k];
  }

  lemma {:induction false} RunStands(sha1: Sha1, schema: Schema, requests: seq<Request>)
    requires GoodSchema(schema) && forall r | r in requests :: Plain(r.tree)
    ensures SoundOrBroken(sha1, schema, Run(sha1, schema, requests), NoneSpoils(sha1, schema, requests))
  {
    if requests != [] {
      var front, last := requests[..|requests| - 1], requests[|requests| - 1];
      assert requests == front + [last];
      RunStands(sha1, schema, front);
      NoneSpoilsSnoc(sha1, schema, front, last);
      AfterStep(sha1, schema, Run(sha1, schema, front), last, NoneSpoils(sha1, schema, front));
    }
  }

  /** Whatever trees are committed, the tables are sound at the end of the run exactly if
      no commit left a row behind that failed its hash check. */
  lemma {:induction false} ReachableInv(sha1: Sha1, schema: Schema, requests: seq<Request>)
    requires GoodSchema(schema) && forall r | r in requests :: Plain(r.tree)
    ensures Inv(sha1, schema, Run(sha1, schema, requests)) <==> NoneSpoils(sha1, schema, requests)
  {
    RunStands(sha1, schema, requests);
    if !NoneSpoils(sha1, schema, requests) {
      BrokenIsNotSound(sha1, schema, Run(sha1, schema, requests));
    }
  }
}
