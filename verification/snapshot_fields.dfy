/** The fields of `diff` that hold one value, and the events for the foreign keys of a
    snapshot: what was added is the value of the newer object, what was removed that of the
    older one. */
module SnapshotFields {
  import opened CommitTrees
  import opened ObjectStore
  import opened ObjectSerialization
  import opened SnapshotEvents

  // ----- what a diff shows -----

  /** The value of an attribute, serialized for a foreign key, unless it is falsy. */
  ghost predicate IsValue(schema: Schema, s: Store, a: Stored, v: Value) {
    && (match a
        case Plainly(w) => v == w
        case AsJson(w) => v == w
        case Reference(Some(target)) => v == Serialized(schema, s, target)
        case _ => false)
    && v != Null && v != Bool(false) && v != Int(0) && v != Str("") && v != List([]) && v != Dict([])
    && v != Other(false)
  }

  /** The value as a list of length one, or none. */
  ghost predicate AreValues(schema: Schema, s: Store, a: Stored, vs: seq<Value>) {
    |vs| <= 1 && forall v :: v in vs <==> IsValue(schema, s, a, v)
  }

  ghost predicate SingleField(schema: Schema, s: Store, a: nat, b: nat, d: FieldDef) {
    && a in s.rows && b in s.rows && s.rows[a].model == s.rows[b].model && s.rows[a].model in schema
    && DistinctNames(schema[s.rows[a].model]) && d in schema[s.rows[a].model]
    && !Attribute(s.rows[a], d).References?
  }

  lemma {:induction false} ShownIs(schema: Schema, s: Store, a: Stored)
    requires !a.References?
    ensures AreValues(schema, s, a, Shown(schema, s, a))
  {
  }

  /** In a field that differs, the value of the first object was added, and that of the
      second removed; a field that does not differ is not in the diff, nor one in which
      both values are falsy. */
  lemma {:induction false} FieldDiffIs(schema: Schema, s: Store, a: nat, b: nat, d: FieldDef)
    requires SingleField(schema, s, a, b, d) && s.rows[a].mtHash != s.rows[b].mtHash
    requires !Attribute(s.rows[b], d).References?
    ensures var diff, x, y := Diff(schema, s, a, b), Attribute(s.rows[a], d), Attribute(s.rows[b], d);
            if x == y || forall v :: !IsValue(schema, s, x, v) && !IsValue(schema, s, y, v) then d.name !in diff
            else
              && d.name in diff
              && AreValues(schema, s, x, diff[d.name].added) && AreValues(schema, s, y, diff[d.name].removed)
  {
    var x, y := Attribute(s.rows[a], d), Attribute(s.rows[b], d);
    ShownIs(schema, s, x);
    ShownIs(schema, s, y);
    DiffFieldsAt(schema, s, s.rows[a], s.rows[b], schema[s.rows[a].model], d);
    if Shown(schema, s, x) != [] {
      assert Shown(schema, s, x)[0] in Shown(schema, s, x);
    }
    if Shown(schema, s, y) != [] {
      assert Shown(schema, s, y)[0] in Shown(schema, s, y);
    }
  }

  /** The same without the hashes: objects with the same hash are one. */
  lemma {:induction false} FieldPatched(sha1: Sha1, schema: Schema, s: Store, a: nat, b: nat, d: FieldDef,
      before: seq<Value>)
    requires Setting(sha1, schema, s) && SingleField(schema, s, a, b, d)
    requires !Attribute(s.rows[b], d).References? && AreValues(schema, s, Attribute(s.rows[b], d), before)
    ensures var diff := Diff(schema, s, a, b);
            && (d.name in diff ==> diff[d.name].removed == before)
            && AreValues(schema, s, Attribute(s.rows[a], d), if d.name in diff then diff[d.name].added else before)
  {
    if s.rows[a].mtHash == s.rows[b].mtHash {
      assert a == b;
    } else {
      FieldDiffIs(schema, s, a, b, d);
      var diff := Diff(schema, s, a, b);
      if d.name in diff {
        OneList(schema, s, Attribute(s.rows[b], d), diff[d.name].removed, before);
      }
    }
  }

  lemma {:induction false} OneList(schema: Schema, s: Store, a: Stored, vs: seq<Value>, ws: seq<Value>)
    requires AreValues(schema, s, a, vs) && AreValues(schema, s, a, ws)
    ensures vs == ws
  {
    if vs != [] {
      assert vs[0] in vs && vs[0] in ws;
    }
    if ws != [] {
      assert ws[0] in ws && ws[0] in vs;
    }
  }

  // ----- events for foreign keys -----

  /** The foreign keys of a machine snapshot that events are sent for. */
  const REFERENCE_ATTRIBUTES :=
    ["business_unit", "os_version", "system_info", "teamviewer", "puppet_node", "principal_user"]

  /** An event is only sent for a value that is a dict. */
  function DictEvents(action: Action, attr: string, values: seq<Value>): seq<Event> {
    if values != [] && values[0].Dict? then [Event(action, attr, values[0])] else []
  }

  function ReferenceEvents(diff: map<string, FieldDiff>, attr: string): seq<Event> {
    if attr in diff then DictEvents(Add, attr, diff[attr].added) + DictEvents(Remove, attr, diff[attr].removed) else []
  }

  /** The object a foreign key leads to, serialized; none if there is nothing to show. */
  ghost function Target(schema: Schema, s: Store, a: Stored): set<Value> {
    match a
    case Reference(Some(target)) =>
      var v := Serialized(schema, s, target);
      if v == Dict([]) then {} else {v}
    case _ => {}
  }

  ghost predicate ForeignField(schema: Schema, s: Store, cur: nat, prev: nat, d: FieldDef) {
    SingleField(schema, s, cur, prev, d) && d.kind.ForeignKey?
  }

  /** A foreign key leads to an object that serializes to a dict, or to none. */
  lemma {:induction false} TargetIsValue(sha1: Sha1, schema: Schema, s: Store, id: nat, d: FieldDef, v: Value)
    requires Setting(sha1, schema, s) && id in s.rows && s.rows[id].model in schema
    requires d in schema[s.rows[id].model] && d.kind.ForeignKey?
    ensures var a := Attribute(s.rows[id], d);
            a.Reference? && (IsValue(schema, s, a, v) <==> v in Target(schema, s, a)) &&
            (v in Target(schema, s, a) ==> v.Dict?)
  {
    assert RowOk(sha1, schema, s, id);
    assert Typed(sha1, s, id, d, Attribute(s.rows[id], d));
    var a := Attribute(s.rows[id], d);
    if a.id.Some? {
      SerializedPlain(sha1, schema, s, a.id.value);
    }
  }

  ghost predicate SetOfList(values: seq<Value>, shown: set<Value>) {
    |values| <= 1 && (forall v :: v in values <==> v in shown) && forall v | v in values :: v.Dict?
  }

  lemma {:induction false} DictEventsAre(action: Action, attr: string, values: seq<Value>, shown: set<Value>)
    requires SetOfList(values, shown)
    ensures DictEvents(action, attr, values) == EventsFor(action, attr, values) && ValueSet(values) == shown
  {
    if values != [] {
      assert values[0] in values && values == [values[0]];
    }
  }

  lemma {:induction false} TargetList(sha1: Sha1, schema: Schema, s: Store, id: nat, d: FieldDef, values: seq<Value>)
    requires Setting(sha1, schema, s) && id in s.rows && s.rows[id].model in schema
    requires d in schema[s.rows[id].model] && d.kind.ForeignKey?
    requires AreValues(schema, s, Attribute(s.rows[id], d), values)
    ensures SetOfList(values, Target(schema, s, Attribute(s.rows[id], d)))
  {
    forall v ensures v in values <==> v in Target(schema, s, Attribute(s.rows[id], d))
             ensures v in values ==> v.Dict?
    {
      TargetIsValue(sha1, schema, s, id, d, v);
    }
  }

  /** The events of a foreign key: none if it leads to the same object as before, and
      otherwise the new object was added, and the old one removed, unless they serialize
      to {}. */
  lemma {:induction false} ReferenceEventsExact(sha1: Sha1, schema: Schema, s: Store, cur: nat, prev: nat, d: FieldDef)
    requires Setting(sha1, schema, s) && ForeignField(schema, s, cur, prev, d)
    ensures var x, y := Attribute(s.rows[cur], d), Attribute(s.rows[prev], d);
            var events := ReferenceEvents(Diff(schema, s, cur, prev), d.name);
            && (forall e | e in events :: e.attr == d.name)
            && (forall v :: Event(Add, d.name, v) in events <==> x != y && v in Target(schema, s, x))
            && (forall v :: Event(Remove, d.name, v) in events <==> x != y && v in Target(schema, s, y))
            && |events| <= 2
  {
    var x, y, diff := Attribute(s.rows[cur], d), Attribute(s.rows[prev], d), Diff(schema, s, cur, prev);
    TargetIsValue(sha1, schema, s, cur, d, Null);
    TargetIsValue(sha1, schema, s, prev, d, Null);
    if s.rows[cur].mtHash == s.rows[prev].mtHash {
      assert cur == prev;
    } else {
      FieldDiffIs(schema, s, cur, prev, d);
      if d.name in diff {
        TargetList(sha1, schema, s, cur, d, diff[d.name].added);
        TargetList(sha1, schema, s, prev, d, diff[d.name].removed);
        DictEventsAre(Add, d.name, diff[d.name].added, Target(schema, s, x));
        DictEventsAre(Remove, d.name, diff[d.name].removed, Target(schema, s, y));
        TwoLists(d.name, diff[d.name].added, diff[d.name].removed);
      } else if x != y {
        forall v ensures v !in Target(schema, s, x) && v !in Target(schema, s, y) {
          TargetIsValue(sha1, schema, s, cur, d, v);
          TargetIsValue(sha1, schema, s, prev, d, v);
        }
      }
    }
  }

  lemma {:induction false} TwoLists(attr: string, added: seq<Value>, removed: seq<Value>)
    ensures var events := EventsFor(Add, attr, added) + EventsFor(Remove, attr, removed);
            && |events| == |added| + |removed|
            && (forall e | e in events :: e.attr == attr)
            && (forall v :: Event(Add, attr, v) in events <==> v in added)
            && (forall v :: Event(Remove, attr, v) in events <==> v in removed)
  {
    HasEvents(Add, attr, added);
    HasEvents(Remove, attr, removed);
  }

  lemma {:induction false} HasEvents(action: Action, attr: string, payloads: seq<Value>)
    ensures forall e :: e in EventsFor(action, attr, payloads) <==>
              e.action == action && e.attr == attr && e.payload in payloads
  {
    var events := EventsFor(action, attr, payloads);
    forall e: Event | e.action == action && e.attr == attr && e.payload in payloads ensures e in events {
      var i :| 0 <= i < |payloads| && payloads[i] == e.payload;
      assert events[i] == e;
    }
  }

  /** The object of a foreign key serializes without losing a reference. */
  ghost predicate Whole(schema: Schema, s: Store, a: Stored) {
    a.Reference? && a.id.Some? ==> a.id.value in s.rows && NoBlankReference(schema, s, a.id.value)
  }

  /** Replaying the events of a foreign key over what it led to before gives what it leads
      to now. */
  lemma {:induction false} ReplayReference(sha1: Sha1, schema: Schema, s: Store, cur: nat, prev: nat, d: FieldDef,
      c: Collections)
    requires Setting(sha1, schema, s) && ForeignField(schema, s, cur, prev, d)
    requires Whole(schema, s, Attribute(s.rows[cur], d)) && Whole(schema, s, Attribute(s.rows[prev], d))
    requires d.name in c && c[d.name] == Target(schema, s, Attribute(s.rows[prev], d))
    ensures Replay(c, ReferenceEvents(Diff(schema, s, cur, prev), d.name)) ==
            c[d.name := Target(schema, s, Attribute(s.rows[cur], d))]
  {
    var x, y, diff := Attribute(s.rows[cur], d), Attribute(s.rows[prev], d), Diff(schema, s, cur, prev);
    var added, removed := Target(schema, s, x), Target(schema, s, y);
    TargetIsValue(sha1, schema, s, cur, d, Null);
    TargetIsValue(sha1, schema, s, prev, d, Null);
    if s.rows[cur].mtHash == s.rows[prev].mtHash {
      assert cur == prev;
    } else {
      FieldDiffIs(schema, s, cur, prev, d);
      if d.name in diff {
        TargetList(sha1, schema, s, cur, d, diff[d.name].added);
        TargetList(sha1, schema, s, prev, d, diff[d.name].removed);
        DictEventsAre(Add, d.name, diff[d.name].added, added);
        DictEventsAre(Remove, d.name, diff[d.name].removed, removed);
        DifferentTargets(sha1, schema, s, cur, prev, d);
        ReplaceTarget(c, d.name, diff[d.name].added, diff[d.name].removed);
      } else {
        forall v ensures v in added <==> v in removed {
          TargetIsValue(sha1, schema, s, cur, d, v);
          TargetIsValue(sha1, schema, s, prev, d, v);
        }
        assert added == removed;
      }
    }
  }

  /** Different objects serialize differently. */
  lemma {:induction false} DifferentTargets(sha1: Sha1, schema: Schema, s: Store, cur: nat, prev: nat, d: FieldDef)
    requires Setting(sha1, schema, s) && ForeignField(schema, s, cur, prev, d)
    requires Whole(schema, s, Attribute(s.rows[cur], d)) && Whole(schema, s, Attribute(s.rows[prev], d))
    requires Attribute(s.rows[cur], d) != Attribute(s.rows[prev], d)
    ensures Target(schema, s, Attribute(s.rows[cur], d)) !! Target(schema, s, Attribute(s.rows[prev], d))
  {
    var x, y := Attribute(s.rows[cur], d), Attribute(s.rows[prev], d);
    assert RowOk(sha1, schema, s, cur) && RowOk(sha1, schema, s, prev);
    assert Typed(sha1, s, cur, d, x) && Typed(sha1, s, prev, d, y);
    if x.id.Some? && y.id.Some? && Serialized(schema, s, x.id.value) == Serialized(schema, s, y.id.value) {
      SerializedInjective(sha1, schema, s, x.id.value, y.id.value);
    }
  }

  lemma {:induction false} ReplaceTarget(c: Collections, attr: string, added: seq<Value>, removed: seq<Value>)
    requires attr in c && c[attr] == ValueSet(removed) && ValueSet(added) !! ValueSet(removed)
    ensures Replay(c, EventsFor(Add, attr, added) + EventsFor(Remove, attr, removed)) == c[attr := ValueSet(added)]
  {
    ReplayAdds(c, attr, added);
    var half := c[attr := c[attr] + ValueSet(added)];
    ReplayRemoves(half, attr, removed);
    ReplayConcat(c, EventsFor(Add, attr, added), EventsFor(Remove, attr, removed));
    assert (ValueSet(removed) + ValueSet(added)) - ValueSet(removed) == ValueSet(added);
  }
}
