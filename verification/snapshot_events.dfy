/** `diff` between two stored objects, and the inventory events derived from it. The
    events of a chain of commits, replayed, rebuild the collections of its last
    snapshot. */
module SnapshotEvents {
  import opened Wrappers
  import opened Sequences
  import opened CommitTrees
  import opened ObjectStore
  import opened ObjectStoreKeeps
  import opened ObjectSerialization

  // ----- diff -----

  /** What was added and removed in one field; single values are lists of length one. */
  datatype FieldDiff = FieldDiff(added: seq<Value>, removed: seq<Value>)

  /** `ids` without the rows that are in `others` */
  function Minus(ids: seq<nat>, others: seq<nat>): (r: seq<nat>)
    ensures forall t :: t in r <==> t in ids && t !in others
    ensures NoDuplicates(ids) ==> NoDuplicates(r)
  {
    if ids == [] then []
    else
      var front, last := Minus(ids[..|ids| - 1], others), ids[|ids| - 1];
      NoDuplicatesSnoc(ids[..|ids| - 1], last);
      NoDuplicatesSnoc(front, last);
      assert ids == ids[..|ids| - 1] + [last];
      if last in others then front else front + [last]
  }

  ghost function SerializedEach(schema: Schema, s: Store, ids: seq<nat>): (r: seq<Value>)
    ensures |r| == |ids|
    ensures forall i | 0 <= i < |ids| :: r[i] == Serialized(schema, s, ids[i])
  {
    if ids == [] then [] else SerializedEach(schema, s, ids[..|ids| - 1]) + [Serialized(schema, s, ids[|ids| - 1])]
  }

  /** A single value in a diff; falsy values are left out. */
  ghost function Shown(schema: Schema, s: Store, a: Stored): seq<Value> {
    var v := match a
      case Plainly(v) => v
      case AsJson(v) => v
      case Reference(Some(target)) => Serialized(schema, s, target)
      case _ => Null;
    if Truthy(v) then [v] else []
  }

  ghost function DiffField(schema: Schema, s: Store, a: Stored, b: Stored): FieldDiff {
    if a.References? && b.References? then
      FieldDiff(SerializedEach(schema, s, Minus(a.ids, b.ids)), SerializedEach(schema, s, Minus(b.ids, a.ids)))
    else if a == b then FieldDiff([], [])
    else FieldDiff(Shown(schema, s, a), Shown(schema, s, b))
  }

  ghost function DiffFields(schema: Schema, s: Store, a: Row, b: Row, defs: seq<FieldDef>): map<string, FieldDiff> {
    if defs == [] then map[]
    else
      var d := defs[|defs| - 1];
      var front := DiffFields(schema, s, a, b, defs[..|defs| - 1]);
      var f := DiffField(schema, s, Attribute(a, d), Attribute(b, d));
      if f == FieldDiff([], []) then front else front[d.name := f]
  }

  /** `a.diff(b)` */
  ghost function Diff(schema: Schema, s: Store, a: nat, b: nat): map<string, FieldDiff>
    requires a in s.rows && b in s.rows && s.rows[a].model in schema
  {
    if a == b || s.rows[a].mtHash == s.rows[b].mtHash then map[]
    else DiffFields(schema, s, s.rows[a], s.rows[b], schema[s.rows[a].model])
  }

  function Swapped(diff: map<string, FieldDiff>): map<string, FieldDiff> {
    map k | k in diff :: FieldDiff(diff[k].removed, diff[k].added)
  }

  lemma {:induction false} DiffFieldsSwap(schema: Schema, s: Store, a: Row, b: Row, defs: seq<FieldDef>)
    ensures DiffFields(schema, s, b, a, defs) == Swapped(DiffFields(schema, s, a, b, defs))
  {
    if defs != [] {
      var d := defs[|defs| - 1];
      DiffFieldsSwap(schema, s, a, b, defs[..|defs| - 1]);
      DiffFieldSwap(schema, s, Attribute(a, d), Attribute(b, d));
      SwappedUpdate(DiffFields(schema, s, a, b, defs[..|defs| - 1]), d.name,
        DiffField(schema, s, Attribute(a, d), Attribute(b, d)));
    }
  }

  lemma {:induction false} DiffFieldSwap(schema: Schema, s: Store, a: Stored, b: Stored)
    ensures var f := DiffField(schema, s, a, b);
            DiffField(schema, s, b, a) == FieldDiff(f.removed, f.added)
  {
  }

  lemma {:induction false} SwappedUpdate(diff: map<string, FieldDiff>, name: string, f: FieldDiff)
    ensures Swapped(diff[name := f]) == Swapped(diff)[name := FieldDiff(f.removed, f.added)]
  {
  }

  /** Swapping the objects swaps added and removed. */
  lemma {:induction false} DiffSwap(schema: Schema, s: Store, a: nat, b: nat)
    requires a in s.rows && b in s.rows && s.rows[a].model == s.rows[b].model && s.rows[a].model in schema
    ensures Diff(schema, s, b, a) == Swapped(Diff(schema, s, a, b))
  {
    DiffFieldsSwap(schema, s, s.rows[a], s.rows[b], schema[s.rows[a].model]);
  }

  lemma {:induction false} DiffFieldsAt(schema: Schema, s: Store, a: Row, b: Row, defs: seq<FieldDef>, d: FieldDef)
    requires DistinctNames(defs) && d in defs
    ensures var f := DiffField(schema, s, Attribute(a, d), Attribute(b, d));
            if f == FieldDiff([], []) then d.name !in DiffFields(schema, s, a, b, defs)
            else d.name in DiffFields(schema, s, a, b, defs) && DiffFields(schema, s, a, b, defs)[d.name] == f
  {
    var front, last := defs[..|defs| - 1], defs[|defs| - 1];
    assert defs == front + [last];
    if d != last {
      DiffFieldsAt(schema, s, a, b, front, d);
    } else {
      DiffFieldsNames(schema, s, a, b, front);
    }
  }

  lemma {:induction false} DiffFieldsNames(schema: Schema, s: Store, a: Row, b: Row, defs: seq<FieldDef>)
    ensures DiffFields(schema, s, a, b, defs).Keys <= Names(defs)
  {
    if defs != [] {
      var front := defs[..|defs| - 1];
      DiffFieldsNames(schema, s, a, b, front);
      assert forall d | d in front :: d in defs;
    }
  }

  // ----- events -----

  /** The many to many attributes of a machine snapshot that events are sent for. */
  const M2M_ATTRIBUTES := [
    "certificates", "deb_packages", "disks", "groups", "links", "network_interfaces", "osx_app_instances",
        "program_instances"
  ]

  datatype Action = Add | Remove

  /** The type of the event is "{add,remove}_machine_{attr}". */
  datatype Event = Event(action: Action, attr: string, payload: Value)

  ghost function EventsFor(action: Action, attr: string, payloads: seq<Value>): (r: seq<Event>)
    ensures |r| == |payloads|
    ensures forall i | 0 <= i < |payloads| :: r[i] == Event(action, attr, payloads[i])
  {
    if payloads == [] then []
    else EventsFor(action, attr, payloads[..|payloads| - 1]) + [Event(action, attr, payloads[|payloads| - 1])]
  }

  /** The last letter of the attribute is dropped in the event. */
  function EventAttr(attribute: string): string {
    if attribute == "" then "" else attribute[..|attribute| - 1]
  }

  ghost function AttributeEvents(diff: map<string, FieldDiff>, attribute: string): seq<Event> {
    if attribute in diff then
      EventsFor(Add, EventAttr(attribute), diff[attribute].added) +
          EventsFor(Remove, EventAttr(attribute), diff[attribute].removed)
    else []
  }

  /** The collection events of a commit: for each attribute what was added, then what
      was removed. */
  ghost function CollectionEvents(diff: map<string, FieldDiff>, attributes: seq<string>): seq<Event> {
    if attributes == [] then []
    else CollectionEvents(diff, attributes[..|attributes| - 1]) + AttributeEvents(diff, attributes[|attributes| - 1])
  }

  // ----- replay -----

  /** The serialized collections of a snapshot, by the name used in events. */
  type Collections = map<string, set<Value>>

  ghost function IdsOf(schema: Schema, s: Store, id: nat, attribute: string): seq<nat>
    requires id in s.rows && s.rows[id].model in schema
  {
    var d := FindDef(schema[s.rows[id].model], attribute);
    if d.Some? && Attribute(s.rows[id], d.value).References? then Attribute(s.rows[id], d.value).ids else []
  }

  ghost function ValueSet(values: seq<Value>): set<Value> {
    set v | v in values
  }

  ghost function CollectionsOf(schema: Schema, s: Store, id: nat, attributes: seq<string>): Collections
    requires id in s.rows && s.rows[id].model in schema
  {
    if attributes == [] then map[]
    else
      var last := attributes[|attributes| - 1];
      CollectionsOf(schema, s, id, attributes[..|attributes| - 1])
        [EventAttr(last) := ValueSet(SerializedEach(schema, s, IdsOf(schema, s, id, last)))]
  }

  ghost function Apply(c: Collections, e: Event): Collections {
    var known := if e.attr in c then c[e.attr] else {};
    match e.action
    case Add => c[e.attr := known + {e.payload}]
    case Remove => c[e.attr := known - {e.payload}]
  }

  ghost function Replay(c: Collections, events: seq<Event>): Collections {
    if events == [] then c else Apply(Replay(c, events[..|events| - 1]), events[|events| - 1])
  }

  lemma {:induction false} ReplayConcat(c: Collections, a: seq<Event>, b: seq<Event>)
    ensures Replay(c, a + b) == Replay(Replay(c, a), b)
  {
    if b == [] {
      assert a + b == a;
    } else {
      ReplayConcat(c, a, b[..|b| - 1]);
      assert (a + b)[..|a + b| - 1] == a + b[..|b| - 1];
    }
  }

  lemma {:induction false} EventsForSnoc(action: Action, attr: string, front: seq<Value>, last: Value)
    ensures EventsFor(action, attr, front + [last]) == EventsFor(action, attr, front) + [Event(action, attr, last)]
    ensures ValueSet(front + [last]) == ValueSet(front) + {last}
  {
    assert (front + [last])[..|front|] == front;
  }

  lemma {:induction false} ReplaySnoc(c: Collections, events: seq<Event>, e: Event)
    ensures Replay(c, events + [e]) == Apply(Replay(c, events), e)
  {
    assert (events + [e])[..|events|] == events;
  }

  lemma {:induction false} ApplyTo(c: Collections, attr: string, known: set<Value>, v: Value)
    ensures Apply(c[attr := known], Event(Add, attr, v)) == c[attr := known + {v}]
    ensures Apply(c[attr := known], Event(Remove, attr, v)) == c[attr := known - {v}]
  {
  }

  lemma {:induction false} OneMore(known: set<Value>, front: set<Value>, last: Value)
    ensures known + front + {last} == known + (front + {last})
    ensures known - front - {last} == known - (front + {last})
  {
  }

  lemma {:induction false} ReplayAdds(c: Collections, attr: string, payloads: seq<Value>)
    requires attr in c
    ensures Replay(c, EventsFor(Add, attr, payloads)) == c[attr := c[attr] + ValueSet(payloads)]
  {
    if payloads == [] {
      assert c[attr] + ValueSet(payloads) == c[attr];
    } else {
      var front, last := payloads[..|payloads| - 1], payloads[|payloads| - 1];
      assert payloads == front + [last];
      ReplayAdds(c, attr, front);
      EventsForSnoc(Add, attr, front, last);
      ReplaySnoc(c, EventsFor(Add, attr, front), Event(Add, attr, last));
      ApplyTo(c, attr, c[attr] + ValueSet(front), last);
      OneMore(c[attr], ValueSet(front), last);
    }
  }

  lemma {:induction false} ReplayRemoves(c: Collections, attr: string, payloads: seq<Value>)
    requires attr in c
    ensures Replay(c, EventsFor(Remove, attr, payloads)) == c[attr := c[attr] - ValueSet(payloads)]
  {
    if payloads == [] {
      assert c[attr] - ValueSet(payloads) == c[attr];
    } else {
      var front, last := payloads[..|payloads| - 1], payloads[|payloads| - 1];
      assert payloads == front + [last];
      ReplayRemoves(c, attr, front);
      EventsForSnoc(Remove, attr, front, last);
      ReplaySnoc(c, EventsFor(Remove, attr, front), Event(Remove, attr, last));
      ApplyTo(c, attr, c[attr] - ValueSet(front), last);
      OneMore(c[attr], ValueSet(front), last);
    }
  }

  // ----- snapshots whose collections can be told apart -----

  /** Two snapshots of the same model, with these many to many attributes, whose
      elements serialize without losing a reference. */
  ghost predicate Comparable(sha1: Sha1, schema: Schema, s: Store, id: nat, model: string, attributes: seq<string>) {
    && id in s.rows && s.rows[id].model == model && model in schema
    && forall x | x in attributes ::
         && (exists d :: FindDef(schema[model], x) == Some(d) && d.kind.ManyToMany?)
         && forall t | t in IdsOf(schema, s, id, x) :: t in s.rows && NoBlankReference(schema, s, t)
  }

  ghost predicate Setting(sha1: Sha1, schema: Schema, s: Store) {
    GoodSchema(schema) && Inv(sha1, schema, s)
  }

  /** An attribute of a row, as the invariant knows it. */
  lemma {:induction false} ManyOf(sha1: Sha1, schema: Schema, s: Store, id: nat, model: string,
      attributes: seq<string>, x: string) returns (d: FieldDef)
    requires Setting(sha1, schema, s) && Comparable(sha1, schema, s, id, model, attributes) && x in attributes
    ensures d in schema[model] && d.name == x && d.kind.ManyToMany?
    ensures Attribute(s.rows[id], d) == References(IdsOf(schema, s, id, x))
    ensures NoDuplicates(IdsOf(schema, s, id, x))
    ensures forall t | t in IdsOf(schema, s, id, x) ::
        t in s.rows && s.rows[t].model == d.kind.related && NoBlankReference(schema, s, t)
    ensures FindDef(schema[model], x) == Some(d)
  {
    d :| FindDef(schema[model], x) == Some(d) && d.kind.ManyToMany?;
    assert RowOk(sha1, schema, s, id);
    assert Typed(sha1, s, id, d, Attribute(s.rows[id], d));
  }

  /** Rows of one model that serialize without losing a reference. */
  ghost predicate Elements(schema: Schema, s: Store, related: string, ids: seq<nat>) {
    forall u | u in ids :: u in s.rows && s.rows[u].model == related && NoBlankReference(schema, s, u)
  }

  lemma {:induction false} EachHas(schema: Schema, s: Store, ids: seq<nat>, v: Value)
    ensures v in SerializedEach(schema, s, ids) <==> exists u :: u in ids && Serialized(schema, s, u) == v
  {
    var each := SerializedEach(schema, s, ids);
    if v in each {
      var i :| 0 <= i < |each| && each[i] == v;
      assert ids[i] in ids;
    }
    if u :| u in ids && Serialized(schema, s, u) == v {
      var i :| 0 <= i < |ids| && ids[i] == u;
      assert each[i] == v;
    }
  }

  lemma {:induction false} MinusHas(sha1: Sha1, schema: Schema, s: Store, related: string, a: seq<nat>, b: seq<nat>,
      v: Value)
    requires Setting(sha1, schema, s) && Elements(schema, s, related, a) && Elements(schema, s, related, b)
    ensures v in SerializedEach(schema, s, Minus(a, b)) <==>
            v in SerializedEach(schema, s, a) && v !in SerializedEach(schema, s, b)
  {
    EachHas(schema, s, Minus(a, b), v);
    EachHas(schema, s, a, v);
    EachHas(schema, s, b, v);
    if u :| u in a && Serialized(schema, s, u) == v {
      forall w | w in a || w in b ensures Serialized(schema, s, w) == v <==> w == u {
        if Serialized(schema, s, w) == v {
          SerializedInjective(sha1, schema, s, w, u);
        }
      }
    }
  }

  lemma {:induction false} EachNoDuplicates(sha1: Sha1, schema: Schema, s: Store, related: string, ids: seq<nat>)
    requires Setting(sha1, schema, s) && Elements(schema, s, related, ids) && NoDuplicates(ids)
    ensures NoDuplicates(SerializedEach(schema, s, ids))
  {
    var each := SerializedEach(schema, s, ids);
    forall i, j | 0 <= i < j < |each| ensures each[i] != each[j] {
      assert ids[i] != ids[j] && ids[i] in ids && ids[j] in ids;
      if each[i] == each[j] {
        SerializedInjective(sha1, schema, s, ids[i], ids[j]);
      }
    }
  }

  /** The difference of the serialized collections is the serialized difference. */
  lemma {:induction false} SerializedMinus(sha1: Sha1, schema: Schema, s: Store, related: string, a: seq<nat>,
      b: seq<nat>)
    requires Setting(sha1, schema, s) && Elements(schema, s, related, a) && Elements(schema, s, related, b)
    ensures ValueSet(SerializedEach(schema, s, Minus(a, b))) ==
            ValueSet(SerializedEach(schema, s, a)) - ValueSet(SerializedEach(schema, s, b))
    ensures NoDuplicates(a) ==> NoDuplicates(SerializedEach(schema, s, Minus(a, b)))
  {
    forall v
      ensures v in SerializedEach(schema, s, Minus(a, b)) <==>
              v in SerializedEach(schema, s, a) && v !in SerializedEach(schema, s, b)
    {
      MinusHas(sha1, schema, s, related, a, b, v);
    }
    if NoDuplicates(a) {
      EachNoDuplicates(sha1, schema, s, related, Minus(a, b));
    }
  }

  // ----- one commit -----

  /** Attribute names that stay different when their last letter is dropped. */
  ghost predicate Plurals(attributes: seq<string>) {
    NoDuplicates(attributes) && forall x | x in attributes :: x != "" && x[|x| - 1] == 's'
  }

  lemma {:induction false} PluralsDiffer(x: string, y: string)
    requires x != "" && y != "" && x[|x| - 1] == y[|y| - 1] && EventAttr(x) == EventAttr(y)
    ensures x == y
  {
    assert x == EventAttr(x) + [x[|x| - 1]] && y == EventAttr(y) + [y[|y| - 1]];
  }

  lemma {:induction false} Inhabited(ids: seq<nat>)
    ensures ids == [] || exists t :: t in ids
  {
    if ids != [] {
      assert ids[0] in ids;
    }
  }

  /** What the diff holds for an attribute, whether it is listed or not. */
  lemma {:induction false} DiffOfMany(sha1: Sha1, schema: Schema, s: Store, cur: nat, prev: nat, model: string,
      attributes: seq<string>, x: string)
    requires Setting(sha1, schema, s) && x in attributes
    requires Comparable(sha1, schema, s, cur, model, attributes) && Comparable(sha1, schema, s, prev, model, attributes)
    ensures var diff := Diff(schema, s, cur, prev);
            var f := FieldDiff(SerializedEach(schema, s, Minus(IdsOf(schema, s, cur, x), IdsOf(schema, s, prev, x))),
                               SerializedEach(schema, s, Minus(IdsOf(schema, s, prev, x), IdsOf(schema, s, cur, x))));
            if x in diff then diff[x] == f else f == FieldDiff([], [])
  {
    var d := ManyOf(sha1, schema, s, cur, model, attributes, x);
    var e := ManyOf(sha1, schema, s, prev, model, attributes, x);
    if cur == prev || s.rows[cur].mtHash == s.rows[prev].mtHash {
      assert cur == prev;
      var ids := IdsOf(schema, s, cur, x);
      Inhabited(Minus(ids, ids));
    } else {
      DiffFieldsAt(schema, s, s.rows[cur], s.rows[prev], schema[model], d);
    }
  }

  /** Replaying the events of one attribute turns the old collection into the new one. */
  lemma {:induction false} ReplayAttribute(sha1: Sha1, schema: Schema, s: Store, cur: nat, prev: nat, model: string,
      attributes: seq<string>, x: string, c: Collections)
    requires Setting(sha1, schema, s) && x in attributes
    requires Comparable(sha1, schema, s, cur, model, attributes) && Comparable(sha1, schema, s, prev, model, attributes)
    requires EventAttr(x) in c && c[EventAttr(x)] == ValueSet(SerializedEach(schema, s, IdsOf(schema, s, prev, x)))
    ensures Replay(c, AttributeEvents(Diff(schema, s, cur, prev), x)) ==
            c[EventAttr(x) := ValueSet(SerializedEach(schema, s, IdsOf(schema, s, cur, x)))]
  {
    var d := ManyOf(sha1, schema, s, cur, model, attributes, x);
    var e := ManyOf(sha1, schema, s, prev, model, attributes, x);
    var a, b := IdsOf(schema, s, cur, x), IdsOf(schema, s, prev, x);
    DiffOfMany(sha1, schema, s, cur, prev, model, attributes, x);
    SerializedMinus(sha1, schema, s, d.kind.related, a, b);
    SerializedMinus(sha1, schema, s, d.kind.related, b, a);
    AddThenRemove(c, EventAttr(x), SerializedEach(schema, s, Minus(a, b)), SerializedEach(schema, s, Minus(b, a)),
                  ValueSet(SerializedEach(schema, s, a)));
  }

  lemma {:induction false} AddThenRemove(c: Collections, attr: string, added: seq<Value>, removed: seq<Value>,
      wanted: set<Value>)
    requires attr in c
    requires ValueSet(added) == wanted - c[attr] && ValueSet(removed) == c[attr] - wanted
    ensures Replay(c, EventsFor(Add, attr, added) + EventsFor(Remove, attr, removed)) == c[attr := wanted]
    ensures added == [] && removed == [] ==> c == c[attr := wanted]
  {
    ReplayAdds(c, attr, added);
    var half := c[attr := c[attr] + ValueSet(added)];
    ReplayRemoves(half, attr, removed);
    ReplayConcat(c, EventsFor(Add, attr, added), EventsFor(Remove, attr, removed));
    assert (c[attr] + (wanted - c[attr])) - (c[attr] - wanted) == wanted;
    if added == [] && removed == [] {
      assert wanted - c[attr] == {} && c[attr] - wanted == {};
      assert wanted == c[attr];
    }
  }

  lemma {:induction false} CollectionsAt(schema: Schema, s: Store, id: nat, attributes: seq<string>, x: string)
    requires id in s.rows && s.rows[id].model in schema && Plurals(attributes) && x in attributes
    ensures EventAttr(x) in CollectionsOf(schema, s, id, attributes)
    ensures CollectionsOf(schema, s, id, attributes)[EventAttr(x)] ==
            ValueSet(SerializedEach(schema, s, IdsOf(schema, s, id, x)))
  {
    var front, last := attributes[..|attributes| - 1], attributes[|attributes| - 1];
    assert attributes == front + [last];
    CollectionsSnoc(schema, s, id, front, last);
    if x != last {
      if EventAttr(x) == EventAttr(last) {
        PluralsDiffer(x, last);
      }
      CollectionsAt(schema, s, id, front, x);
    }
  }

  lemma {:induction false} CollectionsSnoc(schema: Schema, s: Store, id: nat, front: seq<string>, last: string)
    requires id in s.rows && s.rows[id].model in schema
    ensures CollectionsOf(schema, s, id, front + [last]) ==
            CollectionsOf(schema, s, id, front)
              [EventAttr(last) := ValueSet(SerializedEach(schema, s, IdsOf(schema, s, id, last)))]
  {
    assert (front + [last])[..|front|] == front;
  }

  lemma {:induction false} CollectionNames(schema: Schema, s: Store, id: nat, attributes: seq<string>)
    requires id in s.rows && s.rows[id].model in schema
    ensures forall name :: name in CollectionsOf(schema, s, id, attributes) <==>
        exists x :: x in attributes && EventAttr(x) == name
  {
    if attributes != [] {
      var front, last := attributes[..|attributes| - 1], attributes[|attributes| - 1];
      CollectionNames(schema, s, id, front);
      assert forall x :: x in attributes <==> x in front || x == last;
    }
  }

  /** The collections while the events of a commit are replayed: the first `done`
      attributes are those of `cur`, the others still those of `prev`. */
  ghost function Between(schema: Schema, s: Store, cur: nat, prev: nat, all: seq<string>,
      done: seq<string>): Collections
    requires cur in s.rows && s.rows[cur].model in schema
    requires prev in s.rows && s.rows[prev].model in schema
  {
    CollectionsOf(schema, s, prev, all) + CollectionsOf(schema, s, cur, done)
  }

  lemma {:induction false} CollectionEventsNext(diff: map<string, FieldDiff>, all: seq<string>, n: nat)
    requires n < |all|
    ensures CollectionEvents(diff, all[..n + 1]) == CollectionEvents(diff, all[..n]) + AttributeEvents(diff, all[n])
  {
    assert all[..n + 1][..n] == all[..n];
  }

  /** The events of the n-th attribute do their part. */
  ghost predicate Replays(schema: Schema, s: Store, cur: nat, prev: nat, all: seq<string>, n: nat)
    requires cur in s.rows && s.rows[cur].model in schema && prev in s.rows && s.rows[prev].model in schema && n < |all|
  {
    Replay(Between(schema, s, cur, prev, all, all[..n]), AttributeEvents(Diff(schema, s, cur, prev), all[n])) ==
    Between(schema, s, cur, prev, all, all[..n + 1])
  }

  lemma {:induction false} ReplayPart(schema: Schema, s: Store, cur: nat, prev: nat, all: seq<string>, n: nat)
    requires cur in s.rows && s.rows[cur].model in schema && prev in s.rows && s.rows[prev].model in schema &&
             n <= |all|
    requires forall i | 0 <= i < n :: Replays(schema, s, cur, prev, all, i)
    ensures Replay(CollectionsOf(schema, s, prev, all), CollectionEvents(Diff(schema, s, cur, prev), all[..n])) ==
            Between(schema, s, cur, prev, all, all[..n])
  {
    var start, diff := CollectionsOf(schema, s, prev, all), Diff(schema, s, cur, prev);
    if n > 0 {
      ReplayPart(schema, s, cur, prev, all, n - 1);
      CollectionEventsNext(diff, all, n - 1);
      ReplayConcat(start, CollectionEvents(diff, all[..n - 1]), AttributeEvents(diff, all[n - 1]));
      assert Replays(schema, s, cur, prev, all, n - 1);
    } else {
      assert all[..0] == [];
    }
  }

  lemma {:induction false} ReplayNext(sha1: Sha1, schema: Schema, s: Store, cur: nat, prev: nat, model: string,
      all: seq<string>, n: nat)
    requires Setting(sha1, schema, s) && Plurals(all) && n < |all|
    requires Comparable(sha1, schema, s, cur, model, all) && Comparable(sha1, schema, s, prev, model, all)
    ensures Replays(schema, s, cur, prev, all, n)
  {
    BetweenNext(schema, s, cur, prev, all, n);
    CollectionsAt(schema, s, prev, all, all[n]);
    NotYetReplayed(schema, s, cur, all, n);
    ReplayAttribute(sha1, schema, s, cur, prev, model, all, all[n], Between(schema, s, cur, prev, all, all[..n]));
  }

  lemma {:induction false} BetweenNext(schema: Schema, s: Store, cur: nat, prev: nat, all: seq<string>, n: nat)
    requires cur in s.rows && s.rows[cur].model in schema && prev in s.rows && s.rows[prev].model in schema && n < |all|
    ensures Between(schema, s, cur, prev, all, all[..n + 1]) ==
            Between(schema, s, cur, prev, all, all[..n])[
              EventAttr(all[n]) := ValueSet(SerializedEach(schema, s, IdsOf(schema, s, cur, all[n])))]
  {
    assert all[..n + 1] == all[..n] + [all[n]] && all[..n + 1][..n] == all[..n];
  }

  lemma {:induction false} NotYetReplayed(schema: Schema, s: Store, cur: nat, all: seq<string>, n: nat)
    requires cur in s.rows && s.rows[cur].model in schema && Plurals(all) && n < |all|
    ensures EventAttr(all[n]) !in CollectionsOf(schema, s, cur, all[..n])
  {
    CollectionNames(schema, s, cur, all[..n]);
    if EventAttr(all[n]) in CollectionsOf(schema, s, cur, all[..n]) {
      var x :| x in all[..n] && EventAttr(x) == EventAttr(all[n]);
      PluralsDiffer(x, all[n]);
      assert false;
    }
  }

  lemma {:induction false} SameNames(schema: Schema, s: Store, cur: nat, prev: nat, attributes: seq<string>)
    requires cur in s.rows && s.rows[cur].model in schema && prev in s.rows && s.rows[prev].model in schema
    ensures Between(schema, s, cur, prev, attributes, attributes) == CollectionsOf(schema, s, cur, attributes)
  {
    CollectionNames(schema, s, cur, attributes);
    CollectionNames(schema, s, prev, attributes);
  }

  ghost predicate ReplaysTo(schema: Schema, s: Store, cur: nat, prev: nat, attributes: seq<string>)
    requires cur in s.rows && s.rows[cur].model in schema && prev in s.rows && s.rows[prev].model in schema
  {
    Replay(CollectionsOf(schema, s, prev, attributes), CollectionEvents(Diff(schema, s, cur, prev), attributes)) ==
    CollectionsOf(schema, s, cur, attributes)
  }

  /** Replaying the collection events of a commit turns the collections of its parent's
      snapshot into its own. */
  lemma {:induction false} ReplayCommit(sha1: Sha1, schema: Schema, s: Store, cur: nat, prev: nat, model: string,
      attributes: seq<string>)
    requires Setting(sha1, schema, s) && Plurals(attributes)
    requires Comparable(sha1, schema, s, cur, model, attributes) && Comparable(sha1, schema, s, prev, model, attributes)
    ensures ReplaysTo(schema, s, cur, prev, attributes)
  {
    forall i | 0 <= i < |attributes| ensures Replays(schema, s, cur, prev, attributes, i) {
      ReplayNext(sha1, schema, s, cur, prev, model, attributes, i);
    }
    ReplayPart(schema, s, cur, prev, attributes, |attributes|);
    assert attributes[..|attributes|] == attributes;
    SameNames(schema, s, cur, prev, attributes);
  }

  // ----- a chain of commits -----

  /** The collection events sent for versions 2 to n, given the snapshot of each version. */
  ghost function ChainEvents(schema: Schema, s: Store, versions: seq<nat>, attributes: seq<string>): seq<Event>
    requires forall v | v in versions :: v in s.rows && s.rows[v].model in schema
  {
    if |versions| <= 1 then []
    else
      ChainEvents(schema, s, versions[..|versions| - 1], attributes)
      + CollectionEvents(Diff(schema, s, versions[|versions| - 1], versions[|versions| - 2]), attributes)
  }

  lemma {:induction false} ReplaySteps(schema: Schema, s: Store, versions: seq<nat>, attributes: seq<string>)
    requires versions != [] && forall v | v in versions :: v in s.rows && s.rows[v].model in schema
    requires forall k | 0 < k < |versions| :: ReplaysTo(schema, s, versions[k], versions[k - 1], attributes)
    ensures Replay(CollectionsOf(schema, s, versions[0], attributes), ChainEvents(schema, s, versions, attributes)) ==
            CollectionsOf(schema, s, versions[|versions| - 1], attributes)
  {
    if |versions| > 1 {
      var front := versions[..|versions| - 1];
      var cur, prev := versions[|versions| - 1], versions[|versions| - 2];
      forall k | 0 < k < |front| ensures ReplaysTo(schema, s, front[k], front[k - 1], attributes) {
        assert front[k] == versions[k] && front[k - 1] == versions[k - 1];
      }
      ReplaySteps(schema, s, front, attributes);
      ReplayConcat(CollectionsOf(schema, s, versions[0], attributes),
                   ChainEvents(schema, s, front, attributes), CollectionEvents(Diff(schema, s, cur, prev), attributes));
      assert front[0] == versions[0] && front[|front| - 1] == prev;
      assert ReplaysTo(schema, s, versions[|versions| - 1], versions[|versions| - 1 - 1], attributes);
    }
  }

  /** Replaying the events of versions 2 to n over the collections of version 1 gives
      those of version n. */
  lemma {:induction false} ReplayChain(sha1: Sha1, schema: Schema, s: Store, versions: seq<nat>, model: string,
      attributes: seq<string>)
    requires Setting(sha1, schema, s) && Plurals(attributes) && versions != []
    requires forall v | v in versions :: Comparable(sha1, schema, s, v, model, attributes)
    ensures forall v | v in versions :: v in s.rows && s.rows[v].model in schema
    ensures Replay(CollectionsOf(schema, s, versions[0], attributes), ChainEvents(schema, s, versions, attributes)) ==
            CollectionsOf(schema, s, versions[|versions| - 1], attributes)
  {
    assert forall v | v in versions :: v in s.rows && s.rows[v].model in schema;
    forall k | 0 < k < |versions| ensures ReplaysTo(schema, s, versions[k], versions[k - 1], attributes) {
      ReplayCommit(sha1, schema, s, versions[k], versions[k - 1], model, attributes);
    }
    ReplaySteps(schema, s, versions, attributes);
  }

  // ----- one event for each element -----

  lemma {:induction false} EventsNoDuplicates(action: Action, attr: string, payloads: seq<Value>)
    requires NoDuplicates(payloads)
    ensures NoDuplicates(EventsFor(action, attr, payloads))
    ensures forall v :: Event(action, attr, v) in EventsFor(action, attr, payloads) <==> v in payloads
  {
    var events := EventsFor(action, attr, payloads);
    forall v ensures Event(action, attr, v) in events <==> v in payloads {
      if v in payloads {
        var i :| 0 <= i < |payloads| && payloads[i] == v;
        assert events[i] == Event(action, attr, v);
      }
    }
  }

  lemma {:induction false} NoDuplicatesConcat<T>(a: seq<T>, b: seq<T>)
    requires NoDuplicates(a) && NoDuplicates(b) && forall x | x in a :: x !in b
    ensures NoDuplicates(a + b)
  {
    var c := a + b;
    forall i, j | 0 <= i < j < |c| ensures c[i] != c[j] {
      if i < |a| <= j {
        assert a[i] in a && b[j - |a|] in b;
      }
    }
  }

  /** One event for each element of the two sets, and no other. */
  ghost predicate ExactlyEvents(events: seq<Event>, attr: string, added: set<Value>, removed: set<Value>) {
    && NoDuplicates(events)
    && (forall e | e in events :: e.attr == attr)
    && (forall v :: Event(Add, attr, v) in events <==> v in added)
    && (forall v :: Event(Remove, attr, v) in events <==> v in removed)
  }

  /** The events of an attribute: exactly one for each element added or removed. */
  lemma {:induction false} AttributeEventsExact(sha1: Sha1, schema: Schema, s: Store, cur: nat, prev: nat,
      model: string, attributes: seq<string>, x: string)
    requires Setting(sha1, schema, s) && x in attributes
    requires Comparable(sha1, schema, s, cur, model, attributes) && Comparable(sha1, schema, s, prev, model, attributes)
    ensures var a := ValueSet(SerializedEach(schema, s, IdsOf(schema, s, cur, x)));
            var b := ValueSet(SerializedEach(schema, s, IdsOf(schema, s, prev, x)));
            ExactlyEvents(AttributeEvents(Diff(schema, s, cur, prev), x), EventAttr(x), a - b, b - a)
  {
    var d := ManyOf(sha1, schema, s, cur, model, attributes, x);
    var e := ManyOf(sha1, schema, s, prev, model, attributes, x);
    var a, b := IdsOf(schema, s, cur, x), IdsOf(schema, s, prev, x);
    DiffOfMany(sha1, schema, s, cur, prev, model, attributes, x);
    SerializedMinus(sha1, schema, s, d.kind.related, a, b);
    SerializedMinus(sha1, schema, s, d.kind.related, b, a);
    SplitEvents(EventAttr(x), SerializedEach(schema, s, Minus(a, b)), SerializedEach(schema, s, Minus(b, a)));
  }

  lemma {:induction false} SplitEvents(attr: string, added: seq<Value>, removed: seq<Value>)
    requires NoDuplicates(added) && NoDuplicates(removed)
    ensures var events := EventsFor(Add, attr, added) + EventsFor(Remove, attr, removed);
            && ExactlyEvents(events, attr, ValueSet(added), ValueSet(removed))
            && (added == [] && removed == [] ==> events == [])
  {
    EventsNoDuplicates(Add, attr, added);
    EventsNoDuplicates(Remove, attr, removed);
    NoDuplicatesConcat(EventsFor(Add, attr, added), EventsFor(Remove, attr, removed));
  }

  /** The events of a whole commit: one for each element of each symmetric difference. */
  lemma {:induction false} CollectionEventsExact(sha1: Sha1, schema: Schema, s: Store, cur: nat, prev: nat,
      model: string, all: seq<string>, n: nat)
    requires Setting(sha1, schema, s) && Plurals(all) && n <= |all|
    requires Comparable(sha1, schema, s, cur, model, all) && Comparable(sha1, schema, s, prev, model, all)
    ensures var events := CollectionEvents(Diff(schema, s, cur, prev), all[..n]);
            && NoDuplicates(events)
            && forall e :: e in events <==>
                exists x :: x in all[..n] && e in AttributeEvents(Diff(schema, s, cur, prev), x)
  {
    if n > 0 {
      var diff := Diff(schema, s, cur, prev);
      var front, last := all[..n - 1], all[n - 1];
      assert all[..n] == front + [last];
      CollectionEventsNext(diff, all, n - 1);
      CollectionEventsExact(sha1, schema, s, cur, prev, model, all, n - 1);
      AttributeEventsExact(sha1, schema, s, cur, prev, model, all, last);
      var before, these := CollectionEvents(diff, front), AttributeEvents(diff, last);
      forall e | e in before ensures e !in these {
        var x :| x in front && e in AttributeEvents(diff, x);
        AttributeEventsExact(sha1, schema, s, cur, prev, model, all, x);
        if e in these {
          PluralsDiffer(x, last);
          assert false;
        }
      }
      NoDuplicatesConcat(before, these);
      assert forall x :: x in all[..n] <==> x in front || x == last;
    }
  }

  /** The attributes the events are sent for are all plurals. */
  lemma {:induction false} SnapshotAttributesArePlurals()
    ensures Plurals(M2M_ATTRIBUTES)
  {
  }
}
