/** The content-addressed tables of zentral/utils/mt_models.py: `commit` and the
    hash of a stored object. */
module ObjectStore {
  import opened Wrappers
  import opened Sequences
  import opened CommitTrees
  import opened CommitTreeLaws
  import opened SealedTrees

  // ----- models and tables -----

  /** What `Field.clean` makes of a value: the cleaned value, or a validation error. */
  type Clean = Value -> Option<Value>

  /** `unset` is the attribute of a new object that was not given a value. JSON fields
      may all be blank. */
  datatype Kind =
    | Scalar(unset: Value, clean: Clean)
    | Json
    | ForeignKey(related: string, mandatory: bool)
    | ManyToMany(related: string)

  /** A model field that is neither excluded from the hash nor auto created. */
  datatype FieldDef = FieldDef(name: string, kind: Kind)

  type Schema = map<string, seq<FieldDef>>

  datatype Stored = Plainly(v: Value) | AsJson(v: Value) | Reference(id: Option<nat>) | References(ids: seq<nat>)

  /** `vals` holds the fields that were set. */
  datatype Row = Row(model: string, mtHash: string, vals: map<string, Stored>)

  /** All tables together; row ids are given out in increasing order. */
  datatype Store = Store(rows: map<nat, Row>, next: nat)

  datatype CommitError =
    | BadTree(error: TreeError)
    | UnknownModel
    | UnknownField
    | WrongKind
    | Invalid                     // by `save` or `full_clean`, which are rolled back
    | BadHash(error: TreeError)   // the row is stored, but cannot be hashed
    | HashMismatch                // the row is stored, with another hash

  datatype Outcome = Outcome(store: Store, result: Result<(nat, bool), CommitError>)

  function FindDef(defs: seq<FieldDef>, name: string): (r: Option<FieldDef>)
    ensures r.Some? ==> r.value in defs && r.value.name == name
    ensures r.None? ==> forall d | d in defs :: d.name != name
  {
    if defs == [] then None
    else if defs[|defs| - 1].name == name then Some(defs[|defs| - 1])
    else FindDef(defs[..|defs| - 1], name)
  }

  /** The attribute of an object, set or not. */
  function Attribute(row: Row, d: FieldDef): Stored {
    if d.name in row.vals then row.vals[d.name]
    else match d.kind
      case Scalar(unset, _) => Plainly(unset)
      case Json => AsJson(Null)
      case ForeignKey(_, _) => Reference(None)
      case ManyToMany(_) => References([])
  }

  // ----- full_clean -----

  function Cleaned(d: FieldDef, a: Stored): Option<Stored> {
    match d.kind
    case Scalar(_, clean) =>
      if !a.Plainly? then Some(a)
      else if clean(a.v).None? then None
      else Some(Plainly(clean(a.v).value))
    case ForeignKey(_, mandatory) => if mandatory && a == Reference(None) then None else Some(a)
    case _ => Some(a)
  }

  /** The row with every attribute replaced by its cleaned value. */
  function FullClean(row: Row, defs: seq<FieldDef>): (r: Option<Row>)
    ensures r.Some? ==> r.value.model == row.model && r.value.mtHash == row.mtHash
  {
    if defs == [] then Some(row)
    else
      var d := defs[|defs| - 1];
      var front, a := FullClean(row, defs[..|defs| - 1]), Cleaned(d, Attribute(row, d));
      if front.None? || a.None? then None else Some(front.value.(vals := front.value.vals[d.name := a.value]))
  }

  ghost predicate IsRow(s: Store, model: string, hash: string, id: nat) {
    id in s.rows && s.rows[id].model == model && s.rows[id].mtHash == hash
  }

  /** `self.get(mt_hash=hash)` */
  ghost function Find(s: Store, model: string, hash: string): (r: Option<nat>)
    ensures r.Some? ==> IsRow(s, model, hash, r.value)
    ensures r.None? ==> forall id: nat :: !IsRow(s, model, hash, id)
  {
    if exists id: nat :: IsRow(s, model, hash, id) then
      var id: nat :| IsRow(s, model, hash, id);
      Some(id)
    else None
  }

  // ----- hash(recursive=False) -----

  function RowHashes(s: Store, ids: seq<nat>): seq<Value> {
    Map((id: nat) => if id in s.rows then Str(s.rows[id].mtHash) else Null, ids)
  }

  /** What `add_field` is called with for an attribute. */
  ghost function HashedValue(sha1: Sha1, s: Store, a: Stored): Result<Value, TreeError> {
    match a
    case Plainly(v) => Ok(v)
    case AsJson(v) => if Truthy(v) then RootHash(sha1, v) else Ok(v)
    case Reference(None) => Ok(Null)
    case Reference(Some(id)) => Ok(if id in s.rows then Str(s.rows[id].mtHash) else Null)
    case References(ids) => Ok(List(RowHashes(s, ids)))
  }

  ghost function ShallowFields(sha1: Sha1, s: Store, row: Row,
      defs: seq<FieldDef>): Result<map<string, Field>, TreeError> {
    if defs == [] then Ok(map[])
    else
      var d := defs[|defs| - 1];
      var fields :- ShallowFields(sha1, s, row, defs[..|defs| - 1]);
      AddedField(sha1, s, Attribute(row, d), d.name, fields)
  }

  ghost function AddedField(sha1: Sha1, s: Store, a: Stored, name: string,
      fields: map<string, Field>): Result<map<string, Field>, TreeError> {
    var v :- HashedValue(sha1, s, a);
    AddTo(fields, name, v)
  }

  lemma {:induction false} ShallowSnoc(sha1: Sha1, s: Store, row: Row, front: seq<FieldDef>, last: FieldDef)
    ensures var before := ShallowFields(sha1, s, row, front);
            ShallowFields(sha1, s, row, front + [last]) ==
            if before.Err? then before else AddedField(sha1, s, Attribute(row, last), last.name, before.value)
  {
    assert (front + [last])[..|front|] == front;
  }

  ghost function ShallowHash(sha1: Sha1, schema: Schema, s: Store, row: Row): Result<Hex, TreeError>
    requires row.model in schema
  {
    var fields :- ShallowFields(sha1, s, row, schema[row.model]);
    Ok(Digest(sha1, FeedOf(fields)))
  }

  // ----- commit -----

  ghost function Commit(sha1: Sha1, schema: Schema, s: Store, model: string, tree: Value): Outcome {
    match Prepare(sha1, tree)
    case Err(e) => Outcome(s, Err(BadTree(e)))
    case Ok(t) => CommitPrepared(sha1, schema, s, model, t)
  }

  /** `commit` of a tree that holds its hash already. */
  ghost function CommitPrepared(sha1: Sha1, schema: Schema, s: Store, model: string, t: Value): Outcome
    decreases t, 1
  {
    if !t.Dict? then Outcome(s, Err(BadTree(NotADict)))
    else if model !in schema then Outcome(s, Err(UnknownModel))
    else
      var found := Find(s, model, HashTextIn(t));
      if found.Some? then Outcome(s, Ok((found.value, false)))
      else
        var b := Build(sha1, schema, s, schema[model], t.items);
        match b.vals
        case Err(e) => Outcome(b.store, Err(e))
        case Ok(vals) => Save(sha1, schema, b.store, Row(model, HashTextIn(t), vals))
  }

  /** The attributes set in the loop over `tree.items()`, the subtrees committed on the way. */
  datatype Built = Built(store: Store, vals: Result<map<string, Stored>, CommitError>)

  ghost function Build(sha1: Sha1, schema: Schema, s: Store, defs: seq<FieldDef>, items: seq<Item>): Built
    decreases items, 0
  {
    if items == [] then Built(s, Ok(map[]))
    else
      var last := items[|items| - 1];
      var b := Build(sha1, schema, s, defs, items[..|items| - 1]);
      if b.vals.Err? || last.key == MT_HASH then b
      else
        var a := StoredFor(sha1, schema, b.store, FindDef(defs, last.key), last.val);
        Built(a.store, if a.stored.Ok? then Ok(b.vals.value[last.key := a.stored.value]) else Err(a.stored.error))
  }

  datatype StoredValue = StoredValue(store: Store, stored: Result<Stored, CommitError>)

  ghost function StoredFor(sha1: Sha1, schema: Schema, s: Store, d: Option<FieldDef>, v: Value): StoredValue
    decreases v, 2
  {
    if d.None? then StoredValue(s, Err(UnknownField))
    else
      match v
      case Dict(_) =>
        if d.value.kind.Json? then StoredValue(s, Ok(AsJson(Cleanup(v))))
        else if d.value.kind.ForeignKey? then
          var o := CommitPrepared(sha1, schema, s, d.value.kind.related, v);
          StoredValue(o.store, if o.result.Ok? then Ok(Reference(Some(o.result.value.0))) else Err(o.result.error))
        else StoredValue(s, Err(WrongKind))
      case List(elems) =>
        if d.value.kind.ManyToMany? then
          var l := CommitEach(sha1, schema, s, d.value.kind.related, elems);
          StoredValue(l.store, if l.ids.Ok? then Ok(References(Distinct(l.ids.value))) else Err(l.ids.error))
        else StoredValue(s, Err(WrongKind))
      case _ =>
        if d.value.kind.Scalar? then StoredValue(s, Ok(Plainly(v)))
        else if d.value.kind.Json? then StoredValue(s, Ok(AsJson(v)))
        else StoredValue(s, Err(WrongKind))
  }

  datatype Committed = Committed(store: Store, ids: Result<seq<nat>, CommitError>)

  ghost function CommitEach(sha1: Sha1, schema: Schema, s: Store, model: string, elems: seq<Value>): Committed
    decreases elems, 0
  {
    if elems == [] then Committed(s, Ok([]))
    else
      var l := CommitEach(sha1, schema, s, model, elems[..|elems| - 1]);
      if l.ids.Err? then l
      else
        var o := CommitPrepared(sha1, schema, l.store, model, elems[|elems| - 1]);
        Committed(o.store, if o.result.Ok? then Ok(l.ids.value + [o.result.value.0]) else Err(o.result.error))
  }

  /** `obj.save()` and what follows. A hash that is taken by now means that the object
      was created in between. What a saved value reads like from the database is its
      cleaned form. The hash is only checked once the row is stored. */
  ghost function Save(sha1: Sha1, schema: Schema, s: Store, row: Row): Outcome
    requires row.model in schema
  {
    var found := Find(s, row.model, row.mtHash);
    if found.Some? then Outcome(s, Ok((found.value, false)))
    else
      match FullClean(row, schema[row.model])
      case None => Outcome(s, Err(Invalid))
      case Some(cleaned) => Checked(sha1, schema, s, cleaned)
  }

  /** The store with one more row. */
  function WithRow(s: Store, row: Row): Store {
    Store(s.rows[s.next := row], s.next + 1)
  }

  /** The hash check of the stored row. */
  ghost function Checked(sha1: Sha1, schema: Schema, s: Store, row: Row): Outcome
    requires row.model in schema
  {
    var saved := WithRow(s, row);
    match ShallowHash(sha1, schema, saved, row)
    case Err(e) => Outcome(saved, Err(BadHash(e)))
    case Ok(h) => Outcome(saved, if h == row.mtHash then Ok((s.next, true)) else Err(HashMismatch))
  }

  // ----- invariant -----

  /** Names are distinct, and scalar fields are never cleaned to lists or dicts. */
  ghost predicate GoodSchema(schema: Schema) {
    forall m | m in schema :: DistinctNames(schema[m]) && forall d | d in schema[m] :: GoodClean(d)
  }

  ghost predicate GoodClean(d: FieldDef) {
    d.kind.Scalar? ==> forall v :: d.kind.clean(v).Some? ==>
        !d.kind.clean(v).value.Dict? && !d.kind.clean(v).value.List?
  }

  ghost predicate DistinctNames(defs: seq<FieldDef>) {
    && (forall i | 0 <= i < |defs| :: defs[i].name != "" && defs[i].name != MT_HASH)
    && forall i, j :: 0 <= i < j < |defs| ==> defs[i].name != defs[j].name
  }

  /** A reference points to an older row of the related model. */
  ghost predicate RefersTo(s: Store, id: nat, related: string, target: nat) {
    target in s.rows && target < id && s.rows[target].model == related
  }

  ghost predicate IsScalar(v: Value) {
    !v.Dict? && !v.List? && !v.Other?
  }

  ghost predicate Typed(sha1: Sha1, s: Store, id: nat, d: FieldDef, a: Stored) {
    match d.kind
    case Scalar(_, _) => a.Plainly? && IsScalar(a.v)
    case Json =>
      a.AsJson? && if a.v.Dict? then Plain(a.v) && Prepare(sha1, a.v).Ok? else IsScalar(a.v) && !Truthy(a.v)
    case ForeignKey(related, mandatory) =>
      a.Reference? && (if a.id.Some? then RefersTo(s, id, related, a.id.value) else !mandatory)
    case ManyToMany(related) =>
      a.References? && NoDuplicates(a.ids) && forall t | t in a.ids :: RefersTo(s, id, related, t)
  }

  ghost predicate RowOk(sha1: Sha1, schema: Schema, s: Store, id: nat)
    requires id in s.rows
  {
    var row := s.rows[id];
    && id < s.next
    && |row.mtHash| == 40
    && row.model in schema
    && (forall d | d in schema[row.model] :: Typed(sha1, s, id, d, Attribute(row, d)))
    && ShallowHash(sha1, schema, s, row) == Ok(row.mtHash)
  }

  ghost predicate Unique(s: Store) {
    forall i, j | i in s.rows && j in s.rows && s.rows[i].model == s.rows[j].model &&
        s.rows[i].mtHash == s.rows[j].mtHash ::
      i == j
  }

  /** `mt_hash` is unique per model, references are present, and every stored object
      hashes to its `mt_hash`. */
  ghost predicate Inv(sha1: Sha1, schema: Schema, s: Store) {
    Unique(s) && forall id {:trigger RowOk(sha1, schema, s, id)} | id in s.rows :: RowOk(sha1, schema, s, id)
  }

  ghost predicate Extends(s: Store, t: Store) {
    s.next <= t.next && forall id | id in s.rows :: id in t.rows && t.rows[id] == s.rows[id]
  }
}
