/** Commit trees of zentral/utils/mt_models.py: nested dicts that are pruned and
    hashed bottom-up. SHA-1 is a parameter: any function from the text fed to it
    to a 40 character digest. */
module CommitTrees {
  import opened Wrappers
  import opened Strings
  import Decimal

  type Hex = s: string | |s| == 40 witness "0000000000000000000000000000000000000000"

  /** `hashlib.sha1(text).hexdigest()` */
  type Sha1 = string -> Hex

  const MT_HASH := "mt_hash"

  /** The values found in a tree. A `Date` holds the ISO text of its naive form;
      `Other` stands for every type the hasher refuses. */
  datatype Value =
    | Null
    | Bool(b: bool)
    | Int(n: int)
    | Str(s: string)
    | Date(iso: string, aware: bool)
    | Other(truthy: bool)
    | List(elems: seq<Value>)
    | Dict(items: seq<Item>)

  /** Python dicts keep their insertion order. */
  datatype Item = Item(key: string, val: Value)

  datatype TreeError =
    | NotADict
    | DuplicatedSubtree
    | InvalidFieldName
    | FieldAlreadyAdded
    | InvalidFieldValue
    | NotAHash

  // ----- dict primitives -----

  function Lookup(items: seq<Item>, key: string): Option<Value> {
    if items == [] then None
    else if items[0].key == key then Some(items[0].val)
    else Lookup(items[1..], key)
  }

  /** `d[key] = val` */
  function Put(items: seq<Item>, key: string, val: Value): (r: seq<Item>) {
    if items == [] then [Item(key, val)]
    else if items[0].key == key then [Item(key, val)] + items[1..]
    else [items[0]] + Put(items[1..], key, val)
  }

  /** `d.pop(key, None)` */
  function Pop(items: seq<Item>, key: string): (r: seq<Item>) {
    if items == [] then []
    else if items[0].key == key then items[1..]
    else [items[0]] + Pop(items[1..], key)
  }

  ghost predicate DistinctKeys(items: seq<Item>) {
    forall i, j :: 0 <= i < j < |items| ==> items[i].key != items[j].key
  }

  /** `bool(v)` */
  predicate Truthy(v: Value) {
    match v
    case Null => false
    case Bool(b) => b
    case Int(n) => n != 0
    case Str(s) => s != ""
    case Date(_, _) => true
    case Other(t) => t
    case List(elems) => elems != []
    case Dict(items) => items != []
  }

  predicate IsEmptyValue(v: Value) {
    v == Null || v == List([]) || v == Dict([])
  }

  // ----- Hasher -----

  /** A value kept in `Hasher.fields`. */
  datatype Field = Text(s: string) | Hashes(hashes: seq<string>)

  predicate IsHash(v: Value) {
    v.Str? && |v.s| == 40
  }

  /** The texts of a list of hashes. */
  function Texts(hashes: seq<Value>): (r: seq<string>)
    requires forall i | 0 <= i < |hashes| :: IsHash(hashes[i])
    ensures |r| == |hashes|
    ensures forall i | 0 <= i < |hashes| :: Str(r[i]) == hashes[i]
  {
    if hashes == [] then []
    else
      var last := hashes[|hashes| - 1];
      assert IsHash(last);
      Texts(hashes[..|hashes| - 1]) + [last.s]
  }

  /** The conversions of `add_field` for a non-empty value. */
  function FieldOf(v: Value): Result<Field, TreeError> {
    match v
    case Bool(b) => Ok(Text(if b then "True" else "False"))
    case Int(n) => Ok(Text(Decimal.Str(n)))
    case Str(s) => Ok(Text(s))
    case Date(iso, _) => Ok(Text(iso))
    case List(es) =>
      if forall i | 0 <= i < |es| :: IsHash(es[i]) then Ok(Hashes(Texts(es))) else Err(NotAHash)
    case _ => Err(InvalidFieldValue)
  }

  /** The chunks the digest is fed after the name of a field. */
  function Chunks(f: Field): seq<string> {
    match f
    case Text(s) => [s]
    case Hashes(hs) => Sort(hs)
  }

  type Feed = map<string, seq<string>>

  ghost function FeedOf(fields: map<string, Field>): Feed {
    map k | k in fields :: Chunks(fields[k])
  }

  function Concat(chunks: seq<string>): string {
    if chunks == [] then "" else chunks[0] + Concat(chunks[1..])
  }

  lemma {:induction false} ConcatSnoc(chunks: seq<string>, c: string)
    ensures Concat(chunks + [c]) == Concat(chunks) + c
  {
    if chunks == [] {
      assert [c][1..] == [];
    } else {
      assert (chunks + [c])[1..] == chunks[1..] + [c];
      ConcatSnoc(chunks[1..], c);
    }
  }

  /** All the text fed to SHA-1: the given keys in order, each followed by its chunks. */
  ghost function FedText(keys: seq<string>, feed: Feed): string {
    if keys == [] then ""
    else
      var k := keys[|keys| - 1];
      FedText(keys[..|keys| - 1], feed) + k + (if k in feed then Concat(feed[k]) else "")
  }

  ghost function Digest(sha1: Sha1, feed: Feed): Hex {
    sha1(FedText(SortedKeys(feed.Keys), feed))
  }

  /** `Hasher.fields` after `add_field(k, v)`. */
  function AddTo(fields: map<string, Field>, k: string, v: Value): Result<map<string, Field>, TreeError> {
    if k == "" then Err(InvalidFieldName)
    else if k in fields then Err(FieldAlreadyAdded)
    else if IsEmptyValue(v) then Ok(fields)
    else
      var f :- FieldOf(v);
      Ok(fields[k := f])
  }

  class Hasher {
    var fields: map<string, Field>

    constructor ()
      ensures fields == map[]
    {
      fields := map[];
    }

    method AddField(k: string, v: Value) returns (r: Result<(), TreeError>)
      modifies this
      ensures match AddTo(old(fields), k, v)
              case Ok(added) => r == Ok(()) && fields == added
              case Err(e) => r == Err(e) && fields == old(fields)
    {
      if k == "" {
        return Err(InvalidFieldName);
      }
      if k in fields {
        return Err(FieldAlreadyAdded);
      }
      if IsEmptyValue(v) {
        return Ok(());
      }
      match FieldOf(v) {
        case Ok(f) =>
          fields := fields[k := f];
          return Ok(());
        case Err(e) =>
          return Err(e);
      }
    }

    method HexDigest(sha1: Sha1) returns (h: Hex)
      ensures h == Digest(sha1, FeedOf(fields))
    {
      var keys := SortedListing(fields.Keys);
      assert FeedOf(fields).Keys == fields.Keys;
      var text := FeedFields(keys, fields);
      h := sha1(text);
    }
  }

  method FeedFields(keys: seq<string>, fields: map<string, Field>) returns (text: string)
    requires forall i :: 0 <= i < |keys| ==> keys[i] in fields
    ensures text == FedText(keys, FeedOf(fields))
  {
    text := "";
    for i := 0 to |keys|
      invariant text == FedText(keys[..i], FeedOf(fields))
    {
      assert keys[..i + 1][..i] == keys[..i];
      text := Updated(text + keys[i], fields[keys[i]]);
    }
    assert keys[..|keys|] == keys;
  }

  /** The text fed so far, after the value of one more field. */
  method Updated(text: string, f: Field) returns (r: string)
    ensures r == text + Concat(Chunks(f))
  {
    match f {
      case Text(s) =>
        ConcatSnoc([], s);
        assert [] + [s] == [s];
        r := text + s;
      case Hashes(hs) =>
        var sorted := Sort(hs);
        r := text;
        for j := 0 to |sorted|
          invariant r == text + Concat(sorted[..j])
        {
          assert sorted[..j + 1] == sorted[..j] + [sorted[j]];
          ConcatSnoc(sorted[..j], sorted[j]);
          r := r + sorted[j];
        }
        assert sorted[..|sorted|] == sorted;
    }
  }

  // ----- prepare_commit_tree -----

  /** A value after preparation, and what stands for it in the parent's hash. */
  datatype Prepared = Prepared(tree: Value, hashed: Value)
  datatype PreparedList = PreparedList(trees: seq<Value>, hashes: seq<Value>)
  datatype PreparedItems = PreparedItems(items: seq<Item>, fields: map<string, Field>)

  ghost function HashIn(t: Value): Value
    requires t.Dict? && Lookup(t.items, MT_HASH).Some?
  {
    Lookup(t.items, MT_HASH).value
  }

  predicate IsPrepared(items: seq<Item>) {
    Lookup(items, MT_HASH).Some? && Truthy(Lookup(items, MT_HASH).value)
  }

  lemma {:induction false} LookupPut(items: seq<Item>, key: string, val: Value)
    ensures Lookup(Put(items, key, val), key) == Some(val)
  {
    if items != [] && items[0].key != key {
      LookupPut(items[1..], key, val);
      assert Put(items, key, val)[1..] == Put(items[1..], key, val);
    }
  }

  /** The tree `prepare_commit_tree` leaves behind, or the exception it raises. */
  ghost function Prepare(sha1: Sha1, t: Value): (r: Result<Value, TreeError>)
    ensures r.Ok? ==> r.value.Dict? && Lookup(r.value.items, MT_HASH).Some?
    decreases t, 1
  {
    match t
    case Dict(items) =>
      if IsPrepared(items) then Ok(t)
      else
        var p :- PrepareItems(sha1, items);
        LookupPut(p.items, MT_HASH, Str(Digest(sha1, FeedOf(p.fields))));
        Ok(Dict(Put(p.items, MT_HASH, Str(Digest(sha1, FeedOf(p.fields))))))
    case _ => Err(NotADict)
  }

  ghost function PrepareItems(sha1: Sha1, items: seq<Item>): Result<PreparedItems, TreeError>
    decreases items, 0
  {
    if items == [] then Ok(PreparedItems([], map[]))
    else
      var last := items[|items| - 1];
      var p :- PrepareItems(sha1, items[..|items| - 1]);
      if IsEmptyValue(last.val) then Ok(p)
      else
        var q :- PrepareValue(sha1, last.val);
        Kept(p, last.key, q)
  }

  /** A non-empty item stays in the tree and is added to the hasher. */
  ghost function Kept(p: PreparedItems, key: string, q: Prepared): Result<PreparedItems, TreeError> {
    var fields :- AddTo(p.fields, key, q.hashed);
    Ok(PreparedItems(p.items + [Item(key, q.tree)], fields))
  }

  ghost function PrepareValue(sha1: Sha1, v: Value): Result<Prepared, TreeError>
    decreases v, 2
  {
    match v
    case Dict(_) =>
      var t :- Prepare(sha1, v);
      Ok(Prepared(t, HashIn(t)))
    case List(elems) =>
      var l :- PrepareList(sha1, elems);
      Ok(Prepared(List(l.trees), List(l.hashes)))
    case Date(iso, _) => Ok(Prepared(Date(iso, false), Date(iso, false)))
    case _ => Ok(Prepared(v, v))
  }

  ghost function PrepareList(sha1: Sha1, elems: seq<Value>): Result<PreparedList, TreeError>
    decreases elems, 0
  {
    if elems == [] then Ok(PreparedList([], []))
    else
      var l :- PrepareList(sha1, elems[..|elems| - 1]);
      var t :- Prepare(sha1, elems[|elems| - 1]);
      if HashIn(t) in l.hashes then Err(DuplicatedSubtree)
      else Ok(PreparedList(l.trees + [t], l.hashes + [HashIn(t)]))
  }
}
