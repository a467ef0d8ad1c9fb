/** The rison encoder, and a decoder that shows what it loses: strings whose first line
    is an id are written without quotes, whatever follows on the next lines. */
module Rison {
  import opened Wrappers
  import opened Strings
  import Decimal

  datatype Value =
    | None_
    | Bool(b: bool)
    | Int(n: int)
    | Str(s: string)
    | List(elems: seq<Value>)
    | Dict(entries: map<string, Value>)

  // ----- ids -----

  predicate IsAlnum(c: char) {
    '0' <= c <= '9' || 'A' <= c <= 'Z' || 'a' <= c <= 'z'
  }

  /** A backslash is one too, because it escapes the bracket after it in the character
      class, and so is every character past the first 127. */
  predicate IdChar(c: char) {
    IsAlnum(c) || c == '_' || c == '-' || c == '.' || c == '/' || c == '~' || c == '\\' || c as int >= 127
  }

  predicate IdStart(c: char) {
    IdChar(c) && c != '-' && !('0' <= c <= '9')
  }

  predicate IsId(s: string) {
    s != "" && IdStart(s[0]) && forall c | c in s :: IdChar(c)
  }

  /** `s.split("\n")[0]` */
  function FirstLine(s: string): string {
    if s == "" || s[0] == '\n' then "" else [s[0]] + FirstLine(s[1..])
  }

  /** `ID_OK_RE` is multiline: a match of the first line is enough. */
  predicate IdOk(s: string) {
    IsId(FirstLine(s))
  }

  // ----- the encoder -----

  /** A "!" before each quote and each "!". */
  function Escape(s: string): string {
    if s == "" then ""
    else (if s[0] == '\'' || s[0] == '!' then "!" else "") + [s[0]] + Escape(s[1..])
  }

  function EncodeString(s: string): string {
    if s == "" then "''" else if IdOk(s) then s else "'" + Escape(s) + "'"
  }

  ghost function Encode(v: Value): string
    decreases v, 0
  {
    match v
    case None_ => "!n"
    case Bool(b) => if b then "!t" else "!f"
    case Int(n) => Decimal.Str(n)
    case Str(s) => EncodeString(s)
    case List(elems) => "!(" + EncodeElems(elems, true)
    case Dict(entries) => "(" + EncodeEntries(v, SortedKeys(entries.Keys), true)
  }

  function Separator(first: bool): string {
    if first then "" else ","
  }

  /** What is still to be written of a list. */
  ghost function EncodeElems(elems: seq<Value>, first: bool): string
    decreases elems, 1
  {
    if elems == [] then ")" else Separator(first) + Encode(elems[0]) + EncodeElems(elems[1..], false)
  }

  ghost function EncodeEntry(d: Value, k: string): string
    requires d.Dict? && k in d.entries
    decreases d, 0, 0
  {
    EncodeString(k) + ":" + Encode(d.entries[k])
  }

  /** What is still to be written of a dict. */
  ghost function EncodeEntries(d: Value, keys: seq<string>, first: bool): string
    requires d.Dict? && forall k | k in keys :: k in d.entries
    decreases d, 0, |keys|
  {
    if keys == [] then ")" else Separator(first) + EncodeEntry(d, keys[0]) + EncodeEntries(d, keys[1..], false)
  }

  method Encoded(v: Value) returns (r: string)
    ensures r == Encode(v)
    decreases v, 1
  {
    match v {
      case None_ => r := "!n";
      case Bool(b) => r := if b then "!t" else "!f";
      case Int(n) => r := Decimal.Str(n);
      case Str(s) => r := EncodeString(s);
      case List(elems) => r := EncodedList(v);
      case Dict(entries) => r := EncodedDict(v);
    }
  }

  method EncodedList(v: Value) returns (r: string)
    requires v.List?
    ensures r == Encode(v)
    decreases v, 0
  {
    r := "!(";
    for i := 0 to |v.elems|
      invariant Encode(v) == r + EncodeElems(v.elems[i..], i == 0)
    {
      NextElem(v.elems, i);
      Regroup(r, Separator(i == 0), Encode(v.elems[i]), EncodeElems(v.elems[i + 1..], false));
      if i > 0 {
        r := r + ",";
      } else {
        assert r + "" == r;
      }
      var e := Encoded(v.elems[i]);
      r := r + e;
    }
    r := r + ")";
  }

  lemma {:induction false} NextElem(elems: seq<Value>, i: nat)
    requires i < |elems|
    ensures EncodeElems(elems[i..], i == 0) == Separator(i == 0) + Encode(elems[i]) + EncodeElems(elems[i + 1..], false)
  {
    assert elems[i..][1..] == elems[i + 1..];
  }

  lemma {:induction false} Regroup(r: string, separator: string, text: string, rest: string)
    ensures r + (separator + text + rest) == r + separator + text + rest
  {
  }

  method EncodedDict(v: Value) returns (r: string)
    requires v.Dict?
    ensures r == Encode(v)
    decreases v, 0
  {
    var keys := SortedListing(v.entries.Keys);
    r := "(";
    for i := 0 to |keys|
      invariant Encode(v) == r + EncodeEntries(v, keys[i..], i == 0)
    {
      NextEntry(v, keys, i);
      Regroup(r, Separator(i == 0), EncodeEntry(v, keys[i]), EncodeEntries(v, keys[i + 1..], false));
      if i > 0 {
        r := r + ",";
      } else {
        assert r + "" == r;
      }
      var e := Encoded(v.entries[keys[i]]);
      r := r + (EncodeString(keys[i]) + ":" + e);
    }
    r := r + ")";
  }

  lemma {:induction false} NextEntry(d: Value, keys: seq<string>, i: nat)
    requires d.Dict? && i < |keys| && forall k | k in keys :: k in d.entries
    ensures keys[i] in d.entries
    ensures EncodeEntries(d, keys[i..], i == 0) == Separator(i == 0) + EncodeEntry(d, keys[i]) +
            EncodeEntries(d, keys[i + 1..], false)
  {
    assert keys[i] in keys;
    assert keys[i..][1..] == keys[i + 1..];
  }

  /** `dumps`: only lists and dicts */
  method Dumps(v: Value) returns (r: Option<string>)
    ensures r == if v.List? || v.Dict? then Some(Encode(v)) else None
  {
    if !v.List? && !v.Dict? {
      return None;
    }
    var s := Encoded(v);
    r := Some(s);
  }
}
