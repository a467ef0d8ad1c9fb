/** A rison decoder gives back what was encoded exactly when no string has an id as its
    first line and more lines after it. */
module RisonLaws {
  import opened Wrappers
  import opened Strings
  import opened Sequences
  import opened Rison
  import Decimal

  // ----- the decoder -----

  /** The id characters at the start of a text. */
  function IdPrefix(s: string): (r: string)
    ensures r <= s
  {
    if s == "" || !IdChar(s[0]) then "" else [s[0]] + IdPrefix(s[1..])
  }

  function DigitPrefix(s: string): (r: string)
    ensures r <= s && forall i | 0 <= i < |r| :: Decimal.IsDigit(r[i])
  {
    if s == "" || !Decimal.IsDigit(s[0]) then "" else [s[0]] + DigitPrefix(s[1..])
  }

  /** The rest of a quoted string, up to its closing quote. */
  function ParseQuoted(s: string): (r: Option<(string, string)>)
    ensures r.Some? ==> |r.value.1| < |s|
  {
    if s == "" then None
    else if s[0] == '\'' then Some(("", s[1..]))
    else if s[0] == '!' then
      if |s| >= 2 && (s[1] == '\'' || s[1] == '!') then
        match ParseQuoted(s[2..])
        case None => None
        case Some((text, rest)) => Some(([s[1]] + text, rest))
      else None
    else
      match ParseQuoted(s[1..])
      case None => None
      case Some((text, rest)) => Some(([s[0]] + text, rest))
  }

  function ParseNumber(s: string): (r: Option<(Value, string)>)
    ensures r.Some? ==> |r.value.1| < |s|
  {
    var negative := s != "" && s[0] == '-';
    var digits := DigitPrefix(if negative then s[1..] else s);
    if digits == "" then None
    else if negative then Some((Int(0 - Decimal.Value(digits)), s[1 + |digits|..]))
    else Some((Int(Decimal.Value(digits)), s[|digits|..]))
  }

  function ParseId(s: string): (r: Option<(Value, string)>)
    ensures r.Some? ==> |r.value.1| < |s|
  {
    if s == "" || !IdStart(s[0]) then None else Some((Str(IdPrefix(s)), s[|IdPrefix(s)|..]))
  }

  function ParseConstant(c: char): Option<Value> {
    if c == 'n' then Some(None_) else if c == 't' then Some(Bool(true)) else if c == 'f' then Some(Bool(false))
    else None
  }

  /** A value at the start of a text, and the text after it. */
  function Parse(s: string): (r: Option<(Value, string)>)
    ensures r.Some? ==> |r.value.1| < |s|
    decreases |s|, 0
  {
    if s == "" then None
    else if s[0] == '!' then
      if |s| == 1 then None
      else if s[1] == '(' then ListOf(ParseElems(s[2..], true))
      else if ParseConstant(s[1]).Some? then Some((ParseConstant(s[1]).value, s[2..]))
      else None
    else if s[0] == '(' then DictOf(ParseEntries(s[1..], true))
    else if s[0] == '\'' then StrOf(ParseQuoted(s[1..]))
    else if s[0] == '-' || Decimal.IsDigit(s[0]) then ParseNumber(s)
    else ParseId(s)
  }

  function ListOf(r: Option<(seq<Value>, string)>): Option<(Value, string)> {
    if r.None? then None else Some((List(r.value.0), r.value.1))
  }

  function DictOf(r: Option<(map<string, Value>, string)>): Option<(Value, string)> {
    if r.None? then None else Some((Dict(r.value.0), r.value.1))
  }

  function StrOf(r: Option<(string, string)>): Option<(Value, string)> {
    if r.None? then None else Some((Str(r.value.0), r.value.1))
  }

  function AfterSeparator(s: string, first: bool): (r: Option<string>)
    ensures r.Some? ==> |r.value| <= |s|
  {
    if first then Some(s) else if s != "" && s[0] == ',' then Some(s[1..]) else None
  }

  function ParseElems(s: string, first: bool): (r: Option<(seq<Value>, string)>)
    ensures r.Some? ==> |r.value.1| < |s|
    decreases |s|, 1
  {
    if s != "" && s[0] == ')' then Some(([], s[1..]))
    else
      match AfterSeparator(s, first)
      case None => None
      case Some(t) =>
        match Parse(t)
        case None => None
        case Some((v, rest)) =>
          match ParseElems(rest, false)
          case None => None
          case Some((elems, after)) => Some(([v] + elems, after))
  }

  function ParseEntry(s: string): (r: Option<(string, Value, string)>)
    ensures r.Some? ==> |r.value.2| < |s|
    decreases |s|, 1
  {
    match Parse(s)
    case Some((Str(k), rest)) =>
      if rest != "" && rest[0] == ':' then
        match Parse(rest[1..])
        case None => None
        case Some((v, after)) => Some((k, v, after))
      else None
    case _ => None
  }

  function ParseEntries(s: string, first: bool): (r: Option<(map<string, Value>, string)>)
    ensures r.Some? ==> |r.value.1| < |s|
    decreases |s|, 2
  {
    if s != "" && s[0] == ')' then Some((map[], s[1..]))
    else
      match AfterSeparator(s, first)
      case None => None
      case Some(t) =>
        match ParseEntry(t)
        case None => None
        case Some((k, v, rest)) =>
          match ParseEntries(rest, false)
          case None => None
          case Some((entries, after)) => Some((entries[k := v], after))
  }

  function Decode(s: string): Option<Value> {
    match Parse(s)
    case Some((v, "")) => Some(v)
    case _ => None
  }

  // ----- safe values -----

  /** Not written without quotes although it has more than one line. */
  predicate SafeString(s: string) {
    IdOk(s) ==> '\n' !in s
  }

  predicate Safe(v: Value)
    decreases v
  {
    match v
    case Str(s) => SafeString(s)
    case List(elems) => forall i | 0 <= i < |elems| :: Safe(elems[i])
    case Dict(entries) => forall k | k in entries :: SafeString(k) && Safe(entries[k])
    case _ => true
  }

  /** What can follow a value: nothing that would continue it. */
  predicate Ends(rest: string) {
    rest == "" || !(IdChar(rest[0]) || rest[0] == '\n')
  }

  /** The decoder stops at the end of the first line. */
  predicate Broken<T>(r: Option<(T, string)>) {
    r.None? || (r.value.1 != "" && r.value.1[0] == '\n')
  }

  // ----- strings -----

  lemma {:induction false} FirstLineIs(s: string)
    ensures FirstLine(s) <= s && '\n' !in FirstLine(s)
    ensures FirstLine(s) == s <==> '\n' !in s
    ensures FirstLine(s) != s ==> s[|FirstLine(s)|] == '\n'
  {
    if s != "" && s[0] != '\n' {
      FirstLineIs(s[1..]);
      assert s == [s[0]] + s[1..];
    }
  }

  /** All of an id is taken, and no more. */
  lemma {:induction false} IdPrefixOf(id: string, rest: string)
    requires forall c | c in id :: IdChar(c)
    requires rest == "" || !IdChar(rest[0])
    ensures IdPrefix(id + rest) == id
  {
    if id == "" {
      assert id + rest == rest;
    } else {
      assert (id + rest)[1..] == id[1..] + rest;
      assert id[0] in id && forall c | c in id[1..] :: c in id;
      IdPrefixOf(id[1..], rest);
    }
  }

  lemma {:induction false} IdComesBack(id: string, rest: string)
    requires IsId(id) && (rest == "" || !IdChar(rest[0]))
    ensures Parse(id + rest) == Some((Str(id), rest))
  {
    IdPrefixOf(id, rest);
    var s := id + rest;
    assert s[0] == id[0] && s[|id|..] == rest;
    assert Parse(s) == ParseId(s);
  }

  lemma {:induction false} QuotedPlain(c: char, tail: string)
    requires c != '\'' && c != '!'
    ensures ParseQuoted([c] + tail) ==
            match ParseQuoted(tail) case None => None case Some((text, rest)) => Some(([c] + text, rest))
  {
    assert ([c] + tail)[1..] == tail;
  }

  lemma {:induction false} QuotedEscaped(c: char, tail: string)
    requires c == '\'' || c == '!'
    ensures ParseQuoted(['!', c] + tail) ==
            match ParseQuoted(tail) case None => None case Some((text, rest)) => Some(([c] + text, rest))
  {
    assert (['!', c] + tail)[2..] == tail;
  }

  lemma {:induction false} ParseEscaped(s: string, rest: string)
    ensures ParseQuoted(Escape(s) + "'" + rest) == Some((s, rest))
  {
    var whole := Escape(s) + "'" + rest;
    if s == "" {
      assert whole == "'" + rest && whole[1..] == rest;
    } else {
      var c, tail := s[0], Escape(s[1..]) + "'" + rest;
      ParseEscaped(s[1..], rest);
      assert s == [c] + s[1..];
      if c == '\'' || c == '!' {
        assert whole == ['!', c] + tail;
        QuotedEscaped(c, tail);
      } else {
        assert whole == [c] + tail;
        QuotedPlain(c, tail);
      }
    }
  }

  lemma {:induction false} QuotedComesBack(s: string, rest: string)
    ensures Parse("'" + Escape(s) + "'" + rest) == Some((Str(s), rest))
  {
    var whole, quoted := "'" + Escape(s) + "'" + rest, Escape(s) + "'" + rest;
    assert whole[0] == '\'' && whole[1..] == quoted;
    ParseEscaped(s, rest);
    assert Parse(whole) == StrOf(ParseQuoted(quoted));
  }

  /** A string comes back exactly when it is safe. */
  lemma {:induction false} StringComesBack(s: string, rest: string)
    requires Ends(rest)
    ensures SafeString(s) ==> Parse(EncodeString(s) + rest) == Some((Str(s), rest))
    ensures !SafeString(s) ==> Broken(Parse(EncodeString(s) + rest))
  {
    FirstLineIs(s);
    if s != "" && IdOk(s) {
      var line := FirstLine(s);
      var more := s[|line|..] + rest;
      assert s + rest == line + more;
      if line == s {
        assert more == rest;
      }
      IdComesBack(line, more);
    } else {
      QuotedComesBack(s, rest);
      assert s == "" ==> EncodeString(s) == "'" + Escape(s) + "'";
    }
  }

  // ----- numbers -----

  lemma {:induction false} DigitPrefixOf(digits: string, rest: string)
    requires forall i | 0 <= i < |digits| :: Decimal.IsDigit(digits[i])
    requires rest == "" || !Decimal.IsDigit(rest[0])
    ensures DigitPrefix(digits + rest) == digits
  {
    if digits == "" {
      assert digits + rest == rest;
    } else {
      assert (digits + rest)[1..] == digits[1..] + rest;
      DigitPrefixOf(digits[1..], rest);
    }
  }

  lemma {:induction false} PositiveComesBack(n: nat, rest: string)
    requires rest == "" || !Decimal.IsDigit(rest[0])
    ensures ParseNumber(Decimal.Digits(n) + rest) == Some((Int(n), rest))
  {
    var digits := Decimal.Digits(n);
    var s := digits + rest;
    DigitPrefixOf(digits, rest);
    Decimal.ValueOfDigits(n);
    assert s[0] == digits[0] && s[|digits|..] == rest;
  }

  lemma {:induction false} NegativeComesBack(n: nat, rest: string)
    requires rest == "" || !Decimal.IsDigit(rest[0])
    ensures ParseNumber("-" + (Decimal.Digits(n) + rest)) == Some((Int(0 - n), rest))
  {
    var digits := Decimal.Digits(n);
    var s := "-" + (digits + rest);
    DigitPrefixOf(digits, rest);
    Decimal.ValueOfDigits(n);
    assert s[1..] == digits + rest;
    assert (digits + rest)[|digits|..] == rest && s[1 + |digits|..] == s[1..][|digits|..];
  }

  lemma {:induction false} NumberComesBack(n: int, rest: string)
    requires rest == "" || !Decimal.IsDigit(rest[0])
    ensures ParseNumber(Decimal.Str(n) + rest) == Some((Int(n), rest))
  {
    if n < 0 {
      NegativeComesBack(-n, rest);
      assert Decimal.Str(n) + rest == "-" + (Decimal.Digits(-n) + rest);
    } else {
      PositiveComesBack(n, rest);
    }
  }

  lemma {:induction false} IntComesBack(n: int, rest: string)
    requires Ends(rest)
    ensures Parse(Decimal.Str(n) + rest) == Some((Int(n), rest))
  {
    NumberComesBack(n, rest);
    var s := Decimal.Str(n) + rest;
    assert s[0] == Decimal.Str(n)[0];
    assert Parse(s) == ParseNumber(s);
  }

  // ----- values -----

  /** Every encoding starts like a value, not like a closing bracket. */
  lemma {:induction false} EncodingStarts(v: Value)
    ensures Encode(v) != "" && Encode(v)[0] != ')' && Encode(v)[0] != ','
  {
    match v
    case Str(s) => StringStarts(s);
    case _ =>
  }

  lemma {:induction false} StringStarts(s: string)
    ensures EncodeString(s) != "" && EncodeString(s)[0] != ')' && EncodeString(s)[0] != ','
  {
    FirstLineIs(s);
    if s != "" && IdOk(s) {
      assert FirstLine(s)[0] == s[0];
    }
  }

  lemma {:induction false} Shift(a: string, b: string, c: string, d: string)
    ensures a + b + c + d == a + (b + (c + d))
  {
  }

  lemma {:induction false} ConstantComesBack(c: char, rest: string)
    requires ParseConstant(c).Some?
    ensures Parse(['!', c] + rest) == Some((ParseConstant(c).value, rest))
  {
    assert (['!', c] + rest)[2..] == rest;
  }

  lemma {:induction false} ParseListText(s: string)
    ensures Parse("!(" + s) == ListOf(ParseElems(s, true))
  {
    assert ("!(" + s)[2..] == s;
  }

  lemma {:induction false} ParseDictText(s: string)
    ensures Parse("(" + s) == DictOf(ParseEntries(s, true))
  {
    assert ("(" + s)[1..] == s;
  }

  /** What was encoded comes back, with the text after it, if it is safe; if not, the
      decoder stops at the end of a line. */
  lemma {:induction false} ComesBack(v: Value, rest: string)
    requires Ends(rest)
    ensures Safe(v) ==> Parse(Encode(v) + rest) == Some((v, rest))
    ensures !Safe(v) ==> Broken(Parse(Encode(v) + rest))
    decreases v, 3
  {
    match v
    case None_ =>
      ConstantComesBack('n', rest);
      assert Encode(v) == ['!', 'n'];
    case Bool(b) =>
      ConstantComesBack(if b then 't' else 'f', rest);
      assert Encode(v) == ['!', if b then 't' else 'f'];
    case Int(n) => IntComesBack(n, rest);
    case Str(s) => StringComesBack(s, rest);
    case List(elems) => ListComesBack(v, rest);
    case Dict(entries) => DictComesBack(v, rest);
  }

  lemma {:induction false} ListComesBack(v: Value, rest: string)
    requires v.List? && Ends(rest)
    ensures Safe(v) ==> Parse(Encode(v) + rest) == Some((v, rest))
    ensures !Safe(v) ==> Broken(Parse(Encode(v) + rest))
    decreases v, 2
  {
    ElemsComeBack(v.elems, true, rest);
    ParseListText(EncodeElems(v.elems, true) + rest);
    assert Encode(v) + rest == "!(" + (EncodeElems(v.elems, true) + rest);
  }

  lemma {:induction false} DictComesBack(v: Value, rest: string)
    requires v.Dict? && Ends(rest)
    ensures Safe(v) ==> Parse(Encode(v) + rest) == Some((v, rest))
    ensures !Safe(v) ==> Broken(Parse(Encode(v) + rest))
    decreases v, 2
  {
    var keys := SortedKeys(v.entries.Keys);
    DistinctSortedKeys(v.entries.Keys);
    EntriesComeBack(v, keys, true, rest);
    DictText(v, rest);
    WholeDict(v);
  }

  lemma {:induction false} DictText(v: Value, rest: string)
    requires v.Dict?
    ensures Parse(Encode(v) + rest) == DictOf(ParseEntries(EncodeEntries(v, SortedKeys(v.entries.Keys), true) + rest,
            true))
  {
    var text := EncodeEntries(v, SortedKeys(v.entries.Keys), true);
    ParseDictText(text + rest);
    assert "(" + text + rest == "(" + (text + rest);
  }

  lemma {:induction false} WholeDict(v: Value)
    requires v.Dict?
    ensures Entries(v, SortedKeys(v.entries.Keys)) == v.entries
    ensures Safe(v) <==> EntriesSafe(v, SortedKeys(v.entries.Keys))
  {
  }

  predicate AllSafe(elems: seq<Value>) {
    forall i | 0 <= i < |elems| :: Safe(elems[i])
  }

  /** Parsing goes on after an element. */
  function WithElems(r: Option<(Value, string)>): Option<(seq<Value>, string)> {
    match r
    case None => None
    case Some((v, rest)) =>
      match ParseElems(rest, false)
      case None => None
      case Some((elems, after)) => Some(([v] + elems, after))
  }

  lemma {:induction false} ParseNextElem(first: bool, text: string)
    requires text != "" && text[0] != ')'
    ensures ParseElems(Separator(first) + text, first) == WithElems(Parse(text))
  {
    var s := Separator(first) + text;
    if first {
      assert s == text;
    } else {
      assert s[0] == ',' && s[1..] == text;
    }
  }

  lemma {:induction false} ElemsComeBack(elems: seq<Value>, first: bool, rest: string)
    ensures AllSafe(elems) ==> ParseElems(EncodeElems(elems, first) + rest, first) == Some((elems, rest))
    ensures !AllSafe(elems) ==> ParseElems(EncodeElems(elems, first) + rest, first).None?
    decreases elems, 1
  {
    var s := EncodeElems(elems, first) + rest;
    if elems == [] {
      assert s == ")" + rest && s[1..] == rest;
    } else {
      var after := EncodeElems(elems[1..], false) + rest;
      assert after[0] == ')' || after[0] == ',';
      ComesBack(elems[0], after);
      ElemsComeBack(elems[1..], false, rest);
      FirstElem(elems, first, rest);
      SplitSafe(elems);
      if !Safe(elems[0]) {
        AtLineEnd(Parse(Encode(elems[0]) + after));
      }
    }
  }

  lemma {:induction false} FirstElem(elems: seq<Value>, first: bool, rest: string)
    requires elems != []
    ensures ParseElems(EncodeElems(elems, first) + rest, first) ==
            WithElems(Parse(Encode(elems[0]) + (EncodeElems(elems[1..], false) + rest)))
  {
    var text := Encode(elems[0]) + (EncodeElems(elems[1..], false) + rest);
    EncodingStarts(elems[0]);
    ParseNextElem(first, text);
    Shift(Separator(first), Encode(elems[0]), EncodeElems(elems[1..], false), rest);
  }

  lemma {:induction false} SplitSafe(elems: seq<Value>)
    requires elems != []
    ensures AllSafe(elems) <==> Safe(elems[0]) && AllSafe(elems[1..])
    ensures elems == [elems[0]] + elems[1..]
  {
  }

  /** Nothing follows a value whose text goes on with a new line. */
  lemma {:induction false} AtLineEnd(r: Option<(Value, string)>)
    requires Broken(r)
    ensures WithElems(r).None?
  {
  }

  /** The part of a dict with the given keys. */
  function Entries(d: Value, keys: seq<string>): map<string, Value>
    requires d.Dict? && forall k | k in keys :: k in d.entries
  {
    map k | k in keys :: d.entries[k]
  }

  predicate EntriesSafe(d: Value, keys: seq<string>)
    requires d.Dict? && forall k | k in keys :: k in d.entries
  {
    forall k | k in keys :: SafeString(k) && Safe(d.entries[k])
  }

  predicate EntryBroken(r: Option<(string, Value, string)>) {
    r.None? || (r.value.2 != "" && r.value.2[0] == '\n')
  }

  function EntryOf(k: string, r: Option<(Value, string)>): Option<(string, Value, string)> {
    if r.None? then None else Some((k, r.value.0, r.value.1))
  }

  lemma {:induction false} EntryComesBack(d: Value, k: string, rest: string)
    requires d.Dict? && k in d.entries && Ends(rest)
    ensures SafeString(k) && Safe(d.entries[k]) ==>
        ParseEntry(EncodeEntry(d, k) + rest) == Some((k, d.entries[k], rest))
    ensures !(SafeString(k) && Safe(d.entries[k])) ==> EntryBroken(ParseEntry(EncodeEntry(d, k) + rest))
    decreases d, 0, 0
  {
    var s := EncodeEntry(d, k) + rest;
    var text := Encode(d.entries[k]) + rest;
    assert s == EncodeString(k) + (":" + text) && (":" + text)[1..] == text;
    StringComesBack(k, ":" + text);
    ComesBack(d.entries[k], rest);
    if SafeString(k) {
      assert ParseEntry(s) == EntryOf(k, Parse(text));
    }
  }

  /** Parsing goes on after an entry. */
  function WithEntries(r: Option<(string, Value, string)>): Option<(map<string, Value>, string)> {
    match r
    case None => None
    case Some((k, v, rest)) =>
      match ParseEntries(rest, false)
      case None => None
      case Some((entries, after)) => Some((entries[k := v], after))
  }

  lemma {:induction false} ParseNextEntry(first: bool, text: string)
    requires text != "" && text[0] != ')'
    ensures ParseEntries(Separator(first) + text, first) == WithEntries(ParseEntry(text))
  {
    var s := Separator(first) + text;
    if first {
      assert s == text;
    } else {
      assert s[0] == ',' && s[1..] == text;
    }
  }

  lemma {:induction false} FirstEntry(d: Value, keys: seq<string>, first: bool, rest: string)
    requires d.Dict? && keys != [] && forall k | k in keys :: k in d.entries
    ensures keys[0] in d.entries
    ensures ParseEntries(EncodeEntries(d, keys, first) + rest, first) ==
            WithEntries(ParseEntry(EncodeEntry(d, keys[0]) + (EncodeEntries(d, keys[1..], false) + rest)))
  {
    assert keys[0] in keys;
    var text := EncodeEntry(d, keys[0]) + (EncodeEntries(d, keys[1..], false) + rest);
    StringStarts(keys[0]);
    ParseNextEntry(first, text);
    Shift(Separator(first), EncodeEntry(d, keys[0]), EncodeEntries(d, keys[1..], false), rest);
  }

  lemma {:induction false} SplitEntries(d: Value, keys: seq<string>)
    requires d.Dict? && keys != [] && NoDuplicates(keys) && forall k | k in keys :: k in d.entries
    ensures keys[0] in d.entries && NoDuplicates(keys[1..])
    ensures Entries(d, keys) == Entries(d, keys[1..])[keys[0] := d.entries[keys[0]]]
    ensures EntriesSafe(d, keys) <==> SafeString(keys[0]) && Safe(d.entries[keys[0]]) && EntriesSafe(d, keys[1..])
  {
    assert keys == [keys[0]] + keys[1..];
  }

  lemma {:induction false} EntryAtLineEnd(r: Option<(string, Value, string)>)
    requires EntryBroken(r)
    ensures WithEntries(r).None?
  {
  }

  lemma {:induction false} EntriesComeBack(d: Value, keys: seq<string>, first: bool, rest: string)
    requires d.Dict? && NoDuplicates(keys) && forall k | k in keys :: k in d.entries
    ensures EntriesSafe(d, keys) ==>
        ParseEntries(EncodeEntries(d, keys, first) + rest, first) == Some((Entries(d, keys), rest))
    ensures !EntriesSafe(d, keys) ==> ParseEntries(EncodeEntries(d, keys, first) + rest, first).None?
    decreases d, 1, |keys|
  {
    var s := EncodeEntries(d, keys, first) + rest;
    if keys == [] {
      assert s == ")" + rest && s[1..] == rest;
      assert Entries(d, keys) == map[];
    } else {
      SplitEntries(d, keys);
      var k, others := keys[0], keys[1..];
      var after := EncodeEntries(d, others, false) + rest;
      assert after[0] == ')' || after[0] == ',';
      EntryComesBack(d, k, after);
      EntriesComeBack(d, others, false, rest);
      FirstEntry(d, keys, first, rest);
      if !(SafeString(k) && Safe(d.entries[k])) {
        EntryAtLineEnd(ParseEntry(EncodeEntry(d, k) + after));
      }
    }
  }

  lemma {:induction false} DistinctSortedKeys(keys: set<string>)
    ensures NoDuplicates(SortedKeys(keys))
  {
    SortedKeysSorted(keys);
    NoDuplicatesCounts(SortedKeys(keys));
  }

  // ----- main results -----

  /** The decoder inverts the encoder on a value exactly when the value is safe. */
  lemma {:induction false} RoundTrip(v: Value)
    ensures Decode(Encode(v)) == Some(v) <==> Safe(v)
  {
    ComesBack(v, "");
    assert Encode(v) + "" == Encode(v);
  }

  /** Safe values are encoded differently. */
  lemma {:induction false} EncodeInjective(v: Value, w: Value)
    requires Safe(v) && Safe(w) && Encode(v) == Encode(w)
    ensures v == w
  {
    RoundTrip(v);
    RoundTrip(w);
  }

  /** Without new lines everything is safe. */
  predicate OneLine(v: Value)
    decreases v
  {
    match v
    case Str(s) => '\n' !in s
    case List(elems) => forall i | 0 <= i < |elems| :: OneLine(elems[i])
    case Dict(entries) => forall k | k in entries :: '\n' !in k && OneLine(entries[k])
    case _ => true
  }

  lemma {:induction false} OneLineIsSafe(v: Value)
    requires OneLine(v)
    ensures Safe(v)
  {
    match v
    case List(elems) =>
      forall i | 0 <= i < |elems| ensures Safe(elems[i]) {
        OneLineIsSafe(elems[i]);
      }
    case Dict(entries) =>
      forall k | k in entries ensures Safe(entries[k]) {
        OneLineIsSafe(entries[k]);
      }
    case _ =>
  }

  /** Strings with several lines can be mistaken for more than one string. */
  lemma {:induction false} LinesCollide()
    ensures var one, two := List([Str("a\n,b")]), List([Str("a\n"), Str("b")]);
            one != two && Encode(one) == Encode(two) == "!(a\n,b)"
  {
    assert FirstLine("a\n,b") == "a" && FirstLine("a\n") == "a" && FirstLine("b") == "b" by {
      assert FirstLine("\n,b") == "" && FirstLine("\n") == "" && FirstLine("") == "";
      assert "a\n,b"[1..] == "\n,b" && "a\n"[1..] == "\n" && "b"[1..] == "";
    }
    var one, two := [Str("a\n,b")], [Str("a\n"), Str("b")];
    assert one[1..] == [] && two[1..] == [Str("b")] && [Str("b")][1..] == [];
    assert EncodeElems([], false) == ")";
    assert EncodeElems([Str("b")], false) == ",b)";
    assert EncodeElems(one, true) == "a\n,b)";
    assert EncodeElems(two, true) == "a\n,b)";
  }

  // ----- what is written without quotes -----

  /** Letters, digits, a few signs, the backslash, and everything that is not ASCII. */
  ghost predicate AllowedInId(c: char) {
    || 'a' <= c <= 'z' || 'A' <= c <= 'Z' || '0' <= c <= '9'
    || c in {'_', '-', '.', '/', '~', '\\'}
    || c > '~'
  }

  /** A text whose first line is not empty, has id characters only, and does not begin with a
      digit or a minus sign. */
  ghost predicate BeginsWithId(s: string) {
    exists line: string, rest: string ::
      && s == line + rest && (rest == "" || rest[0] == '\n') && line != ""
      && (forall c | c in line :: AllowedInId(c))
      && line[0] != '-' && !('0' <= line[0] <= '9')
  }

  lemma {:induction false} FirstLineSplits(s: string)
    ensures FirstLine(s) <= s && '\n' !in FirstLine(s)
    ensures FirstLine(s) == s || s[|FirstLine(s)|] == '\n'
  {
    if s != "" && s[0] != '\n' {
      FirstLineSplits(s[1..]);
    }
  }

  lemma {:induction false} FirstLineOf(line: string, rest: string)
    requires '\n' !in line && (rest == "" || rest[0] == '\n')
    ensures FirstLine(line + rest) == line
  {
    if line == "" {
      assert line + rest == rest;
    } else {
      assert (line + rest)[1..] == line[1..] + rest && line[0] in line;
      FirstLineOf(line[1..], rest);
      assert line == [line[0]] + line[1..];
    }
  }

  /** A string is written as it is exactly if it begins with such a line. */
  lemma {:induction false} UnquotedExactly(s: string)
    ensures EncodeString(s) == s <==> BeginsWithId(s)
  {
    IdOkExactly(s);
    if !IdOk(s) && s != "" {
      assert |EncodeString(s)| > |s| by {
        EscapeLonger(s);
      }
    }
  }

  lemma {:induction false} EscapeLonger(s: string)
    ensures |Escape(s)| >= |s|
  {
    if s != "" {
      EscapeLonger(s[1..]);
    }
  }

  lemma {:induction false} IdOkExactly(s: string)
    ensures IdOk(s) <==> BeginsWithId(s)
  {
    assert forall c :: IdChar(c) <==> AllowedInId(c);
    FirstLineSplits(s);
    var line := FirstLine(s);
    if IdOk(s) {
      assert s == line + s[|line|..];
    }
    if l: string, rest: string :|
      && s == l + rest && (rest == "" || rest[0] == '\n') && l != ""
      && (forall c | c in l :: AllowedInId(c))
      && l[0] != '-' && !('0' <= l[0] <= '9')
    {
      FirstLineOf(l, rest);
    }
  }
}
