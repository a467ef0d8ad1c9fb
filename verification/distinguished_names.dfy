/** The scanners of zentral/utils/certificates.py for distinguished names: attributes and
    values, with a backslash before a character that is to be taken as it is. */
module DistinguishedNames {

  datatype Pair = Pair(attr: string, val: string)

  /** The pairs found so far, the current one, whether its value has begun, and whether
      the last character was a backslash. */
  datatype State = State(found: seq<Pair>, attr: string, val: string, inValue: bool, escaped: bool)

  const START := State([], "", "", false, false)

  /** A pair without an attribute is dropped. */
  function Flushed(st: State): seq<Pair> {
    if st.attr == "" then st.found else st.found + [Pair(st.attr, st.val)]
  }

  function Step(separator: char, st: State, c: char): State {
    if c == '\\' && !st.escaped then st.(escaped := true)
    else if !st.escaped && c == '=' then st.(inValue := true)
    else if !st.escaped && c == separator then State(Flushed(st), "", "", false, false)
    else if st.inValue then st.(val := st.val + [c], escaped := false)
    else st.(attr := st.attr + [c], escaped := false)
  }

  function Run(separator: char, st: State, s: string): State
    decreases s
  {
    if s == "" then st else Run(separator, Step(separator, st, s[0]), s[1..])
  }

  /** The pairs of a name, in order. */
  function Pairs(separator: char, s: string): seq<Pair> {
    Flushed(Run(separator, START, s))
  }

  // ----- parse_dn -----

  /** `d[attr] = val` for each pair */
  function AsDict(pairs: seq<Pair>): map<string, string> {
    if pairs == [] then map[]
    else AsDict(pairs[..|pairs| - 1])[pairs[|pairs| - 1].attr := pairs[|pairs| - 1].val]
  }

  method ParseDn(dn: string) returns (d: map<string, string>)
    ensures d == AsDict(Pairs(',', dn))
  {
    var attr, val, inValue, escaped := "", "", false, false;
    ghost var found := [];
    d := map[];
    for i := 0 to |dn|
      invariant d == AsDict(found)
      invariant Run(',', START, dn) == Run(',', State(found, attr, val, inValue, escaped), dn[i..])
    {
      assert dn[i..][1..] == dn[i + 1..];
      var c := dn[i];
      if c == '\\' && !escaped {
        escaped := true;
      } else if !escaped && (c == '=' || c == ',') {
        if c == '=' {
          inValue := true;
        } else {
          inValue := false;
          if attr != "" {
            AsDictSnoc(found, Pair(attr, val));
            d := d[attr := val];
            found := found + [Pair(attr, val)];
          }
          attr, val := "", "";
        }
      } else {
        if inValue {
          val := val + [c];
        } else {
          attr := attr + [c];
        }
        escaped := false;
      }
    }
    if attr != "" {
      AsDictSnoc(found, Pair(attr, val));
      d := d[attr := val];
    }
  }

  lemma {:induction false} AsDictSnoc(pairs: seq<Pair>, p: Pair)
    ensures AsDict(pairs + [p]) == AsDict(pairs)[p.attr := p.val]
  {
    assert (pairs + [p])[..|pairs|] == pairs;
  }

  // ----- parse_text_dn -----

  /** `d[attr].append(val)` */
  function Append(d: map<string, seq<string>>, p: Pair): map<string, seq<string>> {
    d[p.attr := (if p.attr in d then d[p.attr] else []) + [p.val]]
  }

  function AsLists(pairs: seq<Pair>): map<string, seq<string>> {
    if pairs == [] then map[] else Append(AsLists(pairs[..|pairs| - 1]), pairs[|pairs| - 1])
  }

  method ParseTextDn(dn: string) returns (d: map<string, seq<string>>)
    ensures d == AsLists(Pairs('/', dn))
  {
    var attr, val, inValue, escaped := "", "", false, false;
    ghost var found := [];
    d := map[];
    for i := 0 to |dn|
      invariant d == AsLists(found)
      invariant Run('/', START, dn) == Run('/', State(found, attr, val, inValue, escaped), dn[i..])
    {
      assert dn[i..][1..] == dn[i + 1..];
      var c := dn[i];
      if c == '\\' && !escaped {
        escaped := true;
      } else if !escaped && (c == '=' || c == '/') {
        if c == '=' {
          inValue := true;
        } else {
          inValue := false;
          if attr != "" {
            AsListsSnoc(found, Pair(attr, val));
            d := Append(d, Pair(attr, val));
            found := found + [Pair(attr, val)];
          }
          attr, val := "", "";
        }
      } else {
        if inValue {
          val := val + [c];
        } else {
          attr := attr + [c];
        }
        escaped := false;
      }
    }
    if attr != "" {
      AsListsSnoc(found, Pair(attr, val));
      d := Append(d, Pair(attr, val));
    }
  }

  lemma {:induction false} AsListsSnoc(pairs: seq<Pair>, p: Pair)
    ensures AsLists(pairs + [p]) == Append(AsLists(pairs), p)
  {
    assert (pairs + [p])[..|pairs|] == pairs;
  }

  // ----- rendering -----

  /** A backslash before each backslash, "=" and separator. */
  function Escape(separator: char, s: string): string {
    if s == "" then ""
    else (if s[0] == '\\' || s[0] == '=' || s[0] == separator then "\\" else "") + [s[0]] + Escape(separator, s[1..])
  }

  function RenderPair(separator: char, p: Pair): string {
    Escape(separator, p.attr) + ("=" + Escape(separator, p.val))
  }

  /** Each pair after a separator; the first one can also come without it. */
  function Render(separator: char, pairs: seq<Pair>): string {
    if pairs == [] then "" else [separator] + (RenderPair(separator, pairs[0]) + Render(separator, pairs[1..]))
  }

  function RenderJoined(separator: char, pairs: seq<Pair>): string {
    if pairs == [] then "" else Render(separator, pairs)[1..]
  }

  /** The pairs with an attribute. */
  function Named(pairs: seq<Pair>): seq<Pair> {
    if pairs == [] then [] else (if pairs[0].attr == "" then [] else [pairs[0]]) + Named(pairs[1..])
  }

  lemma {:induction false} AllNamed(pairs: seq<Pair>)
    requires forall i | 0 <= i < |pairs| :: pairs[i].attr != ""
    ensures Named(pairs) == pairs
  {
    if pairs != [] {
      AllNamed(pairs[1..]);
    }
  }

  // ----- round trip -----

  /** The state after text that is taken as it is. */
  function Taken(st: State, s: string): State {
    if st.inValue then st.(val := st.val + s) else st.(attr := st.attr + s)
  }

  lemma {:induction false} RunOne(separator: char, st: State, c: char, rest: string)
    ensures Run(separator, st, [c] + rest) == Run(separator, Step(separator, st, c), rest)
  {
    assert ([c] + rest)[1..] == rest;
  }

  /** A character of an escaped text. */
  lemma {:induction false} CharIsTaken(separator: char, st: State, c: char, rest: string)
    requires !st.escaped && separator != '\\' && separator != '='
    ensures Run(separator, st, (if c == '\\' || c == '=' || c == separator then "\\" else "") + [c] + rest) ==
            Run(separator, Taken(st, [c]), rest)
  {
    if c == '\\' || c == '=' || c == separator {
      EscapedText(c, rest);
      RunOne(separator, st, '\\', [c] + rest);
      RunOne(separator, st.(escaped := true), c, rest);
    } else {
      RunOne(separator, st, c, rest);
      assert "" + [c] == [c];
    }
  }

  lemma {:induction false} EscapedText(c: char, rest: string)
    ensures "\\" + [c] + rest == ['\\'] + ([c] + rest)
  {
  }

  lemma {:induction false} EscapeNext(separator: char, s: string, rest: string)
    requires s != ""
    ensures Escape(separator, s) + rest ==
            (if s[0] == '\\' || s[0] == '=' || s[0] == separator then "\\" else "") + [s[0]] +
                (Escape(separator, s[1..]) + rest)
  {
  }

  lemma {:induction false} TakenNext(st: State, s: string)
    requires s != ""
    ensures Taken(Taken(st, [s[0]]), s[1..]) == Taken(st, s)
  {
    assert s == [s[0]] + s[1..];
    assert st.val + [s[0]] + s[1..] == st.val + s;
    assert st.attr + [s[0]] + s[1..] == st.attr + s;
  }

  lemma {:induction false} TextIsTaken(separator: char, st: State, s: string, rest: string)
    requires !st.escaped && separator != '\\' && separator != '='
    ensures Run(separator, st, Escape(separator, s) + rest) == Run(separator, Taken(st, s), rest)
    decreases s
  {
    if s == "" {
      assert "" + rest == rest && st.val + s == st.val && st.attr + s == st.attr;
    } else {
      EscapeNext(separator, s, rest);
      CharIsTaken(separator, st, s[0], Escape(separator, s[1..]) + rest);
      TextIsTaken(separator, Taken(st, [s[0]]), s[1..], rest);
      TakenNext(st, s);
    }
  }

  lemma {:induction false} PairText(separator: char, p: Pair, rest: string)
    ensures RenderPair(separator, p) + rest == Escape(separator, p.attr) + (['='] + (Escape(separator, p.val) + rest))
  {
  }

  /** A pair is read into a state that begins a new one. */
  lemma {:induction false} PairIsTaken(separator: char, found: seq<Pair>, p: Pair, rest: string)
    requires separator != '\\' && separator != '='
    ensures Run(separator, State(found, "", "", false, false), RenderPair(separator, p) + rest) ==
            Run(separator, State(found, p.attr, p.val, true, false), rest)
  {
    var begin := State(found, "", "", false, false);
    var afterAttr := ['='] + (Escape(separator, p.val) + rest);
    PairText(separator, p, rest);
    TextIsTaken(separator, begin, p.attr, afterAttr);
    assert "" + p.attr == p.attr && "" + p.val == p.val;
    RunOne(separator, State(found, p.attr, "", false, false), '=', Escape(separator, p.val) + rest);
    TextIsTaken(separator, State(found, p.attr, "", true, false), p.val, rest);
  }

  lemma {:induction false} RenderFirst(separator: char, pairs: seq<Pair>)
    requires pairs != []
    ensures Render(separator, pairs) == [separator] + (RenderPair(separator, pairs[0]) + Render(separator, pairs[1..]))
    ensures RenderJoined(separator, pairs) == RenderPair(separator, pairs[0]) + Render(separator, pairs[1..])
  {
  }

  lemma {:induction false} FlushedFirst(found: seq<Pair>, pairs: seq<Pair>)
    requires pairs != []
    ensures Flushed(State(found, pairs[0].attr, pairs[0].val, true, false)) + Named(pairs[1..]) == found + Named(pairs)
  {
  }

  /** Pairs that each come after a separator. */
  lemma {:induction false} PairsAreRead(separator: char, st: State, pairs: seq<Pair>)
    requires separator != '\\' && separator != '=' && !st.escaped
    ensures Flushed(Run(separator, st, Render(separator, pairs))) == Flushed(st) + Named(pairs)
    decreases pairs
  {
    if pairs == [] {
      assert Flushed(st) + [] == Flushed(st);
    } else {
      var rest := Render(separator, pairs[1..]);
      RenderFirst(separator, pairs);
      RunOne(separator, st, separator, RenderPair(separator, pairs[0]) + rest);
      PairIsTaken(separator, Flushed(st), pairs[0], rest);
      PairsAreRead(separator, State(Flushed(st), pairs[0].attr, pairs[0].val, true, false), pairs[1..]);
      FlushedFirst(Flushed(st), pairs);
    }
  }

  /** The scanners find the pairs that have an attribute, in order, whether the text
      begins with a separator or not. */
  lemma {:induction false} PairsRoundTrip(separator: char, pairs: seq<Pair>)
    requires separator != '\\' && separator != '='
    ensures Pairs(separator, Render(separator, pairs)) == Named(pairs)
    ensures Pairs(separator, RenderJoined(separator, pairs)) == Named(pairs)
  {
    PairsAreRead(separator, START, pairs);
    assert [] + Named(pairs) == Named(pairs);
    if pairs != [] {
      var rest := Render(separator, pairs[1..]);
      RenderFirst(separator, pairs);
      PairIsTaken(separator, [], pairs[0], rest);
      PairsAreRead(separator, State([], pairs[0].attr, pairs[0].val, true, false), pairs[1..]);
      FlushedFirst([], pairs);
    }
  }

  /** The values of an attribute, in order. */
  function ValuesOf(pairs: seq<Pair>, attr: string): seq<string> {
    if pairs == [] then []
    else ValuesOf(pairs[..|pairs| - 1], attr) + if pairs[|pairs| - 1].attr == attr then [pairs[|pairs| - 1].val] else []
  }

  lemma {:induction false} ListsAreValues(pairs: seq<Pair>, attr: string)
    ensures attr in AsLists(pairs) <==> ValuesOf(pairs, attr) != []
    ensures attr in AsLists(pairs) ==> AsLists(pairs)[attr] == ValuesOf(pairs, attr)
  {
    if pairs != [] {
      ListsAreValues(pairs[..|pairs| - 1], attr);
    }
  }

  ghost predicate DistinctAttributes(pairs: seq<Pair>) {
    forall i, j | 0 <= i < j < |pairs| :: pairs[i].attr != pairs[j].attr
  }

  lemma {:induction false} DictHasPairs(pairs: seq<Pair>)
    requires DistinctAttributes(pairs)
    ensures forall attr :: attr in AsDict(pairs) <==> exists i :: 0 <= i < |pairs| && pairs[i].attr == attr
    ensures forall i | 0 <= i < |pairs| ::
        pairs[i].attr in AsDict(pairs) && AsDict(pairs)[pairs[i].attr] == pairs[i].val
  {
    if pairs != [] {
      var front, last := pairs[..|pairs| - 1], pairs[|pairs| - 1];
      DictHasPairs(front);
      var d := AsDict(pairs);
      forall i | 0 <= i < |pairs| ensures pairs[i].attr in d && d[pairs[i].attr] == pairs[i].val {
        if i < |front| {
          assert pairs[i] == front[i] && pairs[i].attr != last.attr;
        }
      }
      forall attr | attr in d ensures exists i :: 0 <= i < |pairs| && pairs[i].attr == attr {
        if attr == last.attr {
          assert pairs[|pairs| - 1].attr == attr;
        } else {
          assert attr in AsDict(front);
          var i :| 0 <= i < |front| && front[i].attr == attr;
          assert pairs[i].attr == attr;
        }
      }
    }
  }

  /** `parse_dn` recovers distinct attributes that are not empty. */
  lemma {:induction false} DnRoundTrip(pairs: seq<Pair>)
    requires DistinctAttributes(pairs) && forall i | 0 <= i < |pairs| :: pairs[i].attr != ""
    ensures var d := AsDict(Pairs(',', RenderJoined(',', pairs)));
            && (forall attr :: attr in d <==> exists i :: 0 <= i < |pairs| && pairs[i].attr == attr)
            && forall i | 0 <= i < |pairs| :: pairs[i].attr in d && d[pairs[i].attr] == pairs[i].val
  {
    PairsRoundTrip(',', pairs);
    AllNamed(pairs);
    DictHasPairs(pairs);
  }

  /** `parse_text_dn` recovers, for each attribute that is not empty, its values in order. */
  lemma {:induction false} TextDnRoundTrip(pairs: seq<Pair>, attr: string)
    ensures var d := AsLists(Pairs('/', Render('/', pairs)));
            && (attr in d <==> ValuesOf(Named(pairs), attr) != [])
            && (attr in d ==> d[attr] == ValuesOf(Named(pairs), attr))
  {
    PairsRoundTrip('/', pairs);
    ListsAreValues(Named(pairs), attr);
  }
}
