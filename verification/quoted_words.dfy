/** Lists of words in a form field: separated by commas, quoted if they contain one. */
module QuotedWords {

  /** `str.isspace` */
  predicate IsSpace(c: char) {
    var n := c as int;
    9 <= n <= 13 || 28 <= n <= 32 || n == 0x85 || n == 0xA0 || n == 0x1680 || 0x2000 <= n <= 0x200A
    || n == 0x2028 || n == 0x2029 || n == 0x202F || n == 0x205F || n == 0x3000
  }

  function LStrip(s: string): string {
    if s != "" && IsSpace(s[0]) then LStrip(s[1..]) else s
  }

  function RStrip(s: string): string {
    if s != "" && IsSpace(s[|s| - 1]) then RStrip(s[..|s| - 1]) else s
  }

  function Strip(s: string): string {
    RStrip(LStrip(s))
  }

  // ----- split_comma_separated_quoted_string -----

  datatype State = State(words: seq<string>, current: string, quote: bool)

  const START := State([], "", false)

  /** The words so far, and the current one if something is left of it. */
  function Flushed(st: State): seq<string> {
    st.words + if Strip(st.current) != "" then [Strip(st.current)] else []
  }

  function Step(st: State, c: char): State {
    if c == '"' then State(Flushed(st), "", !st.quote)
    else if c == ',' && !st.quote then State(Flushed(st), "", false)
    else st.(current := st.current + [c])
  }

  function Run(st: State, s: string): State
    decreases s
  {
    if s == "" then st else Run(Step(st, s[0]), s[1..])
  }

  function Split(s: string): seq<string> {
    Flushed(Run(START, s))
  }

  method SplitCommaSeparatedQuotedString(s: string) returns (words: seq<string>)
    ensures words == Split(s)
  {
    var current, quote := "", false;
    words := [];
    for i := 0 to |s|
      invariant Run(START, s) == Run(State(words, current, quote), s[i..])
    {
      assert s[i..][1..] == s[i + 1..];
      var c := s[i];
      if c == '"' {
        words, current := Flushed(State(words, current, quote)), "";
        quote := !quote;
      } else if c == ',' {
        if quote {
          current := current + [c];
        } else {
          words, current := Flushed(State(words, current, quote)), "";
        }
      } else {
        current := current + [c];
      }
    }
    words := Flushed(State(words, current, quote));
  }

  // ----- prepare_value -----

  function Quoted(w: string): string {
    if ',' in w then "\"" + w + "\"" else w
  }

  /** `", ".join(words)` */
  function Join(words: seq<string>): string {
    if words == [] then "" else if |words| == 1 then words[0] else words[0] + ", " + Join(words[1..])
  }

  /** The words, quoted where they contain a comma, and joined. */
  function Prepared(words: seq<string>): string {
    if words == [] then ""
    else if |words| == 1 then Quoted(words[0])
    else Quoted(words[0]) + ", " + Prepared(words[1..])
  }

  method PrepareValue(value: seq<string>) returns (r: string)
    ensures r == Prepared(value)
  {
    var words := [];
    for i := 0 to |value|
      invariant |words| == i && forall k | 0 <= k < i :: words[k] == Quoted(value[k])
    {
      var w := value[i];
      if ',' in w {
        w := "\"" + w + "\"";
      }
      words := words + [w];
    }
    JoinQuoted(words, value);
    r := Join(words);
  }

  lemma {:induction false} JoinQuoted(words: seq<string>, value: seq<string>)
    requires |words| == |value| && forall k | 0 <= k < |value| :: words[k] == Quoted(value[k])
    ensures Join(words) == Prepared(value)
  {
    if |words| > 1 {
      JoinQuoted(words[1..], value[1..]);
    }
  }

  /** `to_python`: a form field strips its text first. */
  function ToPython(text: string): seq<string> {
    Split(Strip(text))
  }

  // ----- stripped words -----

  predicate Trimmed(w: string) {
    w != "" && !IsSpace(w[0]) && !IsSpace(w[|w| - 1])
  }

  /** What a word must be to come back. */
  predicate Plain(w: string) {
    Trimmed(w) && '"' !in w
  }

  lemma {:induction false} LStripIs(s: string)
    ensures LStrip(s) == "" || !IsSpace(LStrip(s)[0])
    ensures LStrip(s) != "" ==> s != "" && LStrip(s)[|LStrip(s)| - 1] == s[|s| - 1]
    ensures forall c | c in LStrip(s) :: c in s
  {
    if s != "" && IsSpace(s[0]) {
      LStripIs(s[1..]);
      assert forall c | c in s[1..] :: c in s;
    }
  }

  lemma {:induction false} RStripIs(s: string)
    ensures RStrip(s) == "" || !IsSpace(RStrip(s)[|RStrip(s)| - 1])
    ensures RStrip(s) != "" ==> s != "" && RStrip(s)[0] == s[0]
    ensures forall c | c in RStrip(s) :: c in s
  {
    if s != "" && IsSpace(s[|s| - 1]) {
      RStripIs(s[..|s| - 1]);
      assert forall c | c in s[..|s| - 1] :: c in s;
    }
  }

  lemma {:induction false} StripIs(s: string)
    ensures Strip(s) == "" || Trimmed(Strip(s))
    ensures forall c | c in Strip(s) :: c in s
  {
    LStripIs(s);
    RStripIs(LStrip(s));
  }

  ghost predicate AllSpace(s: string) {
    forall c | c in s :: IsSpace(c)
  }

  lemma {:induction false} LStripSplits(s: string) returns (before: string)
    ensures AllSpace(before) && s == before + LStrip(s)
  {
    if s != "" && IsSpace(s[0]) {
      var rest := LStripSplits(s[1..]);
      before := [s[0]] + rest;
      Prepend(s, rest, LStrip(s[1..]));
    } else {
      before := "";
    }
  }

  lemma {:induction false} Prepend(s: string, rest: string, tail: string)
    requires s != "" && s[1..] == rest + tail
    ensures s == [s[0]] + rest + tail
  {
    assert s == [s[0]] + s[1..];
  }

  lemma {:induction false} RStripSplits(s: string) returns (after: string)
    ensures AllSpace(after) && s == RStrip(s) + after
  {
    if s != "" && IsSpace(s[|s| - 1]) {
      var rest := RStripSplits(s[..|s| - 1]);
      after := rest + [s[|s| - 1]];
      assert s == s[..|s| - 1] + [s[|s| - 1]];
    } else {
      after := "";
    }
  }

  /** Only white space is taken off, on both sides, and all of it. */
  lemma {:induction false} StripSplits(s: string) returns (before: string, after: string)
    ensures AllSpace(before) && AllSpace(after) && s == before + Strip(s) + after
    ensures Strip(s) == "" || Trimmed(Strip(s))
  {
    before := LStripSplits(s);
    after := RStripSplits(LStrip(s));
    StripIs(s);
  }

  lemma {:induction false} LStripSpaces(before: string, s: string)
    requires AllSpace(before) && (s == "" || !IsSpace(s[0]))
    ensures LStrip(before + s) == s
  {
    if before != "" {
      assert (before + s)[1..] == before[1..] + s && before[0] in before;
      assert forall c | c in before[1..] :: c in before;
      LStripSpaces(before[1..], s);
    } else {
      assert before + s == s;
    }
  }

  lemma {:induction false} RStripSpaces(s: string, after: string)
    requires AllSpace(after) && (s == "" || !IsSpace(s[|s| - 1]))
    ensures RStrip(s + after) == s
  {
    if after != "" {
      var front := after[..|after| - 1];
      assert (s + after)[..|s + after| - 1] == s + front && after[|after| - 1] in after;
      assert forall c | c in front :: c in after;
      RStripSpaces(s, front);
    } else {
      assert s + after == s;
    }
  }

  lemma {:induction false} StripSpaces(before: string, w: string, after: string)
    requires AllSpace(before) && AllSpace(after) && Trimmed(w)
    ensures Strip(before + w + after) == w
  {
    assert before + w + after == before + (w + after) && (w + after)[0] == w[0];
    LStripSpaces(before, w + after);
    RStripSpaces(w, after);
  }

  lemma {:induction false} StripTrimmed(w: string)
    requires Trimmed(w)
    ensures Strip(w) == w && Strip(" " + w) == w
  {
    assert (" " + w)[1..] == w;
  }

  // ----- round trip -----

  /** Characters that are just collected. */
  lemma {:induction false} Collects(st: State, w: string, rest: string)
    requires '"' !in w && (',' !in w || st.quote)
    ensures Run(st, w + rest) == Run(st.(current := st.current + w), rest)
    decreases w
  {
    if w == "" {
      assert w + rest == rest && st.current + w == st.current;
    } else {
      assert (w + rest)[0] == w[0] && w[0] in w && (w + rest)[1..] == w[1..] + rest;
      assert forall c | c in w[1..] :: c in w;
      Collects(st.(current := st.current + [w[0]]), w[1..], rest);
      assert st.current + [w[0]] + w[1..] == st.current + w;
    }
  }

  lemma {:induction false} RunNext(st: State, c: char, rest: string)
    ensures Run(st, [c] + rest) == Run(Step(st, c), rest)
  {
    assert ([c] + rest)[1..] == rest;
  }

  /** Between two words. */
  predicate Ready(st: State) {
    !st.quote && (st.current == "" || st.current == " ")
  }

  /** The state after a word. */
  function AfterWord(st: State, w: string): State {
    if ',' in w then State(st.words + [w], "", false) else st.(current := st.current + w)
  }

  lemma {:induction false} NothingToFlush(st: State)
    requires Ready(st)
    ensures Flushed(st) == st.words
  {
    assert LStrip("") == "" && " "[1..] == "";
  }

  lemma {:induction false} QuoteIsClosed(st: State, w: string, rest: string)
    requires Plain(w) && st == State(st.words, "", true)
    ensures Run(st, w + (['"'] + rest)) == Run(State(st.words + [w], "", false), rest)
  {
    Collects(st, w, ['"'] + rest);
    assert "" + w == w;
    StripTrimmed(w);
    RunNext(State(st.words, w, true), '"', rest);
  }

  lemma {:induction false} QuotedText(w: string, rest: string)
    requires ',' in w
    ensures Quoted(w) + rest == ['"'] + (w + (['"'] + rest))
  {
  }

  lemma {:induction false} QuotedWordIsRead(st: State, w: string, rest: string)
    requires Ready(st) && Plain(w) && ',' in w
    ensures Run(st, Quoted(w) + rest) == Run(State(st.words + [w], "", false), rest)
  {
    var tail := w + (['"'] + rest);
    QuotedText(w, rest);
    RunNext(st, '"', tail);
    NothingToFlush(st);
    QuoteIsClosed(State(st.words, "", true), w, rest);
  }

  lemma {:induction false} WordIsRead(st: State, w: string, rest: string)
    requires Ready(st) && Plain(w)
    ensures Run(st, Quoted(w) + rest) == Run(AfterWord(st, w), rest)
  {
    if ',' in w {
      QuotedWordIsRead(st, w, rest);
    } else {
      Collects(st, w, rest);
    }
  }

  lemma {:induction false} WordIsFlushed(st: State, w: string)
    requires Ready(st) && Plain(w)
    ensures Flushed(AfterWord(st, w)) == st.words + [w] && !AfterWord(st, w).quote
  {
    StripTrimmed(w);
    assert Strip("") == "" && "" + w == w;
  }

  lemma {:induction false} SeparatorIsRead(st: State, rest: string)
    requires !st.quote
    ensures Run(st, ", " + rest) == Run(State(Flushed(st), " ", false), rest)
  {
    assert ", " + rest == [','] + ([' '] + rest);
    RunNext(st, ',', [' '] + rest);
    RunNext(State(Flushed(st), "", false), ' ', rest);
    assert "" + [' '] == " ";
  }

  lemma {:induction false} LastWordIsRead(st: State, w: string)
    requires Ready(st) && Plain(w)
    ensures Flushed(Run(st, Quoted(w))) == st.words + [w]
  {
    WordIsRead(st, w, "");
    WordIsFlushed(st, w);
    assert Quoted(w) + "" == Quoted(w);
  }

  lemma {:induction false} FirstWordIsRead(st: State, w: string, rest: string)
    requires Ready(st) && Plain(w)
    ensures Run(st, Quoted(w) + (", " + rest)) == Run(State(st.words + [w], " ", false), rest)
  {
    WordIsRead(st, w, ", " + rest);
    WordIsFlushed(st, w);
    SeparatorIsRead(AfterWord(st, w), rest);
  }

  predicate AllPlain(words: seq<string>) {
    forall i | 0 <= i < |words| :: Plain(words[i])
  }

  lemma {:induction false} PreparedText(words: seq<string>)
    requires |words| > 1
    ensures Prepared(words) == Quoted(words[0]) + (", " + Prepared(words[1..]))
  {
  }

  lemma {:induction false} FirstAndRest(before: seq<string>, words: seq<string>)
    requires words != []
    ensures before + [words[0]] + words[1..] == before + words
  {
  }

  lemma {:induction false} WordsAreRead(st: State, words: seq<string>)
    requires Ready(st) && words != [] && AllPlain(words)
    ensures Flushed(Run(st, Prepared(words))) == st.words + words
    decreases words
  {
    if |words| == 1 {
      LastWordIsRead(st, words[0]);
      assert words == [words[0]];
    } else {
      var rest := Prepared(words[1..]);
      PreparedText(words);
      FirstWordIsRead(st, words[0], rest);
      WordsAreRead(State(st.words + [words[0]], " ", false), words[1..]);
      FirstAndRest(st.words, words);
    }
  }

  /** All words found are trimmed, not empty, and without quotes. */
  lemma {:induction false} OnlyPlainWords(st: State, s: string)
    requires AllPlain(st.words)
    requires '"' !in st.current
    ensures AllPlain(Flushed(Run(st, s)))
    decreases s
  {
    StripIs(st.current);
    if s != "" {
      OnlyPlainWords(Step(st, s[0]), s[1..]);
    }
  }

  /** A list of words comes back from its text exactly when its words are trimmed, not
      empty, and without quotes. */
  lemma {:induction false} SplitRoundTrip(words: seq<string>)
    ensures Split(Prepared(words)) == words <==> AllPlain(words)
  {
    OnlyPlainWords(START, Prepared(words));
    if AllPlain(words) {
      if words == [] {
        assert Strip("") == "";
      } else {
        WordsAreRead(START, words);
        assert [] + words == words;
      }
    }
  }

  lemma {:induction false} PreparedEnds(words: seq<string>)
    requires words != [] && AllPlain(words)
    ensures Trimmed(Prepared(words))
  {
    if |words| > 1 {
      PreparedEnds(words[1..]);
    }
  }

  /** The form field strips the text first, which changes nothing about this. */
  lemma {:induction false} FieldRoundTrip(words: seq<string>)
    ensures ToPython(Prepared(words)) == words <==> AllPlain(words)
  {
    OnlyPlainWords(START, Strip(Prepared(words)));
    if words != [] && AllPlain(words) {
      SplitRoundTrip(words);
      PreparedEnds(words);
      StripTrimmed(Prepared(words));
    }
  }

  /** The white space of `str.isspace`, by code point. */
  const SPACES := {
    9, 10, 11, 12, 13, 28, 29, 30, 31, 32, 133, 160, 5760, 8192, 8193, 8194, 8195, 8196, 8197, 8198, 8199, 8200, 8201,
    8202, 8232, 8233, 8239, 8287, 12288
  }

  lemma {:induction false} SpacesAre(c: char)
    ensures IsSpace(c) <==> c as int in SPACES
  {
  }
}
