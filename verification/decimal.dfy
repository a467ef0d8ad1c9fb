/** `str(n)` and its inverse for Python integers. */
module Decimal {
  import opened Wrappers

  predicate IsDigit(c: char) {
    '0' <= c <= '9'
  }

  function Digits(n: nat): (s: string)
    ensures |s| > 0
    ensures forall i :: 0 <= i < |s| ==> IsDigit(s[i])
    decreases n
  {
    if n < 10 then ['0' + n as char] else Digits(n / 10) + ['0' + (n % 10) as char]
  }

  function Str(n: int): (s: string)
    ensures |s| > 0 && (s[0] == '-' || IsDigit(s[0]))
  {
    if n < 0 then ['-'] + Digits(-n) else Digits(n)
  }

  function Value(s: string): nat
    requires forall i :: 0 <= i < |s| ==> IsDigit(s[i])
  {
    if s == "" then 0 else
      assert IsDigit(s[|s| - 1]);
      10 * Value(s[..|s| - 1]) + (s[|s| - 1] as int - '0' as int)
  }

  lemma {:induction false} ValueOfDigits(n: nat)
    ensures Value(Digits(n)) == n
    decreases n
  {
    if n >= 10 {
      ValueOfDigits(n / 10);
      var s := Digits(n);
      assert s[..|s| - 1] == Digits(n / 10);
    } else {
      var s := Digits(n);
      assert s[..|s| - 1] == "";
    }
  }

  /** Distinct integers print differently. */
  lemma {:induction false} StrInjective(m: int, n: int)
    requires Str(m) == Str(n)
    ensures m == n
  {
    if m < 0 {
      assert Str(m)[1..] == Digits(-m);
      if n < 0 {
        assert Str(n)[1..] == Digits(-n);
        ValueOfDigits(-m);
        ValueOfDigits(-n);
      }
    } else if n >= 0 {
      ValueOfDigits(m);
      ValueOfDigits(n);
    }
  }

  // ----- reading -----

  /** Digits without a leading zero. */
  predicate Plain(s: string) {
    s != "" && (forall i | 0 <= i < |s| :: IsDigit(s[i])) && (|s| == 1 || s[0] != '0')
  }

  /** `int(s)` of the texts that `str` writes: a sign, then digits. */
  function Read(s: string): Option<int> {
    if s != "" && s[0] == '-' then
      if Plain(s[1..]) && s[1..] != "0" then Some(-(Value(s[1..]) as int)) else None
    else if Plain(s) then Some(Value(s)) else None
  }

  lemma {:induction false} DigitsPlain(n: nat)
    ensures Plain(Digits(n)) && (Digits(n) == "0" <==> n == 0)
    decreases n
  {
    if n >= 10 {
      DigitsPlain(n / 10);
      assert Digits(n)[0] == Digits(n / 10)[0];
    } else {
      assert Digits(n)[0] == '0' + n as char;
    }
  }

  lemma {:induction false} PlainIsDigits(s: string)
    requires Plain(s)
    ensures Digits(Value(s)) == s
  {
    var front, c := s[..|s| - 1], s[|s| - 1];
    assert s == front + [c] && IsDigit(c);
    if front == "" {
      assert Value(s) == c as int - '0' as int;
    } else {
      assert Plain(front);
      PlainIsDigits(front);
      DigitsPlain(Value(front));
      assert front[0] == s[0] && front != "0";
      assert Value(s) / 10 == Value(front) && Value(s) % 10 == c as int - '0' as int;
    }
  }

  /** The texts of natural numbers are those without a leading zero. */
  lemma {:induction false} PlainExactly(n: nat, s: string)
    ensures Plain(s) && Value(s) == n <==> s == Digits(n)
  {
    DigitsPlain(n);
    ValueOfDigits(n);
    if Plain(s) {
      PlainIsDigits(s);
    }
  }

  /** A number is read back from its text, and from no other. */
  lemma {:induction false} ReadExactly(n: int, s: string)
    ensures Read(s) == Some(n) <==> s == Str(n)
  {
    if s != "" && s[0] == '-' {
      assert s == ['-'] + s[1..];
      NegativeExactly(n, s[1..]);
    } else if n >= 0 {
      PlainExactly(n, s);
    }
  }

  lemma {:induction false} NegativeExactly(n: int, digits: string)
    ensures Read(['-'] + digits) == Some(n) <==> ['-'] + digits == Str(n)
  {
    var s := ['-'] + digits;
    assert s[1..] == digits;
    if n < 0 {
      PlainExactly(-n, digits);
      DigitsPlain(-n);
      assert Str(n)[1..] == Digits(-n);
    } else {
      DigitsPlain(n);
      assert Str(n)[0] != '-';
      PlainExactly(0, digits);
      DigitsPlain(0);
    }
  }
}
