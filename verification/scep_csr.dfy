/** How `BaseVerifySCEPCSRView.do_post` finds the secret, the business unit and the
    serial number of an enrollment session in the subject of a CSR. */
module ScepCsr {
  import opened Wrappers
  import Decimal
  import QuotedWords

  datatype TypeVal = TypeVal(kind: string, value: string)
  type Rdn = seq<TypeVal>

  datatype Abort = UnknownOrganization | UnknownCommonName

  datatype Credentials = Credentials(prefix: string, secret: string, businessUnit: int, serialNumber: Option<string>)

  // ----- the subject as a dict -----

  function RdnDict(rdn: Rdn, before: map<string, string>): map<string, string> {
    if rdn == [] then before
    else RdnDict(rdn[..|rdn| - 1], before)[rdn[|rdn| - 1].kind := rdn[|rdn| - 1].value]
  }

  function SubjectDict(subject: seq<Rdn>): map<string, string> {
    if subject == [] then map[]
    else RdnDict(subject[|subject| - 1], SubjectDict(subject[..|subject| - 1]))
  }

  method ReadSubject(subject: seq<Rdn>) returns (d: map<string, string>)
    ensures d == SubjectDict(subject)
  {
    d := map[];
    for i := 0 to |subject|
      invariant d == SubjectDict(subject[..i])
    {
      assert subject[..i + 1][..i] == subject[..i];
      ghost var before := d;
      var rdn := subject[i];
      for j := 0 to |rdn|
        invariant d == RdnDict(rdn[..j], before)
      {
        assert rdn[..j + 1][..j] == rdn[..j];
        d := d[rdn[j].kind := rdn[j].value];
      }
      assert rdn[..|rdn|] == rdn;
    }
    assert subject[..|subject|] == subject;
  }

  // ----- the parts -----

  /** `s.rsplit("$", 1)`, if there is a separator */
  function RSplit(s: string): Option<(string, string)> {
    if s == "" then None
    else if s[|s| - 1] == '$' then Some((s[..|s| - 1], ""))
    else
      match RSplit(s[..|s| - 1])
      case None => None
      case Some((prefix, secret)) => Some((prefix, secret + [s[|s| - 1]]))
  }

  const ORGANIZATION := "MBU$"

  /** Digits, with single underscores between them. */
  predicate IsNumeral(s: string) {
    && s != "" && Decimal.IsDigit(s[0]) && Decimal.IsDigit(s[|s| - 1])
    && (forall c | c in s :: Decimal.IsDigit(c) || c == '_')
    && forall i | 0 < i < |s| :: s[i] == '_' ==> s[i - 1] != '_'
  }

  function NumeralValue(s: string): nat {
    if s == "" then 0
    else if Decimal.IsDigit(s[|s| - 1]) then 10 * NumeralValue(s[..|s| - 1]) + (s[|s| - 1] as int - '0' as int)
    else NumeralValue(s[..|s| - 1])
  }

  /** `int(text)`, for texts in ASCII */
  function ParseInt(text: string): Option<int> {
    var s := QuotedWords.Strip(text);
    if s != "" && (s[0] == '+' || s[0] == '-') then
      if IsNumeral(s[1..]) then Some(if s[0] == '-' then 0 - NumeralValue(s[1..]) else NumeralValue(s[1..])) else None
    else if IsNumeral(s) then Some(NumeralValue(s))
    else None
  }

  /** The business unit of an organization name. */
  function BusinessUnit(organization: Option<string>): Option<int> {
    if organization.None? || !(ORGANIZATION <= organization.value) then None else ParseInt(organization.value[4..])
  }

  function Get(d: map<string, string>, key: string): Option<string> {
    if key in d then Some(d[key]) else None
  }

  function CredentialsIn(d: map<string, string>): Result<Credentials, Abort> {
    var serial := Get(d, "serial_number");
    var unit := BusinessUnit(Get(d, "organization_name"));
    if unit.None? then Err(UnknownOrganization)
    else if "common_name" !in d || RSplit(d["common_name"]).None? then Err(UnknownCommonName)
    else
      var (prefix, secret) := RSplit(d["common_name"]).value;
      Ok(Credentials(prefix, secret, unit.value, if serial == Some("") then None else serial))
  }

  // ----- what an enrollment session puts into its CSR -----

  function CommonName(prefix: string, secret: string): string {
    prefix + "$" + secret
  }

  function Organization(businessUnit: int): string {
    ORGANIZATION + Decimal.Str(businessUnit)
  }

  /** The last "$" separates the prefix from a secret without "$", and nothing else does. */
  lemma {:induction false} RSplitMeaning(s: string, prefix: string, secret: string)
    ensures RSplit(s) == Some((prefix, secret)) <==> s == CommonName(prefix, secret) && '$' !in secret
  {
    if s != "" && s[|s| - 1] != '$' {
      var front, c := s[..|s| - 1], s[|s| - 1];
      assert s == front + [c];
      if secret != "" && secret[|secret| - 1] == c {
        var shorter := secret[..|secret| - 1];
        assert secret == shorter + [c];
        RSplitMeaning(front, prefix, shorter);
        assert CommonName(prefix, secret) == CommonName(prefix, shorter) + [c];
        assert s == CommonName(prefix, secret) <==> front == CommonName(prefix, shorter) by {
          if s == CommonName(prefix, secret) {
            assert front == CommonName(prefix, secret)[..|s| - 1];
          }
        }
      }
    } else if s != "" {
      if s == CommonName(prefix, secret) && secret != "" {
        assert s[|s| - 1] == secret[|secret| - 1] && secret[|secret| - 1] in secret;
      }
      assert s == s[..|s| - 1] + "$" == CommonName(s[..|s| - 1], "");
      if secret == "" {
        assert CommonName(prefix, secret)[..|prefix|] == prefix;
      }
    }
  }

  lemma {:induction false} NumeralOfDigits(n: nat)
    ensures IsNumeral(Decimal.Digits(n)) && NumeralValue(Decimal.Digits(n)) == n
    decreases n
  {
    var s := Decimal.Digits(n);
    assert forall i | 0 <= i < |s| :: Decimal.IsDigit(s[i]);
    if n >= 10 {
      NumeralOfDigits(n / 10);
      assert s[..|s| - 1] == Decimal.Digits(n / 10);
    } else {
      assert s[..|s| - 1] == "";
    }
  }

  lemma {:induction false} NotStripped(s: string)
    requires s != "" && !QuotedWords.IsSpace(s[0]) && !QuotedWords.IsSpace(s[|s| - 1])
    ensures QuotedWords.Strip(s) == s
  {
  }

  /** `int(str(n)) == n` */
  lemma {:induction false} ParseIntOfStr(n: int)
    ensures ParseInt(Decimal.Str(n)) == Some(n)
  {
    var digits := Decimal.Digits(if n < 0 then -n else n);
    NumeralOfDigits(if n < 0 then -n else n);
    assert Decimal.IsDigit(digits[0]) && Decimal.IsDigit(digits[|digits| - 1]);
    NotStripped(Decimal.Str(n));
    if n < 0 {
      assert Decimal.Str(n)[1..] == digits;
    }
  }

  /** The credentials of a session come back from a subject that carries them. */
  lemma {:induction false} CredentialsRoundTrip(d: map<string, string>, prefix: string, secret: string,
      businessUnit: int, serial: string)
    requires Get(d, "common_name") == Some(CommonName(prefix, secret)) && '$' !in secret
    requires Get(d, "organization_name") == Some(Organization(businessUnit))
    requires Get(d, "serial_number") == Some(serial) && serial != ""
    ensures CredentialsIn(d) == Ok(Credentials(prefix, secret, businessUnit, Some(serial)))
  {
    RSplitMeaning(CommonName(prefix, secret), prefix, secret);
    var organization := Organization(businessUnit);
    assert organization[4..] == Decimal.Str(businessUnit);
    ParseIntOfStr(businessUnit);
  }

  // ----- what is read -----

  ghost predicate AllDigits(s: string) {
    s != "" && forall c | c in s :: Decimal.IsDigit(c)
  }

  /** A numeral without underscores is its digits. */
  lemma {:induction false} PlainNumeral(s: string)
    requires '_' !in s
    ensures IsNumeral(s) <==> AllDigits(s)
    ensures AllDigits(s) ==> (forall i | 0 <= i < |s| :: Decimal.IsDigit(s[i])) && NumeralValue(s) == Decimal.Value(s)
  {
    if AllDigits(s) {
      assert forall i | 0 <= i < |s| :: s[i] in s;
      DigitsValue(s);
    }
  }

  lemma {:induction false} DigitsValue(s: string)
    requires forall i | 0 <= i < |s| :: Decimal.IsDigit(s[i])
    ensures NumeralValue(s) == Decimal.Value(s)
  {
    if s != "" {
      DigitsValue(s[..|s| - 1]);
    }
  }

  /** An underscore joins two numerals, and does not count. */
  lemma {:induction false} JoinedNumeral(a: string, b: string)
    ensures IsNumeral(a + "_" + b) <==> IsNumeral(a) && IsNumeral(b)
    ensures NumeralValue(a + "_" + b) == NumeralValue(a + b)
  {
    var s := a + "_" + b;
    assert s[|a|] == '_' && (forall i | 0 <= i < |a| :: s[i] == a[i]);
    assert forall i | 0 <= i < |b| :: s[|a| + 1 + i] == b[i];
    if IsNumeral(s) {
      NumeralHalves(a, b);
    }
    if IsNumeral(a) && IsNumeral(b) {
      assert s[0] == a[0] && s[|s| - 1] == b[|b| - 1];
    }
    Underscore(a, b);
  }

  lemma {:induction false} UnderscoreInside(a: string, b: string)
    ensures a == "" ==> (a + "_" + b)[0] == '_'
    ensures b == "" ==> (a + "_" + b)[|a|] == '_'
  {
  }

  lemma {:induction false} NumeralHalves(a: string, b: string)
    requires IsNumeral(a + "_" + b)
    ensures IsNumeral(a) && IsNumeral(b)
  {
    var s := a + "_" + b;
    assert s[|a|] == '_' && (forall i | 0 <= i < |a| :: s[i] == a[i]);
    assert forall i | 0 <= i < |b| :: s[|a| + 1 + i] == b[i];
    UnderscoreInside(a, b);
    assert Decimal.IsDigit(a[0]) && Decimal.IsDigit(b[|b| - 1]);
    assert a[|a| - 1] == s[|a| - 1] && a[|a| - 1] in s && a[|a| - 1] != '_';
    assert b[0] == s[|a| + 1] && b[0] in s && b[0] != '_';
    assert forall c | c in a :: c in s;
    assert forall c | c in b :: c in s;
  }

  lemma {:induction false} Underscore(a: string, b: string)
    ensures NumeralValue(a + "_" + b) == NumeralValue(a + b)
  {
    var long, short := a + "_" + b, a + b;
    if b == "" {
      assert long[..|long| - 1] == a && short == a;
    } else {
      var front := b[..|b| - 1];
      assert long[..|long| - 1] == a + "_" + front && short[..|short| - 1] == a + front;
      Underscore(a, front);
    }
  }

  /** An optional sign before a numeral. */
  ghost predicate Signed(sign: string, numeral: string, n: int) {
    && IsNumeral(numeral)
    && ((sign == "" && n == NumeralValue(numeral)) || (sign == "+" && n == NumeralValue(numeral))
        || (sign == "-" && n == -(NumeralValue(numeral) as int)))
  }

  /** `int` reads a numeral with an optional sign, and white space around it. */
  lemma {:induction false} ParseIntExactly(text: string, n: int)
    ensures ParseInt(text) == Some(n) <==>
            exists before: string, sign: string, numeral: string, after: string ::
              && text == before + (sign + numeral) + after && Signed(sign, numeral, n)
              && QuotedWords.AllSpace(before) && QuotedWords.AllSpace(after)
  {
    if ParseInt(text) == Some(n) {
      var before, after := QuotedWords.StripSplits(text);
      var s := QuotedWords.Strip(text);
      if s[0] == '+' || s[0] == '-' {
        assert s == [s[0]] + s[1..];
        assert text == before + ([s[0]] + s[1..]) + after && Signed([s[0]], s[1..], n);
      } else {
        assert s == "" + s;
        assert text == before + ("" + s) + after && Signed("", s, n);
      }
    }
    if before: string, sign: string, numeral: string, after: string :|
      && text == before + (sign + numeral) + after && Signed(sign, numeral, n)
      && QuotedWords.AllSpace(before) && QuotedWords.AllSpace(after)
    {
      SignedParses(text, before, sign, numeral, after, n);
    }
  }

  lemma {:induction false} SignedParses(text: string, before: string, sign: string, numeral: string, after: string,
      n: int)
    requires text == before + (sign + numeral) + after && Signed(sign, numeral, n)
    requires QuotedWords.AllSpace(before) && QuotedWords.AllSpace(after)
    ensures ParseInt(text) == Some(n)
  {
    SignedTrimmed(sign, numeral);
    QuotedWords.StripSpaces(before, sign + numeral, after);
    if sign == "" {
      assert sign + numeral == numeral;
    } else {
      assert (sign + numeral)[1..] == numeral;
    }
  }

  lemma {:induction false} SignedTrimmed(sign: string, numeral: string)
    requires IsNumeral(numeral) && (sign == "" || sign == "+" || sign == "-")
    ensures QuotedWords.Trimmed(sign + numeral)
  {
    var s := sign + numeral;
    assert s[|s| - 1] == numeral[|numeral| - 1] && s[0] == if sign == "" then numeral[0] else sign[0];
  }

  /** A subject is read if its organization is "MBU$" and a number, and its common name has
      a "$"; a serial number that is empty is none. */
  lemma {:induction false} CredentialsExactly(d: map<string, string>, c: Credentials)
    ensures CredentialsIn(d) == Ok(c) <==>
            && (exists number: string ::
                  && "organization_name" in d && d["organization_name"] == "MBU$" + number
                  && ParseInt(number) == Some(c.businessUnit))
            && "common_name" in d && d["common_name"] == c.prefix + "$" + c.secret && '$' !in c.secret
            && c.serialNumber ==
               (if "serial_number" in d && d["serial_number"] != "" then Some(d["serial_number"]) else None)
  {
    if "common_name" in d {
      RSplitMeaning(d["common_name"], c.prefix, c.secret);
    }
    if "organization_name" in d {
      var organization := d["organization_name"];
      if "MBU$" <= organization {
        assert organization == "MBU$" + organization[4..];
      }
      forall number: string | organization == "MBU$" + number ensures organization[4..] == number {
      }
    }
  }

  /** The organization is looked at first. */
  lemma {:induction false} WrongOrganization(d: map<string, string>)
    ensures CredentialsIn(d) == Err(UnknownOrganization) <==>
            !exists number: string ::
               && "organization_name" in d && d["organization_name"] == "MBU$" + number && ParseInt(number).Some?
  {
    if "organization_name" in d {
      var organization := d["organization_name"];
      if "MBU$" <= organization {
        assert organization == "MBU$" + organization[4..];
      }
      forall number: string | organization == "MBU$" + number ensures organization[4..] == number {
      }
    }
  }
}
