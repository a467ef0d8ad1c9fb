/** Serial numbers in URLs: as they are, or base64url encoded after a dot. All texts are
    their UTF-8 bytes. */
module UrlsafeSerialNumbers {
  import opened Wrappers

  type Byte = n: nat | n < 256
  type Bytes = seq<Byte>

  const DOT: Byte := 46
  const EQUALS: Byte := 61

  // ----- section 2.3 of RFC 3986 -----

  predicate IsAlnum(b: Byte) {
    48 <= b <= 57 || 65 <= b <= 90 || 97 <= b <= 122
  }

  /** Letters, digits, and - . _ ~ */
  predicate Unreserved(b: Byte) {
    IsAlnum(b) || b == 45 || b == DOT || b == 95 || b == 126
  }

  predicate AllUnreserved(s: Bytes) {
    forall i | 0 <= i < |s| :: Unreserved(s[i])
  }

  // ----- section 5 of RFC 4648 -----

  type Sextet = n: nat | n < 64

  /** The character for six bits. */
  function Letter(n: Sextet): (r: Byte)
    ensures r != EQUALS && r != DOT && Unreserved(r)
  {
    if n < 26 then 65 + n
    else if n < 52 then 97 + (n - 26)
    else if n < 62 then 48 + (n - 52)
    else if n == 62 then 45
    else 95
  }

  function SextetOf(b: Byte): (r: Option<Sextet>)
    ensures r.Some? ==> Letter(r.value) == b
  {
    if 65 <= b <= 90 then Some(b - 65)
    else if 97 <= b <= 122 then Some(b - 97 + 26)
    else if 48 <= b <= 57 then Some(b - 48 + 52)
    else if b == 45 then Some(62)
    else if b == 95 then Some(63)
    else None
  }

  lemma {:induction false} SextetOfLetter(n: Sextet)
    ensures SextetOf(Letter(n)) == Some(n)
  {
  }

  // Three bytes are cut into four sextets.

  function First(a: Byte): Sextet {
    a / 4
  }

  function Second(a: Byte, b: Byte): Sextet {
    a % 4 * 16 + b / 16
  }

  function Third(b: Byte, c: Byte): Sextet {
    b % 16 * 4 + c / 64
  }

  function Fourth(c: Byte): Sextet {
    c % 64
  }

  // And put together again.

  function ByteA(x: Sextet, y: Sextet): Byte {
    x * 4 + y / 16
  }

  function ByteB(y: Sextet, z: Sextet): Byte {
    y % 16 * 16 + z / 4
  }

  function ByteC(z: Sextet, w: Sextet): Byte {
    z % 4 * 64 + w
  }

  lemma {:induction false} BytesComeBack(a: Byte, b: Byte, c: Byte)
    ensures ByteA(First(a), Second(a, b)) == a
    ensures ByteB(Second(a, b), Third(b, c)) == b
    ensures ByteC(Third(b, c), Fourth(c)) == c
  {
  }

  /** The letters for at most three bytes, without padding. */
  function Letters(s: Bytes): (r: Bytes)
    ensures |r| == if s == [] then 0 else if |s| <= 2 then |s| + 1 else 4
    ensures forall i | 0 <= i < |r| :: r[i] != EQUALS && Unreserved(r[i])
  {
    if s == [] then []
    else if |s| == 1 then [Letter(First(s[0])), Letter(Second(s[0], 0))]
    else if |s| == 2 then [Letter(First(s[0])), Letter(Second(s[0], s[1])), Letter(Third(s[1], 0))]
    else [Letter(First(s[0])), Letter(Second(s[0], s[1])), Letter(Third(s[1], s[2])), Letter(Fourth(s[2]))]
  }

  /** `base64.urlsafe_b64encode` */
  function Base64(s: Bytes): Bytes {
    if |s| < 3 then Letters(s) + Repeat(EQUALS, if s == [] then 0 else 3 - |s|) else Letters(s) + Base64(s[3..])
  }

  /** A last group: four letters, or two or three with padding */
  function LastGroup(t: Bytes): Option<Bytes>
    requires |t| == 4
  {
    var x, y, z := SextetOf(t[0]), SextetOf(t[1]), SextetOf(t[2]);
    if x.None? || y.None? || t[3] != EQUALS then None
    else if t[2] == EQUALS then Some([ByteA(x.value, y.value)])
    else if z.None? then None
    else Some([ByteA(x.value, y.value), ByteB(y.value, z.value)])
  }

  function FullGroup(t: Bytes): Option<Bytes>
    requires |t| >= 4
  {
    var x, y, z, w := SextetOf(t[0]), SextetOf(t[1]), SextetOf(t[2]), SextetOf(t[3]);
    if x.None? || y.None? || z.None? || w.None? then None
    else Some([ByteA(x.value, y.value), ByteB(y.value, z.value), ByteC(z.value, w.value)])
  }

  /** `base64.urlsafe_b64decode`, of texts in its alphabet */
  function FromBase64(t: Bytes): Option<Bytes> {
    if t == [] then Some([])
    else if |t| < 4 then None
    else if |t| == 4 && t[3] == EQUALS then LastGroup(t)
    else
      match (FullGroup(t), FromBase64(t[4..]))
      case (Some(group), Some(rest)) => Some(group + rest)
      case _ => None
  }

  /** `rstrip("=")` */
  function RStrip(t: Bytes): Bytes {
    if t != [] && t[|t| - 1] == EQUALS then RStrip(t[..|t| - 1]) else t
  }

  function Repeat(b: Byte, n: nat): Bytes {
    if n == 0 then [] else [b] + Repeat(b, n - 1)
  }

  /** `t + -len(t) % 4 * b"="`; the remainder is never negative in Python. */
  function Pad(t: Bytes): Bytes {
    t + Repeat(EQUALS, -|t| % 4)
  }

  // ----- serial numbers -----

  /** `urllib.parse.quote(s, safe="") == s` */
  predicate NotQuoted(s: Bytes) {
    AllUnreserved(s)
  }

  function MakeUrlsafe(serialNumber: Bytes): Bytes {
    if (serialNumber != [] && serialNumber[0] == DOT) ||
        !NotQuoted(serialNumber) then [DOT] + RStrip(Base64(serialNumber))
    else serialNumber
  }

  function FromUrlsafe(t: Bytes): Option<Bytes> {
    if t != [] && t[0] == DOT then FromBase64(Pad(t[1..])) else Some(t)
  }

  // ----- round trip -----

  lemma {:induction false} OneByteGroup(x: Sextet, y: Sextet)
    ensures FromBase64([Letter(x), Letter(y), EQUALS, EQUALS]) == Some([ByteA(x, y)])
  {
    var t := [Letter(x), Letter(y), EQUALS, EQUALS];
    SextetOfLetter(x);
    SextetOfLetter(y);
    assert FromBase64(t) == LastGroup(t);
  }

  lemma {:induction false} TwoByteGroup(x: Sextet, y: Sextet, z: Sextet)
    ensures FromBase64([Letter(x), Letter(y), Letter(z), EQUALS]) == Some([ByteA(x, y), ByteB(y, z)])
  {
    var t := [Letter(x), Letter(y), Letter(z), EQUALS];
    SextetOfLetter(x);
    SextetOfLetter(y);
    SextetOfLetter(z);
    assert FromBase64(t) == LastGroup(t);
  }

  lemma {:induction false} OneByteEncoded(a: Byte)
    ensures Base64([a]) == [Letter(First(a)), Letter(Second(a, 0)), EQUALS, EQUALS]
  {
    assert Repeat(EQUALS, 2) == [EQUALS, EQUALS];
  }

  lemma {:induction false} TwoBytesEncoded(a: Byte, b: Byte)
    ensures Base64([a, b]) == [Letter(First(a)), Letter(Second(a, b)), Letter(Third(b, 0)), EQUALS]
  {
    assert Repeat(EQUALS, 1) == [EQUALS];
  }

  lemma {:induction false} OneByteComesBack(a: Byte)
    ensures FromBase64(Base64([a])) == Some([a])
  {
    OneByteEncoded(a);
    BytesComeBack(a, 0, 0);
    OneByteGroup(First(a), Second(a, 0));
  }

  lemma {:induction false} TwoBytesComeBack(a: Byte, b: Byte)
    ensures FromBase64(Base64([a, b])) == Some([a, b])
  {
    TwoBytesEncoded(a, b);
    BytesComeBack(a, b, 0);
    TwoByteGroup(First(a), Second(a, b), Third(b, 0));
  }

  lemma {:induction false} FullGroupComesBack(s: Bytes, t: Bytes)
    requires |s| >= 3 && |t| >= 4 && t[..4] == Letters(s)
    ensures FullGroup(t) == Some(s[..3])
  {
    BytesComeBack(s[0], s[1], s[2]);
    SextetOfLetter(First(s[0]));
    SextetOfLetter(Second(s[0], s[1]));
    SextetOfLetter(Third(s[1], s[2]));
    SextetOfLetter(Fourth(s[2]));
    assert t[0] == t[..4][0] && t[1] == t[..4][1] && t[2] == t[..4][2] && t[3] == t[..4][3];
    assert s[..3] == [s[0], s[1], s[2]];
  }

  lemma {:induction false} Base64RoundTrip(s: Bytes)
    ensures FromBase64(Base64(s)) == Some(s)
  {
    if |s| == 1 {
      assert s == [s[0]];
      OneByteComesBack(s[0]);
    } else if |s| == 2 {
      assert s == [s[0], s[1]];
      TwoBytesComeBack(s[0], s[1]);
    } else if |s| >= 3 {
      Base64RoundTrip(s[3..]);
      var t := Letters(s) + Base64(s[3..]);
      assert t[..4] == Letters(s) && t[4..] == Base64(s[3..]) && t[3] == Letters(s)[3];
      FullGroupComesBack(s, t);
      assert s == s[..3] + s[3..];
    }
  }

  /** What stripping the padding leaves. */
  function Stripped(s: Bytes): (r: Bytes)
    ensures |r| >= |s| && AllUnreserved(r)
    ensures forall i | 0 <= i < |r| :: r[i] != EQUALS
  {
    if |s| < 3 then Letters(s) else Letters(s) + Stripped(s[3..])
  }

  /** How many characters of padding there are for n bytes, in how many groups. */
  function PaddingOf(n: nat): (r: nat)
    ensures r < 3
  {
    if n >= 3 then PaddingOf(n - 3) else if n == 0 then 0 else 3 - n
  }

  function Groups(n: nat): nat {
    if n >= 3 then 1 + Groups(n - 3) else if n == 0 then 0 else 1
  }

  /** The encoding is what stripping leaves, and the padding. */
  lemma {:induction false} StrippedIs(s: Bytes)
    ensures Base64(s) == Stripped(s) + Repeat(EQUALS, PaddingOf(|s|))
  {
    if |s| >= 3 {
      StrippedIs(s[3..]);
    }
  }

  lemma {:induction false} StrippedLength(s: Bytes)
    ensures |Stripped(s)| + PaddingOf(|s|) == 4 * Groups(|s|)
  {
    if |s| >= 3 {
      StrippedLength(s[3..]);
    }
  }

  lemma {:induction false} RepeatEnds(b: Byte, n: nat)
    requires n > 0
    ensures Repeat(b, n) == Repeat(b, n - 1) + [b]
  {
    if n > 1 {
      RepeatEnds(b, n - 1);
    }
  }

  lemma {:induction false} RStripPadding(t: Bytes, n: nat)
    requires forall i | 0 <= i < |t| :: t[i] != EQUALS
    ensures RStrip(t + Repeat(EQUALS, n)) == t
  {
    if n == 0 {
      assert t + [] == t;
    } else {
      RepeatEnds(EQUALS, n);
      var padded := t + Repeat(EQUALS, n);
      assert padded[..|padded| - 1] == t + Repeat(EQUALS, n - 1);
      RStripPadding(t, n - 1);
    }
  }

  lemma {:induction false} PaddingFromLength(n: int, padding: int, groups: int)
    requires n + padding == 4 * groups && 0 <= padding < 4
    ensures -n % 4 == padding
  {
  }

  /** Padding by the length puts back what was stripped. */
  lemma {:induction false} PadRestores(s: Bytes)
    ensures RStrip(Base64(s)) == Stripped(s) && Pad(Stripped(s)) == Base64(s)
  {
    StrippedIs(s);
    StrippedLength(s);
    RStripPadding(Stripped(s), PaddingOf(|s|));
    PaddingFromLength(|Stripped(s)|, PaddingOf(|s|), Groups(|s|));
  }

  /** Every serial number comes back from its URL form. */
  lemma {:induction false} UrlsafeRoundTrip(serialNumber: Bytes)
    ensures FromUrlsafe(MakeUrlsafe(serialNumber)) == Some(serialNumber)
  {
    PadRestores(serialNumber);
    Base64RoundTrip(serialNumber);
    assert ([DOT] + Stripped(serialNumber))[1..] == Stripped(serialNumber);
  }

  /** The URL form needs no quoting. */
  lemma {:induction false} UrlsafeIsUnreserved(serialNumber: Bytes)
    ensures AllUnreserved(MakeUrlsafe(serialNumber))
  {
    PadRestores(serialNumber);
  }

  /** Different serial numbers have different URLs. */
  lemma {:induction false} UrlsafeInjective(a: Bytes, b: Bytes)
    requires MakeUrlsafe(a) == MakeUrlsafe(b)
    ensures a == b
  {
    UrlsafeRoundTrip(a);
    UrlsafeRoundTrip(b);
  }

  // ----- RFC 4648 -----

  const UPPER := "ABCDEFGHIJKLMNOPQRSTUVWXYZ"
  const LOWER := "abcdefghijklmnopqrstuvwxyz"
  const DIGITS := "0123456789"

  /** The alphabet of base64url (section 5, table 2). */
  lemma {:induction false} AlphabetIs(n: Sextet)
    ensures Letter(n) ==
            if n < 26 then UPPER[n] as int
            else if n < 52 then LOWER[n - 26] as int
            else if n < 62 then DIGITS[n - 52] as int
            else if n == 62 then '-' as int else '_' as int
  {
  }

  /** A group of three bytes and its four letters are one number, in base 256 and in base 64
      (section 4). */
  lemma {:induction false} GroupIsNumber(a: Byte, b: Byte, c: Byte)
    ensures ((First(a) * 64 + Second(a, b)) * 64 + Third(b, c)) * 64 + Fourth(c) == (a * 256 + b) * 256 + c
  {
    assert a == a / 4 * 4 + a % 4 && b == b / 16 * 16 + b % 16 && c == c / 64 * 64 + c % 64;
  }

  /** The letters of a text: of each group of three bytes its four letters, and of what is
      left the letters of the group filled up with zeros, as many as have bits of it, and "="
      for the others. */
  lemma {:induction false} GroupsAre(s: Bytes)
    ensures s == [] ==> Base64(s) == []
    ensures |s| == 1 ==>
              Base64(s) == [Letter(First(s[0])), Letter(Second(s[0], 0)), '=' as int as Byte, '=' as int as Byte]
    ensures |s| == 2 ==>
              Base64(s) == [Letter(First(s[0])), Letter(Second(s[0], s[1])), Letter(Third(s[1], 0)), '=' as int as Byte]
    ensures |s| >= 3 ==>
              Base64(s) == [Letter(First(s[0])), Letter(Second(s[0], s[1])), Letter(Third(s[1], s[2])),
                            Letter(Fourth(s[2]))] + Base64(s[3..])
  {
    assert Repeat(EQUALS, 1) == [EQUALS] && Repeat(EQUALS, 2) == [EQUALS, EQUALS] && Repeat(EQUALS, 0) == [];
  }

  /** A serial number is left as it is exactly if it has letters, digits, "-", ".", "_" and
      "~" only (section 2.3 of RFC 3986), and does not begin with a dot. */
  lemma {:induction false} UnchangedExactly(s: Bytes)
    ensures MakeUrlsafe(s) == s <==>
            && (s == [] || s[0] != '.' as int)
            && forall b | b in s ::
                 || 'a' as int <= b <= 'z' as int || 'A' as int <= b <= 'Z' as int || '0' as int <= b <= '9' as int
                 || b in {'-' as int, '.' as int, '_' as int, '~' as int}
    ensures MakeUrlsafe(s) != s ==> MakeUrlsafe(s) != [] && MakeUrlsafe(s)[0] == '.' as int
  {
    PadRestores(s);
    assert (forall b | b in s :: Unreserved(b)) <==> AllUnreserved(s) by {
      forall i | 0 <= i < |s| ensures s[i] in s {
      }
    }
  }
}
