/**
 * The version token of the Pet service. Every successful reply carries `ETag: W/"<version>"`;
 * replace and update read an `If-Match` header back with `int(if_match.strip('W/"'))`.
 * The names come from the ETag and If-Match headers of RFC 9110 (section 8.8.3 and
 * section 13.1.1), but there is no strong/weak comparison: the parsed integer is
 * compared with the stored version for equality.
 */
module ETag {
  import opened Wrappers
  import opened PetModel

  predicate IsDigit(c: char) {
    '0' <= c <= '9'
  }

  predicate AllDigits(s: string) {
    forall i :: 0 <= i < |s| ==> IsDigit(s[i])
  }

  function DigitValue(c: char): nat
    requires IsDigit(c)
  {
    c as int - '0' as int
  }

  function DigitChar(d: nat): (c: char)
    requires d < 10
    ensures IsDigit(c) && DigitValue(c) == d
  {
    ('0' as int + d) as char
  }

  /** The number a string of decimal digits denotes, most significant digit first. */
  function DigitsValue(s: string): nat
    requires AllDigits(s)
  {
    if s == [] then 0 else DigitsValue(s[..|s| - 1]) * 10 + DigitValue(s[|s| - 1])
  }

  /** `str(n)` for n >= 0: the shortest decimal numeral, read back as n. */
  function NatToString(n: nat): (s: string)
    ensures |s| >= 1 && AllDigits(s) && DigitsValue(s) == n
    ensures s[0] == '0' <==> n == 0
    ensures |s| == 1 || s[0] != '0'
    decreases n
  {
    if n < 10 then [DigitChar(n)]
    else
      var prefix := NatToString(n / 10);
      var s := prefix + [DigitChar(n % 10)];
      assert s[..|s| - 1] == prefix;
      s
  }

  /** `str(i)`: a minus sign before the numeral of a negative number. */
  function IntToString(i: int): string {
    if i < 0 then "-" + NatToString(-i) else NatToString(i)
  }

  /** The header value `_pet_to_response` sends: `W/"<version>"`. */
  function FormatETag(version: int): string {
    "W/\"" + IntToString(version) + "\""
  }

  /** `str.lstrip(chars)`: drop leading characters that are in `cs`. */
  function LStrip(s: string, cs: set<char>): (r: string)
    ensures |r| <= |s| && r == s[|s| - |r|..]
    ensures forall i :: 0 <= i < |s| - |r| ==> s[i] in cs
    ensures r == [] || r[0] !in cs
  {
    if |s| > 0 && s[0] in cs then LStrip(s[1..], cs) else s
  }

  /** `str.rstrip(chars)`: drop trailing characters that are in `cs`. */
  function RStrip(s: string, cs: set<char>): (r: string)
    ensures |r| <= |s| && r == s[..|r|]
    ensures forall i :: |r| <= i < |s| ==> s[i] in cs
    ensures r == [] || r[|r| - 1] !in cs
  {
    if |s| > 0 && s[|s| - 1] in cs then RStrip(s[..|s| - 1], cs) else s
  }

  /** `str.strip(chars)`. */
  function Strip(s: string, cs: set<char>): string {
    RStrip(LStrip(s, cs), cs)
  }

  /** The characters `strip('W/"')` removes. */
  const QUOTE_CHARS: set<char> := {'W', '/', '"'}

  /** The ASCII whitespace `int()` ignores around a numeral. */
  const ASCII_SPACE: set<char> := {' ', '\t', '\n', '\r', '\U{000B}', '\U{000C}'}

  /**
   * CPython's default `sys.get_int_max_str_digits()`: `int()` raises `ValueError` on a
   * decimal numeral with more digits than this, and `str()` on an integer that has more.
   */
  const MAX_STR_DIGITS: nat := 4300

  /** `str(i)` succeeds: the magnitude of i has at most MAX_STR_DIGITS decimal digits. */
  predicate Printable(i: int) {
    |NatToString(if i < 0 then -i else i)| <= MAX_STR_DIGITS
  }

  /**
   * A numeral `int()` accepts after its sign: digits, with single underscores between
   * digits, and no more than MAX_STR_DIGITS digits, leading zeros counted.
   */
  predicate WellFormedDigits(s: string) {
    && |s| >= 1
    && IsDigit(s[0])
    && IsDigit(s[|s| - 1])
    && (forall i :: 0 <= i < |s| ==> IsDigit(s[i]) || s[i] == '_')
    && (forall i :: 0 <= i < |s| - 1 ==> s[i] != '_' || s[i + 1] != '_')
    && |DropUnderscores(s)| <= MAX_STR_DIGITS
  }

  /** The digits of a numeral without its underscores. */
  function DropUnderscores(s: string): (r: string)
    ensures |r| <= |s|
    ensures (forall i :: 0 <= i < |s| ==> IsDigit(s[i]) || s[i] == '_') ==> AllDigits(r)
    ensures AllDigits(s) ==> r == s
  {
    if s == [] then []
    else (if s[0] == '_' then [] else [s[0]]) + DropUnderscores(s[1..])
  }

  function NumeralValue(s: string): nat
    requires WellFormedDigits(s)
  {
    DigitsValue(DropUnderscores(s))
  }

  /** An optional sign followed by a numeral; None when `t` is anything else. */
  function ParseSigned(t: string): Option<int> {
    if |t| >= 1 && (t[0] == '+' || t[0] == '-') then
      if WellFormedDigits(t[1..]) then
        var n: int := NumeralValue(t[1..]);
        Some(if t[0] == '-' then -n else n)
      else None
    else if WellFormedDigits(t) then Some(NumeralValue(t))
    else None
  }

  /**
   * Python's `int(s)` on a string in base 10: surrounding whitespace, an optional sign,
   * then a numeral. None stands for the `ValueError` it raises otherwise.
   */
  function ParseInt(s: string): Option<int> {
    ParseSigned(Strip(s, ASCII_SPACE))
  }

  /** `int(if_match.strip('W/"'))`; None when it raises. */
  function ParseIfMatch(header: string): Option<int> {
    ParseInt(Strip(header, QUOTE_CHARS))
  }

  /**
   * The If-Match step of replace and update, run after the pet was found: no header
   * passes, an unparsable one is a `BadRequest`, a parsed value other than the stored
   * version is `PreconditionFailed`.
   */
  function CheckIfMatch(ifMatch: Option<string>, version: int): (r: Option<Error>)
    ensures r == None <==> ifMatch.None? || ParseIfMatch(ifMatch.value) == Some(version)
    ensures r == Some(BadRequest) <==> ifMatch.Some? && ParseIfMatch(ifMatch.value).None?
    ensures r == None || r == Some(BadRequest) || r == Some(PreconditionFailed)
  {
    match ifMatch
    case None => None
    case Some(header) =>
      match ParseIfMatch(header)
      case None => Some(BadRequest)
      case Some(expected) => if expected != version then Some(PreconditionFailed) else None
  }

  lemma {:induction false} LStripPrefix(p: string, x: string, cs: set<char>)
    requires forall i :: 0 <= i < |p| ==> p[i] in cs
    requires |x| >= 1 && x[0] !in cs
    ensures LStrip(p + x, cs) == x
    decreases |p|
  {
    if |p| == 0 {
      assert p + x == x;
    } else {
      assert (p + x)[1..] == p[1..] + x;
      LStripPrefix(p[1..], x, cs);
    }
  }

  lemma {:induction false} RStripSuffix(x: string, q: string, cs: set<char>)
    requires forall i :: 0 <= i < |q| ==> q[i] in cs
    requires |x| >= 1 && x[|x| - 1] !in cs
    ensures RStrip(x + q, cs) == x
    decreases |q|
  {
    if |q| == 0 {
      assert x + q == x;
    } else {
      assert (x + q)[..|x + q| - 1] == x + q[..|q| - 1];
      RStripSuffix(x, q[..|q| - 1], cs);
    }
  }

  /** Stripping removes exactly the padding when the text inside starts and ends outside the set. */
  lemma StripPadding(p: string, x: string, q: string, cs: set<char>)
    requires forall i :: 0 <= i < |p| ==> p[i] in cs
    requires forall i :: 0 <= i < |q| ==> q[i] in cs
    requires |x| >= 1 && x[0] !in cs && x[|x| - 1] !in cs
    ensures Strip(p + x + q, cs) == x
  {
    assert p + x + q == p + (x + q);
    LStripPrefix(p, x + q, cs);
    RStripSuffix(x, q, cs);
  }

  /** The decimal text of n, when `str()` allows it, is a numeral `int()` reads as n. */
  lemma NatNumeral(n: nat)
    requires |NatToString(n)| <= MAX_STR_DIGITS
    ensures WellFormedDigits(NatToString(n)) && NumeralValue(NatToString(n)) == n
  {
    var d := NatToString(n);
    assert AllDigits(d);
    assert DropUnderscores(d) == d;
  }

  /** The decimal text of i starts with a digit or `-` and ends with a digit. */
  lemma IntToStringEnds(i: int)
    ensures var d := IntToString(i);
      && |d| >= 1
      && (IsDigit(d[0]) || d[0] == '-')
      && IsDigit(d[|d| - 1])
  {
  }

  /** A bare numeral parses to its value. */
  lemma ParseSignedUnsigned(d: string)
    requires WellFormedDigits(d)
    ensures ParseSigned(d) == Some(NumeralValue(d) as int)
  {
    assert IsDigit(d[0]);
  }

  /** A minus sign before a numeral negates its value. */
  lemma ParseSignedMinus(d: string)
    requires WellFormedDigits(d)
    ensures ParseSigned("-" + d) == Some(-(NumeralValue(d) as int))
  {
    var t := "-" + d;
    assert t[0] == '-' && t[1..] == d;
  }

  /** The decimal text of i, sign included, reads back as i. */
  lemma ParseSignedIntToString(i: int)
    requires Printable(i)
    ensures ParseSigned(IntToString(i)) == Some(i)
  {
    if i < 0 {
      var n: nat := -i;
      assert |NatToString(n)| <= MAX_STR_DIGITS;
      NatNumeral(n);
      ParseSignedMinus(NatToString(n));
      assert IntToString(i) == "-" + NatToString(n);
    } else {
      var n: nat := i;
      assert |NatToString(n)| <= MAX_STR_DIGITS;
      NatNumeral(n);
      ParseSignedUnsigned(NatToString(n));
    }
  }

  /** `int(str(i)) == i` whenever `str(i)` succeeds. */
  lemma ParseIntToString(i: int)
    requires Printable(i)
    ensures ParseInt(IntToString(i)) == Some(i)
  {
    var d := IntToString(i);
    IntToStringEnds(i);
    StripPadding([], d, [], ASCII_SPACE);
    assert [] + d + [] == d;
    ParseSignedIntToString(i);
  }

  /**
   * Any run of `W`, `/` and `"` around the decimal text of v is stripped off, so the
   * header parses back to v: `W/"2"`, `"2"` and a bare `2` are all read as 2.
   */
  lemma ParseIfMatchIgnoresQuoting(p: string, q: string, v: int)
    requires forall i :: 0 <= i < |p| ==> p[i] in QUOTE_CHARS
    requires forall i :: 0 <= i < |q| ==> q[i] in QUOTE_CHARS
    requires Printable(v)
    ensures ParseIfMatch(p + IntToString(v) + q) == Some(v)
  {
    var d := IntToString(v);
    IntToStringEnds(v);
    StripPadding(p, d, q, QUOTE_CHARS);
    ParseIntToString(v);
  }

  /** The token sent as `ETag` parses back to the version it was made from. */
  lemma ETagRoundTrip(v: int)
    requires Printable(v)
    ensures ParseIfMatch(FormatETag(v)) == Some(v)
  {
    ParseIfMatchIgnoresQuoting("W/\"", "\"", v);
  }

  /**
   * Echoing the ETag of the current version passes the If-Match step; echoing the
   * ETag of any other version fails with `PreconditionFailed`, never `BadRequest`.
   */
  lemma CheckEchoedETag(current: int, sent: int)
    requires Printable(sent)
    ensures CheckIfMatch(Some(FormatETag(sent)), current) ==
            if sent == current then None else Some(PreconditionFailed)
  {
    ETagRoundTrip(sent);
  }

  /**
   * A numeral of more than MAX_STR_DIGITS digits, even one whose value is small such
   * as a long run of zeros before a 1, makes `int()` raise: the header is a `BadRequest`.
   */
  lemma TooManyDigitsRefused(digits: string, version: int)
    requires AllDigits(digits) && |digits| > MAX_STR_DIGITS
    ensures CheckIfMatch(Some("W/\"" + digits + "\""), version) == Some(BadRequest)
  {
    StripPadding("W/\"", digits, "\"", QUOTE_CHARS);
    TooManyDigitsUnparsable(digits);
  }

  /** `int()` refuses a run of digits longer than MAX_STR_DIGITS. */
  lemma TooManyDigitsUnparsable(digits: string)
    requires AllDigits(digits) && |digits| > MAX_STR_DIGITS
    ensures ParseInt(digits) == None
  {
    assert Strip(digits, ASCII_SPACE) == digits by {
      StripPadding([], digits, [], ASCII_SPACE);
      assert [] + digits + [] == digits;
    }
    assert !WellFormedDigits(digits) by {
      assert DropUnderscores(digits) == digits;
    }
    assert digits[0] != '-' && digits[0] != '+' by {
      assert IsDigit(digits[0]);
    }
  }
}
