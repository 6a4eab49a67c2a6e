/**
 * ECMAScript `parseInt(string, 10)` and the decimal rendering of an
 * integer (`String(n)`), over unbounded integers. `None` is NaN.
 */
module JsParseInt {
  import opened Wrappers
  import opened JsString

  /** A radix-10 digit: '0' through '9' and nothing else. */
  predicate IsDigit(c: char) {
    '0' <= c <= '9'
  }

  predicate AllDigits(s: string) {
    forall i :: 0 <= i < |s| ==> IsDigit(s[i])
  }

  function DigitValue(c: char): (d: nat)
    requires IsDigit(c)
    ensures d < 10
  {
    (c as int) - ('0' as int)
  }

  function DigitChar(d: nat): (c: char)
    requires d < 10
    ensures IsDigit(c) && DigitValue(c) == d
  {
    (('0' as int) + d) as char
  }

  /** The integer a string of decimal digits denotes, most significant first. */
  function DigitsValue(ds: string): (n: nat)
    requires AllDigits(ds)
  {
    if ds == [] then 0 else 10 * DigitsValue(ds[..|ds| - 1]) + DigitValue(ds[|ds| - 1])
  }

  /** Length of the longest prefix of `s` made of decimal digits. */
  function LeadingDigits(s: string): (n: nat)
    ensures n <= |s| && AllDigits(s[..n])
    ensures n == |s| || !IsDigit(s[n])
  {
    if |s| > 0 && IsDigit(s[0]) then
      assert s[..1 + LeadingDigits(s[1..])] == [s[0]] + s[1..][..LeadingDigits(s[1..])];
      1 + LeadingDigits(s[1..])
    else 0
  }

  /** `parseInt(s, 10)`: skip leading whitespace, take one optional '+' or
      '-', then read the longest run of decimal digits; no digit gives NaN.
      Whatever follows the digits is ignored. */
  function ParseInt(s: string): Option<int>
  {
    ParseSigned(TrimStart(s))
  }

  /** The part of `parseInt` after the whitespace strip. */
  function ParseSigned(t: string): Option<int>
  {
    var negative := |t| > 0 && t[0] == '-';
    var u := if |t| > 0 && (t[0] == '-' || t[0] == '+') then t[1..] else t;
    match ReadDigits(u)
    case None => None
    case Some(m) => Some(Signed(negative, m))
  }

  /** The value of the longest leading digit run of `u`, if it is non-empty. */
  function ReadDigits(u: string): Option<nat>
  {
    var n := LeadingDigits(u);
    if n == 0 then None else Some(DigitsValue(u[..n]))
  }

  function Signed(negative: bool, magnitude: nat): int {
    if negative then -(magnitude as int) else magnitude
  }

  /** The shortest decimal rendering of a natural number, as `String(n)`
      prints it below 10^21. */
  function NatToDecimal(n: nat): (s: string)
    ensures |s| > 0 && AllDigits(s)
    ensures DigitsValue(s) == n
    ensures |s| > 1 ==> s[0] != '0'
  {
    if n < 10 then [DigitChar(n)]
    else
      var s := NatToDecimal(n / 10) + [DigitChar(n % 10)];
      assert s[..|s| - 1] == NatToDecimal(n / 10);
      s
  }

  /** `String(n)` for an integer whose magnitude is below 10^21 and exactly
      representable as a double: a '-' before the decimal magnitude when
      negative. Larger numbers print in exponent form, which this does not
      model. */
  function IntToString(n: int): (s: string)
    ensures |s| > 0
    ensures s[0] == '-' <==> n < 0
    ensures n < 0 ==> AllDigits(s[1..]) && DigitsValue(s[1..]) == -n
    ensures n >= 0 ==> AllDigits(s) && DigitsValue(s) == n
    ensures var m := if n < 0 then s[1..] else s; |m| > 1 ==> m[0] != '0'
  {
    if n < 0 then "-" + NatToDecimal(-n) else NatToDecimal(n)
  }

  /** The optional sign `parseInt` accepts before the digits. */
  datatype Sign = Unsigned | Plus | Minus

  function SignText(g: Sign): string {
    match g
    case Unsigned => ""
    case Plus => "+"
    case Minus => "-"
  }

  /** The ignore-the-rest reading of `parseInt`: whitespace, an optional
      sign, a non-empty digit run, then anything not starting with a digit,
      parses to the signed value of the digits. */
  lemma {:induction false} ParseIntOfDecomposition(ws: string, g: Sign, ds: string, rest: string)
    requires AllWhiteSpace(ws)
    requires |ds| > 0 && AllDigits(ds)
    requires rest == [] || !IsDigit(rest[0])
    ensures ParseInt(ws + SignText(g) + ds + rest) == Some(Signed(g == Minus, DigitsValue(ds)))
  {
    var body := SignText(g) + ds + rest;
    assert ws + SignText(g) + ds + rest == ws + body;
    assert !IsWhiteSpace(body[0]) by {
      assert body[0] == if g == Unsigned then ds[0] else SignText(g)[0];
    }
    LeadingWhiteSpaceExact(ws, body);
    assert TrimStart(ws + body) == body;
    ParseSignedOfDecomposition(g, ds, rest);
  }

  lemma {:induction false} ParseSignedOfDecomposition(g: Sign, ds: string, rest: string)
    requires |ds| > 0 && AllDigits(ds)
    requires rest == [] || !IsDigit(rest[0])
    ensures ParseSigned(SignText(g) + ds + rest) == Some(Signed(g == Minus, DigitsValue(ds)))
  {
    match g
    case Unsigned =>
      assert SignText(g) + ds + rest == ds + rest;
      ParseSignedOfDigits(ds, rest);
    case Plus =>
      assert SignText(g) + ds + rest == ['+'] + (ds + rest);
      ParseSignedOfSignedDigits('+', ds, rest);
    case Minus =>
      assert SignText(g) + ds + rest == ['-'] + (ds + rest);
      ParseSignedOfSignedDigits('-', ds, rest);
  }

  lemma {:induction false} ParseSignedOfDigits(ds: string, rest: string)
    requires |ds| > 0 && AllDigits(ds)
    requires rest == [] || !IsDigit(rest[0])
    ensures ParseSigned(ds + rest) == Some(DigitsValue(ds))
  {
    ReadDigitsOfDecomposition(ds, rest);
    assert (ds + rest)[0] == ds[0];
  }

  lemma {:induction false} ParseSignedOfSignedDigits(c: char, ds: string, rest: string)
    requires c == '+' || c == '-'
    requires |ds| > 0 && AllDigits(ds)
    requires rest == [] || !IsDigit(rest[0])
    ensures ParseSigned([c] + (ds + rest)) == Some(Signed(c == '-', DigitsValue(ds)))
  {
    ReadDigitsOfDecomposition(ds, rest);
    assert ([c] + (ds + rest))[1..] == ds + rest;
  }

  lemma {:induction false} ReadDigitsOfDecomposition(ds: string, rest: string)
    requires |ds| > 0 && AllDigits(ds)
    requires rest == [] || !IsDigit(rest[0])
    ensures ReadDigits(ds + rest) == Some(DigitsValue(ds))
  {
    LeadingDigitsExact(ds, rest);
    assert (ds + rest)[..|ds|] == ds;
  }

  /** `parseInt` gives NaN when, after whitespace and at most one sign, no
      digit follows. */
  lemma {:induction false} ParseIntNaN(ws: string, g: Sign, rest: string)
    requires AllWhiteSpace(ws)
    requires rest == [] || !IsDigit(rest[0])
    requires g == Unsigned ==> rest == [] || (!IsWhiteSpace(rest[0]) && rest[0] != '+' && rest[0] != '-')
    ensures ParseInt(ws + SignText(g) + rest) == None
  {
    var body := SignText(g) + rest;
    assert ws + SignText(g) + rest == ws + body;
    if g == Unsigned {
      assert body == rest;
    } else {
      var c := if g == Plus then '+' else '-';
      assert body == [c] + rest;
      assert body[1..] == rest;
    }
    LeadingWhiteSpaceExact(ws, body);
    assert TrimStart(ws + body) == body;
  }

  lemma {:induction false} LeadingDigitsExact(ds: string, rest: string)
    requires AllDigits(ds)
    requires rest == [] || !IsDigit(rest[0])
    ensures LeadingDigits(ds + rest) == |ds|
    decreases |ds|
  {
    if ds != [] {
      assert (ds + rest)[1..] == ds[1..] + rest;
      LeadingDigitsExact(ds[1..], rest);
    } else {
      assert ds + rest == rest;
    }
  }

  /** `parseInt` inverts the plain-decimal rendering `IntToString` on every
      integer. */
  lemma {:induction false} ParseIntOfIntToString(n: int)
    ensures ParseInt(IntToString(n)) == Some(n)
  {
    ParseIntOfIntToStringWithSuffix(n, "");
    assert IntToString(n) + "" == IntToString(n);
  }

  /** ... and reads past a non-digit suffix: `parseInt("60min")` is 60. */
  lemma {:induction false} ParseIntOfIntToStringWithSuffix(n: int, suffix: string)
    requires suffix == [] || !IsDigit(suffix[0])
    ensures ParseInt(IntToString(n) + suffix) == Some(n)
  {
    var ds := NatToDecimal(if n < 0 then -n else n);
    var g := if n < 0 then Minus else Unsigned;
    assert IntToString(n) + suffix == "" + SignText(g) + ds + suffix;
    ParseIntOfDecomposition("", g, ds, suffix);
  }

  /** `parseInt` already skips leading whitespace and stops at trailing
      whitespace, so trimming its argument first changes nothing. */
  lemma {:induction false} ParseIntOfTrim(s: string)
    ensures ParseInt(Trim(s)) == ParseInt(s)
  {
    var t := TrimStart(s);
    var r := Trim(s);
    var j := |t| - TrailingWhiteSpace(t);
    assert r == t[..j];
    assert t == r + t[j..];
    assert AllWhiteSpace(t[j..]) by {
      assert forall k :: 0 <= k < |t| - j ==> t[j..][k] == t[j + k];
    }
    TrimStartOfTrim(s);
    ParseSignedIgnoresTrailingWhiteSpace(r, t[j..]);
  }

  lemma {:induction false} ParseSignedIgnoresTrailingWhiteSpace(x: string, b: string)
    requires AllWhiteSpace(b)
    requires x == [] || !IsWhiteSpace(x[0])
    ensures ParseSigned(x + b) == ParseSigned(x)
  {
    if x == [] {
      assert x + b == b;
      if b != [] {
        assert !IsDigit(b[0]) && b[0] != '+' && b[0] != '-';
      }
    } else {
      assert (x + b)[0] == x[0];
      if x[0] == '-' || x[0] == '+' {
        assert (x + b)[1..] == x[1..] + b;
        ReadDigitsIgnoresWhiteSpace(x[1..], b);
      } else {
        ReadDigitsIgnoresWhiteSpace(x, b);
      }
    }
  }

  lemma {:induction false} ReadDigitsIgnoresWhiteSpace(u: string, b: string)
    requires AllWhiteSpace(b)
    ensures ReadDigits(u + b) == ReadDigits(u)
  {
    var n := LeadingDigits(u);
    var tail := u[n..] + b;
    assert u + b == u[..n] + tail;
    assert tail == [] || !IsDigit(tail[0]) by {
      if n < |u| {
        assert tail[0] == u[n];
      } else if b != [] {
        assert tail[0] == b[0];
      }
    }
    LeadingDigitsExact(u[..n], tail);
    assert (u + b)[..n] == u[..n];
  }
}
