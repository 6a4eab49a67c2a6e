/**
 * ECMAScript `String.prototype.trim` and the leading-whitespace strip that
 * `parseInt` performs. Both remove the characters of the WhiteSpace and
 * LineTerminator productions of the ECMAScript grammar.
 */
module JsString {

  /** WhiteSpace (TAB, VT, FF, SP, NBSP, ZWNBSP and every Space_Separator)
      or LineTerminator (LF, CR, LS, PS). */
  predicate IsWhiteSpace(c: char) {
    var n := c as int;
    || n == 0x09 || n == 0x0A || n == 0x0B || n == 0x0C || n == 0x0D
    || n == 0x20 || n == 0xA0 || n == 0x1680
    || (0x2000 <= n <= 0x200A)
    || n == 0x2028 || n == 0x2029 || n == 0x202F || n == 0x205F
    || n == 0x3000 || n == 0xFEFF
  }

  predicate AllWhiteSpace(s: string) {
    forall i :: 0 <= i < |s| ==> IsWhiteSpace(s[i])
  }

  /** Every character of `s` at an index in [lo, hi) is whitespace. */
  predicate WhiteSpaceBetween(s: string, lo: int, hi: int)
    requires 0 <= lo <= hi <= |s|
  {
    forall k :: lo <= k < hi ==> IsWhiteSpace(s[k])
  }

  /** Neither end of `s` is a whitespace character (vacuously true of ""). */
  predicate Tight(s: string) {
    s == [] || (!IsWhiteSpace(s[0]) && !IsWhiteSpace(s[|s| - 1]))
  }

  /** Length of the longest all-whitespace prefix of `s`. */
  function LeadingWhiteSpace(s: string): (n: nat)
    ensures n <= |s| && WhiteSpaceBetween(s, 0, n)
    ensures n == |s| || !IsWhiteSpace(s[n])
  {
    if |s| > 0 && IsWhiteSpace(s[0]) then 1 + LeadingWhiteSpace(s[1..]) else 0
  }

  /** Length of the longest all-whitespace suffix of `s`. */
  function TrailingWhiteSpace(s: string): (n: nat)
    ensures n <= |s| && WhiteSpaceBetween(s, |s| - n, |s|)
    ensures n == |s| || !IsWhiteSpace(s[|s| - n - 1])
  {
    if |s| > 0 && IsWhiteSpace(s[|s| - 1]) then 1 + TrailingWhiteSpace(s[..|s| - 1]) else 0
  }

  /** The leading-whitespace strip `parseInt` applies before reading a sign. */
  function TrimStart(s: string): (r: string)
    ensures r == [] || !IsWhiteSpace(r[0])
  {
    s[LeadingWhiteSpace(s)..]
  }

  /** `r` sits in `s` at offset `i` with only whitespace on either side. */
  predicate SliceBetweenWhiteSpace(s: string, r: string, i: int) {
    && 0 <= i <= |s| - |r|
    && r == s[i..i + |r|]
    && WhiteSpaceBetween(s, 0, i)
    && WhiteSpaceBetween(s, i + |r|, |s|)
  }

  /** `String.prototype.trim`: `r` is a contiguous slice of `s`, everything
      cut off on either side is whitespace, and `r` does not begin or end
      with whitespace. */
  function Trim(s: string): (r: string)
    ensures exists i :: SliceBetweenWhiteSpace(s, r, i)
    ensures Tight(r)
  {
    var i := LeadingWhiteSpace(s);
    var t := s[i..];
    var n := TrailingWhiteSpace(t);
    TrimSlice(s, i, t, n);
    t[..|t| - n]
  }

  /** Cutting a maximal whitespace run from the front and then from the back
      leaves a tight slice with only whitespace around it. */
  lemma {:induction false} TrimSlice(s: string, i: nat, t: string, n: nat)
    requires i <= |s| && WhiteSpaceBetween(s, 0, i) && (i == |s| || !IsWhiteSpace(s[i]))
    requires t == s[i..]
    requires n <= |t| && WhiteSpaceBetween(t, |t| - n, |t|) && (n == |t| || !IsWhiteSpace(t[|t| - n - 1]))
    ensures SliceBetweenWhiteSpace(s, t[..|t| - n], i)
    ensures Tight(t[..|t| - n])
  {
    var j := |t| - n;
    assert t[..j] == s[i..i + j];
    forall k | i + j <= k < |s| ensures IsWhiteSpace(s[k]) {
      assert s[k] == t[k - i];
    }
    if j > 0 {
      assert t[..j][0] == s[i];
      assert t[..j][j - 1] == t[j - 1];
    }
  }

  /** Trimming the concatenation of whitespace, a tight middle and whitespace
      yields exactly the middle: trim has a unique answer. */
  lemma {:induction false} TrimUnique(a: string, m: string, b: string)
    requires AllWhiteSpace(a) && AllWhiteSpace(b) && Tight(m)
    ensures Trim(a + m + b) == m
  {
    var s := a + m + b;
    if m == [] {
      assert s == (a + b) + [];
      LeadingWhiteSpaceExact(a + b, []);
    } else {
      assert s == a + (m + b);
      LeadingWhiteSpaceExact(a, m + b);
      assert s[|a|..] == m + b;
      TrailingWhiteSpaceExact(m, b);
    }
  }

  lemma {:induction false} LeadingWhiteSpaceExact(a: string, rest: string)
    requires AllWhiteSpace(a)
    requires rest == [] || !IsWhiteSpace(rest[0])
    ensures LeadingWhiteSpace(a + rest) == |a|
    decreases |a|
  {
    if a != [] {
      assert (a + rest)[1..] == a[1..] + rest;
      LeadingWhiteSpaceExact(a[1..], rest);
    } else {
      assert a + rest == rest;
    }
  }

  lemma {:induction false} TrailingWhiteSpaceExact(m: string, b: string)
    requires AllWhiteSpace(b)
    requires m == [] || !IsWhiteSpace(m[|m| - 1])
    ensures TrailingWhiteSpace(m + b) == |b|
    decreases |b|
  {
    if b != [] {
      assert (m + b)[..|m + b| - 1] == m + b[..|b| - 1];
      TrailingWhiteSpaceExact(m, b[..|b| - 1]);
    } else {
      assert m + b == m;
    }
  }

  /** Trim is idempotent. */
  lemma {:induction false} TrimIdempotent(s: string)
    ensures Trim(Trim(s)) == Trim(s)
  {
    var r := Trim(s);
    assert r == [] + r + [];
    TrimUnique([], r, []);
  }

  /** The trimmed string is empty exactly when the input is all whitespace. */
  lemma {:induction false} TrimEmptyIff(s: string)
    ensures Trim(s) == [] <==> AllWhiteSpace(s)
  {
    if AllWhiteSpace(s) {
      assert s == s + [] + [];
      TrimUnique(s, [], []);
    }
  }

  /** Trim followed by the leading-whitespace strip of `parseInt` is trim. */
  lemma {:induction false} TrimStartOfTrim(s: string)
    ensures TrimStart(Trim(s)) == Trim(s)
  {
    var r := Trim(s);
    assert r == [] + r;
    LeadingWhiteSpaceExact([], r);
  }
}
