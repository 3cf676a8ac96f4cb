/**
 * The two string operations the widget relies on: ECMAScript `String.prototype.trim`,
 * applied to every task text before it is stored, and the decimal rendering with
 * `padStart(2, '0')` used by the focus timer's MM:SS display.
 */
module Text {

  // ---------------------------------------------------------------------------
  // Trimming
  // ---------------------------------------------------------------------------

  /** The code points `trim` strips: ECMAScript's WhiteSpace and LineTerminator. */
  predicate IsTrimmable(c: char) {
    c == '\t' || c == '\n' || c == '\U{000B}' || c == '\U{000C}' || c == '\r'
    || c == ' ' || c == '\U{00A0}' || c == '\U{1680}'
    || ('\U{2000}' <= c <= '\U{200A}')
    || c == '\U{2028}' || c == '\U{2029}' || c == '\U{202F}' || c == '\U{205F}'
    || c == '\U{3000}' || c == '\U{FEFF}'
  }

  predicate AllTrimmable(s: string) {
    forall k :: 0 <= k < |s| ==> IsTrimmable(s[k])
  }

  /** A string with no strippable code point at either end. */
  predicate IsTrimmed(s: string) {
    s == [] || (!IsTrimmable(s[0]) && !IsTrimmable(s[|s| - 1]))
  }

  /** Drops the leading run of strippable code points. */
  function TrimStart(s: string): (r: string)
    ensures |r| <= |s| && r == s[|s| - |r|..]
    ensures forall k :: 0 <= k < |s| - |r| ==> IsTrimmable(s[k])
    ensures r == [] || !IsTrimmable(r[0])
  {
    if s != [] && IsTrimmable(s[0]) then TrimStart(s[1..]) else s
  }

  /** Drops the trailing run of strippable code points. */
  function TrimEnd(s: string): (r: string)
    ensures |r| <= |s| && r == s[..|r|]
    ensures forall k :: |r| <= k < |s| ==> IsTrimmable(s[k])
    ensures r == [] || !IsTrimmable(r[|r| - 1])
  {
    if s != [] && IsTrimmable(s[|s| - 1]) then TrimEnd(s[..|s| - 1]) else s
  }

  /** `s.trim()`. */
  function Trim(s: string): (r: string)
    ensures IsTrimmed(r)
    ensures |r| <= |s|
  {
    var t := TrimStart(s);
    var r := TrimEnd(t);
    assert r != [] ==> r[0] == t[0];
    r
  }

  lemma {:induction false} TrimStartSkips(w: string, x: string)
    requires AllTrimmable(w)
    requires x == [] || !IsTrimmable(x[0])
    ensures TrimStart(w + x) == x
  {
    if w == [] {
      assert w + x == x;
    } else {
      assert (w + x)[0] == w[0];
      assert (w + x)[1..] == w[1..] + x;
      TrimStartSkips(w[1..], x);
    }
  }

  lemma {:induction false} TrimEndSkips(x: string, w: string)
    requires AllTrimmable(w)
    requires x == [] || !IsTrimmable(x[|x| - 1])
    ensures TrimEnd(x + w) == x
  {
    if w == [] {
      assert x + w == x;
    } else {
      var n := |x + w|;
      assert (x + w)[n - 1] == w[|w| - 1];
      assert (x + w)[..n - 1] == x + w[..|w| - 1];
      TrimEndSkips(x, w[..|w| - 1]);
    }
  }

  /**
   * What `trim` returns, independently of how it is computed: padding a trimmed
   * string with strippable code points on both sides and trimming gives it back.
   */
  lemma TrimOfPadded(left: string, core: string, right: string)
    requires AllTrimmable(left) && AllTrimmable(right)
    requires IsTrimmed(core)
    ensures Trim(left + core + right) == core
  {
    assert left + core + right == left + (core + right);
    if core == [] {
      assert core + right == right;
      TrimStartSkips(left + right, []);
      assert left + right + [] == left + core + right;
      assert TrimEnd([]) == [];
    } else {
      assert (core + right)[0] == core[0];
      TrimStartSkips(left, core + right);
      TrimEndSkips(core, right);
    }
  }

  /** Trimming twice is trimming once. */
  lemma TrimIdempotent(s: string)
    ensures Trim(Trim(s)) == Trim(s)
  {
    var t := Trim(s);
    TrimOfPadded([], t, []);
    assert [] + t + [] == t;
  }

  lemma AllTrimmableTrimsToEmpty(s: string)
    requires AllTrimmable(s)
    ensures Trim(s) == []
  {
    TrimOfPadded(s, [], []);
    assert s + [] + [] == s;
  }

  lemma EmptyTrimIsAllTrimmable(s: string)
    requires Trim(s) == []
    ensures AllTrimmable(s)
  {
    var t := TrimStart(s);
    assert TrimEnd(t) == [];
    assert t == [];
  }

  /** `s.trim()` is empty exactly when every code point of `s` is strippable. */
  lemma TrimBlank(s: string)
    ensures Trim(s) == [] <==> AllTrimmable(s)
  {
    if AllTrimmable(s) {
      AllTrimmableTrimsToEmpty(s);
    }
    if Trim(s) == [] {
      EmptyTrimIsAllTrimmable(s);
    }
  }

  // ---------------------------------------------------------------------------
  // Decimal digits and `padStart(2, '0')`
  // ---------------------------------------------------------------------------

  predicate IsDigit(c: char) {
    '0' <= c <= '9'
  }

  predicate AllDigits(s: string) {
    forall k :: 0 <= k < |s| ==> IsDigit(s[k])
  }

  function DigitChar(d: nat): (c: char)
    requires d < 10
    ensures IsDigit(c)
  {
    ('0' as int + d) as char
  }

  /** The value of a string of decimal digits, read left to right. */
  function DigitsValue(s: string): nat
    requires AllDigits(s)
  {
    if s == [] then 0
    else DigitsValue(s[..|s| - 1]) * 10 + (s[|s| - 1] as int - '0' as int)
  }

  /**
   * `n.toString()` for a non-negative integer up to 2^53; above that JavaScript prints
   * rounded digits, and from 10^21 on exponent notation.
   */
  function DecimalString(n: nat): (r: string)
    ensures AllDigits(r)
    ensures 1 <= |r|
    ensures n >= 10 ==> r[0] != '0'
  {
    if n < 10 then [DigitChar(n)] else DecimalString(n / 10) + [DigitChar(n % 10)]
  }

  /** Reading back what `DecimalString` writes gives the number. */
  lemma {:induction false} DecimalStringReadsBack(n: nat)
    ensures DigitsValue(DecimalString(n)) == n
  {
    var r := DecimalString(n);
    if n >= 10 {
      DecimalStringReadsBack(n / 10);
      assert r[..|r| - 1] == DecimalString(n / 10);
    }
  }

  /** `s.padStart(2, '0')`: left-pad with zeros up to two characters; never truncates. */
  function PadStart2(s: string): (r: string)
    ensures |r| == if |s| >= 2 then |s| else 2
    ensures r[|r| - |s|..] == s
    ensures forall k :: 0 <= k < |r| - |s| ==> r[k] == '0'
  {
    if |s| >= 2 then s else if |s| == 1 then "0" + s else "00"
  }

  /** Leading zeros do not change the value of a digit string. */
  lemma {:induction false} ZeroPrefixKeepsValue(s: string)
    requires AllDigits(s)
    ensures AllDigits("0" + s) && DigitsValue("0" + s) == DigitsValue(s)
  {
    var z := "0" + s;
    if s != [] {
      assert z[..|z| - 1] == "0" + s[..|s| - 1];
      ZeroPrefixKeepsValue(s[..|s| - 1]);
    } else {
      assert z[..|z| - 1] == [];
    }
  }

  /** Padding a decimal string with zeros keeps its value. */
  lemma PaddedReadsBack(n: nat)
    ensures AllDigits(PadStart2(DecimalString(n)))
    ensures DigitsValue(PadStart2(DecimalString(n))) == n
  {
    var d := DecimalString(n);
    DecimalStringReadsBack(n);
    if |d| < 2 {
      ZeroPrefixKeepsValue(d);
    }
  }
}
