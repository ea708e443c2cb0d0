/**
 * atoi as the C library computes it (strtol in base 10): leading white
 * space, an optional sign, then the longest run of decimal digits; anything
 * else ends the number, and a string with no digits is 0.
 */
module Numeric {
  import opened CStrings

  /** The characters isspace accepts in the "C" locale. */
  const Spaces: set<char> := {' ', '\t', '\n', '\U{B}', '\U{C}', '\r'}

  const Digits: set<char> := {'0', '1', '2', '3', '4', '5', '6', '7', '8', '9'}

  predicate AllDigits(d: string)
  {
    forall k :: 0 <= k < |d| ==> d[k] in Digits
  }

  function DigitValue(c: char): (v: nat)
    requires c in Digits
    ensures v < 10
  {
    c as int - '0' as int
  }

  function DigitChar(v: nat): (c: char)
    requires v < 10
    ensures c in Digits && DigitValue(c) == v
  {
    ('0' as int + v) as char
  }

  /** The value of a string of decimal digits, most significant digit first. */
  function Value(d: string): nat
    requires AllDigits(d)
  {
    if d == [] then 0 else 10 * Value(d[..|d| - 1]) + DigitValue(d[|d| - 1])
  }

  /** The value of the digit run that starts t. */
  function LeadingValue(t: string): nat
  {
    var n := Span(t, Digits);
    Value(t[..n])
  }

  /** atoi(s), with unbounded integers. */
  function Atoi(s: string): (n: int)
    ensures n < 0 ==> Span(s, Spaces) < |s| && s[Span(s, Spaces)] == '-'
    ensures n > 0 ==> Span(s, Spaces) < |s| && (s[Span(s, Spaces)] in Digits || s[Span(s, Spaces)] == '+')
  {
    var t := s[Span(s, Spaces)..];
    if t != [] && t[0] == '-' then -(LeadingValue(t[1..]) as int)
    else if t != [] && t[0] == '+' then LeadingValue(t[1..])
    else LeadingValue(t)
  }

  /** The canonical decimal spelling of n (what printf's %d writes). */
  function Decimal(n: nat): (d: string)
    ensures d != [] && AllDigits(d)
  {
    if n < 10 then [DigitChar(n)] else Decimal(n / 10) + [DigitChar(n % 10)]
  }

  /** Reading back a decimal spelling gives the number. */
  lemma {:induction false} ValueDecimal(n: nat)
    ensures Value(Decimal(n)) == n
  {
    if n >= 10 {
      var d := Decimal(n);
      assert d[..|d| - 1] == Decimal(n / 10);
      ValueDecimal(n / 10);
    }
  }

  /** The digit run of a decimal spelling stops exactly where the spelling does. */
  lemma LeadingValueDecimal(n: nat, rest: string)
    requires rest == [] || rest[0] !in Digits
    ensures LeadingValue(Decimal(n) + rest) == n
  {
    var d := Decimal(n);
    var t := d + rest;
    assert Span(t, Digits) == |d| by {
      assert forall k :: 0 <= k < |d| ==> t[k] == d[k];
      if |d| < |t| { assert t[|d|] == rest[0]; }
    }
    assert t[..|d|] == d;
    ValueDecimal(n);
  }

  /** A digit is neither white space nor a sign, so atoi starts reading digits at once. */
  lemma DigitStartsNumber(c: char)
    requires c in Digits
    ensures c !in Spaces && c != '-' && c != '+'
  {
  }

  /** Without leading white space or sign, atoi is the value of the leading digit run. */
  lemma AtoiUnsigned(t: string)
    requires t == [] || (t[0] !in Spaces && t[0] != '-' && t[0] != '+')
    ensures Atoi(t) == LeadingValue(t)
  {
    if t != [] {
      assert Span(t, Spaces) == 0;
      assert t[0..] == t;
    }
  }

  /** A leading minus sign negates the value of the digit run after it. */
  lemma AtoiMinus(t: string)
    ensures Atoi(['-'] + t) == -(LeadingValue(t) as int)
  {
    var m := ['-'] + t;
    assert Span(m, Spaces) == 0;
    assert m[0..] == m && m[1..] == t;
  }

  /**
   * atoi reads a decimal number back, with or without a minus sign, and
   * ignores whatever follows the digits ("3x" is 3).
   */
  lemma AtoiDecimal(n: nat, rest: string)
    requires rest == [] || rest[0] !in Digits
    ensures Atoi(Decimal(n) + rest) == n
    ensures Atoi("-" + Decimal(n) + rest) == -(n as int)
  {
    var d := Decimal(n);
    LeadingValueDecimal(n, rest);
    AtoiUnsignedDecimal(d, rest);
    AtoiMinus(d + rest);
    assert "-" + d + rest == ['-'] + (d + rest);
  }

  /** A string starting with a digit is read from that digit on. */
  lemma AtoiUnsignedDecimal(d: string, rest: string)
    requires d != [] && AllDigits(d)
    ensures Atoi(d + rest) == LeadingValue(d + rest)
  {
    assert (d + rest)[0] == d[0];
    DigitStartsNumber(d[0]);
    AtoiUnsigned(d + rest);
  }

  /** atoi skips leading white space: " 42" reads as 42. */
  lemma AtoiSkipsSpace(c: char, s: string)
    requires c in Spaces
    ensures Atoi([c] + s) == Atoi(s)
  {
    var m := [c] + s;
    assert m[1..] == s;
    assert m[Span(m, Spaces)..] == s[Span(s, Spaces)..];
  }

  /** A string that does not start like a number (no space, sign or digit) reads as 0: "abc" is 0. */
  lemma AtoiNotANumber(s: string)
    requires s == [] || (s[0] !in Spaces && s[0] !in Digits && s[0] != '-' && s[0] != '+')
    ensures Atoi(s) == 0
  {
    AtoiUnsigned(s);
    if s != [] {
      assert Span(s, Digits) == 0;
    }
  }
}
