/**
  Decimal text of numbers as JavaScript prints them in the status handler:
  an integer inside a template literal (`${latency}ms`) and a percentage
  through Number.prototype.toFixed(1). Each printer has a parser beside it,
  and the two are proved inverse in both directions, so the printed text
  determines the number and every canonical text is printed by exactly one
  number.
 */
module Decimal {
  import opened Wrappers

  predicate IsDigit(c: char) {
    '0' <= c <= '9'
  }

  function DigitValue(c: char): (d: nat)
    requires IsDigit(c)
    ensures d < 10
  {
    c as int - '0' as int
  }

  function DigitChar(d: nat): (c: char)
    requires d < 10
    ensures IsDigit(c) && DigitValue(c) == d
  {
    ('0' as int + d) as char
  }

  predicate AllDigits(s: string) {
    forall i :: 0 <= i < |s| ==> IsDigit(s[i])
  }

  /** A numeral as String(n) prints it: digits only, no leading zero except "0" itself. */
  predicate Canonical(s: string) {
    |s| > 0 && AllDigits(s) && (s[0] == '0' ==> |s| == 1)
  }

  /** The value of a string of decimal digits, most significant first. */
  function ValueOf(s: string): nat
    requires AllDigits(s)
    decreases |s|
  {
    if s == [] then 0 else 10 * ValueOf(s[..|s| - 1]) + DigitValue(s[|s| - 1])
  }

  /** String(n) for a non-negative integer n. */
  function NatText(n: nat): (s: string)
    ensures Canonical(s)
    ensures (s[0] == '0') == (n == 0)
    decreases n
  {
    if n < 10 then [DigitChar(n)] else NatText(n / 10) + [DigitChar(n % 10)]
  }

  /** Reads back a canonical numeral; anything else is rejected. */
  function ParseNat(s: string): Option<nat> {
    if Canonical(s) then Some(ValueOf(s)) else None
  }

  lemma {:induction false} ValueOfNatText(n: nat)
    ensures ValueOf(NatText(n)) == n
    decreases n
  {
    if n >= 10 {
      var s := NatText(n / 10);
      ValueOfNatText(n / 10);
      assert NatText(n) == s + [DigitChar(n % 10)];
      assert (s + [DigitChar(n % 10)])[..|s|] == s;
    }
  }

  lemma {:induction false} NatTextOfValue(s: string)
    requires Canonical(s)
    ensures NatText(ValueOf(s)) == s
    decreases |s|
  {
    var last := s[|s| - 1];
    if |s| == 1 {
      assert s == [last];
    } else {
      var p := s[..|s| - 1];
      assert Canonical(p);
      NatTextOfValue(p);
      var v := ValueOf(s);
      assert ValueOf(p) != 0;
      assert v / 10 == ValueOf(p) && v % 10 == DigitValue(last);
      assert s == p + [last];
    }
  }

  /** Printing then parsing gives the number back. */
  lemma ParseNatText(n: nat)
    ensures ParseNat(NatText(n)) == Some(n)
  {
    ValueOfNatText(n);
  }

  /** A text the parser accepts is exactly the text printed for its value. */
  lemma NatTextOfParse(s: string, n: nat)
    requires ParseNat(s) == Some(n)
    ensures NatText(n) == s
  {
    NatTextOfValue(s);
  }

  /** String(i) for an integer i: a minus sign before the magnitude when negative. */
  function IntText(i: int): (s: string)
    ensures |s| > 0
  {
    if i < 0 then "-" + NatText(-i) else NatText(i)
  }

  /** Reads back an integer numeral; "-0" is not one String() produces, so it is rejected. */
  function ParseInt(s: string): Option<int> {
    if |s| > 0 && s[0] == '-' then
      match ParseNat(s[1..])
      case Some(n) => if n > 0 then Some(-(n as int)) else None
      case None => None
    else
      match ParseNat(s)
      case Some(n) => Some(n)
      case None => None
  }

  lemma ParseIntText(i: int)
    ensures ParseInt(IntText(i)) == Some(i)
  {
    if i < 0 {
      ParseNatText(-i);
      assert IntText(i)[1..] == NatText(-i);
    } else {
      ParseNatText(i);
    }
  }

  lemma IntTextOfParse(s: string, i: int)
    requires ParseInt(s) == Some(i)
    ensures IntText(i) == s
  {
    if |s| > 0 && s[0] == '-' {
      NatTextOfParse(s[1..], -i);
      assert s == "-" + s[1..];
    } else {
      NatTextOfParse(s, i);
    }
  }

  /**
    x.toFixed(1) for x = tenths / 10: the integer part, a point, and one
    decimal digit. The value is given in tenths, so no rounding takes place.
   */
  function Fixed1(tenths: nat): (s: string)
    ensures |s| >= 3
  {
    NatText(tenths / 10) + "." + [DigitChar(tenths % 10)]
  }

  /** Reads back a Fixed1 text, in tenths. */
  function ParseFixed1(s: string): Option<nat> {
    if |s| >= 3 && s[|s| - 2] == '.' && IsDigit(s[|s| - 1]) then
      match ParseNat(s[..|s| - 2])
      case Some(w) => Some(10 * w + DigitValue(s[|s| - 1]))
      case None => None
    else
      None
  }

  lemma ParseFixed1Text(tenths: nat)
    ensures ParseFixed1(Fixed1(tenths)) == Some(tenths)
  {
    var w := NatText(tenths / 10);
    var s := Fixed1(tenths);
    assert s[..|s| - 2] == w;
    ParseNatText(tenths / 10);
  }

  lemma Fixed1TextOfParse(s: string, tenths: nat)
    requires ParseFixed1(s) == Some(tenths)
    ensures Fixed1(tenths) == s
  {
    var w := s[..|s| - 2];
    var n :| ParseNat(w) == Some(n);
    NatTextOfParse(w, n);
    assert tenths / 10 == n && tenths % 10 == DigitValue(s[|s| - 1]);
    assert s == w + "." + [s[|s| - 1]];
  }
}
