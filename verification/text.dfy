/**
 * The string primitives of JavaScript that the row pipeline relies on:
 * decimal digits, Number.prototype.toString on integers, String.prototype.padStart,
 * String.prototype.split and the Number() conversion of signed integer texts.
 */
module Text {
  import opened Wrappers

  predicate IsDigit(c: char) { '0' <= c <= '9' }

  predicate AllDigits(s: string) { forall i :: 0 <= i < |s| ==> IsDigit(s[i]) }

  function Pow10(k: nat): (p: nat)
    ensures p >= 1
  {
    if k == 0 then 1 else 10 * Pow10(k - 1)
  }

  function DigitValue(c: char): (d: nat)
    requires IsDigit(c)
    ensures d < 10
  {
    c as int - '0' as int
  }

  function DigitChar(d: nat): (c: char)
    requires d < 10
    ensures IsDigit(c) && DigitValue(c) == d
  {
    ('0' as int + d) as char
  }

  /** The value of a string of decimal digits; it is below 10^|s|. */
  function DecimalValue(s: string): (n: nat)
    requires AllDigits(s)
    ensures n < Pow10(|s|)
  {
    if s == [] then 0 else DecimalValue(s[..|s| - 1]) * 10 + DigitValue(s[|s| - 1])
  }

  /** The decimal text of a natural number, as Number.prototype.toString writes it. */
  function NatText(n: nat): (t: string)
    ensures |t| >= 1 && AllDigits(t) && DecimalValue(t) == n
    ensures t[0] == '0' <==> n == 0
    ensures |t| > 1 ==> t[0] != '0'
    ensures |t| == 1 <==> n < 10
    ensures n < 100 ==> |t| <= 2
  {
    if n < 10 then [DigitChar(n)]
    else
      var t := NatText(n / 10) + [DigitChar(n % 10)];
      assert t[..|t| - 1] == NatText(n / 10);
      t
  }

  /** Number.prototype.toString on an integer: a minus sign before the digits when negative. */
  function IntText(n: int): (t: string)
  {
    if n < 0 then "-" + NatText(-n) else NatText(n)
  }

  /** String.prototype.padStart(width, "0"): zeros in front up to the width. */
  function PadStart(s: string, width: nat): (r: string)
    ensures |r| == if |s| < width then width else |s|
    ensures r[|r| - |s|..] == s
    ensures forall i :: 0 <= i < |r| - |s| ==> r[i] == '0'
  {
    if |s| < width then seq(width - |s|, _ => '0') + s else s
  }

  /**
   * Number(s) on the texts the pipeline produces: the empty text reads as 0, an optional sign
   * followed by at least one digit reads as that integer, and anything else reads as NaN (None).
   */
  function ToNumber(s: string): Option<int>
  {
    if s == [] then Some(0)
    else if AllDigits(s) then Some(DecimalValue(s))
    else if |s| >= 2 && s[0] == '-' && AllDigits(s[1..]) then Some(0 - DecimalValue(s[1..]))
    else if |s| >= 2 && s[0] == '+' && AllDigits(s[1..]) then Some(DecimalValue(s[1..]))
    else None
  }

  predicate NoneIn(s: string, seps: set<char>) { forall i :: 0 <= i < |s| ==> s[i] !in seps }

  /** The index of the first separator in s, or |s| when there is none. */
  function FirstSeparator(s: string, seps: set<char>): (i: nat)
    ensures i <= |s|
  {
    if s == [] || s[0] in seps then 0 else 1 + FirstSeparator(s[1..], seps)
  }

  /** Text without a separator has its first separator at its end. */
  lemma {:induction false} FirstSeparatorNone(s: string, seps: set<char>)
    requires NoneIn(s, seps)
    ensures FirstSeparator(s, seps) == |s|
  {
    if s != [] {
      FirstSeparatorNone(s[1..], seps);
    }
  }

  /** The first separator after a separator-free piece is the one that ends it. */
  lemma {:induction false} FirstSeparatorAt(a: string, c: char, rest: string, seps: set<char>)
    requires NoneIn(a, seps) && c in seps
    ensures FirstSeparator(a + [c] + rest, seps) == |a|
  {
    var s := a + [c] + rest;
    if a != [] {
      assert s[1..] == a[1..] + [c] + rest;
      FirstSeparatorAt(a[1..], c, rest, seps);
    }
  }

  /** String.prototype.split with a separator that is any one character of seps. */
  function Split(s: string, seps: set<char>): (parts: seq<string>)
    ensures |parts| >= 1
    decreases |s|
  {
    var i := FirstSeparator(s, seps);
    if i == |s| then [s] else [s[..i]] + Split(s[i + 1..], seps)
  }

  /** Splitting text without a separator yields the text itself. */
  lemma SplitNone(s: string, seps: set<char>)
    requires NoneIn(s, seps)
    ensures Split(s, seps) == [s]
  {
    FirstSeparatorNone(s, seps);
  }

  /** A separator after a separator-free piece cuts exactly that piece off the front. */
  lemma SplitCons(a: string, c: char, rest: string, seps: set<char>)
    requires NoneIn(a, seps) && c in seps
    ensures Split(a + [c] + rest, seps) == [a] + Split(rest, seps)
  {
    var s := a + [c] + rest;
    FirstSeparatorAt(a, c, rest, seps);
    assert s[..|a|] == a;
    assert s[|a| + 1..] == rest;
  }

  /** Text made only of digits and minus signs. */
  predicate Numeral(s: string) { forall i :: 0 <= i < |s| ==> s[i] == '-' || IsDigit(s[i]) }

  /** The text of an integer holds only digits and a minus sign. */
  lemma IntTextChars(n: int)
    ensures Numeral(IntText(n))
  {
    if n < 0 {
      var t := NatText(-n);
      assert forall i :: 1 <= i < |IntText(n)| ==> IntText(n)[i] == t[i - 1];
    }
  }

  /** Padding with zeros keeps a text made of digits and minus signs. */
  lemma PadStartNumeral(s: string, width: nat)
    requires Numeral(s)
    ensures Numeral(PadStart(s, width))
  {
    var r := PadStart(s, width);
    forall i | |r| - |s| <= i < |r| ensures r[i] == '-' || IsDigit(r[i]) {
      assert r[i] == r[|r| - |s|..][i - (|r| - |s|)];
    }
  }

  /** Two separator-free pieces joined by a separator split back into the two. */
  lemma SplitTwo(b: string, c: string, sep: char, seps: set<char>)
    requires NoneIn(b, seps) && NoneIn(c, seps) && sep in seps
    ensures Split(b + [sep] + c, seps) == [b, c]
  {
    SplitCons(b, sep, c, seps);
    SplitNone(c, seps);
  }

  /** Three separator-free pieces joined by a separator split back into the three. */
  lemma SplitThree(a: string, b: string, c: string, sep: char, seps: set<char>)
    requires NoneIn(a, seps) && NoneIn(b, seps) && NoneIn(c, seps) && sep in seps
    ensures Split(a + [sep] + (b + [sep] + c), seps) == [a, b, c]
  {
    SplitCons(a, sep, b + [sep] + c, seps);
    SplitTwo(b, c, sep, seps);
  }

  /** Pieces free of a set of characters, joined by other characters, are free of it too. */
  lemma NoneInThree(a: string, b: string, c: string, sep: char, seps: set<char>)
    requires NoneIn(a, seps) && NoneIn(b, seps) && NoneIn(c, seps) && sep !in seps
    ensures NoneIn(a + [sep] + b + [sep] + c, seps)
  {
  }

  /** Number() reads back exactly the integer that toString and padStart(2, "0") wrote. */
  lemma ParsePadded(n: int)
    ensures ToNumber(PadStart(IntText(n), 2)) == Some(n)
  {
    if n < 0 {
      ParseNegative(-n);
    } else if n < 10 {
      ParseSingleDigit(n);
    } else {
      assert PadStart(IntText(n), 2) == NatText(n);
    }
  }

  lemma ParseSingleDigit(n: nat)
    requires n < 10
    ensures ToNumber(PadStart(IntText(n), 2)) == Some(n)
  {
    var d := DigitChar(n);
    var r := PadStart(IntText(n), 2);
    assert IntText(n) == [d];
    assert r == ['0', d];
    assert AllDigits(r);
    assert r[..1] == ['0'] && ['0'][..0] == [];
    assert DecimalValue(['0']) == 0;
    assert DecimalValue(r) == DecimalValue(r[..1]) * 10 + DigitValue(r[1]);
  }

  lemma ParseNegative(m: int)
    requires m > 0
    ensures ToNumber(PadStart(IntText(-m), 2)) == Some(-m)
  {
    var t := NatText(m);
    var r := PadStart(IntText(-m), 2);
    assert r == "-" + t;
    assert r[1..] == t;
    assert !IsDigit(r[0]);
  }
}
