/** Decimal text of integers, as `Integer.toString` writes it, and the
    right-aligned fixed-width field the magic-square table prints it in. */
module Decimal {

  predicate IsDigit(c: char)
  {
    '0' <= c <= '9'
  }

  /** The character of the decimal digit `d`. */
  function DigitChar(d: nat): (c: char)
    requires d < 10
    ensures IsDigit(c)
  {
    ('0' as int + d) as char
  }

  /** The value of the decimal digit character `c`. */
  function DigitValue(c: char): (d: nat)
    requires IsDigit(c)
    ensures d < 10
  {
    c as int - '0' as int
  }

  lemma DigitRoundTrip(d: nat)
    requires d < 10
    ensures DigitValue(DigitChar(d)) == d
  {
  }

  predicate AllDigits(s: string)
  {
    forall i :: 0 <= i < |s| ==> IsDigit(s[i])
  }

  /** The decimal digits of `n`, most significant first, without leading
      zeros. */
  function NatToString(n: nat): (s: string)
    ensures |s| >= 1 && AllDigits(s)
    decreases n
  {
    if n < 10 then [DigitChar(n)] else NatToString(n / 10) + [DigitChar(n % 10)]
  }

  /** `Integer.toString(n)`: a minus sign for negative numbers, then the
      digits of the magnitude. */
  function IntToString(n: int): (s: string)
    ensures |s| >= 1
  {
    if n < 0 then "-" + NatToString(-n) else NatToString(n)
  }

  /** The value of a non-empty string of decimal digits. */
  function ParseNat(s: string): nat
    requires |s| >= 1 && AllDigits(s)
    decreases |s|
  {
    if |s| == 1 then DigitValue(s[0])
    else 10 * ParseNat(s[..|s| - 1]) + DigitValue(s[|s| - 1])
  }

  /** A string `IntToString` can produce: digits, optionally after a minus
      sign. */
  predicate IsIntText(s: string)
  {
    if |s| >= 1 && s[0] == '-' then |s| >= 2 && AllDigits(s[1..])
    else |s| >= 1 && AllDigits(s)
  }

  /** The value of an integer written in decimal. */
  function ParseInt(s: string): int
    requires IsIntText(s)
  {
    if s[0] == '-' then -(ParseNat(s[1..]) as int) else ParseNat(s)
  }

  lemma {:induction false} NatRoundTrip(n: nat)
    ensures ParseNat(NatToString(n)) == n
    decreases n
  {
    var s := NatToString(n);
    if n < 10 {
      DigitRoundTrip(n);
    } else {
      NatRoundTrip(n / 10);
      DigitRoundTrip(n % 10);
      assert s[..|s| - 1] == NatToString(n / 10);
    }
  }

  /** Only zero is written with a leading zero. */
  lemma {:induction false} NoLeadingZero(n: nat)
    ensures NatToString(n)[0] == '0' <==> n == 0
    decreases n
  {
    if n >= 10 {
      NoLeadingZero(n / 10);
    }
  }

  /** Reading back the text of `n` gives `n`. */
  lemma IntRoundTrip(n: int)
    ensures IsIntText(IntToString(n)) && ParseInt(IntToString(n)) == n
  {
    var s := IntToString(n);
    if n < 0 {
      NatRoundTrip(-n);
      assert s[1..] == NatToString(-n);
    } else {
      NatRoundTrip(n);
    }
  }

  /** The text of `n` starts with a minus sign exactly when `n` is negative;
      it never starts with a blank. */
  lemma IntTextSign(n: int)
    ensures IntToString(n)[0] == '-' <==> n < 0
    ensures IntToString(n)[0] != ' '
  {
  }

  /** `k` blanks. */
  function Spaces(k: nat): (s: string)
    ensures |s| == k
  {
    seq(k, _ => ' ')
  }

  /** `s` right-aligned in a field of width `w`: blanks are put in front until
      it is `w` long; a string already that long is left as it is. */
  function PadLeft(s: string, w: int): string
  {
    if |s| >= w then s else Spaces(w - |s|) + s
  }

  /** The padded field is `max(|s|, w)` long, ends with `s` and has only blanks
      in front of it. */
  lemma PadLeftShape(s: string, w: int)
    ensures var r := PadLeft(s, w);
      && (|r| == if |s| >= w then |s| else w)
      && |r| >= |s| && r[|r| - |s|..] == s
      && forall i :: 0 <= i < |r| - |s| ==> r[i] == ' '
  {
  }

  /** The leading blanks of `r` removed. */
  function TrimLeft(r: string): (t: string)
    ensures |t| <= |r| && t == r[|r| - |t|..]
    ensures |t| == 0 || t[0] != ' '
  {
    if |r| > 0 && r[0] == ' ' then TrimLeft(r[1..]) else r
  }

  /** Removing the blanks in front of a padded string that does not itself
      start with a blank gives the string back. */
  lemma {:induction false} TrimPadLeft(s: string, w: int)
    requires |s| >= 1 && s[0] != ' '
    ensures TrimLeft(PadLeft(s, w)) == s
    decreases w - |s|
  {
    if |s| < w {
      var r := PadLeft(s, w);
      assert r[0] == ' ';
      assert r[1..] == PadLeft(s, w - 1);
      TrimPadLeft(s, w - 1);
    }
  }

  /** A fixed-width integer field reads back as the integer it was made from. */
  lemma FixedWidthRoundTrip(n: int, w: int)
    ensures var t := TrimLeft(PadLeft(IntToString(n), w));
      IsIntText(t) && ParseInt(t) == n
  {
    IntTextSign(n);
    TrimPadLeft(IntToString(n), w);
    IntRoundTrip(n);
  }
}
