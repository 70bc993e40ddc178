/**
 * Decimal rendering of integers, as Python's format specification `02`
 * (minimum width two, padded with zeros after the sign) produces it, and
 * the decoder that reads such text back.
 */
module DecimalText {
  import opened Wrappers

  predicate IsDigit(c: char) {
    '0' <= c <= '9'
  }

  predicate AllDigits(s: string) {
    forall i :: 0 <= i < |s| ==> IsDigit(s[i])
  }

  /** The character for a single decimal digit. */
  function DigitChar(d: int): (c: char)
    requires 0 <= d < 10
    ensures IsDigit(c) && DigitValue(c) == d
  {
    (48 + d) as char
  }

  /** The value of a single decimal digit character. */
  function DigitValue(c: char): (d: int)
    requires IsDigit(c)
    ensures 0 <= d < 10
  {
    c as int - 48
  }

  lemma DigitCharOfValue(c: char)
    requires IsDigit(c)
    ensures DigitChar(DigitValue(c)) == c
  {
  }

  /** The shortest decimal representation of `n` (Python's `str` of a non-negative int). */
  function Digits(n: nat): (s: string)
    ensures |s| >= 1 && AllDigits(s)
    ensures (s[0] == '0') == (n == 0)
    ensures (|s| == 1) == (n < 10)
    ensures (|s| == 2) == (10 <= n < 100)
  {
    if n < 10 then [DigitChar(n)] else Digits(n / 10) + [DigitChar(n % 10)]
  }

  /** The value of a string of decimal digits, most significant first. */
  function ParseDigits(s: string): (n: nat)
    requires AllDigits(s)
    ensures |s| == 0 ==> n == 0
  {
    if s == [] then 0 else ParseDigits(s[..|s| - 1]) * 10 + DigitValue(s[|s| - 1])
  }

  /** Reading the digits of `n` back yields `n`. */
  lemma {:induction false} ParseDigitsOfDigits(n: nat)
    ensures ParseDigits(Digits(n)) == n
  {
    if n >= 10 {
      var s := Digits(n);
      assert s[..|s| - 1] == Digits(n / 10);
      ParseDigitsOfDigits(n / 10);
    }
  }

  /**
   * Python's `f"{n:02}"` for an integer `n`: at least two characters, zero
   * fill between the sign and the digits. A negative `n` already has two
   * characters once its sign is written, so it is never zero-filled.
   */
  function ZeroPad2(n: int): (s: string)
    ensures |s| >= 2
    ensures (|s| == 2) == (-10 < n < 100)
    ensures n >= 0 ==> AllDigits(s)
    ensures n < 0 ==> s[0] == '-' && AllDigits(s[1..])
    ensures 0 <= n < 10 ==> s == ['0', DigitChar(n)]
    ensures 10 <= n ==> s == Digits(n)
  {
    if n < 0 then "-" + Digits(-n)
    else if n < 10 then ['0', DigitChar(n)]
    else Digits(n)
  }

  /** Reads an optionally negative decimal integer. */
  function ParseInt(s: string): (r: Option<int>)
    ensures r.Some? && |s| >= 1 && s[0] != '-' ==> r.value >= 0
  {
    if |s| >= 2 && s[0] == '-' && AllDigits(s[1..]) then Some(0 - ParseDigits(s[1..]) as int)
    else if |s| >= 1 && AllDigits(s) then Some(ParseDigits(s))
    else None
  }

  /** Decoding the `02` rendering of any integer gives the integer back. */
  lemma ParseIntOfZeroPad2(n: int)
    ensures ParseInt(ZeroPad2(n)) == Some(n)
  {
    if n < 0 {
      ParseIntOfNegative(n);
    } else if n < 10 {
      ParseIntOfPadded(n);
    } else {
      ParseDigitsOfDigits(n);
    }
  }

  lemma ParseIntOfNegative(n: int)
    requires n < 0
    ensures ParseInt(ZeroPad2(n)) == Some(n)
  {
    var d := Digits(-n);
    var s := "-" + d;
    assert ZeroPad2(n) == s;
    assert s[1..] == d;
    ParseDigitsOfDigits(-n);
    assert ParseInt(s) == Some(0 - ParseDigits(d) as int);
  }

  lemma ParseIntOfPadded(n: int)
    requires 0 <= n < 10
    ensures ParseInt(ZeroPad2(n)) == Some(n)
  {
    var s := ZeroPad2(n);
    assert s[..1] == "0" && s[..1][..0] == [];
    assert ParseDigits(s[..1]) == 0;
    assert ParseDigits(s) == n;
  }

  /** A two-digit field value, value `n` with `0 <= n < 100`, renders as two digits that decode to `n`. */
  lemma TwoDigitField(n: int)
    requires 0 <= n < 100
    ensures |ZeroPad2(n)| == 2 && AllDigits(ZeroPad2(n))
    ensures ParseDigits(ZeroPad2(n)) == n
  {
    ParseIntOfZeroPad2(n);
  }

  /** Every pair of digits is the `02` rendering of the value it denotes. */
  lemma ZeroPad2OfTwoDigits(s: string)
    requires |s| == 2 && AllDigits(s)
    ensures ParseDigits(s) < 100
    ensures ZeroPad2(ParseDigits(s)) == s
  {
    var hi, lo := DigitValue(s[0]), DigitValue(s[1]);
    var n := hi * 10 + lo;
    assert ParseDigits(s) == n by {
      assert s[..1] == [s[0]] && s[..1][..0] == [];
      assert ParseDigits(s[..1]) == hi;
    }
    DigitCharOfValue(s[0]);
    DigitCharOfValue(s[1]);
    if hi == 0 {
      assert ZeroPad2(n) == ['0', DigitChar(lo)];
    } else {
      assert n / 10 == hi && n % 10 == lo;
      assert Digits(n) == Digits(hi) + [DigitChar(lo)];
    }
    assert s == [s[0], s[1]];
  }
}
