/**
  Student identifiers. The roster stores each id as text: the decimal
  rendering of an integer, left-padded with zeros to a width of three
  (`str(n).zfill(3)`), and reads the counter back with `int(...)`.
 */
module Ids {

  datatype Option<T> = None | Some(value: T)

  /** Width every identifier is padded to. */
  const IdWidth: nat := 3

  function Max(a: int, b: int): int { if a < b then b else a }

  predicate IsDigit(c: char) { '0' <= c <= '9' }

  /** A non-empty run of decimal digits. */
  predicate IsNumeral(s: string) {
    |s| > 0 && forall i :: 0 <= i < |s| ==> IsDigit(s[i])
  }

  function DigitChar(d: nat): (c: char)
    requires d < 10
    ensures IsDigit(c) && c as int - '0' as int == d
  {
    ('0' as int + d) as char
  }

  function DigitValue(c: char): nat
    requires IsDigit(c)
  {
    c as int - '0' as int
  }

  /** Decimal digits of `n`, most significant first. */
  function Digits(n: nat): (s: string)
    ensures IsNumeral(s)
    ensures n > 0 ==> s[0] != '0'
    ensures n < 10 ==> |s| == 1
    ensures n < 100 ==> |s| <= 2
    ensures n < 1000 ==> |s| <= 3
    decreases n
  {
    if n < 10 then [DigitChar(n)] else Digits(n / 10) + [DigitChar(n % 10)]
  }

  /** Python's `str` of an integer: an optional minus sign and the digits. */
  function Decimal(n: int): (r: string)
    ensures n >= 0 ==> IsNumeral(r)
    ensures n < 0 ==> |r| > 1 && r[0] == '-' && IsNumeral(r[1..])
    ensures n > 0 ==> r[0] != '0'
    ensures n < 0 ==> r[1] != '0'
    ensures ParseInt(r) == Some(n)
  {
    if n < 0 then
      NumeralValueOfDigits(-n);
      assert ("-" + Digits(-n))[1..] == Digits(-n);
      "-" + Digits(-n)
    else
      NumeralValueOfDigits(n);
      Digits(n)
  }

  function Zeros(k: nat): (s: string)
    ensures |s| == k && forall i :: 0 <= i < k ==> s[i] == '0'
  {
    if k == 0 then [] else Zeros(k - 1) + "0"
  }

  /**
    Python's `str.zfill`: pads with '0' on the left up to `width`, inserting
    the padding after a leading sign; a string already that long is kept.
   */
  function ZFill(s: string, width: nat): (r: string)
    ensures |r| == Max(|s|, width)
    ensures |s| >= width ==> r == s
    ensures ParseInt(s).Some? ==> ParseInt(r) == ParseInt(s)
  {
    if |s| >= width then s
    else if |s| > 0 && (s[0] == '-' || s[0] == '+') then
      ZerosAfterSign(width - |s|, s);
      [s[0]] + Zeros(width - |s|) + s[1..]
    else
      ZerosBeforeNumeral(width - |s|, s);
      Zeros(width - |s|) + s
  }

  /**
    The identifier given to the integer `n`: `str(n).zfill(3)`. It is at
    least three characters wide and reads back as `n`.
   */
  function ZeroPad(n: int): (r: string)
    ensures |r| == Max(|Decimal(n)|, IdWidth)
    ensures ParseInt(r) == Some(n)
  {
    ZFill(Decimal(n), IdWidth)
  }

  /** Value of a string of digits, read most significant first. */
  function NumeralValue(s: string): nat
    requires forall i :: 0 <= i < |s| ==> IsDigit(s[i])
  {
    if s == [] then 0 else NumeralValue(s[..|s| - 1]) * 10 + DigitValue(s[|s| - 1])
  }

  /**
    `int(s)` on the strings the roster produces: digits, optionally after a
    minus sign; anything else is rejected.
   */
  function ParseInt(s: string): (r: Option<int>)
    ensures r.Some? <==> IsNumeral(s) || (|s| > 0 && s[0] == '-' && IsNumeral(s[1..]))
    ensures r.Some? && IsNumeral(s) ==> r.value >= 0
    ensures r.Some? && s[0] == '-' ==> r.value <= 0
  {
    if IsNumeral(s) then Some(NumeralValue(s))
    else if |s| > 0 && s[0] == '-' && IsNumeral(s[1..]) then Some(-(NumeralValue(s[1..]) as int))
    else None
  }

  lemma {:induction false} NumeralValueOfDigits(n: nat)
    ensures NumeralValue(Digits(n)) == n
    decreases n
  {
    if n >= 10 {
      var s := Digits(n);
      assert s[..|s| - 1] == Digits(n / 10);
      NumeralValueOfDigits(n / 10);
    }
  }

  lemma {:induction false} NumeralValueZeros(k: nat)
    ensures NumeralValue(Zeros(k)) == 0
  {
    if k > 0 {
      assert Zeros(k)[..k - 1] == Zeros(k - 1);
      NumeralValueZeros(k - 1);
    }
  }

  /** Leading zeros do not change the value of a numeral. */
  lemma {:induction false} NumeralValueLeadingZeros(k: nat, s: string)
    requires forall i :: 0 <= i < |s| ==> IsDigit(s[i])
    ensures forall i :: 0 <= i < |Zeros(k) + s| ==> IsDigit((Zeros(k) + s)[i])
    ensures NumeralValue(Zeros(k) + s) == NumeralValue(s)
    decreases |s|
  {
    var t := Zeros(k) + s;
    if s == [] {
      assert t == Zeros(k);
      NumeralValueZeros(k);
    } else {
      assert t[..|t| - 1] == Zeros(k) + s[..|s| - 1];
      NumeralValueLeadingZeros(k, s[..|s| - 1]);
    }
  }

  /** Zeros put in front of a numeral do not change the integer it reads as. */
  lemma ZerosBeforeNumeral(k: nat, s: string)
    ensures IsNumeral(s) ==> ParseInt(Zeros(k) + s) == ParseInt(s)
  {
    if IsNumeral(s) {
      NumeralValueLeadingZeros(k, s);
    }
  }

  /** Zeros put between a minus sign and its digits do not change the integer either. */
  lemma ZerosAfterSign(k: nat, s: string)
    ensures |s| > 0 && s[0] == '-' && IsNumeral(s[1..]) ==>
      ParseInt([s[0]] + Zeros(k) + s[1..]) == ParseInt(s)
  {
    if |s| > 0 && s[0] == '-' && IsNumeral(s[1..]) {
      var t := [s[0]] + Zeros(k) + s[1..];
      NumeralValueLeadingZeros(k, s[1..]);
      assert t[1..] == Zeros(k) + s[1..];
    }
  }

  /** Identifiers are at least three characters wide and never truncated. */
  lemma ZeroPadShape(n: int)
    ensures |ZeroPad(n)| == Max(|Decimal(n)|, IdWidth)
    ensures n >= 0 ==> IsNumeral(ZeroPad(n))
    ensures n < 0 ==> ZeroPad(n)[0] == '-'
    ensures n >= 1000 ==> ZeroPad(n) == Decimal(n)
    ensures -100 < n < 1000 ==> |ZeroPad(n)| == IdWidth
  {
    if n >= 1000 {
      DigitsLength(n);
    }
  }

  lemma {:induction false} DigitsLength(n: nat)
    ensures n >= 10 ==> |Digits(n)| >= 2
    ensures n >= 100 ==> |Digits(n)| >= 3
    ensures n >= 1000 ==> |Digits(n)| >= 4
  {
    if n >= 10 {
      DigitsLength(n / 10);
    }
  }

  lemma ZeroPadExamples()
    ensures ZeroPad(4) == "004"
    ensures ZeroPad(42) == "042"
    ensures ZeroPad(1000) == "1000"
    ensures ZeroPad(-5) == "-05"
    ensures ZeroPad(3) == "003"
  {
    assert Zeros(2) == "00";
    assert Zeros(1) == "0";
  }

  /** Different integers get different identifiers. */
  lemma ZeroPadInjective(a: int, b: int)
    ensures ZeroPad(a) == ZeroPad(b) ==> a == b
  {
  }
}
