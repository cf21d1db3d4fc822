/** Fixed point amounts as text (protocol/format.go). */
module AmountFormat {
  import opened Decimal

  function FormatAmount(amount: string, precision: nat): string {
    var padded := if |amount| < precision then Zeros(precision - |amount|) + amount else amount;
    var ipart, fpart := padded[..|padded| - precision], padded[|padded| - precision..];
    (if ipart == "" then "0" else ipart) + (if fpart != "" then "." + fpart else fpart)
  }

  /** For every amount, the text has exactly `precision` fractional digits and an integer part without
      superfluous zeros, and denotes the amount. */
  lemma FormatDenotesAmount(n: nat, precision: nat) returns (ipart: string, fpart: string)
    ensures FormatAmount(Digits(n), precision) == ipart + (if precision == 0 then "" else "." + fpart)
    ensures |fpart| == precision && IsDigits(fpart)
    ensures ipart != "" && IsDigits(ipart) && (ipart[0] == '0' ==> ipart == "0")
    ensures DigitsValue(ipart) * Pow10(precision) + DigitsValue(fpart) == n
  {
    hide Digits, Zeros, DigitsValue, Pow10;
    var d := Digits(n);
    ValueOfDigits(n);
    ZeroText();
    if |d| <= precision {
      ipart, fpart := "0", Zeros(precision - |d|) + d;
      ValueOfZeros(precision - |d|);
      ValueOfConcat(Zeros(precision - |d|), d);
      NoneOf(Pow10(|d|));
      NoneOf(Pow10(precision));
      assert |d| == precision ==> Zeros(0) + d == d;
    } else {
      ipart, fpart := d[..|d| - precision], d[|d| - precision..];
      assert d == ipart + fpart;
      ValueOfConcat(ipart, fpart);
      assert d[0] == ipart[0];
      if ipart[0] == '0' {
        ZeroIsOneDigit(n);
      }
    }
  }

  lemma ZeroText()
    ensures DigitsValue("0") == 0
  {
    assert DigitsValue("") == 0 && "0"[..0] == "";
  }

  lemma ZeroIsOneDigit(n: nat)
    requires n == 0
    ensures Digits(n) == "0"
  {
  }

  /** The text of an integer, as FormatBigAmount gets it. */
  function IntText(n: int): string {
    if n < 0 then "-" + Digits(-n) else Digits(n)
  }

  /** A negative amount is the minus sign and the text of its magnitude exactly when its integer part is
      not zero; below one unit the sign ends up in the wrong place or the leading zero is missing. */
  lemma {:induction false} NegativeAmounts(n: int, precision: nat)
    requires n < 0
    ensures FormatAmount(IntText(n), precision) == "-" + FormatAmount(Digits(-n), precision) <==> -n >= Pow10(precision)
  {
    hide Digits, Pow10, DigitsValue, FormatAmount;
    DigitsLength(-n, precision);
    PowZero();
    if |Digits(-n)| > precision {
      LongNegative(Digits(-n), precision);
    } else {
      ShortNegative(Digits(-n), precision);
    }
  }

  lemma LongNegative(d: string, precision: nat)
    requires |d| > precision
    ensures FormatAmount("-" + d, precision) == "-" + FormatAmount(d, precision)
  {
    var t := "-" + d;
    assert t[..|t| - precision] == "-" + d[..|d| - precision];
    assert t[|t| - precision..] == d[|d| - precision..];
  }

  lemma ShortNegative(d: string, precision: nat)
    requires 0 < |d| <= precision
    ensures FormatAmount("-" + d, precision) != "-" + FormatAmount(d, precision)
  {
    var t := "-" + d;
    if |t| <= precision {
      assert FormatAmount(t, precision)[0] == '0';
    } else {
      assert t[..1] == "-" && t[1..] == d && Zeros(0) + d == d;
      assert |FormatAmount(t, precision)| == 2 + |d|;
      assert |"-" + FormatAmount(d, precision)| == 3 + |d|;
    }
  }

  lemma PowZero()
    ensures Pow10(0) == 1
  {
  }

  /** Below one unit the sign stands where a digit should be, or the integer part is missing; an amount that is not
      negative is its digits. */
  lemma {:induction false} SmallNegatives(n: int, precision: nat)
    requires -n < Pow10(precision)
    ensures n < 0 ==> |Digits(-n)| <= precision
    ensures var d := Digits(if n < 0 then -n else n);
            FormatAmount(IntText(n), precision) ==
            if n >= 0 then FormatAmount(d, precision)
            else if |d| == precision then "-." + d
            else "0." + Zeros(precision - |d| - 1) + "-" + d
  {
    if n < 0 {
      hide Digits, Pow10;
      DigitsLength(-n, precision);
      PowZero();
      SignInside(Digits(-n), precision);
    }
  }

  lemma SignInside(d: string, precision: nat)
    requires 0 < |d| <= precision
    ensures FormatAmount("-" + d, precision) ==
            if |d| == precision then "-." + d else "0." + Zeros(precision - |d| - 1) + "-" + d
  {
    var t := "-" + d;
    hide Zeros;
    if |d| == precision {
      assert t[..1] == "-" && t[1..] == d;
      assert FormatAmount(t, precision) == "-" + ("." + d);
    } else {
      var padded := Zeros(precision - |t|) + t;
      assert padded[..0] == "" && padded[0..] == padded;
      assert FormatAmount(t, precision) == "0" + ("." + padded);
    }
  }

  /** The smallest text where the sign is lost inside the number: minus five hundredths. */
  lemma SmallNegativeAmount()
    ensures FormatAmount(IntText(-5), 2) == "0.-5"
  {
    assert Digits(5) == "5" && IntText(-5) == "-5";
    assert "-5"[..0] == "" && "-5"[0..] == "-5";
  }
}
