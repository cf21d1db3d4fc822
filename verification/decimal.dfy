/** Decimal text of natural numbers (strconv.FormatUint, strconv.ParseUint, big.Int.Text). */
module Decimal {
  predicate IsDigits(s: string) {
    forall i :: 0 <= i < |s| ==> '0' <= s[i] <= '9'
  }

  function DigitsValue(s: string): nat
    requires IsDigits(s)
  {
    if s == "" then 0 else 10 * DigitsValue(s[..|s| - 1]) + (s[|s| - 1] as int - '0' as int)
  }

  function Digit(d: nat): (c: char)
    requires d < 10
    ensures '0' <= c <= '9' && c as int - '0' as int == d
  {
    '0' + d as char
  }

  function Digits(n: nat): (s: string)
    ensures s != "" && IsDigits(s)
  {
    if n < 10 then [Digit(n)] else Digits(n / 10) + [Digit(n % 10)]
  }

  function Pow10(p: nat): (r: nat)
    ensures r > 0
  {
    if p == 0 then 1 else 10 * Pow10(p - 1)
  }

  lemma {:induction false} ValueOfDigits(n: nat)
    ensures DigitsValue(Digits(n)) == n
    ensures Digits(n)[0] == '0' <==> n == 0
  {
    var s := Digits(n);
    if n >= 10 {
      ValueOfDigits(n / 10);
      assert s[..|s| - 1] == Digits(n / 10);
    } else {
      assert s[..0] == "";
      assert DigitsValue("") == 0;
    }
  }

  /** A number has more than `p` digits exactly when it is at least 10^p. */
  lemma {:induction false} DigitsLength(n: nat, p: nat)
    ensures |Digits(n)| > p <==> p == 0 || n >= Pow10(p)
  {
    if n >= 10 && p > 0 {
      DigitsLength(n / 10, p - 1);
    } else if p > 1 {
      assert Pow10(p) >= 10 * Pow10(p - 1) && Pow10(p - 1) >= 1;
    }
  }

  lemma {:induction false} ValueOfConcat(a: string, b: string)
    requires IsDigits(a) && IsDigits(b)
    ensures IsDigits(a + b)
    ensures DigitsValue(a + b) == DigitsValue(a) * Pow10(|b|) + DigitsValue(b)
  {
    hide Pow10;
    TimesPow10(DigitsValue(a), |b|);
    if b == "" {
      assert a + b == a;
    } else {
      var b', c := b[..|b| - 1], b[|b| - 1];
      assert b == b' + [c] && a + b == (a + b') + [c];
      ValueOfMore(b', c);
      hide DigitsValue;
      ValueOfConcat(a, b');
      ValueOfMore(a + b', c);
    }
  }

  lemma TimesPow10(v: nat, p: nat)
    ensures v * Pow10(p) == if p == 0 then v else 10 * (v * Pow10(p - 1))
  {
    if p > 0 {
      Shift(v, Pow10(p - 1));
    }
  }

  lemma ValueOfMore(s: string, c: char)
    requires IsDigits(s) && IsDigits([c])
    ensures IsDigits(s + [c]) && DigitsValue(s + [c]) == 10 * DigitsValue(s) + (c as int - '0' as int)
  {
    assert (s + [c])[..|s|] == s && [c][0] == c;
  }

  lemma Shift(v: nat, q: nat)
    ensures v * (10 * q) == 10 * (v * q)
  {
  }

  function Zeros(n: nat): (s: string)
    ensures |s| == n && IsDigits(s)
  {
    if n == 0 then "" else "0" + Zeros(n - 1)
  }

  lemma {:induction false} ValueOfZeros(n: nat)
    ensures DigitsValue(Zeros(n)) == 0
  {
    if n > 0 {
      ValueOfZeros(n - 1);
      ValueOfConcat("0", Zeros(n - 1));
      assert DigitsValue("") == 0 && "0"[..0] == "";
      assert DigitsValue("0") == 0;
    }
  }

  lemma NoneOf(q: nat)
    ensures 0 * q == 0
  {
  }
}
