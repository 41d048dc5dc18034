/** Decimal numerals: strconv.Itoa and Atoi, and the zero padding of `%06d`. */
module Decimal {
  import opened Words

  function Digit(d: nat): char
    requires d < 10
  {
    ['0', '1', '2', '3', '4', '5', '6', '7', '8', '9'][d]
  }

  predicate IsDigit(c: char) {
    '0' <= c <= '9'
  }

  function Digits(n: nat): (s: string)
    ensures s != "" && forall i :: 0 <= i < |s| ==> IsDigit(s[i])
  {
    if n < 10 then [Digit(n)] else Digits(n / 10) + [Digit(n % 10)]
  }

  datatype Number = NotANumber | Number(value: int)

  /** The value of a string of digits. */
  function Value(s: string): nat
    requires forall i :: 0 <= i < |s| ==> IsDigit(s[i])
  {
    if s == "" then 0
    else
      assert IsDigit(s[|s| - 1]);
      10 * Value(s[..|s| - 1]) + (s[|s| - 1] as int - '0' as int)
  }

  predicate AllDigits(s: string) {
    forall i :: 0 <= i < |s| ==> IsDigit(s[i])
  }

  /** strconv.Atoi: an optional sign, at least one digit, and an int64 range. */
  function Atoi(s: string): Number {
    var digits := if s != "" && (s[0] == '+' || s[0] == '-') then s[1..] else s;
    if digits == "" || !AllDigits(digits) then NotANumber
    else
      var n: int := if s[0] == '-' then -(Value(digits) as int) else Value(digits);
      if -TWO63 <= n < TWO63 then Number(n) else NotANumber
  }

  lemma {:induction false} DigitsHaveValue(n: nat)
    ensures Value(Digits(n)) == n
  {
    if n >= 10 {
      DigitsHaveValue(n / 10);
      var s := Digits(n);
      assert s[..|s| - 1] == Digits(n / 10);
    }
  }

  lemma ItoaAtoi(n: nat)
    requires n < TWO63
    ensures Atoi(Digits(n)) == Number(n)
  {
    DigitsHaveValue(n);
  }

  /** `%06d` of a natural number. */
  function Pad6(n: nat): (s: string)
    ensures |s| >= 6 && forall i :: 0 <= i < |s| ==> IsDigit(s[i])
  {
    Zeros(Digits(n), 6)
  }

  function Zeros(s: string, width: nat): (padded: string)
    ensures |padded| >= width && |padded| >= |s|
    ensures (forall i :: 0 <= i < |s| ==> IsDigit(s[i])) ==> forall i :: 0 <= i < |padded| ==> IsDigit(padded[i])
    decreases width - |s|
  {
    if |s| >= width then s else Zeros("0" + s, width)
  }

  lemma {:induction false} LeadingZero(s: string)
    requires forall i :: 0 <= i < |s| ==> IsDigit(s[i])
    ensures Value("0" + s) == Value(s)
  {
    var t := "0" + s;
    if s != "" {
      assert t[..|t| - 1] == "0" + s[..|s| - 1];
      LeadingZero(s[..|s| - 1]);
    } else {
      assert t[..|t| - 1] == "";
    }
  }

  lemma {:induction false} ZerosKeepValue(s: string, width: nat)
    requires forall i :: 0 <= i < |s| ==> IsDigit(s[i])
    ensures Value(Zeros(s, width)) == Value(s)
    decreases width - |s|
  {
    if |s| < width {
      LeadingZero(s);
      ZerosKeepValue("0" + s, width);
    }
  }

  lemma Pad6Injective(m: nat, n: nat)
    ensures Pad6(m) == Pad6(n) ==> m == n
  {
    ZerosKeepValue(Digits(m), 6);
    ZerosKeepValue(Digits(n), 6);
    DigitsHaveValue(m);
    DigitsHaveValue(n);
  }

  lemma {:induction false} DigitsAreShortest(n: nat, power: nat, width: nat)
    requires width >= 1 && power == Tens(width)
    ensures |Digits(n)| <= width <==> n < power
    ensures n > 0 ==> Digits(n)[0] != '0'
    decreases n
  {
    if n >= 10 {
      DigitsAreShortest(n / 10, if width > 1 then power / 10 else 10, if width > 1 then width - 1 else 1);
    }
  }

  function Tens(n: nat): (p: nat)
    ensures p >= 1
  {
    if n == 0 then 1 else 10 * Tens(n - 1)
  }

  lemma {:induction false} ZerosFill(s: string, width: nat)
    ensures |Zeros(s, width)| == if |s| >= width then |s| else width
    decreases width - |s|
  {
    if |s| < width {
      ZerosFill("0" + s, width);
    }
  }

  /** `%06d`: the digits read the number, six of them up to 999999, and past that
    as many as it has, without a leading zero. */
  lemma Pad6Reads(n: nat)
    ensures Value(Pad6(n)) == n
    ensures n < 1_000_000 <==> |Pad6(n)| == 6
    ensures n >= 1_000_000 ==> Pad6(n)[0] != '0'
  {
    ZerosKeepValue(Digits(n), 6);
    DigitsHaveValue(n);
    ZerosFill(Digits(n), 6);
    SixTens();
    DigitsAreShortest(n, 1_000_000, 6);
  }

  lemma SixTens()
    ensures Tens(6) == 1_000_000
  {
    assert Tens(3) == 1000;
  }
}
