/** Decimal integers as text, said apart from the functions that print and scan them. */
module Numerals {
  import opened Words
  import opened Strings
  import opened Spelling

  /** Digits, the last of them the lowest; leading zeros are allowed. */
  ghost predicate Numeral(s: string, n: nat)
    decreases |s|
  {
    && |s| > 0 && '0' <= s[|s| - 1] <= '9' && s[|s| - 1] as int == '0' as int + n % 10
    && if |s| == 1 then n < 10 else Numeral(s[..|s| - 1], n / 10)
  }

  /** An optional sign and a numeral. */
  ghost predicate Decimal(s: string, n: int) {
    || (n >= 0 && Numeral(s, n))
    || (|s| > 1 && s[0] == '+' && n >= 0 && Numeral(s[1..], n))
    || (|s| > 1 && s[0] == '-' && n <= 0 && Numeral(s[1..], -n))
  }

  lemma {:induction false} NumeralDigits(s: string, n: nat)
    requires Numeral(s, n)
    ensures forall i :: 0 <= i < |s| ==> IsDigit(s[i])
    ensures ScanDigits(s, 0) == n
  {
    var front, last := s[..|s| - 1], s[|s| - 1];
    assert s == front + [last];
    if |s| == 1 {
      assert s[1..] == [];
    } else {
      NumeralDigits(front, n / 10);
      ScanAppend(front, last, 0);
    }
  }

  lemma DecimalScans(s: string, n: int)
    requires Decimal(s, n)
    ensures ScanInt(s) == Some(n)
  {
    if n >= 0 && Numeral(s, n) {
      NumeralDigits(s, n);
    } else {
      NumeralDigits(s[1..], if n < 0 then -n else n);
    }
  }

  lemma DecimalTight(s: string, n: int)
    requires Decimal(s, n)
    ensures Tight(s)
  {
    if n >= 0 && Numeral(s, n) {
      NumeralDigits(s, n);
    } else {
      NumeralDigits(s[1..], if n < 0 then -n else n);
      assert s[|s| - 1] == s[1..][|s| - 2];
    }
  }

  lemma {:induction false} DigitsNumeral(n: nat)
    ensures Numeral(Digits(n), n)
  {
    if n >= 10 {
      DigitsNumeral(n / 10);
      assert Digits(n)[..|Digits(n)| - 1] == Digits(n / 10);
    }
  }

  lemma FormatDecimal(n: int)
    ensures Decimal(FormatInt(n), n)
  {
    if n < 0 {
      DigitsNumeral(-n);
      assert FormatInt(n)[1..] == Digits(-n);
    } else {
      DigitsNumeral(n);
    }
  }
}
