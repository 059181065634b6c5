/** Decimal numerals: `str(n)`, `int(s)` on ASCII digits, and `s.lstrip('0') or '0'`. */
module Decimals {
  predicate IsDigit(c: char) {
    '0' <= c <= '9'
  }

  predicate Digits(s: string) {
    forall i | 0 <= i < |s| :: IsDigit(s[i])
  }

  function DigitChar(d: nat): (c: char)
    requires d < 10
    ensures IsDigit(c) && c as int - '0' as int == d
  {
    '0' + d as char
  }

  function DigitValue(c: char): (d: nat)
    requires IsDigit(c)
    ensures d < 10 && DigitChar(d) == c
  {
    c as int - '0' as int
  }

  function Value(s: string): nat
    requires Digits(s)
  {
    if s == "" then 0 else 10 * Value(s[..|s| - 1]) + DigitValue(s[|s| - 1])
  }

  function Decimal(n: nat): string {
    if n < 10 then [DigitChar(n)] else Decimal(n / 10) + [DigitChar(n % 10)]
  }

  function StripZeros(s: string): string {
    if s != "" && s[0] == '0' then StripZeros(s[1..]) else s
  }

  /** `s.lstrip('0') or '0'`. */
  function Canonical(s: string): string {
    if StripZeros(s) == "" then "0" else StripZeros(s)
  }

  lemma ValueAppend(s: string, c: char)
    requires Digits(s) && IsDigit(c)
    ensures Digits(s + [c]) && Value(s + [c]) == 10 * Value(s) + DigitValue(c)
  {
    assert (s + [c])[..|s|] == s;
  }

  /** 1 and `k` zeros. */
  function Place(k: nat): nat {
    if k == 0 then 1 else 10 * Place(k - 1)
  }

  lemma TenTimes(a: int, p: int)
    ensures a * (10 * p) == 10 * (a * p)
  {
  }

  /** The value of a numeral, from its first digit on: '0' is 48, and digits count tens of what
      follows. */
  lemma {:induction false} ValueIsPlaced(s: string)
    requires Digits(s)
    ensures Value(s) == if s == "" then 0 else (s[0] as int - 48) * Place(|s| - 1) + Value(s[1..])
  {
    if |s| <= 1 {
    } else {
      var t, c := s[..|s| - 1], s[|s| - 1];
      ValueIsPlaced(t);
      ValueAppend(t[1..], c);
      assert s[1..] == t[1..] + [c];
      assert Value(s) == 10 * Value(t) + DigitValue(c);
      assert Place(|s| - 1) == 10 * Place(|t| - 1);
      hide Value, Place;
      TenTimes(s[0] as int - 48, Place(|t| - 1));
    }
  }

  lemma {:induction false} NoLeadingZero(n: nat)
    ensures Decimal(n) != "" && (Decimal(n)[0] == '0' ==> n == 0)
  {
    if n < 10 {
    } else {
      NoLeadingZero(n / 10);
    }
  }

  lemma {:induction false} ValueOfDecimal(n: nat)
    ensures Digits(Decimal(n)) && Decimal(n) != "" && Value(Decimal(n)) == n
  {
    if n >= 10 {
      ValueOfDecimal(n / 10);
      ValueAppend(Decimal(n / 10), DigitChar(n % 10));
    } else {
      ValueAppend("", DigitChar(n));
      assert "" + [DigitChar(n)] == Decimal(n);
    }
  }

  lemma {:induction false} StripAppend(s: string, c: char)
    ensures StripZeros(s + [c]) == if StripZeros(s) == "" then StripZeros([c]) else StripZeros(s) + [c]
  {
    if s == "" {
      assert s + [c] == [c];
    } else if s[0] == '0' {
      StripAppend(s[1..], c);
      assert (s + [c])[1..] == s[1..] + [c];
    }
  }

  /** What is stripped is zeros, and all of those in front. */
  lemma {:induction false} StripIs(s: string)
    ensures var k := |s| - |StripZeros(s)|;
            && 0 <= k && s[k..] == StripZeros(s) && (forall i | 0 <= i < k :: s[i] == '0')
            && (k < |s| ==> s[k] != '0')
  {
    if s == "" || s[0] != '0' {
    } else {
      StripIs(s[1..]);
      assert forall i | 0 < i < |s| :: s[i] == s[1..][i - 1];
    }
  }

  lemma {:induction false} StripLeadsNonzero(s: string)
    ensures StripZeros(s) != "" ==> StripZeros(s)[0] != '0'
  {
    if s == "" || s[0] != '0' {
    } else {
      StripLeadsNonzero(s[1..]);
    }
  }

  lemma ZeroIsZero()
    ensures Value("0") == 0 && Decimal(0) == "0"
  {
    ValueAppend("", '0');
    assert "" + ['0'] == "0";
  }

  /** Stripping leading zeros from a numeral gives the decimal form of its value. */
  lemma {:induction false} CanonicalIsDecimal(s: string)
    requires Digits(s) && s != ""
    ensures Canonical(s) == Decimal(Value(s))
  {
    var t := s[..|s| - 1];
    var c := s[|s| - 1];
    assert s == t + [c];
    StripAppend(t, c);
    ValueAppend(t, c);
    if t == "" {
      assert StripZeros([c]) == if c == '0' then StripZeros([c][1..]) else [c];
    } else {
      CanonicalIsDecimal(t);
      StripLeadsNonzero(t);
      ValueOfDecimal(Value(t));
      var v := Value(s);
      assert v / 10 == Value(t) && v % 10 == DigitValue(c);
      hide Value;
      if StripZeros(t) == "" {
        ZeroIsZero();
        assert StripZeros([c]) == if c == '0' then StripZeros([c][1..]) else [c];
      } else {
        assert Decimal(0) == "0";
      }
    }
  }
}
