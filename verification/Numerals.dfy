/** Positional numerals as `bc` and `expr` read and print them: digits 0-9 and A-F, no leading zeros. */
module Numerals {

  /** 16 for a character that is no digit. */
  function DigitValue(c: char): (d: nat)
    ensures d <= 16
  {
    if '0' <= c <= '9' then (c as int) - 48
    else if 'A' <= c <= 'F' then (c as int) - 55
    else 16
  }

  function DigitChar(d: nat): (c: char)
    requires d < 16
    ensures DigitValue(c) == d
  {
    if d < 10 then (d + 48) as char else (d + 55) as char
  }

  predicate AreDigits(s: string, base: nat) {
    forall k :: 0 <= k < |s| ==> DigitValue(s[k]) < base
  }

  function Value(s: string, base: nat): nat {
    if s == "" then 0 else Value(s[..|s| - 1], base) * base + DigitValue(s[|s| - 1])
  }

  function Numeral(n: nat, base: nat): (s: string)
    requires 2 <= base <= 16
    ensures s != "" && AreDigits(s, base)
  {
    if n < base then [DigitChar(n)] else
      DivModIdentity(n, base);
      Numeral(n / base, base) + [DigitChar(n % base)]
  }

  function Pow(b: nat, e: nat): nat {
    if e == 0 then 1 else b * Pow(b, e - 1)
  }

  function StripZeros(s: string): string {
    if |s| > 1 && s[0] == '0' then StripZeros(s[1..]) else s
  }

  predicate AllZeros(s: string) {
    forall k :: 0 <= k < |s| ==> s[k] == '0'
  }

  lemma DigitCharOfValue(c: char)
    requires DigitValue(c) < 16
    ensures DigitChar(DigitValue(c)) == c
  {
  }

  /** The digits in order. */
  lemma DigitCharIs(d: nat)
    requires d < 16
    ensures DigitChar(d) == "0123456789ABCDEF"[d]
  {
  }

  lemma DivModUnique(q: nat, base: nat, r: nat)
    requires r < base
    ensures (q * base + r) / base == q && (q * base + r) % base == r
  {
    var n := q * base + r;
    var k := q - n / base;
    assert k * base == q * base - (n / base) * base == n % base - r;
    assert -1 < k < 1;
  }

  lemma {:induction false} ValueNumeral(n: nat, base: nat)
    requires 2 <= base <= 16
    ensures Value(Numeral(n, base), base) == n
  {
    if n < base {
      assert [DigitChar(n)][..0] == "";
    } else {
      DivModIdentity(n, base);
      ValueNumeral(n / base, base);
      ValueSnoc(Numeral(n / base, base), DigitChar(n % base), base);
    }
  }

  lemma DivModIdentity(n: nat, base: nat)
    requires base > 0
    ensures n == (n / base) * base + n % base
    ensures n >= base >= 2 ==> n / base < n
  {
  }

  lemma ValueSnoc(s: string, c: char, base: nat)
    ensures Value(s + [c], base) == Value(s, base) * base + DigitValue(c)
  {
    assert (s + [c])[..|s|] == s;
  }

  lemma {:induction false} ValueAppend(a: string, b: string, base: nat)
    ensures Value(a + b, base) == Value(a, base) * Pow(base, |b|) + Value(b, base)
  {
    if b == "" {
      assert a + b == a;
    } else {
      var b' := b[..|b| - 1];
      assert (a + b)[..|a + b| - 1] == a + b';
      ValueAppend(a, b', base);
      var d := DigitValue(b[|b| - 1]);
      calc {
        Value(a + b, base);
        (Value(a, base) * Pow(base, |b'|) + Value(b', base)) * base + d;
        { Distribute(Value(a, base), Pow(base, |b'|), Value(b', base), base); }
        Value(a, base) * (base * Pow(base, |b'|)) + Value(b', base) * base + d;
      }
    }
  }

  lemma Distribute(x: nat, p: nat, y: nat, base: nat)
    ensures (x * p + y) * base == x * (base * p) + y * base
  {
    assert x * p * base == x * (base * p);
  }

  lemma {:induction false} ValueBound(s: string, base: nat)
    requires AreDigits(s, base)
    ensures Value(s, base) < Pow(base, |s|)
  {
    if s == "" {
    } else {
      var s' := s[..|s| - 1];
      ValueBound(s', base);
      OneMoreDigit(Value(s', base), Pow(base, |s'|), base, DigitValue(s[|s| - 1]));
    }
  }

  lemma OneMoreDigit(v: nat, p: nat, base: nat, d: nat)
    requires v < p && d < base
    ensures v * base + d < base * p
  {
    var gap := p - v - 1;
    assert base * p == v * base + base + gap * base;
  }

  lemma {:induction false} ValueZero(s: string, base: nat)
    requires AreDigits(s, base) && base >= 2
    ensures Value(s, base) == 0 <==> AllZeros(s)
  {
    if s == "" {
    } else {
      var s' := s[..|s| - 1];
      ValueZero(s', base);
      var v := Value(s', base);
      assert s == s' + [s[|s| - 1]];
      if v > 0 {
        AtLeastOnce(v, base);
      } else {
        assert v * base == 0;
      }
    }
  }

  lemma {:induction false} StripZerosSnoc(s: string, c: char)
    requires s != ""
    ensures StripZeros(s + [c]) == if AllZeros(s) then [c] else StripZeros(s) + [c]
  {
    assert (s + [c])[1..] == s[1..] + [c];
    if s[0] != '0' || |s| == 1 {
    } else {
      StripZerosSnoc(s[1..], c);
      assert AllZeros(s) <==> AllZeros(s[1..]);
    }
  }

  /** Reading digits and printing the number drops the leading zeros and nothing else. */
  lemma {:induction false} NumeralValue(s: string, base: nat)
    requires 2 <= base <= 16 && s != "" && AreDigits(s, base)
    ensures Numeral(Value(s, base), base) == StripZeros(s)
  {
    var s', c := s[..|s| - 1], s[|s| - 1];
    assert s == s' + [c];
    if s' == "" {
      assert Value(s, base) == DigitValue(c);
      DigitCharOfValue(c);
    } else {
      NumeralValue(s', base);
      NumeralValueSnoc(s', c, base);
    }
  }

  lemma NumeralValueSnoc(s: string, c: char, base: nat)
    requires 2 <= base <= 16 && s != "" && AreDigits(s, base) && DigitValue(c) < base
    requires Numeral(Value(s, base), base) == StripZeros(s)
    ensures Numeral(Value(s + [c], base), base) == StripZeros(s + [c])
  {
    ValueSnoc(s, c, base);
    ValueZero(s, base);
    StripZerosSnoc(s, c);
    NumeralSnoc(Value(s, base), c, base, Value(s + [c], base));
  }

  lemma NumeralSnoc(v: nat, c: char, base: nat, n: nat)
    requires 2 <= base <= 16 && DigitValue(c) < base && n == v * base + DigitValue(c)
    ensures Numeral(n, base) == if v == 0 then [c] else Numeral(v, base) + [c]
  {
    DigitCharOfValue(c);
    var d := DigitValue(c);
    if v == 0 {
      assert n == d;
    } else {
      AtLeastOnce(v, base);
      assert n / base == v && n % base == d by {
        DivModUnique(v, base, d);
      }
    }
  }

  lemma AtLeastOnce(v: nat, base: nat)
    requires v > 0
    ensures v * base >= base
  {
  }

  /** Only zeros are stripped, and all that can be. */
  lemma {:induction false} StripZerosSplits(s: string)
    requires s != ""
    ensures var t := StripZeros(s);
      && 1 <= |t| <= |s| && s[|s| - |t|..] == t && AllZeros(s[..|s| - |t|])
      && (|t| > 1 ==> t[0] != '0')
  {
    if |s| == 1 || s[0] != '0' {
    } else {
      StripZerosSplits(s[1..]);
      var t := StripZeros(s[1..]);
      assert s[..|s| - |t|] == [s[0]] + s[1..][..|s| - 1 - |t|];
    }
  }

  lemma {:induction false} PowOfSixteen(n: nat)
    ensures Pow(16, n) == Pow(2, 4 * n)
  {
    if n == 0 {
    } else {
      PowOfSixteen(n - 1);
      var m := 4 * (n - 1);
      assert Pow(2, m + 4) == 2 * Pow(2, m + 3);
      assert Pow(2, m + 3) == 2 * Pow(2, m + 2);
      assert Pow(2, m + 2) == 2 * Pow(2, m + 1);
    }
  }
}
