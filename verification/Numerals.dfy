/** Digits and their values, as printed by lib/doprnt.c and read by
    lib/strtol.c and lib/strtoul.c. */
module Numerals {

  const DIGITS := "0123456789abcdef"
  const NUL := 0 as char

  function DigitChar(d: nat): char
    requires d < 16
  {
    DIGITS[d]
  }

  /** The value of a character as a digit, 36 for what is no digit or letter. */
  function DigitValue(c: char): (d: nat)
    ensures d <= 36
  {
    if '0' <= c <= '9' then c as int - '0' as int
    else if 'a' <= c <= 'z' then c as int - 'a' as int + 10
    else if 'A' <= c <= 'Z' then c as int - 'A' as int + 10
    else 36
  }

  predicate IsDigitOf(c: char, base: nat) { DigitValue(c) < base && DigitValue(c) < 36 }

  function Repeat(c: char, n: int): (s: string)
    ensures |s| == if n > 0 then n else 0
    ensures forall i {:trigger s[i]} :: 0 <= i < |s| ==> s[i] == c
  {
    if n <= 0 then "" else Repeat(c, n - 1) + [c]
  }

  /** The shortest numeral for u, most significant digit first. */
  function Digits(u: nat, base: nat): (s: string)
    requires 2 <= base <= 16
    ensures |s| > 0
    decreases u
  {
    if u < base then [DigitChar(u)] else Digits(u / base, base) + [DigitChar(u % base)]
  }

  function Value(s: string, base: nat): nat {
    if s == "" then 0 else Value(s[..|s| - 1], base) * base + DigitValue(s[|s| - 1])
  }

  predicate AllDigits(s: string, base: nat) { forall i {:trigger s[i]} :: 0 <= i < |s| ==> IsDigitOf(s[i], base) }

  lemma DigitRead(d: nat)
    requires d < 16
    ensures DigitValue(DigitChar(d)) == d
  {
  }

  lemma ValueSnoc(s: string, c: char, base: nat)
    ensures Value(s + [c], base) == Value(s, base) * base + DigitValue(c)
  {
    assert (s + [c])[..|s + [c]| - 1] == s;
  }

  lemma SnocDigit(s: string, q: nat, r: nat, base: nat)
    requires Value(s, base) == q && AllDigits(s, base) && r < base <= 16
    ensures Value(s + [DigitChar(r)], base) == q * base + r && AllDigits(s + [DigitChar(r)], base)
  {
    hide DigitValue, DigitChar, Value;
    DigitRead(r);
    ValueSnoc(s, DigitChar(r), base);
  }

  lemma Remainder(u: nat, base: nat)
    requires base > 0
    ensures u / base * base + u % base == u && u % base < base
  {
  }

  /** Printing a number and evaluating the digits gives the number back. */
  lemma {:induction false} DigitsValue(u: nat, base: nat)
    requires 2 <= base <= 16
    ensures Value(Digits(u, base), base) == u && AllDigits(Digits(u, base), base)
    decreases u
  {
    hide DigitValue, DigitChar, AllDigits;
    if u < base {
      NothingRead(base);
      SnocDigit("", 0, u, base);
      assert "" + [DigitChar(u)] == [DigitChar(u)];
    } else {
      Remainder(u, base);
      DigitsValue(u / base, base);
      SnocDigit(Digits(u / base, base), u / base, u % base, base);
    }
  }

  lemma NothingRead(base: nat)
    ensures Value("", base) == 0 && AllDigits("", base)
  {
  }

  /** No leading zero, so no shorter numeral: 0 is "0" and nothing else starts with '0'. */
  lemma {:induction false} NoLeadingZero(u: nat, base: nat)
    requires 2 <= base <= 16
    ensures Digits(u, base)[0] == '0' <==> u == 0
    decreases u
  {
    if u < base {
    } else {
      NoLeadingZero(u / base, base);
      QuotientPositive(u, base);
    }
  }

  lemma QuotientPositive(u: nat, base: nat)
    requires 0 < base <= u
    ensures u / base > 0
  {
  }

  lemma {:induction false} ValueAppend(a: string, b: string, base: nat)
    requires Value(a, base) == 0
    ensures Value(a + b, base) == Value(b, base)
  {
    if b == "" {
      assert a + b == a;
    } else {
      ValueAppend(a, b[..|b| - 1], base);
      assert (a + b)[..|a + b| - 1] == a + b[..|b| - 1];
    }
  }

  lemma {:induction false} ZerosAreZero(n: int, base: nat)
    ensures Value(Repeat('0', n), base) == 0
  {
    if n > 0 {
      ZerosAreZero(n - 1, base);
      var s := Repeat('0', n);
      assert s[..|s| - 1] == Repeat('0', n - 1);
    }
  }

  /** Padding with zeros does not change the value. */
  lemma PaddedValue(zeros: int, u: nat, base: nat)
    requires 2 <= base <= 16
    ensures var s := Repeat('0', zeros) + Digits(u, base); Value(s, base) == u && AllDigits(s, base)
  {
    ZerosAreZero(zeros, base);
    ValueAppend(Repeat('0', zeros), Digits(u, base), base);
    DigitsValue(u, base);
  }
}
