/** lib/strtol.c and lib/strtoul.c, on 32-bit longs. */
module Strtol {
  import opened MachineWord
  import opened Numerals

  predicate IsSpace(c: char) { c == ' ' || c == '\n' || c == '\r' || c == '\t' || c as int == 11 || c as int == 12 }

  /** Text that ends with a NUL, and perhaps has others before. */
  predicate CString(s: string) { |s| > 0 && s[|s| - 1] == NUL }

  function SpacesEnd(s: string, p: nat): (e: nat)
    requires p <= |s|
    ensures p <= e <= |s| && (e < |s| ==> !IsSpace(s[e]))
    decreases |s| - p
  {
    if p < |s| && IsSpace(s[p]) then SpacesEnd(s, p + 1) else p
  }

  function DigitsEnd(s: string, p: nat, base: nat): (e: nat)
    requires p <= |s|
    ensures p <= e <= |s| && AllDigits(s[p..e], base) && (e < |s| ==> !IsDigitOf(s[e], base))
    decreases |s| - p
  {
    if p < |s| && IsDigitOf(s[p], base) then DigitsEnd(s, p + 1, base) else p
  }

  predicate HexPrefix(s: string, p: nat) {
    p + 1 < |s| && s[p] == '0' && (s[p + 1] == 'x' || s[p + 1] == 'X')
  }

  /** The base in force and where the digits start. */
  function AfterPrefix(s: string, p: nat, base: nat): (r: (nat, nat))
    requires p < |s|
    ensures p <= r.0 <= |s| && r.1 > 0
  {
    if (base == 16 || base == 0) && HexPrefix(s, p) then (p + 2, 16)
    else if base == 0 then (p, if s[p] == '0' then 8 else 10)
    else (p, base)
  }

  /** The subject sequence of a conversion: its sign, its digits and their base. */
  datatype Subject = Subject(neg: bool, start: nat, end: nat, base: nat)

  function SubjectFrom(s: string, p: nat, neg: bool, base: nat): (r: Subject)
    requires p < |s|
    ensures p <= r.start <= r.end <= |s|
  {
    var a := AfterPrefix(s, p, base);
    Subject(neg, a.0, DigitsEnd(s, a.0, a.1), a.1)
  }

  /** strtol skips spaces and a minus sign; it looks at a plus sign but does not
      pass it. */
  function SignedSubject(s: string, base: nat): (r: Subject)
    requires CString(s)
    ensures r.start <= r.end <= |s|
  {
    var p := SpacesEnd(s, 0);
    if p < |s| - 1 && s[p] == '-' then SubjectFrom(s, p + 1, true, base)
    else if p < |s| then SubjectFrom(s, p, false, base)
    else Subject(false, p, p, base)
  }

  function UnsignedSubject(s: string, base: nat): (r: Subject)
    requires CString(s)
    ensures r.start <= r.end <= |s|
  {
    var p := SpacesEnd(s, 0);
    if p < |s| then SubjectFrom(s, p, false, base) else Subject(false, p, p, base)
  }

  /** The number the subject stands for, before it is cut to 32 bits. */
  function Number(s: string, r: Subject): int
    requires r.start <= r.end <= |s|
  {
    var v: int := Value(s[r.start..r.end], r.base);
    if r.neg then -v else v
  }

  // ----- Wrapping arithmetic -----

  lemma SignedCongruent(x: int)
    ensures exists k: int :: Signed(x) == x + k * WORD
  {
    var k := -((x + WORD / 2) / WORD);
    assert Signed(x) == x + k * WORD;
  }

  lemma SignedMultiple(x: int, k: int)
    ensures Signed(x + k * WORD) == Signed(x)
  {
    var y := x + WORD / 2;
    assert (y + k * WORD) % WORD == y % WORD by { ModMultiple(y, k); }
  }

  lemma ModMultiple(y: int, k: int)
    ensures (y + k * WORD) % WORD == y % WORD
  {
    var q, r := y / WORD, y % WORD;
    assert y + k * WORD == (q + k) * WORD + r;
  }

  /** Multiplying and adding on cut words is multiplying and adding, cut. */
  lemma SignedStep(v: int, base: nat, d: nat)
    ensures Signed(Signed(v) * base + d) == Signed(v * base + d)
  {
    SignedCongruent(v);
    var k :| Signed(v) == v + k * WORD;
    assert Signed(v) * base == v * base + k * base * WORD;
    SignedMultiple(v * base + d, k * base);
  }

  lemma SignedNegate(v: int)
    ensures Signed(-Signed(v)) == Signed(-v)
  {
    SignedCongruent(v);
    var k :| Signed(v) == v + k * WORD;
    SignedMultiple(-v, -k);
  }

  lemma UnsignedStep(v: nat, base: nat, d: nat)
    ensures (v % WORD * base + d) % WORD == (v * base + d) % WORD
  {
    var q, r := v / WORD, v % WORD;
    assert v == q * WORD + r;
    assert v * base == q * base * WORD + r * base;
    ModMultiple(r * base + d, q * base);
  }

  // ----- The loops -----

  /** while (isspace(*p)) p++ */
  method SkipSpaces(s: string) returns (p: nat)
    requires CString(s)
    ensures p == SpacesEnd(s, 0) < |s|
  {
    p := 0;
    while IsSpace(s[p])
      invariant p < |s| && SpacesEnd(s, 0) == SpacesEnd(s, p)
      decreases |s| - p
    {
      p := p + 1;
    }
  }

  /** The three ways a character is a digit of the base. */
  function CharDigit(c: char, base: nat): (d: int)
    ensures d == if IsDigitOf(c, base) then DigitValue(c) else -1
  {
    if '0' <= c <= '9' && c as int - '0' as int < base then c as int - '0' as int
    else if 'a' <= c <= 'z' && c as int - 'a' as int + 10 < base then c as int - 'a' as int + 10
    else if 'A' <= c <= 'Z' && c as int - 'A' as int + 10 < base then c as int - 'A' as int + 10
    else -1
  }

  lemma NextDigit(s: string, start: nat, p: nat, base: nat)
    requires start <= p < |s| && IsDigitOf(s[p], base)
    ensures Value(s[start..p + 1], base) == Value(s[start..p], base) * base + DigitValue(s[p])
    ensures DigitsEnd(s, p, base) == DigitsEnd(s, p + 1, base)
  {
    ValueSnoc(s[start..p], s[p], base);
    assert s[start..p + 1] == s[start..p] + [s[p]];
  }

  /** The base prefix, if there is one, and the base to use. */
  method TakePrefix(s: string, from: nat, base0: nat) returns (p: nat, base: nat)
    requires CString(s) && from < |s|
    ensures (p, base) == AfterPrefix(s, from, base0) && p < |s|
  {
    p, base := from, base0;
    if (base == 16 || base == 0) && s[p] == '0' && (s[p + 1] == 'x' || s[p + 1] == 'X') {
      p := p + 2;
      base := 16;
    }
    if base == 0 {
      if s[p] == '0' { base := 8; } else { base := 10; }
    }
  }

  method ReadSigned(s: string, start: nat, base: nat) returns (v: int, p: nat)
    requires CString(s) && start < |s|
    ensures start <= p == DigitsEnd(s, start, base) < |s| && v == Signed(Value(s[start..p], base))
  {
    hide DigitValue, Signed, IsDigitOf, Value;
    p, v := start, 0;
    Nothing(s, start, base);
    while true
      invariant start <= p < |s| && DigitsEnd(s, start, base) == DigitsEnd(s, p, base)
      invariant v == Signed(Value(s[start..p], base))
      decreases |s| - p
    {
      var d := CharDigit(s[p], base);
      NulIsNoDigit(base);
      if d < 0 { break; }
      NextDigit(s, start, p, base);
      SignedStep(Value(s[start..p], base), base, d);
      v := Signed(v * base + d);
      p := p + 1;
    }
  }

  method ReadUnsigned(s: string, start: nat, base: nat) returns (v: nat, p: nat)
    requires CString(s) && start < |s|
    ensures start <= p == DigitsEnd(s, start, base) < |s| && v == Value(s[start..p], base) % WORD
  {
    hide DigitValue, IsDigitOf, Value;
    p, v := start, 0;
    Nothing(s, start, base);
    while true
      invariant start <= p < |s| && DigitsEnd(s, start, base) == DigitsEnd(s, p, base)
      invariant v == Value(s[start..p], base) % WORD
      decreases |s| - p
    {
      var d := CharDigit(s[p], base);
      NulIsNoDigit(base);
      if d < 0 { break; }
      NextDigit(s, start, p, base);
      UnsignedStep(Value(s[start..p], base), base, d);
      v := (v * base + d) % WORD;
      p := p + 1;
    }
  }

  lemma Nothing(s: string, start: nat, base: nat)
    requires start <= |s|
    ensures Value(s[start..start], base) == 0 && Signed(0) == 0
  {
  }

  lemma NulIsNoDigit(base: nat)
    ensures !IsDigitOf(NUL, base)
  {
  }

  /** strtol(p, &end, base) */
  method Strtol(s: string, base0: nat) returns (v: int, end: nat)
    requires CString(s)
    ensures end == SignedSubject(s, base0).end && v == Signed(Number(s, SignedSubject(s, base0)))
  {
    hide DigitValue, Signed, IsDigitOf, Value, DigitsEnd, SpacesEnd, AfterPrefix;
    var isNeg := false;
    var p := SkipSpaces(s);
    if s[p] == '-' {
      isNeg, p := true, p + 1;
    } else if s[p] == '+' {
      isNeg := false;
    }
    var base;
    p, base := TakePrefix(s, p, base0);
    ghost var start := p;
    v, p := ReadSigned(s, p, base);
    if isNeg {
      SignedNegate(Value(s[start..p], base));
      v := Signed(-v);
    }
    end := p;
  }

  /** strtoul(p, &end, base) */
  method Strtoul(s: string, base0: nat) returns (v: nat, end: nat)
    requires CString(s)
    ensures end == UnsignedSubject(s, base0).end && v == Number(s, UnsignedSubject(s, base0)) % WORD
  {
    hide DigitValue, IsDigitOf, Value, DigitsEnd, SpacesEnd, AfterPrefix;
    var p := SkipSpaces(s);
    var base;
    p, base := TakePrefix(s, p, base0);
    v, end := ReadUnsigned(s, p, base);
  }
}
