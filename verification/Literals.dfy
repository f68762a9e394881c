/** Which texts strtol and strtoul take for which numbers: leading space, a minus sign,
    the prefixes that stand for a base, and digits of either case. */
module Literals {
  import opened Numerals
  import opened Strtol
  import opened PrintNumber

  /** The digits of bases up to 36. */
  function Lower(d: nat): char
    requires d < 36
  {
    (if d < 10 then '0' as int + d else 'a' as int + d - 10) as char
  }

  function Upper(d: nat): char
    requires d < 36
  {
    (if d < 10 then '0' as int + d else 'A' as int + d - 10) as char
  }

  /** A digit in either case, and nothing else, has its value. */
  lemma EitherCase(c: char, d: nat)
    requires d < 36
    ensures DigitValue(c) == d <==> c == Lower(d) || c == Upper(d)
  {
  }

  /** The same numeral, each letter in either case. */
  predicate SameLetters(a: string, b: string) {
    |a| == |b| && forall i {:trigger a[i]} :: 0 <= i < |a| ==>
      a[i] == b[i] || exists d {:trigger Lower(d)} :: 0 <= d < 36 && {a[i], b[i]} == {Lower(d), Upper(d)}
  }

  lemma SameDigit(a: char, b: char)
    requires a == b || exists d {:trigger Lower(d)} :: 0 <= d < 36 && {a, b} == {Lower(d), Upper(d)}
    ensures DigitValue(a) == DigitValue(b)
  {
    if a != b {
      var d :| 0 <= d < 36 && {a, b} == {Lower(d), Upper(d)};
      assert a in {Lower(d), Upper(d)} && b in {Lower(d), Upper(d)};
      EitherCase(a, d);
      EitherCase(b, d);
    }
  }

  /** The case of its letters does not change what a numeral is worth. */
  lemma {:induction false} CaseBlind(a: string, b: string, base: nat)
    requires SameLetters(a, b)
    ensures Value(a, base) == Value(b, base) && (AllDigits(a, base) <==> AllDigits(b, base))
    decreases |a|
  {
    hide DigitValue;
    forall i | 0 <= i < |a| ensures DigitValue(a[i]) == DigitValue(b[i]) { SameDigit(a[i], b[i]); }
    if a != "" {
      var n := |a| - 1;
      assert forall i {:trigger a[..n][i]} :: 0 <= i < n ==> a[..n][i] == a[i] && b[..n][i] == b[i];
      CaseBlind(a[..n], b[..n], base);
    }
  }

  predicate Blanks(s: string) { forall i {:trigger s[i]} :: 0 <= i < |s| ==> s[i] == ' ' || 9 <= s[i] as int <= 13 }

  /** How digits tell their base: "0x" or "0X" for 16 where it is allowed; with no base
      given a leading zero for 8 and any other digit for 10. */
  predicate Denotes(prefix: string, ds: string, asked: nat, base: nat)
    requires |ds| > 0
  {
    || (prefix in {"0x", "0X"} && base == 16 && asked in {0, 16})
    || (prefix == "" && base == asked && asked != 0)
    || (prefix == "" && asked == 0 && base == 8 && ds[0] == '0')
    || (prefix == "" && asked == 0 && base == 10 && ds[0] != '0')
  }

  /** Digits of the base up to a character that is none; a single zero must not run
      into an 'x'. */
  predicate Delimited(ds: string, rest: string, base: nat) {
    && |ds| > 0 && AllDigits(ds, base) && CString(rest) && !IsDigitOf(rest[0], base)
    && (ds == "0" ==> rest[0] != 'x' && rest[0] != 'X')
  }

  /** A numeral behind its prefix. */
  lemma NumeralTaken(t: string, p: nat, prefix: string, ds: string, asked: nat, base: nat, neg: bool)
    requires p + |prefix + ds| < |t| && t[p..] == prefix + ds + t[p + |prefix + ds|..] && base <= 36
    requires |ds| > 0 && Denotes(prefix, ds, asked, base) && Delimited(ds, t[p + |prefix + ds|..], base)
    ensures SubjectFrom(t, p, neg, asked) == Subject(neg, p + |prefix|, p + |prefix + ds|, base)
    ensures t[p + |prefix|..p + |prefix + ds|] == ds
  {
    var b, e := p + |prefix|, p + |prefix + ds|;
    Parts(t, p, prefix, ds);
    hide DigitValue;
    forall i | b <= i < e ensures IsDigitOf(t[i], base) { assert t[i] == t[b..e][i - b] == ds[i - b]; }
    assert t[b] == t[b..e][0] == ds[0] && t[e] == t[e..][0];
    PrefixSeen(t, p, prefix, ds, asked, base);
    DigitsRun(t, b, e, base);
  }

  lemma Parts(t: string, p: nat, a: string, b: string)
    requires p + |a + b| < |t| && t[p..] == a + b + t[p + |a + b|..]
    ensures t[p..p + |a|] == a && t[p + |a|..p + |a + b|] == b
  {
    var s := t[p..];
    assert t[p..p + |a|] == s[..|a|] == a;
    assert t[p + |a|..p + |a + b|] == s[|a|..|a + b|] == b;
  }

  lemma PrefixSeen(t: string, p: nat, prefix: string, ds: string, asked: nat, base: nat)
    requires p + |prefix + ds| < |t| && |ds| > 0 && base <= 36
    requires t[p..p + |prefix|] == prefix && t[p + |prefix|..p + |prefix + ds|] == ds
    requires Denotes(prefix, ds, asked, base) && Delimited(ds, t[p + |prefix + ds|..], base)
    ensures AfterPrefix(t, p, asked) == (p + |prefix|, base)
  {
    var b, e := p + |prefix|, p + |prefix + ds|;
    assert t[b] == t[b..e][0] == ds[0] && t[e] == t[e..][0];
    if prefix == "" {
      if |ds| > 1 {
        assert t[p + 1] == t[b..e][1] == ds[1];
        assert base <= 16 ==> IsDigitOf(ds[1], base) && ds[1] != 'x' && ds[1] != 'X';
      } else {
        assert ds == [ds[0]];
      }
    } else {
      assert t[p] == t[p..b][0] == '0' && t[p + 1] == t[p..b][1] == prefix[1];
    }
  }

  /** strtol takes blanks, a minus sign, a prefix and digits for the number they mean
      and stops right behind them; strtoul takes the same without a sign. */
  lemma LiteralRead(blanks: string, neg: bool, prefix: string, ds: string, rest: string, asked: nat, base: nat)
    requires Blanks(blanks) && 2 <= base <= 36
    requires |ds| > 0 && Denotes(prefix, ds, asked, base) && Delimited(ds, rest, base)
    ensures var n := blanks + (if neg then "-" else "") + (prefix + ds);
      && CString(n + rest)
      && var r := SignedSubject(n + rest, asked);
         && r.end == |n| && Number(n + rest, r) == (if neg then -(Value(ds, base) as int) else Value(ds, base))
         && (!neg ==> UnsignedSubject(n + rest, asked) == r)
  {
    var sign, num := if neg then "-" else "", prefix + ds;
    var t := blanks + sign + num + rest;
    assert CString(t);
    assert AllDigits(ds, base);
    hide Denotes, Delimited, Blanks, AllDigits, CString, SignedSubject, UnsignedSubject, Number, Value;
    Spread(blanks, sign, num, rest);
    SpacesPassed(t, blanks, neg, prefix, ds, asked, base);
    LiteralAt(t, |blanks|, neg, prefix, ds, asked, base);
  }

  lemma SpacesPassed(t: string, blanks: string, neg: bool, prefix: string, ds: string, asked: nat, base: nat)
    requires |ds| > 0 && Denotes(prefix, ds, asked, base) && AllDigits(ds, base)
    requires var p, q := |blanks|, if neg then |blanks| + 1 else |blanks|;
      q < |t| && t[..p] == blanks && Blanks(blanks) && t[q] == (prefix + ds)[0] && (neg ==> t[p] == '-')
    ensures var p, q := |blanks|, if neg then |blanks| + 1 else |blanks|;
      SpacesEnd(t, 0) == p && t[q] != '-'
  {
    FirstOfNumeral(prefix, ds, asked, base);
    BlanksAreSpaces(blanks);
    forall i | 0 <= i < |blanks| ensures IsSpace(t[i]) { assert t[i] == t[..|blanks|][i] == blanks[i]; }
    SpacesRun(t, 0, |blanks|);
  }

  lemma LiteralAt(t: string, p: nat, neg: bool, prefix: string, ds: string, asked: nat, base: nat)
    requires CString(t) && |ds| > 0 && base <= 36 && Denotes(prefix, ds, asked, base) && SpacesEnd(t, 0) == p
    requires var q := if neg then p + 1 else p; var e := q + |prefix + ds|;
      && e < |t| && t[q..] == prefix + ds + t[e..] && Delimited(ds, t[e..], base)
      && t[q] != '-' && (neg ==> t[p] == '-')
    ensures var e := (if neg then p + 1 else p) + |prefix + ds|;
      && var r := SignedSubject(t, asked);
         && r.end == e && Number(t, r) == (if neg then -(Value(ds, base) as int) else Value(ds, base))
         && (!neg ==> UnsignedSubject(t, asked) == r)
  {
    hide Denotes, Delimited, IsSpace, Value, SubjectFrom, SpacesEnd;
    NumeralTaken(t, if neg then p + 1 else p, prefix, ds, asked, base, neg);
  }

  lemma BlanksAreSpaces(s: string)
    requires Blanks(s)
    ensures forall i {:trigger s[i]} :: 0 <= i < |s| ==> IsSpace(s[i])
  {
  }

  lemma Spread(a: string, b: string, c: string, d: string)
    requires |c| > 0 && |d| > 0
    ensures var t, q := a + b + c + d, |a + b|;
      && t[..|a|] == a && t[q..] == c + d && t[q + |c|..] == d && t[q] == c[0] && (b != "" ==> t[|a|] == b[0])
  {
  }

  lemma FirstOfNumeral(prefix: string, ds: string, asked: nat, base: nat)
    requires |ds| > 0 && Denotes(prefix, ds, asked, base) && AllDigits(ds, base)
    ensures !IsSpace((prefix + ds)[0]) && (prefix + ds)[0] != '-'
  {
    assert prefix == "" ==> (prefix + ds)[0] == ds[0] && IsDigitOf(ds[0], base);
  }

  /** What '#' prints of a number in base 8, 10 or 16 tells its base: strtol reads it
      back with no base given. */
  lemma TellsItsBase(blanks: string, neg: bool, sp: Spec, u: nat, base: nat, rest: string)
    requires Blanks(blanks) && base in {8, 10, 16} && sp.alt && CString(rest) && Stops(rest[0])
    ensures var n := blanks + (if neg then "-" else "") + (PrefixOf(sp, u, base) + Digits(u, base));
      && CString(n + rest)
      && var r := SignedSubject(n + rest, 0);
         r.end == |n| && Number(n + rest, r) == if neg then -(u as int) else u
  {
    hide Value, Digits, AllDigits, SignedSubject, DigitValue;
    var ds, front := Digits(u, base), blanks + if neg then "-" else "";
    NoLeadingZero(u, base);
    DigitsValue(u, base);
    var prefix := PrefixOf(sp, u, base);
    StopsEveryBase(rest[0], base);
    StopsEveryBase(rest[0], 8);
    if u == 0 {
      ZeroIs(base);
      PaddedValue(0, 0, 8);
      assert Repeat('0', 0) + Digits(0, 8) == "0" by { ZeroIs(8); }
      LiteralRead(blanks, neg, "", "0", rest, 0, 8);
      assert front + ("" + "0") == front + (prefix + ds);
    } else if base == 8 {
      PaddedValue(1, u, 8);
      assert Repeat('0', 1) + ds == "0" + ds;
      LiteralRead(blanks, neg, "", "0" + ds, rest, 0, 8);
      assert front + ("" + ("0" + ds)) == front + (prefix + ds);
    } else {
      LiteralRead(blanks, neg, prefix, ds, rest, 0, base);
    }
  }

  lemma StopsEveryBase(c: char, base: nat)
    requires Stops(c)
    ensures !IsDigitOf(c, base) && c != 'x' && c != 'X'
  {
  }

  lemma ZeroIs(base: nat)
    requires 2 <= base <= 16
    ensures Digits(0, base) == "0"
  {
  }
}
