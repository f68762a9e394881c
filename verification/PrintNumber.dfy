/** print_num of lib/doprnt.c, and why strtol and strtoul undo it. */
module PrintNumber {
  import opened MachineWord
  import opened Numerals
  import opened Strtol

  const MAXBUF := 32

  /** A directive's flags, width and precision; `plus` is NUL, ' ' or '+', and a
      precision of -1 means none was given. */
  datatype Spec = Spec(ladjust: bool, zero: bool, plus: char, alt: bool, width: int, prec: int)

  function Max(a: int, b: int): int { if a < b then b else a }

  function SignOf(c: char): string { if c == NUL then "" else [c] }

  function PrefixOf(sp: Spec, u: nat, base: nat): string {
    if u == 0 || !sp.alt then "" else if base == 8 then "0" else if base == 16 then "0x" else ""
  }

  /** The zeros the precision asks for. */
  function Zeros(sp: Spec, u: nat, base: nat): int
    requires 2 <= base <= 16
  {
    Max(sp.prec - |Digits(u, base)|, 0)
  }

  /** What is left of the width. */
  function Padding(sp: Spec, sign: char, u: nat, base: nat): int
    requires 2 <= base <= 16
  {
    Max(sp.width - |Digits(u, base)| - |SignOf(sign)| - |PrefixOf(sp, u, base)| - Zeros(sp, u, base), 0)
  }

  /** The field: blanks go before sign and prefix or, left-adjusted, at the end;
      a '0' flag turns them into zeros after sign and prefix, '-' or not. */
  function Field(sp: Spec, sign: char, u: nat, base: nat): string
    requires 2 <= base <= 16
  {
    var pad := Padding(sp, sign, u, base);
    Repeat(' ', if sp.zero || sp.ladjust then 0 else pad)
    + SignOf(sign) + PrefixOf(sp, u, base)
    + Repeat('0', Zeros(sp, u, base) + if sp.zero then pad else 0)
    + Digits(u, base)
    + Repeat(' ', Trailing(sp, sign, u, base))
  }

  function Trailing(sp: Spec, sign: char, u: nat, base: nat): int
    requires 2 <= base <= 16
  {
    if !sp.zero && sp.ladjust then Padding(sp, sign, u, base) else 0
  }

  /** A field is as wide as asked, or as wide as its parts. */
  lemma FieldLength(sp: Spec, sign: char, u: nat, base: nat)
    requires 2 <= base <= 16
    ensures |Field(sp, sign, u, base)| ==
      Max(sp.width, |SignOf(sign)| + |PrefixOf(sp, u, base)| + Max(sp.prec, |Digits(u, base)|))
  {
    hide Digits, PrefixOf;
  }

  // ----- Reading a numeral back -----

  /** Neither digit nor letter. */
  predicate Stops(c: char) { DigitValue(c) == 36 }

  lemma {:induction false} SpacesRun(t: string, p: nat, e: nat)
    requires p <= e < |t| && !IsSpace(t[e]) && forall i {:trigger t[i]} :: p <= i < e ==> IsSpace(t[i])
    ensures SpacesEnd(t, p) == e
    decreases e - p
  {
    if p < e { SpacesRun(t, p + 1, e); }
  }

  lemma {:induction false} DigitsRun(t: string, p: nat, e: nat, base: nat)
    requires p <= e < |t| && !IsDigitOf(t[e], base) && forall i {:trigger t[i]} :: p <= i < e ==> IsDigitOf(t[i], base)
    ensures DigitsEnd(t, p, base) == e
    decreases e - p
  {
    if p < e { DigitsRun(t, p + 1, e, base); }
  }

  /** Digits without a prefix are read as they stand. */
  lemma ReadsDigits(t: string, p: nat, core: string, base: nat, neg: bool)
    requires 2 <= base <= 16 && |core| > 0 && AllDigits(core, base)
    requires p + |core| < |t| && t[p..p + |core|] == core && Stops(t[p + |core|])
    ensures SubjectFrom(t, p, neg, base) == Subject(neg, p, p + |core|, base)
  {
    forall i | p <= i < p + |core| ensures IsDigitOf(t[i], base) { assert t[i] == core[i - p]; }
    assert !HexPrefix(t, p) by {
      if |core| > 1 { assert IsDigitOf(t[p + 1], base); } else { assert Stops(t[p + 1]); }
    }
    DigitsRun(t, p, p + |core|, base);
  }

  /** In base 16 the prefix "0x" is passed over. */
  lemma ReadsHexPrefix(t: string, p: nat, core: string, neg: bool)
    requires |core| > 0 && AllDigits(core, 16)
    requires p + 2 + |core| < |t| && t[p..p + 2 + |core|] == "0x" + core && Stops(t[p + 2 + |core|])
    ensures SubjectFrom(t, p, neg, 16) == Subject(neg, p + 2, p + 2 + |core|, 16)
  {
    var e := p + 2 + |core|;
    assert t[p] == t[p..e][0] == '0' && t[p + 1] == t[p..e][1] == 'x';
    forall i | p + 2 <= i < e ensures IsDigitOf(t[i], 16) { assert t[i] == t[p..e][i - p] == core[i - p - 2]; }
    DigitsRun(t, p + 2, e, 16);
  }

  /** The digits of a field after its sign: prefix, zeros, numeral. */
  function Body(sp: Spec, zeros: int, u: nat, base: nat): string
    requires 2 <= base <= 16
  {
    PrefixOf(sp, u, base) + Repeat('0', zeros) + Digits(u, base)
  }

  /** Whatever prefix and zeros were printed, the digits read are worth u. */
  lemma ReadsBody(t: string, p: nat, sp: Spec, zeros: int, u: nat, base: nat, neg: bool)
    requires 2 <= base <= 16
    requires var e := p + |Body(sp, zeros, u, base)|; e < |t| && t[p..e] == Body(sp, zeros, u, base) && Stops(t[e])
    ensures var r := SubjectFrom(t, p, neg, base);
      r.neg == neg && r.end == p + |Body(sp, zeros, u, base)| && r.base == base && Value(t[r.start..r.end], base) == u
  {
    hide Digits, DigitValue, Value, SubjectFrom;
    var body, core := Body(sp, zeros, u, base), Repeat('0', zeros) + Digits(u, base);
    var e := p + |body|;
    PaddedValue(zeros, u, base);
    if PrefixOf(sp, u, base) == "0x" {
      assert body == "0x" + core;
      ReadsHexPrefix(t, p, core, neg);
      assert t[p + 2..e] == body[2..] == core;
    } else if PrefixOf(sp, u, base) == "0" {
      PaddedValue(Max(zeros, 0) + 1, u, base);
      ZeroFirst(zeros);
      assert body == Repeat('0', Max(zeros, 0) + 1) + Digits(u, base);
      ReadsDigits(t, p, body, base, neg);
    } else {
      assert body == core;
      ReadsDigits(t, p, core, base, neg);
    }
  }

  lemma ZeroFirst(n: int)
    ensures "0" + Repeat('0', n) == Repeat('0', Max(n, 0) + 1)
  {
    var a, b := "0" + Repeat('0', n), Repeat('0', Max(n, 0) + 1);
    assert |a| == |b| && forall i :: 0 <= i < |a| ==> a[i] == '0' == b[i];
  }

  /** Where the parts of a field lie in a text that starts with it. */
  lemma FieldParts(sp: Spec, sign: char, u: nat, base: nat, rest: string) returns (left: nat, zeros: int)
    requires 2 <= base <= 16 && |rest| > 0 && Stops(rest[0])
    ensures var t, p := Field(sp, sign, u, base) + rest, left + |SignOf(sign)|;
      var e := p + |Body(sp, zeros, u, base)|;
      && e == |Field(sp, sign, u, base)| - Max(Trailing(sp, sign, u, base), 0)
      && e < |t| && t[p..e] == Body(sp, zeros, u, base) && Stops(t[e])
      && t[..left] == Repeat(' ', left)
      && t[left..p] == SignOf(sign)
  {
    hide Digits, PrefixOf, Stops, Field, Body, SignOf, Trailing, Padding, Zeros, Repeat;
    var pad := Padding(sp, sign, u, base);
    PaddingNat(sp, sign, u, base);
    left := if sp.zero || sp.ladjust then 0 else pad;
    zeros := Zeros(sp, u, base) + if sp.zero then pad else 0;
    var blank, body, trail := Repeat(' ', left), Body(sp, zeros, u, base), Repeat(' ', Trailing(sp, sign, u, base));
    var f := Field(sp, sign, u, base);
    FieldIs(sp, sign, u, base, left, zeros);
    Laid(blank, SignOf(sign), body, trail, rest, f);
    assert Stops((trail + rest)[0]) by { if trail != "" { BlankStops(); } }
  }

  lemma PaddingNat(sp: Spec, sign: char, u: nat, base: nat)
    requires 2 <= base <= 16
    ensures Padding(sp, sign, u, base) >= 0
  {
  }

  lemma FieldIs(sp: Spec, sign: char, u: nat, base: nat, left: nat, zeros: int)
    requires 2 <= base <= 16
    requires left == if sp.zero || sp.ladjust then 0 else Padding(sp, sign, u, base)
    requires zeros == Zeros(sp, u, base) + if sp.zero then Padding(sp, sign, u, base) else 0
    ensures Field(sp, sign, u, base) ==
      Repeat(' ', left) + SignOf(sign) + Body(sp, zeros, u, base) + Repeat(' ', Trailing(sp, sign, u, base))
  {
    hide Digits, PrefixOf, Repeat, SignOf, Padding, Zeros;
    var d, r := Digits(u, base), Repeat('0', zeros);
    assert PrefixOf(sp, u, base) + r + d == Body(sp, zeros, u, base);
  }

  /** Slices of a concatenation. */
  lemma Laid(blank: string, sign: string, body: string, trail: string, rest: string, f: string)
    requires f == blank + sign + body + trail && |rest| > 0
    ensures var t, p, e := f + rest, |blank| + |sign|, |blank| + |sign| + |body|;
      && e == |f| - |trail| && e < |t| && t[..|blank|] == blank && t[|blank|..p] == sign && t[p..e] == body
      && t[e] == (trail + rest)[0]
  {
  }

  lemma BlankStops()
    ensures Stops(' ')
  {
  }

  /** strtol undoes signed conversions: for every flag but '+', width and
      precision, the number comes back and the end is just past the last digit. */
  lemma SignedRoundTrip(sp: Spec, n: int, base: nat, rest: string)
    requires 2 <= base <= 16 && -WORD / 2 <= n < WORD / 2 && CString(rest) && Stops(rest[0])
    requires sp.plus == NUL || sp.plus == ' ' || n < 0
    ensures var f := Field(sp, SignChar(sp, n), Magnitude(n), base);
      && CString(f + rest)
      && var r := SignedSubject(f + rest, base);
         Number(f + rest, r) == n && Signed(n) == n && r.end == |f| - Trailing(sp, SignChar(sp, n), Magnitude(n), base)
  {
    hide Field, Body, Digits, Stops, Value, SubjectFrom, Trailing;
    var c, u := SignChar(sp, n), Magnitude(n);
    var left, zeros := FieldParts(sp, c, u, base, rest);
    var t := Field(sp, c, u, base) + rest;
    var p := left + |SignOf(c)|;
    BodyStarts(sp, zeros, u, base);
    TrailingNat(sp, c, u, base);
    assert t[p] == Body(sp, zeros, u, base)[0];
    ReadsBody(t, p, sp, zeros, u, base, n < 0);
    SignTaken(t, left, c, base);
  }

  /** strtol finds the number behind blanks and a minus sign. */
  lemma SignTaken(t: string, left: nat, c: char, base: nat)
    requires CString(t) && (c == NUL || c == ' ' || c == '-')
    requires var p := left + |SignOf(c)|;
      p < |t| - 1 && t[..left] == Repeat(' ', left) && t[left..p] == SignOf(c) && !IsSpace(t[p]) && t[p] != '-'
    ensures SignedSubject(t, base) == SubjectFrom(t, left + |SignOf(c)|, c == '-', base)
  {
    hide SubjectFrom;
    BlanksAre(t, left);
    if c == '-' {
      assert t[left..left + 1][0] == t[left] == '-';
      SpacesRun(t, 0, left);
    } else if c == ' ' {
      assert t[left..left + 1][0] == t[left] == ' ';
      SpacesRun(t, 0, left + 1);
    } else {
      SpacesRun(t, 0, left);
    }
  }

  lemma BlanksAre(t: string, left: nat)
    requires left <= |t| && t[..left] == Repeat(' ', left)
    ensures forall i {:trigger t[i]} :: 0 <= i < left ==> t[i] == ' ' && IsSpace(t[i])
  {
    forall i | 0 <= i < left ensures t[i] == ' ' { assert t[i] == t[..left][i]; }
  }

  lemma TrailingNat(sp: Spec, sign: char, u: nat, base: nat)
    requires 2 <= base <= 16
    ensures Trailing(sp, sign, u, base) >= 0
  {
  }

  lemma BodyStarts(sp: Spec, zeros: int, u: nat, base: nat)
    requires 2 <= base <= 16
    ensures var b := Body(sp, zeros, u, base); |b| > 0 && !IsSpace(b[0]) && b[0] != '-' && b[0] != '+'
  {
    hide Digits, Value;
    PaddedValue(zeros, u, base);
    var core := Repeat('0', zeros) + Digits(u, base);
    assert core[0] == core[0] && IsDigitOf(core[0], base);
    assert Body(sp, zeros, u, base) == PrefixOf(sp, u, base) + core;
  }

  function SignChar(sp: Spec, n: int): char { if n >= 0 then sp.plus else '-' }

  function Magnitude(n: int): nat { if n >= 0 then n else -n }

  /** strtoul undoes unsigned conversions likewise. */
  lemma UnsignedRoundTrip(sp: Spec, u: nat, base: nat, rest: string)
    requires 2 <= base <= 16 && u < WORD && CString(rest) && Stops(rest[0])
    ensures var f := Field(sp, NUL, u, base);
      && CString(f + rest)
      && var r := UnsignedSubject(f + rest, base);
         Number(f + rest, r) == u && r.end == |f| - Trailing(sp, NUL, u, base)
  {
    hide Field, Body, Digits, DigitValue, Value, SubjectFrom, Trailing;
    var left, zeros := FieldParts(sp, NUL, u, base, rest);
    var t := Field(sp, NUL, u, base) + rest;
    BodyStarts(sp, zeros, u, base);
    assert t[left] == Body(sp, zeros, u, base)[0];
    ReadsBody(t, left, sp, zeros, u, base, false);
    BlanksAre(t, left);
    SpacesRun(t, 0, left);
    TrailingNat(sp, NUL, u, base);
  }

  /** A '+' that was printed is never passed: strtol then reads 0 and ends at the
      sign.  So with a '+' flag the round trip works exactly for negative numbers. */
  lemma PlusNotRead(sp: Spec, n: int, base: nat, rest: string)
    requires 2 <= base <= 16 && -WORD / 2 <= n < WORD / 2 && CString(rest) && Stops(rest[0]) && sp.plus == '+'
    ensures var f := Field(sp, SignChar(sp, n), Magnitude(n), base);
      && CString(f + rest)
      && var r := SignedSubject(f + rest, base);
         (r.end == |f| - Trailing(sp, SignChar(sp, n), Magnitude(n), base) && Number(f + rest, r) == n <==> n < 0)
         && (n >= 0 ==> Number(f + rest, r) == 0 && r.end < |f| && f[r.end] == '+')
  {
    hide Field, Body, Digits, Trailing;
    if n < 0 {
      SignedRoundTrip(sp, n, base, rest);
    } else {
      var left, zeros := FieldParts(sp, '+', n, base, rest);
      var f := Field(sp, '+', n, base);
      var t := f + rest;
      BodyStarts(sp, zeros, n, base);
      assert t[left..left + 1][0] == t[left] == '+';
      TrailingNat(sp, '+', n, base);
      BlanksAre(t, left);
      SpacesRun(t, 0, left);
      assert DigitsEnd(t, left, base) == left;
      assert t[left..left] == "";
    }
  }

  /** %p prints "0x" and then eight digits or more.  strtoul reads that back unless
      a '#' flag repeats the prefix. */
  lemma PointerRoundTrip(sp: Spec, u: nat, rest: string)
    requires sp.zero && u < WORD && CString(rest) && Stops(rest[0])
    ensures var f := "0x" + Field(sp, NUL, u, 16);
      && CString(f + rest)
      && var r := UnsignedSubject(f + rest, 16);
         Number(f + rest, r) == u && r.end == |f| <==> !sp.alt || u == 0
  {
    hide Digits, Stops, Value, Zeros, Padding, Repeat, Field, UnsignedSubject, Number, DigitValue, IsSpace;
    var zeros := Zeros(sp, u, 16) + Padding(sp, NUL, u, 16);
    PaddingNat(sp, NUL, u, 16);
    FieldIs(sp, NUL, u, 16, 0, zeros);
    var body, core := Body(sp, zeros, u, 16), Repeat('0', zeros) + Digits(u, 16);
    assert Repeat(' ', 0) == "";
    assert Field(sp, NUL, u, 16) == body;
    PaddedValue(zeros, u, 16);
    if !sp.alt || u == 0 {
      assert body == core;
      PrefixRead(core, rest);
    } else {
      assert body == "0x" + core;
      PrefixTwice(core, rest);
    }
  }

  lemma PrefixRead(core: string, rest: string)
    requires |core| > 0 && AllDigits(core, 16) && CString(rest) && Stops(rest[0])
    ensures var t := "0x" + core + rest;
      CString(t) && var r := UnsignedSubject(t, 16); r.end == |"0x" + core| && Number(t, r) == Value(core, 16)
  {
    hide Stops, Value, IsDigitOf;
    var t := "0x" + core + rest;
    SpacesRun(t, 0, 0);
    assert t[..2 + |core|] == "0x" + core && t[2 + |core|] == rest[0];
    ReadsHexPrefix(t, 0, core, false);
    assert t[2..2 + |core|] == core;
  }

  lemma PrefixTwice(core: string, rest: string)
    requires CString(rest)
    ensures var t := "0x" + ("0x" + core) + rest;
      CString(t) && var r := UnsignedSubject(t, 16); r.end == 3 && Number(t, r) == 0
  {
    hide Value;
    var t := "0x" + ("0x" + core) + rest;
    assert t[0] == '0' && t[1] == 'x' && t[2] == '0' && t[3] == 'x';
    SpacesRun(t, 0, 0);
    DigitsRun(t, 2, 3, 16);
    assert t[2..3] == "" + ['0'];
    NothingRead(16);
    ValueSnoc("", '0', 16);
  }
}
