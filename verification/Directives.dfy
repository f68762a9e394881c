/** The syntax of a conversion directive: flags, width, precision. */
module Directives {
  import opened MachineWord
  import opened Numerals
  import opened Strtol
  import opened PrintNumber

  /** The words on the stack that va_arg takes, in order. */
  type Words = nat -> int

  const START := Spec(false, false, NUL, false, 0, -1)

  predicate IsDecimal(c: char) { '0' <= c <= '9' }

  function Flags(fmt: string, i: nat, sp: Spec): (r: (Spec, nat))
    requires i < |fmt| && CString(fmt)
    ensures i <= r.1 < |fmt|
    decreases |fmt| - i
  {
    if fmt[i] == '#' then Flags(fmt, i + 1, sp.(alt := true))
    else if fmt[i] == '-' then Flags(fmt, i + 1, sp.(ladjust := true))
    else if fmt[i] == '+' then Flags(fmt, i + 1, sp.(plus := '+'))
    else if fmt[i] == ' ' then Flags(fmt, i + 1, if sp.plus == NUL then sp.(plus := ' ') else sp)
    else (sp, i)
  }

  function DecimalEnd(fmt: string, i: nat): (e: nat)
    requires i < |fmt| && CString(fmt)
    ensures i <= e < |fmt| && !IsDecimal(fmt[e])
    decreases |fmt| - i
  {
    if IsDecimal(fmt[i]) then DecimalEnd(fmt, i + 1) else i
  }

  /** The numeral at i, if there is one. */
  function Decimal(fmt: string, i: nat): nat
    requires i < |fmt| && CString(fmt)
  {
    Value(fmt[i..DecimalEnd(fmt, i)], 10)
  }

  /** The state of a scan: what is known of the directive, the next character and
      the next word. */
  datatype Scan = Scan(sp: Spec, i: nat, a: nat)

  function ZeroFlag(fmt: string, s: Scan): (r: Scan)
    requires s.i < |fmt| && CString(fmt)
    ensures s.i <= r.i < |fmt|
  {
    if fmt[s.i] == '0' then Scan(s.sp.(zero := true), s.i + 1, s.a) else s
  }

  function Width(fmt: string, s: Scan, words: Words): (r: Scan)
    requires s.i < |fmt| && CString(fmt)
    ensures s.i <= r.i < |fmt|
  {
    if IsDecimal(fmt[s.i]) then Scan(s.sp.(width := Decimal(fmt, s.i)), DecimalEnd(fmt, s.i), s.a)
    else if fmt[s.i] == '*' then
      var w := Signed(words(s.a));
      Scan(if w < 0 then s.sp.(ladjust := !s.sp.ladjust, width := -w) else s.sp.(width := w), s.i + 1, s.a + 1)
    else s
  }

  function Precision(fmt: string, s: Scan, words: Words): (r: Scan)
    requires s.i < |fmt| && CString(fmt)
    ensures s.i <= r.i < |fmt|
  {
    if fmt[s.i] != '.' then s
    else if IsDecimal(fmt[s.i + 1]) then Scan(s.sp.(prec := Decimal(fmt, s.i + 1)), DecimalEnd(fmt, s.i + 1), s.a)
    else if fmt[s.i + 1] == '*' then Scan(s.sp.(prec := Signed(words(s.a))), s.i + 2, s.a + 1)
    else s.(i := s.i + 1)
  }

  function LongFlag(fmt: string, s: Scan): (r: Scan)
    requires s.i < |fmt| && CString(fmt)
    ensures s.i <= r.i < |fmt|
  {
    if fmt[s.i] == 'l' then s.(i := s.i + 1) else s
  }

  /** The directive that starts behind a '%'. */
  function Directive(fmt: string, i: nat, words: Words, a: nat): (r: Scan)
    requires i < |fmt| && CString(fmt)
    ensures i <= r.i < |fmt|
  {
    var f := Flags(fmt, i, START);
    LongFlag(fmt, Precision(fmt, Width(fmt, ZeroFlag(fmt, Scan(f.0, f.1, a)), words), words))
  }

  /** Flags count in any order and any number: '#' and '-' wherever they stand, and '+'
      rather than ' '. */
  lemma {:induction false} FlagsAny(fmt: string, i: nat, e: nat, sp: Spec)
    requires CString(fmt) && i <= e < |fmt| && NotFlag(fmt[e]) && sp.plus in {NUL, ' ', '+'}
    requires forall k {:trigger fmt[k]} :: i <= k < e ==> !NotFlag(fmt[k])
    ensures Flags(fmt, i, sp) == (sp.(alt := sp.alt || '#' in fmt[i..e], ladjust := sp.ladjust || '-' in fmt[i..e],
      plus := if '+' in fmt[i..e] then '+' else if sp.plus == NUL && ' ' in fmt[i..e] then ' ' else sp.plus), e)
    decreases e - i
  {
    if i < e {
      var next := if fmt[i] == '#' then sp.(alt := true) else if fmt[i] == '-' then sp.(ladjust := true)
                  else if fmt[i] == '+' then sp.(plus := '+') else if sp.plus == NUL then sp.(plus := ' ') else sp;
      FlagsAny(fmt, i + 1, e, next);
      assert fmt[i..e] == [fmt[i]] + fmt[i + 1..e];
    }
  }

  predicate NotFlag(c: char) { c != '#' && c != '-' && c != '+' && c != ' ' }

  // ----- The scanner -----

  method ScanFlags(fmt: string, from: nat) returns (sp: Spec, i: nat)
    requires from < |fmt| && CString(fmt)
    ensures (sp, i) == Flags(fmt, from, START)
  {
    sp, i := START, from;
    while true
      invariant i < |fmt| && Flags(fmt, i, sp) == Flags(fmt, from, START)
      decreases |fmt| - i
    {
      if fmt[i] == '#' {
        sp := sp.(alt := true);
        i := i + 1;
      } else if fmt[i] == '-' {
        sp := sp.(ladjust := true);
        i := i + 1;
      } else if fmt[i] == '+' {
        sp := sp.(plus := '+');
        i := i + 1;
      } else if fmt[i] == ' ' {
        if sp.plus == NUL { sp := sp.(plus := ' '); }
        i := i + 1;
      } else {
        break;
      }
    }
  }

  /** while (isdigit(*fmt)) n = 10 * n + Ctod(*fmt++) */
  method ScanNumber(fmt: string, from: nat) returns (n: nat, i: nat)
    requires from < |fmt| && CString(fmt)
    ensures n == Decimal(fmt, from) && i == DecimalEnd(fmt, from)
  {
    hide Value;
    n, i := 0, from;
    NothingRead(10);
    assert fmt[from..from] == "";
    while IsDecimal(fmt[i])
      invariant from <= i < |fmt| && DecimalEnd(fmt, i) == DecimalEnd(fmt, from) && n == Value(fmt[from..i], 10)
      decreases |fmt| - i
    {
      ValueSnoc(fmt[from..i], fmt[i], 10);
      assert fmt[from..i + 1] == fmt[from..i] + [fmt[i]];
      n := 10 * n + (fmt[i] as int - '0' as int);
      i := i + 1;
    }
  }

  method ScanWidth(fmt: string, s: Scan, words: Words) returns (r: Scan)
    requires s.i < |fmt| && CString(fmt)
    ensures r == Width(fmt, s, words)
  {
    r := s;
    if IsDecimal(fmt[r.i]) {
      var n, i := ScanNumber(fmt, r.i);
      r := Scan(r.sp.(width := n), i, r.a);
    } else if fmt[r.i] == '*' {
      var w := Signed(words(r.a));
      r := Scan(r.sp.(width := w), r.i + 1, r.a + 1);
      if w < 0 { r := r.(sp := r.sp.(ladjust := !r.sp.ladjust, width := -w)); }
    }
  }

  method ScanPrecision(fmt: string, s: Scan, words: Words) returns (r: Scan)
    requires s.i < |fmt| && CString(fmt)
    ensures r == Precision(fmt, s, words)
  {
    r := s;
    if fmt[r.i] == '.' {
      r := r.(i := r.i + 1);
      if IsDecimal(fmt[r.i]) {
        var n, i := ScanNumber(fmt, r.i);
        r := Scan(r.sp.(prec := n), i, r.a);
      } else if fmt[r.i] == '*' {
        r := Scan(r.sp.(prec := Signed(words(r.a))), r.i + 1, r.a + 1);
      }
    }
  }

  method ScanDirective(fmt: string, from: nat, words: Words, a: nat) returns (s: Scan)
    requires from < |fmt| && CString(fmt)
    ensures s == Directive(fmt, from, words, a)
  {
    hide Flags, Width, Precision;
    var sp, i := ScanFlags(fmt, from);
    s := Scan(sp, i, a);
    if fmt[s.i] == '0' { s := Scan(s.sp.(zero := true), s.i + 1, s.a); }
    s := ScanWidth(fmt, s, words);
    s := ScanPrecision(fmt, s, words);
    if fmt[s.i] == 'l' { s := s.(i := s.i + 1); }
  }

  // ----- Writing a directive down -----

  /** What a flag, width and precision specification looks like in a format. */
  function FlagText(sp: Spec): string {
    (if sp.alt then "#" else "") + (if sp.ladjust then "-" else "") + (if sp.plus == NUL then "" else [sp.plus])
  }

  function ZeroText(sp: Spec): string { if sp.zero then "0" else "" }

  function WidthText(sp: Spec): string { if sp.width <= 0 then "" else Digits(sp.width, 10) }

  function PrecisionText(sp: Spec): string { if sp.prec < 0 then "" else "." + Digits(sp.prec, 10) }

  function SpecText(sp: Spec): string { FlagText(sp) + (ZeroText(sp) + (WidthText(sp) + PrecisionText(sp))) }

  predicate Writable(sp: Spec) {
    sp.width >= 0 && sp.prec >= -1 && (sp.plus == NUL || sp.plus == ' ' || sp.plus == '+')
  }

  /** A character that ends a specification. */
  predicate Ends(c: char) {
    c != '#' && c != '-' && c != '+' && c != ' ' && !IsDecimal(c) && c != '*' && c != '.' && c != 'l'
  }

  predicate EndsOrLong(c: char) { Ends(c) || c == 'l' }

  lemma {:induction false} DecimalRun(fmt: string, i: nat, e: nat)
    requires CString(fmt) && i <= e < |fmt| && !IsDecimal(fmt[e])
    requires forall k {:trigger fmt[k]} :: i <= k < e ==> IsDecimal(fmt[k])
    ensures DecimalEnd(fmt, i) == e
    decreases e - i
  {
    if i < e { DecimalRun(fmt, i + 1, e); }
  }

  /** A written number is read back. */
  lemma DecimalText(fmt: string, i: nat, n: nat)
    requires CString(fmt) && i + |Digits(n, 10)| < |fmt| && fmt[i..i + |Digits(n, 10)|] == Digits(n, 10)
    requires !IsDecimal(fmt[i + |Digits(n, 10)|])
    ensures IsDecimal(fmt[i]) && DecimalEnd(fmt, i) == i + |Digits(n, 10)| && Decimal(fmt, i) == n
  {
    hide Digits, Value;
    var ds := Digits(n, 10);
    DigitsValue(n, 10);
    forall k | i <= k < i + |ds| ensures IsDecimal(fmt[k]) { assert fmt[k] == ds[k - i] && IsDigitOf(ds[k - i], 10); }
    DecimalRun(fmt, i, i + |ds|);
  }

  /** A precision is introduced by a '.', so it is not taken for anything else. */
  lemma PrecisionReadBack(fmt: string, i: nat, s: Scan, sp: Spec, words: Words)
    requires CString(fmt) && sp.prec >= -1 && s.i == i && s.sp.prec == -1
    requires var e := i + |PrecisionText(sp)|; e < |fmt| && fmt[i..e] == PrecisionText(sp) && EndsOrLong(fmt[e])
    ensures Precision(fmt, s, words) == Scan(s.sp.(prec := sp.prec), i + |PrecisionText(sp)|, s.a)
    ensures NotFlag(fmt[i]) && !IsDecimal(fmt[i]) && fmt[i] != '*'
  {
    hide Digits, Value, Decimal;
    var e := i + |PrecisionText(sp)|;
    if sp.prec >= 0 {
      var ds := Digits(sp.prec, 10);
      assert fmt[i..e][0] == fmt[i] == '.';
      assert fmt[i + 1..e] == fmt[i..e][1..] == ds;
      DecimalText(fmt, i + 1, sp.prec);
    }
  }

  lemma WidthReadBack(fmt: string, i: nat, s: Scan, sp: Spec, words: Words)
    requires CString(fmt) && sp.width >= 0 && s.i == i && s.sp.width == 0
    requires var e := i + |WidthText(sp)|;
      e < |fmt| && fmt[i..e] == WidthText(sp) && NotFlag(fmt[e]) && !IsDecimal(fmt[e]) && fmt[e] != '*'
    ensures Width(fmt, s, words) == Scan(s.sp.(width := sp.width), i + |WidthText(sp)|, s.a)
    ensures NotFlag(fmt[i]) && fmt[i] != '0'
  {
    hide Digits, Value, Decimal;
    if sp.width > 0 {
      var ds := Digits(sp.width, 10);
      DecimalText(fmt, i, sp.width);
      NoLeadingZero(sp.width, 10);
      assert fmt[i..i + |ds|][0] == fmt[i];
    }
  }

  lemma ZeroReadBack(fmt: string, i: nat, s: Scan, sp: Spec)
    requires CString(fmt) && s.i == i && !s.sp.zero
    requires var e := i + |ZeroText(sp)|; e < |fmt| && fmt[i..e] == ZeroText(sp) && NotFlag(fmt[e]) && fmt[e] != '0'
    ensures ZeroFlag(fmt, s) == Scan(s.sp.(zero := sp.zero), i + |ZeroText(sp)|, s.a)
    ensures NotFlag(fmt[i])
  {
    if sp.zero { assert fmt[i..i + 1][0] == fmt[i]; }
  }

  lemma FlagsReadBack(fmt: string, i: nat, sp: Spec)
    requires CString(fmt) && Writable(sp)
    requires var e := i + |FlagText(sp)|; e < |fmt| && fmt[i..e] == FlagText(sp) && NotFlag(fmt[e])
    ensures Flags(fmt, i, START) == (START.(alt := sp.alt, ladjust := sp.ladjust, plus := sp.plus), i + |FlagText(sp)|)
  {
    var i1 := i + if sp.alt then 1 else 0;
    var i2 := i1 + if sp.ladjust then 1 else 0;
    var t := FlagText(sp);
    assert forall k :: 0 <= k < |t| ==> fmt[i + k] == fmt[i..i + |t|][k] == t[k];
    assert sp.alt ==> fmt[i] == t[0] == '#';
    assert sp.ladjust ==> fmt[i1] == t[i1 - i] == '-';
    assert sp.plus != NUL ==> fmt[i2] == t[i2 - i] == sp.plus;
    var s1 := START.(alt := sp.alt);
    var s2 := s1.(ladjust := sp.ladjust);
    LastFlag(fmt, i2, s2, sp.plus);
    assert Flags(fmt, i1, s1) == Flags(fmt, i2, s2);
    assert Flags(fmt, i, START) == Flags(fmt, i1, s1);
  }

  lemma LastFlag(fmt: string, i: nat, s: Spec, plus: char)
    requires CString(fmt) && s.plus == NUL
    requires if plus == NUL then i < |fmt| && NotFlag(fmt[i])
             else (plus == '+' || plus == ' ') && i + 1 < |fmt| && fmt[i] == plus && NotFlag(fmt[i + 1])
    ensures Flags(fmt, i, s) == (s.(plus := plus), if plus == NUL then i else i + 1)
  {
    if plus != NUL {
      assert Flags(fmt, i + 1, s.(plus := plus)) == (s.(plus := plus), i + 1);
    }
  }

  /** Scanning the written specification recovers it: every flag, width and
      precision can be asked for. */
  lemma SpecReadBack(fmt: string, i: nat, sp: Spec, words: Words, a: nat)
    requires Writable(sp) && CString(fmt)
    requires var e := i + |SpecText(sp)|; e < |fmt| && fmt[i..e] == SpecText(sp) && Ends(fmt[e])
    ensures Directive(fmt, i, words, a) == Scan(sp, i + |SpecText(sp)|, a)
  {
    hide Flags, ZeroFlag, Width, Precision, WidthText, PrecisionText, FlagText, ZeroText;
    var i1 := i + |FlagText(sp)|;
    var i2 := i1 + |ZeroText(sp)|;
    var i3 := i2 + |WidthText(sp)|;
    var i4 := i3 + |PrecisionText(sp)|;
    SpecSlices(fmt, i, sp);
    var s1 := Scan(START.(alt := sp.alt, ladjust := sp.ladjust, plus := sp.plus), i1, a);
    var s2 := Scan(s1.sp.(zero := sp.zero), i2, a);
    var s3 := Scan(s2.sp.(width := sp.width), i3, a);
    PrecisionReadBack(fmt, i3, s3, sp, words);
    WidthReadBack(fmt, i2, s2, sp, words);
    ZeroReadBack(fmt, i1, s1, sp);
    FlagsReadBack(fmt, i, sp);
  }

  lemma SpecSlices(fmt: string, i: nat, sp: Spec)
    requires var e := i + |SpecText(sp)|; e < |fmt| && fmt[i..e] == SpecText(sp)
    ensures var i1 := i + |FlagText(sp)|; var i2 := i1 + |ZeroText(sp)|; var i3 := i2 + |WidthText(sp)|;
      var i4 := i3 + |PrecisionText(sp)|;
      && i4 == i + |SpecText(sp)| && fmt[i..i1] == FlagText(sp) && fmt[i1..i2] == ZeroText(sp)
      && fmt[i2..i3] == WidthText(sp) && fmt[i3..i4] == PrecisionText(sp)
  {
    hide WidthText, PrecisionText, FlagText, ZeroText;
    Sliced(fmt, i, FlagText(sp), ZeroText(sp) + (WidthText(sp) + PrecisionText(sp)));
    var i1 := i + |FlagText(sp)|;
    Sliced(fmt, i1, ZeroText(sp), WidthText(sp) + PrecisionText(sp));
    Sliced(fmt, i1 + |ZeroText(sp)|, WidthText(sp), PrecisionText(sp));
  }

  lemma Sliced(fmt: string, i: nat, a: string, b: string)
    requires var e := i + |a + b|; e <= |fmt| && fmt[i..e] == a + b
    ensures i + |a| + |b| == i + |a + b| && fmt[i..i + |a|] == a && fmt[i + |a|..i + |a| + |b|] == b
  {
    var s := fmt[i..i + |a + b|];
    assert fmt[i..i + |a|] == s[..|a|];
    assert fmt[i + |a|..i + |a| + |b|] == s[|a|..];
  }
}
