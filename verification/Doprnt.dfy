/** _doprnt of lib/doprnt.c: directives parsed, numbers built backwards in a
    buffer, characters put out one by one. */
module Doprnt {
  import opened MachineWord
  import opened Numerals
  import opened Strtol
  import opened PrintNumber
  import opened Directives

  const MAXINT := 0x7fff_ffff

  /** Where the putc argument of _doprnt puts its characters. */
  class Sink {
    var text: string

    constructor ()
      ensures text == ""
    {
      text := "";
    }

    method Putc(c: char)
      modifies this
      ensures text == old(text) + [c]
    {
      text := text + [c];
    }

    /** while (--length >= 0) putc(c) */
    method Pad(c: char, length0: int) returns (length: int)
      modifies this
      ensures text == old(text) + Repeat(c, length0) && length < 0
    {
      length := length0 - 1;
      ghost var done := 0;
      assert old(text) + Repeat(c, 0) == old(text);
      while length >= 0
        invariant 0 <= done && (done == 0 || done <= length0) && length == length0 - 1 - done
        invariant text == old(text) + Repeat(c, done)
      {
        Putc(c);
        done := done + 1;
        length := length - 1;
      }
    }

    method PutAll(s: string)
      modifies this
      ensures text == old(text) + s
    {
      var k := 0;
      while k < |s|
        invariant 0 <= k <= |s| && text == old(text) + s[..k]
      {
        Putc(s[k]);
        assert s[..k + 1] == s[..k] + [s[k]];
        k := k + 1;
      }
      assert s[..|s|] == s;
    }

    /** while (++p != &buf[MAXBUF]) putc(*p) */
    method PutBuffer(buf: array<char>, p0: int)
      requires -1 <= p0 < buf.Length
      modifies this
      ensures text == old(text) + buf[p0 + 1..]
    {
      var p := p0 + 1;
      while p != buf.Length
        invariant p0 < p <= buf.Length && text == old(text) + buf[p0 + 1..p]
        decreases buf.Length - p
      {
        Putc(buf[p]);
        assert buf[p0 + 1..p + 1] == buf[p0 + 1..p] + [buf[p]];
        p := p + 1;
      }
      assert buf[p0 + 1..buf.Length] == buf[p0 + 1..];
    }
  }

  lemma {:induction false} FitsBuffer(u: nat, base: nat, k: nat, bound: nat)
    requires 2 <= base <= 16 && u < bound && k > 0 && bound == Bound(k)
    ensures |Digits(u, base)| <= k
    decreases k
  {
    if u >= base {
      HalfBound(u, base, k);
      FitsBuffer(u / base, base, k - 1, Bound(k - 1));
    }
  }

  function Bound(k: nat): nat { if k == 0 then 1 else 2 * Bound(k - 1) }

  lemma HalfBound(u: nat, base: nat, k: nat)
    requires 2 <= base <= u < Bound(k) && k > 0
    ensures k > 1 && u / base < Bound(k - 1)
  {
    assert u / base <= u / 2 by { DivSmaller(u, base); }
    assert Bound(0) == 1 && (k == 1 ==> Bound(k) == 2);
  }

  lemma DivSmaller(u: nat, base: nat)
    requires base >= 2
    ensures u / base <= u / 2
  {
    var q, r := u / base, u % base;
    assert u == q * base + r;
    assert q * 2 <= q * base;
  }

  lemma WordBound()
    ensures Bound(32) == WORD
  {
    assert Bound(8) == 256;
    assert Bound(16) == 0x1_0000;
    assert Bound(24) == 0x100_0000;
  }

  lemma WordDigits(u: nat, base: nat)
    requires 2 <= base <= 16 && u < WORD
    ensures |Digits(u, base)| <= MAXBUF
  {
    WordBound();
    FitsBuffer(u, base, 32, WORD);
  }

  /** do { *p-- = digits[u % base]; u /= base; prec--; } while (u != 0) */
  method BuildNumber(u0: nat, base: nat, prec0: int, buf: array<char>) returns (p: int, prec: int)
    requires 2 <= base <= 16 && u0 < WORD && buf.Length == MAXBUF
    modifies buf
    ensures -1 <= p < MAXBUF - 1 && buf[p + 1..] == Digits(u0, base) && prec == prec0 - |Digits(u0, base)|
  {
    hide Digits;
    WordDigits(u0, base);
    var u: nat := u0;
    p, prec := MAXBUF - 1, prec0;
    ghost var ds := Digits(u0, base);
    assert ds == ds + buf[MAXBUF..];
    while true
      invariant 0 <= p < MAXBUF && ds == Digits(u, base) + buf[p + 1..] && |ds| <= MAXBUF
      invariant prec == prec0 - (MAXBUF - 1 - p)
      decreases u
    {
      var d, q := LowDigit(u, base);
      ghost var done, high := buf[p + 1..], if q == 0 then "" else Digits(q, base);
      buf[p] := d;
      assert buf[p..] == [d] + done;
      assert ds == high + buf[p..];
      p := p - 1;
      u := q;
      prec := prec - 1;
      if u == 0 { break; }
    }
    assert ds == buf[p + 1..];
  }

  /** digits[u % base] and u / base */
  method LowDigit(u: nat, base: nat) returns (d: char, q: nat)
    requires 2 <= base <= 16
    ensures Digits(u, base) == (if q == 0 then "" else Digits(q, base)) + [d]
    ensures q == 0 || q < u
  {
    hide DigitChar;
    Quotient(u, base);
    d, q := DigitChar(u % base), u / base;
    if u < base { assert Digits(u, base) == "" + [d]; }
  }

  lemma Quotient(u: nat, base: nat)
    requires base >= 2
    ensures u % base < base && (u < base ==> u / base == 0 && u % base == u) && (u >= base ==> 0 < u / base < u)
  {
    DivSmaller(u, base);
  }

  /** print_num: the code after the label of that name. */
  method PrintNum(out: Sink, sp: Spec, signChar: char, u: nat, base: nat)
    requires 2 <= base <= 16 && u < WORD
    modifies out
    ensures out.text == old(out.text) + Field(sp, signChar, u, base)
  {
    hide Digits, Repeat, Field;
    var buf := new char[MAXBUF];
    var prefix := "";
    if u != 0 && sp.alt {
      if base == 8 { prefix := "0"; } else if base == 16 { prefix := "0x"; }
    }
    var p, prec := BuildNumber(u, base, sp.prec, buf);
    var length := sp.width - (MAXBUF - 1 - p);
    if signChar != NUL { length := length - 1; }
    length := length - |prefix|;
    if prec > 0 { length := length - prec; }
    FieldLaidOut(sp, signChar, u, base, length, prec);
    PutField(out, sp, signChar, prefix, length, prec, buf, p);
  }

  /** The padding and the parts of the number, in order. */
  function Parts(sp: Spec, signChar: char, prefix: string, length: int, prec: int, ds: string): string {
    Repeat(' ', if sp.zero || sp.ladjust then 0 else length)
    + (SignOf(signChar) + (prefix + (Repeat('0', prec) + (Repeat('0', if sp.zero then length else 0)
    + (ds + Repeat(' ', if !sp.zero && sp.ladjust then length else 0))))))
  }

  method PutField(out: Sink, sp: Spec, signChar: char, prefix: string, length0: int, prec: int, buf: array<char>,
                  p: int)
    requires -1 <= p < buf.Length
    modifies out
    ensures out.text == old(out.text) + Parts(sp, signChar, prefix, length0, prec, old(buf[p + 1..]))
  {
    hide Repeat, SignOf;
    var length := length0;
    ghost var lead, tail := if sp.zero || sp.ladjust then 0 else length, if !sp.zero && sp.ladjust then length else 0;
    ghost var fill, ds := if sp.zero then length else 0, buf[p + 1..];
    NoPad();
    if !sp.zero && !sp.ladjust {
      // blanks come first
      length := out.Pad(' ', length);
    }
    ghost var t1 := out.text;
    PutFront(out, signChar, prefix, prec);
    ghost var t2 := out.text;
    if sp.zero {
      // zeros stand directly before the digits
      length := out.Pad('0', length);
    }
    out.PutBuffer(buf, p);
    ghost var t3 := out.text;
    if sp.ladjust {
      length := out.Pad(' ', length);
    }
    assert t1 == old(out.text) + Repeat(' ', lead);
    assert t3 == t2 + (Repeat('0', fill) + ds);
    assert out.text == t3 + Repeat(' ', tail);
    Associate(old(out.text), Repeat(' ', lead), SignOf(signChar), prefix, Repeat('0', prec), Repeat('0', fill), ds,
      Repeat(' ', tail));
  }

  /** Sign, prefix and the zeros the precision asks for. */
  method PutFront(out: Sink, signChar: char, prefix: string, prec: int)
    modifies out
    ensures out.text == old(out.text) + (SignOf(signChar) + (prefix + Repeat('0', prec)))
  {
    hide Repeat;
    if signChar != NUL { out.Putc(signChar); }
    out.PutAll(prefix);
    var _ := out.Pad('0', prec);
  }

  lemma Associate(t: string, a: string, b: string, c: string, d: string, e: string, f: string, g: string)
    ensures t + a + (b + (c + d)) + (e + f) + g == t + (a + (b + (c + (d + (e + (f + g))))))
  {
  }

  lemma NoPad()
    ensures forall n {:trigger Repeat(' ', n)} :: n <= 0 ==> Repeat(' ', n) == ""
    ensures forall n {:trigger Repeat('0', n)} :: n <= 0 ==> Repeat('0', n) == ""
  {
  }

  /** The padding computed step by step is that of the field. */
  lemma FieldLaidOut(sp: Spec, signChar: char, u: nat, base: nat, room: int, prec: int)
    requires 2 <= base <= 16 && prec == sp.prec - |Digits(u, base)|
    requires room == sp.width - |Digits(u, base)| - |SignOf(signChar)| - |PrefixOf(sp, u, base)| - Max(prec, 0)
    ensures Field(sp, signChar, u, base) == Parts(sp, signChar, PrefixOf(sp, u, base), room, prec, Digits(u, base))
  {
    hide Digits, SignOf, PrefixOf, Repeat;
    var pad := Padding(sp, signChar, u, base);
    PadIs(room);
    ZeroRuns(prec, if sp.zero then room else 0);
    var zs := Repeat('0', Zeros(sp, u, base) + if sp.zero then pad else 0);
    assert zs == Repeat('0', prec) + Repeat('0', if sp.zero then room else 0);
    Regroup(Repeat(' ', if sp.zero || sp.ladjust then 0 else pad), SignOf(signChar), PrefixOf(sp, u, base), zs,
            Repeat('0', prec), Repeat('0', if sp.zero then room else 0), Digits(u, base),
              Repeat(' ', Trailing(sp, signChar, u, base)));
  }

  lemma PadIs(n: int)
    ensures Repeat(' ', Max(n, 0)) == Repeat(' ', n) && Repeat('0', Max(n, 0)) == Repeat('0', n)
  {
  }

  lemma Regroup(a: string, b: string, c: string, de: string, d: string, e: string, f: string, g: string)
    requires de == d + e
    ensures a + b + c + de + f + g == a + (b + (c + (d + (e + (f + g)))))
  {
  }

  lemma ZeroRuns(a: int, b: int)
    ensures Repeat('0', Max(a, 0) + Max(b, 0)) == Repeat('0', a) + Repeat('0', b)
  {
    var s, t := Repeat('0', Max(a, 0) + Max(b, 0)), Repeat('0', a) + Repeat('0', b);
    assert |s| == |t| && forall i :: 0 <= i < |s| ==> s[i] == '0' == t[i];
  }

  // ----- %s -----

  /** How many characters of a string of that length are shown. */
  function ShownLength(sp: Spec, len: nat): int {
    var prec := if sp.prec == -1 then MAXINT else sp.prec;
    if prec < 0 then 0 else if len < prec then len else prec
  }

  /** The count the source compares with the width after the string: one too many
      when the precision cut the string short. */
  function Counted(sp: Spec, len: nat): int { if ShownLength(sp, len) < len then ShownLength(sp, len) + 1 else len }

  function StringField(sp: Spec, s: string): string {
    Repeat(' ', if sp.ladjust then 0 else sp.width - ShownLength(sp, |s|))
    + s[..ShownLength(sp, |s|)]
    + Repeat(' ', if sp.ladjust then sp.width - Counted(sp, |s|) else 0)
  }

  /** A %s field has the width asked for, or that of its text, except that a
      left-adjusted string cut short by its precision is padded one short. */
  lemma StringFieldLength(sp: Spec, s: string)
    ensures |StringField(sp, s)| == Max(sp.width, ShownLength(sp, |s|)) <==>
      !(sp.ladjust && ShownLength(sp, |s|) < |s| && ShownLength(sp, |s|) < sp.width)
    ensures |StringField(sp, s)| >= Max(sp.width, ShownLength(sp, |s|)) - 1
  {
  }

  /** `%-5.2s` of "abc" comes out four wide. */
  lemma StringFieldShort()
    ensures StringField(Spec(true, false, NUL, false, 5, 2), "abc") == "ab  "
  {
    var sp := Spec(true, false, NUL, false, 5, 2);
    assert ShownLength(sp, 3) == 2 && Counted(sp, 3) == 3 && "abc"[..2] == "ab";
    assert Repeat(' ', 0) == "" && Repeat(' ', 1) == " " && Repeat(' ', 2) == "  ";
  }

  method PutString(out: Sink, sp: Spec, s: string)
    modifies out
    ensures out.text == old(out.text) + StringField(sp, s)
  {
    hide Repeat;
    var prec := if sp.prec == -1 then MAXINT else sp.prec;
    NoPad();
    if sp.width > 0 && !sp.ladjust {
      var n := CountPart(s, prec);
      var _ := out.Pad(' ', sp.width - n);
    }
    ghost var t1 := out.text;
    ghost var lead := Repeat(' ', if sp.ladjust then 0 else sp.width - ShownLength(sp, |s|));
    assert t1 == old(out.text) + lead;
    PutText(out, sp, s, prec);
    ghost var tail := Repeat(' ', if sp.ladjust then sp.width - Counted(sp, |s|) else 0);
    Three(old(out.text), lead, s[..ShownLength(sp, |s|)], tail);
  }

  /** The text itself and what pads it on the right. */
  method PutText(out: Sink, sp: Spec, s: string, prec: int)
    requires prec == if sp.prec == -1 then MAXINT else sp.prec
    modifies out
    ensures out.text == old(out.text) + s[..ShownLength(sp, |s|)] +
      Repeat(' ', if sp.ladjust then sp.width - Counted(sp, |s|) else 0)
  {
    hide Repeat;
    NoPad();
    var n := PutPart(out, s, prec);
    if n < sp.width && sp.ladjust {
      var _ := out.Pad(' ', sp.width - n);
    }
  }

  lemma Three(t: string, a: string, b: string, c: string)
    ensures t + a + b + c == t + (a + b + c)
  {
  }

  /** for (; *p != 0 && n < prec; p++) n++ */
  method CountPart(s: string, prec: int) returns (n: int)
    ensures n == if prec < 0 then 0 else if |s| < prec then |s| else prec
  {
    n := 0;
    var p := 0;
    while p < |s| && n < prec
      invariant 0 <= p == n <= |s| && (n > 0 ==> n <= prec)
    {
      p := p + 1;
      n := n + 1;
    }
  }

  /** while (*p) { if (++n > prec) break; putc(*p++); } */
  method PutPart(out: Sink, s: string, prec: int) returns (n: int)
    modifies out
    ensures var shown := if prec < 0 then 0 else if |s| < prec then |s| else prec;
      out.text == old(out.text) + s[..shown] && n == if shown < |s| then shown + 1 else |s|
  {
    n := 0;
    var p := 0;
    while p < |s|
      invariant 0 <= p == n <= |s| && (n > 0 ==> n <= prec) && out.text == old(out.text) + s[..p]
      decreases |s| - p
    {
      n := n + 1;
      if n > prec { break; }
      out.Putc(s[p]);
      assert s[..p + 1] == s[..p] + [s[p]];
      p := p + 1;
    }
  }

  // ----- The conversions -----

  /** What a conversion character prints, and how far it moves in the arguments;
      `strings` is the text at a pointer, empty at the null pointer. */
  function Convert(c: char, sp: Spec, words: Words, strings: int -> string, a: nat, radix: nat): (string, nat)
    requires 2 <= radix <= 16
  {
    var w := words(a) % WORD;
    match c
    case 'c' => ([(w % 256) as char], a + 1)
    case 's' => (StringField(sp, if w == 0 then "" else strings(w)), a + 1)
    case 'o' | 'O' => (Field(sp, NUL, w, 8), a + 1)
    case 'd' | 'i' | 'D' => (SignedField(sp, w, 10), a + 1)
    case 'u' | 'U' => (Field(sp, NUL, w, 10), a + 1)
    case 'p' => ("0x" + Field(sp.(zero := true, width := 8), NUL, w, 16), a + 1)
    case 'x' | 'X' => (Field(sp, NUL, w, 16), a + 1)
    case 'z' | 'Z' => (SignedField(sp, w, 16), a + 1)
    case 'r' | 'R' => (SignedField(sp, w, radix), a + 1)
    case 'n' | 'N' => (Field(sp, NUL, w, radix), a + 1)
    case _ => (if c == NUL then "" else [c], a)
  }

  function SignedField(sp: Spec, w: int, base: nat): string
    requires 2 <= base <= 16
  {
    Field(sp, SignChar(sp, Signed(w)), Magnitude(Signed(w)), base)
  }

  method PrintSigned(out: Sink, sp: Spec, w: int, base: nat)
    requires 2 <= base <= 16
    modifies out
    ensures out.text == old(out.text) + SignedField(sp, w, base)
  {
    hide Field;
    var n := Signed(w);
    var u, signChar;
    if n >= 0 {
      u, signChar := n, sp.plus;
    } else {
      u, signChar := -n, '-';
    }
    PrintNum(out, sp, signChar, u, base);
  }

  method PutConversion(out: Sink, c: char, sp0: Spec, words: Words, strings: int -> string, a: nat, radix: nat)
    returns (next: nat)
    requires 2 <= radix <= 16 && c != 'b' && c != 'B'
    modifies out
    ensures var r := Convert(c, sp0, words, strings, a, radix); out.text == old(out.text) + r.0 && next == r.1
  {
    hide Field, StringField, SignedField;
    var w := words(a) % WORD;
    var sp := sp0;
    next := a + 1;
    match c
    case 'c' => out.Putc((w % 256) as char);
    case 's' =>
      var p := if w == 0 then "" else strings(w);
      PutString(out, sp, p);
    case 'o' | 'O' => PrintNum(out, sp, NUL, w, 8);
    case 'd' | 'i' | 'D' => PrintSigned(out, sp, w, 10);
    case 'u' | 'U' => PrintNum(out, sp, NUL, w, 10);
    case 'p' =>
      sp := sp.(zero := true, width := 8);
      out.Putc('0');
      out.Putc('x');
      PrintNum(out, sp, NUL, w, 16);
    case 'x' | 'X' => PrintNum(out, sp, NUL, w, 16);
    case 'z' | 'Z' => PrintSigned(out, sp, w, 16);
    case 'r' | 'R' => PrintSigned(out, sp, w, radix);
    case 'n' | 'N' => PrintNum(out, sp, NUL, w, radix);
    case _ =>
      next := a;
      if c != NUL { out.Putc(c); }
  }

  /** Everything a format prints from i on. */
  function Render(fmt: string, i: nat, words: Words, strings: int -> string, a: nat, radix: nat): string
    requires CString(fmt) && i < |fmt| && 2 <= radix <= 16
    decreases |fmt| - i
  {
    if fmt[i] == NUL then ""
    else if fmt[i] != '%' then [fmt[i]] + Render(fmt, i + 1, words, strings, a, radix)
    else
      var s := Directive(fmt, i + 1, words, a);
      var r := Convert(fmt[s.i], s.sp, words, strings, s.a, radix);
      r.0 + Render(fmt, if fmt[s.i] == NUL then s.i else s.i + 1, words, strings, r.1, radix)
  }

  /** No %b from i on; its register decoding is not modelled. */
  ghost predicate NoBits(fmt: string, i: nat, words: Words, strings: int -> string, a: nat, radix: nat)
    requires CString(fmt) && i < |fmt| && 2 <= radix <= 16
    decreases |fmt| - i
  {
    if fmt[i] == NUL then true
    else if fmt[i] != '%' then NoBits(fmt, i + 1, words, strings, a, radix)
    else
      var s := Directive(fmt, i + 1, words, a);
      var r := Convert(fmt[s.i], s.sp, words, strings, s.a, radix);
      fmt[s.i] != 'b' && fmt[s.i] != 'B'
        && NoBits(fmt, if fmt[s.i] == NUL then s.i else s.i + 1, words, strings, r.1, radix)
  }

  /** _doprnt(fmt, args, radix, putc, putc_arg) */
  method Print(out: Sink, fmt: string, words: Words, strings: int -> string, radix: nat)
    requires CString(fmt) && 2 <= radix <= 16 && NoBits(fmt, 0, words, strings, 0, radix)
    modifies out
    ensures out.text == old(out.text) + Render(fmt, 0, words, strings, 0, radix)
  {
    hide Convert, Directive;
    var i, a := 0, 0;
    while fmt[i] != NUL
      invariant i < |fmt| && NoBits(fmt, i, words, strings, a, radix)
      invariant out.text + Render(fmt, i, words, strings, a, radix) == old(out.text) +
        Render(fmt, 0, words, strings, 0, radix)
      decreases |fmt| - i
    {
      if fmt[i] != '%' {
        out.Putc(fmt[i]);
        i := i + 1;
      } else {
        var s := ScanDirective(fmt, i + 1, words, a);
        ghost var r := Convert(fmt[s.i], s.sp, words, strings, s.a, radix);
        ghost var rest := Render(fmt, if fmt[s.i] == NUL then s.i else s.i + 1, words, strings, r.1, radix);
        assert Render(fmt, i, words, strings, a, radix) == r.0 + rest;
        ghost var t := out.text;
        a := PutConversion(out, fmt[s.i], s.sp, words, strings, s.a, radix);
        assert out.text + rest == t + (r.0 + rest);
        i := if fmt[s.i] == NUL then s.i else s.i + 1;
      }
    }
  }

  // ----- Printing and reading back -----

  /** The base of a number conversion. */
  function BaseOf(c: char, radix: nat): nat {
    match c
    case 'o' | 'O' => 8
    case 'x' | 'X' | 'z' | 'Z' => 16
    case 'r' | 'R' | 'n' | 'N' => radix
    case _ => 10
  }

  /** Every signed conversion is undone by strtol in the same base, whatever the
      flags but '+', the width and the precision. */
  lemma SignedConversionsReadBack(c: char, sp: Spec, words: Words, strings: int -> string, a: nat, radix: nat,
                                  rest: string)
    requires c in "diDzZrR" && 2 <= radix <= 16 && CString(rest) && Stops(rest[0]) && (sp.plus == NUL || sp.plus == ' ')
    ensures var text := Convert(c, sp, words, strings, a, radix).0;
      && CString(text + rest)
      && var r := SignedSubject(text + rest, BaseOf(c, radix));
         Signed(Number(text + rest, r)) == Signed(words(a) % WORD) && r.end <= |text| && forall i {:trigger text[i]} ::
           r.end <= i < |text| ==> text[i] == ' '
  {
    hide Field, Signed, SignedSubject, Number, Digits;
    var n := Signed(words(a) % WORD);
    var base := BaseOf(c, radix);
    assert Convert(c, sp, words, strings, a, radix).0 == SignedField(sp, words(a) % WORD, base);
    SignedRoundTrip(sp, n, base, rest);
    TrailingBlanks(sp, SignChar(sp, n), Magnitude(n), base);
  }

  /** And every unsigned one by strtoul. */
  lemma UnsignedConversionsReadBack(c: char, sp: Spec, words: Words, strings: int -> string, a: nat, radix: nat,
                                    rest: string)
    requires c in "uUoOxXnN" && 2 <= radix <= 16 && CString(rest) && Stops(rest[0])
    ensures var text := Convert(c, sp, words, strings, a, radix).0;
      && CString(text + rest)
      && var r := UnsignedSubject(text + rest, BaseOf(c, radix));
         Number(text + rest, r) == words(a) % WORD && r.end <= |text| && forall i {:trigger text[i]} ::
           r.end <= i < |text| ==> text[i] == ' '
  {
    hide Field, UnsignedSubject, Number, Digits;
    var u := words(a) % WORD;
    var base := BaseOf(c, radix);
    assert Convert(c, sp, words, strings, a, radix).0 == Field(sp, NUL, u, base);
    UnsignedRoundTrip(sp, u, base, rest);
    TrailingBlanks(sp, NUL, u, base);
  }

  /** What follows the last digit of a field is blanks. */
  lemma TrailingBlanks(sp: Spec, sign: char, u: nat, base: nat)
    requires 2 <= base <= 16
    ensures var f, n := Field(sp, sign, u, base), Trailing(sp, sign, u, base);
      0 <= n <= |f| && forall i {:trigger f[i]} :: |f| - n <= i < |f| ==> f[i] == ' '
  {
    hide Digits, Padding, PrefixOf;
    TrailingNat(sp, sign, u, base);
  }

  /** A format that asks for one conversion prints one field. */
  lemma OneDirective(sp: Spec, c: char, words: Words, strings: int -> string, radix: nat)
    requires Writable(sp) && Ends(c) && c != NUL && 2 <= radix <= 16
    ensures var fmt := "%" + SpecText(sp) + [c, NUL];
      CString(fmt) && Render(fmt, 0, words, strings, 0, radix) == Convert(c, sp, words, strings, 0, radix).0
      && (c != 'b' && c != 'B' ==> NoBits(fmt, 0, words, strings, 0, radix))
  {
    hide SpecText, Convert, Directive;
    var fmt := "%" + SpecText(sp) + [c, NUL];
    var e := 1 + |SpecText(sp)|;
    assert fmt[0] == '%' && fmt[e] == c && fmt[e + 1] == NUL;
    assert fmt[1..e] == SpecText(sp);
    SpecReadBack(fmt, 1, sp, words, 0);
    assert Directive(fmt, 1, words, 0) == Scan(sp, e, 0);
    var r := Convert(c, sp, words, strings, 0, radix);
    assert Render(fmt, e + 1, words, strings, r.1, radix) == "";
    assert r.0 + "" == r.0;
  }

  /** What %d with these flags prints of n. */
  method PrintOne(sp: Spec, n: int, words: Words, strings: int -> string) returns (text: string)
    requires Writable(sp) && -WORD / 2 <= n < WORD / 2 && words(0) == n
    ensures text == Field(sp, SignChar(sp, n), Magnitude(n), 10)
  {
    hide SpecText, Field, Render, NoBits;
    var out := new Sink();
    var fmt := "%" + SpecText(sp) + ['d', NUL];
    OneDirective(sp, 'd', words, strings, 10);
    Print(out, fmt, words, strings, 10);
    WordBack(n);
    text := out.text;
    assert "" + Field(sp, SignChar(sp, n), Magnitude(n), 10) == Field(sp, SignChar(sp, n), Magnitude(n), 10);
  }

  /** From a number through _doprnt to its text, and through strtol back. */
  method PrintThenRead(sp: Spec, n: int, words: Words, strings: int -> string) returns (v: int, end: nat, text: string)
    requires Writable(sp) && sp.plus != '+' && -WORD / 2 <= n < WORD / 2 && words(0) == n
    ensures v == n && end == |text| - Trailing(sp, SignChar(sp, n), Magnitude(n), 10)
    ensures |text| == Max(sp.width, |SignOf(SignChar(sp, n))| + Max(sp.prec, |Digits(Magnitude(n), 10)|))
  {
    hide Field, Digits, Trailing, SignedSubject, Number, Signed, SignOf, DigitValue;
    text := PrintOne(sp, n, words, strings);
    StopsNul();
    SignedRoundTrip(sp, n, 10, [NUL]);
    FieldLength(sp, SignChar(sp, n), Magnitude(n), 10);
    v, end := Strtol.Strtol(text + [NUL], 10);
  }

  lemma StopsNul()
    ensures Stops(NUL) && CString([NUL])
  {
  }

  lemma WordBack(n: int)
    requires -WORD / 2 <= n < WORD / 2
    ensures Signed(n % WORD) == n
  {
    assert n % WORD == if n < 0 then n + WORD else n;
  }
}
