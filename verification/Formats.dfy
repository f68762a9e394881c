/** What a whole format prints, piece by piece: plain text as it stands, each written
    directive with the next word on the stack. */
module Formats {
  import opened MachineWord
  import opened Numerals
  import opened Strtol
  import opened PrintNumber
  import opened Directives
  import opened Doprnt

  /** A directive may take its width or its precision from the stack ('*') and have
      an 'l' before its conversion character. */
  datatype Piece = Text(t: string) | Ask(sp: Spec, starWidth: bool, starPrec: bool, long: bool, c: char)

  /** Text without '%' and NUL, or a directive as it can be written. */
  predicate Proper(p: Piece) {
    match p
    case Text(t) => PlainText(t)
    case Ask(sp, _, _, _, c) => Writable(sp) && Ends(c) && c != NUL && c != 'b' && c != 'B'
  }

  predicate PlainText(t: string) {
    forall k {:trigger t[k]} :: 0 <= k < |t| ==> t[k] != '%' && t[k] != NUL
  }

  function Written(p: Piece): string {
    match p
    case Text(t) => t
    case Ask(sp, w, d, l, c) => "%" + AskText(sp, w, d, l) + [c]
  }

  function WidthPart(sp: Spec, star: bool): string { if star then "*" else WidthText(sp) }

  function PrecPart(sp: Spec, star: bool): string { if star then ".*" else PrecisionText(sp) }

  function AskText(sp: Spec, starWidth: bool, starPrec: bool, long: bool): string {
    FlagText(sp) + (ZeroText(sp) + (WidthPart(sp, starWidth) + (PrecPart(sp, starPrec) + if long then "l" else "")))
  }

  /** What a directive asks for once its stars are filled in: a negative width stands
      for '-', or takes a '-' back. */
  function Filled(sp: Spec, starWidth: bool, starPrec: bool, words: Words, a: nat): Spec {
    var w, b := Signed(words(a)), if starWidth then a + 1 else a;
    var sp1 := if !starWidth then sp.(width := if sp.width < 0 then 0 else sp.width)
               else if w < 0 then sp.(width := -w, ladjust := !sp.ladjust) else sp.(width := w);
    if starPrec then sp1.(prec := Signed(words(b))) else sp1.(prec := if sp.prec < 0 then -1 else sp.prec)
  }

  /** How many words the stars take. */
  function Stars(starWidth: bool, starPrec: bool): nat {
    (if starWidth then 1 else 0) + (if starPrec then 1 else 0)
  }

  function FormatText(pieces: seq<Piece>): string {
    if pieces == [] then "" else Written(pieces[0]) + FormatText(pieces[1..])
  }

  /** The conversions that take a word from the stack. */
  predicate TakesWord(c: char) { c in "csodiDOuUpxXzZrRnN" }

  function Next(p: Piece, a: nat): nat {
    match p
    case Text(_) => a
    case Ask(_, w, d, _, c) => a + Stars(w, d) + if TakesWord(c) then 1 else 0
  }

  /** Text for text, and for a directive its conversion of the word that is due. */
  function PieceText(p: Piece, words: Words, strings: int -> string, a: nat, radix: nat): string
    requires 2 <= radix <= 16
  {
    match p
    case Text(t) => t
    case Ask(sp, w, d, _, c) => Convert(c, Filled(sp, w, d, words, a), words, strings, a + Stars(w, d), radix).0
  }

  function Printed(pieces: seq<Piece>, words: Words, strings: int -> string, a: nat, radix: nat): string
    requires 2 <= radix <= 16
  {
    if pieces == [] then ""
    else
      PieceText(pieces[0], words, strings, a, radix)
      + Printed(pieces[1..], words, strings, Next(pieces[0], a), radix)
  }

  function Taken(pieces: seq<Piece>, a: nat): nat {
    if pieces == [] then a else Taken(pieces[1..], Next(pieces[0], a))
  }

  /** Each conversion takes its own word and no other. */
  lemma ConvertMoves(c: char, sp: Spec, words: Words, strings: int -> string, a: nat, radix: nat)
    requires 2 <= radix <= 16
    ensures Convert(c, sp, words, strings, a, radix).1 == if TakesWord(c) then a + 1 else a
  {
    hide Field, StringField, SignedField;
  }

  lemma TextStep(fmt: string, i: nat, words: Words, strings: int -> string, a: nat, radix: nat)
    requires CString(fmt) && i + 1 < |fmt| && 2 <= radix <= 16 && fmt[i] != '%' && fmt[i] != NUL
    ensures Render(fmt, i, words, strings, a, radix) == [fmt[i]] + Render(fmt, i + 1, words, strings, a, radix)
    ensures NoBits(fmt, i, words, strings, a, radix) <==> NoBits(fmt, i + 1, words, strings, a, radix)
  {
  }

  /** Plain text from i to e comes out as it stands. */
  lemma {:induction false} TextRun(fmt: string, i: nat, e: nat, words: Words, strings: int -> string, a: nat,
                                   radix: nat)
    requires CString(fmt) && i <= e < |fmt| && 2 <= radix <= 16
    requires forall k {:trigger fmt[k]} :: i <= k < e ==> fmt[k] != '%' && fmt[k] != NUL
    ensures Render(fmt, i, words, strings, a, radix) == fmt[i..e] + Render(fmt, e, words, strings, a, radix)
    ensures NoBits(fmt, i, words, strings, a, radix) <==> NoBits(fmt, e, words, strings, a, radix)
    decreases e - i
  {
    hide Render, NoBits;
    if i == e {
      assert fmt[i..e] == "";
    } else {
      TextStep(fmt, i, words, strings, a, radix);
      TextRun(fmt, i + 1, e, words, strings, a, radix);
      assert fmt[i..e] == [fmt[i]] + fmt[i + 1..e];
    }
  }

  /** A format without '%' before its first NUL prints what stands before that. */
  lemma TextPrinted(fmt: string, e: nat, words: Words, strings: int -> string, radix: nat)
    requires CString(fmt) && e < |fmt| && fmt[e] == NUL && PlainText(fmt[..e]) && 2 <= radix <= 16
    ensures Render(fmt, 0, words, strings, 0, radix) == fmt[..e] && NoBits(fmt, 0, words, strings, 0, radix)
  {
    hide Convert, Directive;
    forall k | 0 <= k < e ensures fmt[k] != '%' && fmt[k] != NUL { assert fmt[k] == fmt[..e][k]; }
    TextRun(fmt, 0, e, words, strings, 0, radix);
    assert fmt[0..e] == fmt[..e] && Render(fmt, e, words, strings, 0, radix) == "";
  }

  /** A '%' with nothing behind it prints nothing. */
  lemma LonePercent(fmt: string, i: nat, words: Words, strings: int -> string, a: nat, radix: nat)
    requires CString(fmt) && i + 1 < |fmt| && fmt[i] == '%' && fmt[i + 1] == NUL && 2 <= radix <= 16
    ensures Render(fmt, i, words, strings, a, radix) == ""
  {
    hide Convert;
    assert Convert(NUL, START, words, strings, a, radix).0 == "" by { NothingConverted(words, strings, a, radix); }
  }

  lemma NothingConverted(words: Words, strings: int -> string, a: nat, radix: nat)
    requires 2 <= radix <= 16
    ensures Convert(NUL, START, words, strings, a, radix) == ("", a)
  {
  }

  /** A piece written at i is printed, and the rest goes on with the next word. */
  lemma PieceAt(fmt: string, i: nat, p: Piece, words: Words, strings: int -> string, a: nat, radix: nat)
    requires CString(fmt) && Proper(p) && 2 <= radix <= 16
    requires i + |Written(p)| < |fmt| && fmt[i..i + |Written(p)|] == Written(p)
    ensures var e, b := i + |Written(p)|, Next(p, a);
      && Render(fmt, i, words, strings, a, radix) ==
        PieceText(p, words, strings, a, radix) + Render(fmt, e, words, strings, b, radix)
      && (NoBits(fmt, i, words, strings, a, radix) <==> NoBits(fmt, e, words, strings, b, radix))
  {
    hide Convert, Directive, AskText, Filled, Stars, Render, NoBits, Writable, Ends;
    var e := i + |Written(p)|;
    match p
    case Text(t) =>
      forall k | i <= k < e ensures fmt[k] != '%' && fmt[k] != NUL { assert fmt[k] == fmt[i..e][k - i] == t[k - i]; }
      TextRun(fmt, i, e, words, strings, a, radix);
    case Ask(sp, w, d, l, c) =>
      var asked := Filled(sp, w, d, words, a);
      AskAt(fmt, i, sp, w, d, l, c, words, a);
      ConvertMoves(c, asked, words, strings, a + Stars(w, d), radix);
      DirectiveAt(fmt, i, asked, e - 1, a + Stars(w, d), words, strings, a, radix);
      DirectiveNoBits(fmt, i, asked, e - 1, a + Stars(w, d), words, strings, a, radix);
  }

  lemma AskAt(fmt: string, i: nat, sp: Spec, w: bool, d: bool, l: bool, c: char, words: Words, a: nat)
    requires CString(fmt) && Writable(sp) && Ends(c)
    requires var t := "%" + AskText(sp, w, d, l) + [c]; i + |t| < |fmt| && fmt[i..i + |t|] == t
    ensures var e := i + |AskText(sp, w, d, l)| + 1;
      && fmt[i] == '%' && fmt[e] == c
      && Directive(fmt, i + 1, words, a) == Scan(Filled(sp, w, d, words, a), e, a + Stars(w, d))
  {
    hide Directive, AskText, Filled, Stars, Writable, Ends;
    var e := i + |AskText(sp, w, d, l)| + 1;
    Halves(fmt, i, "%" + AskText(sp, w, d, l), [c]);
    Halves(fmt, i, "%", AskText(sp, w, d, l));
    assert fmt[i] == fmt[i..i + 1][0] && fmt[e] == fmt[e..e + 1][0];
    AskReadBack(fmt, i + 1, sp, w, d, l, words, a);
  }

  /** Scanning a written directive recovers it, its stars filled in. */
  lemma AskReadBack(fmt: string, i: nat, sp: Spec, w: bool, d: bool, l: bool, words: Words, a: nat)
    requires Writable(sp) && CString(fmt)
    requires var e := i + |AskText(sp, w, d, l)|; e < |fmt| && fmt[i..e] == AskText(sp, w, d, l) && Ends(fmt[e])
    ensures var e := i + |AskText(sp, w, d, l)|;
      Directive(fmt, i, words, a) == Scan(Filled(sp, w, d, words, a), e, a + Stars(w, d))
  {
    hide WidthText, PrecisionText, FlagText, ZeroText, WidthPart, PrecPart, Filled, Directive, Ends, Stars, Writable;
    Slices(fmt, i, FlagText(sp), ZeroText(sp), WidthPart(sp, w), PrecPart(sp, d), if l then "l" else "");
    var i4 := i + |FlagText(sp)| + |ZeroText(sp)| + |WidthPart(sp, w)| + |PrecPart(sp, d)|;
    assert l ==> fmt[i4] == fmt[i4..i4 + 1][0];
    AskScanned(fmt, i, sp, w, d, l, words, a);
  }

  lemma AskScanned(fmt: string, i: nat, sp: Spec, w: bool, d: bool, l: bool, words: Words, a: nat)
    requires Writable(sp) && CString(fmt)
    requires var i1 := i + |FlagText(sp)|; var i2 := i1 + |ZeroText(sp)|; var i3 := i2 + |WidthPart(sp, w)|;
      var i4 := i3 + |PrecPart(sp, d)|; var e := if l then i4 + 1 else i4;
      && e < |fmt| && fmt[i..i1] == FlagText(sp) && fmt[i1..i2] == ZeroText(sp) && fmt[i2..i3] == WidthPart(sp, w)
      && fmt[i3..i4] == PrecPart(sp, d) && (l ==> fmt[i4] == 'l') && Ends(fmt[e])
    ensures var i4 := i + |FlagText(sp)| + |ZeroText(sp)| + |WidthPart(sp, w)| + |PrecPart(sp, d)|;
      Directive(fmt, i, words, a) == Scan(Filled(sp, w, d, words, a), if l then i4 + 1 else i4, a + Stars(w, d))
  {
    hide Flags, ZeroFlag, Width, Precision, WidthPart, PrecPart, FlagText, ZeroText, Signed, Filled;
    var i1 := i + |FlagText(sp)|;
    var i2 := i1 + |ZeroText(sp)|;
    var i3 := i2 + |WidthPart(sp, w)|;
    var i4 := i3 + |PrecPart(sp, d)|;
    var s1 := Scan(START.(alt := sp.alt, ladjust := sp.ladjust, plus := sp.plus), i1, a);
    var s2 := Scan(s1.sp.(zero := sp.zero), i2, a);
    var b := if w then a + 1 else a;
    var s3 := Scan(Filled(sp, w, false, words, a).(prec := -1), i3, b);
    FilledIn(sp, w, d, words, a);
    StarLengths(sp);
    PrecPartRead(fmt, i3, s3, sp, d, words);
    WidthPartRead(fmt, i2, s2, sp, w, words);
    ZeroReadBack(fmt, i1, s1, sp);
    FlagsReadBack(fmt, i, sp);
    assert Width(fmt, s2, words) == s3;
    assert Precision(fmt, s3, words) == Scan(Filled(sp, w, d, words, a), i4, a + Stars(w, d));
  }

  lemma StarLengths(sp: Spec)
    ensures |WidthPart(sp, true)| == 1 && |PrecPart(sp, true)| == 2
  {
  }

  /** Filling in the width, then the precision. */
  lemma FilledIn(sp: Spec, w: bool, d: bool, words: Words, a: nat)
    requires Writable(sp)
    ensures var b, v := if w then a + 1 else a, Signed(words(a));
      var s := START.(alt := sp.alt, ladjust := sp.ladjust, plus := sp.plus, zero := sp.zero);
      var s3 := Filled(sp, w, false, words, a).(prec := -1);
      && s3 == (if !w then s.(width := sp.width) else if v < 0 then s.(ladjust := !s.ladjust, width := -v)
                else s.(width := v))
      && Filled(sp, w, d, words, a) == s3.(prec := if d then Signed(words(b)) else sp.prec)
  {
    hide Signed;
  }

  /** One directive, once it is scanned. */
  lemma DirectiveAt(fmt: string, i: nat, sp: Spec, e: nat, b: nat, words: Words, strings: int -> string, a: nat,
                    radix: nat)
    requires CString(fmt) && i < e && e + 1 < |fmt| && fmt[i] == '%' && 2 <= radix <= 16
    requires Directive(fmt, i + 1, words, a) == Scan(sp, e, b) && fmt[e] != NUL
    ensures var r := Convert(fmt[e], sp, words, strings, b, radix);
      Render(fmt, i, words, strings, a, radix) == r.0 + Render(fmt, e + 1, words, strings, r.1, radix)
  {
    hide Convert, Directive;
    var r := Convert(fmt[e], sp, words, strings, b, radix);
    var rest := Render(fmt, e + 1, words, strings, r.1, radix);
    hide Render;
    assert Render(fmt, i, words, strings, a, radix) == r.0 + rest by { UnfoldRender(fmt, i, words, strings, a, radix); }
  }

  lemma UnfoldRender(fmt: string, i: nat, words: Words, strings: int -> string, a: nat, radix: nat)
    requires CString(fmt) && i + 1 < |fmt| && fmt[i] == '%' && 2 <= radix <= 16
    ensures var s := Directive(fmt, i + 1, words, a);
      var r := Convert(fmt[s.i], s.sp, words, strings, s.a, radix);
      Render(fmt, i, words, strings, a, radix) ==
      r.0 + Render(fmt, if fmt[s.i] == NUL then s.i else s.i + 1, words, strings, r.1, radix)
  {
    hide Convert, Directive;
  }

  lemma DirectiveNoBits(fmt: string, i: nat, sp: Spec, e: nat, b: nat, words: Words, strings: int -> string, a: nat,
                        radix: nat)
    requires CString(fmt) && i < e && e + 1 < |fmt| && fmt[i] == '%' && 2 <= radix <= 16
    requires Directive(fmt, i + 1, words, a) == Scan(sp, e, b) && fmt[e] != NUL && fmt[e] != 'b' && fmt[e] != 'B'
    ensures NoBits(fmt, i, words, strings, a, radix) <==>
      NoBits(fmt, e + 1, words, strings, Convert(fmt[e], sp, words, strings, b, radix).1, radix)
  {
    hide Convert, Directive;
  }

  lemma Halves(fmt: string, i: nat, a: string, b: string)
    requires i + |a + b| <= |fmt| && fmt[i..i + |a + b|] == a + b
    ensures fmt[i..i + |a|] == a && fmt[i + |a|..i + |a| + |b|] == b
  {
    var t := fmt[i..i + |a + b|];
    assert fmt[i..i + |a|] == t[..|a|] == a;
    assert fmt[i + |a|..i + |a| + |b|] == t[|a|..] == b;
  }

  lemma Slices(fmt: string, i: nat, a: string, b: string, c: string, d: string, e: string)
    requires var n := i + |a + (b + (c + (d + e)))|; n <= |fmt| && fmt[i..n] == a + (b + (c + (d + e)))
    ensures var i1 := i + |a|; var i2 := i1 + |b|; var i3 := i2 + |c|; var i4 := i3 + |d|;
      && fmt[i..i1] == a && fmt[i1..i2] == b && fmt[i2..i3] == c && fmt[i3..i4] == d && fmt[i4..i4 + |e|] == e
  {
    Halves(fmt, i, a, b + (c + (d + e)));
    Halves(fmt, i + |a|, b, c + (d + e));
    Halves(fmt, i + |a| + |b|, c, d + e);
    Halves(fmt, i + |a| + |b| + |c|, d, e);
  }

  lemma PrecPartRead(fmt: string, i: nat, s: Scan, sp: Spec, star: bool, words: Words)
    requires CString(fmt) && sp.prec >= -1 && s.i == i && s.sp.prec == -1
    requires var e := i + |PrecPart(sp, star)|; e < |fmt| && fmt[i..e] == PrecPart(sp, star) && EndsOrLong(fmt[e])
    ensures Precision(fmt, s, words) ==
      if star then Scan(s.sp.(prec := Signed(words(s.a))), i + 2, s.a + 1)
      else Scan(s.sp.(prec := sp.prec), i + |PrecPart(sp, false)|, s.a)
    ensures NotFlag(fmt[i]) && !IsDecimal(fmt[i]) && fmt[i] != '*'
  {
    hide Signed, Decimal, PrecisionText;
    if star {
      assert fmt[i..i + 2][0] == fmt[i] && fmt[i..i + 2][1] == fmt[i + 1];
    } else {
      PrecisionReadBack(fmt, i, s, sp, words);
    }
  }

  lemma WidthPartRead(fmt: string, i: nat, s: Scan, sp: Spec, star: bool, words: Words)
    requires CString(fmt) && sp.width >= 0 && s.i == i && s.sp.width == 0
    requires var e := i + |WidthPart(sp, star)|;
      e < |fmt| && fmt[i..e] == WidthPart(sp, star) && NotFlag(fmt[e]) && !IsDecimal(fmt[e]) && fmt[e] != '*'
    ensures Width(fmt, s, words) ==
      if !star then Scan(s.sp.(width := sp.width), i + |WidthPart(sp, false)|, s.a)
      else var w := Signed(words(s.a));
        Scan(if w < 0 then s.sp.(ladjust := !s.sp.ladjust, width := -w) else s.sp.(width := w), i + 1, s.a + 1)
    ensures NotFlag(fmt[i]) && fmt[i] != '0'
  {
    hide Signed, Decimal, WidthText;
    if star {
      assert fmt[i..i + 1][0] == fmt[i];
    } else {
      WidthReadBack(fmt, i, s, sp, words);
    }
  }

  lemma FirstPiece(pieces: seq<Piece>, words: Words, strings: int -> string, a: nat, radix: nat)
    requires pieces != [] && 2 <= radix <= 16
    ensures var p, rest := pieces[0], pieces[1..];
      && FormatText(pieces) == Written(p) + FormatText(rest)
      && Printed(pieces, words, strings, a, radix) ==
        PieceText(p, words, strings, a, radix) + Printed(rest, words, strings, Next(p, a), radix)
      && Taken(pieces, a) == Taken(rest, Next(p, a))
  {
    hide Written, Next, PieceText;
  }

  lemma {:induction false} PiecesAt(fmt: string, i: nat, pieces: seq<Piece>, words: Words, strings: int -> string,
                                    a: nat, radix: nat)
    requires CString(fmt) && 2 <= radix <= 16 && forall p {:trigger p in pieces} :: p in pieces ==> Proper(p)
    requires i + |FormatText(pieces)| < |fmt| && fmt[i..i + |FormatText(pieces)|] == FormatText(pieces)
    ensures var e, b := i + |FormatText(pieces)|, Taken(pieces, a);
      && Render(fmt, i, words, strings, a, radix) ==
        Printed(pieces, words, strings, a, radix) + Render(fmt, e, words, strings, b, radix)
      && (NoBits(fmt, i, words, strings, a, radix) <==> NoBits(fmt, e, words, strings, b, radix))
    decreases |pieces|
  {
    hide Convert, Directive, Written, Render, NoBits, Next, PieceText, Proper;
    if pieces == [] {
    } else {
      FirstPiece(pieces, words, strings, a, radix);
      hide FormatText, Printed, Taken;
      var p, rest := pieces[0], pieces[1..];
      var m := i + |Written(p)|;
      assert p in pieces && forall q :: q in rest ==> q in pieces;
      Halves(fmt, i, Written(p), FormatText(rest));
      PieceAt(fmt, i, p, words, strings, a, radix);
      PiecesAt(fmt, m, rest, words, strings, Next(p, a), radix);
      Joined(PieceText(p, words, strings, a, radix), Printed(rest, words, strings, Next(p, a), radix),
        Render(fmt, m + |FormatText(rest)|, words, strings, Taken(rest, Next(p, a)), radix));
    }
  }

  /** A written format prints its pieces in order, each directive with the next word. */
  lemma FormatPrinted(pieces: seq<Piece>, words: Words, strings: int -> string, radix: nat)
    requires 2 <= radix <= 16 && forall p {:trigger p in pieces} :: p in pieces ==> Proper(p)
    ensures var fmt := FormatText(pieces) + [NUL];
      && CString(fmt) && NoBits(fmt, 0, words, strings, 0, radix)
      && Render(fmt, 0, words, strings, 0, radix) == Printed(pieces, words, strings, 0, radix)
  {
    hide Convert, Directive, FormatText, Printed, Taken, Proper;
    var fmt := FormatText(pieces) + [NUL];
    var e := |FormatText(pieces)|;
    assert fmt[0..e] == FormatText(pieces) && fmt[e] == NUL;
    PiecesAt(fmt, 0, pieces, words, strings, 0, radix);
    assert Render(fmt, e, words, strings, Taken(pieces, 0), radix) == "";
  }

  /** _doprnt on a written format. */
  method PrintPieces(out: Sink, pieces: seq<Piece>, words: Words, strings: int -> string, radix: nat)
    requires 2 <= radix <= 16 && forall p {:trigger p in pieces} :: p in pieces ==> Proper(p)
    modifies out
    ensures out.text == old(out.text) + Printed(pieces, words, strings, 0, radix)
  {
    hide Render, NoBits, FormatText, Printed;
    FormatPrinted(pieces, words, strings, radix);
    Print(out, FormatText(pieces) + [NUL], words, strings, radix);
  }

  // ----- What the other conversions print -----

  /** %c prints the low byte of its word. */
  lemma CharPrinted(sp: Spec, words: Words, strings: int -> string, a: nat, radix: nat)
    requires 2 <= radix <= 16
    ensures var t := Convert('c', sp, words, strings, a, radix).0; |t| == 1 && t[0] as int == words(a) % 256
  {
    assert words(a) == WORD * (words(a) / WORD) + words(a) % WORD;
    assert words(a) % WORD % 256 == words(a) % 256;
  }

  /** %s prints the string, as far as the precision allows, with blanks on one side;
      a null pointer prints like the empty string. */
  lemma StringPrinted(sp: Spec, words: Words, strings: int -> string, a: nat, radix: nat)
    requires 2 <= radix <= 16
    ensures var s := if words(a) % WORD == 0 then "" else strings(words(a) % WORD);
      var n := if sp.prec == -1 then Min(|s|, MAXINT) else Max(0, Min(sp.prec, |s|));
      var t := Convert('s', sp, words, strings, a, radix).0;
      if sp.ladjust then n <= |t| && t[..n] == s[..n] && AllBlank(t[n..])
      else n <= |t| && t[|t| - n..] == s[..n] && AllBlank(t[..|t| - n])
  {
    hide Repeat, AllBlank, StringField, ShownLength;
    var s := if words(a) % WORD == 0 then "" else strings(words(a) % WORD);
    StringSides(sp, s);
  }

  lemma StringSides(sp: Spec, s: string)
    ensures var t, n := StringField(sp, s), if sp.prec == -1 then Min(|s|, MAXINT) else Max(0, Min(sp.prec, |s|));
      && n <= |t|
      && if sp.ladjust then t[..n] == s[..n] && AllBlank(t[n..]) else t[|t| - n..] == s[..n] && AllBlank(t[..|t| - n])
  {
    var n := ShownLength(sp, |s|);
    hide Repeat, AllBlank, Counted, ShownLength;
    NoPad();
    Blank(if sp.ladjust then 0 else sp.width - n);
    Blank(if sp.ladjust then sp.width - Counted(sp, |s|) else 0);
    var left := Repeat(' ', if sp.ladjust then 0 else sp.width - n);
    var right := Repeat(' ', if sp.ladjust then sp.width - Counted(sp, |s|) else 0);
    assert StringField(sp, s) == left + s[..n] + right;
    ThreeParts(left, s[..n], right);
  }

  lemma ThreeParts(a: string, b: string, c: string)
    ensures var t := a + b + c;
      && (a == "" ==> t[..|b|] == b && t[|b|..] == c)
      && (c == "" ==> t[|t| - |b|..] == b && t[..|t| - |b|] == a)
  {
  }

  function Min(a: int, b: int): int { if a < b then a else b }

  predicate AllBlank(t: string) { forall i {:trigger t[i]} :: 0 <= i < |t| ==> t[i] == ' ' }

  lemma Blank(n: int)
    ensures AllBlank(Repeat(' ', n))
  {
  }

  /** %p prints "0x" and at least eight digits that read back as the word; a '#' flag
      repeats the prefix and spoils that. */
  lemma PointerPrinted(sp: Spec, words: Words, strings: int -> string, a: nat, radix: nat, rest: string)
    requires 2 <= radix <= 16 && CString(rest) && Stops(rest[0])
    ensures var t := Convert('p', sp, words, strings, a, radix).0;
      && |t| >= 10 && t[..2] == "0x" && CString(t + rest)
      && var r := UnsignedSubject(t + rest, 16);
         (Number(t + rest, r) == words(a) % WORD && r.end == |t|) <==> (!sp.alt || words(a) % WORD == 0)
  {
    hide Field, UnsignedSubject, Number, Stops;
    var sp' := sp.(zero := true, width := 8);
    var w := words(a) % WORD;
    PointerRoundTrip(sp', w, rest);
    FieldLength(sp', NUL, w, 16);
  }

  /** Any other character after the '%' stands for itself and takes nothing. */
  lemma OtherPrinted(c: char, sp: Spec, words: Words, strings: int -> string, a: nat, radix: nat)
    requires 2 <= radix <= 16 && c != NUL && !TakesWord(c)
    ensures Convert(c, sp, words, strings, a, radix) == ([c], a)
  {
  }

  /** Where the padding of a number goes: with the '0' flag between the sign and
      prefix and the digits, else with '-' behind everything, else in front. */
  lemma FieldSides(sp: Spec, sign: char, u: nat, base: nat)
    requires 2 <= base <= 16
    ensures var f, front, ds := Field(sp, sign, u, base), SignOf(sign) + PrefixOf(sp, u, base), Digits(u, base);
      && (sp.zero || !sp.ladjust ==> |ds| <= |f| && f[|f| - |ds|..] == ds)
      && (sp.zero || sp.ladjust ==> |front| <= |f| && f[..|front|] == front)
      && (sp.width <= 0 && sp.prec <= |ds| ==> f == front + ds)
  {
    hide Digits, Repeat, SignOf, PrefixOf, Zeros, Padding;
    var front, ds := SignOf(sign) + PrefixOf(sp, u, base), Digits(u, base);
    var pad, n := Padding(sp, sign, u, base), Trailing(sp, sign, u, base);
    NoPad();
    var b := Repeat(' ', if sp.zero || sp.ladjust then 0 else pad);
    var z := Repeat('0', Zeros(sp, u, base) + if sp.zero then pad else 0);
    var t := Repeat(' ', n);
    var f := Field(sp, sign, u, base);
    assert f == b + front + z + ds + t;
    PlainField(sp, sign, u, base);
    Sides(b, front, z, ds, t);
  }

  lemma Sides(b: string, front: string, z: string, ds: string, t: string)
    ensures var f := b + front + z + ds + t;
      && (t == "" ==> |ds| <= |f| && f[|f| - |ds|..] == ds)
      && (b == "" ==> |front| <= |f| && f[..|front|] == front)
      && (b == "" && z == "" && t == "" ==> f == front + ds)
  {
  }

  lemma PlainField(sp: Spec, sign: char, u: nat, base: nat)
    requires 2 <= base <= 16
    ensures sp.prec <= |Digits(u, base)| ==> Zeros(sp, u, base) == 0
    ensures sp.width <= 0 ==> Padding(sp, sign, u, base) == 0
  {
    hide Digits;
  }

  /** A signed conversion without width and precision: the sign or what the flags put
      in its place, then the digits of the magnitude, marked where '#' asks for it. */
  lemma PlainSigned(c: char, sp: Spec, words: Words, strings: int -> string, a: nat, radix: nat)
    requires c in "diDzZrR" && 2 <= radix <= 16 && sp.width <= 0 && sp.prec <= 0
    ensures var n := Signed(words(a) % WORD);
      var base := if c in "zZ" then 16 else if c in "rR" then radix else 10;
      Convert(c, sp, words, strings, a, radix).0 ==
      (if n < 0 then "-" else if sp.plus == NUL then "" else [sp.plus]) + Marked(sp.alt, Magnitude(n), base)
  {
    hide Field, Signed, Digits, Marked;
    var n := Signed(words(a) % WORD);
    PlainIs(sp, SignChar(sp, n), Magnitude(n), if c in "zZ" then 16 else if c in "rR" then radix else 10);
  }

  lemma PlainIs(sp: Spec, sign: char, u: nat, base: nat)
    requires 2 <= base <= 16 && sp.width <= 0 && sp.prec <= 0
    ensures Field(sp, sign, u, base) == SignOf(sign) + Marked(sp.alt, u, base)
  {
    hide Field, Digits, SignOf, Marked, PrefixOf;
    MarkedIs(sp, u, base);
    assert Field(sp, sign, u, base) == SignOf(sign) + PrefixOf(sp, u, base) + Digits(u, base) by {
      FieldSides(sp, sign, u, base);
    }
    Joined(SignOf(sign), PrefixOf(sp, u, base), Digits(u, base));
  }

  lemma MarkedIs(sp: Spec, u: nat, base: nat)
    requires 2 <= base <= 16
    ensures PrefixOf(sp, u, base) + Digits(u, base) == Marked(sp.alt, u, base)
  {
    hide Digits;
  }

  lemma Joined(a: string, b: string, c: string)
    ensures a + b + c == a + (b + c)
  {
  }

  /** And an unsigned one, which takes the word as it is. */
  lemma PlainUnsigned(c: char, sp: Spec, words: Words, strings: int -> string, a: nat, radix: nat)
    requires c in "uUoOxXnN" && 2 <= radix <= 16 && sp.width <= 0 && sp.prec <= 0
    ensures var base := if c in "oO" then 8 else if c in "xX" then 16 else if c in "nN" then radix else 10;
      Convert(c, sp, words, strings, a, radix).0 == Marked(sp.alt, words(a) % WORD, base)
  {
    hide Field, Digits, Marked;
    var base := if c in "oO" then 8 else if c in "xX" then 16 else if c in "nN" then radix else 10;
    PlainIs(sp, NUL, words(a) % WORD, base);
    assert SignOf(NUL) == "";
  }

  /** The numeral, behind "0" in base 8 and "0x" in base 16 if it is to be marked; zero
      never is. */
  function Marked(alt: bool, u: nat, base: nat): string
    requires 2 <= base <= 16
  {
    if alt && u > 0 && base == 8 then "0" + Digits(u, 8)
    else if alt && u > 0 && base == 16 then "0x" + Digits(u, 16)
    else Digits(u, base)
  }

  predicate LowerDigits(s: string) {
    forall i {:trigger s[i]} :: 0 <= i < |s| ==> '0' <= s[i] <= '9' || 'a' <= s[i] <= 'f'
  }

  /** Every digit printed is decimal or a lower-case letter, with %X too. */
  lemma {:induction false} LowerCase(u: nat, base: nat)
    requires 2 <= base <= 16
    ensures LowerDigits(Digits(u, base))
    decreases u
  {
    hide LowerDigits, DigitChar, Digits;
    LastDigit(u, base);
    NoDigits();
    if u >= base {
      LowerCase(u / base, base);
    }
    LowerDigit(if u < base then "" else Digits(u / base, base), u % base);
  }

  lemma LastDigit(u: nat, base: nat)
    requires 2 <= base <= 16
    ensures u >= base ==> u / base < u
    ensures Digits(u, base) == (if u < base then "" else Digits(u / base, base)) + [DigitChar(u % base)]
  {
    hide DigitChar;
    if u < base {
      assert u % base == u;
    } else {
      Remainder(u, base);
    }
  }

  lemma NoDigits()
    ensures LowerDigits("")
  {
  }

  lemma LowerDigit(s: string, d: nat)
    requires d < 16 && LowerDigits(s)
    ensures LowerDigits(s + [DigitChar(d)])
  {
  }
}
