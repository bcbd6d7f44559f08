/**
 * Formatted output: the character-at-a-time machine of __printf.c printing into
 * the bounded buffer of snprintf.c, against a description field by field.
 */
module Printf {
  import opened Chains
  import opened Numerals
  import Atoi
  import Words

  /** What the caller passes for one conversion: a number (or character), or a string that may be null. */
  datatype Arg = Number(n: int) | Text(s: Option<string>)

  datatype Size = IntSize | LongSize | LlongSize | SizetSize

  // ------------------------------------------------------------------------
  // Fields
  // ------------------------------------------------------------------------

  predicate Modifier(c: char) {
    c == '#' || c == '-' || c == 'l' || c == 'z' || AnyDigit(c)
  }

  predicate NonzeroDigit(c: char) {
    '1' <= c <= '9'
  }

  predicate AnyDigit(c: char) {
    '0' <= c <= '9'
  }

  /** The digits among the modifiers, in order: the field width. */
  function WidthDigits(m: string): string {
    if m == [] then []
    else WidthDigits(m[..|m| - 1]) + if AnyDigit(m[|m| - 1]) then [m[|m| - 1]] else []
  }

  function Width(m: string): nat {
    Eval(WidthDigits(m), 10)
  }

  /** A zero read while the width is still zero asks for zero padding. */
  predicate ZeroPadded(m: string) {
    m != [] && (ZeroPadded(m[..|m| - 1]) || (m[|m| - 1] == '0' && Width(m[..|m| - 1]) == 0))
  }

  /** The number of l's after the last z. */
  function Ls(m: string): nat {
    if m == [] || m[|m| - 1] == 'z' then 0
    else Ls(m[..|m| - 1]) + if m[|m| - 1] == 'l' then 1 else 0
  }

  /** One l is long, two are long long, three are long again, and so on; z starts over. */
  function SizeOf(m: string): Size {
    if Ls(m) == 0 then (if 'z' in m then SizetSize else IntSize)
    else if Ls(m) % 2 == 1 then LongSize else LlongSize
  }

  function Repeat(c: char, n: nat): string {
    seq(n, _ => c)
  }

  /**
   * Text with its prefixes, padded to the field width: on the right, or with zeros
   * after the prefixes, or with blanks before them.
   */
  function Padded(m: string, prefix: string, prefix2: string, body: string): string {
    var len := |prefix| + |prefix2| + |body|;
    var spc: nat := if Width(m) > len then Width(m) - len else 0;
    var fill := Repeat(if ZeroPadded(m) then '0' else ' ', spc);
    if '-' in m then prefix + prefix2 + body + fill
    else if ZeroPadded(m) then prefix + prefix2 + fill + body
    else fill + prefix + prefix2 + body
  }

  function Bits(size: Size): nat {
    if size == LlongSize then ULLONG_WRAP else UINT_WRAP
  }

  function Signed(n: int, wrap: nat): int
    requires wrap > 0
  {
    var w := n % wrap;
    if w < wrap / 2 then w else w - wrap
  }

  /** The value a conversion prints: signed for d, an address for p, otherwise unsigned. */
  function Value(m: string, conv: char, n: int): int {
    if conv == 'p' then n % UINT_WRAP
    else if conv == 'd' then Signed(n, Bits(SizeOf(m)))
    else n % Bits(SizeOf(m))
  }

  function Base(conv: char): (b: nat)
    ensures 8 <= b <= 16
  {
    if conv == 'x' || conv == 'p' then 16 else if conv == 'o' then 8 else 10
  }

  function BasePrefix(m: string, conv: char): string {
    if '#' !in m && conv != 'p' then ""
    else if Base(conv) == 16 then "0x"
    else if Base(conv) == 8 then "0"
    else ""
  }

  predicate NumberConversion(conv: char) {
    conv in "doupx"
  }

  /** Whether the conversion takes an argument, and of which kind. */
  predicate Takes(conv: char, args: seq<Arg>) {
    if NumberConversion(conv) || conv == 'c' then args != [] && args[0].Number?
    else if conv == 's' then args != [] && args[0].Text?
    else true
  }

  function Rest(conv: char, args: seq<Arg>): seq<Arg>
    requires Takes(conv, args)
  {
    if NumberConversion(conv) || conv == 'c' || conv == 's' then args[1..] else args
  }

  /** A character as a string: the null character is the empty one. */
  function CharText(n: int): string {
    if n % 256 == 0 then "" else [(n % 256) as char]
  }

  /** The text of one field. */
  function Field(m: string, conv: char, args: seq<Arg>): string
    requires Takes(conv, args)
  {
    if NumberConversion(conv) then
      var v := Value(m, conv, args[0].n);
      Padded(m, if v < 0 then "-" else "", BasePrefix(m, conv), Numeral(Words.Abs(v), Base(conv)))
    else if conv == 's' then Padded(m, "", "", if args[0].s == None then "(null)" else args[0].s.value)
    else if conv == 'c' then Padded(m, "", "", CharText(args[0].n))
    else Padded(m, "", "", [conv])
  }

  /** An integer's field, from its magnitude, sign and prefix. */
  lemma NumberField(m: string, conv: char, args: seq<Arg>, num: nat, sign: bool, baseprefix: bool)
    requires Takes(conv, args) && NumberConversion(conv) && baseprefix == ('#' in m || conv == 'p')
    requires var v := Value(m, conv, args[0].n); num == Words.Abs(v) && sign == (v < 0)
    ensures Padded(m, if sign then "-" else "",
                   if baseprefix && Base(conv) == 16 then "0x" else if baseprefix && Base(conv) == 8 then "0" else "",
                   Numeral(num, Base(conv)))
         == Field(m, conv, args)
  {
  }

  // ------------------------------------------------------------------------
  // Formats
  // ------------------------------------------------------------------------

  /** The text of a format; after a percent sign, modifiers m have been read. */
  function Render(inField: bool, m: string, fmt: string, args: seq<Arg>): string
    requires Matches(inField, m, fmt, args)
    decreases |fmt|
  {
    if fmt == [] then ""
    else if !inField then
      if fmt[0] == '%' then Render(true, [], fmt[1..], args) else [fmt[0]] + Render(false, [], fmt[1..], args)
    else if Modifier(fmt[0]) then Render(true, m + [fmt[0]], fmt[1..], args)
    else Field(m, fmt[0], args) + Render(false, [], fmt[1..], Rest(fmt[0], args))
  }

  /** The caller passes what the conversions take. */
  predicate Matches(inField: bool, m: string, fmt: string, args: seq<Arg>)
    decreases |fmt|
  {
    if fmt == [] then true
    else if !inField then Matches(fmt[0] == '%', [], fmt[1..], args)
    else if Modifier(fmt[0]) then Matches(true, m + [fmt[0]], fmt[1..], args)
    else Takes(fmt[0], args) && Matches(false, [], fmt[1..], Rest(fmt[0], args))
  }

  /** What a character of the format sends, before what the rest of it sends. */
  function SentBy(inField: bool, m: string, ch: char, args: seq<Arg>): string
    requires inField && !Modifier(ch) ==> Takes(ch, args)
  {
    if !inField then (if ch == '%' then [] else [ch]) else if Modifier(ch) then [] else Field(m, ch, args)
  }

  /** The modifiers and the arguments after it. */
  function ModifiersAfter(inField: bool, m: string, ch: char): string {
    if inField && Modifier(ch) then m + [ch] else []
  }

  function ArgsAfter(inField: bool, ch: char, args: seq<Arg>): seq<Arg>
    requires inField && !Modifier(ch) ==> Takes(ch, args)
  {
    if inField && !Modifier(ch) then Rest(ch, args) else args
  }

  /** What one more character of the format does. */
  lemma RenderStep(inField: bool, m: string, ch: char, rest: string, args: seq<Arg>)
    requires inField && !Modifier(ch) ==> Takes(ch, args)
    ensures var inField' := if inField then Modifier(ch) else ch == '%';
            var m', args' := ModifiersAfter(inField, m, ch), ArgsAfter(inField, ch, args);
            && (Matches(inField, m, [ch] + rest, args) <==> Matches(inField', m', rest, args'))
            && (Matches(inField', m', rest, args') ==>
                  Render(inField, m, [ch] + rest, args) ==
                  SentBy(inField, m, ch, args) + Render(inField', m', rest, args'))
  {
    assert ([ch] + rest)[1..] == rest;
  }

  // ------------------------------------------------------------------------
  // One more modifier
  // ------------------------------------------------------------------------

  lemma WidthSnoc(m: string, c: char)
    ensures Width(m + [c]) == if AnyDigit(c) then Width(m) * 10 + DigitValue(c) else Width(m)
  {
    assert (m + [c])[..|m|] == m;
    if AnyDigit(c) {
      EvalSnoc(WidthDigits(m), c, 10);
    } else {
      assert WidthDigits(m) + [] == WidthDigits(m);
    }
  }

  /** The width is positive once a digit other than zero has been read. */
  lemma {:induction false} WidthPositive(m: string)
    ensures Width(m) > 0 <==> exists j :: 0 <= j < |m| && NonzeroDigit(m[j])
  {
    if m != [] {
      var n := |m| - 1;
      WidthPositive(m[..n]);
      assert m == m[..n] + [m[n]];
      WidthSnoc(m[..n], m[n]);
      assert forall j :: 0 <= j < n ==> m[..n][j] == m[j];
      if Width(m[..n]) > 0 {
        var j :| 0 <= j < n && NonzeroDigit(m[..n][j]);
        assert NonzeroDigit(m[j]);
      }
    }
  }

  lemma ZeroSnoc(m: string, c: char)
    ensures ZeroPadded(m + [c]) <==> ZeroPadded(m) || (c == '0' && Width(m) == 0)
  {
    assert (m + [c])[..|m|] == m;
  }

  /** That is, a zero with no other digit before it. */
  lemma {:induction false} ZeroPaddedIff(m: string)
    ensures ZeroPadded(m) <==> exists i :: 0 <= i < |m| && m[i] == '0' && forall j :: 0 <= j < i ==> !NonzeroDigit(m[j])
  {
    if m != [] {
      var n := |m| - 1;
      var t := m[..n];
      ZeroPaddedIff(t);
      WidthPositive(t);
      assert forall j :: 0 <= j < n ==> t[j] == m[j];
      if ZeroPadded(t) {
        var i :| 0 <= i < n && t[i] == '0' && forall j :: 0 <= j < i ==> !NonzeroDigit(t[j]);
        assert m[i] == '0' && forall j :: 0 <= j < i ==> !NonzeroDigit(m[j]);
      } else if m[n] == '0' && Width(t) == 0 {
        assert forall j :: 0 <= j < n ==> !NonzeroDigit(m[j]);
      }
      if i :| 0 <= i < |m| && m[i] == '0' && forall j :: 0 <= j < i ==> !NonzeroDigit(m[j]) {
        assert i < n ==> t[i] == '0' && forall j :: 0 <= j < i ==> !NonzeroDigit(t[j]);
      }
    }
  }

  lemma SizeSnoc(m: string, c: char)
    ensures SizeOf(m + [c]) ==
            if c == 'l' then (if SizeOf(m) == LongSize then LlongSize else LongSize)
            else if c == 'z' then SizetSize
            else SizeOf(m)
  {
    assert (m + [c])[..|m|] == m;
    assert 'z' in m + [c] <==> 'z' in m || c == 'z';
  }

  /** What one more modifier changes. */
  lemma OneMore(m: string, c: char)
    requires Modifier(c)
    ensures c == '#' || c == '-' || c == 'l' || c == 'z' || c == '0' || NonzeroDigit(c)
    ensures '-' in m + [c] <==> '-' in m || c == '-'
    ensures '#' in m + [c] <==> '#' in m || c == '#'
    ensures SizeOf(m + [c]) == (if c == 'l' then (if SizeOf(m) == LongSize then LlongSize else LongSize)
                                else if c == 'z' then SizetSize
                                else SizeOf(m))
    ensures Width(m + [c]) == if AnyDigit(c) then Width(m) * 10 + DigitValue(c) else Width(m)
    ensures ZeroPadded(m + [c]) <==> ZeroPadded(m) || (c == '0' && Width(m) == 0)
  {
    WidthSnoc(m, c);
    ZeroSnoc(m, c);
    SizeSnoc(m, c);
  }

  // ------------------------------------------------------------------------
  // The buffer of snprintf
  // ------------------------------------------------------------------------

  class Sink {
    const buf: array<char>
    const buflen: nat
    var bufpos: nat
    ghost var sent: string

    /** The buffer starts with as much of the text as it has room for. */
    ghost predicate Valid()
      reads this, buf
    {
      buflen <= buf.Length && bufpos == Words.Min(buflen, |sent|) && buf[..bufpos] == sent[..bufpos]
    }

    constructor (buf: array<char>, buflen: nat)
      requires buflen <= buf.Length
      ensures Valid() && this.buf == buf && this.buflen == buflen && sent == ""
    {
      this.buf, this.buflen, bufpos, sent := buf, buflen, 0, "";
    }

    /** __snprintf_send. */
    method Send(data: string)
      requires Valid()
      modifies this, buf
      ensures Valid() && sent == old(sent) + data
      ensures forall k :: buflen <= k < buf.Length ==> buf[k] == old(buf[k])
    {
      var i := 0;
      while i < |data|
        invariant i <= |data| && sent == old(sent) + data[..i] && Valid()
        invariant forall k :: buflen <= k < buf.Length ==> buf[k] == old(buf[k])
      {
        if bufpos < buflen {
          buf[bufpos] := data[i];
          bufpos := bufpos + 1;
        }
        sent := sent + [data[i]];
        assert data[..i + 1] == data[..i] + [data[i]];
        i := i + 1;
      }
      assert data[..i] == data;
    }
  }

  // ------------------------------------------------------------------------
  // The machine
  // ------------------------------------------------------------------------

  class PF {
    const sink: Sink
    var ap: seq<Arg>
    var charcount: nat
    var inPct: bool
    var size: Size
    var num: nat
    var sign: bool
    var spacing: nat
    var rightspc: bool
    var fillchar: char
    var base: nat
    var baseprefix: bool
    var altformat: bool

    ghost predicate Valid()
      reads this, sink, sink.buf
    {
      sink.Valid() && charcount == |sink.sent|
    }

    /** The fields say what the modifiers m ask for. */
    ghost predicate Recorded(m: string)
      reads this
    {
      && size == SizeOf(m) && spacing == Width(m) && rightspc == ('-' in m)
      && fillchar == (if ZeroPadded(m) then '0' else ' ') && altformat == ('#' in m)
      && !sign && !baseprefix
    }

    constructor (sink: Sink, ap: seq<Arg>)
      requires sink.Valid() && sink.sent == ""
      ensures this.sink == sink && this.ap == ap && Valid() && !inPct && Recorded([])
    {
      this.sink, this.ap, charcount := sink, ap, 0;
      inPct, size, num, sign, spacing := false, IntSize, 0, false, 0;
      rightspc, fillchar, base, baseprefix, altformat := false, ' ', 0, false, false;
    }

    /** __pf_print. */
    method Print(txt: string)
      requires Valid()
      modifies this`charcount, sink, sink.buf
      ensures Valid() && sink.sent == old(sink.sent) + txt
      ensures forall k :: sink.buflen <= k < sink.buf.Length ==> sink.buf[k] == old(sink.buf[k])
    {
      sink.Send(txt);
      charcount := charcount + |txt|;
    }

    /** __pf_endfield. */
    method EndField()
      modifies this`inPct, this`size, this`num, this`sign, this`spacing
      modifies this`rightspc, this`fillchar, this`base, this`baseprefix, this`altformat
      ensures !inPct && Recorded([])
    {
      inPct, size, num, sign, spacing := false, IntSize, 0, false, 0;
      rightspc, fillchar, base, baseprefix, altformat := false, ' ', 0, false, false;
    }

    /** __pf_modifier: afterwards the fields record one modifier more. */
    method ReadModifier(ch: char, ghost m: string)
      requires Recorded(m) && Modifier(ch)
      modifies this`altformat, this`rightspc, this`size, this`spacing, this`fillchar
      ensures Recorded(m + [ch])
    {
      OneMore(m, ch);
      if ch == '#' {
        altformat := true;
      } else if ch == '-' {
        rightspc := true;
      } else if ch == 'l' || ch == 'z' {
        ReadSize(ch);
      } else {
        ReadDigit(ch);
      }
    }

    method ReadSize(ch: char)
      requires ch == 'l' || ch == 'z'
      modifies this`size
      ensures size == if ch == 'z' then SizetSize else if old(size) == LongSize then LlongSize else LongSize
    {
      if ch == 'z' {
        size := SizetSize;
      } else if size == LongSize {
        size := LlongSize;
      } else {
        size := LongSize;
      }
    }

    method ReadDigit(ch: char)
      requires AnyDigit(ch)
      modifies this`spacing, this`fillchar
      ensures spacing == old(spacing) * 10 + DigitValue(ch)
      ensures fillchar == if ch == '0' && old(spacing) == 0 then '0' else old(fillchar)
    {
      if ch == '0' {
        if spacing > 0 {
          spacing := spacing * 10;
        } else {
          fillchar := '0';
        }
      } else {
        spacing := spacing * 10 + DigitValue(ch);
      }
    }

    /** __pf_fill. */
    method Fill(spc: nat)
      requires Valid()
      modifies this`charcount, sink, sink.buf
      ensures Valid() && sink.sent == old(sink.sent) + Repeat(fillchar, spc)
      ensures forall k :: sink.buflen <= k < sink.buf.Length ==> sink.buf[k] == old(sink.buf[k])
    {
      var i := 0;
      while i < spc
        invariant i <= spc && Valid() && sink.sent == old(sink.sent) + Repeat(fillchar, i)
        invariant forall k :: sink.buflen <= k < sink.buf.Length ==> sink.buf[k] == old(sink.buf[k])
      {
        Print([fillchar]);
        assert Repeat(fillchar, i + 1) == Repeat(fillchar, i) + [fillchar];
        i := i + 1;
      }
    }

    /** __pf_printstuff. */
    method PrintStuff(prefix: string, prefix2: string, stuff: string, ghost m: string)
      requires Valid() && spacing == Width(m) && rightspc == ('-' in m)
      requires fillchar == if ZeroPadded(m) then '0' else ' '
      modifies this`charcount, sink, sink.buf
      ensures Valid() && sink.sent == old(sink.sent) + Padded(m, prefix, prefix2, stuff)
      ensures forall k :: sink.buflen <= k < sink.buf.Length ==> sink.buf[k] == old(sink.buf[k])
    {
      var len := |prefix| + |prefix2| + |stuff|;
      var spc := if spacing > len then spacing - len else 0;
      FillWhen(spc > 0 && !rightspc && fillchar != '0', spc);
      Print(prefix);
      Print(prefix2);
      FillWhen(spc > 0 && !rightspc && fillchar == '0', spc);
      Print(stuff);
      FillWhen(spc > 0 && rightspc, spc);
      PaddedParts(m, prefix, prefix2, stuff, spc, old(sink.sent));
    }

    /** __pf_getnum: the magnitude and sign of the value to print. */
    method GetNum(ch: char, ghost m: string)
      requires size == SizeOf(m) && !sign && ap != [] && ap[0].Number?
      modifies this`ap, this`num, this`sign
      ensures ap == old(ap)[1..] && num < ULLONG_WRAP
      ensures var v := Value(m, ch, old(ap)[0].n); num == Words.Abs(v) && sign == (v < 0)
    {
      var n := ap[0].n;
      ap := ap[1..];
      if ch == 'p' {
        num := n % UINT_WRAP;
      } else if ch == 'd' {
        var signednum := Signed(n, Bits(size));
        if signednum < 0 {
          sign := true;
          num := -signednum;
        } else {
          num := signednum;
        }
      } else {
        num := n % Bits(size);
      }
    }

    /** __pf_setbase. */
    method SetBase(ch: char)
      requires NumberConversion(ch) && !baseprefix
      modifies this`base, this`baseprefix
      ensures base == Base(ch) && baseprefix == (altformat || ch == 'p')
    {
      if ch == 'd' || ch == 'u' {
        base := 10;
      } else if ch == 'x' || ch == 'p' {
        base := 16;
      } else {
        base := 8;
      }
      if altformat || ch == 'p' {
        baseprefix := true;
      }
    }

    /** __pf_printnum. */
    method PrintNum(ghost m: string)
      requires Valid() && num < ULLONG_WRAP && 8 <= base <= 16 && spacing == Width(m) && rightspc == ('-' in m)
      requires fillchar == if ZeroPadded(m) then '0' else ' '
      modifies this`charcount, sink, sink.buf
      ensures Valid()
      ensures sink.sent == old(sink.sent) + Padded(m, if sign then "-" else "",
                if baseprefix && base == 16 then "0x" else if baseprefix && base == 8 then "0" else "",
                Numeral(num, base))
      ensures forall k :: sink.buflen <= k < sink.buf.Length ==> sink.buf[k] == old(sink.buf[k])
    {
      var text := ConvertNumber(num, base);
      var bprefix := if baseprefix && base == 16 then "0x" else if baseprefix && base == 8 then "0" else "";
      var sprefix := if sign then "-" else "";
      PrintStuff(sprefix, bprefix, text, m);
    }

    /** The branch of __pf_send for integer conversions. */
    method PrintInteger(ch: char, ghost m: string)
      requires Valid() && Recorded(m) && NumberConversion(ch) && Takes(ch, ap)
      modifies this, sink, sink.buf
      ensures Valid() && sink.sent == old(sink.sent) + Field(m, ch, old(ap)) && ap == old(ap)[1..]
      ensures !inPct && Recorded([])
      ensures forall k :: sink.buflen <= k < sink.buf.Length ==> sink.buf[k] == old(sink.buf[k])
    {
      ghost var args := ap;
      GetNum(ch, m);
      SetBase(ch);
      NumberField(m, ch, args, num, sign, baseprefix);
      PrintNum(m);
      EndField();
    }

    /** The branches for strings, characters and everything else. */
    method PrintText(ch: char, ghost m: string)
      requires Valid() && Recorded(m) && !NumberConversion(ch) && Takes(ch, ap)
      modifies this, sink, sink.buf
      ensures Valid() && sink.sent == old(sink.sent) + Field(m, ch, old(ap)) && ap == Rest(ch, old(ap))
      ensures !inPct && Recorded([])
      ensures forall k :: sink.buflen <= k < sink.buf.Length ==> sink.buf[k] == old(sink.buf[k])
    {
      var str := [ch];
      if ch == 's' {
        str := if ap[0].s == None then "(null)" else ap[0].s.value;
        ap := ap[1..];
      } else if ch == 'c' {
        str := CharText(ap[0].n);
        ap := ap[1..];
      }
      PrintStuff("", "", str, m);
      EndField();
    }

    /** The end of a field. */
    method PrintField(ch: char, ghost m: string)
      requires Valid() && Recorded(m) && Takes(ch, ap)
      modifies this, sink, sink.buf
      ensures Valid() && sink.sent == old(sink.sent) + Field(m, ch, old(ap)) && ap == Rest(ch, old(ap))
      ensures !inPct && Recorded([])
      ensures forall k :: sink.buflen <= k < sink.buf.Length ==> sink.buf[k] == old(sink.buf[k])
    {
      if NumberConversion(ch) {
        PrintInteger(ch, m);
      } else {
        PrintText(ch, m);
      }
    }

    method SendInField(ch: char, ghost m: string)
      requires Valid() && Recorded(m) && inPct && (!Modifier(ch) ==> Takes(ch, ap))
      modifies this, sink, sink.buf
      ensures Valid() && Recorded(ModifiersAfter(true, m, ch)) && ap == ArgsAfter(true, ch, old(ap))
      ensures inPct == Modifier(ch) && sink.sent == old(sink.sent) + SentBy(true, m, ch, old(ap))
      ensures forall k :: sink.buflen <= k < sink.buf.Length ==> sink.buf[k] == old(sink.buf[k])
    {
      if Modifier(ch) {
        ReadModifier(ch, m);
      } else {
        PrintField(ch, m);
      }
    }

    /** __pf_send: one character of the format, after modifiers m when inside a field. */
    method SendChar(ch: char, ghost m: string)
      requires Valid() && Recorded(if inPct then m else [])
      requires inPct && !Modifier(ch) ==> Takes(ch, ap)
      modifies this, sink, sink.buf
      ensures Valid()
      ensures Recorded(ModifiersAfter(old(inPct), m, ch)) && ap == ArgsAfter(old(inPct), ch, old(ap))
      ensures inPct == (if old(inPct) then Modifier(ch) else ch == '%')
      ensures sink.sent == old(sink.sent) + SentBy(old(inPct), m, ch, old(ap))
      ensures forall k :: sink.buflen <= k < sink.buf.Length ==> sink.buf[k] == old(sink.buf[k])
    {
      if inPct {
        SendInField(ch, m);
      } else if ch == '%' {
        inPct := true;
      } else {
        Print([ch]);
      }
    }

    /** __vprintf. */
    method Vprintf(format: string)
      requires Valid() && !inPct && Recorded([]) && Matches(false, [], format, ap)
      modifies this, sink, sink.buf
      ensures Valid() && sink.sent == old(sink.sent) + Render(false, [], format, old(ap))
      ensures forall k :: sink.buflen <= k < sink.buf.Length ==> sink.buf[k] == old(sink.buf[k])
    {
      ghost var m := "";
      var i := 0;
      assert format[0..] == format;
      while i < |format|
        invariant i <= |format| && Valid() && Recorded(if inPct then m else [])
        invariant Matches(inPct, if inPct then m else [], format[i..], ap)
        invariant sink.sent + Render(inPct, if inPct then m else [], format[i..], ap)
               == old(sink.sent) + Render(false, [], format, old(ap))
        invariant forall k :: sink.buflen <= k < sink.buf.Length ==> sink.buf[k] == old(sink.buf[k])
      {
        assert format[i..] == [format[i]] + format[i + 1..];
        m := Advance(format[i], if inPct then m else [], format[i + 1..]);
        i := i + 1;
      }
    }

    /** One turn of its loop: what has been sent and what is still to come make up the same text. */
    method Advance(ch: char, ghost m: string, ghost rest: string) returns (ghost m': string)
      requires Valid() && Recorded(m) && (!inPct ==> m == []) && Matches(inPct, m, [ch] + rest, ap)
      modifies this, sink, sink.buf
      ensures Valid() && Recorded(m') && (!inPct ==> m' == []) && Matches(inPct, m', rest, ap)
      ensures sink.sent + Render(inPct, m', rest, ap) == old(sink.sent) + old(Render(inPct, m, [ch] + rest, ap))
      ensures forall k :: sink.buflen <= k < sink.buf.Length ==> sink.buf[k] == old(sink.buf[k])
    {
      RenderStep(inPct, m, ch, rest, ap);
      ghost var sent, more := sink.sent, SentBy(inPct, m, ch, ap);
      m' := ModifiersAfter(inPct, m, ch);
      SendChar(ch, m);
      JoinedLater(sent, more, Render(inPct, m', rest, ap));
    }

    method FillWhen(condition: bool, spc: nat)
      requires Valid()
      modifies this`charcount, sink, sink.buf
      ensures Valid() && sink.sent == old(sink.sent) + FillText(condition, fillchar, spc)
      ensures forall k :: sink.buflen <= k < sink.buf.Length ==> sink.buf[k] == old(sink.buf[k])
    {
      if condition {
        Fill(spc);
      } else {
        assert sink.sent == sink.sent + [];
      }
    }
  }

  lemma JoinedLater(a: string, b: string, c: string)
    ensures a + b + c == a + (b + c)
  {
  }

  function FillText(condition: bool, c: char, spc: nat): string {
    if condition then Repeat(c, spc) else []
  }

  lemma Joined(before: string, fill: string, a: string, b: string, stuff: string)
    ensures before + [] + a + b + [] + stuff + fill == before + (a + b + stuff + fill)
    ensures before + [] + a + b + fill + stuff + [] == before + (a + b + fill + stuff)
    ensures before + fill + a + b + [] + stuff + [] == before + (fill + a + b + stuff)
  {
  }

  /** The pieces printed, in order, make up the padded text. */
  lemma PaddedParts(m: string, prefix: string, prefix2: string, stuff: string, spc: nat, before: string)
    requires spc == var len := |prefix| + |prefix2| + |stuff|; if Width(m) > len then Width(m) - len else 0
    ensures var c, right := if ZeroPadded(m) then '0' else ' ', '-' in m;
            before + FillText(spc > 0 && !right && c != '0', c, spc) + prefix + prefix2
              + FillText(spc > 0 && !right && c == '0', c, spc) + stuff + FillText(spc > 0 && right, c, spc)
            == before + Padded(m, prefix, prefix2, stuff)
  {
    var fill := Repeat(if ZeroPadded(m) then '0' else ' ', spc);
    assert spc == 0 ==> fill == [];
    Joined(before, fill, prefix, prefix2, stuff);
  }

  /** A field is as wide as asked for, or as its text needs. */
  lemma PaddedLength(m: string, prefix: string, prefix2: string, body: string)
    ensures var len := |prefix| + |prefix2| + |body|;
            |Padded(m, prefix, prefix2, body)| == if Width(m) > len then Width(m) else len
  {
  }

  // ------------------------------------------------------------------------
  // What a field says
  // ------------------------------------------------------------------------

  /** The number is one of the type that the conversion and its modifiers name. */
  predicate InRange(m: string, conv: char, n: int) {
    var wrap := if conv != 'p' && SizeOf(m) == LlongSize then ULLONG_WRAP else UINT_WRAP;
    if conv == 'd' then -(wrap / 2) <= n < wrap / 2 else 0 <= n < wrap
  }

  function Wider(width: nat, len: nat): nat {
    if width > len then width else len
  }

  lemma ValueInRange(m: string, conv: char, n: int)
    requires NumberConversion(conv) && InRange(m, conv, n)
    ensures Value(m, conv, n) == n
  {
  }

  lemma Padding(m: string, prefix: string, prefix2: string, body: string) returns (fill: string)
    ensures forall c :: c in fill ==> c == if ZeroPadded(m) then '0' else ' '
    ensures Padded(m, prefix, prefix2, body) == if '-' in m then prefix + prefix2 + body + fill
                                                else if ZeroPadded(m) then prefix + prefix2 + fill + body
                                                else fill + prefix + prefix2 + body
    ensures |Padded(m, prefix, prefix2, body)| == Wider(Width(m), |prefix| + |prefix2| + |body|)
  {
    var len := |prefix| + |prefix2| + |body|;
    fill := Repeat(if ZeroPadded(m) then '0' else ' ', Wider(Width(m), len) - len);
  }

  /**
   * A number's field: a sign if it is negative, the prefix asked for, and digits whose
   * value, in base 16 for x and p, 8 for o and 10 for d and u, is the number's; the
   * padding comes where the modifiers want it and makes up the width.
   */
  lemma NumberMeans(m: string, conv: char, args: seq<Arg>) returns (digits: string, fill: string)
    requires NumberConversion(conv) && Takes(conv, args) && InRange(m, conv, args[0].n)
    ensures Eval(digits, if conv == 'x' || conv == 'p' then 16 else if conv == 'o' then 8 else 10) ==
            Words.Abs(args[0].n)
    ensures digits != [] && (digits[0] == '0' <==> args[0].n == 0)
    ensures forall c :: c in fill ==> c == if ZeroPadded(m) then '0' else ' '
    ensures var sign := if args[0].n < 0 then "-" else "";
            var prefix := if conv == 'p' || (conv == 'x' && '#' in m) then "0x"
                          else if conv == 'o' && '#' in m then "0" else "";
            && Field(m, conv, args) == (if '-' in m then sign + prefix + digits + fill
                                        else if ZeroPadded(m) then sign + prefix + fill + digits
                                        else fill + sign + prefix + digits)
            && |Field(m, conv, args)| == Wider(Width(m), |sign| + |prefix| + |digits|)
  {
    ValueInRange(m, conv, args[0].n);
    var v := args[0].n;
    digits := Numeral(Words.Abs(v), Base(conv));
    NumeralEval(Words.Abs(v), Base(conv));
    NumeralShape(Words.Abs(v), Base(conv));
    fill := Padding(m, if v < 0 then "-" else "", BasePrefix(m, conv), digits);
    assert Field(m, conv, args) == Padded(m, if v < 0 then "-" else "", BasePrefix(m, conv), digits);
  }

  /** What %s prints of a string, %c of a character, and a percent sign before anything else of that. */
  function Body(conv: char, args: seq<Arg>): string
    requires !NumberConversion(conv) && Takes(conv, args)
  {
    match conv
    case 's' => if args[0].s == None then "(null)" else args[0].s.value
    case 'c' => CharText(args[0].n)
    case _ => [conv]
  }

  lemma NoPrefix(a: string, b: string)
    ensures "" + "" + a + b == a + b && a + "" + "" + b == a + b
  {
  }

  lemma PlainPadding(m: string, body: string) returns (fill: string)
    ensures forall c :: c in fill ==> c == if ZeroPadded(m) then '0' else ' '
    ensures Padded(m, "", "", body) == if '-' in m then body + fill else fill + body
    ensures |Padded(m, "", "", body)| == Wider(Width(m), |body|)
  {
    fill := Padding(m, "", "", body);
    NoPrefix(body, fill);
    NoPrefix(fill, body);
  }

  /** Any other field is the text itself, to the left or to the right in the width asked for. */
  lemma TextMeans(m: string, conv: char, args: seq<Arg>) returns (fill: string)
    requires !NumberConversion(conv) && Takes(conv, args)
    ensures forall c :: c in fill ==> c == if ZeroPadded(m) then '0' else ' '
    ensures var body := Body(conv, args);
            && Field(m, conv, args) == (if '-' in m then body + fill else fill + body)
            && |Field(m, conv, args)| == Wider(Width(m), |body|)
  {
    var body := Body(conv, args);
    assert Field(m, conv, args) == Padded(m, "", "", body);
    fill := PlainPadding(m, body);
  }

  lemma ReadsModifier(m: string, c: char, fmt: string, args: seq<Arg>)
    requires Modifier(c) && Matches(true, m + [c], fmt, args)
    ensures Matches(true, m, [c] + fmt, args) && Render(true, m, [c] + fmt, args) == Render(true, m + [c], fmt, args)
  {
    assert ([c] + fmt)[1..] == fmt;
  }

  /** Modifiers are read one by one. */
  lemma {:induction false} ReadsModifiers(m: string, more: string, fmt: string, args: seq<Arg>)
    requires (forall c :: c in more ==> Modifier(c)) && Matches(true, m + more, fmt, args)
    ensures Matches(true, m, more + fmt, args) && Render(true, m, more + fmt, args) == Render(true, m + more, fmt, args)
    decreases |more|
  {
    if more == [] {
      assert m + more == m && more + fmt == fmt;
    } else {
      var c, tail := more[0], more[1..];
      assert m + more == (m + [c]) + tail && more + fmt == [c] + (tail + fmt);
      ReadsModifiers(m + [c], tail, fmt, args);
      ReadsModifier(m, c, tail + fmt, args);
    }
  }

  lemma EndsField(m: string, conv: char, rest: string, args: seq<Arg>)
    requires !Modifier(conv) && Takes(conv, args) && Matches(false, [], rest, Rest(conv, args))
    ensures Matches(true, m, [conv] + rest, args)
    ensures Render(true, m, [conv] + rest, args) == Field(m, conv, args) + Render(false, [], rest, Rest(conv, args))
  {
    assert ([conv] + rest)[1..] == rest;
  }

  lemma OpensField(fmt: string, args: seq<Arg>)
    requires Matches(true, [], fmt, args)
    ensures Matches(false, [], "%" + fmt, args) && Render(false, [], "%" + fmt, args) == Render(true, [], fmt, args)
  {
    assert ("%" + fmt)[1..] == fmt;
  }

  /** A conversion prints its field, and what follows it prints with the arguments that are left. */
  lemma RenderField(m: string, conv: char, rest: string, args: seq<Arg>)
    requires (forall c :: c in m ==> Modifier(c)) && !Modifier(conv)
    requires Takes(conv, args) && Matches(false, [], rest, Rest(conv, args))
    ensures Matches(false, [], "%" + (m + ([conv] + rest)), args)
    ensures Render(false, [], "%" + (m + ([conv] + rest)), args) ==
            Field(m, conv, args) + Render(false, [], rest, Rest(conv, args))
  {
    EndsField(m, conv, rest, args);
    assert [] + m == m;
    ReadsModifiers([], m, [conv] + rest, args);
    OpensField(m + ([conv] + rest), args);
  }

  /** Anything else prints as it is. */
  lemma {:induction false} RenderPlain(t: string, rest: string, args: seq<Arg>)
    requires '%' !in t && Matches(false, [], rest, args)
    ensures Matches(false, [], t + rest, args) && Render(false, [], t + rest, args) == t + Render(false, [], rest, args)
    decreases |t|
  {
    if t == [] {
      assert t + rest == rest;
    } else {
      assert (t + rest)[1..] == t[1..] + rest;
      RenderPlain(t[1..], rest, args);
      assert t == [t[0]] + t[1..];
    }
  }

  /** A format of one conversion prints its field. */
  lemma OneConversion(m: string, conv: char, args: seq<Arg>)
    requires (forall c :: c in m ==> Modifier(c)) && !Modifier(conv) && Takes(conv, args)
    ensures Matches(false, [], "%" + m + [conv], args)
    ensures Render(false, [], "%" + m + [conv], args) == Field(m, conv, args)
  {
    RenderField(m, conv, [], args);
    assert "%" + (m + ([conv] + [])) == "%" + m + [conv];
  }

  // ------------------------------------------------------------------------
  // vsnprintf
  // ------------------------------------------------------------------------

  /**
   * Section 7.19.6.5 of ISO C99: the result is the length of the whole text; the
   * buffer, unless its length is zero, gets as much of it as fits and a terminator.
   */
  method Vsnprintf(buf: array<char>, len: nat, fmt: string, ap: seq<Arg>) returns (chars: nat)
    requires len <= buf.Length && Matches(false, [], fmt, ap)
    modifies buf
    ensures chars == |Render(false, [], fmt, ap)|
    ensures len > 0 ==>
              var k := Words.Min(len - 1, chars);
              buf[..k] == Render(false, [], fmt, ap)[..k] && buf[k] == NUL
    ensures forall k :: len <= k < buf.Length ==> buf[k] == old(buf[k])
  {
    var sink := new Sink(buf, if len == 0 then 0 else len - 1);
    var pf := new PF(sink, ap);
    pf.Vprintf(fmt);
    chars := pf.charcount;
    ghost var text := sink.sent;
    assert text == Render(false, [], fmt, ap);
    if len > 0 {
      ghost var stored := buf[..sink.bufpos];
      buf[sink.bufpos] := NUL;
      assert buf[..sink.bufpos] == stored;
    }
  }

  // ------------------------------------------------------------------------
  // Printing and reading back
  // ------------------------------------------------------------------------

  lemma SignedOfInt(x: int)
    requires 0 <= x + INT_MAX_PLUS_1 < UINT_WRAP
    ensures Signed(x, UINT_WRAP) == x
  {
  }

  lemma PaddedPlain(prefix: string, body: string)
    ensures Padded([], prefix, [], body) == prefix + body
  {
    assert Repeat(' ', 0) == [];
  }

  /** %d prints every int in plain decimal. */
  lemma PercentD(x: int)
    requires 0 <= x + INT_MAX_PLUS_1 < UINT_WRAP
    ensures Matches(false, [], "%d", [Number(x)])
    ensures Render(false, [], "%d", [Number(x)]) == Atoi.DecimalText(x)
  {
    OneConversion([], 'd', [Number(x)]);
    assert "%" + [] + ['d'] == "%d";
    SignedOfInt(x);
    PaddedPlain(if x < 0 then "-" else "", Numeral(Words.Abs(x), 10));
  }

  /** %x, %o and %u print every unsigned int as digits of its value in base 16, 8 and 10. */
  lemma PercentUnsigned(conv: char, x: nat)
    requires conv in "xou" && x < UINT_WRAP
    ensures Matches(false, [], "%" + [conv], [Number(x)])
    ensures var base := if conv == 'x' then 16 else if conv == 'o' then 8 else 10;
            Eval(Render(false, [], "%" + [conv], [Number(x)]), base) == x
  {
    OneConversion([], conv, [Number(x)]);
    assert "%" + [] + [conv] == "%" + [conv];
    var digits, fill := NumberMeans([], conv, [Number(x)]);
    assert fill == [] && Field([], conv, [Number(x)]) == digits;
  }

  /** %s prints a string as it is. */
  lemma PercentS(t: string)
    ensures Matches(false, [], "%s", [Text(Some(t))]) && Render(false, [], "%s", [Text(Some(t))]) == t
  {
    OneConversion([], 's', [Text(Some(t))]);
    assert "%" + [] + ['s'] == "%s";
    var fill := TextMeans([], 's', [Text(Some(t))]);
    assert fill == [];
  }

  /** atoi of what %d printed is the number again, for every int. */
  lemma AtoiOfPercentD(x: int)
    requires 0 <= x + INT_MAX_PLUS_1 < UINT_WRAP
    ensures Matches(false, [], "%d", [Number(x)])
    ensures Atoi.Spelled(Render(false, [], "%d", [Number(x)])) == x
  {
    PercentD(x);
    Atoi.AtoiOfDecimal(x);
  }

  lemma {:induction false} DecimalDigits(n: nat, k: nat)
    requires k > 0 && n < Words.Pow(10, k)
    ensures |Numeral(n, 10)| <= k
    decreases k
  {
    if n >= 10 {
      assert Words.Pow(10, k) == 10 * Words.Pow(10, k - 1);
      assert Words.Pow(10, 0) == 1;
      DecimalDigits(n / 10, k - 1);
    }
  }

  /** An int takes at most ten digits and a sign, and no terminator is among them. */
  lemma DecimalFits(x: int)
    requires 0 <= x + INT_MAX_PLUS_1 < UINT_WRAP
    ensures |Atoi.DecimalText(x)| <= 11 && NUL !in Atoi.DecimalText(x)
  {
    assert Words.Pow(10, 2) == 100;
    assert Words.Pow(10, 4) == 10_000 by { Words.PowAdd(10, 2, 2); }
    assert Words.Pow(10, 8) == 100_000_000 by { Words.PowAdd(10, 4, 4); }
    assert Words.Pow(10, 10) == 10_000_000_000 by { Words.PowAdd(10, 8, 2); }
    DecimalDigits(Words.Abs(x), 10);
    NumeralShape(Words.Abs(x), 10);
  }

  /** The string a buffer holds: the characters before its first terminator. */
  method CString(buf: array<char>, ghost text: string) returns (s: string)
    requires |text| < buf.Length && buf[..|text|] == text && NUL !in text && buf[|text|] == NUL
    ensures s == text
  {
    var i := 0;
    while buf[i] != NUL
      invariant i <= |text|
      decreases |text| - i
    {
      assert i < |text|;
      i := i + 1;
    }
    return buf[..i];
  }

  /** A number printed with %d into a buffer of twelve characters, or more, and read from it by atoi. */
  method PrintAndRead(buf: array<char>, x: int) returns (r: int)
    requires buf.Length >= 12 && 0 <= x + INT_MAX_PLUS_1 < UINT_WRAP
    modifies buf
    ensures r == x
  {
    PercentD(x);
    DecimalFits(x);
    AtoiOfPercentD(x);
    var _ := Vsnprintf(buf, buf.Length, "%d", [Number(x)]);
    var s := CString(buf, Atoi.DecimalText(x));
    r := Atoi.Parse(s);
  }
}
