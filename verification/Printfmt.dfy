/** The formatter as it runs: a bounded buffer that counts past its end, and the escape
    state machine that rewinds the format on an unknown escape (libs/printfmt.c). */
module Printfmt {
  import opened Arithmetic
  import opened Options
  import opened Words
  import opened Strings
  import opened Format

  const E_INVAL: int := 3

  /** `struct sprintbuf` over a memory that also holds other data.  `emitted` is what an
      unbounded sink would hold. */
  class SprintBuf {
    const mem: array<char>
    const start: nat
    const ebuf: nat
    var buf: nat
    var cnt: int
    ghost var emitted: string
    ghost const before: string

    /** The buffer holds the first characters emitted, as many as fit before `ebuf`, and
        all other memory is as it was. */
    ghost predicate Valid()
      reads this, mem
    {
      && start <= buf <= ebuf < mem.Length
      && cnt == |emitted|
      && buf - start == (if |emitted| < ebuf - start then |emitted| else ebuf - start)
      && (forall i :: start <= i < buf ==> mem[i] == emitted[i - start])
      && |before| == mem.Length
      && (forall i :: 0 <= i < mem.Length && !(start <= i < buf) ==> mem[i] == before[i])
    }

    constructor (mem: array<char>, start: nat, ebuf: nat)
      requires start <= ebuf < mem.Length
      ensures Valid() && this.mem == mem && this.start == start && this.ebuf == ebuf
      ensures emitted == "" && before == mem[..]
    {
      this.mem, this.start, this.ebuf := mem, start, ebuf;
      buf, cnt, emitted := start, 0, "";
      before := mem[..];
    }

    /** sprintputch */
    method Putch(ch: char)
      requires Valid()
      modifies this, mem
      ensures Valid() && emitted == old(emitted) + [ch]
    {
      cnt := cnt + 1;
      if buf < ebuf {
        mem[buf] := ch;
        buf := buf + 1;
      }
      emitted := emitted + [ch];
    }

    /** A padding loop. */
    method PutPad(c: char, width: int32)
      requires Valid()
      modifies this, mem
      ensures Valid() && emitted == old(emitted) + Pad(c, width)
    {
      var w: int32 := width;
      while w > 0
        invariant w <= width || w == width
        invariant 0 <= w || w == width
        invariant Valid() && emitted == old(emitted) + Pad(c, if width > 0 then width - w else 0)
      {
        Putch(c);
        w := w - 1;
      }
    }

    /** printnum: the recursion counts the digits down from the width, the innermost call
        pads. */
    method PrintNum(num: nat, base: nat, width: int32, padc: char)
      requires Valid() && 2 <= base <= 16 && NumberFits(num, base, width)
      modifies this, mem
      ensures Valid() && emitted == old(emitted) + NumText(num, base, width, padc)
      decreases num
    {
      NumTextStep(num, base, width, padc);
      var result := num / base;
      var mod := num % base;
      if num >= base {
        DivHalves(num, base);
        PrintNum(result, base, width - 1, padc);
      } else {
        PutPad(padc, width - 1);
      }
      Putch(DigitChar(mod));
    }

    /** `%s`; the width counts down over padding and characters alike. */
    method PutString(p: Text, fl: Flags)
      requires Valid() && StringFits(p, fl)
      modifies this, mem
      ensures Valid()
      ensures emitted == old(emitted) + StringText(p, fl)
    {
      ghost var n := ShownLength(p, fl.precision);
      ghost var lead := Pad(fl.padc, if fl.width > 0 && fl.padc != '-' then fl.width - n else 0);
      StringTextParts(p, fl);
      var width := PutLead(p, fl);
      width := PutChars(p, fl.precision, fl.alt, width);
      PutPad(' ', width);
      Assoc(old(emitted), lead, Shown(p, n, fl.alt));
      Assoc(old(emitted), lead + Shown(p, n, fl.alt), Pad(' ', width));
    }

    /** The padding before a string; returns the width that is left. */
    method PutLead(p: Text, fl: Flags) returns (width: int32)
      requires Valid() && StringFits(p, fl)
      modifies this, mem
      ensures Valid()
      ensures var n := ShownLength(p, fl.precision);
        && emitted == old(emitted)
                    + Pad(fl.padc, if fl.width > 0 && fl.padc != '-' then fl.width - n else 0)
        && width == (if fl.width > 0 && fl.padc != '-' && fl.width > n then 0
                     else if fl.width > 0 && fl.padc != '-' then fl.width - n
                     else fl.width)
    {
      width := fl.width;
      if width > 0 && fl.padc != '-' {
        // as a size_t a negative precision is longer than any string
        var n := StrNLen(p, if fl.precision < 0 then fl.precision + TWO64 else fl.precision);
        width := width - n;
        PutPad(fl.padc, width);
        width := if width > 0 then 0 else width;
      }
    }

    /** The character loop of `%s`; returns the width that is left. */
    method PutChars(p: Text, precision0: int32, alt: bool, width0: int32) returns (width: int32)
      requires Valid() && width0 - ShownLength(p, precision0) >= -TWO31
      modifies this, mem
      ensures Valid() && width == width0 - ShownLength(p, precision0)
      ensures emitted == old(emitted) + Shown(p, ShownLength(p, precision0), alt)
    {
      var precision: int32 := precision0;
      width := width0;
      var i := 0;
      while true
        invariant Valid() && i <= ShownLength(p, precision0)
        invariant precision == if precision0 < 0 then precision0 else precision0 - i
        invariant width == width0 - i
        invariant emitted == old(emitted) + Shown(p, i, alt)
        decreases |p| - i
      {
        var ch := At(p, i);
        if ch == '\0' {
          break;
        }
        if precision >= 0 {
          precision := precision - 1;
          if precision < 0 {
            break;
          }
        }
        Putch(if alt && (ch < ' ' || ch > '~') then '?' else ch);
        assert Shown(p, i + 1, alt) == Shown(p, i, alt) + [Visible(ch, alt)];
        i := i + 1;
        width := width - 1;
      }
    }

    /** The literal loop of vprintfmt: stops at a '%' or at the terminator. */
    method CopyLiteral(fmt: CString, start: nat) returns (pos: nat)
      requires Valid() && start <= |fmt|
      modifies this, mem
      ensures Valid() && start <= pos <= |fmt| && (pos < |fmt| ==> fmt[pos] == '%')
      ensures forall k :: start <= k < pos ==> fmt[k] != '%'
      ensures emitted == old(emitted) + fmt[start..pos]
    {
      pos := start;
      var ch := At(fmt, pos);
      while ch != '%' && ch != '\0'
        invariant start <= pos <= |fmt| && ch == At(fmt, pos)
        invariant forall k :: start <= k < pos ==> fmt[k] != '%'
        invariant Valid() && emitted == old(emitted) + fmt[start..pos]
        decreases |fmt| - pos
      {
        Putch(ch);
        assert fmt[start..pos + 1] == fmt[start..pos] + [ch];
        pos := pos + 1;
        ch := At(fmt, pos);
      }
    }

    /** `%d` after the argument is fetched. */
    method PrintSigned(v: int, width: int32, padc: char)
      requires Valid() && NumberFits(if v < 0 then -v else v, 10, width)
      modifies this, mem
      ensures Valid() && emitted == old(emitted) + SignedText(v, width, padc)
    {
      var num := v;
      if num < 0 {
        Putch('-');
        num := -num;
        Assoc(old(emitted), "-", NumText(num, 10, width, padc));
      }
      PrintNum(num, 10, width, padc);
    }

    /** `%p` after the argument is fetched. */
    method PrintPointer(num: nat, width: int32, padc: char)
      requires Valid() && NumberFits(num, 16, width)
      modifies this, mem
      ensures Valid() && emitted == old(emitted) + ("0x" + NumText(num, 16, width, padc))
    {
      Putch('0');
      Putch('x');
      assert emitted == old(emitted) + "0x";
      Assoc(old(emitted), "0x", NumText(num, 16, width, padc));
      PrintNum(num, 16, width, padc);
    }

    /** `%e` after the argument is fetched. */
    method PrintError(err0: int, ghost level: nat)
      requires Valid() && -TWO31 < err0 < TWO31 && level > 0
      modifies this, mem
      ensures Valid() && emitted == old(emitted) + ErrorText(err0)
      decreases level, 0
    {
      var fmt, arg := ErrorFormat(err0);
      VPrintFmt(fmt, [arg]);
    }

    /** The number cases of the switch. */
    method PrintNumber(c: char, fl: Flags, a: Arg)
      requires Valid() && c in {'d', 'u', 'o', 'p', 'x'} && Convert(c, fl, [a]).Some?
      modifies this, mem
      ensures Valid() && emitted == old(emitted) + Convert(c, fl, [a]).value
    {
      if c == 'd' {
        PrintSigned(if fl.lflag > 0 then AsLong(a) else AsInt(a), fl.width, fl.padc);
      } else if c == 'u' {
        PrintNum(UnsignedArg(a, fl.lflag), 10, fl.width, fl.padc);
      } else if c == 'o' {
        PrintNum(UnsignedArg(a, fl.lflag), 8, fl.width, fl.padc);
      } else if c == 'p' {
        PrintPointer(Bits64(a), fl.width, fl.padc);
      } else {
        PrintNum(UnsignedArg(a, fl.lflag), 16, fl.width, fl.padc);
      }
    }

    /** The other cases of the switch that take an argument. */
    method PrintOther(c: char, fl: Flags, a: Arg, ghost level: nat)
      requires Valid() && c in {'c', 'e', 's'} && Convert(c, fl, [a]).Some?
      requires c == 'e' ==> level > 0
      modifies this, mem
      ensures Valid() && emitted == old(emitted) + Convert(c, fl, [a]).value
      decreases level, 1
    {
      if c == 'c' {
        Putch(AsChar(AsInt(a)));
      } else if c == 'e' {
        PrintError(AsInt(a), level);
      } else if Bits64(a) == 0 {
        PutString("(null)", fl);
      } else {
        PutString(a.text, fl);
      }
    }

    /** The switch on a conversion character. */
    method PrintConversion(c: char, fl: Flags, ap: seq<Arg>, ghost level: nat)
        returns (rest: seq<Arg>)
      requires Valid() && IsConversion(c) && Convert(c, fl, ap).Some?
      requires c == 'e' ==> level > 0
      modifies this, mem
      ensures Valid() && emitted == old(emitted) + Convert(c, fl, ap).value
      ensures rest == ArgsAfter(c, ap)
      decreases level, 2
    {
      rest := ap;
      if c == '%' {
        Putch(c);
      } else {
        assert Convert(c, fl, ap) == Convert(c, fl, [ap[0]]);
        if c in {'c', 'e', 's'} {
          PrintOther(c, fl, ap[0], level);
        } else {
          PrintNumber(c, fl, ap[0]);
        }
        rest := ap[1..];
      }
    }

    /** One escape, opened by the '%' at `open`: prints its conversion, or prints the '%'
        and rewinds. */
    method PrintEscape(fmt: CString, open: nat, args: seq<Arg>) returns (pos: nat, ap: seq<Arg>)
      requires Valid() && open < |fmt| && fmt[open] == '%' && Output(fmt, open, args).Some?
      modifies this, mem
      ensures Valid() && open < pos <= |fmt| && Output(fmt, pos, ap).Some?
      ensures emitted + Output(fmt, pos, ap).value == old(emitted) + Output(fmt, open, args).value
      decreases if MayNest(fmt) then 1 else 0, 3
    {
      OutputAtEscape(fmt, open, args);
      ghost var e := ParseEscape(fmt, open + 1, NO_FLAGS, args);
      var ch, fl;
      ch, fl, pos, ap := ScanEscape(fmt, open + 1, args);
      if IsConversion(ch) {
        assert fmt[e.at] == ch;
        ap := PrintConversion(ch, fl, ap, if MayNest(fmt) then 1 else 0);
        Assoc(old(emitted), Convert(ch, fl, e.args).value, Output(fmt, pos, ap).value);
      } else {
        Putch('%');
        pos := Rewind(fmt, pos, open);
        Assoc(old(emitted), "%", Output(fmt, pos, ap).value);
      }
    }

    /** The terminator that vsnprintf writes: after the characters that fit, and nothing
        else changes. */
    method Terminate()
      requires Valid()
      modifies mem
      ensures var k := if |emitted| < ebuf - start then |emitted| else ebuf - start;
        && (forall i :: 0 <= i < k ==> mem[start + i] == emitted[i])
        && mem[start + k] == '\0'
        && forall i :: 0 <= i < mem.Length && !(start <= i <= start + k) ==> mem[i] == before[i]
    {
      mem[buf] := '\0';
    }

    /** vprintfmt appends exactly the reference output, whatever the buffer's size. */
    method VPrintFmt(fmt: CString, args: seq<Arg>)
      requires Valid() && Output(fmt, 0, args).Some?
      modifies this, mem
      ensures Valid() && emitted == old(emitted) + Output(fmt, 0, args).value
      decreases if MayNest(fmt) then 1 else 0, 4
    {
      var ap := args;
      var pos := 0;
      while true
        invariant Valid() && pos <= |fmt| && Output(fmt, pos, ap).Some?
        invariant emitted + Output(fmt, pos, ap).value
               == old(emitted) + Output(fmt, 0, args).value
        decreases |fmt| - pos
      {
        var open := CopyLiteral(fmt, pos);
        PlainText(fmt, pos, open, ap);
        if open == |fmt| {
          break;
        }
        pos, ap := PrintEscape(fmt, open, ap);
      }
    }
  }

  /** The format and argument that the `%e` case passes to printfmt. */
  method ErrorFormat(err0: int) returns (fmt: CString, arg: Arg)
    requires -TWO31 < err0 < TWO31
    ensures Output(fmt, 0, [arg]) == Some(ErrorText(err0)) && !MayNest(fmt)
  {
    var err := err0;
    if err < 0 {
      err := -err;
    }
    if err > MAXERROR || err == 0 {
      NumberedError(err);
      fmt, arg := "error %d", Word(err);
    } else {
      NamedError(err);
      fmt, arg := "%s", Str(1, ErrorString(err));
    }
  }

  /** The fetch loop of an escape: one turn of `reswitch` for each flag, number or
      modifier.  Only the terminator or a conversion character ends it. */
  method ScanEscape(fmt: CString, start: nat, args: seq<Arg>)
      returns (ch: char, fl: Flags, pos: nat, ap: seq<Arg>)
    requires start <= |fmt| && ParseEscape(fmt, start, NO_FLAGS, args).Escape?
    ensures var e := ParseEscape(fmt, start, NO_FLAGS, args);
      ch == At(fmt, e.at) && pos == e.at + 1 && fl == e.fl && ap == e.args
  {
    var padc, altflag := ' ', false;
    var width: int32, precision: int32, lflag: int32 := -1, -1, 0;
    pos, ap := start, args;
    while true
      invariant start <= pos <= |fmt|
      invariant ParseEscape(fmt, pos, Flags(padc, width, precision, lflag, altflag), ap)
             == ParseEscape(fmt, start, NO_FLAGS, args)
      decreases |fmt| - pos
    {
      ch := At(fmt, pos);
      pos := pos + 1;
      if ch == '-' {
        padc := '-';
      } else if ch == '0' {
        padc := '0';
      } else if '1' <= ch <= '9' {
        precision, pos := ScanNumber(fmt, pos);
        if width < 0 {
          width, precision := precision, -1;
        }
      } else if ch == '*' {
        precision := AsInt(ap[0]);
        ap := ap[1..];
        if width < 0 {
          width, precision := precision, -1;
        }
      } else if ch == '.' {
        if width < 0 {
          width := 0;
        }
      } else if ch == '#' {
        altflag := true;
      } else if ch == 'l' {
        lflag := lflag + 1;
      } else {
        break;
      }
    }
    fl := Flags(padc, width, precision, lflag, altflag);
  }

  /** The digit loop of a width or precision; `pos0` is just past its first digit. */
  method ScanNumber(fmt: CString, pos0: nat) returns (precision: int32, pos: nat)
    requires 0 < pos0 <= |fmt| && '1' <= fmt[pos0 - 1] <= '9'
    requires ScansAsInt(Value(fmt[pos0 - 1..DigitsEnd(fmt, pos0 - 1, 10)], 10))
    ensures pos == DigitsEnd(fmt, pos0 - 1, 10) && pos0 <= pos
    ensures precision == Value(fmt[pos0 - 1..pos], 10)
  {
    ghost var start := pos0 - 1;
    var ch := fmt[pos0 - 1];
    precision, pos := 0, pos0;
    assert fmt[start..start] == "";
    while true
      invariant pos0 <= pos <= |fmt| && ch == fmt[pos - 1] && '0' <= ch <= '9'
      invariant Scanned(fmt, start, pos - 1, precision)
      decreases |fmt| - pos
    {
      NumberStep(fmt, start, pos - 1, precision);
      var sum: int32 := precision * 10 + ch as int;
      precision := sum - '0' as int;
      ch := At(fmt, pos);
      if ch < '0' || ch > '9' {
        break;
      }
      pos := pos + 1;
    }
  }

  /** `v` is the value of the digits from `start` to `i`, and the number goes on from `i`. */
  ghost predicate Scanned(fmt: string, start: nat, i: nat, v: int) {
    && start <= i <= |fmt|
    && DigitsEnd(fmt, i, 10) == DigitsEnd(fmt, start, 10)
    && AllDigits(fmt[start..i], 10) && v == Value(fmt[start..i], 10)
  }

  lemma NumberStep(fmt: string, start: nat, i: nat, v: int)
    requires Scanned(fmt, start, i, v) && i < |fmt| && '0' <= fmt[i] <= '9'
    ensures var v' := v * 10 + fmt[i] as int - '0' as int;
      && Scanned(fmt, start, i + 1, v')
      && 0 <= v' <= Value(fmt[start..DigitsEnd(fmt, start, 10)], 10)
    ensures !(i + 1 < |fmt| && '0' <= fmt[i + 1] <= '9') ==> DigitsEnd(fmt, start, 10) == i + 1
  {
    ValueStep(fmt, start, i, DigitsEnd(fmt, start, 10), 10);
  }

  /** The rewind of an unknown escape stops just after the '%' that opened it. */
  method Rewind(fmt: CString, pos0: nat, ghost open: nat) returns (pos: nat)
    requires open + 2 <= pos0 <= |fmt| + 1 && fmt[open] == '%'
    requires forall k :: open < k < pos0 - 1 ==> fmt[k] != '%'
    ensures pos == open + 1
  {
    pos := pos0 - 1;
    while fmt[pos - 1] != '%'
      invariant open < pos <= |fmt| && pos < pos0
      decreases pos
    {
      pos := pos - 1;
    }
  }

  /** vsnprintf refines the unbounded sink: the buffer gets the first `size - 1` characters
      of the reference output and a terminator, the result counts all of them, and no
      other memory changes.  A null pointer is `null`. */
  method VSnPrintf(str: array?<char>, start: nat, size: u64, fmt: CString, args: seq<Arg>)
      returns (cnt: int)
    requires str != null ==> start + size <= str.Length
    requires Output(fmt, 0, args).Some? && |Output(fmt, 0, args).value| < TWO31
    modifies if str == null then {} else {str}
    ensures str == null || size == 0 ==> cnt == -E_INVAL
    ensures str != null && size == 0 ==> str[..] == old(str[..])
    ensures str != null && size > 0 ==>
      var out := Output(fmt, 0, args).value;
      var k := if |out| < size - 1 then |out| else size - 1;
      && cnt == |out|
      && str[start..start + k] == out[..k] && str[start + k] == '\0'
      && forall i :: 0 <= i < str.Length && !(start <= i <= start + k) ==> str[i] == old(str[i])
  {
    var ebuf := start + size - 1;
    if str == null || start > ebuf {
      return -E_INVAL;
    }
    cnt := FormatInto(str, start, ebuf, fmt, args, Output(fmt, 0, args).value);
  }

  method FormatInto(str: array<char>, start: nat, ebuf: nat, fmt: CString, args: seq<Arg>,
                    ghost out: string)
      returns (cnt: int)
    requires start <= ebuf < str.Length && Output(fmt, 0, args) == Some(out)
    modifies str
    ensures var k := if |out| < ebuf - start then |out| else ebuf - start;
      && cnt == |out|
      && (forall i :: 0 <= i < k ==> str[start + i] == out[i]) && str[start + k] == '\0'
      && forall i :: 0 <= i < str.Length && !(start <= i <= start + k) ==> str[i] == old(str[i])
  {
    var b := new SprintBuf(str, start, ebuf);
    b.VPrintFmt(fmt, args);
    assert b.emitted == out;
    b.Terminate();
    cnt := b.cnt;
  }
}
