/** The printer against the parser: what strtol reads back from what the formatter
    printed. */
module RoundTrip {
  import opened Arithmetic
  import opened Options
  import opened Words
  import opened Strings
  import opened Format

  lemma DigitCharReads(d: nat, base: nat)
    requires d < base <= 16
    ensures IsDigit(DigitChar(d), base) && DigitVal(DigitChar(d)).value == d
  {
  }

  lemma AppendDigit(ds: string, d: nat, base: nat)
    requires d < base <= 16 && AllDigits(ds, base)
    ensures AllDigits(ds + [DigitChar(d)], base)
    ensures Value(ds + [DigitChar(d)], base) == Value(ds, base) * base + d
  {
    DigitCharReads(d, base);
    var s := ds + [DigitChar(d)];
    assert s[..|s| - 1] == ds;
  }

  /** The digits printed for a number are digits of the base and denote that number; a
      leading zero is printed only for zero. */
  lemma {:induction false} DigitsDenote(num: nat, base: nat)
    requires 2 <= base <= 16
    ensures AllDigits(Digits(num, base), base)
    ensures Value(Digits(num, base), base) == num
    ensures Digits(num, base)[0] == '0' <==> num == 0
    decreases num
  {
    if num >= base {
      DivHalves(num, base);
      DigitsDenote(num / base, base);
      AppendDigit(Digits(num / base, base), num % base, base);
      DivMod(num, base);
    } else {
      AppendDigit("", num, base);
      DigitCharReads(num, base);
      assert "" + [DigitChar(num)] == [DigitChar(num)];
    }
  }

  /** Letters are small, whatever strtol would accept. */
  lemma {:induction false} DigitsAreSmall(num: nat, base: nat)
    requires 2 <= base <= 16
    ensures forall i :: 0 <= i < |Digits(num, base)| ==>
      var c := Digits(num, base)[i]; '0' <= c <= '9' || 'a' <= c <= 'f'
    decreases num
  {
    if num >= base {
      DivHalves(num, base);
      DigitsAreSmall(num / base, base);
      SmallLetter(num % base);
    } else {
      SmallLetter(num);
    }
  }

  lemma SmallLetter(d: nat)
    requires d < 16
    ensures var c := DigitChar(d); '0' <= c <= '9' || 'a' <= c <= 'f'
  {
  }

  lemma {:induction false} LeadingZeros(k: nat, ds: string, base: nat)
    requires 2 <= base && AllDigits(ds, base)
    ensures AllDigits(Pad('0', k) + ds, base)
    ensures Value(Pad('0', k) + ds, base) == Value(ds, base)
    decreases |ds|, k
  {
    var s := Pad('0', k) + ds;
    if ds != [] {
      LeadingZeros(k, ds[..|ds| - 1], base);
      assert s[..|s| - 1] == Pad('0', k) + ds[..|ds| - 1];
    } else if k > 0 {
      LeadingZeros(k - 1, ds, base);
      assert s[..|s| - 1] == Pad('0', k - 1) + ds;
    } else {
      assert s == ds;
    }
  }

  // ----- How strtol reads the shapes that are printed -----

  lemma {:induction false} BlanksEndIs(s: string, i: nat, j: nat)
    requires i <= j <= |s|
    requires forall k :: i <= k < j ==> IsBlank(s[k])
    requires j < |s| ==> !IsBlank(s[j])
    ensures BlanksEnd(s, i) == j
    decreases j - i
  {
    if i < j {
      BlanksEndIs(s, i + 1, j);
    }
  }

  lemma {:induction false} DigitsEndIs(s: string, i: nat, j: nat, base: int)
    requires i <= j <= |s|
    requires forall k :: i <= k < j ==> IsDigit(s[k], base)
    requires j < |s| ==> !IsDigit(s[j], base)
    ensures DigitsEnd(s, i, base) == j
    decreases j - i
  {
    if i < j {
      DigitsEndIs(s, i + 1, j, base);
    }
  }

  function Sign(neg: bool): string {
    if neg then "-" else ""
  }

  lemma ReadsAt(s: CString, sp: nat, neg: bool, base: nat)
    requires 2 <= base <= 16 && sp + |Sign(neg)| < |s|
    requires forall k :: 0 <= k < sp ==> s[k] == ' '
    requires neg ==> s[sp] == '-'
    requires forall k :: sp + |Sign(neg)| <= k < |s| ==> IsDigit(s[k], base)
    ensures Read(s, base) == Reading(neg, base, sp + |Sign(neg)|, |s|)
  {
    var c := sp + |Sign(neg)|;
    assert !IsBlank(s[sp]) by {
      if !neg {
        assert IsDigit(s[c], base);
      }
    }
    BlanksEndIs(s, 0, sp);
    DigitsEndIs(s, c, |s|, base);
    assert IsDigit(s[c], base);
    if c + 1 < |s| {
      assert IsDigit(s[c + 1], base);
    }
  }

  /** Blanks, a sign, and digits of the base up to the end of the text: strtol reads the
      signed number and stops at the end. */
  lemma ReadsNumber(s: CString, sp: nat, neg: bool, ds: string, base: nat)
    requires 2 <= base <= 16 && ds != [] && AllDigits(ds, base)
    requires s == Pad(' ', sp) + Sign(neg) + ds
    ensures Strtol(s, base) == (if neg then -Value(ds, base) else Value(ds, base), |s|)
  {
    var c := sp + |Sign(neg)|;
    assert s[c..] == s[c..|s|] == ds;
    forall k | c <= k < |s|
      ensures IsDigit(s[k], base)
    {
      assert s[k] == ds[k - c];
    }
    ReadsAt(s, sp, neg, base);
  }

  /** The same after a "0x", which base 16 skips. */
  lemma ReadsHex(s: CString, ds: string)
    requires ds != [] && AllDigits(ds, 16) && s == "0x" + ds
    ensures Strtol(s, 16) == (Value(ds, 16), |s|)
  {
    assert s[2..] == ds;
    assert forall k :: 2 <= k < |s| ==> s[k] == ds[k - 2];
    assert s[0] == '0' && s[1] == 'x';
    BlanksEndIs(s, 0, 0);
    DigitsEndIs(s, 2, |s|, 16);
    assert s[2..|s|] == ds;
  }

  /** Only a small x makes a prefix: after "0X" strtol has read the zero and stops. */
  lemma HexPrefixIff(s: CString, c: char, ds: string)
    requires c in {'x', 'X'} && ds != [] && AllDigits(ds, 16) && s == "0" + [c] + ds
    ensures Strtol(s, 16) == (Value(ds, 16), |s|) <==> c == 'x'
    ensures c == 'X' ==> Strtol(s, 16) == (0, 1)
  {
    if c == 'x' {
      assert s == "0x" + ds;
      ReadsHex(s, ds);
    } else {
      assert s[0] == '0' && s[1] == 'X';
      BlanksEndIs(s, 0, 0);
      DigitsEndIs(s, 0, 1, 16);
      assert s[0..1] == "0" && "0"[..0] == "";
      assert Value("0", 16) == 0;
    }
  }

  /** A prefix that no digit follows: strtol stops right after it. */
  lemma ReadsPrefixOnly(s: CString)
    requires |s| > 2 && s[0] == '0' && s[1] == 'x' && !IsDigit(s[2], 16)
    ensures Strtol(s, 16).1 == 2
  {
    BlanksEndIs(s, 0, 0);
    DigitsEndIs(s, 2, 2, 16);
  }

  /** A sign that no digit follows: strtol stops right after it. */
  lemma ReadsSignOnly(s: CString, base: nat)
    requires 2 <= base <= 16 && |s| >= 2 && s[0] == '-' && !IsDigit(s[1], base)
    ensures Strtol(s, base).1 == 1
  {
    BlanksEndIs(s, 0, 0);
    assert IsDigit('0', base);
    DigitsEndIs(s, 1, 1, base);
  }

  // ----- Printed numbers -----

  function Abs(v: int): nat {
    if v < 0 then -v else v
  }

  /** `%d`, `%x` and `%o` text of a number. */
  function NumberText(v: int, base: nat, width: int, padc: char): (s: CString)
    requires 2 <= base <= 16 && padc != '\0'
  {
    DigitsDenote(Abs(v), base);
    var ds := Digits(Abs(v), base);
    var s := Sign(v < 0) + (Pad(padc, width - |ds|) + ds);
    assert forall i :: 0 <= i < |ds| ==> IsDigit(ds[i], base);
    s
  }

  /** How many padding characters the width asks for. */
  function Padding(v: int, base: nat, width: int): int
    requires 2 <= base <= 16
  {
    width - |Digits(Abs(v), base)|
  }

  /** When padded text reads back: zeros always do, blanks unless a sign comes before
      them, and the '-' that left-justification puts on the left only where it can pass
      for the sign of zero. */
  predicate ReadsBack(v: int, base: nat, width: int, padc: char)
    requires 2 <= base <= 16
  {
    var k := Padding(v, base, width);
    k <= 0 || padc == '0' || (padc == ' ' && v >= 0) || (padc == '-' && v == 0 && k == 1)
  }

  lemma TextReadsBack(v: int, base: nat, width: int, padc: char)
    requires 2 <= base <= 16 && padc in {' ', '0', '-'}
    requires ReadsBack(v, base, width, padc)
    ensures var s := NumberText(v, base, width, padc);
      Strtol(s, base) == (v, |s|)
  {
    if Padding(v, base, width) <= 0 {
      UnpaddedReadsBack(v, base, width, padc);
    } else if padc == '0' {
      ZeroPaddedReadsBack(v, base, width);
    } else {
      OtherPaddedReadsBack(v, base, width, padc);
    }
  }

  lemma UnpaddedReadsBack(v: int, base: nat, width: int, padc: char)
    requires 2 <= base <= 16 && padc != '\0' && Padding(v, base, width) <= 0
    ensures var s := NumberText(v, base, width, padc);
      Strtol(s, base) == (v, |s|)
  {
    var ds := Digits(Abs(v), base);
    var s := NumberText(v, base, width, padc);
    DigitsDenote(Abs(v), base);
    assert Pad(padc, width - |ds|) + ds == ds;
    assert Pad(' ', 0) + Sign(v < 0) == Sign(v < 0);
    ReadsNumber(s, 0, v < 0, ds, base);
  }

  lemma OtherPaddedReadsBack(v: int, base: nat, width: int, padc: char)
    requires 2 <= base <= 16 && Padding(v, base, width) > 0
    requires (padc == ' ' && v >= 0) || (padc == '-' && v == 0 && Padding(v, base, width) == 1)
    ensures var s := NumberText(v, base, width, padc);
      Strtol(s, base) == (v, |s|)
  {
    var ds, k := Digits(Abs(v), base), Padding(v, base, width);
    var s := NumberText(v, base, width, padc);
    DigitsDenote(Abs(v), base);
    assert s == Pad(padc, k) + ds;
    if padc == ' ' {
      assert Pad(' ', k) + Sign(false) == Pad(' ', k);
      ReadsNumber(s, k, false, ds, base);
    } else {
      assert Pad(' ', 0) + Sign(true) == Pad('-', 1);
      ReadsNumber(s, 0, true, ds, base);
    }
  }

  lemma ZeroPaddedReadsBack(v: int, base: nat, width: int)
    requires 2 <= base <= 16 && Padding(v, base, width) > 0
    ensures var s := NumberText(v, base, width, '0');
      Strtol(s, base) == (v, |s|)
  {
    var ds, k := Digits(Abs(v), base), Padding(v, base, width);
    DigitsDenote(Abs(v), base);
    LeadingZeros(k, ds, base);
    var s, zs := NumberText(v, base, width, '0'), Pad('0', k) + ds;
    assert Pad(' ', 0) + Sign(v < 0) == Sign(v < 0);
    assert s == Sign(v < 0) + zs;
    ReadsNumber(s, 0, v < 0, zs, base);
  }

  lemma TextDoesNotReadBack(v: int, base: nat, width: int, padc: char)
    requires 2 <= base <= 16 && padc in {' ', '0', '-'}
    requires !ReadsBack(v, base, width, padc)
    ensures var s := NumberText(v, base, width, padc);
      Strtol(s, base) != (v, |s|)
  {
    var ds, k := Digits(Abs(v), base), Padding(v, base, width);
    var s := NumberText(v, base, width, padc);
    DigitsDenote(Abs(v), base);
    if v >= 0 && k == 1 {
      assert s == Pad(' ', 0) + Sign(true) + ds;
      ReadsNumber(s, 0, true, ds, base);
    } else if v < 0 {
      assert s[0] == '-' && s[1] == padc;
      ReadsSignOnly(s, base);
    } else {
      assert s[0] == '-' && s[1] == '-';
      ReadsSignOnly(s, base);
    }
  }

  // ----- Whole formats -----

  /** No flag, `0` or `-`. */
  datatype Flag = Blanks | Zeros | Left

  function PadChar(f: Flag): (c: char)
    ensures c in {' ', '0', '-'}
  {
    match f case Blanks => ' ' case Zeros => '0' case Left => '-'
  }

  function FlagText(f: Flag): string {
    match f case Blanks => "" case Zeros => "0" case Left => "-"
  }

  /** The width part of a format: itself printed in decimal, or absent. */
  function WidthText(width: nat): string {
    if width == 0 then "" else Digits(width, 10)
  }

  /** The value of `width` while a conversion runs. */
  function WidthValue(width: nat): int32
    requires ScansAsInt(width)
  {
    if width == 0 then -1 else width
  }

  predicate IsNumeric(conv: char) {
    conv in {'d', 'u', 'o', 'x', 'p'}
  }

  function BaseOf(conv: char): (base: nat)
    ensures 2 <= base <= 16
  {
    match conv case 'x' => 16 case 'p' => 16 case 'o' => 8 case _ => 10
  }

  /** `%`, a flag, a width, perhaps `l`, and a conversion. */
  function NumberFormat(f: Flag, width: nat, long: bool, conv: char): (fmt: CString)
    requires IsNumeric(conv)
  {
    DigitsDenote(width, 10);
    var w := WidthText(width);
    var fmt := "%" + FlagText(f) + w + (if long then "l" else "") + [conv];
    assert forall i :: 0 <= i < |w| ==> IsDigit(w[i], 10);
    fmt
  }

  /** The flags in force when its conversion runs. */
  function NumberFlags(f: Flag, width: nat, long: bool): Flags
    requires ScansAsInt(width)
  {
    Flags(PadChar(f), WidthValue(width), -1, if long then 1 else 0, false)
  }

  /** The parts of such a format by index. */
  ghost predicate Shaped(fmt: CString, f: Flag, width: nat, long: bool, conv: char) {
    var i := 1 + |FlagText(f)|;
    var j := i + |WidthText(width)|;
    && |fmt| == j + (if long then 2 else 1)
    && fmt[0] == '%' && fmt[1..i] == FlagText(f) && fmt[i..j] == WidthText(width)
    && (long ==> fmt[j] == 'l') && fmt[|fmt| - 1] == conv
  }

  lemma NumberFormatShape(f: Flag, width: nat, long: bool, conv: char)
    requires IsNumeric(conv)
    ensures Shaped(NumberFormat(f, width, long, conv), f, width, long, conv)
  {
    var fmt, w := NumberFormat(f, width, long, conv), WidthText(width);
    var head, tail := "%" + FlagText(f), (if long then "l" else "") + [conv];
    assert fmt == head + w + tail;
    assert fmt[..|head|] == head;
    assert fmt[1..|head|] == head[1..] == FlagText(f);
    assert fmt[|head|..|head| + |w|] == w;
    assert fmt[|head| + |w|..] == tail;
  }

  lemma LengthParses(fmt: CString, j: nat, fl: Flags, long: bool, args: seq<Arg>)
    requires |fmt| == j + (if long then 2 else 1) && (long ==> fmt[j] == 'l')
    requires IsNumeric(fmt[|fmt| - 1]) && fl.lflag == 0
    ensures ParseEscape(fmt, j, fl, args)
         == Escape(|fmt| - 1, fl.(lflag := if long then 1 else 0), args)
  {
    if long {
      var fl' := fl.(lflag := 1);
      assert ParseEscape(fmt, j + 1, fl', args) == Escape(j + 1, fl', args);
    }
  }

  /** The escape parser reads the printed width back. */
  lemma NumberFormatParses(f: Flag, width: nat, long: bool, conv: char, args: seq<Arg>)
    requires IsNumeric(conv) && ScansAsInt(width)
    ensures var fmt := NumberFormat(f, width, long, conv);
      ParseEscape(fmt, 1, NO_FLAGS, args) == Escape(|fmt| - 1, NumberFlags(f, width, long), args)
  {
    NumberFormatShape(f, width, long, conv);
    ShapedParses(NumberFormat(f, width, long, conv), f, width, long, conv, args);
  }

  lemma ShapedParses(fmt: CString, f: Flag, width: nat, long: bool, conv: char, args: seq<Arg>)
    requires IsNumeric(conv) && ScansAsInt(width) && Shaped(fmt, f, width, long, conv)
    ensures ParseEscape(fmt, 1, NO_FLAGS, args)
         == Escape(|fmt| - 1, NumberFlags(f, width, long), args)
  {
    FlagParses(f, fmt, args);
    AfterFlagParses(fmt, 1 + |FlagText(f)|, PadChar(f), width, long, args);
  }

  lemma AfterFlagParses(fmt: CString, i: nat, padc: char, width: nat, long: bool, args: seq<Arg>)
    requires ScansAsInt(width)
    requires var j := i + |WidthText(width)|;
      && |fmt| == j + (if long then 2 else 1) && fmt[i..j] == WidthText(width)
      && (long ==> fmt[j] == 'l') && IsNumeric(fmt[|fmt| - 1])
    ensures ParseEscape(fmt, i, NO_FLAGS.(padc := padc), args)
         == Escape(|fmt| - 1, Flags(padc, WidthValue(width), -1, if long then 1 else 0, false), args)
  {
    var fl := NO_FLAGS.(padc := padc);
    if width > 0 {
      WidthParses(fmt, i, width, fl, args);
    }
    LengthParses(fmt, i + |WidthText(width)|, fl.(width := WidthValue(width)), long, args);
  }

  lemma FlagParses(f: Flag, fmt: CString, args: seq<Arg>)
    requires |fmt| > 1 + |FlagText(f)| && fmt[1..1 + |FlagText(f)|] == FlagText(f)
    ensures ParseEscape(fmt, 1, NO_FLAGS, args)
         == ParseEscape(fmt, 1 + |FlagText(f)|, NO_FLAGS.(padc := PadChar(f)), args)
  {
    if f != Blanks {
      assert fmt[1] == fmt[1..2][0] == FlagText(f)[0];
    }
  }

  lemma WidthParses(fmt: CString, i: nat, width: nat, fl: Flags, args: seq<Arg>)
    requires width > 0 && ScansAsInt(width) && fl.width < 0 && fl.precision == -1
    requires i + |Digits(width, 10)| < |fmt|
    requires fmt[i..i + |Digits(width, 10)|] == Digits(width, 10)
    requires !IsDigit(fmt[i + |Digits(width, 10)|], 10)
    ensures ParseEscape(fmt, i, fl, args)
         == ParseEscape(fmt, i + |Digits(width, 10)|, fl.(width := width), args)
  {
    var w := Digits(width, 10);
    var j := i + |w|;
    DigitsDenote(width, 10);
    forall k | i <= k < j
      ensures IsDigit(fmt[k], 10)
    {
      assert fmt[k] == w[k - i];
    }
    DigitsEndIs(fmt, i, j, 10);
    assert fmt[i] == w[0] && w[0] != '0' && IsDigit(w[0], 10);
  }

  /** One numeric conversion is the whole format. */
  lemma NumberFormatPrints(f: Flag, width: nat, long: bool, conv: char, a: Arg, s: string)
    requires IsNumeric(conv) && ScansAsInt(width)
    requires Convert(conv, NumberFlags(f, width, long), [a]) == Some(s)
    ensures Output(NumberFormat(f, width, long, conv), 0, [a]) == Some(s)
  {
    var fmt := NumberFormat(f, width, long, conv);
    NumberFormatShape(f, width, long, conv);
    NumberFormatParses(f, width, long, conv, [a]);
    PrependEmpty(s);
    assert Output(fmt, |fmt|, [a][1..]) == Some("");
  }

  // ----- Longs -----

  /** The `va_list` slot of a `long`. */
  function LongArg(v: int): Arg
    requires -TWO63 <= v < TWO63
  {
    Word(if v < 0 then v + TWO64 else v)
  }

  /** The longs that a conversion prints as numbers of the same sign; the least one cannot
      be negated. */
  predicate Printable(v: int, conv: char) {
    && conv in {'d', 'u', 'o', 'x'}
    && -TWO63 < v < TWO63 && (conv != 'd' ==> 0 <= v)
  }

  /** `NumberText` under the flag, width and conversion of a format. */
  function LongText(v: int, f: Flag, width: nat, conv: char): CString
    requires ScansAsInt(width)
  {
    NumberText(v, BaseOf(conv), WidthValue(width), PadChar(f))
  }

  lemma LongConverts(v: int, f: Flag, width: nat, conv: char)
    requires Printable(v, conv) && ScansAsInt(width)
    ensures Convert(conv, NumberFlags(f, width, true), [LongArg(v)])
         == Some(LongText(v, f, width, conv))
  {
    var fl := NumberFlags(f, width, true);
    WordDigits(Abs(v), BaseOf(conv));
    var t := NumText(Abs(v), BaseOf(conv), fl.width, fl.padc);
    assert "" + t == t;
  }

  /** Printing a long with any flag and any width, and reading it back with strtol in the
      same base, gives the number and leaves endptr at the end of the text, if and only if
      the padding was harmless. */
  lemma PrintThenParse(v: int, f: Flag, width: nat, conv: char)
    requires Printable(v, conv) && ScansAsInt(width)
    ensures var s := LongText(v, f, width, conv);
      && Output(NumberFormat(f, width, true, conv), 0, [LongArg(v)]) == Some(s)
      && (Strtol(s, BaseOf(conv)) == (v, |s|)
          <==> ReadsBack(v, BaseOf(conv), WidthValue(width), PadChar(f)))
  {
    LongConverts(v, f, width, conv);
    NumberFormatPrints(f, width, true, conv, LongArg(v), LongText(v, f, width, conv));
    if ReadsBack(v, BaseOf(conv), WidthValue(width), PadChar(f)) {
      TextReadsBack(v, BaseOf(conv), WidthValue(width), PadChar(f));
    } else {
      TextDoesNotReadBack(v, BaseOf(conv), WidthValue(width), PadChar(f));
    }
  }

  // ----- Ints -----

  /** The ints, or for the unsigned conversions the unsigned ints. */
  predicate PrintableInt(v: int, conv: char) {
    if conv == 'd' then -TWO31 <= v < TWO31 else conv in {'u', 'o', 'x'} && 0 <= v < TWO32
  }

  /** Without `l` the upper half of the argument's slot does not matter. */
  lemma LowHalf(v: int, bits: u64)
    requires -TWO31 <= v < TWO32 && bits % TWO32 == v % TWO32
    ensures 0 <= v ==> AsUint(Word(bits)) == v
    ensures v < TWO31 ==> AsInt(Word(bits)) == v
  {
  }

  lemma UnsignedIntConverts(v: int, bits: u64, fl: Flags, conv: char)
    requires 0 <= v < TWO32 && bits % TWO32 == v && conv in {'u', 'o', 'x'} && fl.lflag == 0
    ensures Convert(conv, fl, [Word(bits)]) == NumberIfFits(v, BaseOf(conv), fl)
  {
    LowHalf(v, bits);
  }

  lemma IntConverts(v: int, bits: u64, f: Flag, width: nat, conv: char)
    requires PrintableInt(v, conv) && bits % TWO32 == v % TWO32 && ScansAsInt(width)
    ensures Convert(conv, NumberFlags(f, width, false), [Word(bits)])
         == Some(LongText(v, f, width, conv))
  {
    var fl := NumberFlags(f, width, false);
    WordDigits(Abs(v), BaseOf(conv));
    var t := NumText(Abs(v), BaseOf(conv), fl.width, fl.padc);
    assert "" + t == t;
    if conv == 'd' {
      LowHalf(v, bits);
    } else {
      UnsignedIntConverts(v, bits, fl, conv);
    }
  }

  /** The round trip of an int or unsigned int, in whatever 64-bit slot it is passed. */
  lemma PrintThenParseInt(v: int, bits: u64, f: Flag, width: nat, conv: char)
    requires PrintableInt(v, conv) && bits % TWO32 == v % TWO32 && ScansAsInt(width)
    ensures var s := LongText(v, f, width, conv);
      && Output(NumberFormat(f, width, false, conv), 0, [Word(bits)]) == Some(s)
      && (Strtol(s, BaseOf(conv)) == (v, |s|)
          <==> ReadsBack(v, BaseOf(conv), WidthValue(width), PadChar(f)))
  {
    IntConverts(v, bits, f, width, conv);
    NumberFormatPrints(f, width, false, conv, Word(bits), LongText(v, f, width, conv));
    if ReadsBack(v, BaseOf(conv), WidthValue(width), PadChar(f)) {
      TextReadsBack(v, BaseOf(conv), WidthValue(width), PadChar(f));
    } else {
      TextDoesNotReadBack(v, BaseOf(conv), WidthValue(width), PadChar(f));
    }
  }

  // ----- Pointers -----

  function PointerText(bits: u64, width: int, padc: char): (s: CString)
    requires padc != '\0'
  {
    DigitsDenote(bits, 16);
    var ds := Digits(bits, 16);
    assert forall i :: 0 <= i < |ds| ==> IsDigit(ds[i], 16);
    "0x" + NumText(bits, 16, width, padc)
  }

  /** After the prefix only zeros may pad. */
  lemma PointerTextReadsBackIff(bits: u64, width: int, padc: char)
    requires padc in {' ', '0', '-'}
    ensures var s := PointerText(bits, width, padc);
      Strtol(s, 16) == (bits, |s|) <==> width <= |Digits(bits, 16)| || padc == '0'
  {
    var ds, k := Digits(bits, 16), width - |Digits(bits, 16)|;
    var s := PointerText(bits, width, padc);
    DigitsDenote(bits, 16);
    if k <= 0 {
      assert Pad(padc, k) + ds == ds;
      ReadsHex(s, ds);
    } else if padc == '0' {
      LeadingZeros(k, ds, 16);
      ReadsHex(s, Pad('0', k) + ds);
    } else {
      assert s[2] == padc;
      ReadsPrefixOnly(s);
    }
  }

  lemma PointerConverts(bits: u64, f: Flag, width: nat)
    requires ScansAsInt(width)
    ensures Convert('p', NumberFlags(f, width, false), [Word(bits)])
         == Some(PointerText(bits, WidthValue(width), PadChar(f)))
  {
    WordDigits(bits, 16);
  }

  /** `%p` with any flag and width reads back in base 16, whose prefix it prints, if and
      only if it is not padded, or padded with zeros. */
  lemma PrintThenParsePointer(bits: u64, f: Flag, width: nat)
    requires bits < TWO63 && ScansAsInt(width)
    ensures var s := PointerText(bits, WidthValue(width), PadChar(f));
      && Output(NumberFormat(f, width, false, 'p'), 0, [Word(bits)]) == Some(s)
      && (Strtol(s, 16) == (bits, |s|)
          <==> WidthValue(width) <= |Digits(bits, 16)| || f == Zeros)
  {
    var s := PointerText(bits, WidthValue(width), PadChar(f));
    PointerConverts(bits, f, width);
    NumberFormatPrints(f, width, false, 'p', Word(bits), s);
    PointerTextReadsBackIff(bits, WidthValue(width), PadChar(f));
  }
}
