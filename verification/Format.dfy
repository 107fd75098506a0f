/** What a format string and an argument list print: a reference for vprintfmt
    (libs/printfmt.c) that parses each escape once and never rewinds. */
module Format {
  import opened Arithmetic
  import opened Options
  import opened Words
  import opened Strings

  /** A string that fits in memory. */
  type Text = s: CString | |s| < TWO63 witness ""

  /** One slot of a `va_list`: 64 bits, or a pointer to a C string. */
  datatype Arg = Word(bits: u64) | Str(addr: u64, text: Text)

  function Bits64(a: Arg): u64 {
    match a
    case Word(bits) => bits
    case Str(addr, _) => addr
  }

  // What va_arg makes of the slot at each type.

  function AsUint(a: Arg): int {
    Bits64(a) % TWO32
  }

  function AsInt(a: Arg): int32 {
    if AsUint(a) < TWO31 then AsUint(a) else AsUint(a) - TWO32
  }

  function AsLong(a: Arg): int {
    if Bits64(a) < TWO63 then Bits64(a) else Bits64(a) - TWO64
  }

  function AsChar(v: int): char {
    (v % 256) as char
  }

  // ----- Numbers -----

  function DigitChar(d: nat): char
    requires d < 16
  {
    "0123456789abcdef"[d]
  }

  function Digits(num: nat, base: nat): (r: string)
    requires 2 <= base <= 16
    ensures |r| > 0
  {
    if num >= base then
      DivHalves(num, base);
      Digits(num / base, base) + [DigitChar(num % base)]
    else [DigitChar(num)]
  }

  function Pad(c: char, k: int): string {
    seq(if k > 0 then k else 0, _ => c)
  }

  function NumText(num: nat, base: nat, width: int, padc: char): string
    requires 2 <= base <= 16
  {
    var ds := Digits(num, base);
    Pad(padc, width - |ds|) + ds
  }

  /** A number below 2^k has at most k digits in any base, if it has more than one. */
  lemma {:induction false} DigitsShort(num: nat, base: nat, k: nat)
    requires 2 <= base <= 16 && 0 < k && num < Power2(k)
    ensures |Digits(num, base)| <= k
    decreases k
  {
    assert Power2(1) == 2;
    if num >= base {
      DivHalves(num, base);
      DigitsShort(num / base, base, k - 1);
    }
  }

  lemma WordDigits(num: u64, base: nat)
    requires 2 <= base <= 16
    ensures |Digits(num, base)| <= 64
  {
    Power2Of64();
    DigitsShort(num, base, 64);
  }

  /** How the padded text of a number is built digit by digit. */
  lemma NumTextStep(num: nat, base: nat, width: int, padc: char)
    requires 2 <= base <= 16
    ensures NumText(num, base, width, padc)
         == (if num >= base then NumText(num / base, base, width - 1, padc) else Pad(padc, width - 1))
          + [DigitChar(num % base)]
  {
    if num < base {
      assert num % base == num by {
        SmallMod(num, base);
      }
    }
  }

  lemma Assoc(a: string, b: string, c: string)
    ensures (a + b) + c == a + (b + c)
  {
  }

  // ----- Escapes -----

  datatype Flags = Flags(padc: char, width: int32, precision: int32, lflag: int32, alt: bool)

  const NO_FLAGS := Flags(' ', -1, -1, 0, false)

  /** `process_precision`: the first number is the width, later ones the precision. */
  function WithNumber(fl: Flags, v: int32): Flags {
    if fl.width < 0 then fl.(width := v, precision := -1) else fl.(precision := v)
  }

  /** The digit loop adds the next character to ten times the number before it subtracts
      '0', and the sum is an `int`. */
  predicate ScansAsInt(v: int) {
    0 <= v && v + '0' as int < TWO31
  }

  /** An escape up to its conversion character, which is at index `at`; that may be the
      terminator.  `Undefined` when it asks for an argument that is not there, and when a
      number or the count of `l` overflows an `int`. */
  datatype Escape = Escape(at: nat, fl: Flags, args: seq<Arg>) | Undefined

  function ParseEscape(fmt: CString, i: nat, fl: Flags, args: seq<Arg>): (r: Escape)
    requires i <= |fmt|
    ensures r.Escape? ==> i <= r.at <= |fmt| && forall k :: i <= k < r.at ==> fmt[k] != '%'
    ensures r.Escape? && args == [] ==> r.args == []
    decreases |fmt| - i
  {
    var c := At(fmt, i);
    if c == '-' then ParseEscape(fmt, i + 1, fl.(padc := '-'), args)
    else if c == '0' then ParseEscape(fmt, i + 1, fl.(padc := '0'), args)
    else if '1' <= c <= '9' then
      var j := DigitsEnd(fmt, i, 10);
      var v := Value(fmt[i..j], 10);
      assert forall k :: i <= k < j ==> fmt[k] == fmt[i..j][k - i];
      if ScansAsInt(v) then ParseEscape(fmt, j, WithNumber(fl, v), args) else Undefined
    else if c == '*' then
      if args == [] then Undefined
      else ParseEscape(fmt, i + 1, WithNumber(fl, AsInt(args[0])), args[1..])
    else if c == '.' then
      ParseEscape(fmt, i + 1, if fl.width < 0 then fl.(width := 0) else fl, args)
    else if c == '#' then ParseEscape(fmt, i + 1, fl.(alt := true), args)
    else if c == 'l' then
      if fl.lflag == TWO31 - 1 then Undefined
      else ParseEscape(fmt, i + 1, fl.(lflag := fl.lflag + 1), args)
    else Escape(i, fl, args)
  }

  predicate IsConversion(c: char) {
    c in {'c', 'e', 's', 'd', 'u', 'o', 'p', 'x', '%'}
  }

  const MAXERROR: nat := 6

  /** `error_string`, from 1 to MAXERROR. */
  function ErrorString(err: nat): (r: Text)
    requires 1 <= err <= MAXERROR
  {
    if err == 1 then "unspecified error"
    else if err == 2 then "bad process"
    else if err == 3 then "invalid parameter"
    else if err == 4 then "out of memory"
    else if err == 5 then "out of processes"
    else "segmentation fault"
  }

  function Visible(c: char, alt: bool): char {
    if alt && (c < ' ' || c > '~') then '?' else c
  }

  function ShownLength(s: string, precision: int): (n: nat)
    ensures n <= |s|
  {
    if 0 <= precision < |s| then precision else |s|
  }

  function Shown(s: string, n: nat, alt: bool): string
    requires n <= |s|
  {
    seq(n, i requires 0 <= i < n => Visible(s[i], alt))
  }

  /** `%s`: at most `precision` characters, padded on the left unless the flag is `-`. */
  function StringText(s: string, fl: Flags): string {
    var n := ShownLength(s, fl.precision);
    var body := Shown(s, n, fl.alt);
    if fl.padc == '-' then body + Pad(' ', fl.width - n) else Pad(fl.padc, fl.width - n) + body
  }

  /** How the C code splits the padding of `%s` around the characters. */
  lemma StringTextParts(s: string, fl: Flags)
    ensures var n := ShownLength(s, fl.precision);
      StringText(s, fl)
        == Pad(fl.padc, if fl.width > 0 && fl.padc != '-' then fl.width - n else 0)
         + Shown(s, n, fl.alt)
         + Pad(' ', if fl.padc == '-' || fl.width <= 0 then fl.width - n else 0)
  {
  }

  /** The width is a minimum and the precision of a string a maximum: how long a field is. */
  lemma FieldLength(num: nat, base: nat, s: string, fl: Flags)
    requires 2 <= base <= 16
    ensures var d := |Digits(num, base)|;
      |NumText(num, base, fl.width, fl.padc)| == if fl.width > d then fl.width else d
    ensures var n := ShownLength(s, fl.precision);
      |StringText(s, fl)| == if fl.width > n then fl.width else n
  {
  }

  /** `%d`: the sign comes before the padding. */
  function SignedText(v: int, width: int, padc: char): string {
    if v < 0 then "-" + NumText(-v, 10, width, padc) else NumText(v, 10, width, padc)
  }

  function UnsignedArg(a: Arg, lflag: int32): u64 {
    if lflag > 0 then Bits64(a) else AsUint(a)
  }

  function ErrorText(err: int): string {
    var e := if err < 0 then -err else err;
    if 1 <= e <= MAXERROR then ErrorString(e) else "error " + Digits(e, 10)
  }

  function Prepend(s: string, r: Option<string>): Option<string> {
    match r
    case Some(t) => Some(s + t)
    case None => None
  }

  /** printnum counts the width down once for every digit. */
  predicate NumberFits(num: nat, base: nat, width: int32)
    requires 2 <= base <= 16
  {
    width - |Digits(num, base)| >= -TWO31
  }

  /** `%s` counts the width down by the length before a padding on the left, and once for
      every character. */
  predicate StringFits(s: string, fl: Flags) {
    var n := ShownLength(s, fl.precision);
    if fl.width > n && fl.padc != '-' then n <= TWO31
    else if fl.width > 0 && fl.padc != '-' then fl.width - n - n >= -TWO31
    else fl.width - n >= -TWO31
  }

  function NumberIfFits(num: nat, base: nat, fl: Flags): Option<string>
    requires 2 <= base <= 16
  {
    if NumberFits(num, base, fl.width) then Some(NumText(num, base, fl.width, fl.padc)) else None
  }

  function StringIfFits(s: string, fl: Flags): Option<string> {
    if StringFits(s, fl) then Some(StringText(s, fl)) else None
  }

  /** What a conversion prints from its argument; `None` where the C code is undefined: no
      such argument, a wild string pointer, the negation of the least integer, or a width
      that leaves the range of `int` while it is counted down. */
  function Convert(c: char, fl: Flags, args: seq<Arg>): Option<string>
    requires IsConversion(c)
  {
    if c == '%' then Some("%")
    else if args == [] then None
    else
      var a := args[0];
      match c
      case 'c' => Some([AsChar(AsInt(a))])
      case 'e' => if AsInt(a) == -TWO31 then None else Some(ErrorText(AsInt(a)))
      case 's' =>
        if Bits64(a) == 0 then StringIfFits("(null)", fl)
        else if a.Str? then StringIfFits(a.text, fl)
        else None
      case 'd' =>
        var v := if fl.lflag > 0 then AsLong(a) else AsInt(a);
        if v == -TWO63 || !NumberFits(if v < 0 then -v else v, 10, fl.width) then None
        else Some(SignedText(v, fl.width, fl.padc))
      case 'u' => NumberIfFits(UnsignedArg(a, fl.lflag), 10, fl)
      case 'o' => NumberIfFits(UnsignedArg(a, fl.lflag), 8, fl)
      case 'p' => Prepend("0x", NumberIfFits(Bits64(a), 16, fl))
      case _ => NumberIfFits(UnsignedArg(a, fl.lflag), 16, fl)
  }

  function ArgsAfter(c: char, args: seq<Arg>): seq<Arg> {
    if c == '%' || args == [] then args else args[1..]
  }

  /** The whole output from index `i` of the format on. */
  function Output(fmt: CString, i: nat, args: seq<Arg>): Option<string>
    requires i <= |fmt|
    decreases |fmt| - i
  {
    if i == |fmt| then Some("")
    else if fmt[i] != '%' then Prepend([fmt[i]], Output(fmt, i + 1, args))
    else
      match ParseEscape(fmt, i + 1, NO_FLAGS, args)
      case Undefined => None
      case Escape(at, fl, args') =>
        var c := At(fmt, at);
        if IsConversion(c) then
          match Convert(c, fl, args')
          case None => None
          case Some(s) => Prepend(s, Output(fmt, at + 1, ArgsAfter(c, args')))
        else
          // not an escape: the characters from the '%' on, as they stand
          var stop := if at < |fmt| then at + 1 else at;
          Prepend(fmt[i..stop], Output(fmt, stop, args'))
  }

  lemma PrependTwice(s: string, t: string, r: Option<string>)
    ensures Prepend(s, Prepend(t, r)) == Prepend(s + t, r)
  {
    if r.Some? {
      assert s + (t + r.value) == (s + t) + r.value;
    }
  }

  /** Text without a '%' is printed as it stands. */
  lemma {:induction false} PlainText(fmt: CString, i: nat, j: nat, args: seq<Arg>)
    requires i <= j <= |fmt|
    requires forall k :: i <= k < j ==> fmt[k] != '%'
    ensures Output(fmt, i, args) == Prepend(fmt[i..j], Output(fmt, j, args))
    decreases j - i
  {
    if i < j {
      PlainText(fmt, i + 1, j, args);
      PrependTwice([fmt[i]], fmt[i + 1..j], Output(fmt, j, args));
      assert [fmt[i]] + fmt[i + 1..j] == fmt[i..j];
    } else {
      var r := Output(fmt, j, args);
      assert fmt[i..j] == "";
      if r.Some? {
        assert "" + r.value == r.value;
      }
    }
  }

  /** An unknown escape prints a '%' and then continues right after that '%', with the
      arguments it consumed gone: nothing after it is special before the escape's end. */
  lemma UnknownEscape(fmt: CString, i: nat, args: seq<Arg>)
    requires i < |fmt| && fmt[i] == '%'
    requires var e := ParseEscape(fmt, i + 1, NO_FLAGS, args);
      e.Escape? && !IsConversion(At(fmt, e.at))
    ensures Output(fmt, i, args)
         == Prepend("%", Output(fmt, i + 1, ParseEscape(fmt, i + 1, NO_FLAGS, args).args))
  {
    var e := ParseEscape(fmt, i + 1, NO_FLAGS, args);
    var stop := if e.at < |fmt| then e.at + 1 else e.at;
    PlainText(fmt, i + 1, stop, e.args);
    PrependTwice("%", fmt[i + 1..stop], Output(fmt, stop, e.args));
    assert "%" + fmt[i + 1..stop] == fmt[i..stop];
  }

  /** A format in which every '%' opens an unknown escape, without arguments, prints as it
      stands; the last escape may be cut off by the terminator. */
  lemma {:induction false} UnknownEscapesPrintThemselves(fmt: CString, i: nat)
    requires i <= |fmt|
    requires forall k :: i <= k < |fmt| && fmt[k] == '%' ==>
      var e := ParseEscape(fmt, k + 1, NO_FLAGS, []);
      e.Escape? && !IsConversion(At(fmt, e.at))
    ensures Output(fmt, i, []) == Some(fmt[i..])
    decreases |fmt| - i
  {
    if i == |fmt| {
      assert fmt[i..] == "";
    } else {
      UnknownEscapesPrintThemselves(fmt, i + 1);
      assert [fmt[i]] + fmt[i + 1..] == fmt[i..];
      if fmt[i] == '%' {
        UnknownEscape(fmt, i, []);
        assert Output(fmt, i, []) == Prepend("%", Some(fmt[i + 1..]));
      } else {
        assert Output(fmt, i, []) == Prepend([fmt[i]], Some(fmt[i + 1..]));
      }
    }
  }

  lemma PrependEmpty(s: string)
    ensures Prepend(s, Some("")) == Some(s)
  {
    assert s + "" == s;
  }

  /** Some 'e' follows some '%'. */
  ghost predicate MayNest(fmt: CString) {
    exists i, j :: 0 <= i < j < |fmt| && fmt[i] == '%' && fmt[j] == 'e'
  }

  /** The formats that the `%e` case passes to printfmt, which do not nest again. */
  lemma NamedError(e: nat)
    requires 1 <= e <= MAXERROR
    ensures Output("%s", 0, [Str(1, ErrorString(e))]) == Some(ErrorString(e))
    ensures !MayNest("%s")
  {
    var text := ErrorString(e);
    var args := [Str(1, text)];
    assert ParseEscape("%s", 1, NO_FLAGS, args) == Escape(1, NO_FLAGS, args);
    assert Convert('s', NO_FLAGS, args) == Some(text) by {
      assert StringText(text, NO_FLAGS) == text;
    }
    assert args[1..] == [];
    PrependEmpty(text);
  }

  lemma PlainDecimal(e: nat)
    requires e < TWO31
    ensures Convert('d', NO_FLAGS, [Word(e)]) == Some(Digits(e, 10))
  {
    assert AsUint(Word(e)) == e;
    WordDigits(e, 10);
    var ds := Digits(e, 10);
    assert Pad(' ', -1 - |ds|) + ds == ds;
  }

  lemma NumberedError(e: nat)
    requires e < TWO31
    ensures Output("error %d", 0, [Word(e)]) == Some("error " + Digits(e, 10))
    ensures !MayNest("error %d")
  {
    var fmt, args := "error %d", [Word(e)];
    PlainText(fmt, 0, 6, args);
    assert fmt[0..6] == "error ";
    assert ParseEscape(fmt, 7, NO_FLAGS, args) == Escape(7, NO_FLAGS, args);
    PlainDecimal(e);
    PrependEmpty(Digits(e, 10));
    assert Output(fmt, 6, args) == Some(Digits(e, 10));
  }

  /** One escape of the reference output. */
  lemma OutputAtEscape(fmt: CString, open: nat, args: seq<Arg>)
    requires open < |fmt| && fmt[open] == '%' && Output(fmt, open, args).Some?
    ensures var e := ParseEscape(fmt, open + 1, NO_FLAGS, args);
      && e.Escape?
      && (IsConversion(At(fmt, e.at)) ==>
        var c := At(fmt, e.at);
        var rest := Output(fmt, e.at + 1, ArgsAfter(c, e.args));
        && Convert(c, e.fl, e.args).Some? && rest.Some?
        && Output(fmt, open, args).value == Convert(c, e.fl, e.args).value + rest.value)
      && (!IsConversion(At(fmt, e.at)) ==>
        && Output(fmt, open + 1, e.args).Some?
        && Output(fmt, open, args).value == "%" + Output(fmt, open + 1, e.args).value)
  {
    var e := ParseEscape(fmt, open + 1, NO_FLAGS, args);
    if !IsConversion(At(fmt, e.at)) {
      UnknownEscape(fmt, open, args);
    }
  }
}
