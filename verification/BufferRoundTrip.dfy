/** Printing into a buffer and parsing what the buffer holds. */
module BufferRoundTrip {
  import opened Options
  import opened Words
  import opened Strings
  import opened Format
  import opened Printfmt
  import opened RoundTrip

  /** strtol is past padding and sign no later than where the digits start. */
  lemma StartsByDigits(t: CString, q: nat, base: nat)
    requires 2 <= base <= 16
    requires forall i :: 0 <= i < q && i < |t| ==> t[i] == ' ' || t[i] == '-'
    requires forall i :: q <= i < |t| ==> IsDigit(t[i], base)
    ensures Read(t, base).base == base && Read(t, base).start <= q
  {
    var a := BlanksEnd(t, 0);
    assert q < |t| ==> !IsBlank(t[q]);
    assert a <= q;
    if a < |t| && t[a] == '-' {
      assert a != q;
    }
  }

  /** Padding and sign, then digits, cut off anywhere: strtol reads at most the number that
      the digits denote. */
  lemma CutTextIsSmall(s: CString, k: nat, q: nat, base: nat)
    requires 2 <= base <= 16 && q <= |s| && k <= |s|
    requires forall i :: 0 <= i < q ==> s[i] == ' ' || s[i] == '-'
    requires AllDigits(s[q..], base)
    ensures Magnitude(s[..k], base) <= Value(s[q..], base)
  {
    var t, ds := s[..k], s[q..];
    forall i | q <= i < |t|
      ensures IsDigit(t[i], base)
    {
      assert t[i] == ds[i - q];
    }
    StartsByDigits(t, q, base);
    var r := Read(t, base);
    ValueMonotone(ds, 0, base);
    if r.end > r.start {
      assert IsDigit(t[r.start..r.end][0], base);
      assert r.start == q;
      assert t[q..r.end] == ds[..r.end - q];
      ValueMonotone(ds, r.end - q, base);
    }
  }

  /** Where the digits of a printed number start, padding zeros included. */
  ghost predicate DigitsFrom(s: string, q: nat, base: int, v: int) {
    && q <= |s|
    && (forall i :: 0 <= i < q ==> s[i] == ' ' || s[i] == '-')
    && AllDigits(s[q..], base) && Value(s[q..], base) == Abs(v)
  }

  lemma DigitsBehind(s: string, head: string, ds: string, base: int, v: int)
    requires s == head + ds && AllDigits(ds, base) && Value(ds, base) == Abs(v)
    requires forall i :: 0 <= i < |head| ==> head[i] == ' ' || head[i] == '-'
    ensures DigitsFrom(s, |head|, base, v)
  {
    assert s[|head|..] == ds;
  }

  lemma ZeroPaddedFrom(v: int, base: nat, width: int) returns (q: nat)
    requires 2 <= base <= 16
    ensures DigitsFrom(NumberText(v, base, width, '0'), q, base, v)
  {
    var ds := Digits(Abs(v), base);
    var pad := Pad('0', width - |ds|);
    DigitsDenote(Abs(v), base);
    LeadingZeros(|pad|, ds, base);
    assert pad == Pad('0', |pad|);
    DigitsBehind(NumberText(v, base, width, '0'), Sign(v < 0), pad + ds, base, v);
    q := |Sign(v < 0)|;
  }

  lemma OtherPaddedFrom(v: int, base: nat, width: int, padc: char) returns (q: nat)
    requires 2 <= base <= 16 && (padc == ' ' || padc == '-')
    ensures DigitsFrom(NumberText(v, base, width, padc), q, base, v)
  {
    var ds := Digits(Abs(v), base);
    var head := Sign(v < 0) + Pad(padc, width - |ds|);
    DigitsDenote(Abs(v), base);
    assert NumberText(v, base, width, padc) == head + ds;
    DigitsBehind(NumberText(v, base, width, padc), head, ds, base, v);
    q := |head|;
  }

  /** No part of a printed number overflows when it is read. */
  lemma CutNumberIsSmall(v: int, base: nat, width: int, padc: char, k: nat)
    requires 2 <= base <= 16 && padc in {' ', '0', '-'}
    requires k <= |NumberText(v, base, width, padc)|
    ensures Magnitude(NumberText(v, base, width, padc)[..k], base) <= Abs(v)
  {
    var s := NumberText(v, base, width, padc);
    var q;
    if padc == '0' {
      q := ZeroPaddedFrom(v, base, width);
    } else {
      q := OtherPaddedFrom(v, base, width, padc);
    }
    CutTextIsSmall(s, k, q, base);
  }

  lemma LongTextFitsInt(v: int, f: Flag, width: nat, conv: char)
    requires Printable(v, conv) && ScansAsInt(width)
    ensures |LongText(v, f, width, conv)| < TWO31
  {
    WordDigits(Abs(v), BaseOf(conv));
  }

  /** A proper part of a text is never read to the end of the text. */
  lemma CutReadsBackIff(v: int, f: Flag, width: nat, conv: char, k: nat)
    requires Printable(v, conv) && ScansAsInt(width) && k <= |LongText(v, f, width, conv)|
    ensures var s := LongText(v, f, width, conv);
      Strtol(s[..k], BaseOf(conv)) == (v, |s|) <==>
        k == |s| && ReadsBack(v, BaseOf(conv), WidthValue(width), PadChar(f))
  {
    PrintThenParse(v, f, width, conv);
    var s := LongText(v, f, width, conv);
    if k == |s| {
      assert s[..k] == s;
    }
  }

  /** What is left of a text in a buffer of `size` characters. */
  function Kept(s: string, size: nat): (k: nat)
    requires 0 < size
    ensures k <= |s| && k < size
  {
    if |s| < size then |s| else size - 1
  }

  /** The memory at `start` is the C string `t`. */
  ghost predicate HoldsString(mem: array<char>, start: nat, t: CString)
    reads mem
  {
    start + |t| < mem.Length && mem[start..start + |t|] == t && mem[start + |t|] == '\0'
  }

  /** snprintf, and the string that it leaves behind. */
  method PrintText(buf: array<char>, start: nat, size: u64, fmt: CString, args: seq<Arg>,
                   ghost s: CString)
      returns (cnt: int)
    requires 0 < size && start + size <= buf.Length
    requires Output(fmt, 0, args) == Some(s) && |s| < TWO31
    modifies buf
    ensures cnt == |s| && HoldsString(buf, start, s[..Kept(s, size)])
  {
    cnt := VSnPrintf(buf, start, size, fmt, args);
  }

  method PrintLong(buf: array<char>, start: nat, size: u64,
                   v: int, f: Flag, width: nat, conv: char)
      returns (cnt: int)
    requires 0 < size && start + size <= buf.Length
    requires Printable(v, conv) && ScansAsInt(width)
    modifies buf
    ensures var s := LongText(v, f, width, conv);
      cnt == |s| && HoldsString(buf, start, s[..Kept(s, size)])
  {
    PrintThenParse(v, f, width, conv);
    LongTextFitsInt(v, f, width, conv);
    var fmt, arg := NumberFormat(f, width, true, conv), LongArg(v);
    cnt := PrintText(buf, start, size, fmt, [arg], LongText(v, f, width, conv));
  }

  /** strtol of the memory at `start`: it reads up to the first terminator. */
  method ParseBuffer(mem: array<char>, start: nat, base: int, ghost t: CString)
      returns (result: int, endptr: nat)
    requires HoldsString(mem, start, t) && Magnitude(t, base) < TWO63
    ensures (result, endptr) == Strtol(t, base)
  {
    assert forall i :: start <= i < start + |t| ==> mem[i] == t[i - start];
    var n := StrLen(mem, start, start + |t|);
    result, endptr := StrToL(mem[start..start + n], base);
  }

  /** snprintf of a long, then strtol of the buffer: the number and the length of its text
      come back if and only if the buffer held the whole text and the padding was harmless. */
  method PrintAndParse(buf: array<char>, start: nat, size: u64,
                       v: int, f: Flag, width: nat, conv: char)
      returns (result: int, endptr: nat)
    requires 0 < size && start + size <= buf.Length
    requires Printable(v, conv) && ScansAsInt(width)
    modifies buf
    ensures var s := LongText(v, f, width, conv);
      (result, endptr) == (v, |s|) <==>
        |s| < size && ReadsBack(v, BaseOf(conv), WidthValue(width), PadChar(f))
  {
    var _ := PrintLong(buf, start, size, v, f, width, conv);
    ghost var s := LongText(v, f, width, conv);
    ghost var k := Kept(s, size);
    CutNumberIsSmall(v, BaseOf(conv), WidthValue(width), PadChar(f), k);
    CutReadsBackIff(v, f, width, conv, k);
    result, endptr := ParseBuffer(buf, start, BaseOf(conv), s[..k]);
  }
}
