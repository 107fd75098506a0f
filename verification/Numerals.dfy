/** The forms of a numeral that strtol accepts and the printer never produces: signs, tabs,
    base prefixes and capital letters (libs/string.c). */
module Numerals {
  import opened Strings
  import opened Format
  import opened RoundTrip

  predicate IsSign(sign: string) {
    sign in {"", "+", "-"}
  }

  /** Neither a blank nor a sign comes first. */
  predicate StartsBare(body: CString) {
    body != "" ==> !IsBlank(body[0]) && body[0] != '+' && body[0] != '-'
  }

  /** Blanks and a sign come first, then `body`. */
  ghost predicate Leads(s: CString, blanks: nat, sign: string, body: CString) {
    && IsSign(sign) && StartsBare(body) && IsTail(s, blanks + |sign|, body)
    && (forall i :: 0 <= i < blanks ==> IsBlank(s[i]))
    && (sign != "" ==> s[blanks] == sign[0])
  }

  lemma LeadingChars(s: CString, blanks: nat, sign: string, body: CString)
    requires Leads(s, blanks, sign, body)
    ensures BlanksEnd(s, 0) == blanks && BlanksEnd(body, 0) == 0
    ensures At(s, blanks) == if sign == "" then At(body, 0) else sign[0]
    ensures At(body, 0) != '-' && At(body, 0) != '+'
    ensures At(s, blanks + |sign|) == At(body, 0)
    ensures body != "" ==> At(s, blanks + |sign| + 1) == At(body, 1)
  {
    BlanksEndIs(s, 0, blanks);
    BlanksEndIs(body, 0, 0);
  }

  /** The reading of a numeral whose prefix and digits start at index `b`. */
  function Bare(s: CString, b: nat, neg: bool, base: int): (r: Reading)
    requires b <= |s|
    ensures b <= r.start <= r.end <= |s|
  {
    var hex := (base == 0 || base == 16) && At(s, b) == '0' && At(s, b + 1) == 'x';
    var octal := !hex && base == 0 && At(s, b) == '0';
    var c := if hex then b + 2 else if octal then b + 1 else b;
    var radix := if hex then 16 else if octal then 8 else if base == 0 then 10 else base;
    Reading(neg, radix, c, DigitsEnd(s, c, radix))
  }

  lemma ReadIsBare(s: CString, blanks: nat, sign: string, body: CString, base: int)
    requires Leads(s, blanks, sign, body)
    ensures Read(s, base) == Bare(s, blanks + |sign|, sign == "-", base)
    ensures Read(body, base) == Bare(body, 0, false, base)
  {
    LeadingChars(s, blanks, sign, body);
  }

  lemma TailSlice(s: string, k: nat, t: string, i: nat, j: nat)
    requires IsTail(s, k, t) && i <= j <= |t|
    ensures s[k + i..k + j] == t[i..j]
  {
  }

  lemma BareMoves(s: CString, k: nat, body: CString, neg: bool, base: int)
    requires IsTail(s, k, body)
    ensures var r := Bare(body, 0, false, base);
      Bare(s, k, neg, base) == Reading(neg, r.base, k + r.start, k + r.end)
  {
    assert At(s, k) == At(body, 0);
    assert body != "" ==> At(s, k + 1) == At(body, 1);
    var r := Bare(body, 0, false, base);
    DigitsEndBehind(s, k, body, r.start, r.base);
  }

  /** What strtol makes of the whole, given what it makes of the body. */
  lemma ReadBehind(s: CString, blanks: nat, sign: string, body: CString, base: int)
    requires Leads(s, blanks, sign, body)
    ensures var r, k := Read(body, base), blanks + |sign|;
      !r.neg && Read(s, base) == Reading(sign == "-", r.base, k + r.start, k + r.end)
  {
    ReadIsBare(s, blanks, sign, body, base);
    BareMoves(s, blanks + |sign|, body, sign == "-", base);
  }

  lemma StrtolBehind(s: CString, blanks: nat, sign: string, body: CString, base: int)
    requires Leads(s, blanks, sign, body)
    ensures var v := Strtol(body, base).0;
      Strtol(s, base).0 == if sign == "-" then -v else v
    ensures Strtol(s, base).1 == blanks + |sign| + Strtol(body, base).1
  {
    ReadBehind(s, blanks, sign, body, base);
    var r := Read(body, base);
    TailSlice(s, blanks + |sign|, body, r.start, r.end);
  }

  /** Blanks and tabs are skipped, a '+' changes nothing and a '-' the sign. */
  lemma BlanksAndSign(s: CString, blanks: string, sign: string, body: CString, base: int)
    requires s == blanks + sign + body && IsSign(sign) && StartsBare(body)
    requires forall i :: 0 <= i < |blanks| ==> blanks[i] in {' ', '\t'}
    ensures var v := Strtol(body, base).0;
      Strtol(s, base).0 == if sign == "-" then -v else v
    ensures Strtol(s, base).1 == |blanks| + |sign| + Strtol(body, base).1
  {
    assert Leads(s, |blanks|, sign, body);
    StrtolBehind(s, |blanks|, sign, body, base);
  }

  /** The base that base 0 stands for. */
  function PrefixBase(body: CString): int {
    if |body| >= 2 && body[..2] == "0x" then 16
    else if body != "" && body[0] == '0' then 8
    else 10
  }

  /** Base 0 reads a number in the base that its prefix names. */
  lemma BaseZero(body: CString)
    requires body != "" && '0' <= body[0] <= '9'
    ensures Strtol(body, 0) == Strtol(body, PrefixBase(body))
  {
    BlanksEndIs(body, 0, 0);
    if PrefixBase(body) == 8 {
      assert IsDigit(body[0], 8);
      var e := DigitsEnd(body, 1, 8);
      var ds := body[1..e];
      assert body[0..e] == Pad('0', 1) + ds;
      LeadingZeros(1, ds, 8);
    }
  }

  function Capital(c: char): char {
    if 'a' <= c <= 'z' then (c as int - 32) as char else c
  }

  function Capitals(s: string): (t: string)
    ensures |t| == |s|
  {
    seq(|s|, i requires 0 <= i < |s| => Capital(s[i]))
  }

  /** Capital letters are the same digits as small ones. */
  lemma {:induction false} CapitalsDenote(ds: string, base: int)
    requires AllDigits(ds, base)
    ensures AllDigits(Capitals(ds), base) && Value(Capitals(ds), base) == Value(ds, base)
    decreases |ds|
  {
    var cs := Capitals(ds);
    forall i | 0 <= i < |ds|
      ensures DigitVal(cs[i]) == DigitVal(ds[i])
    {
      CapitalDigit(ds[i]);
    }
    forall i | 0 <= i < |ds|
      ensures IsDigit(cs[i], base)
    {
      assert IsDigit(ds[i], base);
    }
    if ds != [] {
      CapitalsDenote(ds[..|ds| - 1], base);
      assert cs[..|cs| - 1] == Capitals(ds[..|ds| - 1]);
    }
  }

  lemma CapitalDigit(c: char)
    ensures DigitVal(Capital(c)) == DigitVal(c)
  {
  }
}
