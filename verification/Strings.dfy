/** C strings, and number parsing and memory moves over them (libs/string.c). */
module Strings {
  import opened Options
  import opened Words

  /** The characters before the terminator. */
  type CString = s: string | forall i :: 0 <= i < |s| ==> s[i] != '\0' witness ""

  /** A read through a pointer; it never goes past the terminator. */
  function At(s: CString, i: nat): (c: char)
    requires i <= |s|
    ensures c == '\0' <==> i == |s|
  {
    if i < |s| then s[i] else '\0'
  }

  // ----- strlen and strnlen -----

  /** strlen of the memory at `start`: the distance to the first terminator. */
  method StrLen(mem: array<char>, start: nat, ghost end: nat) returns (cnt: nat)
    requires start <= end < mem.Length && mem[end] == '\0'
    ensures start + cnt <= end && mem[start + cnt] == '\0'
    ensures forall i :: start <= i < start + cnt ==> mem[i] != '\0'
  {
    cnt := 0;
    while mem[start + cnt] != '\0'
      invariant start + cnt <= end
      invariant forall i :: start <= i < start + cnt ==> mem[i] != '\0'
      decreases end - cnt
    {
      cnt := cnt + 1;
    }
  }

  method StrNLen(s: CString, len: nat) returns (cnt: nat)
    ensures cnt == if len < |s| then len else |s|
  {
    cnt := 0;
    while cnt < len && At(s, cnt) != '\0'
      invariant cnt <= len && cnt <= |s|
    {
      cnt := cnt + 1;
    }
  }

  // ----- strtol -----

  function DigitVal(c: char): Option<nat> {
    if '0' <= c <= '9' then Some(c as int - '0' as int)
    else if 'a' <= c <= 'z' then Some(c as int - 'a' as int + 10)
    else if 'A' <= c <= 'Z' then Some(c as int - 'A' as int + 10)
    else None
  }

  predicate IsDigit(c: char, base: int) {
    DigitVal(c).Some? && DigitVal(c).value < base
  }

  predicate AllDigits(ds: string, base: int) {
    forall i :: 0 <= i < |ds| ==> IsDigit(ds[i], base)
  }

  /** The number a string of digits denotes. */
  function Value(ds: string, base: int): int
    requires AllDigits(ds, base)
  {
    if ds == [] then 0
    else Value(ds[..|ds| - 1], base) * base + DigitVal(ds[|ds| - 1]).value
  }

  predicate IsBlank(c: char) {
    c == ' ' || c == '\t'
  }

  /** Where a maximal stretch of blanks, or of digits, that starts at `i` ends. */
  function BlanksEnd(s: string, i: nat): (e: nat)
    requires i <= |s|
    ensures i <= e <= |s| && forall k :: i <= k < e ==> IsBlank(s[k])
    decreases |s| - i
  {
    if i < |s| && IsBlank(s[i]) then BlanksEnd(s, i + 1) else i
  }

  function DigitsEnd(s: string, i: nat, base: int): (e: nat)
    requires i <= |s|
    ensures i <= e <= |s| && AllDigits(s[i..e], base)
    ensures e < |s| ==> !IsDigit(s[e], base)
    decreases |s| - i
  {
    if i < |s| && IsDigit(s[i], base) then
      var e := DigitsEnd(s, i + 1, base);
      assert forall k :: i < k < e ==> s[k] == s[i + 1..e][k - i - 1];
      e
    else i
  }

  /** `t` is what `s` holds from index `k` on. */
  ghost predicate IsTail(s: string, k: nat, t: string) {
    |s| == k + |t| && forall i :: 0 <= i < |t| ==> s[k + i] == t[i]
  }

  lemma {:induction false} DigitsEndBehind(s: string, k: nat, t: string, i: nat, base: int)
    requires IsTail(s, k, t) && i <= |t|
    ensures DigitsEnd(s, k + i, base) == k + DigitsEnd(t, i, base)
    decreases |t| - i
  {
    if i < |t| && IsDigit(t[i], base) {
      DigitsEndBehind(s, k, t, i + 1, base);
    }
  }

  /** What strtol makes of a string: where the digits start and end, the base they are
      read in and their sign. */
  datatype Reading = Reading(neg: bool, base: int, start: nat, end: nat)

  function Read(s: CString, base: int): (r: Reading)
    ensures r.start <= r.end <= |s| && AllDigits(s[r.start..r.end], r.base)
  {
    var a := BlanksEnd(s, 0);
    var neg := At(s, a) == '-';
    var b := if At(s, a) == '+' || neg then a + 1 else a;
    var hex := (base == 0 || base == 16) && At(s, b) == '0' && At(s, b + 1) == 'x';
    var octal := !hex && base == 0 && At(s, b) == '0';
    var c := if hex then b + 2 else if octal then b + 1 else b;
    var base' := if hex then 16 else if octal then 8 else if base == 0 then 10 else base;
    Reading(neg, base', c, DigitsEnd(s, c, base'))
  }

  function Magnitude(s: CString, base: int): int {
    var r := Read(s, base);
    Value(s[r.start..r.end], r.base)
  }

  /** The result of strtol, and the index that it stores through `endptr`. */
  function Strtol(s: CString, base: int): (int, nat) {
    var r := Read(s, base);
    (if r.neg then -Magnitude(s, base) else Magnitude(s, base), r.end)
  }

  lemma {:induction false} ValueMonotone(ds: string, k: nat, base: int)
    requires k <= |ds| && AllDigits(ds, base)
    ensures 0 <= Value(ds[..k], base) <= Value(ds, base)
    decreases |ds|
  {
    if ds == [] {
      assert ds[..k] == ds;
    } else {
      var init := ds[..|ds| - 1];
      assert IsDigit(ds[|ds| - 1], base);
      if k == |ds| {
        assert ds[..k] == ds;
        ValueMonotone(init, 0, base);
        assert Value(init[..0], base) == 0;
        Scale(Value(init, base), base);
      } else {
        ValueMonotone(init, k, base);
        assert init[..k] == ds[..k];
        Scale(Value(init, base), base);
      }
    }
  }

  lemma Scale(v: int, base: int)
    requires 0 <= v && 1 <= base
    ensures v <= v * base
  {
  }

  /** The parser computes `Strtol`; when the magnitude fits in a `long`, so does every
      intermediate value. */
  method StrToL(s: CString, base: int) returns (result: int, endptr: nat)
    requires Magnitude(s, base) < TWO63
    ensures (result, endptr) == Strtol(s, base)
  {
    var neg, radix, i := SkipPrefix(s, base);
    var val;
    val, endptr := ScanDigits(s, i, radix);
    result := if neg then -val else val;
  }

  /** Blanks, sign and base prefix. */
  method SkipPrefix(s: CString, base0: int) returns (neg: bool, base: int, i: nat)
    ensures var r := Read(s, base0); neg == r.neg && base == r.base && i == r.start
  {
    base := base0;
    neg, i := false, 0;
    while At(s, i) == ' ' || At(s, i) == '\t'
      invariant i <= |s| && BlanksEnd(s, i) == BlanksEnd(s, 0)
      decreases |s| - i
    {
      i := i + 1;
    }
    if At(s, i) == '+' {
      i := i + 1;
    } else if At(s, i) == '-' {
      i := i + 1;
      neg := true;
    }
    if (base == 0 || base == 16) && At(s, i) == '0' && At(s, i + 1) == 'x' {
      i := i + 2;
      base := 16;
    } else if base == 0 && At(s, i) == '0' {
      i := i + 1;
      base := 8;
    } else if base == 0 {
      base := 10;
    }
  }

  lemma ValueStep(s: string, start: nat, i: nat, end: nat, base: int)
    requires start <= i < end <= |s| && AllDigits(s[start..end], base)
    ensures AllDigits(s[start..i], base) && AllDigits(s[start..i + 1], base)
    ensures IsDigit(s[i], base)
    ensures Value(s[start..i + 1], base) == Value(s[start..i], base) * base + DigitVal(s[i]).value
    ensures 0 <= Value(s[start..i + 1], base) <= Value(s[start..end], base)
  {
    var ds, k := s[start..end], i - start;
    assert ds[k] == s[i];
    assert ds[..k] == s[start..i];
    assert ds[..k + 1] == s[start..i + 1];
    assert ds[..k + 1][..k] == ds[..k];
    ValueMonotone(ds, k + 1, base);
  }

  /** The digit loop. */
  method ScanDigits(s: CString, start: nat, base: int) returns (val: int, i: nat)
    requires start <= |s|
    requires Value(s[start..DigitsEnd(s, start, base)], base) < TWO63
    ensures i == DigitsEnd(s, start, base)
    ensures val == Value(s[start..i], base)
  {
    ghost var end := DigitsEnd(s, start, base);
    val, i := 0, start;
    while true
      invariant start <= i <= end && DigitsEnd(s, i, base) == end
      invariant AllDigits(s[start..i], base) && val == Value(s[start..i], base)
      decreases |s| - i
    {
      var dig;
      var c := At(s, i);
      if '0' <= c <= '9' {
        dig := c as int - '0' as int;
      } else if 'a' <= c <= 'z' {
        dig := c as int - 'a' as int + 10;
      } else if 'A' <= c <= 'Z' {
        dig := c as int - 'A' as int + 10;
      } else {
        break;
      }
      if dig >= base {
        break;
      }
      ValueStep(s, start, i, end, base);
      i := i + 1;
      val := val * base + dig;
      assert 0 <= val < TWO63;
    }
  }
}
