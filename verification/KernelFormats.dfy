/** Formats that the kernel prints with, and the conversions that no number round trip
    reaches (libs/printfmt.c). */
module KernelFormats {
  import opened Arithmetic
  import opened Options
  import opened Words
  import opened Strings
  import opened Format
  import opened Composition
  import opened RoundTrip

  // ----- An escape between other text -----

  ghost predicate IsPlain(text: string) {
    forall i :: 0 <= i < |text| ==> text[i] != '%'
  }

  lemma {:induction false} PlainAsksForNothing(text: string, i: nat)
    requires IsPlain(text) && i <= |text|
    ensures Closed(text, i) && ArgCount(text, i) == 0
    decreases |text| - i
  {
    if i < |text| {
      PlainAsksForNothing(text, i + 1);
    }
  }

  lemma PlainPrints(text: CString)
    requires IsPlain(text)
    ensures Output(text, 0, []) == Some(text)
  {
    PlainText(text, 0, |text|, []);
    assert text[0..|text|] == text;
    PrependEmpty(text);
  }

  /** Text, an escape with its arguments, and the rest. */
  lemma EscapeBetween(pre: CString, esc: CString, post: CString,
                      a1: seq<Arg>, a2: seq<Arg>, out: string)
    requires IsPlain(pre) && Closed(esc, 0) && |a1| == ArgCount(esc, 0)
    requires Output(esc, 0, a1) == Some(out)
    ensures Output(pre + (esc + post), 0, a1 + a2) == Prepend(pre + out, Output(post, 0, a2))
  {
    PlainAsksForNothing(pre, 0);
    PlainPrints(pre);
    OutputComposes(pre, esc + post, [], a1 + a2);
    assert [] + (a1 + a2) == a1 + a2;
    OutputComposes(esc, post, a1, a2);
    PrependTwice(pre, out, Output(post, 0, a2));
  }

  lemma StringEscape(esc: CString, p: u64, t: Text)
    requires esc == "%s" && p != 0 && |t| < TWO31
    ensures Closed(esc, 0) && ArgCount(esc, 0) == 1
    ensures Output(esc, 0, [Str(p, t)]) == Some(t)
  {
    var args := [Str(p, t)];
    assert ModifiersEnd(esc, 1) == 1;
    assert ArgCount(esc, 2) == 0;
    assert ParseEscape(esc, 1, NO_FLAGS, args) == Escape(1, NO_FLAGS, args);
    assert Convert('s', NO_FLAGS, args) == Some(t) by {
      assert StringText(t, NO_FLAGS) == t;
    }
    assert args[1..] == [];
    PrependEmpty(t);
  }

  lemma StringThen(fmt: CString, pre: CString, post: CString, p: u64, t: Text, a2: seq<Arg>)
    requires fmt == pre + ("%s" + post) && IsPlain(pre) && p != 0 && |t| < TWO31
    ensures Output(fmt, 0, [Str(p, t)] + a2) == Prepend(pre + t, Output(post, 0, a2))
  {
    var esc: CString := "%s";
    StringEscape(esc, p, t);
    EscapeBetween(pre, esc, post, [Str(p, t)], a2, t);
  }

  /** Two strings, each in its place: a line of the monitor's help is the case "%s - %s\n". */
  lemma TwoStrings(fmt: CString, mid: CString, post: CString, p: u64, s: Text, q: u64, t: Text)
    requires fmt == "%s" + (mid + ("%s" + post)) && IsPlain(mid) && IsPlain(post)
    requires p != 0 && q != 0 && |s| < TWO31 && |t| < TWO31
    ensures Output(fmt, 0, [Str(p, s), Str(q, t)]) == Some(s + mid + t + post)
  {
    var rest: CString, second := mid + ("%s" + post), [Str(q, t)];
    assert fmt == "" + ("%s" + rest);
    StringThen(fmt, "", rest, p, s, second);
    assert [Str(p, s)] + second == [Str(p, s), Str(q, t)];
    assert second + [] == second;
    StringThen(rest, mid, post, q, t, []);
    PlainPrints(post);
    assert "" + s + (mid + t + post) == s + mid + t + post;
  }

  // ----- Register dumps -----

  lemma {:induction false} HexDigits(num: nat, k: nat)
    requires 0 < k && num < Power2(4 * k)
    ensures |Digits(num, 16)| <= k
    decreases k
  {
    assert Power2(4) == 16;
    Power2Sum(4, 4 * (k - 1));
    if num >= 16 {
      DivMod(num, 16);
      HexDigits(num / 16, k - 1);
    }
  }

  lemma HexWordShape(esc: CString)
    requires esc == "%08x"
    ensures Closed(esc, 0) && ArgCount(esc, 0) == 1
  {
    assert ModifiersEnd(esc, 3) == 3 && ModifiersEnd(esc, 2) == 3 && ModifiersEnd(esc, 1) == 3;
    assert Stars(esc, 3, 3) == 0 && Stars(esc, 2, 3) == 0 && Stars(esc, 1, 3) == 0;
    assert ArgCount(esc, 4) == 0;
  }

  lemma HexWordFormat()
    ensures NumberFormat(Zeros, 8, false, 'x') == "%08x"
  {
    assert Digits(8, 10) == "8";
  }

  lemma HexWordPrints(esc: CString, bits: u64)
    requires esc == NumberFormat(Zeros, 8, false, 'x')
    ensures Output(esc, 0, [Word(bits)]) == Some(NumText(bits % TWO32, 16, 8, '0'))
  {
    var low := bits % TWO32;
    IntConverts(low, bits, Zeros, 8, 'x');
    NumberFormatPrints(Zeros, 8, false, 'x', Word(bits), LongText(low, Zeros, 8, 'x'));
    var t := NumText(low, 16, 8, '0');
    assert "" + t == t;
  }

  /** One escape on a line of its own. */
  lemma EscapeLine(fmt: CString, pre: CString, esc: CString, post: CString, a: Arg, out: string)
    requires fmt == pre + (esc + post) && IsPlain(pre) && IsPlain(post)
    requires Closed(esc, 0) && ArgCount(esc, 0) == 1 && Output(esc, 0, [a]) == Some(out)
    ensures Output(fmt, 0, [a]) == Some(pre + out + post)
  {
    PlainPrints(post);
    EscapeBetween(pre, esc, post, [a], [], out);
    assert [a] + [] == [a];
  }

  lemma RegisterPrints(fmt: CString, head: CString, bits: u64)
    requires fmt == head + "0x" + ("%08x" + "\n") && IsPlain(head)
    ensures Output(fmt, 0, [Word(bits)]) == Some(head + PointerText(bits % TWO32, 8, '0') + "\n")
  {
    var t := NumText(bits % TWO32, 16, 8, '0');
    HexWordShape("%08x");
    HexWordFormat();
    HexWordPrints("%08x", bits);
    EscapeLine(fmt, head + "0x", "%08x", "\n", Word(bits), t);
    assert head + "0x" + t == head + ("0x" + t);
  }

  /** A line of a register dump shows ten characters that read back as the lower half of the
      register; there is no `l` in the format, so they are the register if and only if its
      upper half is zero. */
  lemma RegisterLine(fmt: CString, head: CString, bits: u64)
    requires fmt == head + "0x" + ("%08x" + "\n") && IsPlain(head)
    ensures var s := PointerText(bits % TWO32, 8, '0');
      && Output(fmt, 0, [Word(bits)]) == Some(head + s + "\n")
      && |s| == 10 && Strtol(s, 16) == (bits % TWO32, 10)
      && (Strtol(s, 16).0 == bits <==> bits < TWO32)
  {
    var low := bits % TWO32;
    RegisterPrints(fmt, head, bits);
    Power2Of32();
    HexDigits(low, 8);
    PointerTextReadsBackIff(low, 8, '0');
  }

  // ----- The other conversions -----

  lemma LowByte(bits: u64)
    ensures AsInt(Word(bits)) % 256 == bits % 256
  {
  }

  /** `%c` prints the lowest byte of its argument. */
  lemma CharPrints(esc: CString, bits: u64)
    requires esc == "%c"
    ensures Output(esc, 0, [Word(bits)]) == Some([(bits % 256) as char])
  {
    var args := [Word(bits)];
    LowByte(bits);
    assert ParseEscape(esc, 1, NO_FLAGS, args) == Escape(1, NO_FLAGS, args);
    assert Convert('c', NO_FLAGS, args) == Some([(bits % 256) as char]);
    assert args[1..] == [];
    PrependEmpty([(bits % 256) as char]);
  }

  /** `%%` prints one '%' and leaves the arguments alone. */
  lemma PercentPrints(rest: CString, args: seq<Arg>)
    ensures Output("%%" + rest, 0, args) == Prepend("%", Output(rest, 0, args))
  {
    assert ModifiersEnd("%%", 1) == 1;
    assert ArgCount("%%", 2) == 0;
    assert ParseEscape("%%", 1, NO_FLAGS, []) == Escape(1, NO_FLAGS, []);
    PrependEmpty("%");
    assert Output("%%", 0, []) == Some("%");
    OutputComposes("%%", rest, [], args);
    assert [] + args == args;
  }

  /** A null pointer has a text of its own. */
  lemma NullString(esc: CString, a: Arg)
    requires esc == "%s" && Bits64(a) == 0
    ensures Output(esc, 0, [a]) == Some("(null)")
  {
    assert ParseEscape(esc, 1, NO_FLAGS, [a]) == Escape(1, NO_FLAGS, [a]);
    assert StringText("(null)", NO_FLAGS) == "(null)";
    assert Convert('s', NO_FLAGS, [a]) == Some("(null)");
    assert [a][1..] == [];
    PrependEmpty("(null)");
  }

  /** `#` shows what is not printable as question marks, and nothing else changes. */
  lemma AlternateHides(esc: CString, p: u64, t: Text)
    requires esc == "%#s" && p != 0 && |t| < TWO31
    ensures var out := Output(esc, 0, [Str(p, t)]);
      && out.Some? && |out.value| == |t|
      && forall i :: 0 <= i < |t| ==>
        out.value[i] == if ' ' <= t[i] <= '~' then t[i] else '?'
  {
    var args, fl := [Str(p, t)], NO_FLAGS.(alt := true);
    assert ParseEscape(esc, 2, fl, args) == Escape(2, fl, args);
    assert ParseEscape(esc, 1, NO_FLAGS, args) == Escape(2, fl, args);
    assert StringText(t, fl) == Shown(t, |t|, true);
    assert Convert('s', fl, args) == Some(Shown(t, |t|, true));
    assert args[1..] == [];
    PrependEmpty(Shown(t, |t|, true));
  }

  /** A precision from the arguments cuts a string: nothing of it is padded. */
  lemma PrecisionFromArgument(n: nat, p: u64, t: Text)
    requires n < TWO31 && p != 0
    ensures Output("%.*s", 0, [Word(n), Str(p, t)]) == Some(t[..if n < |t| then n else |t|])
  {
    var fmt, args := "%.*s", [Word(n), Str(p, t)];
    var fl := Flags(' ', 0, n, 0, false);
    assert args[1..] == [Str(p, t)];
    assert ParseEscape(fmt, 3, fl, args[1..]) == Escape(3, fl, args[1..]);
    assert ParseEscape(fmt, 2, NO_FLAGS.(width := 0), args) == Escape(3, fl, args[1..]);
    assert ParseEscape(fmt, 1, NO_FLAGS, args) == Escape(3, fl, args[1..]);
    var out := t[..if n < |t| then n else |t|];
    assert StringText(t, fl) == out;
    PrependEmpty(out);
  }

  /** A width from the arguments acts like the same width written in the format. */
  lemma WidthFromArgument(w: nat, a: Arg)
    requires 0 < w && ScansAsInt(w)
    ensures Output("%*d", 0, [Word(w), a]) == Output(NumberFormat(Blanks, w, false, 'd'), 0, [a])
  {
    var fmt, args, fl := "%*d", [Word(w), a], NumberFlags(Blanks, w, false);
    assert args[1..] == [a];
    assert ParseEscape(fmt, 2, fl, [a]) == Escape(2, fl, [a]);
    assert ParseEscape(fmt, 1, NO_FLAGS, args) == Escape(2, fl, [a]);
    var literal := NumberFormat(Blanks, w, false, 'd');
    NumberFormatShape(Blanks, w, false, 'd');
    NumberFormatParses(Blanks, w, false, 'd', [a]);
    assert [a][1..] == [];
    assert Output(literal, |literal|, []) == Output(fmt, 3, []);
  }
}
