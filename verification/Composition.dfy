/** Formats one after the other: which arguments each escape takes (libs/printfmt.c). */
module Composition {
  import opened Options
  import opened Words
  import opened Strings
  import opened Format

  // ----- What a format asks for, read off its text -----

  /** The characters that an escape may have before its conversion. */
  predicate IsModifier(c: char) {
    c in {'-', '*', '.', '#', 'l'} || '0' <= c <= '9'
  }

  /** The conversions that take an argument: all but `%%`. */
  predicate TakesArgument(c: char) {
    c in {'c', 'e', 's', 'd', 'u', 'o', 'p', 'x'}
  }

  /** The end of the modifiers from index `i` on. */
  function ModifiersEnd(fmt: string, i: nat): (e: nat)
    requires i <= |fmt|
    ensures i <= e <= |fmt| && (e < |fmt| ==> !IsModifier(fmt[e]))
    ensures forall k :: i <= k < e ==> IsModifier(fmt[k])
    decreases |fmt| - i
  {
    if i < |fmt| && IsModifier(fmt[i]) then ModifiersEnd(fmt, i + 1) else i
  }

  function Stars(fmt: string, i: nat, j: nat): nat
    requires i <= j <= |fmt|
    decreases j - i
  {
    if i == j then 0 else (if fmt[i] == '*' then 1 else 0) + Stars(fmt, i + 1, j)
  }

  /** How many arguments the escapes from index `i` on take: one for every conversion but
      `%%`, and one for every `*`. */
  function ArgCount(fmt: string, i: nat): nat
    requires i <= |fmt|
    decreases |fmt| - i
  {
    if i == |fmt| then 0
    else if fmt[i] != '%' then ArgCount(fmt, i + 1)
    else
      var at := ModifiersEnd(fmt, i + 1);
      Stars(fmt, i + 1, at)
      + if at == |fmt| then 0 else (if TakesArgument(fmt[at]) then 1 else 0) + ArgCount(fmt, at + 1)
  }

  /** No escape is cut off by the end of the format. */
  ghost predicate Closed(fmt: string, i: nat)
    requires i <= |fmt|
    decreases |fmt| - i
  {
    if i == |fmt| then true
    else if fmt[i] != '%' then Closed(fmt, i + 1)
    else
      var at := ModifiersEnd(fmt, i + 1);
      at < |fmt| && Closed(fmt, at + 1)
  }

  // ----- One escape -----

  lemma {:induction false} DigitsAreModifiers(fmt: string, i: nat, j: nat)
    requires i <= j <= |fmt| && forall k :: i <= k < j ==> '0' <= fmt[k] <= '9'
    ensures ModifiersEnd(fmt, i) == ModifiersEnd(fmt, j)
    ensures Stars(fmt, i, ModifiersEnd(fmt, i)) == Stars(fmt, j, ModifiersEnd(fmt, j))
    decreases j - i
  {
    if i < j {
      DigitsAreModifiers(fmt, i + 1, j);
    }
  }

  /** Digits that end inside a format end there whatever comes after it. */
  lemma {:induction false} DigitsEndBefore(f1: string, f: string, i: nat)
    requires f1 <= f && i <= |f1| && DigitsEnd(f1, i, 10) < |f1|
    ensures DigitsEnd(f, i, 10) == DigitsEnd(f1, i, 10)
    decreases |f1| - i
  {
    if IsDigit(f1[i], 10) {
      DigitsEndBefore(f1, f, i + 1);
    }
  }

  /** The width or precision that starts at `i`, and where it ends. */
  lemma NumberIsModifiers(fmt: string, i: nat)
    requires i <= |fmt|
    ensures var j := DigitsEnd(fmt, i, 10);
      && ModifiersEnd(fmt, i) == ModifiersEnd(fmt, j)
      && Stars(fmt, i, ModifiersEnd(fmt, i)) == Stars(fmt, j, ModifiersEnd(fmt, j))
  {
    var j := DigitsEnd(fmt, i, 10);
    forall k | i <= k < j
      ensures '0' <= fmt[k] <= '9'
    {
      assert IsDigit(fmt[i..j][k - i], 10);
    }
    DigitsAreModifiers(fmt, i, j);
  }

  lemma NumberBefore(f1: CString, f: CString, i: nat)
    requires f1 <= f && i < |f1| && ModifiersEnd(f1, i) < |f1| && '1' <= f1[i] <= '9'
    ensures var j := DigitsEnd(f1, i, 10);
      && i < j < |f1| && DigitsEnd(f, i, 10) == j && f[i..j] == f1[i..j]
  {
    NumberIsModifiers(f1, i);
    assert IsDigit(f1[i], 10);
    DigitsEndBefore(f1, f, i);
  }

  // ----- One turn of the escape parser -----

  /** A modifier of one character that takes no argument; `None` on overflow. */
  function FlagAfter(c: char, fl: Flags): Option<Flags> {
    if c == '-' then Some(fl.(padc := '-'))
    else if c == '0' then Some(fl.(padc := '0'))
    else if c == '.' then Some(if fl.width < 0 then fl.(width := 0) else fl)
    else if c == '#' then Some(fl.(alt := true))
    else if fl.lflag == TWO31 - 1 then None
    else Some(fl.(lflag := fl.lflag + 1))
  }

  lemma FlagTurn(fmt: CString, i: nat, fl: Flags, args: seq<Arg>)
    requires i < |fmt| && fmt[i] in {'-', '0', '.', '#', 'l'}
    ensures ParseEscape(fmt, i, fl, args) == (
      match FlagAfter(fmt[i], fl)
      case None => Undefined
      case Some(fl') => ParseEscape(fmt, i + 1, fl', args))
  {
  }

  lemma NumberTurn(fmt: CString, i: nat, fl: Flags, args: seq<Arg>)
    requires i < |fmt| && '1' <= fmt[i] <= '9'
    ensures var j := DigitsEnd(fmt, i, 10);
      var v := Value(fmt[i..j], 10);
      && i < j
      && (ParseEscape(fmt, i, fl, args)
          == if ScansAsInt(v) then ParseEscape(fmt, j, WithNumber(fl, v), args) else Undefined)
  {
    assert IsDigit(fmt[i], 10);
  }

  // ----- An escape with text before it or after it -----

  function WithArgs(e: Escape, more: seq<Arg>): Escape {
    match e
    case Escape(at, fl, args) => Escape(at, fl, args + more)
    case Undefined => Undefined
  }

  function Moved(e: Escape, n: nat): Escape {
    match e
    case Escape(at, fl, args) => Escape(n + at, fl, args)
    case Undefined => Undefined
  }

  /** An escape that ends inside a format parses there as it does with more text and more
      arguments behind, and takes one argument for every `*`. */
  lemma {:induction false} ParseBefore(f1: CString, f: CString, i: nat, fl: Flags,
                                       a1: seq<Arg>, a2: seq<Arg>)
    requires f1 <= f && i <= |f1| && ModifiersEnd(f1, i) < |f1|
    requires Stars(f1, i, ModifiersEnd(f1, i)) <= |a1|
    ensures ParseEscape(f, i, fl, a1 + a2) == WithArgs(ParseEscape(f1, i, fl, a1), a2)
    ensures var e := ParseEscape(f1, i, fl, a1);
      e.Escape? ==>
        e.at == ModifiersEnd(f1, i) && e.args == a1[Stars(f1, i, ModifiersEnd(f1, i))..]
    decreases |f1| - i
  {
    var c := f1[i];
    if '1' <= c <= '9' {
      NumberIsModifiers(f1, i);
      NumberBefore(f1, f, i);
      NumberTurn(f1, i, fl, a1);
      NumberTurn(f, i, fl, a1 + a2);
      var j := DigitsEnd(f1, i, 10);
      var v := Value(f1[i..j], 10);
      if ScansAsInt(v) {
        ParseBefore(f1, f, j, WithNumber(fl, v), a1, a2);
      }
    } else if c == '*' {
      assert (a1 + a2)[1..] == a1[1..] + a2;
      ParseBefore(f1, f, i + 1, WithNumber(fl, AsInt(a1[0])), a1[1..], a2);
    } else if IsModifier(c) {
      FlagTurn(f1, i, fl, a1);
      FlagTurn(f, i, fl, a1 + a2);
      if FlagAfter(c, fl).Some? {
        ParseBefore(f1, f, i + 1, FlagAfter(c, fl).value, a1, a2);
      }
    }
  }

  lemma NumberBehind(f: CString, k: nat, f2: CString, i: nat)
    requires IsTail(f, k, f2) && i < |f2| && '1' <= f2[i] <= '9'
    ensures var j := DigitsEnd(f2, i, 10);
      i < j && DigitsEnd(f, k + i, 10) == k + j && f[k + i..k + j] == f2[i..j]
  {
    assert IsDigit(f2[i], 10);
    DigitsEndBehind(f, k, f2, i, 10);
  }

  lemma NumberTurnBehind(f: CString, k: nat, f2: CString, i: nat, fl: Flags, args: seq<Arg>)
    requires IsTail(f, k, f2) && i < |f2| && '1' <= f2[i] <= '9'
    requires var j := DigitsEnd(f2, i, 10);
      var v := Value(f2[i..j], 10);
      ScansAsInt(v) ==>
        ParseEscape(f, k + j, WithNumber(fl, v), args)
        == Moved(ParseEscape(f2, j, WithNumber(fl, v), args), k)
    ensures ParseEscape(f, k + i, fl, args) == Moved(ParseEscape(f2, i, fl, args), k)
  {
    assert f[k + i] == f2[i];
    NumberBehind(f, k, f2, i);
    NumberTurn(f2, i, fl, args);
    NumberTurn(f, k + i, fl, args);
  }

  /** An escape behind other text parses as it does on its own. */
  lemma {:induction false} ParseBehind(f: CString, k: nat, f2: CString, i: nat,
                                       fl: Flags, args: seq<Arg>)
    requires IsTail(f, k, f2) && i <= |f2|
    ensures ParseEscape(f, k + i, fl, args) == Moved(ParseEscape(f2, i, fl, args), k)
    decreases |f2| - i, 1
  {
    var c := At(f2, i);
    if IsModifier(c) {
      ModifierBehind(f, k, f2, i, fl, args);
    } else {
      assert At(f, k + i) == c;
    }
  }

  lemma {:induction false} ModifierBehind(f: CString, k: nat, f2: CString, i: nat,
                                          fl: Flags, args: seq<Arg>)
    requires IsTail(f, k, f2) && i < |f2| && IsModifier(f2[i])
    ensures ParseEscape(f, k + i, fl, args) == Moved(ParseEscape(f2, i, fl, args), k)
    decreases |f2| - i, 0
  {
    var c := f2[i];
    assert f[k + i] == c;
    if '1' <= c <= '9' {
      var j := DigitsEnd(f2, i, 10);
      NumberBehind(f, k, f2, i);
      if ScansAsInt(Value(f2[i..j], 10)) {
        ParseBehind(f, k, f2, j, WithNumber(fl, Value(f2[i..j], 10)), args);
      }
      NumberTurnBehind(f, k, f2, i, fl, args);
    } else if c == '*' {
      if args != [] {
        ParseBehind(f, k, f2, i + 1, WithNumber(fl, AsInt(args[0])), args[1..]);
      }
    } else {
      FlagTurn(f2, i, fl, args);
      FlagTurn(f, k + i, fl, args);
      if FlagAfter(c, fl).Some? {
        ParseBehind(f, k, f2, i + 1, FlagAfter(c, fl).value, args);
      }
    }
  }

  // ----- Whole formats -----

  /** One output after another; undefined when either is. */
  function Then(first: Option<string>, second: Option<string>): Option<string> {
    match first
    case None => None
    case Some(s) => Prepend(s, second)
  }

  lemma ThenPrepend(s: string, first: Option<string>, second: Option<string>)
    ensures Then(Prepend(s, first), second) == Prepend(s, Then(first, second))
  {
    if first.Some? {
      PrependTwice(s, first.value, second);
    }
  }

  lemma EmptyThen(second: Option<string>)
    ensures Then(Some(""), second) == second
  {
    if second.Some? {
      assert "" + second.value == second.value;
    }
  }

  /** What an escape prints, where the format goes on and which arguments are left. */
  datatype Piece = Piece(text: string, next: nat, args: seq<Arg>)

  function PieceOf(fmt: CString, open: nat, e: Escape): (p: Option<Piece>)
    requires open < |fmt| && (e.Escape? ==> open < e.at <= |fmt|)
    ensures p.Some? ==> open < p.value.next <= |fmt|
  {
    match e
    case Undefined => None
    case Escape(at, fl, args) =>
      var c := At(fmt, at);
      if IsConversion(c) then
        match Convert(c, fl, args)
        case None => None
        case Some(s) => Some(Piece(s, at + 1, ArgsAfter(c, args)))
      else
        var stop := if at < |fmt| then at + 1 else at;
        Some(Piece(fmt[open..stop], stop, args))
  }

  lemma OutputPiece(fmt: CString, open: nat, args: seq<Arg>)
    requires open < |fmt| && fmt[open] == '%'
    ensures Output(fmt, open, args) == (
      match PieceOf(fmt, open, ParseEscape(fmt, open + 1, NO_FLAGS, args))
      case None => None
      case Some(p) => Prepend(p.text, Output(fmt, p.next, p.args)))
  {
  }

  function MovedPiece(p: Option<Piece>, n: nat): Option<Piece> {
    if p.Some? then Some(p.value.(next := n + p.value.next)) else None
  }

  lemma PieceMoves(f: CString, k: nat, f2: CString, open: nat, e: Escape)
    requires IsTail(f, k, f2) && open < |f2| && (e.Escape? ==> open < e.at <= |f2|)
    ensures PieceOf(f, k + open, Moved(e, k)) == MovedPiece(PieceOf(f2, open, e), k)
  {
    if e.Escape? {
      assert At(f, k + e.at) == At(f2, e.at);
      var stop := if e.at < |f2| then e.at + 1 else e.at;
      assert f[k + open..k + stop] == f2[open..stop];
    }
  }

  lemma PieceBehind(f: CString, k: nat, f2: CString, open: nat, args: seq<Arg>)
    requires IsTail(f, k, f2) && open < |f2| && f2[open] == '%'
    ensures PieceOf(f, k + open, ParseEscape(f, k + open + 1, NO_FLAGS, args))
         == MovedPiece(PieceOf(f2, open, ParseEscape(f2, open + 1, NO_FLAGS, args)), k)
  {
    ParseBehind(f, k, f2, open + 1, NO_FLAGS, args);
    PieceMoves(f, k, f2, open, ParseEscape(f2, open + 1, NO_FLAGS, args));
  }

  lemma {:induction false} OutputBehind(f: CString, k: nat, f2: CString, i: nat, args: seq<Arg>)
    requires IsTail(f, k, f2) && i <= |f2|
    ensures Output(f, k + i, args) == Output(f2, i, args)
    decreases |f2| - i, 1
  {
    if i == |f2| {
    } else if f2[i] != '%' {
      OutputBehind(f, k, f2, i + 1, args);
    } else {
      EscapeBehind(f, k, f2, i, args);
    }
  }

  lemma {:induction false} EscapeBehind(f: CString, k: nat, f2: CString, i: nat, args: seq<Arg>)
    requires IsTail(f, k, f2) && i < |f2| && f2[i] == '%'
    ensures Output(f, k + i, args) == Output(f2, i, args)
    decreases |f2| - i, 0
  {
    OutputPiece(f2, i, args);
    OutputPiece(f, k + i, args);
    PieceBehind(f, k, f2, i, args);
    var p := PieceOf(f2, i, ParseEscape(f2, i + 1, NO_FLAGS, args));
    if p.Some? {
      OutputBehind(f, k, f2, p.value.next, p.value.args);
    }
  }

  /** The conversion of an escape inside the first format, with its own arguments. */
  lemma ConvertBefore(c: char, fl: Flags, a1: seq<Arg>, a2: seq<Arg>)
    requires TakesArgument(c) ==> a1 != []
    requires IsConversion(c)
    ensures Convert(c, fl, a1 + a2) == Convert(c, fl, a1)
    ensures ArgsAfter(c, a1 + a2) == (if TakesArgument(c) then a1[1..] else a1) + a2
  {
    assert TakesArgument(c) ==> (a1 + a2)[1..] == a1[1..] + a2;
  }

  /** An escape of the first format, with its own share of the arguments. */
  lemma PieceBefore(f1: CString, f: CString, open: nat, a1: seq<Arg>, a2: seq<Arg>)
    requires f1 <= f && open < |f1| && f1[open] == '%'
    requires Closed(f1, open) && |a1| == ArgCount(f1, open)
    ensures var p := PieceOf(f1, open, ParseEscape(f1, open + 1, NO_FLAGS, a1));
      && (PieceOf(f, open, ParseEscape(f, open + 1, NO_FLAGS, a1 + a2))
          == if p.Some? then Some(p.value.(args := p.value.args + a2)) else None)
      && (p.Some? ==> Closed(f1, p.value.next) && |p.value.args| == ArgCount(f1, p.value.next))
  {
    var at := ModifiersEnd(f1, open + 1);
    ParseBefore(f1, f, open + 1, NO_FLAGS, a1, a2);
    var e := ParseEscape(f1, open + 1, NO_FLAGS, a1);
    if e.Escape? {
      if IsConversion(f1[at]) {
        ConvertBefore(f1[at], e.fl, e.args, a2);
      }
      assert f[open..at + 1] == f1[open..at + 1];
    }
  }

  lemma {:induction false} ComposesFrom(f1: CString, f2: CString, f: CString, i: nat,
                                        a1: seq<Arg>, a2: seq<Arg>)
    requires f1 <= f && IsTail(f, |f1|, f2)
    requires i <= |f1| && Closed(f1, i) && |a1| == ArgCount(f1, i)
    ensures Output(f, i, a1 + a2) == Then(Output(f1, i, a1), Output(f2, 0, a2))
    decreases |f1| - i, 1
  {
    var second := Output(f2, 0, a2);
    if i == |f1| {
      assert a1 + a2 == a2;
      OutputBehind(f, i, f2, 0, a2);
      EmptyThen(second);
    } else if f1[i] != '%' {
      ComposesFrom(f1, f2, f, i + 1, a1, a2);
      ThenPrepend([f1[i]], Output(f1, i + 1, a1), second);
    } else {
      EscapeComposes(f1, f2, f, i, a1, a2);
    }
  }

  lemma {:induction false} EscapeComposes(f1: CString, f2: CString, f: CString, i: nat,
                                          a1: seq<Arg>, a2: seq<Arg>)
    requires f1 <= f && IsTail(f, |f1|, f2)
    requires i < |f1| && f1[i] == '%' && Closed(f1, i) && |a1| == ArgCount(f1, i)
    ensures Output(f, i, a1 + a2) == Then(Output(f1, i, a1), Output(f2, 0, a2))
    decreases |f1| - i, 0
  {
    OutputPiece(f1, i, a1);
    OutputPiece(f, i, a1 + a2);
    PieceBefore(f1, f, i, a1, a2);
    var piece := PieceOf(f1, i, ParseEscape(f1, i + 1, NO_FLAGS, a1));
    if piece.Some? {
      var p := piece.value;
      ComposesFrom(f1, f2, f, p.next, p.args, a2);
      ThenPrepend(p.text, Output(f1, p.next, p.args), Output(f2, 0, a2));
    }
  }

  /** Formats compose: when no escape of the first is cut off by its end, and the first gets
      exactly the arguments it asks for, the two print one after the other. */
  lemma OutputComposes(f1: CString, f2: CString, a1: seq<Arg>, a2: seq<Arg>)
    requires Closed(f1, 0) && |a1| == ArgCount(f1, 0)
    ensures Output(f1 + f2, 0, a1 + a2) == Then(Output(f1, 0, a1), Output(f2, 0, a2))
  {
    ComposesFrom(f1, f2, f1 + f2, 0, a1, a2);
  }
}
