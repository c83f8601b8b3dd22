/** Format strings of kprintf: parsing into pieces, and rendering the pieces with their arguments. */
module Format {
  import opened Words
  import opened Text
  import opened Numbers

  // ----- C strings -----

  /** The bytes of a string in memory up to and including its terminator. */
  predicate IsCString(str: seq<Byte>) {
    && |str| > 0 && str[|str| - 1] == 0
    && forall i: nat | i < |str| - 1 :: str[i] != 0
  }

  function Body(str: seq<Byte>): seq<Byte>
    requires |str| > 0
  {
    str[..|str| - 1]
  }

  function Colored(s: seq<Byte>, color: Byte): (g: seq<Glyph>)
    ensures |g| == |s|
  {
    if s == [] then [] else Colored(s[..|s| - 1], color) + [Glyph(s[|s| - 1], color)]
  }

  lemma ColoredSnoc(s: seq<Byte>, c: Byte, color: Byte)
    ensures Colored(s + [c], color) == Colored(s, color) + [Glyph(c, color)]
  {
    assert (s + [c])[..|s|] == s;
  }

  lemma {:induction false} ColoredAppend(s: seq<Byte>, t: seq<Byte>, color: Byte)
    ensures Colored(s + t, color) == Colored(s, color) + Colored(t, color)
  {
    if t == [] {
      assert s + t == s;
    } else {
      var u := t[..|t| - 1];
      ColoredAppend(s, u, color);
      assert s + t == (s + u) + [t[|t| - 1]];
      ColoredSnoc(s + u, t[|t| - 1], color);
    }
  }

  lemma PrintedInTurn(t: seq<Glyph>, a: seq<Byte>, b: seq<Byte>, color: Byte)
    ensures (t + Colored(a, color)) + Colored(b, color) == t + Colored(a + b, color)
  {
    ColoredAppend(a, b, color);
  }

  lemma PrintedThen(t: seq<Glyph>, a: seq<Byte>, c: Byte, color: Byte)
    ensures (t + Colored(a, color)) + [Glyph(c, color)] == t + Colored(a + [c], color)
  {
    ColoredSnoc(a, c, color);
  }

  lemma PrintedSoFar(t: seq<Glyph>, s: seq<Byte>, i: nat, color: Byte)
    requires i < |s|
    ensures t + Colored(s[..i], color) + [Glyph(s[i], color)] == t + Colored(s[..i + 1], color)
  {
    assert s[..i + 1] == s[..i] + [s[i]];
    ColoredSnoc(s[..i], s[i], color);
  }

  lemma {:induction false} DigitsAreNonzero(n: nat, base: nat)
    requires 2 <= base <= 36
    ensures forall i: nat | i < |Digits(n, base)| :: Digits(n, base)[i] != 0
    decreases n
  {
    if n >= base {
      SmallerQuotient(n, base);
      DigitsAreNonzero(n / base, base);
    }
  }

  // ----- pieces -----

  datatype Piece =
    | Literal(c: Byte)
    | StringArg
    | CharArg
    | Binary(marked: bool)
    | Decimal
    | Hexadecimal(marked: bool)

  datatype Arg = Number(n: Word) | String(s: seq<Byte>)

  const PERCENT: Byte := 37
  const ZERO: Byte := 48
  const LETTER_B: Byte := 98
  const LETTER_C: Byte := 99
  const LETTER_D: Byte := 100
  const LETTER_S: Byte := 115
  const LETTER_X: Byte := 120

  /** How many bytes of the format the first piece or pieces take up. */
  function Width(f: seq<Byte>): (n: nat)
    requires f != []
    ensures 0 < n <= |f|
  {
    if f[0] != PERCENT || |f| == 1 then 1
    else if f[1] == ZERO && |f| > 2 && (f[2] == LETTER_B || f[2] == LETTER_X) then 3
    else 2
  }

  /**
   The pieces that the format starts with: a plain character, a conversion, or the two characters of
   an unknown conversion. A lone percent sign at the end prints nothing.
   */
  function First(f: seq<Byte>): seq<Piece>
    requires f != []
  {
    if f[0] != PERCENT then [Literal(f[0])]
    else if |f| == 1 then []
    else if Width(f) == 3 then [if f[2] == LETTER_B then Binary(false) else Hexadecimal(false)]
    else if f[1] == LETTER_S then [StringArg]
    else if f[1] == LETTER_C then [CharArg]
    else if f[1] == LETTER_B then [Binary(true)]
    else if f[1] == LETTER_D then [Decimal]
    else if f[1] == LETTER_X then [Hexadecimal(true)]
    else if f[1] == PERCENT then [Literal(PERCENT)]
    else [Literal(PERCENT), Literal(f[1])]
  }

  function Parse(f: seq<Byte>): seq<Piece>
    decreases |f|
  {
    if f == [] then [] else First(f) + Parse(f[Width(f)..])
  }

  // ----- arguments -----

  /** One argument of the right kind for each piece that takes one; more arguments do no harm. */
  predicate Fits(pieces: seq<Piece>, args: seq<Arg>)
    decreases |pieces|
  {
    if pieces == [] then true
    else if pieces[0].Literal? then Fits(pieces[1..], args)
    else args != [] && Suits(pieces[0], args[0]) && Fits(pieces[1..], args[1..])
  }

  predicate Suits(p: Piece, a: Arg) {
    if p.StringArg? then a.String? && IsCString(a.s) else a.Number?
  }

  function Rendered(p: Piece, a: Arg): seq<Byte>
    requires !p.Literal? && Suits(p, a)
  {
    match p
    case StringArg => Body(a.s)
    case CharArg => [a.n % 256]
    case Binary(marked) => Digits(a.n, 2) + (if marked then [LETTER_B] else [])
    case Decimal => Digits(a.n, 10)
    case Hexadecimal(marked) => (if marked then [ZERO, LETTER_X] else []) + Digits(a.n, 16)
  }

  lemma HexadecimalText(t: seq<Glyph>, n: Word, marked: bool, color: Byte)
    ensures (if marked then t + Colored([ZERO, LETTER_X], color) else t) + Colored(Digits(n, 16), color)
            == t + Colored(Rendered(Hexadecimal(marked), Number(n)), color)
  {
    if marked {
      PrintedInTurn(t, [ZERO, LETTER_X], Digits(n, 16), color);
    } else {
      assert [] + Digits(n, 16) == Digits(n, 16);
    }
  }

  function Render(pieces: seq<Piece>, args: seq<Arg>): seq<Byte>
    requires Fits(pieces, args)
    decreases |pieces|
  {
    if pieces == [] then []
    else if pieces[0].Literal? then [pieces[0].c] + Render(pieces[1..], args)
    else Rendered(pieces[0], args[0]) + Render(pieces[1..], args[1..])
  }

  // ----- printing piece by piece -----

  /** `f[i..]` starts with these pieces, and the rest follows. */
  lemma ParseStep(f: seq<Byte>, i: nat)
    requires i < |f|
    ensures Parse(f[i..]) == First(f[i..]) + Parse(f[i + Width(f[i..])..])
  {
    assert f[i..][Width(f[i..])..] == f[i + Width(f[i..])..];
  }

  predicate TakesArgument(c: Byte) {
    c == LETTER_S || c == LETTER_C || c == LETTER_B || c == LETTER_D || c == LETTER_X
  }

  /** The conversion a letter stands for; `bare` suppresses the mark of binary and hexadecimal numbers. */
  function Conversion(c: Byte, bare: bool): Piece
    requires TakesArgument(c)
  {
    if c == LETTER_S then StringArg
    else if c == LETTER_C then CharArg
    else if c == LETTER_B then Binary(!bare)
    else if c == LETTER_D then Decimal
    else Hexadecimal(!bare)
  }

  /** Where printing stands: what has been printed, what remains, and with which arguments. */
  ghost predicate Midway(done: seq<Byte>, pending: seq<Piece>, args: seq<Arg>, total: seq<Byte>) {
    Fits(pending, args) && done + Render(pending, args) == total
  }

  lemma AfterLiteral(done: seq<Byte>, pending: seq<Piece>, args: seq<Arg>, total: seq<Byte>)
    requires Midway(done, pending, args, total) && pending != [] && pending[0].Literal?
    ensures Midway(done + [pending[0].c], pending[1..], args, total)
  {
    assert done + ([pending[0].c] + Render(pending[1..], args)) == (done + [pending[0].c]) + Render(pending[1..], args);
  }

  lemma AfterArgument(done: seq<Byte>, pending: seq<Piece>, args: seq<Arg>, total: seq<Byte>)
    requires Midway(done, pending, args, total) && pending != [] && !pending[0].Literal?
    ensures args != [] && Suits(pending[0], args[0])
    ensures Midway(done + Rendered(pending[0], args[0]), pending[1..], args[1..], total)
  {
    var r := Rendered(pending[0], args[0]);
    assert done + (r + Render(pending[1..], args[1..])) == (done + r) + Render(pending[1..], args[1..]);
  }

  /** The pieces still to print when the next character is `f[i]`. */
  function Pending(f: seq<Byte>, i: nat, bare: bool): seq<Piece>
    requires i <= |f|
    requires bare ==> i < |f| && (f[i] == LETTER_B || f[i] == LETTER_X)
  {
    if bare then [Conversion(f[i], true)] + Parse(f[i + 1..]) else Parse(f[i..])
  }

  lemma PendingPlain(f: seq<Byte>, i: nat)
    requires i < |f| && f[i] != PERCENT
    ensures Pending(f, i, false) == [Literal(f[i])] + Pending(f, i + 1, false)
    ensures Pending(f, i, false)[1..] == Pending(f, i + 1, false)
  {
    ParseStep(f, i);
  }

  lemma Ahead(f: seq<Byte>, i: nat)
    requires i < |f|
    ensures |f[i..]| == |f| - i && f[i..][0] == f[i]
    ensures i + 1 < |f| ==> f[i..][1] == f[i + 1]
    ensures i + 2 < |f| ==> f[i..][2] == f[i + 2]
  {
  }

  predicate IsMarkless(f: seq<Byte>, i: nat) {
    i + 2 < |f| && f[i + 1] == ZERO && (f[i + 2] == LETTER_B || f[i + 2] == LETTER_X)
  }

  lemma PendingMarkless(f: seq<Byte>, i: nat)
    requires i < |f| && f[i] == PERCENT && IsMarkless(f, i)
    ensures Pending(f, i, false) == Pending(f, i + 2, true)
  {
    ParseStep(f, i);
    Ahead(f, i);
    assert First(f[i..]) == [Conversion(f[i + 2], true)];
  }

  lemma PendingOrdinary(f: seq<Byte>, i: nat)
    requires i + 1 < |f| && f[i] == PERCENT && !IsMarkless(f, i)
    ensures Pending(f, i, false) ==
            (if TakesArgument(f[i + 1]) then [Conversion(f[i + 1], false)]
             else if f[i + 1] == PERCENT then [Literal(PERCENT)]
             else [Literal(PERCENT), Literal(f[i + 1])]) + Pending(f, i + 2, false)
  {
    ParseStep(f, i);
    Ahead(f, i);
    assert Width(f[i..]) == 2;
  }

  lemma PendingPercent(f: seq<Byte>, i: nat)
    requires i < |f| && f[i] == PERCENT
    ensures i + 1 == |f| ==> Pending(f, i, false) == []
    ensures i + 1 < |f| && TakesArgument(f[i + 1]) ==>
              Pending(f, i, false) == [Conversion(f[i + 1], false)] + Pending(f, i + 2, false)
    ensures i + 1 < |f| && f[i + 1] == PERCENT ==>
              Pending(f, i, false) == [Literal(PERCENT)] + Pending(f, i + 2, false)
    ensures i + 2 < |f| && f[i + 1] == ZERO && (f[i + 2] == LETTER_B || f[i + 2] == LETTER_X) ==>
              Pending(f, i, false) == Pending(f, i + 2, true)
    ensures i + 1 < |f| && !TakesArgument(f[i + 1]) && f[i + 1] != PERCENT &&
            !(f[i + 1] == ZERO && i + 2 < |f| && (f[i + 2] == LETTER_B || f[i + 2] == LETTER_X)) ==>
              Pending(f, i, false) == [Literal(PERCENT), Literal(f[i + 1])] + Pending(f, i + 2, false)
  {
    if i + 1 == |f| {
      ParseStep(f, i);
    } else if IsMarkless(f, i) {
      PendingMarkless(f, i);
    } else {
      PendingOrdinary(f, i);
    }
  }

  lemma PrintingStarts(str: seq<Byte>, args: seq<Arg>, t: seq<Glyph>)
    requires IsCString(str) && Fits(Parse(Body(str)), args)
    ensures Midway([], Pending(Body(str), 0, false), args[0..], Render(Parse(Body(str)), args))
    ensures t + [] == t
  {
    assert Body(str)[0..] == Body(str) && args[0..] == args;
  }

  // ----- printing text that is not a format -----

  /** Every percent sign doubled. */
  function Escape(s: seq<Byte>): seq<Byte> {
    if s == [] then [] else (if s[0] == PERCENT then [PERCENT, PERCENT] else [s[0]]) + Escape(s[1..])
  }

  /** Any text can be printed through a format: escaping it and rendering without arguments gives it back. */
  lemma {:induction false} EscapeRoundTrip(s: seq<Byte>)
    ensures Fits(Parse(Escape(s)), []) && Render(Parse(Escape(s)), []) == s
  {
    if s != [] {
      EscapeRoundTrip(s[1..]);
      var e, rest := Escape(s), Escape(s[1..]);
      if s[0] == PERCENT {
        assert e[2..] == rest;
      } else {
        assert e[1..] == rest;
      }
      assert Parse(e) == [Literal(s[0])] + Parse(rest);
      assert s == [s[0]] + s[1..];
    }
  }

  // ----- what each conversion prints, byte by byte -----

  /** The format `head` followed by `rest` prints `text` and then what `rest` prints with the other arguments. */
  ghost predicate Prints(head: seq<Byte>, taken: seq<Arg>, text: seq<Byte>, rest: seq<Byte>, args: seq<Arg>)
    requires Fits(Parse(rest), args)
  {
    && Fits(Parse(head + rest), taken + args)
    && Render(Parse(head + rest), taken + args) == text + Render(Parse(rest), args)
  }

  lemma ConversionPrints(head: seq<Byte>, p: Piece, a: Arg, rest: seq<Byte>, args: seq<Arg>)
    requires head != [] && First(head + rest) == [p] && Width(head + rest) == |head|
    requires !p.Literal? && Suits(p, a) && Fits(Parse(rest), args)
    ensures Prints(head, [a], Rendered(p, a), rest, args)
  {
    var f := head + rest;
    assert f[|head|..] == rest;
    var pieces := Parse(f);
    assert pieces == [p] + Parse(rest) && pieces[1..] == Parse(rest);
    assert ([a] + args)[1..] == args;
  }

  /** `%d` prints the number in decimal. */
  lemma PrintsDecimal(n: Word, rest: seq<Byte>, args: seq<Arg>)
    requires Fits(Parse(rest), args)
    ensures exists d: seq<Byte> :: Denotes(d, n, 10) && Prints([37, 100], [Number(n)], d, rest, args)
  {
    ConversionPrints([37, 100], Decimal, Number(n), rest, args);
    DigitsDenote(n, 10);
  }

  /** `%b` prints it in binary with a `b` behind, `%0b` without. */
  lemma PrintsBinary(n: Word, rest: seq<Byte>, args: seq<Arg>)
    requires Fits(Parse(rest), args)
    ensures exists d: seq<Byte> ::
              && Denotes(d, n, 2)
              && Prints([37, 98], [Number(n)], d + [98], rest, args)
              && Prints([37, 48, 98], [Number(n)], d, rest, args)
  {
    var d := Digits(n, 2);
    ConversionPrints([37, 98], Binary(true), Number(n), rest, args);
    ConversionPrints([37, 48, 98], Binary(false), Number(n), rest, args);
    assert d + [] == d;
    DigitsDenote(n, 2);
  }

  /** `%x` prints it in hexadecimal with `0x` before, `%0x` without. */
  lemma PrintsHexadecimal(n: Word, rest: seq<Byte>, args: seq<Arg>)
    requires Fits(Parse(rest), args)
    ensures exists d: seq<Byte> ::
              && Denotes(d, n, 16)
              && Prints([37, 120], [Number(n)], [48, 120] + d, rest, args)
              && Prints([37, 48, 120], [Number(n)], d, rest, args)
  {
    var d := Digits(n, 16);
    ConversionPrints([37, 120], Hexadecimal(true), Number(n), rest, args);
    ConversionPrints([37, 48, 120], Hexadecimal(false), Number(n), rest, args);
    assert [] + d == d;
    DigitsDenote(n, 16);
  }

  /** `%c` prints the number's lowest byte, `%s` a string up to its terminator. */
  lemma PrintsText(n: Word, s: seq<Byte>, rest: seq<Byte>, args: seq<Arg>)
    requires Fits(Parse(rest), args) && IsCString(s)
    ensures Prints([37, 99], [Number(n)], [n % 256], rest, args)
    ensures Prints([37, 115], [String(s)], s[..|s| - 1], rest, args)
  {
    ConversionPrints([37, 99], CharArg, Number(n), rest, args);
    ConversionPrints([37, 115], StringArg, String(s), rest, args);
  }

  lemma RenderLiteral(c: Byte, pieces: seq<Piece>, args: seq<Arg>)
    requires Fits(pieces, args)
    ensures Fits([Literal(c)] + pieces, args) && Render([Literal(c)] + pieces, args) == [c] + Render(pieces, args)
  {
    var all := [Literal(c)] + pieces;
    assert all[0] == Literal(c) && all[1..] == pieces;
  }

  lemma RenderTwoLiterals(c: Byte, d: Byte, pieces: seq<Piece>, args: seq<Arg>)
    requires Fits(pieces, args)
    ensures Fits([Literal(c), Literal(d)] + pieces, args)
    ensures Render([Literal(c), Literal(d)] + pieces, args) == [c, d] + Render(pieces, args)
  {
    var later := [Literal(d)] + pieces;
    RenderLiteral(d, pieces, args);
    RenderLiteral(c, later, args);
    assert [Literal(c), Literal(d)] + pieces == [Literal(c)] + later;
    assert [c, d] + Render(pieces, args) == [c] + Render(later, args);
  }

  lemma PiecesPrint(head: seq<Byte>, pieces: seq<Piece>, text: seq<Byte>, rest: seq<Byte>, args: seq<Arg>)
    requires head != [] && First(head + rest) == pieces && Width(head + rest) == |head| && Fits(Parse(rest), args)
    requires Fits(pieces + Parse(rest), args) && Render(pieces + Parse(rest), args) == text + Render(Parse(rest), args)
    ensures Prints(head, [], text, rest, args)
  {
    assert (head + rest)[|head|..] == rest;
    assert [] + args == args;
  }

  lemma LiteralPrints(head: seq<Byte>, c: Byte, rest: seq<Byte>, args: seq<Arg>)
    requires head != [] && First(head + rest) == [Literal(c)] && Width(head + rest) == |head|
    requires Fits(Parse(rest), args)
    ensures Prints(head, [], [c], rest, args)
  {
    RenderLiteral(c, Parse(rest), args);
    PiecesPrint(head, [Literal(c)], [c], rest, args);
  }

  lemma TwoLiteralsPrint(head: seq<Byte>, c: Byte, d: Byte, rest: seq<Byte>, args: seq<Arg>)
    requires head != [] && First(head + rest) == [Literal(c), Literal(d)] && Width(head + rest) == |head|
    requires Fits(Parse(rest), args)
    ensures Prints(head, [], [c, d], rest, args)
  {
    RenderTwoLiterals(c, d, Parse(rest), args);
    PiecesPrint(head, [Literal(c), Literal(d)], [c, d], rest, args);
  }

  /**
   Any other character prints itself, two percent signs print one, and a percent sign before an unknown
   letter prints both; so does one before a zero, unless `b` or `x` follows. One at the end prints nothing.
   */
  lemma PrintsItself(c: Byte, rest: seq<Byte>, args: seq<Arg>)
    requires Fits(Parse(rest), args)
    ensures c != 37 ==> Prints([c], [], [c], rest, args)
    ensures Prints([37, 37], [], [37], rest, args)
    ensures c !in {37, 48, 98, 99, 100, 115, 120} ==> Prints([37, c], [], [37, c], rest, args)
    ensures rest == [] || (rest[0] != 98 && rest[0] != 120) ==> Prints([37, 48], [], [37, 48], rest, args)
    ensures Parse([37]) == [] && Render(Parse([37]), args) == []
  {
    if c != 37 {
      LiteralPrints([c], c, rest, args);
    }
    LiteralPrints([37, 37], 37, rest, args);
    if c !in {37, 48, 98, 99, 100, 115, 120} {
      TwoLiteralsPrint([37, c], 37, c, rest, args);
    }
    if rest == [] || (rest[0] != 98 && rest[0] != 120) {
      TwoLiteralsPrint([37, 48], 37, 48, rest, args);
    }
  }
}
