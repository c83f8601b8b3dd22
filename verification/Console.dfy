/** The 80x25 text console of kernel/driver/console.c with its copy on the serial line. */
module Console {
  import opened Words
  import opened Text
  import opened Numbers
  import opened Format

  class Screen {
    const video: array<Byte>
    var curX: int
    var curY: int
    var color: Byte
    var serial: seq<Byte>

    /** Everything printed since the screen was last cleaned, and what had been sent before that. */
    ghost var text: seq<Glyph>
    ghost var before: seq<Byte>

    /** The screen shows the end of the text, the cursor stands behind it, and all rows have been sent. */
    ghost predicate Valid()
      reads this, video
    {
      ShowsRows(Rows(text))
    }

    ghost predicate ShowsRows(rows: seq<Row>)
      reads this`curX, this`curY, this`serial, this`before, video
    {
      && rows != []
      && video.Length == SCREEN_BYTES
      && Shows(video[..], rows)
      && curX == |Last(rows)| <= COLUMNS
      && curY == CursorLine(rows)
      && serial == before + Serial(rows)
    }

    constructor (buffer: array<Byte>)
      ensures video == buffer && color == 7 && serial == []
    {
      video, curX, curY, color, serial := buffer, 0, 0, 7, [];
      text, before := [], [];
    }

    method SetColor(col: Byte)
      modifies this`color
      ensures color == col
    {
      color := col;
    }

    method Clean()
      requires video.Length == SCREEN_BYTES
      modifies this, video
      ensures Valid() && text == [] && color == old(color) && serial == old(serial)
    {
      for i := 0 to SCREEN_BYTES
        invariant forall k: nat | k < i :: video[k] == 0
        invariant color == old(color) && serial == old(serial)
      {
        video[i] := 0;
      }
      curX, curY := 0, 0;
      text, before := [], serial;
    }

    method Scroll()
      requires video.Length == SCREEN_BYTES
      modifies this`curY, video
      ensures video[..] == old(video[..])[160..] + seq(160, _ => 0)
      ensures curY == old(curY) - 1
    {
      for i := 0 to 2 * 24 * 80
        invariant forall k: nat | k < i :: video[k] == old(video[k + 160])
        invariant forall k: nat | i <= k < SCREEN_BYTES :: video[k] == old(video[k])
        invariant curY == old(curY)
      {
        video[i] := video[i + 2 * 80];
      }
      for i := 2 * 24 * 80 to SCREEN_BYTES
        invariant forall k: nat | k < 2 * 24 * 80 :: video[k] == old(video[k + 160])
        invariant forall k: nat | 2 * 24 * 80 <= k < i :: video[k] == 0
        invariant curY == old(curY)
      {
        video[i] := 0;
      }
      curY := curY - 1;
    }

    /** kprintc. What is printed so far is remembered in `text`. */
    method PrintChar(c: Byte)
      requires Valid()
      modifies this`curX, this`curY, this`serial, this`text, video
      ensures Valid() && text == old(text) + [Glyph(c, color)]
    {
      RowsSnoc(text, Glyph(c, color));
      Emit(c, Rows(text));
      text := text + [Glyph(c, color)];
    }

    /** Rows wrap lazily: a full row is left only when there is another character to print. */
    method Emit(c: Byte, ghost rows: seq<Row>)
      requires ShowsRows(rows)
      modifies this`curX, this`curY, this`serial, video
      ensures ShowsRows(Extend(rows, Glyph(c, color)))
    {
      ghost var open := if |Last(rows)| >= COLUMNS || c == NEWLINE then rows + [[]] else rows;
      if curX >= 80 || c == NEWLINE {
        NewRow(rows);
      }
      if c == NEWLINE {
        return;
      }
      ExtendInSteps(rows, Glyph(c, color));
      PutGlyph(c, open);
    }

    /**
     Go to the start of the next line, scrolling if there is none. The source tests for that behind
     every character, but only here can the cursor have left the screen.
     */
    method NewRow(ghost rows: seq<Row>)
      requires ShowsRows(rows)
      modifies this`curX, this`curY, this`serial, video
      ensures ShowsRows(rows + [[]])
    {
      ShowsNewRow(video[..], rows);
      SerialNewRow(rows);
      curY := curY + 1;
      curX := 0;
      serial := serial + [NEWLINE];
      if curY > 24 {
        Scroll();
      }
    }

    method PutGlyph(c: Byte, ghost rows: seq<Row>)
      requires ShowsRows(rows) && |Last(rows)| < COLUMNS
      modifies this`curX, this`serial, video
      ensures ShowsRows(rows[|rows| - 1 := Last(rows) + [Glyph(c, color)]])
    {
      ShowsNewGlyph(video[..], rows, Glyph(c, color));
      SerialNewGlyph(rows, Glyph(c, color));
      ghost var o := 2 * (curY * 80 + curX);
      ghost var shown := video[..][o := c][o + 1 := color];
      video[2 * (curY * 80 + curX)] := c;
      video[2 * (curY * 80 + curX) + 1] := color;
      assert video[..] == shown;
      serial := serial + [c];
      curX := curX + 1;
    }

    /** Printing stops at the terminator, which is the last byte of `str`. */
    method PrintString(str: seq<Byte>)
      requires Valid() && IsCString(str)
      modifies this`curX, this`curY, this`serial, this`text, video
      ensures Valid() && text == old(text) + Colored(Body(str), color)
    {
      var i := 0;
      ghost var t := text;
      assert t == t + Colored(Body(str)[..0], color);
      while str[i] != 0
        invariant i < |str| && Valid()
        invariant text == t + Colored(Body(str)[..i], color)
        decreases |str| - i
      {
        PrintedSoFar(t, Body(str), i, color);
        PrintChar(str[i]);
        i := i + 1;
      }
      assert Body(str)[..i] == Body(str);
    }

    /** The digits are produced from the end of a 65-byte buffer, at most 32 of them. */
    static method Convert(nr: Word, base: nat, buf: array<Byte>) returns (str: nat)
      requires 2 <= base <= 36 && buf.Length == 65
      modifies buf
      ensures 32 <= str < 64 && buf[str..65] == Digits(nr, base) + [0]
    {
      WordDigits(nr, base);
      str := 64;
      buf[str] := 0;
      var n: nat := nr;
      ghost var done: seq<Byte> := [];
      assert Digits(nr, base) == Digits(nr, base) + done;
      while true
        invariant 64 - str == |done|
        invariant Digits(nr, base) == Digits(n, base) + done
        invariant buf[str..65] == done + [0]
        decreases n
      {
        ghost var behind := buf[str..65];
        assert |done| < |Digits(nr, base)|;
        var digit, rest := LastDigit(n, base), n / base;
        DigitStep(n, base, rest, done);
        str := str - 1;
        buf[str] := digit;
        assert buf[str..65] == [digit] + behind;
        done := [digit] + done;
        if rest == 0 {
          break;
        }
        n := rest;
      }
    }

    method PrintNumber(nr: Word, base: nat)
      requires Valid() && 2 <= base
      modifies this`curX, this`curY, this`serial, this`text, video
      ensures Valid()
      ensures text == old(text) + (if base <= 36 then Colored(Digits(nr, base), color) else [])
    {
      if base <= 36 {
        var buf := new Byte[65](_ => 0);
        var str := Convert(nr, base, buf);
        DigitsAreNonzero(nr, base);
        assert Body(buf[str..65]) == Digits(nr, base);
        PrintString(buf[str..65]);
      }
    }

    // ----- kprintf -----

    method PrintBinary(n: Word, marked: bool)
      requires Valid()
      modifies this`curX, this`curY, this`serial, this`text, video
      ensures Valid() && text == old(text) + Colored(Rendered(Binary(marked), Number(n)), color)
    {
      PrintNumber(n, 2);
      if marked {
        PrintedThen(old(text), Digits(n, 2), LETTER_B, color);
        PrintChar(LETTER_B);
      } else {
        assert Digits(n, 2) + [] == Digits(n, 2);
      }
    }

    method PrintHexadecimal(n: Word, marked: bool)
      requires Valid()
      modifies this`curX, this`curY, this`serial, this`text, video
      ensures Valid() && text == old(text) + Colored(Rendered(Hexadecimal(marked), Number(n)), color)
    {
      HexadecimalText(text, n, marked, color);
      if marked {
        PrintPrefix();
      }
      PrintNumber(n, 16);
    }

    method PrintPrefix()
      requires Valid()
      modifies this`curX, this`curY, this`serial, this`text, video
      ensures Valid() && text == old(text) + Colored([ZERO, LETTER_X], color)
    {
      var prefix: seq<Byte> := [ZERO, LETTER_X, 0];
      assert Body(prefix) == [ZERO, LETTER_X];
      PrintString(prefix);
    }

    method PrintCharacter(n: Word)
      requires Valid()
      modifies this`curX, this`curY, this`serial, this`text, video
      ensures Valid() && text == old(text) + Colored(Rendered(CharArg, Number(n)), color)
    {
      PrintedThen(text, [], n % 256, color);
      assert [] + [n % 256] == [n % 256];
      assert text + [] == text;
      PrintChar(n % 256);
    }

    /** The cases of the format switch that take an argument. */
    method PrintArgument(c: Byte, arg: Arg, bare: bool)
      requires Valid() && TakesArgument(c) && Suits(Conversion(c, bare), arg)
      modifies this`curX, this`curY, this`serial, this`text, video
      ensures Valid() && text == old(text) + Colored(Rendered(Conversion(c, bare), arg), color)
    {
      if c == LETTER_S {
        PrintString(arg.s);
      } else if c == LETTER_C {
        PrintCharacter(arg.n);
      } else if c == LETTER_B {
        PrintBinary(arg.n, !bare);
      } else if c == LETTER_D {
        PrintNumber(arg.n, 10);
      } else {
        PrintHexadecimal(arg.n, !bare);
      }
    }

    /** Progress of kprintf: before character `i` of the format, with `a` arguments used up. */
    ghost predicate Printing(str: seq<Byte>, args: seq<Arg>, i: nat, a: nat, bare: bool,
                             t: seq<Glyph>, done: seq<Byte>, total: seq<Byte>)
      requires |str| > 0
      reads this, video
    {
      && Valid() && text == t + Colored(done, color)
      && i < |str| && a <= |args|
      && (bare ==> i < |Body(str)| && (str[i] == LETTER_B || str[i] == LETTER_X))
      && Midway(done, Pending(Body(str), i, bare), args[a..], total)
    }

    /**
     The format is walked with an index that never passes its terminator. The two flags of the source
     are always set and cleared together, here `bare`; while they are set, the next character is the
     letter of a number to be printed without its mark.
     */
    method Printf(str: seq<Byte>, args: seq<Arg>)
      requires Valid() && IsCString(str) && Fits(Parse(Body(str)), args)
      modifies this`curX, this`curY, this`serial, this`text, video
      ensures Valid()
      ensures text == old(text) + Colored(Render(Parse(Body(str)), args), color)
    {
      ghost var t, total := text, Render(Parse(Body(str)), args);
      ghost var done: seq<Byte> := [];
      var i: nat, a: nat, bare := 0, 0, false;
      PrintingStarts(str, args, t);
      while str[i] != 0
        invariant color == old(color) && Printing(str, args, i, a, bare, t, done, total)
        decreases |str| - i
      {
        if str[i] == PERCENT || bare {
          var out;
          i, a, bare, out, done := Directive(str, args, i, a, bare, t, done, total);
          if out {
            break;
          }
        } else {
          i, done := Plain(str, args, i, a, t, done, total);
        }
      }
      assert done + [] == done;
    }

    /** A character that is neither a percent sign nor the rest of a conversion. */
    method Plain(str: seq<Byte>, ghost args: seq<Arg>, i: nat, ghost a: nat,
                 ghost t: seq<Glyph>, ghost sofar: seq<Byte>, ghost total: seq<Byte>)
      returns (next: nat, ghost done: seq<Byte>)
      requires IsCString(str) && Printing(str, args, i, a, false, t, sofar, total)
      requires str[i] != PERCENT && str[i] != 0
      modifies this`curX, this`curY, this`serial, this`text, video
      ensures next == i + 1 && Printing(str, args, next, a, false, t, done, total)
    {
      PendingPlain(Body(str), i);
      done := PrintOne(str[i], t, sofar, Pending(Body(str), i, false), args[a..], total);
      next := i + 1;
    }

    /** The switch of kprintf and the step behind it; `out` is the jump to the end. */
    method Directive(str: seq<Byte>, args: seq<Arg>, start: nat, used: nat, flags: bool,
                     ghost t: seq<Glyph>, ghost sofar: seq<Byte>, ghost total: seq<Byte>)
      returns (i: nat, a: nat, bare: bool, out: bool, ghost done: seq<Byte>)
      requires IsCString(str) && Printing(str, args, start, used, flags, t, sofar, total)
      requires str[start] == PERCENT || flags
      modifies this`curX, this`curY, this`serial, this`text, video
      ensures start < i
      ensures out ==> Valid() && text == t + Colored(total, color)
      ensures !out ==> Printing(str, args, i, a, bare, t, done, total)
    {
      ghost var f := Body(str);
      ghost var pending := Pending(f, start, flags);
      i, a, bare, out, done := start, used, flags, false, sofar;
      if str[i] == PERCENT {
        PendingPercent(f, i);
        i := i + 1;
      }
      if str[i] == ZERO {
        if str[i + 1] == LETTER_B || str[i + 1] == LETTER_X {
          bare := true;
        } else {
          done := PrintTwo(PERCENT, ZERO, t, done, pending, args[a..], total);
        }
      } else if TakesArgument(str[i]) {
        done := PrintNext(str[i], args, a, bare, t, done, pending, total);
        a := a + 1;
        bare := false;
      } else if str[i] == PERCENT {
        done := PrintOne(PERCENT, t, done, pending, args[a..], total);
      } else if str[i] == 0 {
        assert done + [] == done;
        out := true;
      } else {
        done := PrintTwo(PERCENT, str[i], t, done, pending, args[a..], total);
      }
      i := i + 1;
    }

    method PrintOne(c: Byte, ghost t: seq<Glyph>, ghost done: seq<Byte>, ghost pending: seq<Piece>,
                    ghost args: seq<Arg>, ghost total: seq<Byte>)
      returns (ghost more: seq<Byte>)
      requires Valid() && text == t + Colored(done, color)
      requires Midway(done, pending, args, total) && pending != [] && pending[0] == Literal(c)
      modifies this`curX, this`curY, this`serial, this`text, video
      ensures Valid() && text == t + Colored(more, color)
      ensures Midway(more, pending[1..], args, total)
    {
      AfterLiteral(done, pending, args, total);
      PrintedThen(t, done, c, color);
      PrintChar(c);
      more := done + [c];
    }

    method PrintTwo(c: Byte, d: Byte, ghost t: seq<Glyph>, ghost done: seq<Byte>, ghost pending: seq<Piece>,
                    ghost args: seq<Arg>, ghost total: seq<Byte>)
      returns (ghost more: seq<Byte>)
      requires Valid() && text == t + Colored(done, color)
      requires Midway(done, pending, args, total) && |pending| >= 2
      requires pending[0] == Literal(c) && pending[1] == Literal(d)
      modifies this`curX, this`curY, this`serial, this`text, video
      ensures Valid() && text == t + Colored(more, color)
      ensures Midway(more, pending[2..], args, total)
    {
      more := PrintOne(c, t, done, pending, args, total);
      more := PrintOne(d, t, more, pending[1..], args, total);
      assert pending[1..][1..] == pending[2..];
    }

    method PrintNext(c: Byte, args: seq<Arg>, a: nat, bare: bool, ghost t: seq<Glyph>, ghost done: seq<Byte>,
                     ghost pending: seq<Piece>, ghost total: seq<Byte>)
      returns (ghost more: seq<Byte>)
      requires Valid() && text == t + Colored(done, color) && a <= |args| && TakesArgument(c)
      requires Midway(done, pending, args[a..], total) && pending != [] && pending[0] == Conversion(c, bare)
      modifies this`curX, this`curY, this`serial, this`text, video
      ensures Valid() && text == t + Colored(more, color) && a < |args|
      ensures Midway(more, pending[1..], args[a + 1..], total)
    {
      AfterArgument(done, pending, args[a..], total);
      assert args[a..][1..] == args[a + 1..];
      PrintedInTurn(t, done, Rendered(pending[0], args[a]), color);
      PrintArgument(c, args[a], bare);
      more := done + Rendered(pending[0], args[a]);
    }
  }
}
