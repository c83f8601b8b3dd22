/** What printed text looks like on an 80-column screen and on the serial line, as a function of the text. */
module Text {
  import opened Words

  const COLUMNS := 80
  const LINES := 25
  const SCREEN_BYTES := 4000
  const NEWLINE: Byte := 10

  /** A printed character with the colour in force. */
  datatype Glyph = Glyph(ch: Byte, attr: Byte)

  type Row = seq<Glyph>

  // ----- the reference: split at newlines, then cut into rows of 80 -----

  function FirstNewline(text: seq<Glyph>): (k: nat)
    ensures k <= |text|
    ensures forall i: nat | i < k :: text[i].ch != NEWLINE
    ensures k < |text| ==> text[k].ch == NEWLINE
  {
    if text == [] || text[0].ch == NEWLINE then 0 else 1 + FirstNewline(text[1..])
  }

  /** A line of text in rows of 80; a full row is followed by another only if there is more to show. */
  function Chunks(line: seq<Glyph>): (rows: seq<Row>)
    ensures rows != []
  {
    if |line| <= COLUMNS then [line] else [line[..COLUMNS]] + Chunks(line[COLUMNS..])
  }

  function Rows(text: seq<Glyph>): (rows: seq<Row>)
    ensures rows != []
    decreases |text|
  {
    var k := FirstNewline(text);
    if k == |text| then Chunks(text) else Chunks(text[..k]) + Rows(text[k + 1..])
  }

  // ----- one more character -----

  function Last(rows: seq<Row>): Row
    requires rows != []
  {
    rows[|rows| - 1]
  }

  function Extend(rows: seq<Row>, g: Glyph): (more: seq<Row>)
    requires rows != []
    ensures more != []
  {
    if g.ch == NEWLINE then rows + [[]]
    else if |Last(rows)| >= COLUMNS then rows + [[g]]
    else rows[|rows| - 1 := Last(rows) + [g]]
  }

  /** Extending by a printable character is starting a row if need be and adding to the last row. */
  lemma ExtendInSteps(rows: seq<Row>, g: Glyph)
    requires rows != [] && g.ch != NEWLINE
    ensures var open := if |Last(rows)| >= COLUMNS then rows + [[]] else rows;
            open != [] && Extend(rows, g) == open[|open| - 1 := Last(open) + [g]]
  {
    if |Last(rows)| >= COLUMNS {
      var open := rows + [[]];
      assert Last(open) + [g] == [g];
    }
  }

  lemma ExtendAfter(a: seq<Row>, b: seq<Row>, g: Glyph)
    requires b != []
    ensures Extend(a + b, g) == a + Extend(b, g)
  {
    assert Last(a + b) == Last(b);
  }

  lemma {:induction false} ChunksSnoc(line: seq<Glyph>, g: Glyph)
    requires g.ch != NEWLINE
    ensures Chunks(line + [g]) == Extend(Chunks(line), g)
  {
    if |line| < COLUMNS {
    } else if |line| == COLUMNS {
      assert (line + [g])[..COLUMNS] == line;
      assert (line + [g])[COLUMNS..] == [g];
    } else {
      assert (line + [g])[..COLUMNS] == line[..COLUMNS];
      assert (line + [g])[COLUMNS..] == line[COLUMNS..] + [g];
      ChunksSnoc(line[COLUMNS..], g);
      ExtendAfter([line[..COLUMNS]], Chunks(line[COLUMNS..]), g);
    }
  }

  /** Printing a character is seen in the last row, or in one row more. */
  lemma {:induction false} RowsSnoc(text: seq<Glyph>, g: Glyph)
    ensures Rows(text + [g]) == Extend(Rows(text), g)
    decreases |text|
  {
    var k, more := FirstNewline(text), text + [g];
    if k < |text| {
      NewlineFound(more, k);
      assert more[..k] == text[..k] && more[k + 1..] == text[k + 1..] + [g];
      RowsSnoc(text[k + 1..], g);
      ExtendAfter(Chunks(text[..k]), Rows(text[k + 1..]), g);
    } else if g.ch == NEWLINE {
      NewlineFound(more, k);
      assert more[..k] == text && more[k + 1..] == [];
    } else {
      ChunksSnoc(text, g);
      NoNewline(more);
    }
  }

  lemma NewlineFound(text: seq<Glyph>, k: nat)
    requires k < |text| && text[k].ch == NEWLINE && forall i: nat | i < k :: text[i].ch != NEWLINE
    ensures FirstNewline(text) == k
  {
  }

  lemma NoNewline(text: seq<Glyph>)
    requires forall i: nat | i < |text| :: text[i].ch != NEWLINE
    ensures FirstNewline(text) == |text|
  {
  }

  lemma {:induction false} ChunksFit(line: seq<Glyph>)
    ensures forall i: nat | i < |Chunks(line)| :: |Chunks(line)[i]| <= COLUMNS
  {
    if |line| > COLUMNS {
      ChunksFit(line[COLUMNS..]);
    }
  }

  lemma {:induction false} RowsFit(text: seq<Glyph>)
    ensures forall i: nat | i < |Rows(text)| :: |Rows(text)[i]| <= COLUMNS
    decreases |text|
  {
    var k := FirstNewline(text);
    ChunksFit(text[..k]);
    if k == |text| {
      assert text[..k] == text;
    } else {
      RowsFit(text[k + 1..]);
    }
  }

  // ----- the screen -----

  /** The row shown in screen line `r`: the last 25 rows are visible, missing ones are blank. */
  function VisibleRow(rows: seq<Row>, r: nat): Row
    requires r < LINES
  {
    if |rows| <= LINES then (if r < |rows| then rows[r] else [])
    else rows[|rows| - LINES + r]
  }

  /** Byte `i` of the video buffer: character and colour of the cell, zero where there is no character. */
  function VideoByte(rows: seq<Row>, i: nat): Byte
    requires i < SCREEN_BYTES
  {
    var row, c := VisibleRow(rows, i / 160), i % 160 / 2;
    if c < |row| then (if i % 2 == 0 then row[c].ch else row[c].attr) else 0
  }

  ghost predicate Shows(video: seq<Byte>, rows: seq<Row>) {
    |video| == SCREEN_BYTES && forall i: nat | i < SCREEN_BYTES :: video[i] == VideoByte(rows, i)
  }

  lemma ShowsNewRow(video: seq<Byte>, rows: seq<Row>)
    requires rows != [] && Shows(video, rows)
    ensures |rows| < LINES ==> Shows(video, rows + [[]])
    ensures |rows| >= LINES ==> Shows(video[160..] + seq(160, _ => 0), rows + [[]])
  {
    var more := rows + [[]];
    if |rows| < LINES {
      forall i: nat | i < SCREEN_BYTES ensures video[i] == VideoByte(more, i) {
        assert VisibleRow(more, i / 160) == VisibleRow(rows, i / 160);
      }
    } else {
      var scrolled := video[160..] + seq(160, _ => 0);
      forall i: nat | i < SCREEN_BYTES ensures scrolled[i] == VideoByte(more, i) {
        if i < SCREEN_BYTES - 160 {
          assert (i + 160) / 160 == i / 160 + 1 && (i + 160) % 160 == i % 160;
          assert VisibleRow(more, i / 160) == VisibleRow(rows, i / 160 + 1);
          assert video[i + 160] == VideoByte(rows, i + 160);
        } else {
          assert i / 160 == LINES - 1;
          assert VisibleRow(more, i / 160) == [];
        }
      }
    }
  }

  /** Where the next character of the last row goes. */
  function CursorLine(rows: seq<Row>): int
  {
    (if |rows| <= LINES then |rows| else LINES) - 1
  }

  lemma ShowsNewGlyph(video: seq<Byte>, rows: seq<Row>, g: Glyph)
    requires rows != [] && Shows(video, rows) && |Last(rows)| < COLUMNS
    ensures var o := 2 * (CursorLine(rows) * 80 + |Last(rows)|);
            && 0 <= o < SCREEN_BYTES - 1
            && Shows(video[o := g.ch][o + 1 := g.attr], rows[|rows| - 1 := Last(rows) + [g]])
  {
    var y, x := CursorLine(rows), |Last(rows)|;
    var o := 2 * (y * 80 + x);
    var more := rows[|rows| - 1 := Last(rows) + [g]];
    var v := video[o := g.ch][o + 1 := g.attr];
    forall i: nat | i < SCREEN_BYTES ensures v[i] == VideoByte(more, i) {
      if i / 160 == y {
        assert VisibleRow(rows, y) == Last(rows) && VisibleRow(more, y) == Last(rows) + [g];
      } else {
        assert VisibleRow(more, i / 160) == VisibleRow(rows, i / 160);
      }
    }
  }

  // ----- the serial line -----

  function Characters(row: Row): seq<Byte> {
    if row == [] then [] else Characters(row[..|row| - 1]) + [row[|row| - 1].ch]
  }

  /** All rows, joined by newlines. */
  function Serial(rows: seq<Row>): seq<Byte>
    requires rows != []
  {
    if |rows| == 1 then Characters(rows[0])
    else Serial(rows[..|rows| - 1]) + [NEWLINE] + Characters(Last(rows))
  }

  lemma SerialNewRow(rows: seq<Row>)
    requires rows != []
    ensures Serial(rows + [[]]) == Serial(rows) + [NEWLINE]
  {
    assert (rows + [[]])[..|rows|] == rows;
    assert Serial(rows) + [NEWLINE] + [] == Serial(rows) + [NEWLINE];
  }

  lemma SerialNewGlyph(rows: seq<Row>, g: Glyph)
    requires rows != []
    ensures Serial(rows[|rows| - 1 := Last(rows) + [g]]) == Serial(rows) + [g.ch]
  {
    var more := rows[|rows| - 1 := Last(rows) + [g]];
    assert Last(more)[..|Last(rows)|] == Last(rows);
    if |rows| > 1 {
      assert more[..|rows| - 1] == rows[..|rows| - 1];
    }
  }

  // ----- the same, cell by cell -----

  ghost predicate Plain(text: seq<Glyph>) {
    forall k: nat | k < |text| :: text[k].ch != 10
  }

  lemma PlainRows(text: seq<Glyph>)
    requires Plain(text)
    ensures Rows(text) == Chunks(text)
  {
    NoNewline(text);
  }

  lemma {:induction false} ChunkCount(line: seq<Glyph>)
    ensures |Chunks(line)| == if |line| <= 80 then 1 else (|line| + 79) / 80
  {
    if |line| > 80 {
      ChunkCount(line[80..]);
    }
  }

  lemma {:induction false} ChunkCell(line: seq<Glyph>, k: nat)
    requires k < |line|
    ensures k / 80 < |Chunks(line)| && k % 80 < |Chunks(line)[k / 80]| && Chunks(line)[k / 80][k % 80] == line[k]
  {
    if |line| > 80 && k >= 80 {
      ChunkCell(line[80..], k - 80);
      assert (k - 80) / 80 + 1 == k / 80 && (k - 80) % 80 == k % 80;
    }
  }

  /** Text without newlines fills rows of 80 and is not split otherwise. */
  lemma WrapsAt80(text: seq<Glyph>)
    requires Plain(text)
    ensures |Rows(text)| == if |text| <= 80 then 1 else (|text| + 79) / 80
    ensures forall k: nat | k < |text| ::
              k / 80 < |Rows(text)| && k % 80 < |Rows(text)[k / 80]| && Rows(text)[k / 80][k % 80] == text[k]
  {
    PlainRows(text);
    ChunkCount(text);
    forall k: nat | k < |text|
      ensures k / 80 < |Rows(text)| && k % 80 < |Rows(text)[k / 80]| && Rows(text)[k / 80][k % 80] == text[k]
    {
      ChunkCell(text, k);
    }
  }

  /** A newline, which is character 10, ends a row; what follows it starts a new one. */
  lemma NewlineSplits(a: seq<Glyph>, attr: Byte, b: seq<Glyph>)
    requires Plain(a)
    ensures Rows(a + [Glyph(10, attr)] + b) == Rows(a) + Rows(b)
  {
    var text := a + [Glyph(10, attr)] + b;
    NewlineFound(text, |a|);
    NoNewline(a);
    assert text[..|a|] == a && text[|a| + 1..] == b;
  }

  /** The cell in line `y` and column `x`: character before colour, from the last 25 rows. */
  lemma CellShows(video: seq<Byte>, rows: seq<Row>, y: nat, x: nat)
    requires Shows(video, rows) && y < 25 && x < 80
    ensures var top := if |rows| <= 25 then 0 else |rows| - 25;
            var o := 160 * y + 2 * x;
            && |video| == 4000
            && if top + y < |rows| && x < |rows[top + y]|
               then video[o] == rows[top + y][x].ch && video[o + 1] == rows[top + y][x].attr
               else video[o] == 0 && video[o + 1] == 0
  {
    var o := 160 * y + 2 * x;
    assert o / 160 == y && o % 160 == 2 * x && (o + 1) / 160 == y && (o + 1) % 160 == 2 * x + 1;
    assert video[o] == VideoByte(rows, o) && video[o + 1] == VideoByte(rows, o + 1);
  }

  lemma {:induction false} SerialAppend(a: seq<Row>, b: seq<Row>)
    requires a != [] && b != []
    ensures Serial(a + b) == Serial(a) + [10] + Serial(b)
  {
    var front := b[..|b| - 1];
    assert (a + b)[..|a + b| - 1] == a + front && Last(a + b) == Last(b);
    if front == [] {
      assert a + front == a;
    } else {
      SerialAppend(a, front);
      assert (Serial(a) + [10] + Serial(front)) + [10] + Characters(Last(b))
          == Serial(a) + [10] + (Serial(front) + [10] + Characters(Last(b)));
    }
  }

  /** A short line is sent as it is; a newline is sent between rows, whether printed or brought by column 80. */
  lemma SerialText(a: seq<Glyph>, attr: Byte, b: seq<Glyph>)
    requires Plain(a)
    ensures |a| <= 80 ==> Serial(Rows(a)) == Characters(a)
    ensures |a| > 80 ==> Serial(Rows(a)) == Characters(a[..80]) + [10] + Serial(Rows(a[80..]))
    ensures Serial(Rows(a + [Glyph(10, attr)] + b)) == Serial(Rows(a)) + [10] + Serial(Rows(b))
  {
    PlainRows(a);
    NewlineSplits(a, attr, b);
    SerialAppend(Rows(a), Rows(b));
    if |a| > 80 {
      PlainRows(a[80..]);
      SerialAppend([a[..80]], Rows(a[80..]));
    }
  }

  lemma {:induction false} CharactersAt(row: Row, k: nat)
    requires k < |row|
    ensures |Characters(row)| == |row| && Characters(row)[k] == row[k].ch
  {
    if k < |row| - 1 {
      CharactersAt(row[..|row| - 1], k);
    } else if |row| > 1 {
      CharactersAt(row[..|row| - 1], 0);
    }
  }
}
