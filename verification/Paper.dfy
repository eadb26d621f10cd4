/** A terminal as an endless sheet of paper: rows are only ever added, nothing scrolls away. */
module Paper {
  import opened Common

  const WIDTH: nat := 80
  const HEIGHT: nat := 25
  const SCREEN: nat := 2000
  const BACKSPACE: byte := 8

  /** A character and its attribute, as one video memory word. */
  type Cell = nat

  function Glyph(c: byte, attrib: byte): Cell {
    var hi: int := attrib;
    c + 256 * hi
  }

  /** The character is the low byte of the word, the attribute the high one. */
  lemma GlyphBytes(c: byte, attrib: byte)
    ensures Glyph(c, attrib) % 256 == c && Glyph(c, attrib) / 256 == attrib
  {
  }

  function Blanks(n: nat, attrib: byte): (s: seq<Cell>)
    ensures |s| == n && forall i :: 0 <= i < n ==> s[i] == Glyph(SPACE, attrib)
  {
    seq(n, _ => Glyph(SPACE, attrib))
  }

  /** All rows written so far, end to end, and the cursor. */
  datatype Page = Page(cells: seq<Cell>, pos: nat)

  ghost predicate ValidPage(p: Page) {
    && |p.cells| >= SCREEN && |p.cells| % WIDTH == 0
    && |p.cells| - SCREEN <= p.pos < |p.cells|
  }

  /** What a 25-row screen shows of the sheet: its last rows. */
  ghost function Visible(cells: seq<Cell>): seq<Cell>
    requires |cells| >= SCREEN
  {
    cells[|cells| - SCREEN..]
  }

  /** A cursor that ran off the sheet gets a fresh row. */
  function Extend(p: Page, attrib: byte): Page {
    if p.pos == |p.cells| then p.(cells := p.cells + Blanks(WIDTH, attrib)) else p
  }

  function Feed(p: Page, c: byte, attrib: byte): (r: Page)
    requires p.pos < |p.cells|
  {
    if c == NEWLINE then Extend(p.(pos := (p.pos / WIDTH + 1) * WIDTH), attrib)
    else if c == BACKSPACE then if p.pos % WIDTH == 0 then p else p.(pos := p.pos - 1)
    else if c >= SPACE then Extend(Page(p.cells[p.pos := Glyph(c, attrib)], p.pos + 1), attrib)
    else p
  }

  /** The row after the one that holds a given screen position. */
  lemma NextRow(p: Page, row: nat, column: nat)
    requires ValidPage(p) && row < HEIGHT && column < WIDTH && p.pos == |p.cells| - SCREEN + WIDTH * row + column
    ensures (p.pos / WIDTH + 1) * WIDTH == |p.cells| - SCREEN + WIDTH * (row + 1)
    ensures p.pos % WIDTH == column
  {
    var k := |p.cells| / 80;
    assert |p.cells| == 80 * k;
    assert p.pos / 80 == k - 25 + row;
  }

  lemma FeedKeepsValid(p: Page, c: byte, attrib: byte)
    requires ValidPage(p)
    ensures ValidPage(Feed(p, c, attrib))
    ensures |Feed(p, c, attrib).cells| == |p.cells| || |Feed(p, c, attrib).cells| == |p.cells| + WIDTH
  {
  }

  function FeedAll(p: Page, text: seq<byte>, attrib: byte): (r: Page)
    requires ValidPage(p)
    ensures ValidPage(r) && |p.cells| <= |r.cells|
    decreases |text|
  {
    if text == [] then p
    else
      FeedKeepsValid(p, text[0], attrib);
      FeedAll(Feed(p, text[0], attrib), text[1..], attrib)
  }

  lemma FeedNothing(p: Page, attrib: byte)
    requires ValidPage(p)
    ensures FeedAll(p, [], attrib) == p
  {
  }

  lemma {:induction false} FeedAllAppend(p: Page, a: seq<byte>, b: seq<byte>, attrib: byte)
    requires ValidPage(p)
    ensures FeedAll(p, a + b, attrib) == FeedAll(FeedAll(p, a, attrib), b, attrib)
    decreases |a|
  {
    if a == [] {
      assert a + b == b;
    } else {
      assert (a + b)[1..] == a[1..] + b;
      FeedKeepsValid(p, a[0], attrib);
      FeedAllAppend(Feed(p, a[0], attrib), a[1..], b, attrib);
    }
  }

  lemma FeedAllSnoc(p: Page, a: seq<byte>, c: byte, attrib: byte)
    requires ValidPage(p)
    ensures FeedAll(p, a + [c], attrib) == Feed(FeedAll(p, a, attrib), c, attrib)
  {
    FeedAllAppend(p, a, [c], attrib);
    FeedKeepsValid(FeedAll(p, a, attrib), c, attrib);
    assert [c][1..] == [];
  }

  // ---------------------------------------------------------------- drawing a line of text

  ghost predicate Printable(text: seq<byte>) {
    forall i :: 0 <= i < |text| ==> text[i] >= SPACE
  }

  /** From start on, the sheet holds exactly the text and then nothing. */
  ghost predicate Holds(cells: seq<Cell>, start: nat, text: seq<byte>, attrib: byte) {
    start + |text| < |cells| &&
    forall i :: start <= i < |cells| ==>
      cells[i] == if i - start < |text| then Glyph(text[i - start], attrib) else Glyph(SPACE, attrib)
  }

  /** What drawing text at a cursor does: the cells ahead of it are overwritten, rows are added when needed. */
  ghost predicate Drawn(before: Page, after: Page, text: seq<byte>, attrib: byte) {
    && after.pos == before.pos + |text| < |after.cells| && |before.cells| <= |after.cells|
    && |after.cells| % WIDTH == 0 && (|after.cells| == |before.cells| || after.pos >= |after.cells| - WIDTH)
    && (forall i :: 0 <= i < |after.cells| ==>
          after.cells[i] == (if before.pos <= i < after.pos then Glyph(text[i - before.pos], attrib)
                             else if i < |before.cells| then before.cells[i]
                             else Glyph(SPACE, attrib)))
  }

  lemma {:induction false} FeedDraws(p: Page, text: seq<byte>, attrib: byte)
    requires ValidPage(p) && Printable(text)
    ensures Drawn(p, FeedAll(p, text, attrib), text, attrib)
    decreases |text|
  {
    if text != [] {
      var a, c := text[..|text| - 1], text[|text| - 1];
      FeedDraws(p, a, attrib);
      FeedAllSnoc(p, a, c, attrib);
      assert a + [c] == text;
      var q := FeedAll(p, a, attrib);
      var r := Feed(q, c, attrib);
      assert forall i :: 0 <= i < |r.cells| ==>
        r.cells[i] == (if i == q.pos then Glyph(c, attrib)
                       else if i < |q.cells| then q.cells[i]
                       else Glyph(SPACE, attrib));
    }
  }

  /** Redrawing a line over an older, no longer version of it leaves no trace of the old one. */
  lemma RedrawHolds(p: Page, start: nat, was: seq<byte>, text: seq<byte>, attrib: byte)
    requires ValidPage(p) && Holds(p.cells, start, was, attrib) && Printable(text)
    requires |p.cells| - SCREEN <= start && |text| >= |was|
    ensures start < |p.cells|
    ensures
      var r := FeedAll(Page(p.cells, start), text, attrib);
      Holds(r.cells, start, text, attrib) && r.cells[..start] == p.cells[..start] && r.pos == start + |text|
  {
    FeedDraws(Page(p.cells, start), text, attrib);
  }

  // ---------------------------------------------------------------- where lines of text end up

  /** Lines of text with newlines between them. */
  ghost function JoinLines(lines: seq<seq<byte>>): seq<byte>
    requires lines != []
  {
    if |lines| == 1 then lines[0] else lines[0] + [NEWLINE] + JoinLines(lines[1..])
  }

  /** How far behind the start of a line, in the given column, the next one starts: a line takes as many rows as it
      needs, and one more when it ends on a row's last cell. */
  function NextLine(column: nat, line: seq<byte>): int {
    80 * ((column + |line|) / 80 + 1) - column
  }

  /** What the lines put x cells behind the start of the first one. */
  ghost function TextAt(column: nat, lines: seq<seq<byte>>, x: int): Option<byte>
    requires lines != []
    decreases |lines|
  {
    if 0 <= x < |lines[0]| then Some(lines[0][x])
    else if |lines| == 1 || x < NextLine(column, lines[0]) then None
    else TextAt(0, lines[1..], x - NextLine(column, lines[0]))
  }

  /** How far behind the start of the first line the last one ends. */
  ghost function EndOf(column: nat, lines: seq<seq<byte>>): int
    requires lines != []
    decreases |lines|
  {
    if |lines| == 1 then |lines[0]| else NextLine(column, lines[0]) + EndOf(0, lines[1..])
  }

  /** The lines have been written from p's cursor on: they and nothing else have changed on the sheet, rows were added
      only to hold the cursor, and that is at the end of the last line. */
  ghost predicate LaidOut(p: Page, q: Page, lines: seq<seq<byte>>, attrib: byte)
    requires lines != []
  {
    && q.pos == p.pos + EndOf(p.pos % 80, lines) < |q.cells| && |p.cells| <= |q.cells| && |q.cells| % 80 == 0
    && (|q.cells| == |p.cells| || q.pos >= |q.cells| - 80)
    && (forall x :: 0 <= x < |q.cells| ==> q.cells[x] == LaidCell(p, lines, attrib, x))
  }

  ghost function LaidCell(p: Page, lines: seq<seq<byte>>, attrib: byte, x: nat): Cell
    requires lines != []
  {
    match TextAt(p.pos % 80, lines, x - p.pos)
    case Some(c) => Glyph(c, attrib)
    case None => if x < |p.cells| then p.cells[x] else Glyph(SPACE, attrib)
  }

  ghost predicate PrintableLines(lines: seq<seq<byte>>) {
    lines != [] && forall i :: 0 <= i < |lines| ==> Printable(lines[i])
  }

  lemma {:induction false} EndIsAhead(column: nat, lines: seq<seq<byte>>)
    requires lines != [] && column < 80
    ensures EndOf(column, lines) >= |lines[0]|
    decreases |lines|
  {
    if |lines| > 1 {
      EndIsAhead(0, lines[1..]);
    }
  }

  /** A newline goes to the start of the next row. */
  lemma NewlineGoesDown(p: Page, a: Page, line: seq<byte>, attrib: byte)
    requires ValidPage(p) && ValidPage(a) && a.pos == p.pos + |line|
    ensures
      var b := Feed(a, NEWLINE, attrib);
      && b.pos == p.pos + NextLine(p.pos % 80, line) && b.pos % 80 == 0 && b.pos > a.pos
      && b.cells == if b.pos < |a.cells| then a.cells else a.cells + Blanks(80, attrib)
  {
    var k, c := p.pos / 80, p.pos % 80;
    assert a.pos == 80 * k + (c + |line|);
    assert a.pos / 80 == k + (c + |line|) / 80;
    var m := |a.cells| / 80;
    assert |a.cells| == 80 * m;
    assert a.pos / 80 + 1 <= m;
  }

  /** The first line is drawn, the newline taken, the others laid out: together all are. */
  lemma LayFirst(p: Page, a: Page, b: Page, q: Page, lines: seq<seq<byte>>, attrib: byte)
    requires ValidPage(p) && |lines| > 1 && Drawn(p, a, lines[0], attrib)
    requires b.pos == p.pos + NextLine(p.pos % 80, lines[0]) && b.pos % 80 == 0 && b.pos > a.pos
    requires b.cells == if b.pos < |a.cells| then a.cells else a.cells + Blanks(80, attrib)
    requires b.pos < |b.cells| && LaidOut(b, q, lines[1..], attrib)
    ensures LaidOut(p, q, lines, attrib)
  {
    EndIsAhead(0, lines[1..]);
    forall x | 0 <= x < |q.cells|
      ensures q.cells[x] == LaidCell(p, lines, attrib, x)
    {
      assert q.cells[x] == LaidCell(b, lines[1..], attrib, x);
      LayCell(p, a, b, lines, attrib, x);
    }
  }

  lemma NothingAhead(column: nat, lines: seq<seq<byte>>, x: int)
    requires lines != [] && x < 0 && column < 80
    ensures TextAt(column, lines, x) == None
  {
  }

  lemma LayCell(p: Page, a: Page, b: Page, lines: seq<seq<byte>>, attrib: byte, x: nat)
    requires ValidPage(p) && |lines| > 1 && Drawn(p, a, lines[0], attrib)
    requires b.pos == p.pos + NextLine(p.pos % 80, lines[0]) && b.pos % 80 == 0 && b.pos > a.pos
    requires b.cells == if b.pos < |a.cells| then a.cells else a.cells + Blanks(80, attrib)
    ensures LaidCell(b, lines[1..], attrib, x) == LaidCell(p, lines, attrib, x)
  {
    if x < b.pos {
      NothingAhead(0, lines[1..], x - b.pos);
    }
  }

  /** Text of any number of lines, of any length, written at any cursor: where every character ends up. */
  lemma {:induction false} Layout(p: Page, lines: seq<seq<byte>>, attrib: byte)
    requires ValidPage(p) && PrintableLines(lines)
    ensures LaidOut(p, FeedAll(p, JoinLines(lines), attrib), lines, attrib)
    decreases |lines|
  {
    hide Feed, FeedAll, NextLine;
    FeedDraws(p, lines[0], attrib);
    if |lines| > 1 {
      hide LaidOut, Drawn;
      var rest := JoinLines(lines[1..]);
      var a := FeedAll(p, lines[0], attrib);
      var b := Feed(a, NEWLINE, attrib);
      FeedAllAppend(p, lines[0] + [NEWLINE], rest, attrib);
      FeedAllSnoc(p, lines[0], NEWLINE, attrib);
      FeedKeepsValid(a, NEWLINE, attrib);
      DrawnCursor(p, a, lines[0], attrib);
      NewlineGoesDown(p, a, lines[0], attrib);
      Layout(b, lines[1..], attrib);
      LayFirst(p, a, b, FeedAll(b, rest, attrib), lines, attrib);
    } else {
      LayLast(p, FeedAll(p, lines[0], attrib), lines, attrib);
    }
  }

  lemma DrawnCursor(p: Page, a: Page, line: seq<byte>, attrib: byte)
    requires Drawn(p, a, line, attrib)
    ensures a.pos == p.pos + |line|
  {
  }

  lemma LayLast(p: Page, a: Page, lines: seq<seq<byte>>, attrib: byte)
    requires |lines| == 1 && Drawn(p, a, lines[0], attrib)
    ensures LaidOut(p, a, lines, attrib)
  {
  }

  ghost predicate ShortLines(lines: seq<seq<byte>>) {
    lines != [] && forall i :: 0 <= i < |lines| ==> |lines[i]| < 80
  }

  /** Lines shorter than a row, from column 0 on, take one row each. */
  lemma {:induction false} RowText(lines: seq<seq<byte>>, i: nat, j: nat)
    requires ShortLines(lines) && i < |lines| && j < 80
    ensures TextAt(0, lines, 80 * i + j) == if j < |lines[i]| then Some(lines[i][j]) else None
    ensures EndOf(0, lines) == 80 * (|lines| - 1) + |lines[|lines| - 1]|
    decreases |lines|
  {
    assert NextLine(0, lines[0]) == 80;
    if |lines| > 1 {
      RowText(lines[1..], if i > 0 then i - 1 else 0, j);
    }
  }

  /** Short lines written from the start of a row: row i below holds line i and, behind it, what it held or blanks; the
      cursor is behind the last line. */
  lemma ShortLayout(p: Page, lines: seq<seq<byte>>, attrib: byte, i: nat, j: nat)
    requires ValidPage(p) && p.pos % 80 == 0 && PrintableLines(lines) && ShortLines(lines) && i < |lines| && j < 80
    ensures
      var q, x := FeedAll(p, JoinLines(lines), attrib), p.pos + 80 * i + j;
      && x < |q.cells|
      && q.cells[x] == (if j < |lines[i]| then Glyph(lines[i][j], attrib)
                        else if x < |p.cells| then p.cells[x] else Glyph(SPACE, attrib))
      && q.pos == p.pos + 80 * (|lines| - 1) + |lines[|lines| - 1]|
  {
    hide FeedAll;
    Layout(p, lines, attrib);
    RowText(lines, i, j);
    var q := FeedAll(p, JoinLines(lines), attrib);
    assert q.pos < |q.cells| && |q.cells| % 80 == 0;
    RowEnd(|q.cells|, p.pos, |lines| - 1, |lines[|lines| - 1]|);
  }

  /** A sheet that reaches into a row holds all of it. */
  lemma RowEnd(size: nat, start: nat, rows: nat, column: nat)
    requires size % 80 == 0 && start % 80 == 0 && column < 80 && start + 80 * rows + column < size
    ensures start + 80 * rows + 80 <= size
  {
    var m, k := size / 80, start / 80;
    assert size == 80 * m && start == 80 * k;
    assert k + rows < m;
  }

  /** Byte 8 moves the cursor left by one, down to column 0, and changes nothing else. */
  lemma {:induction false} CursorLeft(p: Page, n: nat, attrib: byte)
    requires ValidPage(p)
    ensures FeedAll(p, Repeat(8, n), attrib) == p.(pos := p.pos - Min(n, p.pos % 80))
    decreases n
  {
    if n > 0 {
      var q := Feed(p, 8, attrib);
      assert Repeat(8, n)[1..] == Repeat(8, n - 1);
      FeedKeepsValid(p, 8, attrib);
      assert q == p.(pos := p.pos - Min(1, p.pos % 80));
      LeftOne(p.pos);
      CursorLeft(q, n - 1, attrib);
    } else {
      assert Repeat(8, n) == [];
    }
  }

  lemma LeftOne(pos: nat)
    ensures pos % 80 > 0 ==> (pos - 1) % 80 == pos % 80 - 1
  {
  }

  /** The other control characters do nothing. */
  lemma ControlIgnored(p: Page, c: byte, attrib: byte)
    requires ValidPage(p) && c < 32 && c != 8 && c != 10
    ensures FeedAll(p, [c], attrib) == p
  {
    assert [c][1..] == [];
  }

  // ---------------------------------------------------------------- the row a redraw starts from

  /** Rows added by drawing n cells from the given screen row and column. */
  function RowsAdded(row: nat, column: nat, n: nat): nat {
    if row + (column + n) / WIDTH >= HEIGHT then row + (column + n) / WIDTH - (HEIGHT - 1) else 0
  }

  /** The row the terminal keeps for the start of the line: 23 after any scroll. */
  function KeptRow(row: nat, column: nat, n: nat): nat {
    if RowsAdded(row, column, n) > 0 then HEIGHT - 2 else row
  }

  /** After drawing a line of at most 128 characters, the kept row is where the line really starts exactly when the
      line reached no further than the row below its start, or started high enough not to scroll. */
  lemma KeptRowExactIff(row: nat, column: nat, n: nat)
    requires row < HEIGHT && column < WIDTH && n <= 128
    ensures KeptRow(row, column, n) == row - RowsAdded(row, column, n) <==> column + n < 2 * WIDTH || row <= HEIGHT - 3
  {
  }

  /** How far down the sheet drawing n cells moves the place the kept row stands for. */
  function Drift(row: nat, column: nat, n: nat): int {
    WIDTH * (RowsAdded(row, column, n) + KeptRow(row, column, n) - row)
  }

  /** The kept place only ever moves down, moves exactly for a line past its second row that starts below row 22, and
      the kept row never crosses that boundary. */
  lemma DriftExactIff(row: nat, column: nat, n: nat)
    requires row < HEIGHT && column < WIDTH && n <= 128
    ensures Drift(row, column, n) >= 0
    ensures Drift(row, column, n) == 0 <==> column + n < 2 * WIDTH || row <= HEIGHT - 3
    ensures KeptRow(row, column, n) <= HEIGHT - 3 <==> row <= HEIGHT - 3
  {
    KeptRowExactIff(row, column, n);
  }

  lemma RowsAddedIsGrowth(p: Page, row: nat, column: nat, text: seq<byte>, attrib: byte)
    requires ValidPage(p) && row < HEIGHT && column < WIDTH && Printable(text)
    requires p.pos == |p.cells| - SCREEN + WIDTH * row + column
    ensures |FeedAll(p, text, attrib).cells| == |p.cells| + WIDTH * RowsAdded(row, column, |text|)
  {
    FeedDraws(p, text, attrib);
    var q := FeedAll(p, text, attrib);
    var base := |p.cells| - SCREEN;
    var down := row + (column + |text|) / WIDTH;
    assert q.pos - base == WIDTH * row + column + |text|;
    assert WIDTH * down <= q.pos - base < WIDTH * (down + 1);
    var k := (|q.cells| - |p.cells|) / WIDTH;
    assert |q.cells| == |p.cells| + WIDTH * k;
    if k > 0 {
      assert q.pos - base >= WIDTH * (HEIGHT + k - 1);
    }
    assert q.pos - base < WIDTH * (HEIGHT + k);
  }

  // ---------------------------------------------------------------- line editing

  const BUFFER: nat := 128

  datatype Key = Char(c: byte) | Erase

  /** The line after one more key: a full line takes no more characters. */
  function Edit(line: seq<byte>, k: Key): seq<byte> {
    match k
    case Char(c) => if |line| < BUFFER then line + [c] else line
    case Erase => if line == [] then line else line[..|line| - 1]
  }

  function Edited(line: seq<byte>, keys: seq<Key>): seq<byte>
    decreases |keys|
  {
    if keys == [] then line else Edited(Edit(line, keys[0]), keys[1..])
  }

  /** A text as keys. */
  function Keys(text: seq<byte>): (keys: seq<Key>)
    ensures |keys| == |text|
  {
    seq(|text|, i requires 0 <= i < |text| => Char(text[i]))
  }

  /** Typing adds characters at the end, as long as the line has fewer than 128; the others are lost. */
  lemma {:induction false} TypedText(line: seq<byte>, text: seq<byte>)
    requires |line| <= 128
    ensures Edited(line, Keys(text)) == line + text[..Min(|text|, 128 - |line|)]
    decreases |text|
  {
    if text != [] {
      assert Keys(text)[1..] == Keys(text[1..]);
      var more := Edit(line, Char(text[0]));
      TypedText(more, text[1..]);
      if |line| < 128 {
        assert text[..Min(|text|, 128 - |line|)] == [text[0]] + text[1..][..Min(|text| - 1, 127 - |line|)];
      }
    } else {
      assert Keys(text) == [];
    }
  }

  /** An erase undoes a character that found room. */
  lemma EraseUndoes(line: seq<byte>, c: byte)
    requires |line| < 128
    ensures Edited(line, [Char(c), Erase]) == line
  {
    var keys := [Char(c), Erase];
    assert keys[1..] == [Erase] && keys[1..][1..] == [];
    assert Edited(line + [c], [Erase]) == line;
  }

  lemma {:induction false} EditedSnoc(line: seq<byte>, keys: seq<Key>, k: Key)
    ensures Edited(line, keys + [k]) == Edit(Edited(line, keys), k)
    decreases |keys|
  {
    if keys == [] {
      assert keys + [k] == [k] && [k][1..] == [];
    } else {
      assert (keys + [k])[1..] == keys[1..] + [k];
      EditedSnoc(Edit(line, keys[0]), keys[1..], k);
    }
  }

  /** How many characters an empty line holds after the first n keys. */
  function Held(keys: seq<Key>, n: nat): nat
    requires n <= |keys|
  {
    if n == 0 then 0
    else
      var h := Held(keys, n - 1);
      match keys[n - 1]
      case Char(_) => if h < 128 then h + 1 else h
      case Erase => if h > 0 then h - 1 else 0
  }

  /** Key i is a character that found room and that no erase up to the n-th key has reached: more than was there before
      it is held ever since. */
  ghost predicate Survives(keys: seq<Key>, n: nat, i: nat)
    requires n <= |keys|
  {
    && i < n && keys[i].Char? && Held(keys, i) < 128
    && forall j :: i < j <= n ==> Held(keys, j) > Held(keys, i)
  }

  /** A survivor stands at place p of the line. */
  ghost predicate Taken(keys: seq<Key>, n: nat, p: nat)
    requires n <= |keys|
  {
    exists i: nat :: Survives(keys, n, i) && Held(keys, i) == p
  }

  /** The line consists of the surviving characters, in the order they were typed. */
  ghost predicate Surviving(keys: seq<Key>, n: nat, line: seq<byte>)
    requires n <= |keys|
  {
    && |line| == Held(keys, n)
    && (forall i: nat :: Survives(keys, n, i) ==> Held(keys, i) < |line| && line[Held(keys, i)] == keys[i].c)
    && (forall p :: 0 <= p < |line| ==> Taken(keys, n, p))
  }

  /** Later survivors stand further right. */
  lemma SurvivorsInOrder(keys: seq<Key>, n: nat, i: nat, j: nat)
    requires n <= |keys| && Survives(keys, n, i) && Survives(keys, n, j) && i < j
    ensures Held(keys, i) < Held(keys, j)
  {
  }

  /** There is only one such line. */
  lemma SurvivingUnique(keys: seq<Key>, n: nat, line: seq<byte>, other: seq<byte>)
    requires n <= |keys| && Surviving(keys, n, line) && Surviving(keys, n, other)
    ensures line == other
  {
    forall p | 0 <= p < |line|
      ensures line[p] == other[p]
    {
      assert Taken(keys, n, p);
      var i: nat :| Survives(keys, n, i) && Held(keys, i) == p;
    }
  }

  lemma SurvivesNext(keys: seq<Key>, n: nat, i: nat)
    requires n < |keys|
    ensures i < n ==> (Survives(keys, n + 1, i) <==> Survives(keys, n, i) && Held(keys, n + 1) > Held(keys, i))
    ensures Survives(keys, n + 1, n) <==> keys[n].Char? && Held(keys, n) < 128
  {
  }

  lemma SurvivingNext(keys: seq<Key>, n: nat, line: seq<byte>)
    requires n < |keys| && Surviving(keys, n, line)
    ensures Surviving(keys, n + 1, Edit(line, keys[n]))
  {
    var now, m := Edit(line, keys[n]), n + 1;
    assert |now| == Held(keys, m);
    hide Survives;
    forall i: nat | Survives(keys, n + 1, i)
      ensures Held(keys, i) < |now| && now[Held(keys, i)] == keys[i].c
    {
      SurvivorBound(keys, n + 1, i);
      SurvivesNext(keys, n, i);
    }
    forall p | 0 <= p < |now|
      ensures Taken(keys, m, p)
    {
      if p < |line| {
        assert Taken(keys, n, p);
        var i: nat :| Survives(keys, n, i) && Held(keys, i) == p;
        SurvivorBound(keys, n, i);
        SurvivesNext(keys, n, i);
        assert Survives(keys, n + 1, i);
      } else {
        SurvivesNext(keys, n, n);
        assert Survives(keys, n + 1, n) && Held(keys, n) == p;
      }
    }
  }

  lemma SurvivorBound(keys: seq<Key>, n: nat, i: nat)
    requires n <= |keys| && Survives(keys, n, i)
    ensures i < n && Held(keys, i) < Held(keys, n)
  {
  }

  /** For every sequence of keys, the edited line is the characters no later erase has matched, in typing order. */
  lemma {:induction false} EditedSurvives(keys: seq<Key>, n: nat)
    requires n <= |keys|
    ensures Surviving(keys, n, Edited([], keys[..n]))
    decreases n
  {
    if n > 0 {
      EditedSurvives(keys, n - 1);
      EditedSnoc([], keys[..n - 1], keys[n - 1]);
      assert keys[..n] == keys[..n - 1] + [keys[n - 1]];
      SurvivingNext(keys, n - 1, Edited([], keys[..n - 1]));
    }
  }

  ghost predicate PrintableKeys(keys: seq<Key>) {
    forall i :: 0 <= i < |keys| && keys[i].Char? ==> keys[i].c >= SPACE
  }

  /** Every version of the line stays within the row below its start. */
  ghost predicate Fits(column: nat, line: seq<byte>, keys: seq<Key>)
    decreases |keys|
  {
    column + |line| < 2 * WIDTH && (keys == [] || Fits(column, Edit(line, keys[0]), keys[1..]))
  }

  /** A line that fits all along fits at the end. */
  lemma {:induction false} FitsToTheEnd(column: nat, line: seq<byte>, keys: seq<Key>)
    requires Fits(column, line, keys)
    ensures column + |Edited(line, keys)| < 2 * WIDTH
    decreases |keys|
  {
    if keys != [] {
      FitsToTheEnd(column, Edit(line, keys[0]), keys[1..]);
    }
  }

  /** n times the same character. */
  function Repeat(c: byte, n: nat): (s: seq<byte>)
    ensures |s| == n && forall i :: 0 <= i < n ==> s[i] == c
  {
    seq(n, _ => c)
  }

  function RepeatKey(c: byte, n: nat): (s: seq<Key>)
    ensures |s| == n && forall i :: 0 <= i < n ==> s[i] == Char(c)
  {
    seq(n, _ => Char(c))
  }

  lemma {:induction false} TypedRepeat(c: byte, m: nat, n: nat)
    requires m + n <= BUFFER
    ensures Edited(Repeat(c, m), RepeatKey(c, n)) == Repeat(c, m + n)
    decreases n
  {
    if n > 0 {
      assert RepeatKey(c, n)[1..] == RepeatKey(c, n - 1);
      assert Edit(Repeat(c, m), Char(c)) == Repeat(c, m + 1);
      TypedRepeat(c, m + 1, n - 1);
    } else {
      assert RepeatKey(c, n) == [];
    }
  }

  /** 120 characters typed from column 40 do not stay within two rows. */
  lemma LongLine(c: byte)
    ensures Edited([], RepeatKey(c, 120)) == Repeat(c, 120) && !Fits(40, [], RepeatKey(c, 120))
  {
    assert Repeat(c, 0) == [];
    TypedRepeat(c, 0, 120);
    if Fits(40, [], RepeatKey(c, 120)) {
      FitsToTheEnd(40, [], RepeatKey(c, 120));
    }
  }

  /** Newlines on a blank sheet only move the cursor, until its last row. */
  lemma {:induction false} NewlinesOnBlank(row: nat, n: nat, attrib: byte)
    requires row + n < HEIGHT
    ensures FeedAll(Page(Blanks(SCREEN, attrib), WIDTH * row), Repeat(NEWLINE, n), attrib)
         == Page(Blanks(SCREEN, attrib), WIDTH * (row + n))
    decreases n
  {
    hide Blanks;
    var p := Page(Blanks(SCREEN, attrib), WIDTH * row);
    if n > 0 {
      assert Repeat(NEWLINE, n)[1..] == Repeat(NEWLINE, n - 1);
      assert p.pos / WIDTH == row;
      NewlinesOnBlank(row + 1, n - 1, attrib);
    } else {
      assert Repeat(NEWLINE, n) == [];
    }
  }

  /** A blank sheet after n newlines and m characters. */
  lemma PromptOnBlank(n: nat, c: byte, m: nat, attrib: byte)
    requires n < HEIGHT && m < WIDTH && c >= SPACE
    ensures
      var p := FeedAll(Page(Blanks(SCREEN, attrib), 0), Repeat(NEWLINE, n) + Repeat(c, m), attrib);
      |p.cells| == SCREEN && p.pos == WIDTH * n + m && Holds(p.cells, p.pos, [], attrib)
  {
    var q := Page(Blanks(SCREEN, attrib), WIDTH * n);
    NewlinesOnBlank(0, n, attrib);
    FeedAllAppend(Page(Blanks(SCREEN, attrib), 0), Repeat(NEWLINE, n), Repeat(c, m), attrib);
    FeedDraws(q, Repeat(c, m), attrib);
    RowsAddedIsGrowth(q, n, 0, Repeat(c, m), attrib);
  }

  // ---------------------------------------------------------------- three sheets

  datatype Op = Write(text: seq<byte>) | SwitchTo(t: nat)

  ghost predicate ValidPages(pages: seq<Page>) {
    |pages| == TERMINALS && forall t :: 0 <= t < TERMINALS ==> ValidPage(pages[t])
  }

  ghost predicate ValidOps(ops: seq<Op>) {
    forall i :: 0 <= i < |ops| && ops[i].SwitchTo? ==> ops[i].t < TERMINALS
  }

  /** Writes go to the sheet in front, switches only change which one that is. */
  ghost function RunOps(pages: seq<Page>, cur: nat, ops: seq<Op>, attrib: byte): (r: (seq<Page>, nat))
    requires ValidPages(pages) && cur < TERMINALS && ValidOps(ops)
    ensures ValidPages(r.0) && r.1 < TERMINALS
    decreases |ops|
  {
    if ops == [] then (pages, cur)
    else match ops[0]
      case Write(text) => RunOps(pages[cur := FeedAll(pages[cur], text, attrib)], cur, ops[1..], attrib)
      case SwitchTo(t) => RunOps(pages, t, ops[1..], attrib)
  }

  /** Everything written while terminal t was in front. */
  ghost function OutputFor(cur: nat, ops: seq<Op>, t: nat): seq<byte>
    decreases |ops|
  {
    if ops == [] then []
    else match ops[0]
      case Write(text) => (if cur == t then text else []) + OutputFor(cur, ops[1..], t)
      case SwitchTo(u) => OutputFor(u, ops[1..], t)
  }

  /** For every interleaving, each sheet shows its own output and nothing else. */
  lemma {:induction false} SheetsIndependent(pages: seq<Page>, cur: nat, ops: seq<Op>, attrib: byte, t: nat)
    requires ValidPages(pages) && cur < TERMINALS && ValidOps(ops) && t < TERMINALS
    ensures RunOps(pages, cur, ops, attrib).0[t] == FeedAll(pages[t], OutputFor(cur, ops, t), attrib)
    decreases |ops|
  {
    if ops != [] {
      match ops[0]
      case Write(text) =>
        SheetsIndependent(pages[cur := FeedAll(pages[cur], text, attrib)], cur, ops[1..], attrib, t);
        if cur == t {
          FeedAllAppend(pages[t], text, OutputFor(cur, ops[1..], t), attrib);
        } else {
          assert OutputFor(cur, ops, t) == OutputFor(cur, ops[1..], t);
        }
      case SwitchTo(u) =>
        SheetsIndependent(pages, u, ops[1..], attrib, t);
    }
  }
}
