/** The text console: one video memory, three save areas, and a cursor and line buffer per terminal. */
module Console {
  import opened Common
  import opened Paper

  /** Words per 4 KB block; the screen uses the first 2000. */
  const AREA: nat := 2048

  const EMPTY_LINE: seq<byte> := seq(BUFFER, _ => 0)

  // ---------------------------------------------------------------- screens and sheets, as values

  /** A cursor on the screen, at the place its sheet's cursor has among the last 25 rows. */
  ghost predicate CursorAt(x: int, y: int, p: Page) {
    0 <= x < WIDTH && 0 <= y < HEIGHT && p.pos == |p.cells| - SCREEN + WIDTH * y + x
  }

  /** A block of words shows the last 25 rows of a sheet. */
  ghost predicate Shows(words: seq<Cell>, cells: seq<Cell>) {
    |words| == AREA && |cells| >= SCREEN && words[..SCREEN] == Visible(cells)
  }

  /** A sheet whose cursor may have just run off its last row, and the screen that still shows it. */
  ghost predicate Pending(words: seq<Cell>, x: int, y: int, p: Page) {
    && |p.cells| >= SCREEN && |p.cells| % WIDTH == 0 && 0 <= x < WIDTH && 0 <= y <= HEIGHT && (y == HEIGHT ==> x == 0)
    && p.pos == |p.cells| - SCREEN + WIDTH * y + x
    && Shows(words, p.cells)
  }

  /** Where the cursor goes for a byte: down a row and to its start for a newline, left for a backspace, right for a
      printable character and on to the next row behind the last cell; never below the screen. */
  function CursorAfter(c: byte, x: int, y: int): (int, int) {
    if c == 10 || (c >= 32 && x == 79) then (0, Min(y + 1, 24))
    else if c == 8 then (if x == 0 then 0 else x - 1, y)
    else if c >= 32 then (x + 1, y)
    else (x, y)
  }

  lemma SettledShows(words: seq<Cell>, words': seq<Cell>, x: int, y: int, p: Page, attrib: byte)
    requires Pending(words, x, y, p) && |words'| == AREA
    requires words'[..SCREEN] == if y == HEIGHT then words[WIDTH..SCREEN] + Blanks(WIDTH, attrib) else words[..SCREEN]
    ensures Shows(words', Extend(p, attrib).cells) && ValidPage(Extend(p, attrib))
    ensures CursorAt(x, if y == HEIGHT then HEIGHT - 1 else y, Extend(p, attrib))
    ensures y == HEIGHT <==> p.pos == |p.cells|
  {
    if y == HEIGHT {
      assert words[WIDTH..SCREEN] == words[..SCREEN][WIDTH..];
    }
  }

  lemma GlyphShows(words: seq<Cell>, x: int, y: int, p: Page, g: Cell)
    requires ValidPage(p) && CursorAt(x, y, p) && Shows(words, p.cells)
    ensures 0 <= y * WIDTH + x < SCREEN && 0 <= x < WIDTH && 0 <= y < HEIGHT
    ensures Pending(words[y * WIDTH + x := g], if x + 1 == WIDTH then 0 else x + 1, if x + 1 == WIDTH then y + 1 else y,
                    Page(p.cells[p.pos := g], p.pos + 1))
  {
    var at := y * WIDTH + x;
    var cells := p.cells[p.pos := g];
    assert words[at := g][..SCREEN] == words[..SCREEN][at := g];
    assert Visible(cells) == Visible(p.cells)[at := g];
  }

  lemma ClearedShows(attrib: byte)
    ensures Shows(Blanks(AREA, attrib), Blanks(SCREEN, attrib))
    ensures ValidPage(Page(Blanks(SCREEN, attrib), 0)) && CursorAt(0, 0, Page(Blanks(SCREEN, attrib), 0))
  {
  }

  class Console {
    const video: array<Cell>
    /** The three save areas in low memory. */
    var saved: seq<seq<Cell>>
    var cur: nat
    var attrib: byte
    var csrX: seq<int>
    var csrY: seq<int>
    var lineY: seq<int>
    var lineBeginning: seq<int>
    var buffers: seq<seq<byte>>
    var bufferLen: seq<nat>
    var enterFlag: bool
    /** The sheets the three terminals stand for. */
    ghost var pages: seq<Page>

    ghost predicate Sized()
      reads this
    {
      && video.Length == AREA && cur < TERMINALS
      && |saved| == |csrX| == |csrY| == |lineY| == |lineBeginning| == |buffers| == |bufferLen| == TERMINALS
      && (forall t :: 0 <= t < TERMINALS ==> |saved[t]| == AREA)
      && (forall t :: 0 <= t < TERMINALS ==> |buffers[t]| == BUFFER && bufferLen[t] <= BUFFER)
      && (forall t :: 0 <= t < TERMINALS ==> 0 <= lineY[t] < HEIGHT && 0 <= lineBeginning[t] < WIDTH)
    }

    /** The terminals behind the one in front are kept in their save areas. */
    ghost predicate Background(ps: seq<Page>)
      reads this`cur, this`saved, this`csrX, this`csrY
    {
      && |ps| == |saved| == |csrX| == |csrY| == TERMINALS
      && forall t :: 0 <= t < TERMINALS && t != cur ==>
           CursorAt(csrX[t], csrY[t], ps[t]) && Shows(saved[t], ps[t].cells)
    }

    /** The one screen and the save areas show the last 25 rows of three independent sheets. */
    ghost predicate Valid()
      reads this, video
    {
      && Sized() && ValidPages(pages) && Background(pages)
      && CursorAt(csrX[cur], csrY[cur], pages[cur]) && Shows(video[..], pages[cur].cells)
    }

    /** terminal_open */
    constructor ()
      ensures Valid() && fresh(video) && cur == 0 && attrib == 0x0F && !enterFlag
      ensures forall t :: 0 <= t < TERMINALS ==> pages[t] == Page(Blanks(SCREEN, 0x0F), 0) && bufferLen[t] == 0
    {
      hide Blanks, Glyph, Shows, CursorAt, ValidPage;
      var blank := Blanks(AREA, 0x0F);
      video := new Cell[AREA];
      saved := [blank, blank, blank];
      cur, attrib, enterFlag := 0, 0x0F, false;
      csrX, csrY, lineY, lineBeginning := [0, 0, 0], [0, 0, 0], [0, 0, 0], [0, 0, 0];
      var empty: seq<byte> := seq(BUFFER, _ => 0);
      buffers, bufferLen := [empty, empty, empty], [0, 0, 0];
      ghost var sheet := Page(Blanks(SCREEN, 0x0F), 0);
      pages := [sheet, sheet, sheet];
      new;
      LoadScreen(blank);
      ClearedShows(0x0F);
    }

    // -------------------------------------------------------------- scrolling

    /** Copies the row below over the one that starts at the given word. */
    method CopyRowUp(at: nat)
      requires at + 2 * WIDTH <= video.Length
      modifies video
      ensures forall k :: 0 <= k < video.Length ==>
        video[k] == if at <= k < at + WIDTH then old(video[k + WIDTH]) else old(video[k])
    {
      for j := 0 to WIDTH
        invariant forall k :: 0 <= k < video.Length ==>
          video[k] == if at <= k < at + j then old(video[k + WIDTH]) else old(video[k])
      {
        video[at + j] := video[at + WIDTH + j];
      }
    }

    method BlankRow(at: nat)
      requires at + WIDTH <= video.Length
      modifies video
      ensures forall k :: 0 <= k < video.Length ==>
        video[k] == if at <= k < at + WIDTH then Glyph(SPACE, attrib) else old(video[k])
    {
      for j := 0 to WIDTH
        invariant forall k :: 0 <= k < video.Length ==>
          video[k] == if at <= k < at + j then Glyph(SPACE, attrib) else old(video[k])
      {
        video[at + j] := Glyph(SPACE, attrib);
      }
    }

    /** Copies every row to the one above it and blanks the last. */
    method ShiftUp()
      requires video.Length == AREA
      modifies video
      ensures video[..SCREEN] == old(video[WIDTH..SCREEN]) + Blanks(WIDTH, attrib)
    {
      for i := 0 to HEIGHT - 1
        invariant forall k :: 0 <= k < i * WIDTH ==> video[k] == old(video[k + WIDTH])
        invariant forall k :: i * WIDTH <= k < video.Length ==> video[k] == old(video[k])
      {
        CopyRowUp(i * WIDTH);
      }
      BlankRow((HEIGHT - 1) * WIDTH);
    }

    /** Moves the screen up a row once the cursor has left it, and re-anchors the line being typed. */
    method Scroll()
      requires Sized() && 0 <= csrY[cur] <= HEIGHT
      modifies this`csrX, this`csrY, this`lineY, video
      ensures old(csrY[cur]) < HEIGHT ==>
        video[..] == old(video[..]) && csrX == old(csrX) && csrY == old(csrY) && lineY == old(lineY)
      ensures old(csrY[cur]) == HEIGHT ==>
        && video[..SCREEN] == old(video[WIDTH..SCREEN]) + Blanks(WIDTH, attrib)
        && csrX == old(csrX)[cur := 0] && csrY == old(csrY)[cur := HEIGHT - 1] && lineY == old(lineY)[cur := HEIGHT - 2]
    {
      if csrY[cur] >= HEIGHT {
        ShiftUp();
        csrY := csrY[cur := HEIGHT - 1];
        lineY := lineY[cur := csrY[cur] - 1];
        csrX := csrX[cur := 0];
      }
    }

    // -------------------------------------------------------------- printing

    /** Scrolling when needed completes a pending sheet. */
    method Settle(ghost p: Page)
      requires Sized() && ValidPages(pages) && Background(pages) && Pending(video[..], csrX[cur], csrY[cur], p)
      modifies this`csrX, this`csrY, this`lineY, this`pages, video
      ensures Valid() && pages == old(pages)[cur := Extend(p, attrib)]
      ensures lineY == if p.pos == |p.cells| then old(lineY)[cur := HEIGHT - 2] else old(lineY)
      ensures csrX[cur] == old(csrX[cur]) && csrY[cur] == Min(old(csrY[cur]), HEIGHT - 1)
    {
      hide CursorAt, Shows, Extend;
      ghost var words, x, y := video[..], csrX[cur], csrY[cur];
      Scroll();
      assert video[..][..SCREEN] == video[..SCREEN] && words[..SCREEN] == old(video[..SCREEN])
        && words[WIDTH..SCREEN] == old(video[WIDTH..SCREEN]);
      SettledShows(words, video[..], x, y, p, attrib);
      pages := pages[cur := Extend(p, attrib)];
    }

    method ClearBuffer()
      requires Sized()
      modifies this`buffers, this`bufferLen
      ensures Sized() && bufferLen == old(bufferLen)[cur := 0] && buffers == old(buffers)[cur := EMPTY_LINE]
    {
      for i := 0 to BUFFER
        invariant Sized() && bufferLen == old(bufferLen) && buffers == old(buffers)[cur := buffers[cur]]
        invariant forall k :: 0 <= k < i ==> buffers[cur][k] == 0
      {
        var row: seq<byte> := buffers[cur][i := 0];
        buffers := buffers[cur := row];
      }
      assert buffers[cur] == EMPTY_LINE;
      bufferLen := bufferLen[cur := 0];
    }

    /** Moves the cursor to the start of the next row and anchors the line there. */
    method LineFeed()
      requires Valid()
      modifies this`csrX, this`csrY, this`lineY, this`pages, video
      ensures Valid() && pages == old(pages)[cur := Feed(old(pages)[cur], NEWLINE, attrib)]
      ensures lineY == old(lineY)[cur := csrY[cur]]
      ensures csrX[cur] == 0 && csrY[cur] == Min(old(csrY[cur]) + 1, HEIGHT - 1)
    {
      hide Shows, Extend;
      ghost var p := pages[cur];
      NextRow(p, csrY[cur], csrX[cur]);
      csrY := csrY[cur := csrY[cur] + 1];
      csrX := csrX[cur := 0];
      Settle(p.(pos := (p.pos / WIDTH + 1) * WIDTH));
      lineY := lineY[cur := csrY[cur]];
    }

    method NewLine()
      requires Valid()
      modifies this, video
      ensures Valid() && pages == old(pages)[cur := Feed(old(pages)[cur], NEWLINE, attrib)]
      ensures cur == old(cur) && attrib == old(attrib) && lineBeginning == old(lineBeginning)
      ensures enterFlag == old(enterFlag)
      ensures lineY == old(lineY)[cur := csrY[cur]]
      ensures csrX[cur] == 0 && csrY[cur] == Min(old(csrY[cur]) + 1, HEIGHT - 1)
      ensures bufferLen == old(bufferLen)[cur := 0] && buffers == old(buffers)[cur := EMPTY_LINE]
    {
      hide Shows, Feed, CursorAt, Background;
      LineFeed();
      ClearBuffer();
    }

    /** A printable character goes where the cursor is; the bounds checks on that place never refuse it. */
    method PutGlyph(c: byte)
      requires Valid() && c >= SPACE
      modifies this`csrX, this`csrY, this`lineY, this`pages, video
      ensures Valid() && pages == old(pages)[cur := Feed(old(pages)[cur], c, attrib)]
      ensures lineY == if |pages[cur].cells| > |old(pages)[cur].cells| then old(lineY)[cur := HEIGHT - 2]
                       else old(lineY)
      ensures if old(csrX[cur]) == WIDTH - 1 then csrX[cur] == 0 && csrY[cur] == Min(old(csrY[cur]) + 1, HEIGHT - 1)
              else csrX[cur] == old(csrX[cur]) + 1 && csrY[cur] == old(csrY[cur])
    {
      hide Shows, CursorAt, Pending;
      ghost var p, words := pages[cur], video[..];
      GlyphShows(words, csrX[cur], csrY[cur], p, Glyph(c, attrib));
      var where := csrY[cur] * WIDTH + csrX[cur];
      assert 0 <= where < AREA;
      video[where] := Glyph(c, attrib);
      assert video[..] == words[where := Glyph(c, attrib)];
      csrX := csrX[cur := csrX[cur] + 1];
      if csrX[cur] >= WIDTH {
        csrX := csrX[cur := 0];
        csrY := csrY[cur := csrY[cur] + 1];
      }
      Settle(Page(p.cells[p.pos := Glyph(c, attrib)], p.pos + 1));
    }

    method BackUp()
      requires Valid()
      modifies this`csrX, this`pages
      ensures Valid() && pages == old(pages)[cur := Feed(old(pages)[cur], BACKSPACE, attrib)]
      ensures csrX[cur] == if old(csrX[cur]) == 0 then 0 else old(csrX[cur]) - 1
    {
      hide Shows;
      NextRow(pages[cur], csrY[cur], csrX[cur]);
      if csrX[cur] != 0 {
        csrX := csrX[cur := csrX[cur] - 1];
      }
      pages := pages[cur := Feed(pages[cur], BACKSPACE, attrib)];
    }

    /** putch: the sheet in front takes one more byte. */
    method PutCh(c: byte)
      requires Valid()
      modifies this, video
      ensures Valid() && pages == old(pages)[cur := Feed(old(pages)[cur], c, attrib)]
      ensures cur == old(cur) && attrib == old(attrib) && lineBeginning == old(lineBeginning)
      ensures enterFlag == old(enterFlag)
      ensures bufferLen == if c == NEWLINE then old(bufferLen)[cur := 0] else old(bufferLen)
      ensures buffers == if c == NEWLINE then old(buffers)[cur := EMPTY_LINE] else old(buffers)
      ensures c == NEWLINE ==> lineY == old(lineY)[cur := csrY[cur]]
      ensures c != NEWLINE ==>
        lineY == if |pages[cur].cells| > |old(pages)[cur].cells| then old(lineY)[cur := HEIGHT - 2] else old(lineY)
      ensures (csrX[cur], csrY[cur]) == CursorAfter(c, old(csrX[cur]), old(csrY[cur]))
    {
      hide Shows, CursorAt, Extend;
      if c == NEWLINE {
        NewLine();
      } else if c == BACKSPACE {
        BackUp();
      } else if c >= SPACE {
        PutGlyph(c);
      }
    }

    /** Prints a text, byte by byte. */
    method PutAll(text: seq<byte>) returns (written: nat)
      requires Valid()
      modifies this, video
      ensures Valid() && pages == old(pages)[cur := FeedAll(old(pages)[cur], text, attrib)] && written == |text|
      ensures cur == old(cur) && attrib == old(attrib) && enterFlag == old(enterFlag)
      ensures lineBeginning == old(lineBeginning) && lineY == old(lineY)[cur := lineY[cur]]
      ensures bufferLen == if NEWLINE in text then old(bufferLen)[cur := 0] else old(bufferLen)
      ensures buffers == if NEWLINE in text then old(buffers)[cur := EMPTY_LINE] else old(buffers)
    {
      hide Shows, Feed, FeedAll, CursorAt, Background, ValidPage, CursorAfter;
      written := 0;
      assert text[..0] == [];
      FeedNothing(pages[cur], attrib);
      while written < |text|
        invariant 0 <= written <= |text| && Valid() && cur == old(cur) && attrib == old(attrib)
        invariant enterFlag == old(enterFlag) && lineBeginning == old(lineBeginning)
        invariant lineY == old(lineY)[cur := lineY[cur]]
        invariant bufferLen == if NEWLINE in text[..written] then old(bufferLen)[cur := 0] else old(bufferLen)
        invariant buffers == if NEWLINE in text[..written] then old(buffers)[cur := EMPTY_LINE] else old(buffers)
        invariant pages == old(pages)[cur := FeedAll(old(pages)[cur], text[..written], attrib)]
      {
        FeedAllSnoc(old(pages)[cur], text[..written], text[written], attrib);
        assert text[..written] + [text[written]] == text[..written + 1];
        PutCh(text[written]);
        written := written + 1;
      }
      assert text[..written] == text;
    }

    method TerminalWrite(text: seq<byte>) returns (written: nat)
      requires Valid()
      modifies this, video
      ensures Valid() && pages == old(pages)[cur := FeedAll(old(pages)[cur], text, attrib)] && written == |text|
      ensures cur == old(cur) && attrib == old(attrib) && enterFlag == old(enterFlag)
      ensures forall lines :: PrintableLines(lines) && text == JoinLines(lines) ==>
        LaidOut(old(pages)[cur], pages[cur], lines, attrib)
      ensures lineY == old(lineY)[cur := csrY[cur]] && lineBeginning == old(lineBeginning)[cur := csrX[cur]]
      ensures bufferLen == if NEWLINE in text then old(bufferLen)[cur := 0] else old(bufferLen)
      ensures buffers == if NEWLINE in text then old(buffers)[cur := EMPTY_LINE] else old(buffers)
    {
      hide Shows, FeedAll, Background, LaidOut, JoinLines;
      forall lines | PrintableLines(lines) && text == JoinLines(lines)
        ensures LaidOut(pages[cur], FeedAll(pages[cur], text, attrib), lines, attrib)
      {
        Layout(pages[cur], lines, attrib);
      }
      written := PutAll(text);
      lineBeginning := lineBeginning[cur := csrX[cur]];
      lineY := lineY[cur := csrY[cur]];
    }

    // -------------------------------------------------------------- switching

    method LoadScreen(words: seq<Cell>)
      requires |words| == video.Length
      modifies video
      ensures video[..] == words
    {
      for i := 0 to |words|
        invariant forall k :: 0 <= k < i ==> video[k] == words[k]
      {
        video[i] := words[i];
      }
    }

    /** Another terminal's screen and cursor come back exactly as they were left. */
    method SwitchTerminal(t: nat)
      requires Valid() && t < TERMINALS
      modifies this`cur, this`saved, video
      ensures Valid() && cur == t
    {
      hide Shows, CursorAt;
      if t == cur {
        return;
      }
      saved := saved[cur := video[..]];
      LoadScreen(saved[t]);
      cur := t;
    }

    /** Any interleaving of writes and switches gives the three sheets their own output. */
    method RunAll(ops: seq<Op>)
      requires Valid() && ValidOps(ops)
      modifies this, video
      ensures Valid() && attrib == old(attrib)
      ensures (pages, cur) == RunOps(old(pages), old(cur), ops, attrib)
    {
      hide Shows, CursorAt, FeedAll;
      for i := 0 to |ops|
        invariant Valid() && attrib == old(attrib) && ValidOps(ops[i..])
        invariant RunOps(pages, cur, ops[i..], attrib) == RunOps(old(pages), old(cur), ops, attrib)
      {
        assert ops[i..][1..] == ops[i + 1..];
        match ops[i]
        case Write(text) => var _ := TerminalWrite(text);
        case SwitchTo(t) => SwitchTerminal(t);
      }
    }

    // -------------------------------------------------------------- line editing

    /** The line typed so far on the current terminal. */
    ghost function Line(): seq<byte>
      requires Sized()
      reads this
    {
      buffers[cur][..bufferLen[cur]]
    }

    /** Where a redraw of the line starts on the sheet. */
    ghost function Anchor(): int
      requires Sized() && |pages| == TERMINALS
      reads this
    {
      |pages[cur].cells| - SCREEN + WIDTH * lineY[cur] + lineBeginning[cur]
    }

    /** Nothing but the current terminal's sheet, line and anchor has changed. */
    twostate predicate OnlyCurrent()
      requires old(Sized()) && Sized() && |old(pages)| == |pages| == TERMINALS
      reads this
    {
      && cur == old(cur) && attrib == old(attrib) && lineBeginning == old(lineBeginning)
      && forall t :: 0 <= t < TERMINALS && t != cur ==>
           && pages[t] == old(pages)[t] && buffers[t] == old(buffers)[t]
           && bufferLen[t] == old(bufferLen)[t] && lineY[t] == old(lineY)[t]
    }

    method AddToBuffer(c: byte)
      requires Sized()
      modifies this`buffers, this`bufferLen
      ensures Sized() && Line() == Edit(old(Line()), Char(c))
      ensures Line() == if |old(Line())| < 128 then old(Line()) + [c] else old(Line())
      ensures bufferLen[cur] >= old(bufferLen[cur])
      ensures forall t :: 0 <= t < TERMINALS && t != cur ==>
        buffers[t] == old(buffers[t]) && bufferLen[t] == old(bufferLen[t])
    {
      if bufferLen[cur] < BUFFER {
        var row: seq<byte> := buffers[cur][bufferLen[cur] := c];
        buffers := buffers[cur := row];
        bufferLen := bufferLen[cur := bufferLen[cur] + 1];
      }
    }

    /** Puts the cursor back at the start of the line. */
    method ToLineStart()
      requires Valid()
      modifies this`csrX, this`csrY, this`pages
      ensures Valid() && pages == old(pages)[cur := Page(old(pages)[cur].cells, old(Anchor()))]
      ensures CursorAt(lineBeginning[cur], lineY[cur], pages[cur])
    {
      hide Shows;
      csrY := csrY[cur := lineY[cur]];
      csrX := csrX[cur := lineBeginning[cur]];
      pages := pages[cur := Page(pages[cur].cells, Anchor())];
    }

    /** Draws the whole line again from its anchor. */
    method PrintBuffer()
      requires Valid() && Printable(Line())
      modifies this, video
      ensures Valid() && cur == old(cur) && attrib == old(attrib) && enterFlag == old(enterFlag)
      ensures buffers == old(buffers) && bufferLen == old(bufferLen) && lineBeginning == old(lineBeginning)
      ensures 0 <= old(Anchor()) && ValidPage(Page(old(pages)[cur].cells, old(Anchor())))
      ensures pages == old(pages)[cur := FeedAll(Page(old(pages)[cur].cells, old(Anchor())), Line(), attrib)]
      ensures lineY == old(lineY)[cur := KeptRow(old(lineY)[cur], lineBeginning[cur], bufferLen[cur])]
      ensures Anchor() == old(Anchor()) + Drift(old(lineY)[cur], lineBeginning[cur], bufferLen[cur])
    {
      hide Shows, Feed, FeedAll, CursorAfter;
      ghost var ps, line := pages, Line();
      ToLineStart();
      ghost var p := pages[cur];
      var i := 0;
      assert line[..0] == [];
      FeedNothing(p, attrib);
      while i < bufferLen[cur]
        invariant Valid() && Line() == line && 0 <= i <= |line|
        invariant cur == old(cur) && attrib == old(attrib) && enterFlag == old(enterFlag)
        invariant buffers == old(buffers) && bufferLen == old(bufferLen) && lineBeginning == old(lineBeginning)
        invariant pages == ps[cur := FeedAll(p, line[..i], attrib)]
        invariant lineY == if |pages[cur].cells| > |p.cells| then old(lineY)[cur := HEIGHT - 2] else old(lineY)
      {
        FeedAllSnoc(p, line[..i], line[i], attrib);
        assert line[..i] + [line[i]] == line[..i + 1];
        FeedKeepsValid(pages[cur], line[i], attrib);
        PutCh(buffers[cur][i]);
        i := i + 1;
      }
      assert line[..i] == line;
      RowsAddedIsGrowth(p, old(lineY)[cur], lineBeginning[cur], line, attrib);
    }

    /** The line shows on the sheet exactly as edited: text from start on, nothing after it, the rest untouched. */
    ghost predicate Editing(start: nat, before: seq<Cell>)
      reads this, video
    {
      && Valid() && Printable(Line()) && Anchor() == start
      && start <= |pages[cur].cells| && pages[cur].cells[..start] == before
      && Holds(pages[cur].cells, start, Line(), attrib)
    }

    /** A redraw over a line that is no longer shows it, and the kept anchor is still its start exactly when the line
        stays within two rows or starts high enough on the screen for the redraw not to scroll. */
    method Redraw(ghost start: nat, ghost before: seq<Cell>, ghost was: seq<byte>)
      requires Valid() && Printable(Line())
      modifies this, video
      ensures Valid() && cur == old(cur) && attrib == old(attrib) && enterFlag == old(enterFlag)
      ensures buffers == old(buffers) && bufferLen == old(bufferLen) && OnlyCurrent()
      ensures old(Anchor() == start && start <= |pages[cur].cells| && pages[cur].cells[..start] == before
                  && Holds(pages[cur].cells, start, was, attrib) && |was| <= |Line()|) ==>
              && pages[cur].pos == start + |Line()|
              && (Editing(start, before) <==>
                  lineBeginning[cur] + bufferLen[cur] < 2 * WIDTH || old(lineY[cur]) <= HEIGHT - 3)
      ensures Anchor() >= old(Anchor()) && (lineY[cur] <= HEIGHT - 3 <==> old(lineY[cur]) <= HEIGHT - 3)
      ensures Anchor() == old(Anchor()) <==>
        lineBeginning[cur] + bufferLen[cur] < 2 * WIDTH || old(lineY[cur]) <= HEIGHT - 3
    {
      hide Shows, Feed, FeedAll, CursorAt, Background;
      ghost var p := pages[cur];
      ghost var hit := Anchor() == start && start <= |p.cells| && p.cells[..start] == before
                       && Holds(p.cells, start, was, attrib) && |was| <= |Line()|;
      PrintBuffer();
      DriftExactIff(old(lineY)[cur], lineBeginning[cur], bufferLen[cur]);
      if hit {
        RedrawHolds(p, start, was, Line(), attrib);
        assert pages[cur].cells[..start] == before;
      }
    }

    /** Backspace: the last character, if there is one, is blanked, the line redrawn, and the character dropped. */
    method Backspace(ghost start: nat, ghost before: seq<Cell>)
      requires Valid() && Printable(Line())
      modifies this, video
      ensures Valid() && OnlyCurrent() && enterFlag == old(enterFlag)
      ensures Line() == Edit(old(Line()), Erase) && Printable(Line())
      ensures Line() == if old(Line()) == [] then [] else old(Line())[..|old(Line())| - 1]
      ensures Anchor() >= old(Anchor()) && (lineY[cur] <= HEIGHT - 3 <==> old(lineY[cur]) <= HEIGHT - 3)
      ensures old(Editing(start, before)) ==> Editing(start, before)
    {
      hide Shows, Feed, FeedAll, CursorAt, Background;
      ghost var was := Line();
      if bufferLen[cur] > 0 {
        var row: seq<byte> := buffers[cur][bufferLen[cur] - 1 := SPACE];
        buffers := buffers[cur := row];
        ghost var cut := was[..|was| - 1];
        assert Line() == cut + [SPACE];
        Redraw(start, before, was);
        bufferLen := bufferLen[cur := bufferLen[cur] - 1];
        assert Line() == cut;
      }
    }

    /** The backspace key: erases and redraws once more. */
    method EraseKey(ghost start: nat, ghost before: seq<Cell>)
      requires Valid() && Printable(Line())
      modifies this, video
      ensures Valid() && OnlyCurrent() && enterFlag == old(enterFlag)
      ensures Line() == Edit(old(Line()), Erase) && Printable(Line())
      ensures Line() == if old(Line()) == [] then [] else old(Line())[..|old(Line())| - 1]
      ensures Anchor() >= old(Anchor()) && (lineY[cur] <= HEIGHT - 3 <==> old(lineY[cur]) <= HEIGHT - 3)
      ensures old(Editing(start, before)) ==> Editing(start, before)
    {
      hide Shows, Feed, FeedAll, CursorAt, Background, Holds;
      Backspace(start, before);
      if Editing(start, before) {
        LowLineFits(start, before);
      }
      Redraw(start, before, Line());
    }

    /** One key press: a character is added or the last one erased, and the line redrawn. */
    method TypeKey(k: Key, ghost start: nat, ghost before: seq<Cell>)
      requires Valid() && Printable(Line()) && (k.Char? ==> k.c >= SPACE)
      modifies this, video
      ensures Valid() && OnlyCurrent() && enterFlag == old(enterFlag)
      ensures Line() == Edit(old(Line()), k) && Printable(Line())
      ensures Anchor() >= old(Anchor()) && (lineY[cur] <= HEIGHT - 3 <==> old(lineY[cur]) <= HEIGHT - 3)
      ensures old(Editing(start, before)) ==>
        if old(lineY[cur]) <= HEIGHT - 3 || lineBeginning[cur] + |Line()| < 2 * WIDTH then Editing(start, before)
        else Anchor() > start
    {
      hide Shows, Feed, FeedAll, CursorAt, Background, Holds;
      if Editing(start, before) {
        LowLineFits(start, before);
      }
      if k.Char? {
        ghost var was := Line();
        AddToBuffer(k.c);
        Redraw(start, before, was);
      } else {
        EraseKey(start, before);
      }
    }

    /** Any sequence of printable keys: the buffer holds the edited line, and the screen shows it, whatever scrolling
        the redraws caused, if and only if it starts at row 22 or above or every version of it stayed within two
        rows. */
    method TypeKeys(keys: seq<Key>, ghost start: nat, ghost before: seq<Cell>)
      requires Valid() && Printable(Line()) && PrintableKeys(keys)
      modifies this, video
      ensures Valid() && OnlyCurrent() && enterFlag == old(enterFlag)
      ensures Line() == Edited(old(Line()), keys) && Printable(Line())
      ensures old(Editing(start, before)) ==>
        if old(lineY[cur]) <= HEIGHT - 3 || Fits(lineBeginning[cur], old(Line()), keys) then Editing(start, before)
        else Anchor() > start
    {
      hide Shows, CursorAt, Background, Holds;
      ghost var editing, high := Editing(start, before), lineY[cur] <= HEIGHT - 3;
      ghost var fits := Fits(lineBeginning[cur], Line(), keys);
      for i := 0 to |keys|
        invariant Valid() && OnlyCurrent() && enterFlag == old(enterFlag) && Printable(Line())
        invariant Edited(Line(), keys[i..]) == Edited(old(Line()), keys)
        invariant high <==> lineY[cur] <= HEIGHT - 3
        invariant editing ==>
          || (Editing(start, before) && (high || (fits <==> Fits(lineBeginning[cur], Line(), keys[i..]))))
          || (Anchor() > start && !high && !fits)
      {
        assert keys[i..][1..] == keys[i + 1..];
        if Editing(start, before) {
          LowLineFits(start, before);
        }
        TypeKey(keys[i], start, before);
      }
      assert keys[|keys|..] == [];
      if Editing(start, before) {
        LowLineFits(start, before);
      }
    }

    /** A line shown as edited that starts below row 22 ends on the row of its start or the next. */
    lemma LowLineFits(start: nat, before: seq<Cell>)
      requires Editing(start, before)
      ensures lineY[cur] > HEIGHT - 3 ==> lineBeginning[cur] + |Line()| < 2 * WIDTH
    {
    }

    /** The Enter key. */
    method Enter()
      requires Valid()
      modifies this`buffers, this`bufferLen, this`enterFlag
      ensures Valid() && OnlyCurrent() && enterFlag && Line() == Edit(old(Line()), Char(NEWLINE))
    {
      hide Shows, CursorAt, Background;
      AddToBuffer(NEWLINE);
      enterFlag := true;
    }

    /** Copies a finished line out of the buffer, ends it with one newline, and starts a new row. */
    method TerminalRead(count: nat, ghost line: seq<byte>) returns (text: seq<byte>)
      requires Valid() && enterFlag && Printable(line) && |line| <= BUFFER
      requires Line() == Edit(line, Char(NEWLINE))
      modifies this, video
      ensures Valid() && OnlyCurrent() && !enterFlag && Line() == []
      ensures pages == old(pages)[cur := Feed(old(pages)[cur], NEWLINE, attrib)]
      ensures text == line[..Min(count, |line|)] + [NEWLINE]
    {
      hide Shows, CursorAt, Background, Feed;
      assert forall k :: 0 <= k < |line| ==> buffers[cur][k] == Line()[k] == line[k];
      assert |line| < BUFFER ==> buffers[cur][|line|] == Line()[|line|] == NEWLINE;
      text := [];
      var i := 0;
      while i < count && i < BUFFER && buffers[cur][i] != 0 && buffers[cur][i] != NEWLINE
        invariant 0 <= i <= |line| && i <= count && text == line[..i]
      {
        text := text + [buffers[cur][i]];
        i := i + 1;
      }
      text := text + [NEWLINE];
      NewLine();
      enterFlag := false;
    }

    /** A line typed from an empty buffer is read back as edited: erased characters and the blanks that erasing
        leaves behind never come back. */
    method ReadEditedLine(keys: seq<Key>, count: nat) returns (text: seq<byte>)
      requires Valid() && Line() == [] && PrintableKeys(keys)
      modifies this, video
      ensures Valid() && OnlyCurrent() && Line() == []
      ensures text == Edited([], keys)[..Min(count, |Edited([], keys)|)] + [NEWLINE]
      ensures exists line :: Surviving(keys, |keys|, line) && text == line[..Min(count, |line|)] + [NEWLINE]
    {
      hide Shows, CursorAt, Background, Feed;
      TypeKeys(keys, 0, []);
      ghost var line := Line();
      Enter();
      text := TerminalRead(count, line);
      EditedSurvives(keys, |keys|);
      assert keys[..|keys|] == keys && Surviving(keys, |keys|, line);
    }
  }

  /** Where the line of the run below starts: row 23, column 40. */
  const LOW_START: nat := 23 * 80 + 40

  /** A prompt of 40 characters on row 23 of a cleared console. */
  method LowPrompt() returns (c: Console, ghost before: seq<Cell>)
    ensures fresh(c) && fresh(c.video) && c.Editing(LOW_START, before) && c.Line() == []
    ensures c.lineY[c.cur] == 23 && c.lineBeginning[c.cur] == 40
  {
    hide Shows, FeedAll, Repeat, Blanks;
    c := new Console();
    PromptOnBlank(23, 97, 40, c.attrib);
    var _ := c.TerminalWrite(Repeat(NEWLINE, 23) + Repeat(97, 40));
    before := c.pages[c.cur].cells[..LOW_START];
  }

  /** Typing 120 characters after it scrolls the screen once and leaves the kept anchor below the line's start: the next
      redraw goes to the wrong row. */
  method AnchorLost() returns (c: Console)
    ensures fresh(c) && c.Valid() && c.Line() == Repeat(97, 120) && c.Anchor() > LOW_START
    ensures forall before :: !c.Editing(LOW_START, before)
  {
    hide Shows, CursorAt, Holds, Fits, Edited, Repeat, RepeatKey;
    ghost var before;
    c, before := LowPrompt();
    LongLine(97);
    c.TypeKeys(RepeatKey(97, 120), LOW_START, before);
  }
}
