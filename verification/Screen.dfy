/** The screen: 20 rows of the page, ending with the cursor's once the first 20 are full. */
module Screen {
  import opened Machine
  import opened Page

  ghost predicate Window(video: seq<uint16>, log: seq<Glyph>, top: nat) {
    |video| >= SCREEN_CELLS && forall i :: 0 <= i < SCREEN_CELLS ==> video[i] == Cell(log, top * 80 + i)
  }

  lemma CellPut(video: seq<uint16>, log: seq<Glyph>, top: nat, g: Glyph, cell: uint16, i: nat, j: nat)
    requires Window(video, log, top) && g.ch != NEWLINE && Shows(cell, g) && i < SCREEN_CELLS && j < SCREEN_CELLS
    requires Cursor(log).Flat() == top * 80 + i
    ensures video[i := cell][j] == Cell(log + [g], top * 80 + j)
  {
    MakeCharShows(cell, g);
    CellSnoc(log, g, top * 80 + j);
  }

  /** What writing a cell that shows the glyph does to the window, before any scrolling. */
  lemma WindowPut(video: seq<uint16>, log: seq<Glyph>, top: nat, g: Glyph, cell: uint16, i: nat)
    requires Window(video, log, top) && g.ch != NEWLINE && Shows(cell, g) && i < SCREEN_CELLS
    requires Cursor(log).Flat() == top * 80 + i
    ensures Window(video[i := cell], log + [g], top)
  {
    var video' := video[i := cell];
    forall j | 0 <= j < SCREEN_CELLS
      ensures video'[j] == Cell(log + [g], top * 80 + j)
    {
      CellPut(video, log, top, g, cell, i, j);
    }
  }

  lemma WindowNewline(video: seq<uint16>, log: seq<Glyph>, top: nat, g: Glyph)
    requires Window(video, log, top) && g.ch == NEWLINE
    ensures Window(video, log + [g], top)
  {
    forall j | 0 <= j < SCREEN_CELLS
      ensures video[j] == Cell(log + [g], top * 80 + j)
    {
      CellSnoc(log, g, top * 80 + j);
    }
  }

  /** Every row moved up by one, the last one blank. */
  ghost predicate ScrolledUp(video: seq<uint16>, video': seq<uint16>) {
    && |video'| == |video| >= SCREEN_CELLS
    && (forall i :: 0 <= i < SCREEN_CELLS - 80 ==> video'[i] == video[i + 80])
    && (forall i :: SCREEN_CELLS - 80 <= i < SCREEN_CELLS ==> video'[i] == BLANK_CELL)
    && video'[SCREEN_CELLS..] == video[SCREEN_CELLS..]
  }

  lemma ScrolledCell(video: seq<uint16>, video': seq<uint16>, log: seq<Glyph>, top: nat, i: nat)
    requires Window(video, log, top) && ScrolledUp(video, video') && Cursor(log) == Place(top + VGA_HEIGHT, 0)
    requires i < SCREEN_CELLS
    ensures video'[i] == Cell(log, (top + 1) * 80 + i)
  {
    if i >= SCREEN_CELLS - 80 {
      BeyondCursor(log, |log|, (top + 1) * 80 + i);
    } else {
      assert video[i + 80] == Cell(log, top * 80 + (i + 80));
    }
  }

  /** Scrolling moves the window down the page by one row. */
  lemma WindowScroll(video: seq<uint16>, video': seq<uint16>, log: seq<Glyph>, top: nat)
    requires Window(video, log, top) && ScrolledUp(video, video') && Cursor(log) == Place(top + VGA_HEIGHT, 0)
    ensures Window(video', log, top + 1)
  {
    forall i | 0 <= i < SCREEN_CELLS
      ensures video'[i] == Cell(log, (top + 1) * 80 + i)
    {
      ScrolledCell(video, video', log, top, i);
    }
  }

  /** Glyph j, unless its row has left the screen, is seen at its own place. */
  ghost predicate Seen(video: seq<uint16>, log: seq<Glyph>, j: nat)
    requires j < |log| && |video| >= SCREEN_CELLS
  {
    var p, top := CursorAt(log, j), TopRow(log);
    log[j].ch != NEWLINE && p.row >= top ==>
      p.row < top + VGA_HEIGHT && Shows(video[(p.row - top) * 80 + p.col], log[j])
  }

  /** On a screen that is the window every character still on it is seen at its own place. */
  lemma OnScreen(video: seq<uint16>, log: seq<Glyph>, j: nat)
    requires Window(video, log, TopRow(log)) && j < |log|
    ensures Seen(video, log, j)
  {
    var p := CursorAt(log, j);
    if log[j].ch != NEWLINE && p.row >= TopRow(log) {
      CursorMovesOn(log, j, |log|);
      GlyphStays(log, j, |log|);
      var i := (p.row - TopRow(log)) * 80 + p.col;
      assert video[i] == Cell(log, TopRow(log) * 80 + i);
    }
  }

  /** Every other cell of the screen is blank, or as it was cleared in the first 20 rows. */
  lemma RestOfScreen(video: seq<uint16>, log: seq<Glyph>, i: nat, p: nat)
    requires Window(video, log, TopRow(log)) && i < SCREEN_CELLS && p == TopRow(log) * 80 + i
    requires forall j :: 0 <= j < |log| ==> !WrittenAt(log, j, p)
    ensures video[i] == if p < SCREEN_CELLS then CLEARED_CELL else BLANK_CELL
  {
    RestIsBackground(log, |log|, p);
  }

  function Glyphs(str: Bytes): (r: seq<Glyph>)
    ensures |r| == |str| && forall i :: 0 <= i < |str| ==> r[i] == Glyph(str[i], PRINT_COLOUR)
  {
    seq(|str|, i requires 0 <= i < |str| => Glyph(str[i], PRINT_COLOUR))
  }

  lemma GlyphsSnoc(str: Bytes, i: nat)
    requires i < |str|
    ensures Glyphs(str[..i + 1]) == Glyphs(str[..i]) + [Glyph(str[i], PRINT_COLOUR)]
  {
  }

  function LowBytes(cells: seq<uint16>): (r: Bytes)
    ensures |r| == |cells|
  {
    seq(|cells|, i requires 0 <= i < |cells| => cells[i] % 0x100)
  }

  lemma SamePlace(p: Place, q: Place, top: nat, at: int, i: nat)
    requires p.col < VGA_WIDTH && q.col < VGA_WIDTH && p.row >= top && at == p.Flat() - top * 80
    requires q.Flat() == p.Flat() + i
    ensures q.row >= top && (q.row - top) * 80 + q.col == at + i
  {
  }

  /** The i-th of the characters from glyph n on, all of them in one line of text. */
  lemma PrintedByte(video: seq<uint16>, log: seq<Glyph>, n: nat, at: int, i: nat)
    requires Window(video, log, TopRow(log)) && n + i < |log| && forall k :: n <= k <= n + i ==> log[k].ch != NEWLINE
    requires CursorAt(log, n).row >= TopRow(log) && at == CursorAt(log, n).Flat() - TopRow(log) * 80
    ensures 0 <= at + i < SCREEN_CELLS && video[at + i] % 0x100 == log[n + i].ch
  {
    TextRunsOn(log, n, n + i);
    SamePlace(CursorAt(log, n), CursorAt(log, n + i), TopRow(log), at, i);
    OnScreen(video, log, n + i);
  }

  lemma LowBytesAre(video: seq<uint16>, at: int, str: Bytes)
    requires 0 <= at && at + |str| <= |video|
    requires forall i :: 0 <= i < |str| ==> video[at + i] % 0x100 == str[i]
    ensures LowBytes(video[at..at + |str|]) == str
  {
  }

  lemma PrintedGlyphs(log: seq<Glyph>, n: nat, str: Bytes)
    requires n <= |log| && log[n..] == Glyphs(str) && NEWLINE !in str
    ensures n + |str| == |log|
    ensures forall i :: 0 <= i < |str| ==> log[n + i].ch == str[i]
    ensures forall k :: n <= k < |log| ==> log[k].ch != NEWLINE
  {
    forall k | n <= k < |log|
      ensures log[k].ch == str[k - n]
    {
      assert log[k] == log[n..][k - n];
    }
  }

  lemma PrintedBytes(video: seq<uint16>, log: seq<Glyph>, n: nat, at: int, str: Bytes)
    requires Window(video, log, TopRow(log)) && n + |str| == |log| && str != []
    requires forall k :: n <= k < |log| ==> log[k].ch != NEWLINE
    requires forall i :: 0 <= i < |str| ==> log[n + i].ch == str[i]
    requires CursorAt(log, n).row >= TopRow(log) && at == CursorAt(log, n).Flat() - TopRow(log) * 80
    ensures 0 <= at && at + |str| <= SCREEN_CELLS
    ensures forall i :: 0 <= i < |str| ==> video[at + i] % 0x100 == str[i]
  {
    PrintedByte(video, log, n, at, 0);
    PrintedByte(video, log, n, at, |str| - 1);
    forall i | 0 <= i < |str|
      ensures video[at + i] % 0x100 == str[i]
    {
      PrintedByte(video, log, n, at, i);
    }
  }

  /** Text without line ends that has been printed last, from glyph n on, can be read off the
    * screen where the cursor was, if that row is still there. */
  lemma PrintedText(video: seq<uint16>, log: seq<Glyph>, n: nat, str: Bytes, at: int)
    requires Window(video, log, TopRow(log)) && n < |log| && log[n..] == Glyphs(str) && NEWLINE !in str
    requires CursorAt(log, n).row >= TopRow(log) && at == CursorAt(log, n).Flat() - TopRow(log) * 80
    ensures 0 <= at && at + |str| <= SCREEN_CELLS && LowBytes(video[at..at + |str|]) == str
  {
    PrintedGlyphs(log, n, str);
    PrintedBytes(video, log, n, at, str);
    LowBytesAre(video, at, str);
  }

  /** An instance: "A" on a cleared screen. */
  lemma PrintExample(video: seq<uint16>)
    requires Window(video, Glyphs([65]), 0)
    ensures video[0] == 0x1F41
  {
    var log := Glyphs([65]);
    assert CursorAt(log, 0) == Place(0, 0) && CursorAt(log, 1) == Place(0, 1);
    OnScreen(video, log, 0);
  }
}
