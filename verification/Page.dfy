/** What the text terminal of kernel.c shows: a window on a page without end, on which
  * every glyph stays where it was written.
  */
module Page {
  import opened Machine

  const VGA_WIDTH: nat := 80
  const VGA_HEIGHT: nat := 20
  const SCREEN_CELLS: nat := 1600
  const PRINT_COLOUR: uint8 := 0x1F
  const CLEAR_COLOUR: uint8 := 0x11

  /** (colour << 8) | c with a signed char c: from 128 on the sign fills the upper byte. */
  function MakeChar(c: uint8, colour: uint8): uint16 {
    if c < 128 then colour * 256 + c else 0xFF00 + c
  }

  const BLANK_CELL: uint16 := 0x1F20
  const CLEARED_CELL: uint16 := 0x1120

  // ----- the unbounded log: a page of any length that never scrolls -----

  datatype Glyph = Glyph(ch: uint8, colour: uint8)

  /** The cell shows the glyph: its low byte is the character, and its high byte the colour, which
    * from character 128 on is lost. */
  predicate Shows(cell: uint16, g: Glyph) {
    cell % 0x100 == g.ch && cell / 0x100 == if g.ch < 128 then g.colour else 0xFF
  }

  lemma MakeCharShows(cell: uint16, g: Glyph)
    ensures Shows(cell, g) <==> cell == MakeChar(g.ch, g.colour)
  {
  }

  datatype Place = Place(row: nat, col: nat) {
    function Flat(): nat {
      row * 80 + col
    }

    function After(g: Glyph): Place {
      if g.ch == NEWLINE || col + 1 >= VGA_WIDTH then Place(row + 1, 0) else Place(row, col + 1)
    }
  }

  /** Where the k-th glyph of the log goes; for k == |log|, where the next one will go. */
  function CursorAt(log: seq<Glyph>, k: nat): (p: Place)
    requires k <= |log|
    ensures p.col < VGA_WIDTH
    decreases k
  {
    if k == 0 then Place(0, 0) else CursorAt(log, k - 1).After(log[k - 1])
  }

  /** What the page holds before anything is written at p. */
  function Background(p: nat): uint16 {
    if p < SCREEN_CELLS then CLEARED_CELL else BLANK_CELL
  }

  /** The k-th glyph is a character and goes to p. */
  predicate WrittenAt(log: seq<Glyph>, k: nat, p: nat)
    requires k < |log|
  {
    log[k].ch != NEWLINE && CursorAt(log, k).Flat() == p
  }

  /** What the page holds at position p (row * 80 + column) after the first k glyphs. */
  function PageCell(log: seq<Glyph>, k: nat, p: nat): uint16
    requires k <= |log|
    decreases k
  {
    if k == 0 then Background(p)
    else if WrittenAt(log, k - 1, p) then MakeChar(log[k - 1].ch, log[k - 1].colour)
    else PageCell(log, k - 1, p)
  }

  function Cursor(log: seq<Glyph>): (p: Place)
    ensures p.col < VGA_WIDTH
  {
    CursorAt(log, |log|)
  }

  /** The first row on the screen. */
  function TopRow(log: seq<Glyph>): nat {
    var row := Cursor(log).row;
    if row < VGA_HEIGHT then 0 else row - (VGA_HEIGHT - 1)
  }

  /** The log so far does not depend on what is written later. */
  lemma {:induction false} LogGrows(log: seq<Glyph>, more: seq<Glyph>, k: nat, p: nat)
    requires k <= |log|
    ensures CursorAt(log + more, k) == CursorAt(log, k)
    ensures PageCell(log + more, k, p) == PageCell(log, k, p)
    decreases k
  {
    if k > 0 {
      LogGrows(log, more, k - 1, p);
      assert (log + more)[k - 1] == log[k - 1];
    }
  }

  function Cell(log: seq<Glyph>, p: nat): uint16 {
    PageCell(log, |log|, p)
  }

  lemma CursorSnoc(log: seq<Glyph>, g: Glyph)
    ensures Cursor(log + [g]) == Cursor(log).After(g)
  {
    LogGrows(log, [g], |log|, 0);
  }

  lemma CellSnoc(log: seq<Glyph>, g: Glyph, p: nat)
    ensures Cell(log + [g], p)
            == if g.ch != NEWLINE && Cursor(log).Flat() == p then MakeChar(g.ch, g.colour) else Cell(log, p)
  {
    LogGrows(log, [g], |log|, p);
  }

  lemma MovesOn(p: Place, g: Glyph)
    requires p.col < VGA_WIDTH
    ensures p.Flat() < p.After(g).Flat()
    ensures g.ch != NEWLINE ==> p.After(g).Flat() == p.Flat() + 1
  {
  }

  /** The cursor only moves forward: glyphs never share a place. */
  lemma {:induction false} CursorMovesOn(log: seq<Glyph>, j: nat, k: nat)
    requires j < k <= |log|
    ensures CursorAt(log, j).Flat() < CursorAt(log, k).Flat()
    decreases k
  {
    MovesOn(CursorAt(log, k - 1), log[k - 1]);
    if j < k - 1 {
      CursorMovesOn(log, j, k - 1);
    }
  }

  /** A glyph stays where it was written, and is seen there. */
  lemma {:induction false} GlyphStays(log: seq<Glyph>, j: nat, k: nat)
    requires j < k <= |log| && log[j].ch != NEWLINE
    ensures Shows(PageCell(log, k, CursorAt(log, j).Flat()), log[j])
    decreases k
  {
    MakeCharShows(MakeChar(log[j].ch, log[j].colour), log[j]);
    if j < k - 1 {
      CursorMovesOn(log, j, k - 1);
      GlyphStays(log, j, k - 1);
    }
  }

  /** Where no glyph was written the page is as it was. */
  lemma {:induction false} RestIsBackground(log: seq<Glyph>, k: nat, p: nat)
    requires k <= |log| && forall j :: 0 <= j < k ==> !WrittenAt(log, j, p)
    ensures PageCell(log, k, p) == Background(p)
    decreases k
  {
    if k > 0 {
      RestIsBackground(log, k - 1, p);
    }
  }

  lemma BeyondCursor(log: seq<Glyph>, k: nat, p: nat)
    requires k <= |log| && CursorAt(log, k).Flat() <= p
    ensures PageCell(log, k, p) == Background(p)
  {
    forall j | 0 <= j < k
      ensures !WrittenAt(log, j, p)
    {
      CursorMovesOn(log, j, k);
    }
    RestIsBackground(log, k, p);
  }

  /** Text without line ends runs on, from row to row, one cell after the other. */
  lemma {:induction false} TextRunsOn(log: seq<Glyph>, j: nat, k: nat)
    requires j <= k <= |log| && forall i :: j <= i < k ==> log[i].ch != NEWLINE
    ensures CursorAt(log, k).Flat() == CursorAt(log, j).Flat() + (k - j)
    decreases k
  {
    if j < k {
      TextRunsOn(log, j, k - 1);
      MovesOn(CursorAt(log, k - 1), log[k - 1]);
    }
  }

  // ----- lines -----

  /** The line ends among the first k glyphs. */
  function Lines(log: seq<Glyph>, k: nat): nat
    requires k <= |log|
    decreases k
  {
    if k == 0 then 0 else Lines(log, k - 1) + if log[k - 1].ch == NEWLINE then 1 else 0
  }

  /** How many glyphs there are between the last of them and the k-th glyph. */
  function SinceLine(log: seq<Glyph>, k: nat): nat
    requires k <= |log|
    decreases k
  {
    if k == 0 || log[k - 1].ch == NEWLINE then 0 else SinceLine(log, k - 1) + 1
  }

  /** Lines of less than 80 characters are the rows of the page. */
  lemma {:induction false} LinesAreRows(log: seq<Glyph>, k: nat)
    requires k <= |log| && forall i :: 0 <= i <= k ==> SinceLine(log, i) < VGA_WIDTH
    ensures CursorAt(log, k) == Place(Lines(log, k), SinceLine(log, k))
    decreases k
  {
    if k > 0 {
      LinesAreRows(log, k - 1);
    }
  }
}
