/** kernel.c: the text terminal over video memory. */
module Terminal {
  import opened Machine
  import opened Page
  import opened Screen

  class TextTerminal {
    const video: array<uint16>
    var row: uint16
    var col: uint16
    ghost var log: seq<Glyph>

    /** The screen is the window on the page that ends with the cursor's row. */
    ghost predicate Valid()
      reads this, video
    {
      && video.Length >= SCREEN_CELLS + 800
      && row < VGA_HEIGHT && col < VGA_WIDTH
      && Cursor(log) == Place(TopRow(log) + row, col)
      && Window(video[..], log, TopRow(log))
    }

    /** terminal_initialize: the first 30 rows are cleared. */
    constructor (video: array<uint16>)
      requires video.Length >= SCREEN_CELLS + 800
      modifies video
      ensures Valid() && this.video == video && log == []
      ensures video[SCREEN_CELLS + 800..] == old(video[SCREEN_CELLS + 800..])
    {
      this.video := video;
      row, col, log := 0, 0, [];
      new;
      var y := 0;
      while y < VGA_HEIGHT + 10
        invariant y <= VGA_HEIGHT + 10
        invariant this.video == video && row == 0 && col == 0 && log == []
        invariant forall i :: 0 <= i < y * 80 ==> video[i] == CLEARED_CELL
        invariant forall i :: y * 80 <= i < video.Length ==> video[i] == old(video[i])
      {
        ClearRow(y);
        y := y + 1;
      }
    }

    method PutChar(x: nat, y: nat, c: uint8, colour: uint8)
      requires x < VGA_WIDTH && y < VGA_HEIGHT + 10 && video.Length >= SCREEN_CELLS + 800
      modifies video
      ensures video[..] == old(video[..])[y * 80 + x := MakeChar(c, colour)]
    {
      video[y * VGA_WIDTH + x] := MakeChar(c, colour);
    }

    method ClearRow(y: nat)
      requires y < VGA_HEIGHT + 10 && video.Length >= SCREEN_CELLS + 800
      modifies video
      ensures forall i :: y * 80 <= i < y * 80 + 80 ==> video[i] == CLEARED_CELL
      ensures forall i :: 0 <= i < y * 80 || y * 80 + 80 <= i < video.Length ==> video[i] == old(video[i])
    {
      var x := 0;
      while x < VGA_WIDTH
        invariant x <= VGA_WIDTH
        invariant forall i :: y * 80 <= i < y * 80 + x ==> video[i] == CLEARED_CELL
        invariant forall i :: 0 <= i < y * 80 || y * 80 + x <= i < video.Length ==> video[i] == old(video[i])
      {
        PutChar(x, y, 32, CLEAR_COLOUR);
        x := x + 1;
      }
    }

    method MoveRowUp(y: nat)
      requires 1 <= y < VGA_HEIGHT && video.Length >= SCREEN_CELLS + 800
      modifies video
      ensures forall i :: (y - 1) * 80 <= i < y * 80 ==> video[i] == old(video[i + 80])
      ensures forall i :: 0 <= i < (y - 1) * 80 || y * 80 <= i < video.Length ==> video[i] == old(video[i])
    {
      var x := 0;
      while x < VGA_WIDTH
        invariant x <= VGA_WIDTH
        invariant forall i :: (y - 1) * 80 <= i < (y - 1) * 80 + x ==> video[i] == old(video[i + 80])
        invariant forall i :: 0 <= i < (y - 1) * 80 || (y - 1) * 80 + x <= i < video.Length
                              ==> video[i] == old(video[i])
      {
        video[(y - 1) * VGA_WIDTH + x] := video[y * VGA_WIDTH + x];
        x := x + 1;
      }
    }

    /** The copy goes upwards in place: no row is overwritten before it has been moved. */
    method Scroll()
      requires video.Length >= SCREEN_CELLS + 800
      modifies video
      ensures ScrolledUp(old(video[..]), video[..])
    {
      var y := 1;
      while y < VGA_HEIGHT
        invariant 1 <= y <= VGA_HEIGHT
        invariant forall i :: 0 <= i < (y - 1) * 80 ==> video[i] == old(video[i + 80])
        invariant forall i :: (y - 1) * 80 <= i < video.Length ==> video[i] == old(video[i])
      {
        MoveRowUp(y);
        y := y + 1;
      }
      var x := 0;
      while x < VGA_WIDTH
        invariant x <= VGA_WIDTH
        invariant forall i :: 0 <= i < SCREEN_CELLS - 80 ==> video[i] == old(video[i + 80])
        invariant forall i :: SCREEN_CELLS - 80 <= i < SCREEN_CELLS - 80 + x ==> video[i] == BLANK_CELL
        invariant forall i :: SCREEN_CELLS <= i < video.Length ==> video[i] == old(video[i])
      {
        video[(VGA_HEIGHT - 1) * VGA_WIDTH + x] := MakeChar(32, PRINT_COLOUR);
        x := x + 1;
      }
    }

    /** Valid but for a cursor that may have left the screen at the bottom. */
    ghost predicate Written(top: nat)
      reads this, video
    {
      && video.Length >= SCREEN_CELLS + 800
      && row <= VGA_HEIGHT && col < VGA_WIDTH && (row == VGA_HEIGHT ==> col == 0)
      && (top > 0 ==> row >= VGA_HEIGHT - 1)
      && Cursor(log) == Place(top + row, col)
      && Window(video[..], log, top)
    }

    /** The first half of terminal_writechar. */
    method Put(c: uint8, colour: uint8)
      requires Valid()
      modifies this`row, this`col, this`log, video
      ensures Written(old(TopRow(log))) && log == old(log) + [Glyph(c, colour)]
      ensures video[SCREEN_CELLS..] == old(video[SCREEN_CELLS..])
    {
      ghost var top, g, before := TopRow(log), Glyph(c, colour), video[..];
      CursorSnoc(log, g);
      if c == NEWLINE {
        WindowNewline(before, log, top, g);
        col := 0;
        row := row + 1;
      } else {
        ghost var i := row * 80 + col;
        MakeCharShows(MakeChar(c, colour), g);
        WindowPut(before, log, top, g, MakeChar(c, colour), i);
        PutChar(col, row, c, colour);
        assert video[..] == before[i := MakeChar(c, colour)];
        col := col + 1;
        if col >= VGA_WIDTH {
          col := 0;
          row := row + 1;
        }
      }
      log := log + [g];
    }

    /** The second half: scrolling when the cursor has left the screen. */
    method ScrollIfFull(ghost top: nat)
      requires Written(top)
      modifies this`row, video
      ensures Valid()
      ensures video[SCREEN_CELLS..] == old(video[SCREEN_CELLS..])
    {
      if row >= VGA_HEIGHT {
        ghost var full := video[..];
        Scroll();
        row := VGA_HEIGHT - 1;
        WindowScroll(full, video[..], log, top);
      }
    }

    /** terminal_writechar: one more glyph on the page, still in the window. */
    method WriteChar(c: uint8, colour: uint8)
      requires Valid()
      modifies this`row, this`col, this`log, video
      ensures Valid() && log == old(log) + [Glyph(c, colour)]
      ensures video[SCREEN_CELLS..] == old(video[SCREEN_CELLS..])
    {
      ghost var top := TopRow(log);
      Put(c, colour);
      ScrollIfFull(top);
    }

    /** print: a C string in the fixed colour. Each of its characters, and all before them, are
      * seen where they were written, unless their row has left the screen. */
    method Print(str: Bytes)
      requires Valid() && 0 !in str
      modifies this`row, this`col, this`log, video
      ensures Valid() && log == old(log) + Glyphs(str)
      ensures forall j :: 0 <= j < |log| ==> Seen(video[..], log, j)
      ensures video[SCREEN_CELLS..] == old(video[SCREEN_CELLS..])
    {
      var i := 0;
      while i < |str|
        invariant 0 <= i <= |str| && Valid()
        invariant log == old(log) + Glyphs(str[..i])
        invariant video[SCREEN_CELLS..] == old(video[SCREEN_CELLS..])
      {
        WriteChar(str[i], PRINT_COLOUR);
        GlyphsSnoc(str, i);
        i := i + 1;
      }
      assert str[..i] == str;
      forall j | 0 <= j < |log|
        ensures Seen(video[..], log, j)
      {
        OnScreen(video[..], log, j);
      }
    }
  }
}
