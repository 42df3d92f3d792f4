/** The text console of src/kernel/vga.cpp: an 80x25 window on the log. */
module Console {
  import opened Machine
  import opened ScreenLog

  class Terminal {
    var row: nat
    var column: nat
    var color: byte
    const buffer: array<Cell>
    /** Last bytes sent to the cursor location registers 0x0E and 0x0F. */
    var cursorHigh: byte
    var cursorLow: byte
    ghost var log: Log

    ghost predicate Valid()
      reads this, buffer
    {
      && buffer.Length == SCREEN
      && row < HEIGHT && column < WIDTH
      && log.Valid()
      && buffer[..] == log.cells[log.Top()..]
      && log.pos == log.Top() + row * WIDTH + column
    }

    /** The hardware cursor is at the write position. */
    predicate CursorShown()
      reads this
    {
      cursorHigh * 0x100 + cursorLow == row * WIDTH + column
    }

    /** `Terminal::initialize` on the video memory `video`. */
    constructor Initialize(video: array<Cell>)
      requires video.Length == SCREEN
      modifies video
      ensures Valid() && buffer == video && color == 7
      ensures log == Log(Blanks(SCREEN, 7), 0)
    {
      row, column, color := 0, 0, 7;
      buffer := video;
      cursorHigh, cursorLow := 0, 0;
      log := Log(Blanks(SCREEN, 7), 0);
      new;
      BlankScreen();
    }

    method BlankScreen()
      requires buffer.Length == SCREEN
      modifies buffer
      ensures buffer[..] == Blanks(SCREEN, color)
    {
      for y := 0 to HEIGHT
        invariant forall k :: 0 <= k < y * WIDTH ==> buffer[k] == Entry(SPACE, color)
      {
        for x := 0 to WIDTH
          invariant forall k :: 0 <= k < y * WIDTH + x ==> buffer[k] == Entry(SPACE, color)
        {
          buffer[y * WIDTH + x] := Entry(SPACE, color);
        }
      }
    }

    method PutEntryAt(c: byte, x: nat, y: nat)
      requires buffer.Length == SCREEN && x < WIDTH && y < HEIGHT
      modifies buffer
      ensures buffer[..] == old(buffer[..])[y * WIDTH + x := Entry(c, color)]
    {
      var index := y * WIDTH + x;
      buffer[index] := Entry(c, color);
    }

    /** Send the write position to the cursor registers, low byte first. */
    method UpdateCursor()
      requires row < HEIGHT && column < WIDTH
      modifies `cursorHigh, `cursorLow
      ensures CursorShown() && cursorHigh * 0x100 + cursorLow <= SCREEN - 1
    {
      var pos := row * WIDTH + column;
      cursorLow := pos % 0x100;
      cursorHigh := pos / 0x100 % 0x100;
    }

    /** The outer loop of `scroll`: every row but the last becomes the one below. */
    method ShiftRows()
      requires buffer.Length == SCREEN
      modifies buffer
      ensures forall k :: 0 <= k < SCREEN - WIDTH ==> buffer[k] == old(buffer[k + WIDTH])
    {
      for y := 0 to HEIGHT - 1
        invariant forall k :: 0 <= k < y * WIDTH ==> buffer[k] == old(buffer[k + WIDTH])
        invariant forall k :: y * WIDTH <= k < SCREEN ==> buffer[k] == old(buffer[k])
      {
        CopyRowUp(y * WIDTH);
      }
    }

    /** The inner loop, on the row that starts at `start`. */
    method CopyRowUp(start: nat)
      requires buffer.Length == SCREEN && start + 2 * WIDTH <= SCREEN
      modifies buffer
      ensures forall k :: start <= k < start + WIDTH ==> buffer[k] == old(buffer[k + WIDTH])
      ensures forall k :: 0 <= k < SCREEN && !(start <= k < start + WIDTH) ==> buffer[k] == old(buffer[k])
    {
      for x := 0 to WIDTH
        invariant forall k :: start <= k < start + x ==> buffer[k] == old(buffer[k + WIDTH])
        invariant forall k :: 0 <= k < SCREEN && !(start <= k < start + x) ==> buffer[k] == old(buffer[k])
      {
        buffer[start + x] := buffer[start + WIDTH + x];
      }
    }

    method Scroll()
      requires buffer.Length == SCREEN
      modifies buffer
      ensures buffer[..] == old(buffer[..])[WIDTH..] + Blanks(WIDTH, color)
    {
      ShiftRows();
      for x := 0 to WIDTH
        invariant forall k :: 0 <= k < SCREEN - WIDTH ==> buffer[k] == old(buffer[k + WIDTH])
        invariant forall k :: SCREEN - WIDTH <= k < SCREEN - WIDTH + x ==> buffer[k] == Entry(SPACE, color)
      {
        buffer[(HEIGHT - 1) * WIDTH + x] := Entry(SPACE, color);
      }
    }

    /** `new_line`: column 0 of the next row, scrolling when there is none. */
    method NewLine()
      requires Valid()
      modifies this, buffer
      ensures Valid() && CursorShown()
      ensures log == NextRow(old(log), color) && color == old(color)
      ensures column == 0 && NextLine(old(row), old(buffer[..]))
    {
      ghost var l := log;
      RowStart(l.pos, |l.cells|);
      RowOf(l.Top(), row, column);
      log := NextRow(l, color);
      column := 0;
      row := row + 1;
      if row == HEIGHT {
        Scroll();
        row := HEIGHT - 1;
      }
      UpdateCursor();
    }

    /** One row further down than `r`, the screen as in `b`, or moved up by one row when there is none. */
    ghost predicate NextLine(r: nat, b: seq<Cell>)
      requires |b| == SCREEN
      reads this, buffer
    {
      if r < 24 then row == r + 1 && buffer[..] == b
      else row == r == 24 && buffer[..] == b[80..] + Blanks(80, color)
    }

    static lemma RowOf(top: nat, row: nat, column: nat)
      requires top % WIDTH == 0 && column < WIDTH
      ensures (top + row * WIDTH + column) % WIDTH == column
    {
      var q := top / WIDTH + row;
      assert top + row * WIDTH + column == q * WIDTH + column;
    }

    /** `putchar`: a backspace steps back, over row ends but not off the screen, and blanks the cell it
        reaches; a newline starts the next row; any other character is put, and the last column wraps. */
    method PutChar(c: byte)
      requires Valid()
      modifies this, buffer
      ensures Valid() && CursorShown()
      ensures log == Put(old(log), c, color) && color == old(color)
      ensures c == 8 ==> SteppedBack(old(row), old(column), old(buffer[..]))
      ensures c == 10 ==> column == 0 && NextLine(old(row), old(buffer[..]))
      ensures c != 8 && c != 10 ==> Advanced(c, old(row), old(column), old(buffer[..]))
    {
      if c == BACKSPACE {
        PutBackspace();
      } else if c == NEWLINE {
        NewLine();
      } else {
        PutVisible(c);
      }
    }

    ghost predicate SteppedBack(r: nat, col: nat, b: seq<Cell>)
      requires |b| == SCREEN && r < HEIGHT && col < WIDTH && row < HEIGHT && column < WIDTH
      reads this, buffer
    {
      && row * 80 + column == (if r == 0 && col == 0 then 0 else r * 80 + col - 1)
      && buffer[..] == b[row * 80 + column := Entry(32, color)]
    }

    ghost predicate Advanced(c: byte, r: nat, col: nat, b: seq<Cell>)
      requires |b| == SCREEN && r < HEIGHT && col < WIDTH
      reads this, buffer
    {
      var put := b[r * 80 + col := Entry(c, color)];
      if col < 79 then row == r && column == col + 1 && buffer[..] == put
      else column == 0 && NextLine(r, put)
    }

    method PutBackspace()
      requires Valid()
      modifies this, buffer
      ensures Valid() && CursorShown()
      ensures log == Put(old(log), BACKSPACE, color) && color == old(color)
      ensures SteppedBack(old(row), old(column), old(buffer[..]))
    {
      if column > 0 {
        column := column - 1;
      } else if row > 0 {
        row := row - 1;
        column := WIDTH - 1;
      }
      PutEntryAt(SPACE, column, row);
      UpdateCursor();
      log := Put(log, BACKSPACE, color);
    }

    method PutVisible(c: byte)
      requires Valid() && c != BACKSPACE && c != NEWLINE
      modifies this, buffer
      ensures Valid() && CursorShown()
      ensures log == Put(old(log), c, color) && color == old(color)
      ensures Advanced(c, old(row), old(column), old(buffer[..]))
    {
      PutEntryAt(c, column, row);
      ghost var l := log.(cells := log.cells[log.pos := Entry(c, color)]);
      RowOf(l.Top(), row, column);
      if column + 1 == WIDTH {
        log := l;
        NewLine();
      } else {
        column := column + 1;
        log := l.(pos := l.pos + 1);
        RowStart(l.pos, |l.cells|);
      }
      UpdateCursor();
    }

    /** `writestring`. */
    method WriteString(s: seq<byte>)
      requires Valid()
      modifies this, buffer
      ensures Valid() && log == PutAll(old(log), s, color) && color == old(color)
      ensures s != [] ==> CursorShown()
    {
      ghost var l := log;
      assert s[..0] == [];
      for i := 0 to |s|
        invariant Valid() && color == old(color) && l.Valid()
        invariant log == PutAll(l, s[..i], color)
        invariant i > 0 ==> CursorShown()
      {
        PutAllConcat(l, s[..i], [s[i]], color);
        assert s[..i + 1] == s[..i] + [s[i]];
        PutChar(s[i]);
      }
      assert s[..|s|] == s;
    }

    /** `clear` blanks the screen and moves the write position, but sends no cursor position: the
        hardware cursor is right afterwards only if it already stood at the top left. */
    method Clear()
      requires Valid()
      modifies this, buffer
      ensures Valid() && log == Cleared(old(log), color) && color == old(color)
      ensures row == 0 && column == 0 && buffer[..] == Blanks(SCREEN, color)
      ensures log.pos == |log.cells| - SCREEN && |log.cells| == |old(log).cells|
      ensures CursorShown() <==> old(cursorHigh) == 0 && old(cursorLow) == 0
    {
      BlankScreen();
      row := 0;
      column := 0;
      log := Cleared(log, color);
    }

    /** Any run of printing, colour changes and clearing: the screen stays the window on the log. */
    method Run(ops: seq<ConsoleOp>)
      requires Valid()
      modifies this, buffer
      ensures Valid() && Shown(log, color) == AfterOps(old(Shown(log, color)), ops)
      ensures ops != [] && ops[|ops| - 1].OpPut? ==> CursorShown()
    {
      ghost var v := Shown(log, color);
      for i := 0 to |ops|
        invariant Valid() && v.log.Valid() && Shown(log, color) == AfterOps(v, ops[..i])
        invariant i > 0 && ops[i - 1].OpPut? ==> CursorShown()
      {
        assert ops[..i + 1][..i] == ops[..i];
        match ops[i] {
          case OpPut(c) => PutChar(c);
          case OpColor(c) => SetColor(c);
          case OpClear => Clear();
        }
      }
      assert ops[..|ops|] == ops;
    }

    /** `setcolor`: the log does not change. */
    method SetColor(newColor: byte)
      requires Valid()
      modifies `color
      ensures Valid() && color == newColor
    {
      color := newColor;
    }
  }
}
