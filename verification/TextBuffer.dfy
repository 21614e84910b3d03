/** The scrolling text screen: a 25 by 80 buffer written byte by byte, and the VGA frame it
    is copied to, against a log of lines that never scrolls. */
module TextScreen {
  type Byte = b: nat | b < 256

  const WIDTH := 80
  const HEIGHT := 25
  const NEWLINE: Byte := 10
  const BACKSPACE: Byte := 8
  const TAB: Byte := 9
  const BLANK: Byte := 32

  /** Every line ever started, the current one last. */
  type Log = l: seq<seq<Byte>> | |l| > 0 witness [[]]

  function LastLine(log: Log): seq<Byte> { log[|log| - 1] }

  function WithLast(log: Log, line: seq<Byte>): Log { log[|log| - 1 := line] }

  /** A printable byte goes to the end of the current line, or starts a new one at the
      right margin. */
  function PutChar(log: Log, b: Byte): Log {
    if |LastLine(log)| >= WIDTH then log + [[b]] else WithLast(log, LastLine(log) + [b])
  }

  function PutBlanks(log: Log, n: nat): Log { if n == 0 then log else PutChar(PutBlanks(log, n - 1), BLANK) }

  function Put(log: Log, b: Byte): Log {
    if b == NEWLINE then log + [[]]
    else if b == BACKSPACE then
      (if LastLine(log) == [] then log else WithLast(log, LastLine(log)[..|LastLine(log)| - 1]))
    else if b == TAB then PutBlanks(log, 4)
    else PutChar(log, b)
  }

  function PutAll(log: Log, bytes: seq<Byte>): Log {
    if bytes == [] then log else Put(PutAll(log, bytes[..|bytes| - 1]), bytes[|bytes| - 1])
  }

  predicate Wrapped(log: Log) { forall i :: 0 <= i < |log| ==> |log[i]| <= WIDTH }

  /** The cell of a screen that shows the last 25 lines of the log, padded with blanks. */
  function Cell(log: Log, row: nat, col: nat): Byte
    requires row < HEIGHT && col < WIDTH
  {
    var line := |log| - HEIGHT + row;
    if line < 0 || col >= |log[line]| then BLANK else log[line][col]
  }

  /** The text of the log, without its line breaks. */
  function Text(log: seq<seq<Byte>>): seq<Byte> {
    if log == [] then [] else Text(log[..|log| - 1]) + log[|log| - 1]
  }

  lemma TextWithLast(log: Log, line: seq<Byte>)
    ensures Text(WithLast(log, line)) == Text(log[..|log| - 1]) + line
  {
    assert WithLast(log, line)[..|log| - 1] == log[..|log| - 1];
  }

  /** Wrapping loses nothing: printable bytes stand in the log in the order written. */
  lemma {:induction false} TextKept(log: Log, bytes: seq<Byte>)
    requires forall i :: 0 <= i < |bytes| ==> bytes[i] != 8 && bytes[i] != 9 && bytes[i] != 10
    ensures Text(PutAll(log, bytes)) == Text(log) + bytes
  {
    if bytes != [] {
      var init, b := bytes[..|bytes| - 1], bytes[|bytes| - 1];
      TextKept(log, init);
      var l := PutAll(log, init);
      assert PutAll(log, bytes) == PutChar(l, b);
      TextPut(l, b);
      assert Text(log) + bytes == (Text(log) + init) + [b];
    } else {
      assert Text(log) + bytes == Text(log);
    }
  }

  lemma TextPut(log: Log, b: Byte)
    ensures Text(PutChar(log, b)) == Text(log) + [b]
  {
    if |LastLine(log)| >= WIDTH {
      assert (log + [[b]])[..|log|] == log;
    } else {
      TextWithLast(log, LastLine(log) + [b]);
      assert Text(log[..|log| - 1]) + (LastLine(log) + [b]) == (Text(log[..|log| - 1]) + LastLine(log)) + [b];
    }
  }

  /** A tab is four blanks. */
  lemma TabIsFourBlanks(log: Log)
    ensures Text(Put(log, 9)) == Text(log) + [32, 32, 32, 32]
  {
    BlanksAdd(log, 1);
    BlanksAdd(log, 2);
    BlanksAdd(log, 3);
    BlanksAdd(log, 4);
    var t := Text(log);
    assert t + [32, 32, 32, 32] == (((t + [32]) + [32]) + [32]) + [32];
  }

  lemma BlanksAdd(log: Log, n: nat)
    requires n > 0
    ensures Text(PutBlanks(log, n)) == Text(PutBlanks(log, n - 1)) + [32]
  {
    TextPut(PutBlanks(log, n - 1), BLANK);
  }

  /** The screen shows the current line in its last row and the lines before it above, with
      blanks where there is nothing. */
  lemma CellShows(log: Log, up: nat, col: nat)
    requires up < 25 && col < 80
    ensures Cell(log, 24 - up, col) ==
            if up < |log| && col < |log[|log| - 1 - up]| then log[|log| - 1 - up][col] else 32
  {
  }

  /** No line is ever longer than the screen is wide. */
  lemma {:induction false} LinesWrapped(log: Log, bytes: seq<Byte>)
    requires forall i :: 0 <= i < |log| ==> |log[i]| <= 80
    ensures forall i :: 0 <= i < |PutAll(log, bytes)| ==> |PutAll(log, bytes)[i]| <= 80
  {
    if bytes != [] {
      LinesWrapped(log, bytes[..|bytes| - 1]);
      BlanksWrapped(PutAll(log, bytes[..|bytes| - 1]), 4);
    }
  }

  lemma {:induction false} BlanksWrapped(log: Log, n: nat)
    requires Wrapped(log)
    ensures Wrapped(PutBlanks(log, n))
  {
    if n > 0 {
      BlanksWrapped(log, n - 1);
    }
  }

  /** Backspace takes back a printable byte exactly if it did not start a new line: at the
      right margin the line break stays. */
  lemma BackspaceUndoes(log: Log, b: Byte)
    requires b != 8 && b != 9 && b != 10
    ensures Put(Put(log, b), 8) == log <==> |LastLine(log)| < 80
    ensures |LastLine(log)| >= 80 ==> Put(Put(log, b), 8) == log + [[]]
  {
    if |LastLine(log)| < WIDTH {
      assert (LastLine(log) + [b])[..|LastLine(log)|] == LastLine(log);
      assert WithLast(WithLast(log, LastLine(log) + [b]), LastLine(log)) == log;
    } else {
      assert [b][..0] == [];
      assert WithLast(log + [[b]], []) == log + [[]];
    }
  }

  /** A new line shifts every cell up by one row and leaves the last row blank. */
  lemma NewLineScrolls(log: Log, row: nat, col: nat)
    requires row < 25 && col < 80
    ensures Cell(Put(log, 10), row, col) == if row < 24 then Cell(log, row + 1, col) else 32
  {
  }

  /** A character and its colour, as the hardware shows it. */
  datatype ScreenChar = ScreenChar(ascii: Byte, color: Byte)

  class Vga {
    const frame: array2<ScreenChar>

    constructor ()
      ensures fresh(frame) && frame.Length0 == HEIGHT && frame.Length1 == WIDTH
    {
      frame := new ScreenChar[HEIGHT, WIDTH]((_, _) => ScreenChar(BLANK, 7));
    }

    /** `sync_buffer`: every cell of the frame is the buffer's. */
    method SyncBuffer(chars: array2<Byte>, color: Byte)
      requires frame.Length0 == chars.Length0 == HEIGHT && frame.Length1 == chars.Length1 == WIDTH
      modifies frame
      ensures forall r, c :: 0 <= r < HEIGHT && 0 <= c < WIDTH ==> frame[r, c] == ScreenChar(chars[r, c], color)
    {
      for row := 0 to HEIGHT
        invariant forall r, c :: 0 <= r < row && 0 <= c < WIDTH ==> frame[r, c] == ScreenChar(chars[r, c], color)
      {
        for col := 0 to WIDTH
          invariant forall r, c :: 0 <= r < row && 0 <= c < WIDTH ==> frame[r, c] == ScreenChar(chars[r, c], color)
          invariant forall c :: 0 <= c < col ==> frame[row, c] == ScreenChar(chars[row, c], color)
        {
          frame[row, col] := ScreenChar(chars[row, col], color);
        }
      }
    }
  }

  class TextBuffer {
    const chars: array2<Byte>
    const vga: Vga
    var column: nat
    var color: Byte
    var active: bool
    ghost var log: Log

    /** The buffer shows the log. */
    ghost predicate Valid()
      reads this, chars, vga
    {
      && chars.Length0 == HEIGHT && chars.Length1 == WIDTH
      && vga.frame.Length0 == HEIGHT && vga.frame.Length1 == WIDTH
      && Wrapped(log) && column == |LastLine(log)|
      && forall r, c :: 0 <= r < HEIGHT && 0 <= c < WIDTH ==> chars[r, c] == Cell(log, r, c)
    }

    /** The device frame shows the buffer, cell for cell. */
    ghost predicate Synced()
      requires chars.Length0 == HEIGHT && chars.Length1 == WIDTH && vga.frame.Length0 == HEIGHT
      requires vga.frame.Length1 == WIDTH
      reads this, chars, vga, vga.frame
    {
      forall r, c :: 0 <= r < HEIGHT && 0 <= c < WIDTH ==> vga.frame[r, c] == ScreenChar(chars[r, c], color)
    }

    constructor (vga: Vga, active: bool)
      requires vga.frame.Length0 == HEIGHT && vga.frame.Length1 == WIDTH
      ensures Valid() && log == [[]] && fresh(chars) && this.vga == vga && this.active == active
    {
      chars := new Byte[HEIGHT, WIDTH]((_, _) => BLANK);
      this.vga := vga;
      column, color, this.active := 0, 7, active;
      log := [[]];
    }

    method Sync()
      requires Valid()
      modifies vga.frame
      ensures Valid() && (active ==> Synced())
    {
      if active {
        vga.SyncBuffer(chars, color);
      }
    }

    /** `clear_row`. */
    method ClearRow(row: nat)
      requires chars.Length0 == HEIGHT && chars.Length1 == WIDTH && row < HEIGHT
      modifies chars
      ensures forall r, c :: 0 <= r < HEIGHT && 0 <= c < WIDTH ==>
          chars[r, c] == if r == row then BLANK else old(chars[r, c])
    {
      for col := 0 to WIDTH
        invariant forall r, c :: 0 <= r < HEIGHT && 0 <= c < WIDTH ==>
                    chars[r, c] == if r == row && c < col then BLANK else old(chars[r, c])
      {
        chars[row, col] := BLANK;
      }
    }

    /** The loop of `new_line`: every row moves up by one. */
    method ScrollUp()
      requires chars.Length0 == HEIGHT && chars.Length1 == WIDTH
      modifies chars
      ensures forall r, c :: 0 <= r < HEIGHT - 1 && 0 <= c < WIDTH ==> chars[r, c] == old(chars[r + 1, c])
    {
      for row := 1 to HEIGHT
        invariant forall r, c :: 0 <= r < row - 1 && 0 <= c < WIDTH ==> chars[r, c] == old(chars[r + 1, c])
        invariant forall r, c :: row - 1 <= r < HEIGHT && 0 <= c < WIDTH ==> chars[r, c] == old(chars[r, c])
      {
        for col := 0 to WIDTH
          invariant forall r, c :: 0 <= r < row - 1 && 0 <= c < WIDTH ==> chars[r, c] == old(chars[r + 1, c])
          invariant forall c :: 0 <= c < col ==> chars[row - 1, c] == old(chars[row, c])
          invariant forall r, c :: row <= r < HEIGHT && 0 <= c < WIDTH ==> chars[r, c] == old(chars[r, c])
        {
          chars[row - 1, col] := chars[row, col];
        }
      }
    }

    /** `new_line`: the screen scrolls by one line. */
    method NewLine()
      requires Valid()
      modifies this, chars, vga.frame
      ensures Valid() && log == old(log) + [[]] && active == old(active) && color == old(color) && (active ==> Synced())
    {
      hide Cell;
      ScrollUp();
      ClearRow(HEIGHT - 1);
      column := 0;
      ghost var before := log;
      log := log + [[]];
      forall r, c | 0 <= r < HEIGHT && 0 <= c < WIDTH
        ensures chars[r, c] == Cell(log, r, c)
      {
        NewLineScrolls(before, r, c);
      }
      Sync();
    }

    /** `delete_byte`. */
    method DeleteByte()
      requires Valid()
      modifies this, chars, vga.frame
      ensures Valid() && log == Put(old(log), BACKSPACE) && active == old(active) && color == old(color)
      ensures active && old(column) > 0 ==> Synced()
    {
      if column == 0 {
        return;
      }
      ghost var line := LastLine(log);
      chars[HEIGHT - 1, column - 1] := BLANK;
      column := column - 1;
      log := WithLast(log, line[..|line| - 1]);
      Sync();
    }

    /** The catch-all arm of `write_byte`. */
    method WriteChar(byte: Byte)
      requires Valid()
      modifies this, chars, vga.frame
      ensures Valid() && log == PutChar(old(log), byte) && active == old(active) && color == old(color)
    {
      ghost var before := log;
      if column >= WIDTH {
        NewLine();
      }
      ghost var line := LastLine(log);
      chars[HEIGHT - 1, column] := byte;
      column := column + 1;
      log := WithLast(log, line + [byte]);
      if |LastLine(before)| >= WIDTH {
        assert line + [byte] == [byte];
        assert log == before + [[byte]];
      }
    }

    /** `write_byte`: the screen shows the log with the byte written, and an active buffer
        is on the device. */
    method WriteByte(byte: Byte)
      requires Valid()
      modifies this, chars, vga.frame
      ensures Valid() && log == Put(old(log), byte) && active == old(active) && color == old(color)
      ensures active ==> Synced()
      decreases byte == TAB
    {
      if byte == NEWLINE {
        NewLine();
      } else if byte == BACKSPACE {
        DeleteByte();
      } else if byte == TAB {
        for i := 0 to 4
          invariant Valid() && log == PutBlanks(old(log), i) && active == old(active) && color == old(color)
        {
          WriteByte(BLANK);
        }
      } else {
        WriteChar(byte);
      }
      Sync();
    }

    /** `write_str`. */
    method WriteStr(bytes: seq<Byte>)
      requires Valid()
      modifies this, chars, vga.frame
      ensures Valid() && log == PutAll(old(log), bytes) && active == old(active) && color == old(color)
      ensures active && bytes != [] ==> Synced()
    {
      for i := 0 to |bytes|
        invariant Valid() && log == PutAll(old(log), bytes[..i]) && active == old(active) && color == old(color)
        invariant active && i > 0 ==> Synced()
      {
        assert bytes[..i + 1][..i] == bytes[..i];
        WriteByte(bytes[i]);
      }
      assert bytes[..|bytes|] == bytes;
    }
  }
}
