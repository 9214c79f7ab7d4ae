/**
 The VGA `Writer` as the source runs it: an object over the 25 x 80 text buffer that it updates
 in place, cell by cell. Each method is proved to leave the buffer and the cursor exactly as the
 functional model in `VgaBuffer` says. The buffer is an ordinary array here; the volatile
 accesses of the source are plain reads and writes.
 */
module VgaText {
  import opened Options
  import opened VgaBuffer

  class TextWriter {
    var columnPosition: nat
    var colorCode: ColorCode
    const buffer: array2<ScreenChar>
    /** The functional state this object stands for. */
    ghost var model: VgaBuffer.Writer

    /** The array has the text buffer's shape, and the cursor, colour and cells are those of `model`. */
    ghost predicate Valid()
      reads this, buffer
    {
      && buffer.Length0 == BUFFER_HEIGHT && buffer.Length1 == BUFFER_WIDTH
      && VgaBuffer.Valid(model)
      && model.columnPosition == columnPosition && model.colorCode == colorCode
      && forall r, c :: 0 <= r < BUFFER_HEIGHT && 0 <= c < BUFFER_WIDTH ==> buffer[r, c] == model.buffer[r][c]
    }

    /** The cells of a text-buffer-shaped array, row by row. */
    static ghost function Cells(a: array2<ScreenChar>): (s: Screen)
      requires a.Length0 == BUFFER_HEIGHT && a.Length1 == BUFFER_WIDTH
      reads a
      ensures IsScreen(s)
      ensures forall r, c :: 0 <= r < BUFFER_HEIGHT && 0 <= c < BUFFER_WIDTH ==> s[r][c] == a[r, c]
    {
      seq(BUFFER_HEIGHT, r requires 0 <= r < BUFFER_HEIGHT reads a =>
        seq(BUFFER_WIDTH, c requires 0 <= c < BUFFER_WIDTH reads a => a[r, c]))
    }

    /** A writer at column 0 over the given buffer, which keeps its current contents. */
    constructor (colorCode: ColorCode, buffer: array2<ScreenChar>)
      requires buffer.Length0 == BUFFER_HEIGHT && buffer.Length1 == BUFFER_WIDTH
      ensures Valid() && this.buffer == buffer
      ensures model == NewWriter(colorCode, Cells(buffer))
    {
      this.columnPosition := 0;
      this.colorCode := colorCode;
      this.buffer := buffer;
      this.model := NewWriter(colorCode, Cells(buffer));
    }

    /** `Writer::clear_row`. */
    method ClearRow(row: nat)
      requires Valid() && row < BUFFER_HEIGHT
      modifies this, buffer
      ensures Valid() && model == VgaBuffer.ClearRow(old(model), row)
    {
      var blank := ScreenChar(SPACE, colorCode);
      var col := 0;
      while col < BUFFER_WIDTH
        modifies buffer
        invariant 0 <= col <= BUFFER_WIDTH
        invariant forall c :: 0 <= c < col ==> buffer[row, c] == blank
        invariant forall r, c :: 0 <= r < BUFFER_HEIGHT && 0 <= c < BUFFER_WIDTH && (r != row || c >= col) ==>
          buffer[r, c] == model.buffer[r][c]
      {
        buffer[row, col] := blank;
        col := col + 1;
      }
      model := VgaBuffer.ClearRow(model, row);
    }

    /** `Writer::new_line`: copy rows 1..25 up by one, clear the bottom row, return to column 0. */
    method NewLine()
      requires Valid()
      modifies this, buffer
      ensures Valid() && model == VgaBuffer.NewLine(old(model))
    {
      var row := 1;
      while row < BUFFER_HEIGHT
        modifies buffer
        invariant 1 <= row <= BUFFER_HEIGHT
        invariant forall r, c :: 0 <= r < row - 1 && 0 <= c < BUFFER_WIDTH ==> buffer[r, c] == model.buffer[r + 1][c]
        invariant forall r, c :: row - 1 <= r < BUFFER_HEIGHT && 0 <= c < BUFFER_WIDTH ==> buffer[r, c] == model.buffer[r][c]
      {
        var above := row - 1;
        var col := 0;
        while col < BUFFER_WIDTH
          modifies buffer
          invariant 0 <= col <= BUFFER_WIDTH
          invariant forall r, c :: 0 <= r < row - 1 && 0 <= c < BUFFER_WIDTH ==> buffer[r, c] == model.buffer[r + 1][c]
          invariant forall c :: 0 <= c < col ==> buffer[above, c] == model.buffer[row][c]
          invariant forall c :: col <= c < BUFFER_WIDTH ==> buffer[above, c] == model.buffer[above][c]
          invariant forall r, c :: row <= r < BUFFER_HEIGHT && 0 <= c < BUFFER_WIDTH ==> buffer[r, c] == model.buffer[r][c]
        {
          var character := buffer[row, col];
          buffer[above, col] := character;
          col := col + 1;
        }
        row := row + 1;
      }
      model := CopyRowsUp(model);
      ClearRow(BOTTOM_ROW);
      columnPosition := 0;
      model := model.(columnPosition := 0);
    }

    /** `Writer::write_byte`. */
    method WriteByte(byte: bv8)
      requires Valid()
      modifies this, buffer
      ensures Valid() && model == VgaBuffer.WriteByte(old(model), byte)
    {
      if byte == NEWLINE {
        NewLine();
      } else {
        if columnPosition >= BUFFER_WIDTH {
          NewLine();
        }
        var row := BOTTOM_ROW;
        var col := columnPosition;
        var color := colorCode;
        buffer[row, col] := ScreenChar(byte, color);
        columnPosition := columnPosition + 1;
        model := PutChar(model, byte);
      }
    }

    /** `Writer::write_string`. */
    method WriteString(s: seq<bv8>)
      requires Valid()
      modifies this, buffer
      ensures Valid() && model == VgaBuffer.WriteString(old(model), s)
    {
      var i := 0;
      while i < |s|
        invariant 0 <= i <= |s|
        invariant Valid()
        invariant model == VgaBuffer.WriteString(old(model), s[..i])
      {
        var byte := s[i];
        if (0x20 <= byte <= 0x7e) || byte == NEWLINE {
          WriteByte(byte);
        } else {
          WriteByte(SUBSTITUTE);
        }
        WriteStringLastByte(old(model), s[..i], s[i]);
        assert s[..i + 1] == s[..i] + [s[i]];
        i := i + 1;
      }
      assert s[..i] == s;
    }

    /** `<Writer as Write>::write_str`. */
    method WriteStr(s: seq<bv8>) returns (r: Result<(), FmtError>)
      requires Valid()
      modifies this, buffer
      ensures r == Ok(())
      ensures Valid() && model == VgaBuffer.WriteString(old(model), s)
    {
      WriteString(s);
      r := Ok(());
    }
  }
}
