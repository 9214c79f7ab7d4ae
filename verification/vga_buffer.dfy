/**
 A functional model of the VGA text-mode `Writer` (src/vga_buffer.rs): a 25 x 80 grid of
 (character, colour) cells and a cursor column on the bottom row. Writing a byte either scrolls
 (newline), or wraps then writes, or just writes at the cursor; strings are written byte by byte
 with unprintable bytes shown as 0xfe.
 */
module VgaBuffer {
  import opened Options

  const BUFFER_WIDTH: nat := 80
  const BUFFER_HEIGHT: nat := 25
  /** `BUFFER_HEIGHT - 1`: the row the writer writes into. */
  const BOTTOM_ROW: nat := BUFFER_HEIGHT - 1

  const NEWLINE: bv8 := 0x0a
  const SPACE: bv8 := 0x20
  /** Code-page-437 `■`, shown in place of bytes the text mode cannot print. */
  const SUBSTITUTE: bv8 := 0xfe

  /** The sixteen VGA text-mode colours, with the discriminants `as u8` gives them. */
  datatype Color =
    | Black | Blue | Green | Cyan | Red | Magenta | Brown | LightGray
    | DarkGray | LightBlue | LightGreen | LightCyan | LightRed | Pink | Yellow | White

  /** `color as u8`. */
  function ColorValue(c: Color): (v: bv8)
    ensures v < 16
  {
    match c
    case Black => 0
    case Blue => 1
    case Green => 2
    case Cyan => 3
    case Red => 4
    case Magenta => 5
    case Brown => 6
    case LightGray => 7
    case DarkGray => 8
    case LightBlue => 9
    case LightGreen => 10
    case LightCyan => 11
    case LightRed => 12
    case Pink => 13
    case Yellow => 14
    case White => 15
  }

  /** The colour with a given 4-bit value. */
  function ColorOfValue(v: bv8): (c: Color)
    requires v < 16
    ensures ColorValue(c) == v
  {
    if v == 0 then Black else if v == 1 then Blue else if v == 2 then Green else if v == 3 then Cyan
    else if v == 4 then Red else if v == 5 then Magenta else if v == 6 then Brown else if v == 7 then LightGray
    else if v == 8 then DarkGray else if v == 9 then LightBlue else if v == 10 then LightGreen
    else if v == 11 then LightCyan else if v == 12 then LightRed else if v == 13 then Pink
    else if v == 14 then Yellow else White
  }

  /** Distinct colours have distinct values, so a value names one colour. */
  lemma ColorValueInjective(c: Color)
    ensures ColorOfValue(ColorValue(c)) == c
  {
  }

  /** `ColorCode`: one attribute byte, foreground in the low nibble and background in the high nibble. */
  datatype ColorCode = ColorCode(value: bv8)

  /** `ColorCode::new`: `(background as u8) << 4 | (foreground as u8)`. */
  function NewColorCode(foreground: Color, background: Color): (cc: ColorCode)
    ensures cc.value as int == 16 * ColorValue(background) as int + ColorValue(foreground) as int
  {
    ColorCode((ColorValue(background) << 4) | ColorValue(foreground))
  }

  /** The foreground colour stored in the low nibble. */
  function Foreground(cc: ColorCode): Color {
    ColorOfValue(cc.value & 0x0f)
  }

  /** The background colour stored in the high nibble. */
  function Background(cc: ColorCode): Color {
    ColorOfValue(cc.value >> 4)
  }

  /** Both colours can be read back from the attribute byte. */
  lemma ColorCodeRoundTrip(foreground: Color, background: Color)
    ensures Foreground(NewColorCode(foreground, background)) == foreground
    ensures Background(NewColorCode(foreground, background)) == background
  {
    var f, b := ColorValue(foreground), ColorValue(background);
    assert ((b << 4) | f) & 0x0f == f;
    assert ((b << 4) | f) >> 4 == b;
    ColorValueInjective(foreground);
    ColorValueInjective(background);
  }

  /** Two colour pairs give the same attribute byte exactly when they are the same pair. */
  lemma ColorCodeInjective(fg1: Color, bg1: Color, fg2: Color, bg2: Color)
    ensures NewColorCode(fg1, bg1) == NewColorCode(fg2, bg2) <==> fg1 == fg2 && bg1 == bg2
  {
    ColorCodeRoundTrip(fg1, bg1);
    ColorCodeRoundTrip(fg2, bg2);
  }

  /** `ScreenChar`: a character byte and its attribute byte. */
  datatype ScreenChar = ScreenChar(asciiCharacter: bv8, colorCode: ColorCode)

  type Row = seq<ScreenChar>

  /** The cells of the text buffer, row by row. */
  type Screen = seq<Row>

  predicate IsScreen(s: Screen) {
    |s| == BUFFER_HEIGHT && forall r :: 0 <= r < |s| ==> |s[r]| == BUFFER_WIDTH
  }

  /** `Writer`: the cursor column in the bottom row, the current colour, and the buffer. */
  datatype Writer = Writer(columnPosition: nat, colorCode: ColorCode, buffer: Screen)

  /** The buffer has 25 rows of 80 cells and the cursor is within `0..=BUFFER_WIDTH`. */
  predicate Valid(w: Writer) {
    IsScreen(w.buffer) && w.columnPosition <= BUFFER_WIDTH
  }

  /** A fresh writer as the global `WRITER` is created: column 0, over some screen contents. */
  function NewWriter(colorCode: ColorCode, buffer: Screen): (w: Writer)
    requires IsScreen(buffer)
    ensures Valid(w) && w.columnPosition == 0
  {
    Writer(0, colorCode, buffer)
  }

  /** The blank `clear_row` writes: a space in the current colour. */
  function Blank(cc: ColorCode): ScreenChar {
    ScreenChar(SPACE, cc)
  }

  function BlankRow(cc: ColorCode): (row: Row)
    ensures |row| == BUFFER_WIDTH
    ensures forall c :: 0 <= c < |row| ==> row[c] == Blank(cc)
  {
    seq(BUFFER_WIDTH, _ => Blank(cc))
  }

  /** `w2`'s buffer is `w1`'s scrolled up by one row: row r-1 holds the old row r, the old row 0 is gone,
      and the bottom row is blank in `w1`'s colour. */
  ghost predicate ScrolledUp(w1: Writer, w2: Writer)
    requires Valid(w1) && Valid(w2)
  {
    && (forall r, c :: 1 <= r < BUFFER_HEIGHT && 0 <= c < BUFFER_WIDTH ==> w2.buffer[r - 1][c] == w1.buffer[r][c])
    && (forall c :: 0 <= c < BUFFER_WIDTH ==> w2.buffer[BOTTOM_ROW][c] == Blank(w1.colorCode))
  }

  /** `Writer::clear_row`: row `row` becomes blanks in the current colour; nothing else changes. */
  function ClearRow(w: Writer, row: nat): (w': Writer)
    requires Valid(w) && row < BUFFER_HEIGHT
    ensures Valid(w')
    ensures w'.columnPosition == w.columnPosition && w'.colorCode == w.colorCode
    ensures forall c :: 0 <= c < BUFFER_WIDTH ==> w'.buffer[row][c] == Blank(w.colorCode)
    ensures forall r, c :: 0 <= r < BUFFER_HEIGHT && r != row && 0 <= c < BUFFER_WIDTH ==>
      w'.buffer[r][c] == w.buffer[r][c]
  {
    w.(buffer := w.buffer[row := BlankRow(w.colorCode)])
  }

  /** The copy loop of `new_line`: each row r in 1..25 is copied into row r-1; the bottom row keeps its cells. */
  function CopyRowsUp(w: Writer): (w': Writer)
    requires Valid(w)
    ensures Valid(w')
    ensures w'.columnPosition == w.columnPosition && w'.colorCode == w.colorCode
    ensures forall r, c :: 1 <= r < BUFFER_HEIGHT && 0 <= c < BUFFER_WIDTH ==> w'.buffer[r - 1][c] == w.buffer[r][c]
    ensures forall c :: 0 <= c < BUFFER_WIDTH ==> w'.buffer[BOTTOM_ROW][c] == w.buffer[BOTTOM_ROW][c]
  {
    w.(buffer := w.buffer[1..] + [w.buffer[BOTTOM_ROW]])
  }

  /** `Writer::new_line`: scroll every row up, blank the bottom row, return the cursor to column 0. */
  function NewLine(w: Writer): (w': Writer)
    requires Valid(w)
    ensures Valid(w') && ScrolledUp(w, w')
    ensures w'.columnPosition == 0 && w'.colorCode == w.colorCode
  {
    ClearRow(CopyRowsUp(w), BOTTOM_ROW).(columnPosition := 0)
  }

  /** The store of `write_byte`: the character in the current colour at the bottom row, cursor column;
      then the cursor advances. */
  function PutChar(w: Writer, byte: bv8): (w': Writer)
    requires Valid(w) && w.columnPosition < BUFFER_WIDTH
    ensures Valid(w')
    ensures w'.colorCode == w.colorCode && w'.columnPosition == w.columnPosition + 1
    ensures w'.buffer[BOTTOM_ROW][w.columnPosition] == ScreenChar(byte, w.colorCode)
    ensures forall r, c :: 0 <= r < BUFFER_HEIGHT && 0 <= c < BUFFER_WIDTH && (r, c) != (BOTTOM_ROW, w.columnPosition) ==>
      w'.buffer[r][c] == w.buffer[r][c]
  {
    var row := BOTTOM_ROW;
    var col := w.columnPosition;
    w.(buffer := w.buffer[row := w.buffer[row][col := ScreenChar(byte, w.colorCode)]], columnPosition := col + 1)
  }

  /** `Writer::write_byte`. */
  function WriteByte(w: Writer, byte: bv8): (w': Writer)
    requires Valid(w)
    ensures Valid(w') && w'.colorCode == w.colorCode
    // a newline writes no cell: it scrolls and returns to column 0
    ensures byte == NEWLINE ==> ScrolledUp(w, w') && w'.columnPosition == 0
    // room on the line: one cell written at the cursor, which advances by one
    ensures byte != NEWLINE && w.columnPosition < BUFFER_WIDTH ==>
      && w'.columnPosition == w.columnPosition + 1
      && w'.buffer[BOTTOM_ROW][w.columnPosition] == ScreenChar(byte, w.colorCode)
      && forall r, c :: 0 <= r < BUFFER_HEIGHT && 0 <= c < BUFFER_WIDTH && (r, c) != (BOTTOM_ROW, w.columnPosition) ==>
           w'.buffer[r][c] == w.buffer[r][c]
    // full line: scroll first, then the byte lands at column 0
    ensures byte != NEWLINE && w.columnPosition >= BUFFER_WIDTH ==>
      && w'.columnPosition == 1
      && w'.buffer[BOTTOM_ROW][0] == ScreenChar(byte, w.colorCode)
      && (forall r, c :: 1 <= r < BUFFER_HEIGHT && 0 <= c < BUFFER_WIDTH ==> w'.buffer[r - 1][c] == w.buffer[r][c])
      && (forall c :: 1 <= c < BUFFER_WIDTH ==> w'.buffer[BOTTOM_ROW][c] == Blank(w.colorCode))
  {
    if byte == NEWLINE then NewLine(w)
    else
      var w1 := if w.columnPosition >= BUFFER_WIDTH then NewLine(w) else w;
      PutChar(w1, byte)
  }

  /** The bytes `write_string` passes through unchanged: printable ASCII `0x20..=0x7e` and newline. */
  predicate Printable(byte: bv8) {
    (0x20 <= byte <= 0x7e) || byte == NEWLINE
  }

  /** The byte `write_string` hands to `write_byte` for an input byte. */
  function Displayed(byte: bv8): (shown: bv8)
    ensures Printable(byte) ==> shown == byte
    ensures !Printable(byte) ==> shown == SUBSTITUTE
    // only a newline byte becomes a newline, and everything else becomes a character the screen can show
    ensures shown == NEWLINE <==> byte == NEWLINE
    ensures shown != NEWLINE ==> Displayable(shown)
  {
    if Printable(byte) then byte else SUBSTITUTE
  }

  /** `Writer::write_string`: one `write_byte` per input byte, in order, with unprintable bytes replaced. */
  function WriteString(w: Writer, s: seq<bv8>): (w': Writer)
    requires Valid(w)
    ensures Valid(w') && w'.colorCode == w.colorCode
    decreases |s|
  {
    if s == [] then w else WriteString(WriteByte(w, Displayed(s[0])), s[1..])
  }

  /** `core::fmt::Error`, which `write_str` never returns. */
  datatype FmtError = FmtError

  /** `<Writer as Write>::write_str`: writes the string's bytes and always reports success. */
  function WriteStr(w: Writer, s: seq<bv8>): (r: (Result<(), FmtError>, Writer))
    requires Valid(w)
    ensures r.0 == Ok(())
    ensures Valid(r.1) && r.1 == WriteString(w, s)
  {
    (Ok(()), WriteString(w, s))
  }

  // ---------------------------------------------------------------------------------------------
  // Properties of writing strings
  // ---------------------------------------------------------------------------------------------

  /** Writing `s + t` is writing `s`, then writing `t`. */
  lemma {:induction false} WriteStringAppend(w: Writer, s: seq<bv8>, t: seq<bv8>)
    requires Valid(w)
    ensures WriteString(w, s + t) == WriteString(WriteString(w, s), t)
    decreases |s|
  {
    if s == [] {
      assert s + t == t;
    } else {
      assert (s + t)[0] == s[0];
      assert (s + t)[1..] == s[1..] + t;
      WriteStringAppend(WriteByte(w, Displayed(s[0])), s[1..], t);
    }
  }

  /** The last byte of a string is one more `write_byte` after the rest. */
  lemma WriteStringLastByte(w: Writer, s: seq<bv8>, byte: bv8)
    requires Valid(w)
    ensures WriteString(w, s + [byte]) == WriteByte(WriteString(w, s), Displayed(byte))
  {
    WriteStringAppend(w, s, [byte]);
    assert [byte][1..] == [];
  }

  /** A string without newlines that fits on the current line lands in the bottom row from the cursor on,
      each byte as itself or as 0xfe; the cursor ends just past it and no other cell changes. */
  lemma {:induction false} WriteStringWithinLine(w: Writer, s: seq<bv8>)
    requires Valid(w)
    requires forall k :: 0 <= k < |s| ==> s[k] != NEWLINE
    requires w.columnPosition + |s| <= BUFFER_WIDTH
    ensures WriteString(w, s).columnPosition == w.columnPosition + |s|
    ensures forall k :: 0 <= k < |s| ==>
      WriteString(w, s).buffer[BOTTOM_ROW][w.columnPosition + k] == ScreenChar(Displayed(s[k]), w.colorCode)
    ensures forall r, c ::
      0 <= r < BUFFER_HEIGHT && 0 <= c < BUFFER_WIDTH && !(r == BOTTOM_ROW && w.columnPosition <= c < w.columnPosition + |s|)
      ==> WriteString(w, s).buffer[r][c] == w.buffer[r][c]
    decreases |s|
  {
    if s != [] {
      var prefix := s[..|s| - 1];
      var last := s[|s| - 1];
      assert s == prefix + [last];
      WriteStringWithinLine(w, prefix);
      WriteStringLastByte(w, prefix, last);
      var w1 := WriteString(w, prefix);
      assert Displayed(last) != NEWLINE;
      forall k | 0 <= k < |s|
        ensures WriteString(w, s).buffer[BOTTOM_ROW][w.columnPosition + k] == ScreenChar(Displayed(s[k]), w.colorCode)
      {
        if k < |prefix| {
          assert s[k] == prefix[k];
        }
      }
    }
  }

  /** A string ending in a newline leaves the cursor at column 0 of a blank bottom row. */
  lemma WriteLineEndsOnBlankRow(w: Writer, s: seq<bv8>)
    requires Valid(w)
    ensures WriteString(w, s + [NEWLINE]).columnPosition == 0
    ensures forall c :: 0 <= c < BUFFER_WIDTH ==> WriteString(w, s + [NEWLINE]).buffer[BOTTOM_ROW][c] == Blank(w.colorCode)
  {
    WriteStringLastByte(w, s, NEWLINE);
  }

  /** Character bytes `write_string` can leave on the screen: printable ASCII or the 0xfe substitute. */
  predicate Displayable(byte: bv8) {
    (0x20 <= byte <= 0x7e) || byte == SUBSTITUTE
  }

  ghost predicate ScreenDisplayable(w: Writer)
    requires Valid(w)
  {
    forall r, c :: 0 <= r < BUFFER_HEIGHT && 0 <= c < BUFFER_WIDTH ==> Displayable(w.buffer[r][c].asciiCharacter)
  }

  lemma WriteByteKeepsScreenDisplayable(w: Writer, byte: bv8)
    requires Valid(w) && ScreenDisplayable(w)
    requires byte == NEWLINE || Displayable(byte)
    ensures ScreenDisplayable(WriteByte(w, byte))
  {
    var w' := WriteByte(w, byte);
    forall r, c | 0 <= r < BUFFER_HEIGHT && 0 <= c < BUFFER_WIDTH
      ensures Displayable(w'.buffer[r][c].asciiCharacter)
    {
      if byte != NEWLINE && w.columnPosition >= BUFFER_WIDTH && r < BOTTOM_ROW {
        assert w'.buffer[r][c] == w.buffer[r + 1][c];
      } else if byte == NEWLINE && r < BOTTOM_ROW {
        assert w'.buffer[r][c] == w.buffer[r + 1][c];
      }
    }
  }

  /** Whatever string is written, a screen holding only printable characters and 0xfe keeps holding only those. */
  lemma {:induction false} WriteStringKeepsScreenDisplayable(w: Writer, s: seq<bv8>)
    requires Valid(w) && ScreenDisplayable(w)
    ensures ScreenDisplayable(WriteString(w, s))
    decreases |s|
  {
    if s != [] {
      WriteByteKeepsScreenDisplayable(w, Displayed(s[0]));
      WriteStringKeepsScreenDisplayable(WriteByte(w, Displayed(s[0])), s[1..]);
    }
  }
}
