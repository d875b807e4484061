/**
 * The LCD: the text cursor and the image buffer of Screen (Screen.cpp),
 * the 992-byte packet ScreenWrite sends, and the glyphs of a font
 * (FontCharacter, Font) with the copy/rotate/invert of SetCharacter.
 *
 * Packets handed to the USB endpoint are appended to `sent`.
 */
module Screens {

  const SCREEN_BUFFER_SIZE: nat := 0x3c0
  const SCREEN_COLUMNS: nat := 160
  const SCREEN_ROWS: nat := 48
  const SCREEN_BYTES_PER_ROW: nat := SCREEN_COLUMNS / 8
  const SCREEN_BUF_SIZE: nat := SCREEN_ROWS * SCREEN_BYTES_PER_ROW
  const SCREEN_TEXT_CHAR_HEIGHT: nat := 8
  const SCREEN_TEXT_ROWS: nat := 160 / SCREEN_TEXT_CHAR_HEIGHT
  /** image_buf has 8 spare bytes after the 960 the display shows. */
  const IMAGE_LENGTH: nat := SCREEN_BUF_SIZE + 8
  const PACKET_LENGTH: nat := SCREEN_BUFFER_SIZE + 32
  const CHAR_BUF_SIZE: nat := 8
  const U32: int := 0x1_0000_0000

  lemma ScreenConstants()
    ensures SCREEN_BUF_SIZE == SCREEN_BUFFER_SIZE == 960 && IMAGE_LENGTH == 968 && PACKET_LENGTH == 992
    ensures SCREEN_TEXT_ROWS == 20 && SCREEN_BYTES_PER_ROW * 8 == SCREEN_COLUMNS
  {
  }

  // ----------------------------------------------------------------- glyphs

  function Bit(i: nat): bv8
    requires i < 8
  {
    (1 as bv8) << i
  }

  /** Bits 0..n-1 of the column byte: bit y is bit x of data[y]. */
  function ColumnBits(data: seq<bv8>, x: nat, n: nat): bv8
    requires x < 8 && n <= 8 && n <= |data|
  {
    if n == 0 then 0
    else ColumnBits(data, x, n - 1) | (if data[n - 1] & Bit(x) != 0 then Bit(n - 1) else 0)
  }

  /** Column x of an 8-row bitmap, as one byte. */
  function ColumnByte(data: seq<bv8>, x: nat): bv8
    requires x < 8 && 8 <= |data|
  {
    ColumnBits(data, x, 8)
  }

  lemma BitsDistinct(i: nat, j: nat)
    requires i < 8 && j < 8
    ensures Bit(i) & Bit(j) != 0 <==> i == j
  {
  }

  lemma {:induction false} ColumnBitsSpec(data: seq<bv8>, x: nat, n: nat, y: nat)
    requires x < 8 && n <= 8 && n <= |data| && y < 8
    ensures ColumnBits(data, x, n) & Bit(y) != 0 <==> y < n && data[y] & Bit(x) != 0
  {
    if n > 0 {
      ColumnBitsSpec(data, x, n - 1, y);
      BitsDistinct(n - 1, y);
      var prev := ColumnBits(data, x, n - 1);
      var add: bv8 := if data[n - 1] & Bit(x) != 0 then Bit(n - 1) else 0;
      assert (prev | add) & Bit(y) == (prev & Bit(y)) | (add & Bit(y));
    }
  }

  /** The transposition: bit y of column byte x is bit x of row byte y. */
  lemma ColumnByteSpec(data: seq<bv8>, x: nat, y: nat)
    requires x < 8 && y < 8 && 8 <= |data|
    ensures ColumnByte(data, x) & Bit(y) != 0 <==> data[y] & Bit(x) != 0
  {
    ColumnBitsSpec(data, x, 8, y);
  }

  /** What SetCharacter's data must provide: eight rows to rotate, or width bytes to copy. */
  predicate SetCharacterArgs(data: seq<bv8>, width: nat, flags: nat)
  {
    width <= CHAR_BUF_SIZE && (if flags % 2 == 1 then width == 0 || 8 <= |data| else width <= |data|)
  }

  /** bits_regular after SetCharacter: the glyph columns below width, zero above. */
  function RegularBits(data: seq<bv8>, width: nat, flags: nat): (r: seq<bv8>)
    requires SetCharacterArgs(data, width, flags)
    ensures |r| == CHAR_BUF_SIZE
  {
    seq(CHAR_BUF_SIZE, x requires 0 <= x < CHAR_BUF_SIZE =>
      if x >= width then 0 else if flags % 2 == 1 then ColumnByte(data, x) else data[x])
  }

  /** bits_inverted after SetCharacter: the complement below width, unchanged above. */
  function InvertedBits(prior: seq<bv8>, regular: seq<bv8>, width: nat): (r: seq<bv8>)
    requires |prior| == CHAR_BUF_SIZE && |regular| == CHAR_BUF_SIZE && width <= CHAR_BUF_SIZE
    ensures |r| == CHAR_BUF_SIZE
  {
    seq(CHAR_BUF_SIZE, x requires 0 <= x < CHAR_BUF_SIZE => if x < width then !regular[x] else prior[x])
  }

  /** The glyph SetCharacter stores, byte by byte and bit by bit. */
  lemma SetCharacterSpec(data: seq<bv8>, width: nat, flags: nat, prior: seq<bv8>)
    requires SetCharacterArgs(data, width, flags) && |prior| == CHAR_BUF_SIZE
    ensures var r := RegularBits(data, width, flags);
      (forall x | width <= x < CHAR_BUF_SIZE :: r[x] == 0) &&
      (flags % 2 == 0 ==> r[..width] == data[..width]) &&
      (flags % 2 == 1 ==> forall x, y | 0 <= x < width && 0 <= y < 8 ::
         r[x] & Bit(y) != 0 <==> data[y] & Bit(x) != 0)
    ensures var r := RegularBits(data, width, flags); var v := InvertedBits(prior, r, width);
      (forall x | 0 <= x < width :: v[x] & r[x] == 0 && v[x] | r[x] == 0xFF) &&
      v[width..] == prior[width..]
  {
    if flags % 2 == 1 {
      forall x, y | 0 <= x < width && 0 <= y < 8
        ensures RegularBits(data, width, flags)[x] & Bit(y) != 0 <==> data[y] & Bit(x) != 0
      {
        ColumnByteSpec(data, x, y);
      }
    }
  }

  /** FontCharacter: the regular and inverted bitmaps of one glyph. */
  class FontChar {
    const bitsRegular: array<bv8>
    const bitsInverted: array<bv8>

    predicate Valid()
    {
      bitsRegular.Length == CHAR_BUF_SIZE && bitsInverted.Length == CHAR_BUF_SIZE && bitsRegular != bitsInverted
    }

    /** FontCharacter(): both bitmaps zero. */
    constructor()
      ensures Valid() && fresh(bitsRegular) && fresh(bitsInverted)
      ensures bitsRegular[..] == seq(CHAR_BUF_SIZE, _ => 0) && bitsInverted[..] == seq(CHAR_BUF_SIZE, _ => 0)
    {
      bitsRegular := new bv8[CHAR_BUF_SIZE](_ => 0);
      bitsInverted := new bv8[CHAR_BUF_SIZE](_ => 0);
    }

    /**
     * SetCharacter: clear bits_regular, then fill its first width bytes by
     * transposing the 8-row bitmap (FF_ROTATE, the low flag bit) or by
     * copying data; then complement those bytes into bits_inverted.
     */
    method SetCharacter(data: seq<bv8>, width: nat, flags: nat)
      requires Valid() && SetCharacterArgs(data, width, flags)
      modifies bitsRegular, bitsInverted
      ensures bitsRegular[..] == RegularBits(data, width, flags)
      ensures bitsInverted[..] == InvertedBits(old(bitsInverted[..]), bitsRegular[..], width)
    {
      var dest := bitsRegular;
      forall i | 0 <= i < CHAR_BUF_SIZE {
        dest[i] := 0;
      }
      if flags % 2 == 1 {
        var x := 0;
        while x < width
          invariant 0 <= x <= width
          invariant forall k | 0 <= k < x :: dest[k] == ColumnByte(data, k)
          invariant forall k | x <= k < CHAR_BUF_SIZE :: dest[k] == 0
          invariant bitsInverted[..] == old(bitsInverted[..])
        {
          var xMask := Bit(x);
          var y := 0;
          while y < 8
            invariant 0 <= y <= 8
            invariant dest[x] == ColumnBits(data, x, y)
            invariant forall k | 0 <= k < x :: dest[k] == ColumnByte(data, k)
            invariant forall k | x < k < CHAR_BUF_SIZE :: dest[k] == 0
            invariant bitsInverted[..] == old(bitsInverted[..])
          {
            if data[y] & xMask != 0 {
              dest[x] := dest[x] | Bit(y);
            }
            y := y + 1;
          }
          x := x + 1;
        }
      } else {
        forall i | 0 <= i < width {
          dest[i] := data[i];
        }
      }
      assert dest[..] == RegularBits(data, width, flags);
      forall x | 0 <= x < width {
        bitsInverted[x] := !dest[x];
      }
    }
  }

  /** Font: a name, a glyph width and 256 glyphs. */
  class Font {
    const name: string
    const width: nat
    const chars: seq<FontChar>

    predicate Valid()
    {
      |chars| == 256 && forall i | 0 <= i < |chars| :: chars[i].Valid()
    }

    /** Every bitmap of the font. */
    function Bitmaps(): set<array<bv8>>
    {
      (set i | 0 <= i < |chars| :: chars[i].bitsRegular) + (set i | 0 <= i < |chars| :: chars[i].bitsInverted)
    }

    /** Font(name, width): 256 blank glyphs. */
    constructor(name: string, width: nat)
      ensures this.name == name && this.width == width && Valid()
      ensures forall i | 0 <= i < 256 :: chars[i].bitsRegular[..] == seq(CHAR_BUF_SIZE, _ => 0)
    {
      var cs: seq<FontChar> := [];
      for i := 0 to 256
        invariant |cs| == i
        invariant forall k | 0 <= k < i ::
                    (cs[k].Valid() && fresh(cs[k].bitsRegular) && cs[k].bitsRegular[..] == seq(CHAR_BUF_SIZE, _ => 0))
      {
        var fc := new FontChar();
        cs := cs + [fc];
      }
      this.name := name;
      this.width := width;
      chars := cs;
    }
  }

  /** What WriteChar copies for c: width bytes of its regular or inverted bitmap. */
  function Glyph(font: Font, c: char, inverted: bool): (g: seq<bv8>)
    requires font.Valid() && font.width <= CHAR_BUF_SIZE && (c as int) < 256
    reads font.Bitmaps()
    ensures |g| == font.width
  {
    var fc := font.chars[c as int];
    assert fc.bitsRegular in font.Bitmaps() && fc.bitsInverted in font.Bitmaps();
    if inverted then fc.bitsInverted[..font.width] else fc.bitsRegular[..font.width]
  }

  // ----------------------------------------------------------------- cursor

  datatype Cursor = Cursor(row: nat, col: nat)

  predicate OnScreen(cur: Cursor)
  {
    cur.row < SCREEN_TEXT_ROWS && cur.col < SCREEN_COLUMNS
  }

  /** ++cursor_row, wrapping at SCREEN_TEXT_ROWS. */
  function NextRow(row: nat): (r: nat)
    ensures r < SCREEN_TEXT_ROWS <== row < SCREEN_TEXT_ROWS
  {
    if row + 1 >= SCREEN_TEXT_ROWS then 0 else row + 1
  }

  /** Moving the column to col: past the last column it wraps to the start of the next row. */
  function MoveCol(cur: Cursor, col: nat): (r: Cursor)
    ensures OnScreen(cur) ==> OnScreen(r)
    ensures col < SCREEN_COLUMNS ==> r == cur.(col := col)
    ensures col >= SCREEN_COLUMNS ==> r == Cursor(NextRow(cur.row), 0)
  {
    if col >= SCREEN_COLUMNS then Cursor(NextRow(cur.row), 0) else cur.(col := col)
  }

  /** The cursor after WriteChar: one glyph width further. */
  function AdvanceChar(cur: Cursor, width: nat): Cursor
  {
    MoveCol(cur, cur.col + width)
  }

  /** The cursor after one character of WriteString. */
  function Advance(cur: Cursor, c: char, width: nat): Cursor
  {
    if c == '\n' then Cursor(NextRow(cur.row), 0)
    else if c == '\t' then MoveCol(cur, cur.col + (4 - cur.col % 4) + 1)
    else AdvanceChar(cur, width)
  }

  /** The cursor after every character of s. */
  function Walk(cur: Cursor, s: string, width: nat): (r: Cursor)
    ensures OnScreen(cur) ==> OnScreen(r)
  {
    if s == [] then cur else Advance(Walk(cur, s[..|s| - 1], width), s[|s| - 1], width)
  }

  /** image_byte_offset(row, col), in unsigned 32-bit arithmetic. */
  function ImageByteOffset(row: nat, col: nat): nat
    requires row < U32 && col < U32
  {
    (col + row / 8 * SCREEN_BYTES_PER_ROW * 8) % U32
  }

  /** Where WriteChar puts the glyph of a text cursor: pixel row row*8, so col + row*160. */
  function TextOffset(cur: Cursor): nat
  {
    cur.col + cur.row * SCREEN_COLUMNS
  }

  lemma ImageByteOffsetOfText(cur: Cursor)
    requires OnScreen(cur)
    ensures ImageByteOffset(cur.row * SCREEN_TEXT_CHAR_HEIGHT, cur.col) == TextOffset(cur)
  {
    assert cur.row * 8 / 8 == cur.row;
  }

  /** Different text cells start at different bytes. */
  lemma TextOffsetInjective(a: Cursor, b: Cursor)
    requires OnScreen(a) && OnScreen(b) && TextOffset(a) == TextOffset(b)
    ensures a == b
  {
  }

  /**
   * Of the 20 text rows only the first six fit the 968-byte image; row 6
   * reaches the 8 spare bytes, and rows 7 to 19 lie wholly outside.
   */
  lemma TextRowsThatFit(cur: Cursor, width: nat)
    requires OnScreen(cur) && width <= CHAR_BUF_SIZE
    ensures cur.row <= 5 ==> TextOffset(cur) + width <= IMAGE_LENGTH
    ensures cur.row == 6 ==> (TextOffset(cur) + width <= IMAGE_LENGTH <==> cur.col + width <= 8)
    ensures cur.row >= 7 ==> TextOffset(cur) > IMAGE_LENGTH
  {
  }

  /** s with its bytes from off replaced by g. */
  function Blit(img: seq<bv8>, off: nat, g: seq<bv8>): (r: seq<bv8>)
    requires off + |g| <= |img|
    ensures |r| == |img|
  {
    img[..off] + g + img[off + |g|..]
  }

  /** A glyph drawn at cur lands inside the 968-byte image, and c indexes one of the 256 glyphs. */
  predicate GlyphFits(cur: Cursor, c: char, width: nat)
  {
    (c as int) < 128 && TextOffset(cur) + width <= IMAGE_LENGTH
  }

  /** The image after WriteString has drawn every character of s that fits. */
  function Render(img: seq<bv8>, cur: Cursor, s: string, font: Font, inverted: bool): (r: seq<bv8>)
    requires |img| == IMAGE_LENGTH && font.Valid() && font.width <= CHAR_BUF_SIZE
    reads font.Bitmaps()
    ensures |r| == IMAGE_LENGTH
  {
    if s == [] then img
    else
      var front := s[..|s| - 1];
      var c := s[|s| - 1];
      var drawn := Render(img, cur, front, font, inverted);
      var at := Walk(cur, front, font.width);
      if c == '\n' || c == '\t' || !GlyphFits(at, c, font.width) then drawn
      else Blit(drawn, TextOffset(at), Glyph(font, c, inverted))
  }

  /** Newlines and tabs move the cursor as the source describes. */
  lemma AdvanceControls(cur: Cursor, width: nat)
    requires OnScreen(cur)
    ensures Advance(cur, '\n', width) == Cursor(NextRow(cur.row), 0)
    ensures var t := Advance(cur, '\t', width);
      (t.row == cur.row && t.col % 4 == 1 && cur.col < t.col <= cur.col + 5) ||
      (t == Cursor(NextRow(cur.row), 0) && cur.col >= SCREEN_COLUMNS - 5)
  {
  }

  /** 992 bytes: 0x03, 31 zero bytes, then the 960 image bytes. */
  function Packet(data: seq<bv8>): seq<bv8>
  {
    [3] + seq(31, _ => 0) + data
  }

  lemma PacketLayout(data: seq<bv8>)
    requires |data| == SCREEN_BUFFER_SIZE
    ensures var p := Packet(data);
      |p| == PACKET_LENGTH && p[0] == 0x03 && (forall i | 1 <= i < 32 :: p[i] == 0) && p[32..] == data
  {
  }

  // ----------------------------------------------------------------- screen

  class Screen {
    const image: array<bv8>
    var cursorRow: nat
    var cursorCol: nat
    var textMode: int
    /** The packets handed to the LCD endpoint, oldest first. */
    var sent: seq<seq<bv8>>

    predicate Valid()
      reads this
    {
      image.Length == IMAGE_LENGTH && OnScreen(Cursor(cursorRow, cursorCol))
    }

    function Cur(): Cursor
      reads this
    {
      Cursor(cursorRow, cursorCol)
    }

    /** Screen(keypad): cursor at the origin, text mode 0, image zero-filled. */
    constructor()
      ensures Valid() && fresh(image) && Cur() == Cursor(0, 0) && textMode == 0 && sent == []
      ensures image[..] == seq(IMAGE_LENGTH, _ => 0)
    {
      image := new bv8[IMAGE_LENGTH](_ => 0);
      cursorRow := 0;
      cursorCol := 0;
      textMode := 0;
      sent := [];
    }

    method SetTextMode(newTextMode: int)
      modifies this
      ensures textMode == newTextMode && Cur() == old(Cur()) && sent == old(sent)
    {
      textMode := newTextMode;
    }

    /** image_clear: zero the 960 shown bytes; the 8 spare bytes keep their value. */
    method ImageClear()
      requires Valid()
      modifies image
      ensures image[..SCREEN_BUF_SIZE] == seq(SCREEN_BUF_SIZE, _ => 0)
      ensures image[SCREEN_BUF_SIZE..] == old(image[SCREEN_BUF_SIZE..])
    {
      forall i | 0 <= i < SCREEN_BUF_SIZE {
        image[i] := 0;
      }
    }

    /**
     * ScreenWrite: any size but 960 is rejected; otherwise a 992-byte
     * packet, 0x03 then zeros then the data from byte 32, goes out.
     */
    method ScreenWrite(data: seq<bv8>)
      modifies this
      ensures Cur() == old(Cur()) && textMode == old(textMode)
      ensures |data| != SCREEN_BUFFER_SIZE ==> sent == old(sent)
      ensures |data| == SCREEN_BUFFER_SIZE ==> sent == old(sent) + [Packet(data)]
    {
      if |data| != SCREEN_BUFFER_SIZE {
        return;
      }
      var buffer := new bv8[PACKET_LENGTH](_ => 0);
      buffer[0] := 0x03;
      forall i | 0 <= i < SCREEN_BUFFER_SIZE {
        buffer[i + 32] := data[i];
      }
      assert buffer[..] == Packet(data);
      sent := sent + [buffer[..]];
    }

    /** image_send: the 960 shown bytes go out as one packet. */
    method ImageSend()
      requires Valid()
      modifies this
      ensures Cur() == old(Cur()) && textMode == old(textMode)
      ensures sent == old(sent) + [Packet(image[..SCREEN_BUF_SIZE])]
    {
      ScreenWrite(image[..SCREEN_BUF_SIZE]);
    }

    /**
     * WritePos: store the (signed int) arguments in the unsigned cursor;
     * a column past the screen or a row past the text rows, negative
     * values included, becomes 0.
     */
    method WritePos(row: int, col: int)
      requires -0x8000_0000 <= row < 0x8000_0000 && -0x8000_0000 <= col < 0x8000_0000
      modifies this
      ensures Valid() == (image.Length == IMAGE_LENGTH)
      ensures cursorRow == (if 0 <= row < SCREEN_TEXT_ROWS then row else 0)
      ensures cursorCol == (if 0 <= col < SCREEN_COLUMNS then col else 0)
      ensures textMode == old(textMode) && sent == old(sent)
    {
      cursorRow := row % U32;
      cursorCol := col % U32;
      if cursorCol >= SCREEN_COLUMNS {
        cursorCol := 0;
      }
      if cursorRow >= SCREEN_TEXT_ROWS {
        cursorRow := 0;
      }
    }

    /**
     * WriteChar at the cursor: advance the cursor by the font width, then
     * copy the glyph (inverted in a non-zero text mode) to the cell the
     * cursor was at.  A glyph that would not fit the image is not drawn.
     */
    method WriteChar(font: Font, c: char)
      requires Valid() && font.Valid() && font.width <= CHAR_BUF_SIZE
      modifies this, image
      ensures Valid() && Cur() == AdvanceChar(old(Cur()), font.width)
      ensures old(GlyphFits(Cur(), c, font.width)) ==>
        image[..] == Blit(old(image[..]), TextOffset(old(Cur())), old(Glyph(font, c, textMode != 0)))
      ensures !old(GlyphFits(Cur(), c, font.width)) ==> image[..] == old(image[..])
      ensures textMode == old(textMode) && sent == old(sent)
    {
      var fits := GlyphFits(Cur(), c, font.width);
      var row := cursorRow;
      var col := cursorCol;
      cursorCol := cursorCol + font.width;
      if cursorCol >= SCREEN_COLUMNS {
        cursorCol := 0;
        cursorRow := NextRow(cursorRow);
      }
      if !fits {
        return;
      }
      ImageByteOffsetOfText(Cursor(row, col));
      var offset := ImageByteOffset(row * SCREEN_TEXT_CHAR_HEIGHT, col);
      var g := Glyph(font, c, textMode != 0);
      forall k | 0 <= k < font.width {
        image[offset + k] := g[k];
      }
      assert image[..] == Blit(old(image[..]), offset, g);
    }

    /**
     * WriteString: '\n' starts the next row, '\t' moves to the next
     * multiple of 4 plus one, every other character goes through
     * WriteChar; then the image is sent.
     */
    method WriteString(font: Font, s: string)
      requires Valid() && font.Valid() && font.width <= CHAR_BUF_SIZE
      modifies this, image
      ensures Valid() && Cur() == Walk(old(Cur()), s, font.width)
      ensures image[..] == old(Render(image[..], Cur(), s, font, textMode != 0))
      ensures textMode == old(textMode)
      ensures sent == old(sent) + [Packet(image[..SCREEN_BUF_SIZE])]
    {
      ghost var cur0, image0, mode0 := Cur(), image[..], textMode;
      var i := 0;
      while i < |s|
        invariant 0 <= i <= |s| && Valid()
        invariant Cur() == Walk(cur0, s[..i], font.width)
        invariant image[..] == Render(image0, cur0, s[..i], font, mode0 != 0)
        invariant textMode == mode0 && sent == old(sent)
      {
        WriteNext(font, s, i, cur0, image0);
        i := i + 1;
      }
      assert s[..i] == s;
      assert image !in font.Bitmaps();
      ImageSend();
    }

    /** One character of WriteString: a newline, a tab or a glyph. */
    method WriteNext(font: Font, s: string, i: nat, ghost cur0: Cursor, ghost image0: seq<bv8>)
      requires Valid() && font.Valid() && font.width <= CHAR_BUF_SIZE && i < |s|
      requires Cur() == Walk(cur0, s[..i], font.width)
      requires |image0| == IMAGE_LENGTH && image[..] == Render(image0, cur0, s[..i], font, textMode != 0)
      modifies this, image
      ensures Valid() && Cur() == Walk(cur0, s[..i + 1], font.width)
      ensures image[..] == Render(image0, cur0, s[..i + 1], font, textMode != 0)
      ensures textMode == old(textMode) && sent == old(sent)
    {
      assert s[..i + 1][..i] == s[..i];
      assert image !in font.Bitmaps();
      if s[i] == '\n' || s[i] == '\t' {
        MoveCursor(s[i], font.width);
      } else {
        WriteChar(font, s[i]);
      }
    }

    /** A newline goes to the start of the next row; a tab to one past the next multiple of 4, wrapping. */
    method MoveCursor(c: char, width: nat)
      requires Valid() && (c == '\n' || c == '\t')
      modifies this`cursorCol, this`cursorRow
      ensures Valid() && Cur() == Advance(old(Cur()), c, width)
    {
      if c == '\n' {
        cursorCol := 0;
        cursorRow := NextRow(cursorRow);
      } else {
        cursorCol := cursorCol + (4 - cursorCol % 4);
        cursorCol := cursorCol + 1;
        if cursorCol >= SCREEN_COLUMNS {
          cursorCol := 0;
          cursorRow := NextRow(cursorRow);
        }
      }
    }
  }

}
