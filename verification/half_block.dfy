/**
 * gambatte-terminal.py: the byte template of a half-block frame and the
 * painter that overwrites its colour fields in place.
 *
 * The 160x144 picture is shown as 72 text rows. Each text cell holds one
 * column of two vertically adjacent pixels: an upper-half-block glyph
 * (U+2580) whose foreground colour is the upper pixel and whose background
 * colour is the lower pixel. Colours are SGR direct-colour sequences
 * (ECMA-48 section 8.3.117, in the `38;2;r;g;b` / `48;2;r;g;b` form of
 * ITU-T T.416), each with an 11-byte `rrr;ggg;bbb` field. The frame starts
 * with ED 3 and CUP 1;1 (ECMA-48 sections 8.3.39 and 8.3.21) and every text
 * row ends with SGR 0 and a line feed.
 */
module HalfBlock {
  import opened Common

  const ScreenWidth := 160
  const ScreenHeight := 144
  /** `144 // 2` text rows. */
  const RowPairs := 72
  const HeaderSize := 10
  const CellSize := 41
  const RowEndSize := 5
  const FieldSize := 11

  const Esc: Byte := 0x1B
  const Bracket: Byte := '[' as int
  const Semicolon: Byte := ';' as int

  /** `CSI 3J` then `CSI 1;1H`. */
  const Header: seq<Byte> := [Esc, Bracket, '3' as int, 'J' as int, Esc, Bracket, '1' as int, Semicolon, '1' as int, 'H' as int]
  /** `CSI 38;2;` */
  const FgPrefix: seq<Byte> := [Esc, Bracket, '3' as int, '8' as int, Semicolon, '2' as int, Semicolon]
  /** `CSI 48;2;` */
  const BgPrefix: seq<Byte> := [Esc, Bracket, '4' as int, '8' as int, Semicolon, '2' as int, Semicolon]
  const SgrEnd: seq<Byte> := ['m' as int]
  /** U+2580 UPPER HALF BLOCK in UTF-8. */
  const UpperHalfBlock: seq<Byte> := [0xE2, 0x96, 0x80]
  /** `CSI 0m` then a line feed. */
  const RowEnd: seq<Byte> := [Esc, Bracket, '0' as int, 'm' as int, '\n' as int]
  /** The colour field of a black pixel: `000;000;000`. */
  const BlackField: seq<Byte> := ['0' as int, '0' as int, '0' as int, Semicolon, '0' as int, '0' as int, '0' as int, Semicolon, '0' as int, '0' as int, '0' as int]
  /** `CSI 38;2;000;000;000m` and `CSI 48;2;000;000;000m`, the two colour sequences make_data writes per cell. */
  const BlackForeground: seq<Byte> := FgPrefix + BlackField + SgrEnd
  const BlackBackground: seq<Byte> := BgPrefix + BlackField + SgrEnd

  /** An 11-byte `rrr;ggg;bbb` colour field. */
  type Field = s: seq<Byte> | |s| == FieldSize witness BlackField

  const ZeroDigit: Byte := '0' as int

  predicate IsDigitByte(b: Byte)
  {
    ZeroDigit <= b <= ZeroDigit + 9
  }

  /** `%03d` of a value below 1000: three decimal digits, zero-padded. */
  function Pad3(v: nat): (r: seq<Byte>)
    requires v < 1000
    ensures |r| == 3
    ensures forall i :: 0 <= i < 3 ==> IsDigitByte(r[i])
  {
    [ZeroDigit + v / 100, ZeroDigit + v / 10 % 10, ZeroDigit + v % 10]
  }

  /** The red, green and blue channels of a pixel value. */
  datatype Rgb = Rgb(red: nat, green: nat, blue: nat)

  /** `(n >> 16) & 0xff`, `(n >> 8) & 0xff` and `n & 0xff`. */
  function Channels(n: int): (c: Rgb)
    ensures c.red < 256 && c.green < 256 && c.blue < 256
  {
    Rgb((n / 0x10000) % 256, (n / 0x100) % 256, n % 256)
  }

  /** int32_to_ansibytes: `b"%03d;%03d;%03d" % (r, g, b)`. */
  function Int32ToAnsiBytes(n: int): (r: Field)
    ensures r[3] == Semicolon && r[7] == Semicolon
    ensures forall i :: 0 <= i < FieldSize && i != 3 && i != 7 ==> IsDigitByte(r[i])
  {
    var c := Channels(n);
    Pad3(c.red) + [Semicolon] + Pad3(c.green) + [Semicolon] + Pad3(c.blue)
  }

  /** The value of three decimal digit bytes, if they are digits. */
  function Read3(s: seq<Byte>): Option<nat>
    requires |s| == 3
  {
    if IsDigitByte(s[0]) && IsDigitByte(s[1]) && IsDigitByte(s[2]) then
      Some(100 * (s[0] - ZeroDigit) + 10 * (s[1] - ZeroDigit) + (s[2] - ZeroDigit))
    else
      None
  }

  /** How a terminal reads an `rrr;ggg;bbb` field. */
  function ParseField(s: seq<Byte>): Option<Rgb>
  {
    if |s| != FieldSize || s[3] != Semicolon || s[7] != Semicolon then None
    else
      match (Read3(s[..3]), Read3(s[4..7]), Read3(s[8..]))
      case (Some(r), Some(g), Some(b)) => Some(Rgb(r, g, b))
      case _ => None
  }

  /** Reading three padded digits gives back their value. */
  lemma {:induction false} Pad3RoundTrip(v: nat)
    requires v < 1000
    ensures Read3(Pad3(v)) == Some(v)
  {
    var t := v / 10;
    assert v == 10 * t + v % 10;
    assert t == 10 * (t / 10) + t % 10;
    DivDiv(v, 10, 10);
  }

  /** Reading a field gives back the three channels of the value it encodes. */
  lemma {:induction false} AnsiBytesRoundTrip(n: int)
    ensures ParseField(Int32ToAnsiBytes(n)) == Some(Channels(n))
  {
    var c := Channels(n);
    var s := Int32ToAnsiBytes(n);
    assert s[..3] == Pad3(c.red) && s[4..7] == Pad3(c.green) && s[8..] == Pad3(c.blue);
    Pad3RoundTrip(c.red);
    Pad3RoundTrip(c.green);
    Pad3RoundTrip(c.blue);
  }

  /** A field holds no more than its channels: all 11 bytes are fixed by them. */
  lemma {:induction false} SameChannelsSameField(n: int, m: int)
    requires Channels(n) == Channels(m)
    ensures Int32ToAnsiBytes(n) == Int32ToAnsiBytes(m)
  {
  }

  /** The bits above the lowest 24 do not reach the field. */
  lemma {:induction false} HighBitsIgnored(n: int)
    ensures Int32ToAnsiBytes(n) == Int32ToAnsiBytes(n % 0x100_0000)
  {
    var q, m := n / 0x100_0000, n % 0x100_0000;
    assert n == (q * 256) * 0x10000 + m;
    DivShift(q * 256, m, 0x10000);
    DivShift(q, m / 0x10000, 256);
    assert n == (q * 0x10000) * 0x100 + m;
    DivShift(q * 0x10000, m, 0x100);
    DivShift(q * 256, m / 0x100, 256);
    assert n == (q * 0x10000) * 256 + m;
    DivShift(q * 0x10000, m, 256);
    assert Channels(n) == Channels(m);
  }

  /** Below 2^24 the channels are the value's three bytes, so a field names one value. */
  lemma {:induction false} FieldNamesValue(n: int, m: int)
    requires 0 <= n < 0x100_0000 && 0 <= m < 0x100_0000
    requires Int32ToAnsiBytes(n) == Int32ToAnsiBytes(m)
    ensures n == m
  {
    AnsiBytesRoundTrip(n);
    AnsiBytesRoundTrip(m);
    ChannelsCompose(n);
    ChannelsCompose(m);
  }

  /** A value below 2^24 is red * 65536 + green * 256 + blue. */
  lemma {:induction false} ChannelsCompose(n: int)
    requires 0 <= n < 0x100_0000
    ensures n == Channels(n).red * 0x10000 + Channels(n).green * 0x100 + Channels(n).blue
  {
    var hi := n / 0x100;
    assert n == hi * 0x100 + n % 0x100;
    DivDiv(n, 0x100, 0x100);
    assert hi == (hi / 0x100) * 0x100 + hi % 0x100;
    assert n / 0x10000 == hi / 0x100 < 256;
  }

  /**
   * The colour fields of the two pixels of one text cell: `upper` shows
   * row 2r, `lower` row 2r + 1.
   */
  datatype Cell = Cell(upper: Field, lower: Field)

  /** `CSI 38;2;` or `CSI 48;2;`, a colour field, then `m`. */
  function ColorSequence(prefix: seq<Byte>, field: Field): (r: seq<Byte>)
    requires |prefix| == 7
    ensures |r| == 19
  {
    prefix + field + SgrEnd
  }

  /** The 41 bytes of one cell: foreground colour, background colour, glyph. */
  function CellBytes(cell: Cell): (r: seq<Byte>)
    ensures |r| == CellSize
  {
    ColorSequence(FgPrefix, cell.upper) + ColorSequence(BgPrefix, cell.lower) + UpperHalfBlock
  }

  function CellTexts(row: seq<Cell>): (r: seq<seq<Byte>>)
    ensures |r| == |row|
    ensures forall c :: 0 <= c < |row| ==> |r[c]| == CellSize
  {
    seq(|row|, c requires 0 <= c < |row| => CellBytes(row[c]))
  }

  /** One text row: its cells, then `CSI 0m` and a line feed. */
  function RowBytes(row: seq<Cell>): (r: seq<Byte>)
    ensures |r| == |row| * CellSize + RowEndSize
  {
    FlattenLength(CellTexts(row), CellSize);
    Flatten(CellTexts(row)) + RowEnd
  }

  function RowTexts(rows: seq<seq<Cell>>): (r: seq<seq<Byte>>)
    ensures |r| == |rows|
  {
    seq(|rows|, i requires 0 <= i < |rows| => RowBytes(rows[i]))
  }

  /** The bytes of a whole frame of text cells. */
  function Screen(rows: seq<seq<Cell>>): seq<Byte>
  {
    Header + Flatten(RowTexts(rows))
  }

  /** 72 text rows of `cols` cells each. */
  predicate Shaped(rows: seq<seq<Cell>>, cols: nat)
  {
    |rows| == RowPairs && forall i :: 0 <= i < |rows| ==> |rows[i]| == cols
  }

  /** The number of columns drawn: `zip(range(width), range(160))` and `range(min(width, 160))`. */
  function Columns(width: int): (cols: nat)
    ensures cols <= ScreenWidth
    ensures 0 <= width <= ScreenWidth ==> cols == width
    ensures width >= ScreenWidth ==> cols == ScreenWidth
  {
    if width < 0 then 0 else if width < ScreenWidth then width else ScreenWidth
  }

  function RowWidth(cols: nat): nat
  {
    cols * CellSize + RowEndSize
  }

  /** Where text row `pair` starts. */
  function RowAt(pair: nat, cols: nat): nat
  {
    HeaderSize + RowOffset(pair, cols)
  }

  /** Where text row `pair` starts after the header. */
  function RowOffset(pair: nat, cols: nat): nat
  {
    pair * RowWidth(cols)
  }

  /** Where cell (pair, column) starts. */
  function CellAt(pair: nat, column: nat, cols: nat): nat
  {
    RowAt(pair, cols) + column * CellSize
  }

  /** Where the foreground (half 0) or background (half 1) field of a cell starts: +7 and +26. */
  function FieldAt(pair: nat, column: nat, half: nat, cols: nat): nat
  {
    CellAt(pair, column, cols) + 7 + 19 * half
  }

  function FieldByte(pair: nat, column: nat, half: nat, j: nat, cols: nat): nat
  {
    FieldAt(pair, column, half, cols) + j
  }

  /** Every byte offset that belongs to some colour field of a frame of `cols` columns. */
  function FieldBytes(cols: nat): set<nat>
  {
    set pair: nat, column: nat, half: nat, j: nat
      | pair < RowPairs && column < cols && half < 2 && j < FieldSize
      :: FieldByte(pair, column, half, j, cols)
  }

  /** A video buffer: 144 rows of 160 pixel values. */
  predicate IsVideo(video: seq<seq<int>>)
  {
    |video| == ScreenHeight && forall y :: 0 <= y < |video| ==> |video[y]| == ScreenWidth
  }

  /** The cell that shows pixels (2 * pair, column) and (2 * pair + 1, column). */
  function PixelCell(video: seq<seq<int>>, pair: nat, column: nat): Cell
    requires IsVideo(video) && pair < RowPairs && column < ScreenWidth
  {
    Cell(Int32ToAnsiBytes(video[2 * pair][column]), Int32ToAnsiBytes(video[2 * pair + 1][column]))
  }

  function PaintedRow(video: seq<seq<int>>, pair: nat, cols: nat): (row: seq<Cell>)
    requires IsVideo(video) && pair < RowPairs && cols <= ScreenWidth
    ensures |row| == cols
  {
    seq(cols, c requires 0 <= c < cols => PixelCell(video, pair, c))
  }

  /** Painting cell `column` of a row whose first `column` cells are painted extends the painted prefix. */
  lemma {:induction false} PaintedRowStep(video: seq<seq<int>>, pair: nat, column: nat, row: seq<Cell>)
    requires IsVideo(video) && pair < RowPairs && column < |row| <= ScreenWidth
    ensures (PaintedRow(video, pair, column) + row[column..])[column := PixelCell(video, pair, column)]
         == PaintedRow(video, pair, column + 1) + row[column + 1..]
  {
    var l := (PaintedRow(video, pair, column) + row[column..])[column := PixelCell(video, pair, column)];
    var r := PaintedRow(video, pair, column + 1) + row[column + 1..];
    assert |l| == |r|;
    forall c | 0 <= c < |l|
      ensures l[c] == r[c]
    {
      if c > column {
        assert l[c] == row[c] == r[c];
      }
    }
  }

  /** The cells that show the first `cols` columns of a video buffer. */
  function Painted(video: seq<seq<int>>, cols: nat): (rows: seq<seq<Cell>>)
    requires IsVideo(video) && cols <= ScreenWidth
    ensures Shaped(rows, cols)
  {
    seq(RowPairs, p requires 0 <= p < RowPairs => PaintedRow(video, p, cols))
  }

  /** Painting row `pair` of a frame whose first `pair` rows are painted extends the painted prefix. */
  lemma {:induction false} PaintedStep(video: seq<seq<int>>, cols: nat, pair: nat, prior: seq<seq<Cell>>)
    requires IsVideo(video) && cols <= ScreenWidth && pair < RowPairs && |prior| == RowPairs
    ensures (Painted(video, cols)[..pair] + prior[pair..])[pair := PaintedRow(video, pair, cols)]
         == Painted(video, cols)[..pair + 1] + prior[pair + 1..]
  {
    var l := (Painted(video, cols)[..pair] + prior[pair..])[pair := PaintedRow(video, pair, cols)];
    var r := Painted(video, cols)[..pair + 1] + prior[pair + 1..];
    assert |l| == |r|;
    forall p | 0 <= p < |l|
      ensures l[p] == r[p]
    {
      if p > pair {
        assert l[p] == prior[p] == r[p];
      }
    }
  }

  /** Once every row pair is painted, nothing of the prior frame is left. */
  lemma {:induction false} PaintedAll(video: seq<seq<int>>, cols: nat, prior: seq<seq<Cell>>)
    requires IsVideo(video) && cols <= ScreenWidth && |prior| == RowPairs
    ensures Painted(video, cols)[..RowPairs] + prior[RowPairs..] == Painted(video, cols)
  {
    assert prior[RowPairs..] == [];
  }

  function BlankRow(cols: nat): (row: seq<Cell>)
    ensures |row| == cols
  {
    seq(cols, c => Cell(BlackField, BlackField))
  }

  /** `n` rows of black cells. */
  function BlankRows(n: nat, cols: nat): (rows: seq<seq<Cell>>)
    ensures |rows| == n
  {
    seq(n, p => BlankRow(cols))
  }

  /** The cells of an all-black picture. */
  function Blank(cols: nat): (rows: seq<seq<Cell>>)
    ensures Shaped(rows, cols)
  {
    BlankRows(RowPairs, cols)
  }

  /** A frame of `cols` columns is `10 + 72 * (cols * 41 + 5)` bytes long. */
  lemma {:induction false} ScreenLength(rows: seq<seq<Cell>>, cols: nat)
    requires Shaped(rows, cols)
    ensures |Screen(rows)| == HeaderSize + RowPairs * RowWidth(cols)
  {
    var texts := RowTexts(rows);
    RowTextsWidth(rows, cols);
    FlattenLength(texts, RowWidth(cols));
  }

  /** Cell `column` of a row sits at `column * 41` of the row's bytes. */
  lemma {:induction false} CellInRow(row: seq<Cell>, column: nat)
    requires column < |row|
    ensures column * CellSize + CellSize <= |RowBytes(row)|
    ensures RowBytes(row)[column * CellSize..column * CellSize + CellSize] == CellBytes(row[column])
  {
    var texts := CellTexts(row);
    FlattenSlice(texts, CellSize, column);
  }

  /** Row `pair` of a frame sits at `10 + pair * (cols * 41 + 5)`. */
  lemma {:induction false} RowInScreen(rows: seq<seq<Cell>>, cols: nat, pair: nat)
    requires Shaped(rows, cols) && pair < RowPairs
    ensures RowAt(pair, cols) + RowWidth(cols) <= |Screen(rows)|
    ensures Screen(rows)[RowAt(pair, cols)..RowAt(pair, cols) + RowWidth(cols)]
         == RowBytes(rows[pair])
  {
    var texts := RowTexts(rows);
    RowTextsWidth(rows, cols);
    FlattenSlice(texts, RowWidth(cols), pair);
    var a := RowOffset(pair, cols);
    SliceAfterPrefix(Header, Flatten(texts), a, a + RowWidth(cols));
  }

  /** The 41 bytes at CellAt(pair, column) are those of cell (pair, column). */
  lemma {:induction false} CellInScreen(rows: seq<seq<Cell>>, cols: nat, pair: nat, column: nat)
    requires Shaped(rows, cols) && pair < RowPairs && column < cols
    ensures CellAt(pair, column, cols) + CellSize <= |Screen(rows)|
    ensures Screen(rows)[CellAt(pair, column, cols)..CellAt(pair, column, cols) + CellSize] == CellBytes(rows[pair][column])
  {
    var row := rows[pair];
    assert |row| == cols;
    var w := RowWidth(cols);
    var start := RowAt(pair, cols);
    var k := column * CellSize;
    var screen := Screen(rows);
    RowInScreen(rows, cols, pair);
    CellInRow(row, column);
    SliceWithin(screen, start, RowBytes(row), k, k + CellSize, CellBytes(row[column]));
    assert CellAt(pair, column, cols) == start + k;
  }

  /**
   * After painting, the foreground field of cell (pair, column) encodes the
   * upper pixel and the background field the lower one.
   */
  lemma {:induction false} FieldsOfScreen(rows: seq<seq<Cell>>, cols: nat, pair: nat, column: nat)
    requires Shaped(rows, cols) && pair < RowPairs && column < cols
    ensures FieldAt(pair, column, 1, cols) + FieldSize <= |Screen(rows)|
    ensures Screen(rows)[FieldAt(pair, column, 0, cols)..FieldAt(pair, column, 0, cols) + FieldSize]
         == rows[pair][column].upper
    ensures Screen(rows)[FieldAt(pair, column, 1, cols)..FieldAt(pair, column, 1, cols) + FieldSize]
         == rows[pair][column].lower
  {
    CellInScreen(rows, cols, pair, column);
    var at := CellAt(pair, column, cols);
    CellFields(rows[pair][column]);
    SliceOfSlice(Screen(rows), at, at + CellSize, 7, 18);
    SliceOfSlice(Screen(rows), at, at + CellSize, 26, 37);
  }

  /** The cell with its upper (half 0) or lower (half 1) pixel replaced. */
  function SetHalf(cell: Cell, half: nat, v: Field): Cell
  {
    if half == 0 then cell.(upper := v) else cell.(lower := v)
  }

  /** Replacing the field of a colour sequence replaces its bytes 7 to 17. */
  lemma {:induction false} ColorSequenceUpdate(prefix: seq<Byte>, field: Field, v: Field)
    requires |prefix| == 7
    ensures ColorSequence(prefix, v) == Splice(ColorSequence(prefix, field), 7, v)
  {
    SpliceLeft(prefix + field, SgrEnd, 7, v);
    SpliceShift(prefix, field, 0, v);
    assert Splice(field, 0, v) == v;
  }

  /** Replacing the upper pixel of a cell replaces bytes 7 to 17. */
  lemma {:induction false} UpperUpdate(cell: Cell, v: Field)
    ensures CellBytes(cell.(upper := v)) == Splice(CellBytes(cell), 7, v)
  {
    var fg, bg := ColorSequence(FgPrefix, cell.upper), ColorSequence(BgPrefix, cell.lower);
    SpliceLeft(fg + bg, UpperHalfBlock, 7, v);
    ColorSequenceUpdate(FgPrefix, cell.upper, v);
    SpliceLeft(fg, bg, 7, v);
  }

  /** Replacing the lower pixel of a cell replaces bytes 26 to 36. */
  lemma {:induction false} LowerUpdate(cell: Cell, v: Field)
    ensures CellBytes(cell.(lower := v)) == Splice(CellBytes(cell), 26, v)
  {
    var fg, bg := ColorSequence(FgPrefix, cell.upper), ColorSequence(BgPrefix, cell.lower);
    SpliceLeft(fg + bg, UpperHalfBlock, 26, v);
    ColorSequenceUpdate(BgPrefix, cell.lower, v);
    SpliceShift(fg, bg, 7, v);
  }

  /** Replacing one pixel of a cell replaces exactly its 11-byte field. */
  lemma {:induction false} CellUpdate(cell: Cell, half: nat, v: Field)
    requires half < 2
    ensures CellBytes(SetHalf(cell, half, v)) == Splice(CellBytes(cell), 7 + 19 * half, v)
  {
    if half == 0 {
      UpperUpdate(cell, v);
    } else {
      LowerUpdate(cell, v);
    }
  }

  /** The foreground field of a cell is at bytes 7 to 17, the background field at 26 to 36. */
  lemma {:induction false} CellFields(cell: Cell)
    ensures CellBytes(cell)[7..18] == cell.upper
    ensures CellBytes(cell)[26..37] == cell.lower
  {
    var fg, bg := ColorSequence(FgPrefix, cell.upper), ColorSequence(BgPrefix, cell.lower);
    SliceBeforeSuffix(fg + bg, UpperHalfBlock, 7, 18);
    SliceBeforeSuffix(fg, bg, 7, 18);
    SliceBeforeSuffix(FgPrefix + cell.upper, SgrEnd, 7, 18);
    SliceAfterPrefix(FgPrefix, cell.upper, 0, 11);
    SliceBeforeSuffix(fg + bg, UpperHalfBlock, 26, 37);
    SliceAfterPrefix(fg, bg, 7, 18);
    SliceBeforeSuffix(BgPrefix + cell.lower, SgrEnd, 7, 18);
    SliceAfterPrefix(BgPrefix, cell.lower, 0, 11);
  }

  /** Replacing one cell of a row replaces its 41 bytes. */
  lemma {:induction false} RowUpdate(row: seq<Cell>, column: nat, cell: Cell)
    requires column < |row|
    ensures column * CellSize + CellSize <= |RowBytes(row)|
    ensures RowBytes(row[column := cell]) == Splice(RowBytes(row), column * CellSize, CellBytes(cell))
  {
    var texts := CellTexts(row);
    assert CellTexts(row[column := cell]) == texts[column := CellBytes(cell)];
    FlattenUpdate(texts, CellSize, column, CellBytes(cell));
    SpliceLeft(Flatten(texts), RowEnd, column * CellSize, CellBytes(cell));
  }

  /** Replacing one text row of a frame replaces its bytes. */
  lemma {:induction false} ScreenUpdate(rows: seq<seq<Cell>>, cols: nat, pair: nat, row: seq<Cell>)
    requires Shaped(rows, cols) && pair < RowPairs && |row| == cols
    ensures RowAt(pair, cols) + RowWidth(cols) <= |Screen(rows)|
    ensures Screen(rows[pair := row]) == Splice(Screen(rows), RowAt(pair, cols), RowBytes(row))
  {
    var texts := RowTexts(rows);
    RowTextsWidth(rows, cols);
    RowTextsUpdate(rows, pair, row);
    FlattenUpdate(texts, RowWidth(cols), pair, RowBytes(row));
    SpliceShift(Header, Flatten(texts), RowOffset(pair, cols), RowBytes(row));
  }

  /** Every text row of a shaped frame has the same width. */
  lemma {:induction false} RowTextsWidth(rows: seq<seq<Cell>>, cols: nat)
    requires Shaped(rows, cols)
    ensures forall i :: 0 <= i < |RowTexts(rows)| ==> |RowTexts(rows)[i]| == RowWidth(cols)
  {
    forall i | 0 <= i < |RowTexts(rows)|
      ensures |RowTexts(rows)[i]| == RowWidth(cols)
    {
      assert RowTexts(rows)[i] == RowBytes(rows[i]);
    }
  }

  /** Replacing a row replaces its text. */
  lemma {:induction false} RowTextsUpdate(rows: seq<seq<Cell>>, pair: nat, row: seq<Cell>)
    requires pair < |rows|
    ensures RowTexts(rows[pair := row]) == RowTexts(rows)[pair := RowBytes(row)]
  {
    var l, r := RowTexts(rows[pair := row]), RowTexts(rows)[pair := RowBytes(row)];
    forall i | 0 <= i < |rows|
      ensures l[i] == r[i]
    {
    }
  }

  /** The frame with one pixel of cell (pair, column) replaced. */
  function SetPixel(rows: seq<seq<Cell>>, pair: nat, column: nat, half: nat, v: Field): seq<seq<Cell>>
    requires pair < |rows| && column < |rows[pair]|
  {
    rows[pair := rows[pair][column := SetHalf(rows[pair][column], half, v)]]
  }

  /** Replacing one pixel of a row replaces the 11 bytes of its field within the row. */
  lemma {:induction false} RowFieldUpdate(row: seq<Cell>, column: nat, half: nat, v: Field)
    requires column < |row| && half < 2
    ensures column * CellSize + 7 + 19 * half + FieldSize <= |RowBytes(row)|
    ensures RowBytes(row[column := SetHalf(row[column], half, v)])
         == Splice(RowBytes(row), column * CellSize + 7 + 19 * half, v)
  {
    var cell := row[column];
    var k := column * CellSize;
    var off := 7 + 19 * half;
    CellUpdate(cell, half, v);
    RowUpdate(row, column, SetHalf(cell, half, v));
    CellInRow(row, column);
    SpliceInside(RowBytes(row), k, CellBytes(cell), off, v);
  }

  /** A splice inside one text row is a splice of the frame at that row's offset. */
  lemma {:induction false} RowSpliceInScreen(rows: seq<seq<Cell>>, cols: nat, pair: nat, row: seq<Cell>, k: nat, v: seq<Byte>)
    requires Shaped(rows, cols) && pair < RowPairs && |row| == cols
    requires k + |v| <= RowWidth(cols)
    requires RowBytes(row) == Splice(RowBytes(rows[pair]), k, v)
    ensures RowAt(pair, cols) + k + |v| <= |Screen(rows)|
    ensures Screen(rows[pair := row]) == Splice(Screen(rows), RowAt(pair, cols) + k, v)
  {
    var start := RowAt(pair, cols);
    var screen, before := Screen(rows), RowBytes(rows[pair]);
    assert |before| == RowWidth(cols);
    RowInScreen(rows, cols, pair);
    SpliceInside(screen, start, before, k, v);
    ScreenUpdate(rows, cols, pair, row);
    assert Screen(rows[pair := row]) == Splice(screen, start, Splice(before, k, v));
  }

  /** Replacing one pixel of a frame replaces exactly the 11 bytes at its FieldAt offset. */
  lemma {:induction false} FieldUpdate(rows: seq<seq<Cell>>, cols: nat, pair: nat, column: nat, half: nat, v: Field)
    requires Shaped(rows, cols) && pair < RowPairs && column < cols && half < 2
    ensures FieldAt(pair, column, half, cols) + FieldSize <= |Screen(rows)|
    ensures Screen(SetPixel(rows, pair, column, half, v))
         == Splice(Screen(rows), FieldAt(pair, column, half, cols), v)
  {
    var row := rows[pair];
    var newRow := row[column := SetHalf(row[column], half, v)];
    var inRow := column * CellSize + 7 + 19 * half;
    RowFieldUpdate(row, column, half, v);
    RowSpliceInScreen(rows, cols, pair, newRow, inRow, v);
    assert FieldAt(pair, column, half, cols) == RowAt(pair, cols) + inRow;
  }

  /** The bytes make_data writes for one cell are those of a cell with two black fields. */
  lemma {:induction false} BlackCell()
    ensures CellBytes(Cell(BlackField, BlackField)) == BlackForeground + BlackBackground + UpperHalfBlock
  {
  }

  /** One more black cell in a row of black cells. */
  lemma {:induction false} BlankRowStep(column: nat)
    ensures Flatten(CellTexts(BlankRow(column + 1)))
         == Flatten(CellTexts(BlankRow(column))) + (BlackForeground + BlackBackground + UpperHalfBlock)
  {
    BlackCell();
    assert CellTexts(BlankRow(column + 1)) == CellTexts(BlankRow(column)) + [CellBytes(Cell(BlackField, BlackField))];
    FlattenAppend(CellTexts(BlankRow(column)), CellBytes(Cell(BlackField, BlackField)));
  }

  /** One more row of black cells in a frame of black rows. */
  lemma {:induction false} BlankScreenStep(cols: nat, pair: nat)
    ensures Flatten(RowTexts(BlankRows(pair + 1, cols))) == Flatten(RowTexts(BlankRows(pair, cols))) + RowBytes(BlankRow(cols))
  {
    assert RowTexts(BlankRows(pair + 1, cols)) == RowTexts(BlankRows(pair, cols)) + [RowBytes(BlankRow(cols))];
    FlattenAppend(RowTexts(BlankRows(pair, cols)), RowBytes(BlankRow(cols)));
  }

  /** The column loop of make_data: one text row of black cells and its end. */
  method AppendBlankRow(text: seq<Byte>, cols: nat) returns (result: seq<Byte>)
    ensures result == text + RowBytes(BlankRow(cols))
  {
    result := text;
    assert CellTexts(BlankRow(0)) == [];
    for column := 0 to cols
      invariant result == text + Flatten(CellTexts(BlankRow(column)))
    {
      BlankRowStep(column);
      ConcatAssoc(text, Flatten(CellTexts(BlankRow(column))), BlackForeground + BlackBackground + UpperHalfBlock);
      ConcatAssoc(result, BlackForeground, BlackBackground);
      ConcatAssoc(result, BlackForeground + BlackBackground, UpperHalfBlock);
      result := result + BlackForeground;
      result := result + BlackBackground;
      result := result + UpperHalfBlock;
    }
    result := result + RowEnd;
  }

  /** The row loop of make_data, from the header on. */
  method BlankScreen(cols: nat) returns (result: seq<Byte>)
    ensures result == Screen(Blank(cols))
  {
    result := Header;
    assert RowTexts(BlankRows(0, cols)) == [];
    for pair := 0 to RowPairs
      invariant result == Header + Flatten(RowTexts(BlankRows(pair, cols)))
    {
      BlankScreenStep(cols, pair);
      ConcatAssoc(Header, Flatten(RowTexts(BlankRows(pair, cols))), RowBytes(BlankRow(cols)));
      result := AppendBlankRow(result, cols);
    }
  }

  /**
   * make_data. The terminal width, which the source asks the terminal for
   * (80 when it cannot tell), is the parameter `width`; the text is built
   * directly as its UTF-8 bytes.
   */
  method MakeData(width: int) returns (data: array<Byte>, w: int)
    ensures fresh(data) && w == width
    ensures data[..] == Screen(Blank(Columns(width)))
    ensures data.Length == HeaderSize + RowPairs * RowWidth(Columns(width))
  {
    var cols := Columns(width);
    var result := BlankScreen(cols);
    ScreenLength(Blank(cols), cols);
    data := new Byte[|result|](i requires 0 <= i < |result| => result[i]);
    w := width;
  }

  /** Whether byte offset p belongs to a colour field of a frame of `cols` columns. */
  predicate InField(p: int, cols: nat)
  {
    p >= 0 && p in FieldBytes(cols)
  }

  /** The 11 bytes of every colour field are field bytes. */
  lemma {:induction false} FieldInField(pair: nat, column: nat, half: nat, cols: nat)
    requires pair < RowPairs && column < cols && half < 2
    ensures forall p :: FieldAt(pair, column, half, cols) <= p < FieldAt(pair, column, half, cols) + FieldSize ==> InField(p, cols)
  {
    forall p | FieldAt(pair, column, half, cols) <= p < FieldAt(pair, column, half, cols) + FieldSize
      ensures InField(p, cols)
    {
      assert p == FieldByte(pair, column, half, p - FieldAt(pair, column, half, cols), cols);
    }
  }

  /**
   * paint_frame together with its `cache={}` default argument, which lives
   * as long as the program and memoises int32_to_ansibytes.
   */
  class Painter {
    var cache: map<int, Field>

    /** Every cache entry is the field of its key. */
    ghost predicate Valid()
      reads this
    {
      forall key :: key in cache ==> cache[key] == Int32ToAnsiBytes(key)
    }

    constructor()
      ensures Valid() && cache == map[]
    {
      cache := map[];
    }

    /** `cache.get(key)`, computing and storing int32_to_ansibytes(key) on a miss. */
    method Lookup(key: int) returns (value: Field)
      requires Valid()
      modifies this
      ensures Valid()
      ensures value == Int32ToAnsiBytes(key)
      ensures cache == old(cache)[key := value]
    {
      if key in cache {
        value := cache[key];
      } else {
        value := Int32ToAnsiBytes(key);
        cache := cache[key := value];
      }
    }

    /** `data[index:index+11] = cache[key]`: a slice assignment of equal length. */
    static method WriteField(data: array<Byte>, index: nat, value: Field)
      requires index + FieldSize <= data.Length
      modifies data
      ensures data[..] == Splice(old(data[..]), index, value)
      ensures forall p :: 0 <= p < data.Length && !(index <= p < index + FieldSize) ==> data[p] == old(data[p])
    {
      forall j | 0 <= j < FieldSize {
        data[index + j] := value[j];
      }
    }

    /**
     * One pass of the `row_offset` loop: skip 7 bytes, write the field of
     * pixel (2 * pair + half, column), skip the 11 bytes and the `m`.
     */
    method PaintHalf(video: seq<seq<int>>, data: array<Byte>, index: nat, pair: nat, column: nat, half: nat,
                     cols: nat, ghost rows: seq<seq<Cell>>)
      returns (next: nat, ghost painted: seq<seq<Cell>>)
      requires Valid() && IsVideo(video) && pair < RowPairs && column < cols <= ScreenWidth && half < 2
      requires Shaped(rows, cols) && data[..] == Screen(rows) && index + 7 == FieldAt(pair, column, half, cols)
      modifies this, data
      ensures Valid()
      ensures next == index + 19
      ensures painted == SetPixel(rows, pair, column, half, Int32ToAnsiBytes(video[2 * pair + half][column]))
      ensures Shaped(painted, cols) && data[..] == Screen(painted)
      ensures forall p :: 0 <= p < data.Length && !InField(p, cols) ==> data[p] == old(data[p])
    {
      next := index + 7;
      var key := video[2 * pair + half][column];
      var value := Lookup(key);
      FieldUpdate(rows, cols, pair, column, half, value);
      WriteField(data, next, value);
      FieldInField(pair, column, half, cols);
      painted := SetPixel(rows, pair, column, half, value);
      next := next + 12;
    }

    /** The `row_offset` loop for one cell: the upper pixel's field at +7, the lower one's at +26. */
    method PaintCell(video: seq<seq<int>>, data: array<Byte>, index: nat, pair: nat, column: nat, cols: nat,
                     ghost rows: seq<seq<Cell>>)
      returns (next: nat, ghost painted: seq<seq<Cell>>)
      requires Valid() && IsVideo(video) && pair < RowPairs && column < cols <= ScreenWidth
      requires Shaped(rows, cols) && data[..] == Screen(rows) && index == CellAt(pair, column, cols)
      modifies this, data
      ensures Valid()
      ensures next == index + 2 * 19
      ensures painted == rows[pair := rows[pair][column := PixelCell(video, pair, column)]]
      ensures Shaped(painted, cols) && data[..] == Screen(painted)
      ensures forall p :: 0 <= p < data.Length && !InField(p, cols) ==> data[p] == old(data[p])
    {
      next := index;
      painted := rows;
      var upper := Int32ToAnsiBytes(video[2 * pair][column]);
      for rowOffset := 0 to 2
        invariant Valid() && Shaped(painted, cols) && data[..] == Screen(painted)
        invariant next == index + 19 * rowOffset
        invariant rowOffset == 0 ==> painted == rows
        invariant rowOffset == 1 ==> painted == SetPixel(rows, pair, column, 0, upper)
        invariant rowOffset == 2 ==> painted == rows[pair := rows[pair][column := PixelCell(video, pair, column)]]
        invariant forall p :: 0 <= p < data.Length && !InField(p, cols) ==> data[p] == old(data[p])
      {
        ghost var before := painted;
        next, painted := PaintHalf(video, data, next, pair, column, rowOffset, cols, painted);
        if rowOffset == 1 {
          assert before[pair][column := PixelCell(video, pair, column)] == rows[pair][column := PixelCell(video, pair, column)];
        }
      }
    }

    /** The `column_index` loop for one text row, without the final `index += 5`. */
    method PaintRow(video: seq<seq<int>>, data: array<Byte>, index: nat, pair: nat, cols: nat,
                    ghost rows: seq<seq<Cell>>)
      returns (next: nat, ghost painted: seq<seq<Cell>>)
      requires Valid() && IsVideo(video) && pair < RowPairs && cols <= ScreenWidth
      requires Shaped(rows, cols) && data[..] == Screen(rows) && index == RowAt(pair, cols)
      modifies this, data
      ensures Valid()
      ensures next == index + cols * CellSize
      ensures painted == rows[pair := PaintedRow(video, pair, cols)]
      ensures Shaped(painted, cols) && data[..] == Screen(painted)
      ensures forall p :: 0 <= p < data.Length && !InField(p, cols) ==> data[p] == old(data[p])
    {
      next := index;
      painted := rows;
      assert PaintedRow(video, pair, 0) + rows[pair][0..] == rows[pair];
      for column := 0 to cols
        invariant Valid() && Shaped(painted, cols) && data[..] == Screen(painted)
        invariant next == index + column * CellSize
        invariant painted == rows[pair := PaintedRow(video, pair, column) + rows[pair][column..]]
        invariant forall p :: 0 <= p < data.Length && !InField(p, cols) ==> data[p] == old(data[p])
      {
        next, painted := PaintCell(video, data, next, pair, column, cols, painted);
        next := next + 3;
        PaintedRowStep(video, pair, column, rows[pair]);
        MulSucc(column, CellSize);
      }
      assert PaintedRow(video, pair, cols) + rows[pair][cols..] == PaintedRow(video, pair, cols);
    }

    /**
     * paint_frame: overwrites the colour fields of a frame buffer that holds
     * the bytes of some frame of the same width (as make_data or an earlier
     * paint_frame left it) with the fields of `video`.
     */
    method PaintFrame(video: seq<seq<int>>, data: array<Byte>, width: int, ghost prior: seq<seq<Cell>>)
      requires Valid() && IsVideo(video)
      requires Shaped(prior, Columns(width)) && data[..] == Screen(prior)
      modifies this, data
      ensures Valid()
      ensures data[..] == Screen(Painted(video, Columns(width)))
      ensures forall p :: 0 <= p < data.Length && !InField(p, Columns(width)) ==> data[p] == old(data[p])
    {
      var cols := Columns(width);
      var index := HeaderSize;
      ghost var painted := prior;
      for pair := 0 to RowPairs
        invariant Valid() && Shaped(painted, cols) && data[..] == Screen(painted)
        invariant index == RowAt(pair, cols)
        invariant painted == Painted(video, cols)[..pair] + prior[pair..]
        invariant forall p :: 0 <= p < data.Length && !InField(p, cols) ==> data[p] == old(data[p])
      {
        index, painted := PaintRow(video, data, index, pair, cols, painted);
        index := index + 5;
        MulSucc(pair, RowWidth(cols));
        PaintedStep(video, cols, pair, prior);
      }
      PaintedAll(video, cols, prior);
    }
  }
}
