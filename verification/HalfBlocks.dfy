/** Pixels packed as half-block cells, two pixel rows a cell row (images' `lib.ts`), and the cells as text. */
module HalfBlocks {
  import opened Basics
  import opened Base64

  const UPPER_HALF: nat := 0x2580
  const LOWER_HALF: nat := 0x2584
  const SPACE: nat := 0x20
  const DEFAULT_COLOR: nat := 0x0100_0000

  type Word = w: int | 0 <= w < 0x1_0000_0000

  /** A byte of the picture; an index past its end reads zero. */
  function At(rgba: seq<Byte>, i: nat): Byte { if i < |rgba| then rgba[i] else 0 }

  /** A pixel's colour, or none where it is under half alpha or below the last row. */
  function Pixel(rgba: seq<Byte>, width: nat, height: nat, x: nat, y: nat): (p: Option<nat>)
    ensures p.Some? ==> p.value < DEFAULT_COLOR
  {
    if y >= height then None else
    var i := (y * width + x) * 4;
    if At(rgba, i + 3) < 128 then None
    else Some(At(rgba, i) * 65_536 + At(rgba, i + 1) * 256 + At(rgba, i + 2))
  }

  datatype Cell = Cell(glyph: Word, fg: Word, bg: Word)

  function CellOf(top: Option<nat>, bottom: Option<nat>): Cell
    requires top.Some? ==> top.value < DEFAULT_COLOR
    requires bottom.Some? ==> bottom.value < DEFAULT_COLOR
  {
    if top.Some? then Cell(UPPER_HALF, top.value, if bottom.Some? then bottom.value else DEFAULT_COLOR)
    else if bottom.Some? then Cell(LOWER_HALF, bottom.value, DEFAULT_COLOR)
    else Cell(SPACE, DEFAULT_COLOR, DEFAULT_COLOR)
  }

  /** The cell of column `x` in cell row `r`. */
  function CellAt(rgba: seq<Byte>, width: nat, height: nat, r: nat, x: nat): Cell
  {
    CellOf(Pixel(rgba, width, height, x, r * 2), Pixel(rgba, width, height, x, r * 2 + 1))
  }

  /** Two pixel rows a cell row, the last over a clear one where the height is odd. */
  function Rows(height: nat): (rows: nat)
    ensures height <= 2 * rows <= height + 1
  {
    (height + 1) / 2
  }

  /** The words hold the picture's cell, cells counted row by row. */
  ghost predicate Holds(words: seq<Word>, rgba: seq<Byte>, width: nat, height: nat, r: nat, x: nat)
  {
    var at := (r * width + x) * 3;
    && at + 2 < |words|
    && Cell(words[at], words[at + 1], words[at + 2]) == CellAt(rgba, width, height, r, x)
  }

  /** Every cell before column `x` of row `r` is packed. */
  ghost predicate Packed(words: seq<Word>, rgba: seq<Byte>, width: nat, height: nat, r: nat, x: nat)
  {
    forall r': nat, x': nat | r' <= r && x' < width && (r' < r || x' < x) :: Holds(words, rgba, width, height, r', x')
  }

  /** Cells counted row by row come in that order, and there is room for each. */
  lemma {:induction false} Counted(width: nat, rows: nat, r: nat, x: nat)
    requires r < rows && x < width
    ensures r * width + x < width * rows
  {
    assert (r + 1) * width <= rows * width;
  }

  lemma {:induction false} Earlier(width: nat, r: nat, x: nat, r': nat, x': nat)
    requires x' < width && (r' < r || (r' == r && x' < x))
    ensures r' * width + x' < r * width + x
  {
    if r' < r {
      assert (r' + 1) * width <= r * width;
    }
  }

  lemma {:induction false} PackOne(was: seq<Word>, now: seq<Word>, rgba: seq<Byte>, width: nat, height: nat, r: nat,
                                   x: nat, at: nat)
    requires Packed(was, rgba, width, height, r, x) && x < width && at == (r * width + x) * 3
    requires |now| == |was| && at + 2 < |was| && now[..at] == was[..at]
    requires Cell(now[at], now[at + 1], now[at + 2]) == CellAt(rgba, width, height, r, x)
    ensures Packed(now, rgba, width, height, r, x + 1)
  {
    forall r': nat, x': nat | r' <= r && x' < width && (r' < r || x' < x + 1)
      ensures Holds(now, rgba, width, height, r', x')
    {
      if r' < r || x' < x {
        assert Holds(was, rgba, width, height, r', x');
        Earlier(width, r, x, r', x');
        Kept(was, now, at, (r' * width + x') * 3);
      }
    }
  }

  lemma {:induction false} Kept(was: seq<Word>, now: seq<Word>, at: nat, k: nat)
    requires |now| == |was| && at <= |was| && now[..at] == was[..at] && k + 2 < at
    ensures now[k] == was[k] && now[k + 1] == was[k + 1] && now[k + 2] == was[k + 2]
  {
    assert forall j | 0 <= j < at :: now[j] == now[..at][j] == was[..at][j] == was[j];
  }

  /** `packHalfBlocks`. */
  method PackHalfBlocks(rgba: seq<Byte>, width: nat, height: nat) returns (cells: array<Word>)
    ensures fresh(cells) && cells.Length == width * Rows(height) * 3
    ensures Packed(cells[..], rgba, width, height, Rows(height), 0)
  {
    var rows := Rows(height);
    cells := new Word[width * rows * 3];
    for r := 0 to rows
      invariant Packed(cells[..], rgba, width, height, r, 0)
    {
      for x := 0 to width
        invariant Packed(cells[..], rgba, width, height, r, x)
      {
        Counted(width, rows, r, x);
        ghost var was := cells[..];
        var at := (r * width + x) * 3;
        PackCell(cells, at, Pixel(rgba, width, height, x, r * 2), Pixel(rgba, width, height, x, r * 2 + 1));
        PackOne(was, cells[..], rgba, width, height, r, x, at);
      }
      RowPacked(cells[..], rgba, width, height, r);
    }
  }

  lemma {:induction false} RowPacked(words: seq<Word>, rgba: seq<Byte>, width: nat, height: nat, r: nat)
    requires Packed(words, rgba, width, height, r, width)
    ensures Packed(words, rgba, width, height, r + 1, 0)
  {
  }

  /** The body of the loop: one cell from its two pixels. */
  method PackCell(cells: array<Word>, at: nat, top: Option<nat>, bottom: Option<nat>)
    requires at + 2 < cells.Length
    requires top.Some? ==> top.value < DEFAULT_COLOR
    requires bottom.Some? ==> bottom.value < DEFAULT_COLOR
    modifies cells
    ensures cells[..at] == old(cells[..at]) && cells[at + 3..] == old(cells[at + 3..])
    ensures Cell(cells[at], cells[at + 1], cells[at + 2]) == CellOf(top, bottom)
  {
    if top.Some? {
      cells[at] := UPPER_HALF;
      cells[at + 1] := top.value;
      cells[at + 2] := if bottom.Some? then bottom.value else DEFAULT_COLOR;
    } else if bottom.Some? {
      cells[at] := LOWER_HALF;
      cells[at + 1] := bottom.value;
      cells[at + 2] := DEFAULT_COLOR;
    } else {
      cells[at] := SPACE;
      cells[at + 1] := DEFAULT_COLOR;
      cells[at + 2] := DEFAULT_COLOR;
    }
  }

  // ----- recovering the pixels -----

  /** The upper and the lower pixel a cell shows. */
  function Upper(c: Cell): Option<nat> { if c.glyph == UPPER_HALF then Some(c.fg) else None }

  function Lower(c: Cell): Option<nat>
  {
    if c.glyph == LOWER_HALF then Some(c.fg)
    else if c.glyph == UPPER_HALF && c.bg != DEFAULT_COLOR then Some(c.bg) else None
  }

  lemma {:induction false} CellShows(top: Option<nat>, bottom: Option<nat>)
    requires top.Some? ==> top.value < DEFAULT_COLOR
    requires bottom.Some? ==> bottom.value < DEFAULT_COLOR
    ensures Upper(CellOf(top, bottom)) == top && Lower(CellOf(top, bottom)) == bottom
  {
  }

  /** The pixel at `x`, `y` as the cells show it. */
  function Shown(words: seq<Word>, width: nat, x: nat, y: nat): Option<nat>
  {
    var k := (y / 2) * width + x;
    if k * 3 + 2 >= |words| then None else
    var c := Cell(words[k * 3], words[k * 3 + 1], words[k * 3 + 2]);
    if y % 2 == 0 then Upper(c) else Lower(c)
  }

  /** Every pixel's colour, or that it is clear, is read off the cells. */
  lemma {:induction false} PixelShown(words: seq<Word>, rgba: seq<Byte>, width: nat, height: nat, x: nat, y: nat)
    requires Packed(words, rgba, width, height, Rows(height), 0) && x < width && y < height
    ensures Shown(words, width, x, y) == Pixel(rgba, width, height, x, y)
  {
    var r := y / 2;
    assert r < Rows(height);
    assert Holds(words, rgba, width, height, r, x);
    CellShows(Pixel(rgba, width, height, x, r * 2), Pixel(rgba, width, height, x, r * 2 + 1));
  }

  /** The pixel at byte `i`, as the picture's bytes give it: clear under half alpha, or its red, green and blue. */
  predicate IsPixel(rgba: seq<Byte>, i: nat, p: Option<nat>)
  {
    var red: int, green: int := if i < |rgba| then rgba[i] else 0, if i + 1 < |rgba| then rgba[i + 1] else 0;
    var blue: int, alpha: int := if i + 2 < |rgba| then rgba[i + 2] else 0, if i + 3 < |rgba| then rgba[i + 3] else 0;
    p == if alpha < 128 then None else Some(red * 0x1_0000 + green * 0x100 + blue)
  }

  /** What the cells show is the picture's own bytes, and nothing below its last row. */
  lemma {:induction false} BytesShown(words: seq<Word>, rgba: seq<Byte>, width: nat, height: nat, x: nat, y: nat,
                                      i: nat)
    requires Packed(words, rgba, width, height, Rows(height), 0) && x < width && y < 2 * Rows(height)
    requires i == 4 * (y * width + x)
    ensures y < height ==> IsPixel(rgba, i, Shown(words, width, x, y))
    ensures y >= height ==> Shown(words, width, x, y) == None
  {
    var r := y / 2;
    assert Holds(words, rgba, width, height, r, x);
    CellShows(Pixel(rgba, width, height, x, r * 2), Pixel(rgba, width, height, x, r * 2 + 1));
    assert y == r * 2 || y == r * 2 + 1;
    if y < height { PixelIs(rgba, width, height, x, y, i); }
  }

  lemma {:induction false} PixelIs(rgba: seq<Byte>, width: nat, height: nat, x: nat, y: nat, i: nat)
    requires y < height && i == 4 * (y * width + x)
    ensures IsPixel(rgba, i, Pixel(rgba, width, height, x, y))
  {
  }

  /** A cell draws the upper half block in the top colour over the bottom one or the default, the lower half block
      where the top alone is clear, and a space where both are. */
  lemma {:induction false} CellDraws(top: Option<nat>, bottom: Option<nat>, c: Cell)
    requires top.Some? ==> top.value < DEFAULT_COLOR
    requires bottom.Some? ==> bottom.value < DEFAULT_COLOR
    requires c == CellOf(top, bottom)
    ensures c.glyph == if top.Some? then 0x2580 else if bottom.Some? then 0x2584 else 0x20
    ensures c.fg == if top.Some? then top.value else if bottom.Some? then bottom.value else 0x100_0000
    ensures c.bg == if top.Some? && bottom.Some? then bottom.value else 0x100_0000
  {
  }

  // ----- the cells as text -----

  /** A word's bytes, least significant first. */
  function WordBytes(w: Word): seq<Byte>
  {
    var b1: int, b2: int, b3: int := w / 256, w / 65_536, w / 16_777_216;
    [w % 256, b1 % 256, b2 % 256, b3 % 256]
  }

  function LittleEndian(words: seq<Word>): (bytes: seq<Byte>)
    ensures |bytes| == 4 * |words|
  {
    if words == [] then [] else LittleEndian(words[..|words| - 1]) + WordBytes(words[|words| - 1])
  }

  function WordOf(bytes: seq<Byte>): Word
    requires |bytes| == 4
  {
    var b1: int, b2: int, b3: int := bytes[1], bytes[2], bytes[3];
    bytes[0] + b1 * 256 + b2 * 65_536 + b3 * 16_777_216
  }

  function WordsOf(bytes: seq<Byte>): seq<Word>
  {
    if |bytes| < 4 then [] else WordsOf(bytes[..|bytes| - 4]) + [WordOf(bytes[|bytes| - 4..])]
  }

  lemma {:induction false} WordBack(w: Word)
    ensures WordOf(WordBytes(w)) == w
  {
    assert w / 256 / 256 == w / 65_536 && w / 65_536 / 256 == w / 16_777_216;
  }

  lemma {:induction false} WordsBack(words: seq<Word>)
    ensures WordsOf(LittleEndian(words)) == words
  {
    if words != [] {
      var front, w := words[..|words| - 1], words[|words| - 1];
      WordsBack(front);
      WordBack(w);
      var bytes := LittleEndian(front) + WordBytes(w);
      assert bytes[..|bytes| - 4] == LittleEndian(front) && bytes[|bytes| - 4..] == WordBytes(w);
      assert words == front + [w];
    }
  }

  /** `cellsToBase64`. */
  method CellsToBase64(cells: seq<Word>) returns (text: string)
    ensures text == Encode(LittleEndian(cells))
  {
    var bytes := new Byte[|cells| * 4];
    for i := 0 to |cells|
      invariant bytes[..4 * i] == LittleEndian(cells[..i])
    {
      assert cells[..i + 1][..i] == cells[..i];
      ghost var was := bytes[..4 * i];
      var b := WordBytes(cells[i]);
      bytes[4 * i], bytes[4 * i + 1], bytes[4 * i + 2], bytes[4 * i + 3] := b[0], b[1], b[2], b[3];
      assert bytes[..4 * i] == was;
      assert bytes[..4 * (i + 1)] == was + b;
    }
    assert bytes[..] == bytes[..4 * |cells|] && cells[..|cells|] == cells;
    text := ToBase64(bytes[..]);
  }

  /** The cells a text stands for. */
  function CellsIn(text: string): seq<Word> { WordsOf(Decode(Symbols(text))) }

  lemma {:induction false} CellsBack(cells: seq<Word>)
    ensures CellsIn(Encode(LittleEndian(cells))) == cells
  {
    RoundTrip(LittleEndian(cells));
    WordsBack(cells);
  }

  /** The whole way: each pixel of a picture is read off the text its cells become. */
  lemma {:induction false} PixelInText(cells: seq<Word>, rgba: seq<Byte>, width: nat, height: nat, x: nat, y: nat)
    requires Packed(cells, rgba, width, height, Rows(height), 0) && x < width && y < height
    ensures Shown(CellsIn(Encode(LittleEndian(cells))), width, x, y) == Pixel(rgba, width, height, x, y)
  {
    CellsBack(cells);
    PixelShown(cells, rgba, width, height, x, y);
  }
}
