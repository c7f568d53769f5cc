/** The table: its columns' widths as rows are added, and its rows as they render (`table.rs`). */
module Table {
  import opened Basics
  import opened TableFit
  import Width

  /** Bytes of a character in UTF-8. */
  function Bytes(c: char): nat
  {
    if c < '\U{80}' then 1 else if c < '\U{800}' then 2 else if c < '\U{10000}' then 3 else 4
  }

  function ByteLength(s: string): nat { if s == "" then 0 else Bytes(s[0]) + ByteLength(s[1..]) }

  /** The characters that so many bytes of UTF-8 can hold, section 3 of RFC 3629. */
  function Capacity(bytes: nat): nat
  {
    if bytes == 1 then 0x80 else if bytes == 2 then 0x800 else if bytes == 3 then 0x1_0000
    else if bytes == 4 then 0x11_0000 else 0
  }

  /** A character takes the fewest bytes that can hold it, and a text takes its characters' together. */
  lemma {:induction false} BytesFewest(c: char, a: string, b: string)
    ensures 1 <= Bytes(c) <= 4 && Capacity(Bytes(c) - 1) <= c as int < Capacity(Bytes(c))
    ensures ByteLength([c]) == Bytes(c) && ByteLength(a + b) == ByteLength(a) + ByteLength(b)
    decreases |a|
  {
    assert [c][1..] == "";
    if a == "" {
      assert a + b == b;
    } else {
      assert (a + b)[1..] == a[1..] + b;
      BytesFewest(c, a[1..], b);
    }
  }

  function Visible(s: string): nat { Width.Vis(s, false) }

  /** The widest cell of column `i` in the first `n` rows, and the header's bytes. */
  function Widest(header: string, rows: seq<seq<string>>, i: nat): nat
  {
    if rows == [] then ByteLength(header) else
    var last := rows[|rows| - 1];
    var before := Widest(header, rows[..|rows| - 1], i);
    if i < |last| then Max(before, Visible(last[i])) else before
  }

  lemma {:induction false} WidestMore(header: string, rows: seq<seq<string>>, row: seq<string>, i: nat)
    ensures Widest(header, rows + [row], i)
         == if i < |row| then Max(Widest(header, rows, i), Visible(row[i])) else Widest(header, rows, i)
  {
    var more := rows + [row];
    assert more[..|more| - 1] == rows;
  }

  /** It is as wide as the header's bytes and every cell, and as one of them. */
  lemma {:induction false} WidestIs(header: string, rows: seq<seq<string>>, i: nat)
    ensures Widest(header, rows, i) >= ByteLength(header)
    ensures forall r | 0 <= r < |rows| && i < |rows[r]| :: Widest(header, rows, i) >= Visible(rows[r][i])
    ensures Widest(header, rows, i) == ByteLength(header)
         || exists r :: 0 <= r < |rows| && i < |rows[r]| && Widest(header, rows, i) == Visible(rows[r][i])
  {
    if rows != [] {
      var n := |rows| - 1;
      WidestIs(header, rows[..n], i);
      assert forall r | 0 <= r < n :: rows[..n][r] == rows[r];
    }
  }

  function Min(a: nat, b: nat): nat { if a < b then a else b }

  /** A column is as wide as its cells, within its cap. */
  function Capped(widths: seq<nat>, caps: seq<Option<nat>>, aligns: seq<Align>, pinned: seq<bool>): (cols: seq<Column>)
    requires |widths| == |caps| == |aligns| == |pinned|
    ensures |cols| == |widths| && forall i | 0 <= i < |cols| ::
              && cols[i].width <= widths[i] && (caps[i].Some? ==> cols[i].width <= caps[i].value)
              && (cols[i].width == widths[i] || caps[i] == Some(cols[i].width))
              && cols[i].align == aligns[i] && cols[i].pinned == pinned[i]
  {
    seq(|widths|, i requires 0 <= i < |widths| =>
      Column(if caps[i].Some? && caps[i].value < widths[i] then caps[i].value else widths[i], aligns[i], pinned[i]))
  }

  class Table {
    var headers: seq<string>
    var rows: seq<seq<string>>
    var aligns: seq<Align>
    var maxWidths: seq<nat>
    var caps: seq<Option<nat>>
    var pinned: seq<bool>
    var indent: nat

    ghost predicate Valid()
      reads this
    {
      && |aligns| == |maxWidths| == |caps| == |pinned| == |headers|
      && forall i | 0 <= i < |headers| :: maxWidths[i] == Widest(headers[i], rows, i)
    }

    constructor (headers: seq<string>)
      ensures Valid() && this.headers == headers && rows == [] && indent == 2
      ensures forall i | 0 <= i < |headers| :: aligns[i] == Left && caps[i] == None && !pinned[i]
    {
      this.headers := headers;
      rows := [];
      aligns := seq(|headers|, _ => Left);
      maxWidths := seq(|headers|, i requires 0 <= i < |headers| => ByteLength(headers[i]));
      caps := seq(|headers|, _ => None);
      pinned := seq(|headers|, _ => false);
      indent := 2;
    }

    method SetAlign(col: nat, a: Align)
      requires Valid()
      modifies this`aligns
      ensures Valid() && aligns == if col < |old(aligns)| then old(aligns)[col := a] else old(aligns)
    {
      if col < |aligns| { aligns := aligns[col := a]; }
    }

    method MaxWidth(col: nat, width: nat)
      requires Valid()
      modifies this`caps
      ensures Valid() && caps == if col < |old(caps)| then old(caps)[col := Some(width)] else old(caps)
    {
      if col < |caps| { caps := caps[col := Some(width)]; }
    }

    method Pin(col: nat)
      requires Valid()
      modifies this`pinned
      ensures Valid() && pinned == if col < |old(pinned)| then old(pinned)[col := true] else old(pinned)
    {
      if col < |pinned| { pinned := pinned[col := true]; }
    }

    /** A row of any length: each column stays as wide as its widest cell. */
    method Add(row: seq<string>)
      requires Valid()
      modifies this`rows, this`maxWidths
      ensures Valid() && rows == old(rows) + [row]
    {
      ghost var was := maxWidths;
      for i := 0 to |row|
        invariant |maxWidths| == |was| && rows == old(rows)
        invariant forall j | 0 <= j < |was| ::
          maxWidths[j] == if j < i then Max(was[j], Visible(row[j])) else was[j]
      {
        if i < |maxWidths| {
          var visible := Width.VisibleLen(row[i]);
          if visible > maxWidths[i] {
            maxWidths := maxWidths[i := visible];
          }
        }
      }
      forall j | 0 <= j < |headers| ensures maxWidths[j] == Widest(headers[j], rows + [row], j) {
        WidestMore(headers[j], rows, row, j);
      }
      rows := rows + [row];
    }

    /** The columns as the fit sees them: capped, aligned, pinned or not. */
    function Columns(): (cols: seq<Column>)
      requires Valid()
      reads this
      ensures |cols| == |headers| && forall i | 0 <= i < |headers| ::
                && cols[i].align == aligns[i] && cols[i].pinned == pinned[i]
                && cols[i].width == if caps[i].Some? then Min(caps[i].value, maxWidths[i]) else maxWidths[i]
    {
      Capped(maxWidths, caps, aligns, pinned)
    }

    /** The widths of the table at a terminal's width. */
    method FitWidths(term: Option<nat>) returns (ws: seq<nat>, ghost fit: seq<nat>)
      requires Valid()
      ensures term.None? || Columns() == [] ==> ws == Starts(Columns())
      ensures term.Some? && Columns() != [] ==>
        var available := Available(term.value, indent, |Columns()|);
        Fitted(Columns(), fit, available) && ws == Spread(fit, available)
    {
      ws, fit := Widths(Columns(), indent, term);
    }
  }

  // ----- rows -----

  function PadCell(s: string, width: nat, align: Align): string
  {
    if Visible(s) >= width then s
    else if align == Left then s + Width.Spaces(width - Visible(s))
    else Width.Spaces(width - Visible(s)) + s
  }

  function WidthAt(ws: seq<nat>, i: nat): nat { if i < |ws| then ws[i] else 10 }

  function AlignAt(aligns: seq<Align>, i: nat): Align { if i < |aligns| then aligns[i] else Left }

  function Cell(row: seq<string>, ws: seq<nat>, aligns: seq<Align>, reset: string, i: nat): string
    requires i < |row|
  {
    PadCell(Width.Truncate(row[i], WidthAt(ws, i), reset), WidthAt(ws, i), AlignAt(aligns, i))
  }

  /** The first `n` cells, a space between each pair. */
  function Cells(row: seq<string>, ws: seq<nat>, aligns: seq<Align>, reset: string, n: nat): string
    requires n <= |row|
  {
    if n == 0 then "" else
    Cells(row, ws, aligns, reset, n - 1) + ((if n > 1 then " " else "") + Cell(row, ws, aligns, reset, n - 1))
  }

  /** A row as `render` writes it, without its newline. */
  method RenderRow(row: seq<string>, ws: seq<nat>, aligns: seq<Align>, indent: nat, reset: string)
    returns (text: string)
    ensures text == Width.Spaces(indent) + Cells(row, ws, aligns, reset, |row|)
  {
    var line := "";
    for i := 0 to |row|
      invariant line == Cells(row, ws, aligns, reset, i)
    {
      var piece := "";
      if i > 0 { piece := " "; }
      line := line + (piece + Cell(row, ws, aligns, reset, i));
    }
    text := Width.Spaces(indent) + line;
  }

  lemma {:induction false} PadExact(t: string, width: nat, align: Align)
    requires !Width.Ends(t, false) && Visible(t) <= width
    ensures Visible(PadCell(t, width, align)) == width && !Width.Ends(PadCell(t, width, align), false)
  {
    var n := width - Visible(t);
    Width.SpacesShown(n, false);
    Width.VisConcat(t, Width.Spaces(n), false);
    Width.VisConcat(Width.Spaces(n), t, false);
  }

  /** A cell that does not end inside a sequence fills its column exactly. */
  lemma {:induction false} CellExact(s: string, width: nat, align: Align, reset: string)
    requires Width.IsSequence(reset) && width >= 1 && !Width.Ends(s, false)
    ensures var c := PadCell(Width.Truncate(s, width, reset), width, align);
            Visible(c) == width && !Width.Ends(c, false)
  {
    Width.TruncateWidth(s, width, reset);
    PadExact(Width.Truncate(s, width, reset), width, align);
  }

  /** A cell shows its text, truncated, with the padding on the side its column is not aligned to. */
  lemma {:induction false} CellShows(s: string, width: nat, align: Align, reset: string)
    requires Width.IsSequence(reset) && width >= 1 && !Width.Ends(s, false)
    ensures var t := Width.Truncate(s, width, reset);
            var pad := Width.Spaces(width - (if Visible(s) < width then Visible(s) else width));
            Width.Text(PadCell(t, width, align), false)
              == if align == Left then Width.Text(t, false) + pad else pad + Width.Text(t, false)
  {
    var t := Width.Truncate(s, width, reset);
    Width.TruncateWidth(s, width, reset);
    var n := width - Visible(t);
    Width.SpacesText(n);
    Width.SpacesShown(n, false);
    Width.TextConcat(t, Width.Spaces(n), false);
    Width.TextConcat(Width.Spaces(n), t, false);
    assert Width.Spaces(0) == "" && Width.Text(t, false) + "" == Width.Text(t, false) == "" + Width.Text(t, false);
  }

  /** What a cell of a text shows in `width` places: the text, or as much as leaves room for an ellipsis, and
      spaces on the side it is not aligned to. */
  function ShownCell(text: string, width: nat, align: Align): (shown: string)
    requires width >= 1
    ensures |shown| == width
  {
    var cut := if |text| <= width then text else text[..width - 1] + [Width.ELLIPSIS];
    SpacesLong(width - |cut|);
    if align == Left then cut + Width.Spaces(width - |cut|) else Width.Spaces(width - |cut|) + cut
  }

  lemma {:induction false} SpacesLong(n: nat)
    ensures |Width.Spaces(n)| == n
  {
    if n > 0 { SpacesLong(n - 1); }
  }

  lemma {:induction false} ShownIs(text: string, width: nat, align: Align, cut: string, pad: string)
    requires width >= 1 && cut == if |text| <= width then text else text[..width - 1] + [Width.ELLIPSIS]
    requires |cut| <= width && pad == Width.Spaces(width - |cut|)
    ensures ShownCell(text, width, align) == if align == Left then cut + pad else pad + cut
  {
  }

  lemma {:induction false} CutText(s: string, width: nat, reset: string, text: string, cut: string)
    requires Width.IsSequence(reset) && width >= 1 && text == Width.Text(s, false)
    requires cut == if |text| <= width then text else text[..width - 1] + [Width.ELLIPSIS]
    ensures Width.Text(Width.Truncate(s, width, reset), false) == cut
    ensures |cut| == if Visible(s) < width then Visible(s) else width
  {
    if Visible(s) > width { Width.TruncateShows(s, width, reset); }
  }

  lemma {:induction false} CellText(s: string, width: nat, align: Align, reset: string)
    requires Width.IsSequence(reset) && width >= 1 && !Width.Ends(s, false)
    ensures Width.Text(PadCell(Width.Truncate(s, width, reset), width, align), false)
         == ShownCell(Width.Text(s, false), width, align)
  {
    var text := Width.Text(s, false);
    var cut := if |text| <= width then text else text[..width - 1] + [Width.ELLIPSIS];
    CutText(s, width, reset, text, cut);
    CellShows(s, width, align, reset);
    ShownIs(text, width, align, cut, Width.Spaces(width - |cut|));
  }

  /** The columns' widths, as far as the row goes. */
  function Columned(ws: seq<nat>, n: nat): nat { if n == 0 then 0 else Columned(ws, n - 1) + WidthAt(ws, n - 1) }

  predicate Closed(row: seq<string>) { forall i | 0 <= i < |row| :: !Width.Ends(row[i], false) }

  predicate Roomy(ws: seq<nat>) { forall i | 0 <= i < |ws| :: ws[i] >= 1 }

  lemma {:induction false} CellsExact(row: seq<string>, ws: seq<nat>, aligns: seq<Align>, reset: string, n: nat)
    requires n <= |row| && Width.IsSequence(reset) && Closed(row) && Roomy(ws)
    ensures var text := Cells(row, ws, aligns, reset, n);
            Visible(text) == Columned(ws, n) + (if n > 0 then n - 1 else 0) && !Width.Ends(text, false)
  {
    if n > 0 {
      CellsExact(row, ws, aligns, reset, n - 1);
      CellExact(row[n - 1], WidthAt(ws, n - 1), AlignAt(aligns, n - 1), reset);
      var before, cell := Cells(row, ws, aligns, reset, n - 1), Cell(row, ws, aligns, reset, n - 1);
      var sep := if n > 1 then " " else "";
      Width.SpacesShown(if n > 1 then 1 else 0, false);
      assert sep == Width.Spaces(if n > 1 then 1 else 0);
      Width.VisConcat(sep, cell, false);
      Width.VisConcat(before, sep + cell, false);
    }
  }

  /** Where column `i` starts behind the indent. */
  function Offset(ws: seq<nat>, i: nat): nat { Columned(ws, i) + i }

  lemma {:induction false} SliceKept(a: string, b: string, from: nat, to: nat)
    requires from <= to <= |a|
    ensures (a + b)[from..to] == a[from..to]
  {
  }

  lemma {:induction false} SliceLast(a: string, sep: string, b: string, from: nat, to: nat)
    requires from == |a| + |sep| && to == from + |b|
    ensures |a + sep + b| == to && (a + sep + b)[from..to] == b && (|sep| == 1 ==> (a + sep + b)[|a|] == sep[0])
  {
  }

  /** A text, a separator and one more cell show one after another. */
  lemma {:induction false} OneMore(before: string, sep: string, cell: string)
    requires sep in ["", " "] && !Width.Ends(before, false)
    ensures Width.Text(before + (sep + cell), false) == Width.Text(before, false) + sep + Width.Text(cell, false)
  {
    Width.SpacesText(|sep|);
    Width.SpacesShown(|sep|, false);
    assert Width.Spaces(1) == " " + Width.Spaces(0);
    assert sep == Width.Spaces(|sep|);
    Width.TextConcat(sep, cell, false);
    Width.TextConcat(before, sep + cell, false);
  }

  /** The cell at `from` of the shown text, a space before it unless it is the first. */
  predicate ShowsAt(text: string, from: nat, first: bool, cell: string)
  {
    from + |cell| <= |text| && text[from..from + |cell|] == cell && (!first ==> from > 0 && text[from - 1] == ' ')
  }

  lemma {:induction false} ShowsStill(a: string, b: string, from: nat, first: bool, cell: string)
    requires ShowsAt(a, from, first, cell)
    ensures ShowsAt(a + b, from, first, cell)
  {
    SliceKept(a, b, from, from + |cell|);
  }

  lemma {:induction false} ShowsLast(a: string, sep: string, cell: string, from: nat)
    requires sep in ["", " "] && from == |a| + |sep|
    ensures ShowsAt(a + sep + cell, from, sep == "", cell)
  {
    SliceLast(a, sep, cell, from, from + |cell|);
  }

  /** What the row shows in a column: its cell there, in the column's width and on its side, ten places and left
      where the table has no such column. */
  function ShownIn(row: seq<string>, ws: seq<nat>, aligns: seq<Align>, i: nat): string
    requires i < |row| && Roomy(ws)
  {
    ShownCell(Width.Text(row[i], false), if i < |ws| then ws[i] else 10, if i < |aligns| then aligns[i] else Left)
  }

  lemma {:induction false} ShownOne(row: seq<string>, ws: seq<nat>, aligns: seq<Align>, reset: string, i: nat)
    requires i < |row| && Width.IsSequence(reset) && Closed(row) && Roomy(ws)
    ensures Width.Text(Cell(row, ws, aligns, reset, i), false) == ShownIn(row, ws, aligns, i)
    ensures |ShownIn(row, ws, aligns, i)| == WidthAt(ws, i)
  {
    CellText(row[i], WidthAt(ws, i), AlignAt(aligns, i), reset);
  }

  function Shown(row: seq<string>, ws: seq<nat>, aligns: seq<Align>, reset: string, n: nat): string
    requires n <= |row|
  {
    Width.Text(Cells(row, ws, aligns, reset, n), false)
  }

  /** One cell more, behind the separator and at its column's place. */
  lemma {:induction false} ShownMore(row: seq<string>, ws: seq<nat>, aligns: seq<Align>, reset: string, n: nat,
                                     sep: string)
    requires n < |row| && Width.IsSequence(reset) && Closed(row) && Roomy(ws) && sep == if n > 0 then " " else ""
    ensures Shown(row, ws, aligns, reset, n + 1)
         == Shown(row, ws, aligns, reset, n) + sep + ShownIn(row, ws, aligns, n)
    ensures |Shown(row, ws, aligns, reset, n)| + |sep| == Offset(ws, n)
  {
    CellsExact(row, ws, aligns, reset, n);
    ShownOne(row, ws, aligns, reset, n);
    OneMore(Cells(row, ws, aligns, reset, n), sep, Cell(row, ws, aligns, reset, n));
  }

  /** What the first `n` of these show, a space between each pair. */
  function Line(cells: seq<string>, n: nat): string
    requires n <= |cells|
  {
    if n == 0 then "" else Line(cells, n - 1) + (if n > 1 then " " else "") + cells[n - 1]
  }

  /** Each stands behind those before it, at its place in the line. */
  lemma {:induction false} LineShows(cells: seq<string>, n: nat, i: nat, at: nat)
    requires i < n <= |cells| && at == |Line(cells, i)| + (if i > 0 then 1 else 0)
    ensures ShowsAt(Line(cells, n), at, i == 0, cells[i])
  {
    var sep := if n > 1 then " " else "";
    if i == n - 1 {
      ShowsLast(Line(cells, i), sep, cells[i], at);
    } else {
      LineShows(cells, n - 1, i, at);
      ShowsStill(Line(cells, n - 1), sep, at, i == 0, cells[i]);
      ShowsStill(Line(cells, n - 1) + sep, cells[n - 1], at, i == 0, cells[i]);
    }
  }

  /** What a row's columns show. */
  function AllShown(row: seq<string>, ws: seq<nat>, aligns: seq<Align>): (cells: seq<string>)
    requires Roomy(ws)
    ensures |cells| == |row| && forall i | 0 <= i < |row| :: cells[i] == ShownIn(row, ws, aligns, i)
  {
    seq(|row|, i requires 0 <= i < |row| => ShownIn(row, ws, aligns, i))
  }

  lemma {:induction false} ShownLine(row: seq<string>, ws: seq<nat>, aligns: seq<Align>, reset: string, n: nat)
    requires n <= |row| && Width.IsSequence(reset) && Closed(row) && Roomy(ws)
    ensures Shown(row, ws, aligns, reset, n) == Line(AllShown(row, ws, aligns), n)
  {
    if n > 0 {
      ShownLine(row, ws, aligns, reset, n - 1);
      ShownMore(row, ws, aligns, reset, n - 1, if n > 1 then " " else "");
    }
  }

  /** A row shows the indent and then, at each column's place and a space before it, that column's own cell. */
  lemma {:induction false} RowShows(row: seq<string>, ws: seq<nat>, aligns: seq<Align>, indent: nat, reset: string,
                                    i: nat, text: string)
    requires i < |row| && Width.IsSequence(reset) && Closed(row) && Roomy(ws)
    requires text == Width.Text(Width.Spaces(indent) + Cells(row, ws, aligns, reset, |row|), false)
    ensures Width.Spaces(indent) <= text && |Width.Spaces(indent)| == indent
    ensures ShowsAt(text[indent..], Offset(ws, i), i == 0, ShownIn(row, ws, aligns, i))
  {
    var cells := AllShown(row, ws, aligns);
    IndentedLine(row, ws, aligns, indent, reset, cells, text);
    PlaceOf(row, ws, aligns, reset, i, cells);
    LineShows(cells, |row|, i, Offset(ws, i));
  }

  lemma {:induction false} IndentedLine(row: seq<string>, ws: seq<nat>, aligns: seq<Align>, indent: nat, reset: string,
                                        cells: seq<string>, text: string)
    requires Width.IsSequence(reset) && Closed(row) && Roomy(ws) && cells == AllShown(row, ws, aligns)
    requires text == Width.Text(Width.Spaces(indent) + Cells(row, ws, aligns, reset, |row|), false)
    ensures Width.Spaces(indent) <= text && |Width.Spaces(indent)| == indent && text[indent..] == Line(cells, |row|)
  {
    ShownLine(row, ws, aligns, reset, |row|);
    IndentShown(indent, Cells(row, ws, aligns, reset, |row|));
  }

  lemma {:induction false} PlaceOf(row: seq<string>, ws: seq<nat>, aligns: seq<Align>, reset: string, i: nat,
                                   cells: seq<string>)
    requires i < |row| && Width.IsSequence(reset) && Closed(row) && Roomy(ws) && cells == AllShown(row, ws, aligns)
    ensures |Line(cells, i)| + (if i > 0 then 1 else 0) == Offset(ws, i)
  {
    ShownLine(row, ws, aligns, reset, i);
    ShownMore(row, ws, aligns, reset, i, if i > 0 then " " else "");
  }

  lemma {:induction false} IndentShown(indent: nat, cells: string)
    ensures var text := Width.Text(Width.Spaces(indent) + cells, false);
            && |Width.Spaces(indent)| == indent && Width.Spaces(indent) <= text
            && text[indent..] == Width.Text(cells, false)
  {
    Width.SpacesText(indent);
    Width.SpacesShown(indent, false);
    Width.TextConcat(Width.Spaces(indent), cells, false);
    SpacesLong(indent);
    Behind(Width.Spaces(indent), Width.Text(cells, false));
  }

  lemma {:induction false} Behind(a: string, b: string)
    ensures a <= a + b && (a + b)[|a|..] == b
  {
  }

  lemma {:induction false} ColumnedSum(ws: seq<nat>, n: nat)
    requires n <= |ws|
    ensures Columned(ws, n) == Sum(ws[..n])
  {
    if n > 0 {
      ColumnedSum(ws, n - 1);
      assert ws[..n][..n - 1] == ws[..n - 1];
    }
  }

  /** A row with a cell for every column is as wide as the indent, the columns and the spaces between. */
  lemma {:induction false} RowWidth(row: seq<string>, ws: seq<nat>, aligns: seq<Align>, indent: nat, reset: string)
    requires Width.IsSequence(reset) && Closed(row) && Roomy(ws) && |row| == |ws| > 0
    ensures Visible(Width.Spaces(indent) + Cells(row, ws, aligns, reset, |row|)) == indent + Sum(ws) + (|ws| - 1)
  {
    CellsExact(row, ws, aligns, reset, |row|);
    ColumnedSum(ws, |ws|);
    assert ws[..|ws|] == ws;
    Width.SpacesShown(indent, false);
    Width.VisConcat(Width.Spaces(indent), Cells(row, ws, aligns, reset, |row|), false);
  }

  /** In a table fitted to a terminal every full row is exactly as wide as the terminal, whenever the
      columns' floors leave room for the indent and the spaces; otherwise it is as narrow as they allow. */
  lemma {:induction false} RowFillsTerminal(row: seq<string>, cols: seq<Column>, fit: seq<nat>, aligns: seq<Align>,
                                            indent: nat, term: nat, reset: string)
    requires Width.IsSequence(reset) && Closed(row) && |row| == |cols| > 0
    requires var available := Available(term, indent, |cols|);
             Fitted(cols, fit, available) && Roomy(Spread(fit, available))
    ensures var ws := Spread(fit, Available(term, indent, |cols|));
            Visible(Width.Spaces(indent) + Cells(row, ws, aligns, reset, |row|))
              == Max(term, indent + Sum(Floors(cols)) + (|cols| - 1))
  {
    var available := Available(term, indent, |cols|);
    var ws := Spread(fit, available);
    WidthsFill(cols, fit, available);
    RowWidth(row, ws, aligns, indent, reset);
    TerminalSum(term, indent, |cols|, Sum(Floors(cols)));
  }

  lemma {:induction false} TerminalSum(term: nat, indent: nat, n: nat, floors: nat)
    requires n > 0
    ensures indent + Max(Available(term, indent, n), floors) + (n - 1) == Max(term, indent + floors + (n - 1))
  {
  }
}
