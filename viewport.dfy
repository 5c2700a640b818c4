/** The edit-mode half of ice.c's draw_screen: the vertical and horizontal shifts
    that keep the cursor on screen, and the cells the line list is drawn into.
    The shifts are computed in size_t, whose arithmetic wraps modulo 2^64, so a
    terminal under two rows or zero columns wide is modelled as the code has it. */
module Viewport {
  import opened Support
  import opened IceList
  import Ice
  import EditModel

  const SIZE_MOD: int := 0x1_0000_0000_0000_0000

  /** size_t. */
  type SizeT = x: int | 0 <= x < SIZE_MOD

  /** A value converted to size_t. */
  function AsSize(n: int): (r: SizeT)
    ensures 0 <= n ==> r <= n
    ensures 0 <= n < SIZE_MOD ==> r == n
  {
    n % SIZE_MOD
  }

  /** size_t subtraction and addition. */
  function Sub(a: SizeT, b: SizeT): SizeT {
    AsSize(a - b)
  }

  function Add(a: SizeT, b: SizeT): SizeT {
    AsSize(a + b)
  }

  /** The vertical shift for the current line's index `line` on a terminal `th`
      rows tall: rows 0 to th - 2 hold lines, the last row the status line. The
      current line lands on one of them, on the lowest one whenever the list is
      scrolled at all; on a terminal under two rows th - 2 wraps around and the
      list is not scrolled. */
  function VShift(line: SizeT, th: SizeT): (v: SizeT)
    ensures 2 <= th ==> v <= line && line - v <= th - 2
    ensures 2 <= th && 0 < v ==> line - v == th - 2
    ensures th < 2 && line <= SIZE_MOD - 2 + th ==> v == 0
  {
    if line > Sub(th, 2) then Add(Sub(line, th), 2) else 0
  }

  /** The horizontal shift for the cursor offset `cp` on a terminal `tw` columns
      wide: the cursor lands in a column of the screen, the rightmost one whenever
      the line is scrolled at all; on a terminal zero columns wide tw - 1 wraps
      around and nothing is scrolled. */
  function HShift(cp: SizeT, tw: SizeT): (h: SizeT)
    ensures h <= cp
    ensures 1 <= tw ==> cp - h <= tw - 1
    ensures 1 <= tw && 0 < h ==> cp - h == tw - 1
    ensures tw == 0 ==> h == 0
  {
    if cp > Sub(tw, 1) then Add(Sub(cp, tw), 1) else 0
  }

  /** The loop that counts the nodes from head up to the current line: the count
      is the current line's position, as a size_t. */
  method LineIndex(st: Ice.State) returns (line: SizeT)
    requires st.Valid()
    ensures line == AsSize(st.row)
  {
    DistinctOthers<Line>(st.lines.Nodes, st.row);
    var l := st.lines.head;
    line := 0;
    ghost var i := 0;
    while l != st.cl
      invariant i <= st.row && l == st.lines.Nodes[i] && line == AsSize(i)
      decreases st.row - i
    {
      line := Add(line, 1);
      l := l.next;
      i := i + 1;
    }
  }

  /** One cell draw_screen sets in edit mode: its column and row on screen, its
      character, and whether it has the cursor's colours (black on the accent
      colour) rather than the default ones. */
  datatype Cell = Cell(x: int, y: int, ch: char, cursor: bool)

  /** The cell for the character of `t` at column hshift + j, drawn at screen
      column j of row y, in the cursor's colours when it is at the cursor. */
  function CharCell(t: seq<char>, y: int, hshift: nat, current: bool, cp: nat, j: int): Cell
    requires 0 <= j && hshift + j < |t|
  {
    Cell(j, y, t[hshift + j], current && hshift + j == cp)
  }

  /** The cells for the characters of `t` from column hshift on, drawn on screen
      row y. */
  function Span(t: seq<char>, y: int, hshift: nat, current: bool, cp: nat): seq<Cell> {
    if |t| <= hshift then []
    else seq(|t| - hshift, j requires 0 <= j < |t| - hshift => CharCell(t, y, hshift, current, cp, j))
  }

  /** The cells of one line: its characters, and for the current line with the
      cursor at its end, a blank in the cursor's colours just after them. */
  function LineCells(t: seq<char>, y: int, hshift: nat, current: bool, cp: nat): seq<Cell> {
    Span(t, y, hshift, current, cp) + (if current && cp == |t| then [Cell(|t| - hshift, y, ' ', true)] else [])
  }

  /** Every character from column hshift on has its cell in the span, and there
      is no other cell. */
  lemma SpanCells(t: seq<char>, y: int, hshift: nat, current: bool, cp: nat)
    ensures var r := Span(t, y, hshift, current, cp);
            && (forall c :: c in r ==> 0 <= c.x && hshift + c.x < |t| && c == CharCell(t, y, hshift, current, cp, c.x))
            && (forall j :: 0 <= j && hshift + j < |t| ==> CharCell(t, y, hshift, current, cp, j) in r)
  {
    var r := Span(t, y, hshift, current, cp);
    assert forall j :: 0 <= j && hshift + j < |t| ==> r[j] == CharCell(t, y, hshift, current, cp, j);
  }

  /** A line draws a cell for each of its characters from column hshift on, the
      cursor's blank after them when it is the current line with the cursor at
      its end, and nothing else. */
  lemma LineCellsMeaning(t: seq<char>, y: int, hshift: nat, current: bool, cp: nat)
    ensures var r := LineCells(t, y, hshift, current, cp);
            && (forall c :: c in r ==> || (0 <= c.x && hshift + c.x < |t| && c == CharCell(t, y, hshift, current, cp, c.x))
                                       || (current && cp == |t| && c == Cell(|t| - hshift, y, ' ', true)))
            && (forall j :: 0 <= j && hshift + j < |t| ==> CharCell(t, y, hshift, current, cp, j) in r)
            && (current && cp == |t| ==> Cell(|t| - hshift, y, ' ', true) in r)
  {
    SpanCells(t, y, hshift, current, cp);
  }

  /** The cells line i of `ls` draws: none above vshift, otherwise its cells on
      row i - vshift, as the current line when i is `row`. */
  function RowCells(ls: seq<seq<char>>, i: nat, row: nat, cp: nat, vshift: nat, hshift: nat): seq<Cell>
    requires i < |ls|
  {
    if i < vshift then [] else LineCells(ls[i], i - vshift, hshift, i == row, cp)
  }

  /** What the first n lines of `ls` draw, line by line. */
  function Rows(ls: seq<seq<char>>, n: nat, row: nat, cp: nat, vshift: nat, hshift: nat): seq<seq<Cell>>
    requires n <= |ls|
  {
    seq(n, i requires 0 <= i < n => RowCells(ls, i, row, cp, vshift, hshift))
  }

  /** Everything the edit screen draws for the buffer with the given shifts, as
      the cells each line draws, in list order. */
  function Plan(d: EditModel.Doc, vshift: nat, hshift: nat): seq<seq<Cell>> {
    Rows(d.lines, |d.lines|, d.row, d.cp, vshift, hshift)
  }

  /** Drawing one more line adds its cells at the end. */
  lemma RowsSnoc(ls: seq<seq<char>>, n: nat, row: nat, cp: nat, vshift: nat, hshift: nat)
    requires n < |ls|
    ensures Rows(ls, n + 1, row, cp, vshift, hshift) == Rows(ls, n, row, cp, vshift, hshift) + [RowCells(ls, n, row, cp, vshift, hshift)]
  {
    var a, b := Rows(ls, n + 1, row, cp, vshift, hshift), Rows(ls, n, row, cp, vshift, hshift);
    assert |a| == |b| + 1;
    forall i | 0 <= i < n
      ensures a[i] == b[i]
    {
    }
  }

  /** The character the cursor is drawn on: the one under it, or a blank at the
      end of the line. */
  function CursorChar(t: seq<char>, cp: nat): char {
    if cp < |t| then t[cp] else ' '
  }

  /** What a cell means: it stands for column x + hshift of line y + vshift, and
      either shows the character there, with the cursor's colours exactly when
      that is the cursor's position, or is the cursor's blank at the end of the
      current line. */
  predicate Shows(ls: seq<seq<char>>, row: nat, cp: nat, vshift: nat, hshift: nat, c: Cell) {
    && 0 <= c.x && 0 <= c.y && c.y + vshift < |ls|
    && var t, col := ls[c.y + vshift], c.x + hshift;
       || (col < |t| && c.ch == t[col] && c.cursor == (c.y + vshift == row && col == cp))
       || (c.cursor && c.y + vshift == row && col == cp == |t| && c.ch == ' ')
  }

  /** Every cell a line draws stands for the character it shows. */
  lemma RowCellsShow(ls: seq<seq<char>>, i: nat, row: nat, cp: nat, vshift: nat, hshift: nat)
    requires i < |ls| && hshift <= cp
    ensures forall c :: c in RowCells(ls, i, row, cp, vshift, hshift) ==> Shows(ls, row, cp, vshift, hshift, c)
  {
    if vshift <= i {
      var t, y := ls[i], i - vshift;
      var s := Span(t, y, hshift, i == row, cp);
      forall c | c in s
        ensures Shows(ls, row, cp, vshift, hshift, c)
      {
        var j :| 0 <= j < |s| && s[j] == c;
        assert c == Cell(j, y, t[hshift + j], i == row && hshift + j == cp);
      }
    }
  }

  /** The current line's cells hold the cursor's cell. */
  lemma LineCellsHaveCursor(t: seq<char>, y: int, hshift: nat, cp: nat)
    requires hshift <= cp <= |t|
    ensures Cell(cp - hshift, y, CursorChar(t, cp), true) in LineCells(t, y, hshift, true, cp)
  {
    var c := Cell(cp - hshift, y, CursorChar(t, cp), true);
    var s := Span(t, y, hshift, true, cp);
    if cp < |t| {
      assert s[cp - hshift] == c;
    } else {
      assert LineCells(t, y, hshift, true, cp) == s + [c];
    }
  }

  /** The plan draws the cursor on the character under it (a blank at the end
      of the line), at the cursor's position less the shifts, and every cell
      shows the character at its shifted position; by Shows, no other cell has
      the cursor's colours. */
  predicate CursorDrawn(d: EditModel.Doc, v: nat, h: nat)
    requires d.row < |d.lines| && v <= d.row && h <= d.cp
  {
    var p := Plan(d, v, h);
    && Cell(d.cp - h, d.row - v, CursorChar(d.lines[d.row], d.cp), true) in p[d.row]
    && (forall i, c :: 0 <= i < |p| && c in p[i] ==> Shows(d.lines, d.row, d.cp, v, h, c))
  }

  /** Whatever the shifts, as long as they do not pass the cursor, the plan draws
      the cursor as it should. */
  lemma PlanDrawsCursor(d: EditModel.Doc, v: nat, h: nat)
    requires d.row < |d.lines| && d.cp <= |d.lines[d.row]| && v <= d.row && h <= d.cp
    ensures CursorDrawn(d, v, h)
  {
    PlanShows(d, v, h);
    LineCellsHaveCursor(d.lines[d.row], d.row - v, h, d.cp);
    assert Plan(d, v, h)[d.row] == RowCells(d.lines, d.row, d.row, d.cp, v, h);
  }

  /** Every cell of the plan shows the character at its shifted position. */
  lemma PlanShows(d: EditModel.Doc, v: nat, h: nat)
    requires h <= d.cp
    ensures var p := Plan(d, v, h);
            forall i, c :: 0 <= i < |p| && c in p[i] ==> Shows(d.lines, d.row, d.cp, v, h, c)
  {
    var p := Plan(d, v, h);
    forall i | 0 <= i < |p|
      ensures forall c :: c in p[i] ==> Shows(d.lines, d.row, d.cp, v, h, c)
    {
      RowCellsShow(d.lines, i, d.row, d.cp, v, h);
    }
  }

  lemma CursorOnScreen(d: EditModel.Doc, th: SizeT, tw: SizeT)
    requires EditModel.Wf(d) && 2 <= th && 1 <= tw
    requires d.row < SIZE_MOD && d.cp < SIZE_MOD
    ensures var v, h := VShift(d.row, th), HShift(d.cp, tw);
      && 0 <= d.cp - h <= tw - 1 && 0 <= d.row - v <= th - 2
      && CursorDrawn(d, v, h)
  {
    PlanDrawsCursor(d, VShift(d.row, th), HShift(d.cp, tw));
  }

  /** Drawing one more character of a line adds its cell at the end. */
  lemma SpanSnoc(t: seq<char>, x: nat, y: int, hshift: nat, current: bool, cp: nat)
    requires hshift <= x < |t|
    ensures Span(t[..x + 1], y, hshift, current, cp) == Span(t[..x], y, hshift, current, cp) + [Cell(x - hshift, y, t[x], current && x == cp)]
  {
    var a, b := Span(t[..x + 1], y, hshift, current, cp), Span(t[..x], y, hshift, current, cp);
    assert |a| == |b| + 1;
    forall j | 0 <= j < |b|
      ensures a[j] == b[j]
    {
    }
  }

  /** draw_screen's loop over the characters of one line from column hshift on
      (the current line's loop and the other lines' loop, which differ only in
      the cursor's colours), then the cursor's blank after the current line. */
  method DrawLine(l: Line, y: int, hshift: SizeT, current: bool, cp: nat) returns (cells: seq<Cell>)
    requires l.Valid()
    ensures cells == LineCells(l.Text, y, hshift, current, cp)
  {
    cells := [];
    var x: nat := hshift;
    while x < l.len
      invariant hshift <= x && (hshift <= l.len ==> x <= l.len)
      invariant cells == Span(l.Text[..if x < l.len then x else l.len], y, hshift, current, cp)
    {
      SpanSnoc(l.Text, x, y, hshift, current, cp);
      cells := cells + [Cell(x - hshift, y, l.buf[x], current && x == cp)];
      x := x + 1;
    }
    assert l.Text[..l.len] == l.Text;
    if current && cp == l.len {
      cells := cells + [Cell(l.len - hshift, y, ' ', true)];
    }
  }

  /** One pass of draw_screen's loop: a line above the window is skipped
      (`continue`), any other line is drawn on screen row y - vshift. */
  method DrawRow(l: Line, y: nat, current: bool, cp: nat, vshift: SizeT, hshift: SizeT) returns (cells: seq<Cell>)
    requires l.Valid()
    ensures y < vshift ==> cells == []
    ensures vshift <= y ==> cells == LineCells(l.Text, y - vshift, hshift, current, cp)
  {
    cells := [];
    if y >= vshift {
      cells := DrawLine(l, y - vshift, hshift, current, cp);
    }
  }

  /** The node at position y of a well-formed list holds line y, and it is the
      node at position row exactly when y == row. */
  lemma NodeAt(list: LineList, y: nat, row: nat)
    requires list.Valid() && y < |list.Nodes| && row < |list.Nodes|
    ensures list.Nodes[y].Valid() && list.Nodes[y].Text == list.Contents[y]
    ensures list.Nodes[y] == list.Nodes[row] <==> y == row
  {
    assert Owns(list.Nodes[y], list.Bufs[y], list.Contents[y]);
    DistinctOthers<Line>(list.Nodes, row);
  }

  /** draw_screen's loop over the lines from head on. */
  method DrawLines(st: Ice.State, vshift: SizeT, hshift: SizeT) returns (cells: seq<seq<Cell>>)
    requires st.lines.Valid() && st.row < |st.lines.Nodes| && st.cl == st.lines.Nodes[st.row]
    ensures cells == Rows(st.lines.Contents, |st.lines.Contents|, st.row, st.cp, vshift, hshift)
  {
    var l := st.lines.head;
    var y: nat := 0;
    cells := [];
    while l != null
      invariant y <= |st.lines.Nodes| && l == (if y == |st.lines.Nodes| then null else st.lines.Nodes[y])
      invariant cells == Rows(st.lines.Contents, y, st.row, st.cp, vshift, hshift)
      decreases |st.lines.Nodes| - y
    {
      NodeAt(st.lines, y, st.row);
      var more := DrawRow(l, y, l == st.cl, st.cp, vshift, hshift);
      RowsSnoc(st.lines.Contents, y, st.row, st.cp, vshift, hshift);
      cells := cells + [more];
      l := l.next;
      y := y + 1;
    }
  }

  /** The edit-mode branch of draw_screen: the current line's index counted from
      head, the two shifts, then the lines. */
  method DrawEdit(st: Ice.State, th: SizeT, tw: SizeT) returns (vshift: SizeT, hshift: SizeT, cells: seq<seq<Cell>>)
    requires st.Valid()
    ensures vshift == VShift(AsSize(st.row), th) && hshift == HShift(AsSize(st.cp), tw)
    ensures cells == Plan(st.Doc(), vshift, hshift)
  {
    var line := LineIndex(st);
    vshift := VShift(line, th);
    hshift := HShift(AsSize(st.cp), tw);
    cells := DrawLines(st, vshift, hshift);
  }
}
