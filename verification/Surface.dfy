/**
 The terminal surface as the program stores it: one flat cell sequence, scrolled by rotation,
 with rows found by multiplication. Each method is proved to act on the rows it holds exactly
 like the list-of-lines operation of module ScreenSpec.
 */
module Surface {
  import opened Utf8
  import opened ScreenSpec

  // ---------- rows inside a flat sequence ----------

  /** Where row `r` starts; the program computes the product. */
  function Start(r: nat, w: nat): nat {
    if r == 0 then 0 else Start(r - 1, w) + w
  }

  lemma {:induction false} StartIsProduct(r: nat, w: nat)
    ensures Start(r, w) == r * w
  {
    if r > 0 {
      StartIsProduct(r - 1, w);
      assert r * w == (r - 1) * w + w;
    }
  }

  method RowStart(r: nat, w: nat) returns (start: nat)
    ensures start == Start(r, w)
  {
    StartIsProduct(r, w);
    start := r * w;
  }

  lemma {:induction false} RowFits(r: nat, w: nat, h: nat)
    requires r < h
    ensures Start(r, w) + w <= Start(h, w)
    decreases h - r
  {
    if r + 1 < h {
      RowFits(r + 1, w, h);
    }
  }

  ghost function RowAt(cells: seq<Cell>, w: nat, h: nat, r: nat): (line: Line)
    requires |cells| == Start(h, w) && r < h
    ensures |line| == w
    ensures forall c | 0 <= c < w :: 0 <= Start(r, w) + c < |cells| && line[c] == cells[Start(r, w) + c]
  {
    RowFits(r, w, h);
    cells[Start(r, w)..Start(r, w) + w]
  }

  ghost function RowsOf(cells: seq<Cell>, w: nat, h: nat): (rows: seq<Line>)
    requires |cells| == Start(h, w)
    ensures |rows| == h && forall r | 0 <= r < h :: rows[r] == RowAt(cells, w, h, r)
  {
    seq(h, r requires 0 <= r < h => RowAt(cells, w, h, r))
  }

  /** Flat positions compare as positions do in reading order; `col == w` is the next row's start. */
  lemma FlatOrder(r: nat, c: nat, row: nat, col: nat, w: nat)
    requires c < w && col <= w
    ensures Start(r, w) + c < Start(row, w) + col <==> Before(r, c, row, col)
    ensures col < w ==> (Start(r, w) + c == Start(row, w) + col <==> r == row && c == col)
  {
    if r < row {
      RowFits(r, w, row);
    } else if row < r {
      RowFits(row, w, r);
    }
  }

  lemma RowsAfterUpdate(cells: seq<Cell>, w: nat, h: nat, row: nat, col: nat, cell: Cell)
    requires |cells| == Start(h, w) && row < h && col < w
    ensures Start(row, w) + col < |cells|
    ensures RowsOf(cells[Start(row, w) + col := cell], w, h)
         == RowsOf(cells, w, h)[row := RowAt(cells, w, h, row)[col := cell]]
  {
    RowFits(row, w, h);
    var i := Start(row, w) + col;
    var target := RowsOf(cells, w, h)[row := RowAt(cells, w, h, row)[col := cell]];
    forall r | 0 <= r < h ensures RowAt(cells[i := cell], w, h, r) == target[r] {
      forall c | 0 <= c < w ensures RowAt(cells[i := cell], w, h, r)[c] == target[r][c] {
        FlatOrder(r, c, row, col, w);
      }
    }
  }

  /** `cells[from..to].fill(Cell::default())` */
  function Fill(cells: seq<Cell>, from: nat, to: nat): (filled: seq<Cell>)
    requires from <= to <= |cells|
    ensures |filled| == |cells|
    ensures forall i | 0 <= i < |cells| :: filled[i] == if from <= i < to then BLANK else cells[i]
  {
    cells[..from] + Blanks(to - from) + cells[to..]
  }

  /** Rotating by one row and blanking the tail drops the first line and adds a blank one. */
  lemma RowsAfterScroll(cells: seq<Cell>, w: nat, h: nat)
    requires 0 < h && |cells| == Start(h, w)
    ensures w <= |cells| && RowAt(cells, w, h, 0) == cells[..w]
    ensures RowsOf(Fill(cells[w..] + cells[..w], |cells| - w, |cells|), w, h)
         == RowsOf(cells, w, h)[1..] + [Blanks(w)]
  {
    RowFits(0, w, h);
    var moved := Fill(cells[w..] + cells[..w], |cells| - w, |cells|);
    var target := RowsOf(cells, w, h)[1..] + [Blanks(w)];
    forall r | 0 <= r < h ensures RowAt(moved, w, h, r) == target[r] {
      RowFits(r, w, h);
      assert Start(r + 1, w) == Start(r, w) + w;
      if r + 1 < h {
        RowFits(r + 1, w, h);
      }
    }
  }

  /** Copying `part` to the start of a row changes that row only. */
  lemma RowsAfterCopy(before: seq<Cell>, w: nat, h: nat, row: nat, part: Line)
    requires |before| == Start(h, w) && row < h && |part| <= w
    ensures Start(row, w) + |part| <= |before|
    ensures var after := before[..Start(row, w)] + part + before[Start(row, w) + |part|..];
            |after| == |before|
            && RowsOf(after, w, h) == RowsOf(before, w, h)[row := part + RowAt(before, w, h, row)[|part|..]]
  {
    RowFits(row, w, h);
    var after := before[..Start(row, w)] + part + before[Start(row, w) + |part|..];
    var target := RowsOf(before, w, h)[row := part + RowAt(before, w, h, row)[|part|..]];
    forall r | 0 <= r < h ensures RowAt(after, w, h, r) == target[r] {
      RowFits(r, w, h);
      if r < row {
        RowFits(r, w, row);
      } else if row < r {
        RowFits(row, w, r);
      }
    }
  }

  /** The copying loop of a resize. */
  method CopyCorner(cells: seq<Cell>, oldW: nat, oldH: nat, w: nat, h: nat, ghost target: seq<Line>)
      returns (replacement: seq<Cell>)
    requires |cells| == Start(oldH, oldW) && |target| == h
    requires forall r | 0 <= r < h :: |target[r]| == w
    requires forall r, c | 0 <= r < h && 0 <= c < w ::
      target[r][c] == if r < oldH && c < oldW then RowAt(cells, oldW, oldH, r)[c] else BLANK
    ensures |replacement| == Start(h, w) && RowsOf(replacement, w, h) == target
  {
    var size := RowStart(h, w);
    replacement := Blanks(size);
    var copyRows, copyCols := Min(oldH, h), Min(oldW, w);
    for row := 0 to copyRows
      invariant |replacement| == Start(h, w)
      invariant forall r | 0 <= r < h ::
        RowAt(replacement, w, h, r) == if r < row then target[r] else Blanks(w)
    {
      var oldStart := RowStart(row, oldW);
      var newStart := RowStart(row, w);
      RowFits(row, oldW, oldH);
      var part := cells[oldStart..oldStart + copyCols];
      RowsAfterCopy(replacement, w, h, row, part);
      ghost var before := RowsOf(replacement, w, h);
      assert part + before[row][copyCols..] == target[row];
      replacement := replacement[..newStart] + part + replacement[newStart + copyCols..];
      assert RowsOf(replacement, w, h) == before[row := target[row]];
    }
    assert forall r | copyRows <= r < h :: target[r] == Blanks(w);
  }

  /** Blanking a flat range erases the positions between its two ends. */
  lemma RowsAfterFill(cells: seq<Cell>, s: Screen, r0: nat, c0: nat, r1: nat, c1: nat, from: nat, to: nat)
    requires s.Valid() && |cells| == Start(s.height, s.width) && s.rows == RowsOf(cells, s.width, s.height)
    requires c0 <= s.width && c1 <= s.width && from <= to
    requires from == Start(r0, s.width) + c0 && to == Min(Start(r1, s.width) + c1, |cells|)
    ensures RowsOf(Fill(cells, from, to), s.width, s.height) == s.Erase(r0, c0, r1, c1).rows
  {
    var w, h, target := s.width, s.height, s.Erase(r0, c0, r1, c1).rows;
    var filled := Fill(cells, from, to);
    forall r | 0 <= r < h ensures RowAt(filled, w, h, r) == target[r] {
      forall c | 0 <= c < w ensures RowAt(filled, w, h, r)[c] == target[r][c] {
        RowFits(r, w, h);
        assert RowAt(cells, w, h, r)[c] == cells[Start(r, w) + c];
        FlatOrder(r, c, r0, c0, w);
        FlatOrder(r, c, r1, c1, w);
      }
    }
  }

  class TerminalSurface {
    var width: nat
    var height: nat
    var cells: seq<Cell>
    var scrollback: seq<Line>
    var maxScrollbackLines: nat
    var cursorRow: nat
    var cursorCol: nat
    var cursorVisible: bool
    var title: seq<Scalar>
    var truncated: bool

    ghost var rows: seq<Line>  // the lines that the flat cells stand for

    ghost predicate Valid()
      reads this
    {
      && 1 <= width <= MAX_DIMENSION && 1 <= height <= MAX_DIMENSION
      && |cells| == Start(height, width) && rows == RowsOf(cells, width, height)
      && |scrollback| <= maxScrollbackLines
      && cursorRow < height && cursorCol <= width
      && |title| <= MAX_TITLE
    }

    ghost function View(): (s: Screen)
      reads this
      requires Valid()
      ensures s.Valid()
    {
      Screen(width, height, rows, scrollback, maxScrollbackLines,
             cursorRow, cursorCol, cursorVisible, title, truncated)
    }

    constructor (w: nat, h: nat, maxLines: nat)
      ensures Valid() && View() == Fresh(w, h, maxLines)
    {
      var (w, h) := BoundedDimensions(w, h);
      width, height := w, h;
      var size := RowStart(h, w);
      cells := Blanks(size);
      scrollback, maxScrollbackLines := [], Min(maxLines, MAX_SCROLLBACK);
      cursorRow, cursorCol, cursorVisible := 0, 0, true;
      title, truncated := [], false;
      rows := BlankLines(h, w);
      new;
      assert forall r | 0 <= r < h :: RowAt(cells, w, h, r) == Blanks(w);
    }

    method Resize(newWidth: nat, newHeight: nat)
      requires Valid()
      modifies this
      ensures Valid() && View() == old(View()).Resize(newWidth, newHeight)
    {
      var (w, h) := BoundedDimensions(newWidth, newHeight);
      if w == width && h == height {
        return;
      }
      ghost var target := View().Resize(newWidth, newHeight).rows;
      cells := CopyCorner(cells, width, height, w, h, target);
      width, height := w, h;
      cursorRow := Min(cursorRow, h - 1);
      cursorCol := Min(cursorCol, w - 1);
      rows := target;
    }

    method Put(ch: Scalar, style: Style)
      requires Valid()
      modifies this
      ensures Valid() && View() == old(View()).Put(ch, style)
    {
      if IsControl(ch) {
        return;
      }
      if cursorCol >= width {
        Newline();
      }
      Write(Cell(ch, style));
      cursorCol := cursorCol + 1;
    }

    /** Store a cell under the cursor. */
    method Write(cell: Cell)
      requires Valid() && cursorCol < width
      modifies this`cells, this`rows
      ensures Valid() && View() == old(View()).(rows := old(rows)[cursorRow := old(rows)[cursorRow][cursorCol := cell]])
    {
      var start := RowStart(cursorRow, width);
      var index := start + cursorCol;
      RowsAfterUpdate(cells, width, height, cursorRow, cursorCol, cell);
      if index < |cells| {
        cells := cells[index := cell];
      }
      rows := rows[cursorRow := rows[cursorRow][cursorCol := cell]];
    }

    method Newline()
      requires Valid()
      modifies this
      ensures Valid() && View() == old(View()).Newline()
    {
      cursorCol := 0;
      if cursorRow + 1 < height {
        cursorRow := cursorRow + 1;
      } else {
        ScrollUp();
      }
    }

    method ScrollUp()
      requires Valid()
      modifies this
      ensures Valid() && View() == old(View()).ScrollUp()
    {
      RowsAfterScroll(cells, width, height);
      if maxScrollbackLines > 0 {
        scrollback := scrollback + [cells[..width]];
        ghost var all := scrollback;
        while |scrollback| > maxScrollbackLines
          invariant unchanged(this`width, this`height, this`cells, this`rows, this`maxScrollbackLines,
                              this`cursorRow, this`cursorCol, this`cursorVisible, this`title, this`truncated)
          invariant |scrollback| <= |all| && (|scrollback| == |all| || |scrollback| >= maxScrollbackLines)
          invariant scrollback == Last(all, |scrollback|)
        {
          scrollback := scrollback[1..];
        }
      }
      cells := cells[width..] + cells[..width];
      var start := |cells| - width;
      cells := Fill(cells, start, |cells|);
      rows := rows[1..] + [Blanks(width)];
    }

    method CarriageReturn()
      requires Valid()
      modifies this
      ensures Valid() && View() == old(View()).CarriageReturn()
    {
      cursorCol := 0;
    }

    method Backspace()
      requires Valid()
      modifies this
      ensures Valid() && View() == old(View()).Backspace()
    {
      cursorCol := Max(cursorCol - 1, 0);
    }

    method Tab()
      requires Valid()
      modifies this
      ensures Valid() && View() == old(View()).Tab()
    {
      var next := (cursorCol / 8 + 1) * 8;
      cursorCol := Min(next, width - 1);
    }

    method MoveCursor(rowDelta: int, colDelta: int)
      requires Valid()
      modifies this
      ensures Valid() && View() == old(View()).MoveCursor(rowDelta, colDelta)
    {
      cursorRow := Clamp(cursorRow + rowDelta, 0, height - 1);
      cursorCol := Clamp(cursorCol + colDelta, 0, width - 1);
    }

    method SetCursor(row: nat, col: nat)
      requires Valid()
      modifies this
      ensures Valid() && View() == old(View()).SetCursor(row, col)
    {
      cursorRow := Min(row, height - 1);
      cursorCol := Min(col, width - 1);
    }

    method ClearDisplay(mode: nat)
      requires Valid()
      modifies this
      ensures Valid() && View() == old(View()).ClearDisplay(mode)
    {
      hide Screen.Erase, RowsOf;
      RowFits(cursorRow, width, height);
      var start := RowStart(cursorRow, width);
      var at := start + cursorCol;
      if mode == 0 {
        Blank(at, |cells|, cursorRow, cursorCol, height, 0);
      } else if mode == 1 {
        ghost var (row, col) := if cursorCol < width then (cursorRow, cursorCol + 1) else (cursorRow + 1, 1);
        Blank(0, Min(at + 1, |cells|), 0, 0, row, col);
      } else if mode == 2 || mode == 3 {
        Blank(0, |cells|, 0, 0, height, 0);
      }
    }

    method ClearLine(mode: nat)
      requires Valid()
      modifies this
      ensures Valid() && View() == old(View()).ClearLine(mode)
    {
      hide Screen.Erase, RowsOf;
      RowFits(cursorRow, width, height);
      var start := RowStart(cursorRow, width);
      var cursor := start + cursorCol;
      var end := start + width;
      if mode == 0 {
        Blank(cursor, end, cursorRow, cursorCol, cursorRow + 1, 0);
      } else if mode == 1 {
        Blank(start, Min(cursor, end - 1) + 1, cursorRow, 0, cursorRow, Min(cursorCol + 1, width));
      } else if mode == 2 {
        Blank(start, end, cursorRow, 0, cursorRow + 1, 0);
      }
    }

    /** Fill a flat range with blank cells; the ghost positions say which part of the picture that is. */
    method Blank(from: nat, to: nat, ghost r0: nat, ghost c0: nat, ghost r1: nat, ghost c1: nat)
      requires Valid() && c0 <= width && c1 <= width && from <= to
      requires from == Start(r0, width) + c0 && to == Min(Start(r1, width) + c1, |cells|)
      modifies this`cells, this`rows
      ensures Valid() && View() == old(View()).Erase(r0, c0, r1, c1)
    {
      RowsAfterFill(cells, View(), r0, c0, r1, c1, from, to);
      rows := View().Erase(r0, c0, r1, c1).rows;
      cells := Fill(cells, from, to);
    }

    method SetTitle(text: seq<Scalar>)
      requires Valid()
      modifies this
      ensures Valid() && View() == old(View()).SetTitle(text)
    {
      title := text[..Min(|text|, MAX_TITLE)];
    }

    method SetCursorVisible(visible: bool)
      requires Valid()
      modifies this
      ensures Valid() && View() == old(View()).SetVisible(visible)
    {
      cursorVisible := visible;
    }

    method MarkTruncated()
      requires Valid()
      modifies this
      ensures Valid() && View() == old(View()).MarkTruncated()
    {
      truncated := true;
    }
  }
}
