/**
 The terminal picture as a reader sees it: a list of lines with a cursor, and above it the
 lines that scrolled away. Every operation of the flat cell array in module Surface is
 specified by the operation of the same name here.
 */
module ScreenSpec {
  import opened Wrappers
  import opened Utf8

  datatype Color = DefaultColor | Indexed(n: Byte) | Rgb(r: Byte, g: Byte, b: Byte)
  datatype Attrs = Attrs(bold: bool, italic: bool, underline: bool, reverse: bool)
  datatype Style = Style(fg: Color, bg: Color, attrs: Attrs, hyperlink: Option<seq<Scalar>>)
  datatype Cell = Cell(ch: Scalar, style: Style)
  type Line = seq<Cell>

  const MAX_DIMENSION := 500
  const MAX_CELLS := 250_000
  const MAX_SCROLLBACK := 10_000
  const MAX_TITLE := 256

  const PLAIN := Style(DefaultColor, DefaultColor, Attrs(false, false, false, false), None)
  const BLANK := Cell(0x20, PLAIN)

  function Min(a: int, b: int): int { if a <= b then a else b }
  function Max(a: int, b: int): int { if a <= b then b else a }
  function Clamp(x: int, low: int, high: int): int
    requires low <= high
  {
    if x < low then low else if high < x then high else x
  }

  function Blanks(n: nat): Line { seq(n, _ => BLANK) }
  function BlankLines(n: nat, width: nat): seq<Line> { seq(n, _ => Blanks(width)) }

  /** The last `n` elements, or all of them when there are fewer. */
  function Last<T>(s: seq<T>, n: nat): seq<T> {
    if |s| <= n then s else s[|s| - n..]
  }

  /** Reading order of positions. */
  predicate Before(r: nat, c: nat, row: nat, col: nat) {
    r < row || (r == row && c < col)
  }

  ghost function Erased(rows: seq<Line>, r0: nat, c0: nat, r1: nat, c1: nat): (erased: seq<Line>)
    ensures |erased| == |rows|
    ensures forall r | 0 <= r < |rows| :: |erased[r]| == |rows[r]|
    ensures forall r, c | 0 <= r < |rows| && 0 <= c < |rows[r]| ::
      erased[r][c] == if Before(r, c, r1, c1) && !Before(r, c, r0, c0) then BLANK else rows[r][c]
  {
    seq(|rows|, r requires 0 <= r < |rows| =>
      seq(|rows[r]|, c requires 0 <= c < |rows[r]| =>
        if Before(r, c, r1, c1) && !Before(r, c, r0, c0) then BLANK else rows[r][c]))
  }

  /** The top left corner of the given size, filled up with blanks. */
  ghost function Cropped(rows: seq<Line>, w: nat, h: nat): (cropped: seq<Line>)
    ensures |cropped| == h
    ensures forall r | 0 <= r < h :: |cropped[r]| == w
    ensures forall r, c | 0 <= r < h && 0 <= c < w ::
      cropped[r][c] == if r < |rows| && c < |rows[r]| then rows[r][c] else BLANK
  {
    seq(h, r requires 0 <= r < h =>
      seq(w, c requires 0 <= c < w => if r < |rows| && c < |rows[r]| then rows[r][c] else BLANK))
  }

  datatype Screen = Screen(
    width: nat, height: nat,
    rows: seq<Line>, scrollback: seq<Line>, limit: nat,
    row: nat, col: nat, visible: bool,
    title: seq<Scalar>, truncated: bool)
  {
    /** `col == width` is the pending wrap: the next character starts a new line first. */
    ghost predicate Valid() {
      && 1 <= width <= MAX_DIMENSION && 1 <= height <= MAX_DIMENSION
      && |rows| == height && (forall r | 0 <= r < height :: |rows[r]| == width)
      && |scrollback| <= limit
      && row < height && col <= width
      && |title| <= MAX_TITLE
    }

    /** Same size and same scrollback cap. */
    ghost predicate Shaped(like: Screen) {
      width == like.width && height == like.height && limit == like.limit
    }

    /** The same picture with a smaller scrollback. */
    ghost function Trim(cap: nat): (s: Screen)
      requires Valid()
      ensures s.Valid()
    {
      this.(scrollback := Last(scrollback, cap), limit := cap)
    }

    ghost function Put(ch: Scalar, style: Style): (s: Screen)
      requires Valid()
      ensures s.Valid() && s.Shaped(this)
    {
      if IsControl(ch) then this
      else
        var at := if col >= width then Newline() else this;
        at.(rows := at.rows[at.row := at.rows[at.row][at.col := Cell(ch, style)]], col := at.col + 1)
    }

    ghost function Newline(): (s: Screen)
      requires Valid()
      ensures s.Valid() && s.Shaped(this) && s.col == 0
    {
      if row + 1 < height then this.(row := row + 1, col := 0) else ScrollUp().(col := 0)
    }

    ghost function ScrollUp(): (s: Screen)
      requires Valid()
      ensures s.Valid()
    {
      this.(rows := rows[1..] + [Blanks(width)], scrollback := Last(scrollback + [rows[0]], limit))
    }

    ghost function CarriageReturn(): (s: Screen) { this.(col := 0) }

    ghost function Backspace(): (s: Screen) { this.(col := Max(col - 1, 0)) }

    ghost function Tab(): (s: Screen)
      requires Valid()
    {
      this.(col := Min((col / 8 + 1) * 8, width - 1))
    }

    ghost function MoveCursor(rowDelta: int, colDelta: int): (s: Screen)
      requires Valid()
    {
      this.(row := Clamp(row + rowDelta, 0, height - 1), col := Clamp(col + colDelta, 0, width - 1))
    }

    ghost function SetCursor(r: nat, c: nat): (s: Screen)
      requires Valid()
    {
      this.(row := Min(r, height - 1), col := Min(c, width - 1))
    }

    /** Blank the cells from position (r0, c0) up to but not including (r1, c1) in reading order. */
    ghost function Erase(r0: nat, c0: nat, r1: nat, c1: nat): (s: Screen)
      requires Valid()
      ensures s.Valid()
    {
      this.(rows := Erased(rows, r0, c0, r1, c1))
    }

    /**
     Mode 0 erases from the cursor on and mode 1 up to and including it. With a wrap pending
     mode 1 also reaches the first cell of the row below.
     */
    ghost function ClearDisplay(mode: nat): (s: Screen)
      requires Valid()
      ensures s.Valid()
    {
      if mode == 0 then Erase(row, col, height, 0)
      else if mode == 1 then if col < width then Erase(0, 0, row, col + 1) else Erase(0, 0, row + 1, 1)
      else if mode == 2 || mode == 3 then Erase(0, 0, height, 0)
      else this
    }

    ghost function ClearLine(mode: nat): (s: Screen)
      requires Valid()
      ensures s.Valid()
    {
      if mode == 0 then Erase(row, col, row + 1, 0)
      else if mode == 1 then Erase(row, 0, row, Min(col + 1, width))
      else if mode == 2 then Erase(row, 0, row + 1, 0)
      else this
    }

    /** Keep the common top left corner; the scrolled lines keep the width they had. */
    ghost function Resize(w: nat, h: nat): (s: Screen)
      requires Valid()
      ensures s.Valid()
    {
      var (w, h) := BoundedDimensions(w, h);
      if w == width && h == height then this
      else
        this.(
          width := w, height := h,
          rows := Cropped(rows, w, h),
          row := Min(row, h - 1), col := Min(col, w - 1))
    }

    ghost function SetTitle(text: seq<Scalar>): (s: Screen) {
      this.(title := text[..Min(|text|, MAX_TITLE)])
    }

    ghost function SetVisible(v: bool): (s: Screen) { this.(visible := v) }

    ghost function MarkTruncated(): (s: Screen) { this.(truncated := true) }
  }

  ghost function Fresh(width: nat, height: nat, limit: nat): (s: Screen)
    ensures s.Valid()
  {
    var (w, h) := BoundedDimensions(width, height);
    Screen(w, h, BlankLines(h, w), [], Min(limit, MAX_SCROLLBACK), 0, 0, true, [], false)
  }

  function BoundedDimensions(width: nat, height: nat): (d: (nat, nat))
    ensures 1 <= d.0 <= MAX_DIMENSION && 1 <= d.1 <= MAX_DIMENSION
  {
    var w := Clamp(width, 1, MAX_DIMENSION);
    var h := Clamp(height, 1, MAX_DIMENSION);
    if w * h <= MAX_CELLS then (w, h) else (w, Max(MAX_CELLS / w, 1))
  }

  /** Erasing up to the cursor spares what follows it, unless a wrap is pending above another line. */
  lemma EraseToCursor(s: Screen)
    requires s.Valid()
    ensures (forall r, c | 0 <= r < s.height && 0 <= c < s.width && !Before(r, c, s.row, s.col + 1) ::
               s.ClearDisplay(1).rows[r][c] == s.rows[r][c])
            <==> s.col < s.width || s.row + 1 == s.height || s.rows[s.row + 1][0] == BLANK
  {
    if s.col == s.width && s.row + 1 < s.height {
      assert s.ClearDisplay(1).rows[s.row + 1][0] == BLANK;
      assert !Before(s.row + 1, 0, s.row, s.col + 1);
    }
  }
}
