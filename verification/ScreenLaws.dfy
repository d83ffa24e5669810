/**
 The operations of the picture, cell by cell and field by field: what each changes and what it
 leaves alone.
 */
module ScreenLaws {
  import opened Utf8
  import opened ScreenSpec

  /** Everything but lines and cursor position is the same. */
  ghost predicate SameFrame(s: Screen, t: Screen) {
    && t.width == s.width && t.height == s.height && t.limit == s.limit && t.scrollback == s.scrollback
    && t.visible == s.visible && t.title == s.title && t.truncated == s.truncated
  }

  lemma NewScreen(width: nat, height: nat, limit: nat)
    ensures var s := Fresh(width, height, limit);
            && s.width == (if width < 1 then 1 else if width > 500 then 500 else width)
            && s.height == (if height < 1 then 1 else if height > 500 then 500 else height)
            && s.limit == (if limit > 10_000 then 10_000 else limit)
            && s.scrollback == [] && s.row == 0 && s.col == 0 && s.visible && s.title == [] && !s.truncated
            && forall r, c | 0 <= r < s.height && 0 <= c < s.width :: s.rows[r][c] == Cell(0x20, PLAIN)
  {
  }

  /** Off the right edge nothing happens to other cells; on it the character waits for a new line. */
  lemma PutOneCell(s: Screen, ch: Scalar, style: Style)
    requires s.Valid() && !IsControl(ch) && s.col < s.width
    ensures var t := s.Put(ch, style);
            && SameFrame(s, t) && t.row == s.row && t.col == s.col + 1
            && forall r, c | 0 <= r < s.height && 0 <= c < s.width ::
                 t.rows[r][c] == if r == s.row && c == s.col then Cell(ch, style) else s.rows[r][c]
  {
  }

  lemma PutAfterWrap(s: Screen, ch: Scalar, style: Style)
    requires s.Valid() && !IsControl(ch) && s.col == s.width
    ensures s.Put(ch, style) == s.Newline().Put(ch, style)
  {
  }

  lemma NewlineInside(s: Screen)
    requires s.Valid() && s.row + 1 < s.height
    ensures SameFrame(s, s.Newline()) && s.Newline().rows == s.rows
    ensures s.Newline().row == s.row + 1 && s.Newline().col == 0
  {
  }

  lemma NewlineAtBottom(s: Screen)
    requires s.Valid() && s.row + 1 == s.height
    ensures var t := s.Newline();
            && SameFrame(s.(scrollback := t.scrollback), t) && t.row == s.row && t.col == 0
            && (forall r, c | 0 <= r < s.height && 0 <= c < s.width ::
                  t.rows[r][c] == if r + 1 < s.height then s.rows[r + 1][c] else Cell(0x20, PLAIN))
            && (|s.scrollback| < s.limit ==> t.scrollback == s.scrollback + [s.rows[0]])
            && (0 < s.limit == |s.scrollback| ==> t.scrollback == s.scrollback[1..] + [s.rows[0]])
            && (s.limit == 0 ==> t.scrollback == [])
  {
    var all := s.scrollback + [s.rows[0]];
    if 0 < s.limit == |s.scrollback| {
      assert all[1..] == s.scrollback[1..] + [s.rows[0]];
    }
  }

  lemma ReturnAndBack(s: Screen)
    requires s.Valid()
    ensures s.CarriageReturn() == s.(col := 0)
    ensures s.Backspace() == s.(col := if s.col == 0 then 0 else s.col - 1)
  {
  }

  /** A tab goes to the first multiple of eight beyond the cursor, or to the last column if that is nearer. */
  lemma TabStop(s: Screen)
    requires s.Valid()
    ensures var t := s.Tab();
            && t == s.(col := t.col)
            && (t.col == s.width - 1 || (t.col % 8 == 0 && s.col < t.col < s.width))
            && forall stop | s.col < stop < t.col :: stop % 8 != 0
  {
  }

  /** Whatever size is asked for, the cells of the common corner are kept and all others blank. */
  lemma ResizeKeepsCorner(s: Screen, width: nat, height: nat)
    requires s.Valid()
    ensures var t := s.Resize(width, height);
            && t.width == (if width < 1 then 1 else if width > 500 then 500 else width)
            && t.height == (if height < 1 then 1 else if height > 500 then 500 else height)
            && SameFrame(s.(width := t.width, height := t.height), t)
            && (forall r, c | 0 <= r < t.height && 0 <= c < t.width ::
                  t.rows[r][c] == if r < s.height && c < s.width then s.rows[r][c] else Cell(0x20, PLAIN))
            && t.row == (if s.row < t.height then s.row else t.height - 1)
            && (t.width != s.width || t.height != s.height ==> t.col == if s.col < t.width then s.col else t.width - 1)
            && (t.width == s.width && t.height == s.height ==> t == s)
  {
  }

  /** Which positions erasing the display blanks, by mode; with a wrap pending mode 1 takes one more. */
  ghost predicate DisplayBlanked(s: Screen, mode: nat, r: nat, c: nat) {
    if mode == 0 then r > s.row || (r == s.row && c >= s.col)
    else if mode == 1 then r < s.row || (r == s.row && c <= s.col) || (s.col == s.width && r == s.row + 1 && c == 0)
    else mode == 2 || mode == 3
  }

  ghost predicate LineBlanked(s: Screen, mode: nat, r: nat, c: nat) {
    r == s.row && ((mode == 0 && c >= s.col) || (mode == 1 && c <= s.col) || mode == 2)
  }

  lemma DisplayErased(s: Screen, mode: nat)
    requires s.Valid()
    ensures var t := s.ClearDisplay(mode);
            && SameFrame(s, t) && t.row == s.row && t.col == s.col
            && forall r, c | 0 <= r < s.height && 0 <= c < s.width ::
                 t.rows[r][c] == if DisplayBlanked(s, mode, r, c) then Cell(0x20, PLAIN) else s.rows[r][c]
  {
  }

  lemma LineErased(s: Screen, mode: nat)
    requires s.Valid()
    ensures var t := s.ClearLine(mode);
            && SameFrame(s, t) && t.row == s.row && t.col == s.col
            && forall r, c | 0 <= r < s.height && 0 <= c < s.width ::
                 t.rows[r][c] == if LineBlanked(s, mode, r, c) then Cell(0x20, PLAIN) else s.rows[r][c]
  {
  }
}
