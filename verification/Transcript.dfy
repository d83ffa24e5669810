/**
 What whole byte streams do to the terminal: they may be cut anywhere, the scrollback cap only
 forgets old lines, plain text ends up as its wrapped lines, and control strings leave the
 picture alone.
 */
module Transcript {
  import opened Utf8
  import opened ScreenSpec
  import opened VtSpec

  // ---------- cutting the stream ----------

  lemma {:induction false} FeedAppend(t: Term, a: seq<Byte>, b: seq<Byte>)
    requires t.Valid()
    ensures Feed(t, a + b) == Feed(Feed(t, a), b)
    decreases |a|
  {
    if a == [] {
      assert a + b == b;
    } else {
      assert (a + b)[1..] == a[1..] + b;
      FeedAppend(Step(t, a[0]), a[1..], b);
    }
  }

  lemma FeedSnoc(t: Term, bytes: seq<Byte>, byte: Byte)
    requires t.Valid()
    ensures Feed(t, bytes + [byte]) == Step(Feed(t, bytes), byte)
  {
    FeedAppend(t, bytes, [byte]);
    assert Feed(Feed(t, bytes), [byte]) == Feed(Step(Feed(t, bytes), byte), []);
  }

  lemma StepText(t: Term, byte: Byte)
    requires t.Valid() && t.parser.state.Ground? && byte >= 0x20 && byte != 0x7F
    ensures Step(t, byte) == PushTextByte(t, byte)
  {
  }

  lemma StepLineFeed(t: Term)
    requires t.Valid() && t.parser.state.Ground? && t.parser.pending == []
    ensures Step(t, 0x0A) == t.Show(t.screen.Newline())
  {
  }

  /** What reaches a terminal over its life: output of the program, and new pane sizes. */
  datatype Event = Output(bytes: seq<Byte>) | Resized(width: nat, height: nat)

  /** Every bound in `Term.Valid` survives any interleaving of output and resizing. */
  ghost function Run(t: Term, events: seq<Event>): (t': Term)
    requires t.Valid()
    ensures t'.Valid()
    decreases |events|
  {
    if events == [] then t
    else match events[0]
      case Output(bytes) => Run(Feed(t, bytes), events[1..])
      case Resized(w, h) => Run(t.Show(t.screen.Resize(w, h)), events[1..])
  }

  /** The same picture with a smaller scrollback. */
  ghost function Trim(t: Term, limit: nat): (t': Term)
    requires t.Valid()
    ensures t'.Valid()
  {
    t.Show(t.screen.Trim(limit))
  }

  lemma NewlineTrimmed(s: Screen, limit: nat)
    requires s.Valid() && limit <= s.limit
    ensures s.Trim(limit).Newline() == s.Newline().Trim(limit)
  {
    LastOfSuffix(s.scrollback, s.rows[0], limit, s.limit);
  }

  lemma LastOfSuffix<T>(s: seq<T>, x: T, small: nat, large: nat)
    requires small <= large
    ensures Last(Last(s, small) + [x], small) == Last(Last(s + [x], large), small)
  {
  }

  lemma PutTrimmed(t: Term, ch: Scalar, style: Style, limit: nat)
    requires t.Valid() && limit <= t.screen.limit
    ensures Trim(t, limit).screen.Put(ch, style) == Trim(t.Show(t.screen.Put(ch, style)), limit).screen
  {
    NewlineTrimmed(t.screen, limit);
  }

  lemma {:induction false} PutAllTrimmed(t: Term, text: seq<Scalar>, limit: nat)
    requires t.Valid() && limit <= t.screen.limit
    ensures PutAll(Trim(t, limit), text) == Trim(PutAll(t, text), limit)
    decreases |text|
  {
    if text != [] {
      PutTrimmed(t, text[0], t.parser.style, limit);
      PutAllTrimmed(t.Show(t.screen.Put(text[0], t.parser.style)), text[1..], limit);
    }
  }

  lemma FlushTrimmed(t: Term, limit: nat)
    requires t.Valid() && t.parser.state.Ground? && limit <= t.screen.limit
    ensures Flush(Trim(t, limit)) == Trim(Flush(t), limit)
  {
    PutTrimmed(t, REPLACEMENT, t.parser.style, limit);
  }

  lemma PushTrimmed(t: Term, byte: Byte, limit: nat)
    requires t.Valid() && t.parser.state.Ground? && limit <= t.screen.limit
    ensures PushTextByte(Trim(t, limit), byte) == Trim(PushTextByte(t, byte), limit)
  {
    PutTrimmed(t, REPLACEMENT, t.parser.style, limit);
    var decoded := FromUtf8(t.parser.pending + [byte]);
    if decoded.Ok? {
      PutAllTrimmed(t, decoded.text, limit);
    }
  }

  lemma GroundTrimmed(t: Term, byte: Byte, limit: nat)
    requires t.Valid() && t.parser.state.Ground? && limit <= t.screen.limit
    ensures GroundByte(Trim(t, limit), byte) == Trim(GroundByte(t, byte), limit)
  {
    hide PushTextByte, Flush, Screen.Newline;
    FlushTrimmed(t, limit);
    NewlineTrimmed(Flush(t).screen, limit);
    PushTrimmed(t, byte, limit);
  }

  lemma CsiScreenTrimmed(s: Screen, private: bool, params: seq<U16>, final: Byte, limit: nat)
    requires s.Valid() && params != [] && limit <= s.limit
    ensures CsiScreen(s.Trim(limit), private, params, final) == CsiScreen(s, private, params, final).Trim(limit)
  {
    if final == 0x4A || final == 0x4B {
      EraseTrimmed(s, params[0], limit);
    } else {
      MoveTrimmed(s, private, params, final, limit);
    }
  }

  lemma MoveTrimmed(s: Screen, private: bool, params: seq<U16>, final: Byte, limit: nat)
    requires s.Valid() && params != [] && limit <= s.limit && final != 0x4A && final != 0x4B
    ensures CsiScreen(s.Trim(limit), private, params, final) == CsiScreen(s, private, params, final).Trim(limit)
  {
    hide Screen.MoveCursor, Screen.SetCursor, Screen.SetVisible, Screen.Trim;
    hide Screen.ClearDisplay, Screen.ClearLine;
    var first, second := params[0] as int, if |params| > 1 then params[1] as int else 1;
    CursorTrimmed(s, -Max(first, 1), 0, limit);
    CursorTrimmed(s, Max(first, 1), 0, limit);
    CursorTrimmed(s, 0, Max(first, 1), limit);
    CursorTrimmed(s, 0, -Max(first, 1), limit);
    AddressTrimmed(s, Max(first, 1) - 1, Max(second, 1) - 1, limit);
  }

  lemma CursorTrimmed(s: Screen, rowDelta: int, colDelta: int, limit: nat)
    requires s.Valid() && limit <= s.limit
    ensures s.Trim(limit).MoveCursor(rowDelta, colDelta) == s.MoveCursor(rowDelta, colDelta).Trim(limit)
  {
  }

  lemma AddressTrimmed(s: Screen, row: nat, col: nat, limit: nat)
    requires s.Valid() && limit <= s.limit
    ensures s.Trim(limit).SetCursor(row, col) == s.SetCursor(row, col).Trim(limit)
    ensures forall v :: s.Trim(limit).SetVisible(v) == s.SetVisible(v).Trim(limit)
  {
  }

  lemma EraseTrimmed(s: Screen, mode: nat, limit: nat)
    requires s.Valid() && limit <= s.limit
    ensures s.Trim(limit).ClearDisplay(mode) == s.ClearDisplay(mode).Trim(limit)
    ensures s.Trim(limit).ClearLine(mode) == s.ClearLine(mode).Trim(limit)
  {
  }

  lemma CsiTrimmed(t: Term, sequence: seq<Byte>, final: Byte, limit: nat)
    requires t.Valid() && limit <= t.screen.limit
    ensures ApplyCsi(Trim(t, limit), sequence, final) == Trim(ApplyCsi(t, sequence, final), limit)
  {
    var private := sequence != [] && sequence[0] == QUESTION;
    CsiScreenTrimmed(t.screen, private, Params(if private then sequence[1..] else sequence), final, limit);
  }

  lemma OscTrimmed(t: Term, sequence: seq<Byte>, limit: nat)
    requires t.Valid() && limit <= t.screen.limit
    ensures ApplyOsc(Trim(t, limit), sequence) == Trim(ApplyOsc(t, sequence), limit)
  {
  }

  lemma StepTrimmed(t: Term, byte: Byte, limit: nat)
    requires t.Valid() && limit <= t.screen.limit
    ensures Step(Trim(t, limit), byte) == Trim(Step(t, byte), limit)
  {
    match t.parser.state
    case Ground => GroundTrimmed(t, byte, limit);
    case Csi(sequence) => CsiTrimmed(t.To(Ground), sequence, byte, limit);
    case Osc(sequence) => OscTrimmed(t.To(Ground), sequence, limit);
    case OscEscape(sequence) => OscTrimmed(t.To(Ground), sequence, limit);
    case other =>
  }

  /**
   A terminal with a small scrollback shows, after any byte stream, what one with a larger
   scrollback shows, minus the oldest lines: nothing else depends on the cap.
   */
  lemma {:induction false} ScrollbackCapOnlyForgets(t: Term, bytes: seq<Byte>, limit: nat)
    requires t.Valid() && limit <= t.screen.limit
    ensures Feed(Trim(t, limit), bytes) == Trim(Feed(t, bytes), limit)
    decreases |bytes|
  {
    if bytes != [] {
      StepTrimmed(t, bytes[0], limit);
      ScrollbackCapOnlyForgets(Step(t, bytes[0]), bytes[1..], limit);
    }
  }

  // ---------- plain text ----------

  ghost function CellsOf(text: seq<Scalar>, style: Style): Line {
    seq(|text|, i requires 0 <= i < |text| => Cell(text[i], style))
  }

  ghost function Pad(line: Line, w: nat): Line {
    if |line| < w then line + Blanks(w - |line|) else line
  }

  /** One paragraph broken into lines of width `w`, the last one padded with blanks. */
  ghost function Wrap(line: Line, w: nat): (lines: seq<Line>)
    requires w > 0
    ensures lines != []
  {
    if |line| <= w then [Pad(line, w)] else [line[..w]] + Wrap(line[w..], w)
  }

  /**
   The picture shows paper on which `done` lines are finished and `cur` is being written: the
   grid is the end of the paper and the scrollback is what precedes it, as far as the cap allows.
   */
  ghost predicate OnPaper(s: Screen, done: seq<Line>, cur: Line) {
    && s.Valid()
    && s.col == |cur| && s.row == Min(|done|, s.height - 1)
    && s.rows == done[|done| - s.row..] + [Pad(cur, s.width)] + BlankLines(s.height - 1 - s.row, s.width)
    && s.scrollback == Last(done[..|done| - s.row], s.limit)
  }

  lemma LastOfLast<T>(s: seq<T>, x: T, n: nat)
    ensures Last(Last(s, n) + [x], n) == Last(s + [x], n)
  {
  }

  lemma BlankLinesSplit(n: nat, w: nat)
    ensures BlankLines(n + 1, w) == [Blanks(w)] + BlankLines(n, w)
  {
  }

  lemma NewlineOnPaper(s: Screen, done: seq<Line>, cur: Line)
    requires OnPaper(s, done, cur)
    ensures OnPaper(s.Newline(), done + [Pad(cur, s.width)], [])
  {
    assert Pad([], s.width) == Blanks(s.width);
    if s.row + 1 < s.height {
      StepDownOnPaper(s, done, cur);
    } else {
      ScrollOnPaper(s, done, cur);
    }
  }

  lemma StepDownOnPaper(s: Screen, done: seq<Line>, cur: Line)
    requires OnPaper(s, done, cur) && s.row + 1 < s.height && Pad([], s.width) == Blanks(s.width)
    ensures OnPaper(s.Newline(), done + [Pad(cur, s.width)], [])
  {
    hide Last, Pad, BlankLines;
    var line, s' := Pad(cur, s.width), s.Newline();
    var gone, top := done[..|done| - s.row], done[|done| - s.row..];
    var done' := done + [line];
    assert done'[|done'| - s'.row..] == top + [line] && done'[..|done'| - s'.row] == gone;
    BlankLinesSplit(s.height - 1 - s'.row, s.width);
  }

  lemma ScrollOnPaper(s: Screen, done: seq<Line>, cur: Line)
    requires OnPaper(s, done, cur) && s.row + 1 == s.height && Pad([], s.width) == Blanks(s.width)
    ensures OnPaper(s.Newline(), done + [Pad(cur, s.width)], [])
  {
    hide Last, Pad, BlankLines, Blanks;
    var line, gone, top := Pad(cur, s.width), done[..|done| - s.row], done[|done| - s.row..];
    var whole := top + [line];
    NoBlankLines(s.width);
    assert s.rows == whole;
    ShiftSplit(done, line, s.row);
    LastOfLast(gone, whole[0], s.limit);
    assert s.Newline().rows == whole[1..] + [Blanks(s.width)] + [];
  }

  lemma NoBlankLines(w: nat)
    ensures BlankLines(0, w) == []
  {
  }

  /** One more line moves the cut between the scrolled lines and the last `k` ones. */
  lemma ShiftSplit<T>(done: seq<T>, line: T, k: nat)
    requires k <= |done|
    ensures var all := done + [line]; var whole := done[|done| - k..] + [line];
            all[..|all| - k] == done[..|done| - k] + [whole[0]] && all[|all| - k..] == whole[1..]
  {
    var all, whole := done + [line], done[|done| - k..] + [line];
    assert all == done[..|done| - k] + whole;
  }

  lemma PutOnPaper(s: Screen, done: seq<Line>, cur: Line, ch: Scalar, style: Style)
    requires OnPaper(s, done, cur) && !IsControl(ch)
    ensures |cur| < s.width ==> OnPaper(s.Put(ch, style), done, cur + [Cell(ch, style)])
    ensures |cur| == s.width ==> OnPaper(s.Put(ch, style), done + [cur], [Cell(ch, style)])
  {
    if |cur| == s.width {
      NewlineOnPaper(s, done, cur);
      WriteOnPaper(s.Newline(), done + [cur], [], Cell(ch, style));
      assert [] + [Cell(ch, style)] == [Cell(ch, style)];
    } else {
      WriteOnPaper(s, done, cur, Cell(ch, style));
    }
  }

  lemma WriteOnPaper(s: Screen, done: seq<Line>, cur: Line, cell: Cell)
    requires OnPaper(s, done, cur) && |cur| < s.width
    ensures OnPaper(s.(rows := s.rows[s.row := s.rows[s.row][s.col := cell]], col := s.col + 1), done, cur + [cell])
  {
    hide Last, Blanks, BlankLines;
    var top, below := done[|done| - s.row..], BlankLines(s.height - 1 - s.row, s.width);
    var line, line' := Pad(cur, s.width), Pad(cur + [cell], s.width);
    assert s.rows[s.row] == line && s.rows[s.row := line'] == top + [line'] + below by {
      ReplaceMiddle(top, line, below, line');
    }
    assert line[s.col := cell] == line' by {
      PadPlus(cur, cell, s.width);
    }
    assert |line'| == s.width;
    hide Pad;
  }

  lemma PadPlus(cur: Line, cell: Cell, w: nat)
    requires |cur| < w
    ensures Pad(cur, w)[|cur| := cell] == Pad(cur + [cell], w)
  {
  }

  lemma ReplaceMiddle<T>(a: seq<T>, x: T, b: seq<T>, y: T)
    ensures (a + [x] + b)[|a|] == x && (a + [x] + b)[|a| := y] == a + [y] + b
  {
  }

  /** The paper after writing more text at the end of the current line. */
  ghost function Write(done: seq<Line>, cur: Line, text: Line, w: nat): (r: (seq<Line>, Line))
    decreases |text|
  {
    if text == [] then (done, cur)
    else if |cur| < w then Write(done, cur + [text[0]], text[1..], w)
    else Write(done + [cur], [text[0]], text[1..], w)
  }

  lemma {:induction false} WriteIsWrap(done: seq<Line>, cur: Line, text: Line, w: nat)
    requires |cur| <= w && w > 0
    ensures var (done', cur') := Write(done, cur, text, w);
            |cur'| <= w && done' + [Pad(cur', w)] == done + Wrap(cur + text, w)
    decreases |text|
  {
    if text == [] {
      assert cur + text == cur;
    } else if |cur| < w {
      assert cur + text == cur + [text[0]] + text[1..];
      WriteIsWrap(done, cur + [text[0]], text[1..], w);
    } else {
      WriteIsWrap(done + [cur], [text[0]], text[1..], w);
      assert (cur + text)[..w] == cur && (cur + text)[w..] == text;
      assert text == [text[0]] + text[1..];
    }
  }

  /** How much of the last line `n` cells fill; a full line is not yet left. */
  function LastFill(n: nat, w: nat): nat
    requires w > 0
  {
    if n <= w then n else LastFill(n - w, w)
  }

  lemma {:induction false} WriteFill(done: seq<Line>, cur: Line, text: Line, w: nat)
    requires |cur| <= w && w > 0
    ensures |Write(done, cur, text, w).1| == LastFill(|cur| + |text|, w)
    decreases |text|
  {
    if text != [] {
      if |cur| < w {
        WriteFill(done, cur + [text[0]], text[1..], w);
      } else {
        WriteFill(done + [cur], [text[0]], text[1..], w);
      }
    }
  }

  /** Feeding the encoding of one character puts exactly that character. */
  lemma FeedScalar(t: Term, c: Scalar)
    requires t.Valid() && t.parser.state.Ground? && t.parser.pending == [] && !IsControl(c)
    ensures Feed(t, Encode(c)) == t.Show(t.screen.Put(c, t.parser.style))
  {
    var bytes, n := Encode(c), |Encode(c)| - 1;
    var before := t.(parser := t.parser.(pending := bytes[..n]));
    FeedPrefix(t, c, n);
    assert bytes == bytes[..n] + [bytes[n]];
    FeedSnoc(t, bytes[..n], bytes[n]);
    TextBytes(c);
    StepText(before, bytes[n]);
    FromUtf8Encoded([c]);
    assert EncodeAll([c]) == bytes;
    PutAllOne(before, c);
  }

  lemma PutAllOne(t: Term, c: Scalar)
    requires t.Valid()
    ensures PutAll(t, [c]) == t.Show(t.screen.Put(c, t.parser.style))
  {
    assert PutAll(t, [c]) == PutAll(t.Show(t.screen.Put(c, t.parser.style)), []);
  }

  lemma TextBytes(c: Scalar)
    requires !IsControl(c)
    ensures forall i | 0 <= i < |Encode(c)| :: Encode(c)[i] >= 0x20 && Encode(c)[i] != 0x7F
  {
  }

  lemma {:induction false} FeedPrefix(t: Term, c: Scalar, n: nat)
    requires t.Valid() && t.parser.state.Ground? && t.parser.pending == [] && !IsControl(c)
    requires n < |Encode(c)|
    ensures t.(parser := t.parser.(pending := Encode(c)[..n])).Valid()
    ensures Feed(t, Encode(c)[..n]) == t.(parser := t.parser.(pending := Encode(c)[..n]))
  {
    var bytes := Encode(c);
    if n > 0 {
      var before := t.(parser := t.parser.(pending := bytes[..n - 1]));
      FeedPrefix(t, c, n - 1);
      assert bytes[..n] == bytes[..n - 1] + [bytes[n - 1]];
      FeedSnoc(t, bytes[..n - 1], bytes[n - 1]);
      TextBytes(c);
      StepText(before, bytes[n - 1]);
      IncompleteIffProperPrefix(bytes[..n]);
      assert bytes[..n] < bytes;
    }
  }

  ghost predicate Printable(text: seq<Scalar>) {
    forall i | 0 <= i < |text| :: !IsControl(text[i])
  }

  lemma {:induction false} TextOnPaper(t: Term, done: seq<Line>, cur: Line, text: seq<Scalar>)
    requires t.Valid() && t.parser.state.Ground? && t.parser.pending == []
    requires OnPaper(t.screen, done, cur) && Printable(text)
    ensures var t' := Feed(t, EncodeAll(text));
            var (done', cur') := Write(done, cur, CellsOf(text, t.parser.style), t.screen.width);
            && t'.parser == t.parser && t'.screen.Shaped(t.screen)
            && OnPaper(t'.screen, done', cur')
    decreases |text|
  {
    assert |cur| <= t.screen.width;
    hide OnPaper, Encode, Screen.Put;
    if text != [] {
      var cell := Cell(text[0], t.parser.style);
      FeedAppend(t, Encode(text[0]), EncodeAll(text[1..]));
      FeedScalar(t, text[0]);
      PutOnPaper(t.screen, done, cur, text[0], t.parser.style);
      assert CellsOf(text, t.parser.style)[1..] == CellsOf(text[1..], t.parser.style);
      var next := t.Show(t.screen.Put(text[0], t.parser.style));
      if |cur| < t.screen.width {
        TextOnPaper(next, done, cur + [cell], text[1..]);
      } else {
        TextOnPaper(next, done + [cur], [cell], text[1..]);
      }
    }
  }

  /** Paragraphs separated by line feeds, as a program would print them. */
  ghost function Typed(paragraphs: seq<seq<Scalar>>): seq<Byte>
    requires paragraphs != []
  {
    if |paragraphs| == 1 then EncodeAll(paragraphs[0])
    else EncodeAll(paragraphs[0]) + [0x0A] + Typed(paragraphs[1..])
  }

  ghost function WrapAll(paragraphs: seq<seq<Scalar>>, style: Style, w: nat): (lines: seq<Line>)
    requires w > 0
    ensures paragraphs != [] ==> lines != []
  {
    if paragraphs == [] then []
    else Wrap(CellsOf(paragraphs[0], style), w) + WrapAll(paragraphs[1..], style, w)
  }

  /** The paper after typing paragraphs from the start of a line. */
  ghost function Type(done: seq<Line>, paragraphs: seq<seq<Scalar>>, style: Style, w: nat): (seq<Line>, Line)
    requires paragraphs != []
    decreases |paragraphs|
  {
    var (done1, cur1) := Write(done, [], CellsOf(paragraphs[0], style), w);
    if |paragraphs| == 1 then (done1, cur1) else Type(done1 + [Pad(cur1, w)], paragraphs[1..], style, w)
  }

  lemma {:induction false} TypeIsWrap(done: seq<Line>, paragraphs: seq<seq<Scalar>>, style: Style, w: nat)
    requires paragraphs != [] && w > 0
    ensures var (done', cur') := Type(done, paragraphs, style, w);
            done' + [Pad(cur', w)] == done + WrapAll(paragraphs, style, w)
    decreases |paragraphs|
  {
    var first := CellsOf(paragraphs[0], style);
    WriteIsWrap(done, [], first, w);
    assert [] + first == first;
    var rest := WrapAll(paragraphs[1..], style, w);
    if |paragraphs| == 1 {
      assert Wrap(first, w) + [] == Wrap(first, w);
    } else {
      var (done1, cur1) := Write(done, [], first, w);
      TypeIsWrap(done1 + [Pad(cur1, w)], paragraphs[1..], style, w);
      assert done + Wrap(first, w) + rest == done + (Wrap(first, w) + rest);
    }
  }

  lemma {:induction false} TypeFill(done: seq<Line>, paragraphs: seq<seq<Scalar>>, style: Style, w: nat)
    requires paragraphs != [] && w > 0
    ensures |Type(done, paragraphs, style, w).1| == LastFill(|paragraphs[|paragraphs| - 1]|, w)
    decreases |paragraphs|
  {
    var first := CellsOf(paragraphs[0], style);
    if |paragraphs| == 1 {
      WriteFill(done, [], first, w);
    } else {
      var (done1, cur1) := Write(done, [], first, w);
      TypeFill(done1 + [Pad(cur1, w)], paragraphs[1..], style, w);
    }
  }

  lemma {:induction false} TypedOnPaper(t: Term, done: seq<Line>, paragraphs: seq<seq<Scalar>>)
    requires t.Valid() && t.parser.state.Ground? && t.parser.pending == []
    requires OnPaper(t.screen, done, [])
    requires paragraphs != [] && forall i | 0 <= i < |paragraphs| :: Printable(paragraphs[i])
    ensures Feed(t, Typed(paragraphs)).screen.Shaped(t.screen)
    ensures var (done', cur') := Type(done, paragraphs, t.parser.style, t.screen.width);
            OnPaper(Feed(t, Typed(paragraphs)).screen, done', cur')
    decreases |paragraphs|
  {
    TextOnPaper(t, done, [], paragraphs[0]);
    if |paragraphs| > 1 {
      var head, tail := EncodeAll(paragraphs[0]), Typed(paragraphs[1..]);
      var (done1, cur1) := Write(done, [], CellsOf(paragraphs[0], t.parser.style), t.screen.width);
      var t1 := Feed(t, head);
      var t2 := t1.Show(t1.screen.Newline());
      assert Feed(t, Typed(paragraphs)) == Feed(t2, tail) by {
        FeedSnoc(t, head, 0x0A);
        StepLineFeed(t1);
        FeedAppend(t, head + [0x0A], tail);
      }
      NewlineOnPaper(t1.screen, done1, cur1);
      TypedOnPaper(t2, done1 + [Pad(cur1, t.screen.width)], paragraphs[1..]);
    }
  }

  /**
   Printing paragraphs to a new terminal shows the end of their wrapped lines, blank lines below
   while the paper is shorter than the grid, and keeps in the scrollback the lines that left the
   grid, dropping only the oldest whole lines beyond the cap. The cursor stands behind the last
   character.
   */
  lemma PrintedText(width: nat, height: nat, limit: nat, paragraphs: seq<seq<Scalar>>)
    requires paragraphs != [] && forall i | 0 <= i < |paragraphs| :: Printable(paragraphs[i])
    ensures var s := Feed(Term(FRESH_PARSER, Fresh(width, height, limit)), Typed(paragraphs)).screen;
            var all := WrapAll(paragraphs, PLAIN, s.width);
            && s.rows == Last(all, s.height) + BlankLines(s.height - |Last(all, s.height)|, s.width)
            && s.scrollback == Last(all[..|all| - |Last(all, s.height)|], Min(limit, MAX_SCROLLBACK))
            && s.row == |Last(all, s.height)| - 1
            && s.col == LastFill(|paragraphs[|paragraphs| - 1]|, s.width)
  {
    hide Feed, Type, WrapAll, LastFill, Typed, Write, Last, Printable, BlankLines;
    var t := Term(FRESH_PARSER, Fresh(width, height, limit));
    FreshOnPaper(width, height, limit);
    TypedOnPaper(t, [], paragraphs);
    TypeIsWrap([], paragraphs, PLAIN, t.screen.width);
    TypeFill([], paragraphs, PLAIN, t.screen.width);
    var all := WrapAll(paragraphs, PLAIN, t.screen.width);
    assert [] + all == all;
    var (done, cur) := Type([], paragraphs, PLAIN, t.screen.width);
    GridIsEndOfPaper(Feed(t, Typed(paragraphs)).screen, done, cur);
  }

  lemma FreshOnPaper(width: nat, height: nat, limit: nat)
    ensures OnPaper(Fresh(width, height, limit), [], [])
  {
    var s := Fresh(width, height, limit);
    BlankLinesSplit(s.height - 1, s.width);
    assert Pad([], s.width) == Blanks(s.width);
  }

  lemma GridIsEndOfPaper(s: Screen, done: seq<Line>, cur: Line)
    requires OnPaper(s, done, cur)
    ensures var all := done + [Pad(cur, s.width)];
            && s.rows == Last(all, s.height) + BlankLines(s.height - |Last(all, s.height)|, s.width)
            && s.scrollback == Last(all[..|all| - |Last(all, s.height)|], s.limit)
            && s.row == |Last(all, s.height)| - 1 && s.col == |cur|
  {
  }
}
