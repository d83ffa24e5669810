/**
 Control sequences fed as bytes, their parameters written in decimal: what each does to the
 fields of the terminal.
 */
module ControlSequences {
  import opened Wrappers
  import opened Utf8
  import opened ScreenSpec
  import opened ScreenLaws
  import opened VtSpec
  import opened Transcript
  import opened ControlStrings

  // ---------- parameters in decimal ----------

  function Digits(n: nat): seq<Byte> {
    var last: Byte := 0x30 + n % 10;
    if n < 10 then [last] else Digits(n / 10) + [last]
  }

  lemma {:induction false} DigitsParse(n: nat)
    ensures AllDigits(Digits(n)) && Decimal(Digits(n)) == n && Digits(n) != []
  {
    if n < 10 {
      assert Digits(n)[..0] == [];
    } else {
      DigitsParse(n / 10);
      DecimalSnoc(Digits(n / 10), 0x30 + n % 10);
    }
  }

  lemma DecimalSnoc(digits: seq<Byte>, last: Byte)
    requires AllDigits(digits) && 0x30 <= last <= 0x39
    ensures AllDigits(digits + [last])
    ensures Decimal(digits + [last]) == Decimal(digits) * 10 + (last as int - 0x30)
  {
    assert (digits + [last])[..|digits|] == digits;
  }

  function PowerOfTen(k: nat): nat {
    if k == 0 then 1 else 10 * PowerOfTen(k - 1)
  }

  lemma {:induction false} DigitsLength(n: nat, k: nat)
    requires k >= 1 && n < PowerOfTen(k)
    ensures |Digits(n)| <= k
  {
    if n >= 10 {
      DigitsLength(n / 10, k - 1);
    }
  }

  lemma U16Digits(n: U16)
    ensures AllDigits(Digits(n)) && ParseU16(Digits(n)) == n && |Digits(n)| <= 5
  {
    DigitsParse(n);
    assert PowerOfTen(2) == 100 && PowerOfTen(4) == 10000 && PowerOfTen(5) == 100000;
    DigitsLength(n, 5);
  }

  lemma {:induction false} SplitDigits(digits: seq<Byte>, rest: seq<Byte>)
    requires AllDigits(digits)
    ensures Split(digits, SEMICOLON) == [digits]
    ensures Split(digits + [SEMICOLON] + rest, SEMICOLON) == [digits] + Split(rest, SEMICOLON)
    decreases |digits|
  {
    var text := digits + [SEMICOLON] + rest;
    if digits == [] {
      assert text[1..] == rest;
    } else {
      SplitDigits(digits[1..], rest);
      assert text[1..] == digits[1..] + [SEMICOLON] + rest;
      assert [digits[0]] + digits[1..] == digits;
    }
  }

  lemma {:induction false} InsideCsi(t: Term, before: seq<Byte>, params: seq<Byte>)
    requires t.Valid() && t.parser.pending == [] && |before| + |params| <= MAX_CSI_BYTES
    requires forall i | 0 <= i < |params| :: 0x20 <= params[i] <= 0x3F
    ensures Feed(t.To(Csi(before)), params) == t.To(Csi(before + params))
    decreases |params|
  {
    if params == [] {
      assert before + params == before;
    } else {
      assert Step(t.To(Csi(before)), params[0]) == t.To(Csi(before + [params[0]]));
      InsideCsi(t, before + [params[0]], params[1..]);
      assert before + [params[0]] + params[1..] == before + params;
    }
  }

  /** Parameters in decimal, separated by semicolons. */
  function ParamBytes(params: seq<U16>): seq<Byte>
    requires params != []
  {
    if |params| == 1 then Digits(params[0]) else Digits(params[0]) + [SEMICOLON] + ParamBytes(params[1..])
  }

  lemma {:induction false} ParamBytesRead(params: seq<U16>)
    requires params != []
    ensures var parts := Split(ParamBytes(params), SEMICOLON);
            |parts| == |params| && forall i | 0 <= i < |params| :: ParseU16(parts[i]) == params[i]
    ensures var bytes := ParamBytes(params);
            && bytes != [] && |bytes| <= 6 * |params| && 0x30 <= bytes[0] <= 0x39
            && forall i | 0 <= i < |bytes| :: 0x20 <= bytes[i] <= 0x3F
    decreases |params|
  {
    hide Digits, ParseU16, Split;
    U16Digits(params[0]);
    DigitsParse(params[0]);
    if |params| == 1 {
      SplitDigits(Digits(params[0]), []);
    } else {
      ParamBytesRead(params[1..]);
      SplitDigits(Digits(params[0]), ParamBytes(params[1..]));
    }
  }

  /** Parameters are read back as they were written, the first sixteen of them. */
  lemma ParamsRead(params: seq<U16>)
    requires params != []
    ensures Params(ParamBytes(params)) == if |params| <= 16 then params else params[..16]
  {
    ParamBytesRead(params);
    hide ParamBytes, Split, ParseU16;
    assert |Params(ParamBytes(params))| == if |params| <= 16 then |params| else 16;
  }

  /** Numbers that do not fit into 16 bits count as 0. */
  lemma LargeIsZero(n: nat)
    requires n >= 0x1_0000
    ensures ParseU16(Digits(n)) == 0
  {
    DigitsParse(n);
  }

  // ---------- one control sequence ----------

  function Sequence(params: seq<U16>, final: Byte): seq<Byte>
    requires params != []
  {
    [ESC, 0x5B] + ParamBytes(params) + [final]
  }

  ghost predicate AtRest(t: Term) {
    t.Valid() && t.parser.state.Ground? && t.parser.pending == []
  }

  /** What a sequence does when it is complete. */
  lemma SequenceApplied(t: Term, params: seq<U16>, final: Byte)
    requires AtRest(t) && 1 <= |params| <= 16 && 0x40 <= final <= 0x7E
    ensures final == 0x6D ==>
      Feed(t, Sequence(params, final)) == t.(parser := t.parser.(style := Sgr(t.parser.style, params, 0)))
    ensures final != 0x6D ==>
      Feed(t, Sequence(params, final)) == t.Show(CsiScreen(t.screen, false, params, final))
  {
    var bytes := ParamBytes(params);
    ParamBytesRead(params);
    ParamsRead(params);
    SequenceFed(t, bytes, final);
    hide Params, ParamBytes, CsiScreen, Sgr;
    assert ApplyCsi(t, bytes, final) == if final == 0x6D then t.(parser := t.parser.(style := Sgr(t.parser.style, params, 0)))
                                        else t.Show(CsiScreen(t.screen, false, params, final));
  }

  lemma SequenceFed(t: Term, bytes: seq<Byte>, final: Byte)
    requires AtRest(t) && 0x40 <= final <= 0x7E && |bytes| <= MAX_CSI_BYTES
    requires forall i | 0 <= i < |bytes| :: 0x20 <= bytes[i] <= 0x3F
    ensures Feed(t, [ESC, 0x5B] + bytes + [final]) == ApplyCsi(t, bytes, final)
  {
    hide ApplyCsi;
    Introduced(t, 0x5B);
    InsideCsi(t, [], bytes);
    assert [] + bytes == bytes;
    FeedFramed(t, [ESC, 0x5B], bytes, final, t.To(Csi(bytes)));
    assert t.To(Csi(bytes)).To(Ground) == t;
  }

  /** A parameter left out is 0. */
  lemma NoParameter(t: Term, final: Byte)
    requires AtRest(t) && 0x40 <= final <= 0x7E
    ensures Feed(t, [ESC, 0x5B, final]) == Feed(t, Sequence([0], final))
  {
    assert Digits(0) == [0x30] && ParamBytes([0]) == [0x30];
    ParamsRead([0]);
    SequenceFed(t, [], final);
    SequenceFed(t, [0x30], final);
    assert [ESC, 0x5B] + [] + [final] == [ESC, 0x5B, final];
  }

  // ---------- the cursor ----------

  /** How far a cursor motion goes: at least one position. */
  function Steps(n: U16): nat { if n == 0 then 1 else n }

  /** A pending wrap is given up by any motion. */
  function OnScreen(col: nat, width: nat): nat
    requires width > 0
  {
    if col < width then col else width - 1
  }

  lemma CursorUp(t: Term, n: U16)
    requires AtRest(t)
    ensures Feed(t, Sequence([n], 0x41))
         == t.Show(t.screen.(row := if t.screen.row < Steps(n) then 0 else t.screen.row - Steps(n),
                             col := OnScreen(t.screen.col, t.screen.width)))
  {
    hide Feed, Sequence, Step;
    SequenceApplied(t, [n], 0x41);
  }

  lemma CursorDown(t: Term, n: U16)
    requires AtRest(t)
    ensures var below := t.screen.row + Steps(n);
            Feed(t, Sequence([n], 0x42))
            == t.Show(t.screen.(row := if below < t.screen.height then below else t.screen.height - 1,
                                col := OnScreen(t.screen.col, t.screen.width)))
  {
    hide Feed, Sequence, Step;
    SequenceApplied(t, [n], 0x42);
  }

  lemma CursorForward(t: Term, n: U16)
    requires AtRest(t)
    ensures Feed(t, Sequence([n], 0x43))
         == t.Show(t.screen.(col := OnScreen(t.screen.col + Steps(n), t.screen.width)))
  {
    hide Feed, Sequence, Step;
    SequenceApplied(t, [n], 0x43);
  }

  lemma CursorBack(t: Term, n: U16)
    requires AtRest(t)
    ensures Feed(t, Sequence([n], 0x44))
         == t.Show(t.screen.(col := if t.screen.col < Steps(n) then 0
                                    else OnScreen(t.screen.col - Steps(n), t.screen.width)))
  {
    hide Feed, Sequence, Step;
    SequenceApplied(t, [n], 0x44);
  }

  /** CUP and HVP: one-based row and column in decimal, each clamped to the picture, 0 meaning 1. */
  lemma CursorAddress(t: Term, row: U16, col: U16, final: Byte)
    requires AtRest(t) && (final == 0x48 || final == 0x66)
    ensures Feed(t, Sequence([row, col], final))
         == t.Show(t.screen.(row := if Steps(row) <= t.screen.height then Steps(row) - 1 else t.screen.height - 1,
                             col := OnScreen(Steps(col) - 1, t.screen.width)))
    ensures Feed(t, Sequence([row], final)) == Feed(t, Sequence([row, 1], final))
  {
    hide Feed, Sequence, Step, CsiScreen;
    SequenceApplied(t, [row, col], final);
    SequenceApplied(t, [row, 1], final);
    SequenceApplied(t, [row], final);
    AddressOnScreen(t.screen, row, col, final);
  }

  lemma AddressOnScreen(s: Screen, row: U16, col: U16, final: Byte)
    requires s.Valid() && (final == 0x48 || final == 0x66)
    ensures CsiScreen(s, false, [row, col], final)
         == s.(row := if Steps(row) <= s.height then Steps(row) - 1 else s.height - 1,
               col := OnScreen(Steps(col) - 1, s.width))
    ensures CsiScreen(s, false, [row], final) == CsiScreen(s, false, [row, 1], final)
  {
  }

  // ---------- erasing ----------

  /** ED, for every mode: the blanked cells are blank, everything else is as it was. */
  lemma EraseDisplay(t: Term, mode: U16)
    requires AtRest(t)
    ensures var s, t' := t.screen, Feed(t, Sequence([mode], 0x4A));
            && t'.parser == t.parser && SameFrame(s, t'.screen) && t'.screen.row == s.row && t'.screen.col == s.col
            && forall r, c | 0 <= r < s.height && 0 <= c < s.width ::
                 t'.screen.rows[r][c] == if DisplayBlanked(s, mode, r, c) then Cell(0x20, PLAIN) else s.rows[r][c]
  {
    hide Feed, Sequence, Step;
    SequenceApplied(t, [mode], 0x4A);
    DisplayErased(t.screen, mode);
    assert CsiScreen(t.screen, false, [mode], 0x4A) == t.screen.ClearDisplay(mode);
  }

  /** EL likewise. */
  lemma EraseLine(t: Term, mode: U16)
    requires AtRest(t)
    ensures var s, t' := t.screen, Feed(t, Sequence([mode], 0x4B));
            && t'.parser == t.parser && SameFrame(s, t'.screen) && t'.screen.row == s.row && t'.screen.col == s.col
            && forall r, c | 0 <= r < s.height && 0 <= c < s.width ::
                 t'.screen.rows[r][c] == if LineBlanked(s, mode, r, c) then Cell(0x20, PLAIN) else s.rows[r][c]
  {
    hide Feed, Sequence, Step;
    SequenceApplied(t, [mode], 0x4B);
    LineErased(t.screen, mode);
    assert CsiScreen(t.screen, false, [mode], 0x4B) == t.screen.ClearLine(mode);
  }

  // ---------- modes and what is ignored ----------

  /** Private mode 25 shows and hides the cursor; all other modes, and 25 without the question mark, do nothing. */
  lemma CursorVisibility(t: Term, mode: U16, final: Byte)
    requires AtRest(t) && (final == 0x68 || final == 0x6C)
    ensures Feed(t, [ESC, 0x5B] + ([QUESTION] + Digits(mode)) + [final])
         == if mode == 25 then t.Show(t.screen.(visible := final == 0x68)) else t
    ensures Feed(t, Sequence([mode], final)) == t
  {
    hide Feed, Sequence, Step, ApplyCsi, CsiScreen, Digits;
    ParamBytesRead([mode]);
    assert ParamBytes([mode]) == Digits(mode);
    SequenceFed(t, [QUESTION] + Digits(mode), final);
    SequenceApplied(t, [mode], final);
    PrivateMode(t, mode, final);
    ModeOnScreen(t.screen, mode, final);
  }

  lemma ModeOnScreen(s: Screen, mode: U16, final: Byte)
    requires s.Valid() && (final == 0x68 || final == 0x6C)
    ensures CsiScreen(s, true, [mode], final) == if mode == 25 then s.(visible := final == 0x68) else s
    ensures CsiScreen(s, false, [mode], final) == s
  {
  }

  lemma PrivateMode(t: Term, mode: U16, final: Byte)
    requires AtRest(t) && (final == 0x68 || final == 0x6C)
    ensures ApplyCsi(t, [QUESTION] + Digits(mode), final)
         == if mode == 25 then t.Show(t.screen.(visible := final == 0x68)) else t
  {
    var bytes := [QUESTION] + Digits(mode);
    ParamsRead([mode]);
    assert ParamBytes([mode]) == Digits(mode) && bytes[1..] == Digits(mode);
    hide Params, Digits, ParamBytes, CsiScreen;
    ModeOnScreen(t.screen, mode, final);
  }

  /** Finals other than those above and SGR leave the terminal alone, whatever the parameters. */
  lemma UnknownIgnored(t: Term, params: seq<U16>, final: Byte)
    requires AtRest(t) && 1 <= |params| <= 16 && 0x40 <= final <= 0x7E
    requires final !in [0x41, 0x42, 0x43, 0x44, 0x48, 0x66, 0x4A, 0x4B, 0x6D]
    ensures Feed(t, Sequence(params, final)) == t
  {
    SequenceApplied(t, params, final);
  }

  /** A byte that belongs to no control sequence, or one parameter byte too many, ends it unapplied. */
  lemma SequenceGivenUp(t: Term, bytes: seq<Byte>, byte: Byte)
    requires AtRest(t) && |bytes| <= 128 && forall i | 0 <= i < |bytes| :: 0x20 <= bytes[i] <= 0x3F
    requires !(0x20 <= byte <= 0x7E) || (byte <= 0x3F && |bytes| == 128)
    ensures Feed(t, [ESC, 0x5B] + bytes + [byte]) == t.Show(t.screen.(truncated := true))
  {
    Introduced(t, 0x5B);
    InsideCsi(t, [], bytes);
    assert [] + bytes == bytes;
    FeedFramed(t, [ESC, 0x5B], bytes, byte, t.To(Csi(bytes)));
    assert t.To(Csi(bytes)).To(Ground) == t;
  }

  /** An escape not followed by a known introducer does nothing. */
  lemma EscapeIgnored(t: Term, byte: Byte)
    requires AtRest(t) && byte != 0x5B && byte != 0x5D && !StringIntroducer(byte)
    ensures Feed(t, [ESC, byte]) == t
  {
    Introduced(t, byte);
  }

  /** The control bytes that are not part of a sequence, after any incomplete text has been flushed. */
  lemma ControlBytes(t: Term, byte: Byte)
    requires t.Valid() && t.parser.state.Ground? && (byte < 0x20 || byte == 0x7F) && byte != ESC
    ensures var f := Flush(t);
            Feed(t, [byte]) ==
              if byte == 0x0A then f.Show(f.screen.Newline())
              else if byte == 0x0D then f.Show(f.screen.(col := 0))
              else if byte == 0x08 then f.Show(f.screen.(col := if f.screen.col == 0 then 0 else f.screen.col - 1))
              else if byte == 0x09 then f.Show(f.screen.Tab())
              else f
  {
    assert Feed(t, [byte]) == Feed(Step(t, byte), []);
  }

  // ---------- graphic rendition ----------

  /** One parameter: what it does to each attribute and colour. */
  lemma GraphicRendition(t: Term, n: U16)
    requires AtRest(t)
    ensures var t' := Feed(t, Sequence([n], 0x6D));
            var old_, new_ := t.parser.style, t'.parser.style;
            && t' == t.(parser := t.parser.(style := new_))
            && new_.attrs.bold == (n == 1 || (old_.attrs.bold && n != 0 && n != 22))
            && new_.attrs.italic == (n == 3 || (old_.attrs.italic && n != 0 && n != 23))
            && new_.attrs.underline == (n == 4 || (old_.attrs.underline && n != 0 && n != 24))
            && new_.attrs.reverse == (n == 7 || (old_.attrs.reverse && n != 0 && n != 27))
            && new_.fg == (if 30 <= n <= 37 then Indexed(n - 30) else if 90 <= n <= 97 then Indexed(n - 90 + 8)
                           else if n == 0 || n == 39 then DefaultColor else old_.fg)
            && new_.bg == (if 40 <= n <= 47 then Indexed(n - 40) else if 100 <= n <= 107 then Indexed(n - 100 + 8)
                           else if n == 0 || n == 49 then DefaultColor else old_.bg)
            && new_.hyperlink == if n == 0 then None else old_.hyperlink
  {
    hide Feed, Sequence, Step;
    SequenceApplied(t, [n], 0x6D);
    var style := t.parser.style;
    assert Sgr(style, [n], 0) == Sgr(SgrStep(style, [n], 0).0, [n], SgrStep(style, [n], 0).1);
  }

  function Octet(n: U16): Byte { if n > 255 then 255 else n }

  /** Parameters 38 and 48 take a palette index after 5, or red, green and blue after 2. */
  lemma ExtendedColor(t: Term, a: U16, b: U16, c: U16)
    requires AtRest(t)
    ensures var style, palette, direct := t.parser.style, Indexed(Octet(a)), Rgb(Octet(a), Octet(b), Octet(c));
            && Feed(t, Sequence([38, 5, a], 0x6D)) == t.(parser := t.parser.(style := style.(fg := palette)))
            && Feed(t, Sequence([48, 5, a], 0x6D)) == t.(parser := t.parser.(style := style.(bg := palette)))
            && Feed(t, Sequence([38, 2, a, b, c], 0x6D)) == t.(parser := t.parser.(style := style.(fg := direct)))
            && Feed(t, Sequence([48, 2, a, b, c], 0x6D)) == t.(parser := t.parser.(style := style.(bg := direct)))
  {
    hide Feed, Sequence, SgrStep, Step;
    ColorItems(t.parser.style, a, b, c);
    OneItem(t, [38, 5, a]);
    OneItem(t, [48, 5, a]);
    OneItem(t, [38, 2, a, b, c]);
    OneItem(t, [48, 2, a, b, c]);
  }

  /** A sequence of one item. */
  lemma OneItem(t: Term, params: seq<U16>)
    requires AtRest(t) && 1 <= |params| <= 16 && SgrStep(t.parser.style, params, 0).1 >= |params|
    ensures Feed(t, Sequence(params, 0x6D)) == t.(parser := t.parser.(style := SgrStep(t.parser.style, params, 0).0))
  {
    hide Feed, Sequence, SgrStep, Step;
    SequenceApplied(t, params, 0x6D);
  }

  lemma ColorItems(style: Style, a: U16, b: U16, c: U16)
    ensures SgrStep(style, [38, 5, a], 0) == (style.(fg := Indexed(Octet(a))), 3)
    ensures SgrStep(style, [48, 5, a], 0) == (style.(bg := Indexed(Octet(a))), 3)
    ensures SgrStep(style, [38, 2, a, b, c], 0) == (style.(fg := Rgb(Octet(a), Octet(b), Octet(c))), 5)
    ensures SgrStep(style, [48, 2, a, b, c], 0) == (style.(bg := Rgb(Octet(a), Octet(b), Octet(c))), 5)
  {
  }

  lemma {:induction false} SgrShift(style: Style, a: seq<U16>, b: seq<U16>, i: nat)
    requires i <= |b|
    ensures Sgr(style, a + b, |a| + i) == Sgr(style, b, i)
    decreases |b| - i
  {
    if i < |b| {
      var (next, used) := SgrStep(style, b, i);
      assert forall k | 0 <= k < |b| :: (a + b)[|a| + k] == b[k];
      assert SgrStep(style, a + b, |a| + i) == (next, used);
      if i + used <= |b| {
        SgrShift(next, a, b, i + used);
      }
    }
  }

  /** Parameters take effect one after the other: together they do what single sequences do in turn. */
  lemma RenditionInTurn(t: Term, first: U16, rest: seq<U16>)
    requires AtRest(t) && first != 38 && first != 48 && 1 <= |rest| <= 15
    ensures Feed(t, Sequence([first] + rest, 0x6D)) == Feed(Feed(t, Sequence([first], 0x6D)), Sequence(rest, 0x6D))
  {
    hide Feed, Sequence, Step;
    var style := t.parser.style;
    SequenceApplied(t, [first] + rest, 0x6D);
    SequenceApplied(t, [first], 0x6D);
    var next := SgrStep(style, [first] + rest, 0).0;
    assert next == SgrStep(style, [first], 0).0 == Sgr(style, [first], 0);
    SequenceApplied(t.(parser := t.parser.(style := next)), rest, 0x6D);
    SgrShift(next, [first], rest, 0);
  }

  // ---------- the erase that goes too far ----------

  /** ED with parameter 1. */
  lemma EraseCommand(t: Term)
    requires t.Valid() && t.parser.state.Ground? && t.parser.pending == []
    ensures Feed(t, [ESC, 0x5B, 0x31, 0x4A]) == t.Show(t.screen.ClearDisplay(1))
  {
    assert Digits(1) == [0x31];
    assert Sequence([1], 0x4A) == [ESC, 0x5B, 0x31, 0x4A];
    hide CsiScreen, Digits, Feed, Sequence, Step;
    SequenceApplied(t, [1], 0x4A);
    EraseOne(t.screen);
  }

  lemma EraseOne(s: Screen)
    requires s.Valid()
    ensures CsiScreen(s, false, [1], 0x4A) == s.ClearDisplay(1)
  {
  }

  /** A letter on the second line, then the end of the first line filled. */
  function WrapPending(width: U16): seq<Byte> {
    [0x0A, 0x41] + Sequence([1, width], 0x48) + [0x42]
  }

  lemma LetterBelow(t: Term)
    requires t.Valid() && t.parser.state.Ground? && t.parser.pending == []
    ensures Feed(t, [0x0A, 0x41]) == t.Show(t.screen.Newline().Put(0x41, t.parser.style))
  {
    hide Screen.Newline, Screen.Put;
    var t1 := t.Show(t.screen.Newline());
    assert Encode(0x41) == [0x41];
    StepLineFeed(t);
    FeedScalar(t1, 0x41);
    FeedSnoc(t, [], 0x0A);
    FeedSnoc(t, [0x0A], 0x41);
    FeedSnoc(t1, [], 0x41);
    assert [] + [0x0A] == [0x0A] && [0x0A] + [0x41] == [0x0A, 0x41] && [] + [0x41] == [0x41];
  }

  lemma WrapPendingShown(t: Term, width: U16)
    requires AtRest(t) && t.screen.row == 0 && t.screen.height >= 2 && width == t.screen.width
    ensures var t' := Feed(t, WrapPending(width));
            && t'.parser == t.parser && t'.screen.row == 0 && t'.screen.col == t'.screen.width
            && t'.screen.height >= 2 && t'.screen.rows[1][0] == Cell(0x41, t.parser.style)
  {
    var address := Sequence([1, width], 0x48);
    var t2 := t.Show(t.screen.Newline().Put(0x41, t.parser.style));
    LetterBelow(t);
    assert Encode(0x42) == [0x42];
    hide Feed, Sequence, Step;
    CursorAddress(t2, 1, width, 0x48);
    FeedScalar(Feed(t2, address), 0x42);
    FeedAppend(t, [0x0A, 0x41] + address, [0x42]);
    FeedAppend(t, [0x0A, 0x41], address);
  }

  /** On every new terminal of two lines or more a short stream ends in the erase of a letter behind the cursor. */
  lemma EraseGoesTooFar(width: nat, height: nat, limit: nat)
    requires Fresh(width, height, limit).height >= 2
    ensures var t := Term(FRESH_PARSER, Fresh(width, height, limit));
            var shown := Feed(t, WrapPending(t.screen.width));
            var erased := Feed(t, WrapPending(t.screen.width) + [ESC, 0x5B, 0x31, 0x4A]);
            && shown.screen.row == 0 && shown.screen.rows[1][0] == Cell(0x41, PLAIN)
            && erased.screen.row == 0 && erased.screen.rows[1][0] == BLANK
  {
    var t := Term(FRESH_PARSER, Fresh(width, height, limit));
    var bytes := WrapPending(t.screen.width);
    WrapPendingShown(t, t.screen.width);
    FeedAppend(t, bytes, [ESC, 0x5B, 0x31, 0x4A]);
    EraseCommand(Feed(t, bytes));
  }
}
