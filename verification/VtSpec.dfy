/**
 What one byte does to the terminal, after ECMA-48 sections 5.4 (control sequences) and
 5.6 (control strings). The parser class in module VtParser is proved against these functions.
 */
module VtSpec {
  import opened Wrappers
  import opened Utf8
  import opened ScreenSpec

  const MAX_CSI_BYTES := 128
  const MAX_OSC_BYTES := 4096
  const MAX_HYPERLINK_BYTES := 2048
  const MAX_DCS_BYTES := 4096

  const BEL: Byte := 0x07
  const ESC: Byte := 0x1B
  const BACKSLASH: Byte := 0x5C
  const SEMICOLON: Byte := 0x3B
  const QUESTION: Byte := 0x3F

  type U16 = n: int | 0 <= n < 0x1_0000

  datatype State =
    | Ground
    | Escape
    | Csi(sequence: seq<Byte>)
    | Osc(sequence: seq<Byte>)
    | OscEscape(sequence: seq<Byte>)
    | Dcs(count: nat)
    | DcsEscape(count: nat)

  datatype Parser = Parser(state: State, style: Style, pending: seq<Byte>)
  {
    /** Buffers stay within their caps, and undecoded text exists only between text bytes. */
    ghost predicate Valid() {
      && (state.Csi? ==> |state.sequence| <= MAX_CSI_BYTES)
      && (state.Osc? || state.OscEscape? ==> |state.sequence| <= MAX_OSC_BYTES)
      && (pending != [] ==> state.Ground? && |pending| <= 3 && Scan(pending) == Incomplete)
    }
  }

  /** Parser and picture together. */
  datatype Term = Term(parser: Parser, screen: Screen)
  {
    ghost predicate Valid() { parser.Valid() && screen.Valid() }

    ghost function To(state: State): Term { this.(parser := parser.(state := state)) }
    ghost function Show(screen: Screen): Term { this.(screen := screen) }
  }

  const FRESH_PARSER := Parser(Ground, PLAIN, [])

  // ---------- text ----------

  ghost function PushTextByte(t: Term, byte: Byte): (t': Term)
    requires t.Valid() && t.parser.state.Ground?
    ensures t'.Valid() && t'.screen.Shaped(t.screen) && t'.parser.state.Ground?
  {
    var bytes := t.parser.pending + [byte];
    match FromUtf8(bytes)
    case Ok(text) => PutAll(t, text).(parser := t.parser.(pending := []))
    case NeedMore =>
      if |bytes| < 4 then
        NeedMoreKeepsPrefix(t.parser.pending, byte);
        t.(parser := t.parser.(pending := bytes))
      else t.Show(t.screen.Put(REPLACEMENT, t.parser.style)).(parser := t.parser.(pending := []))
    case Bad => t.Show(t.screen.Put(REPLACEMENT, t.parser.style)).(parser := t.parser.(pending := []))
  }

  ghost function PutAll(t: Term, text: seq<Scalar>): (t': Term)
    requires t.screen.Valid()
    ensures t'.screen.Valid() && t'.screen.Shaped(t.screen) && t'.parser == t.parser
    decreases |text|
  {
    if text == [] then t else PutAll(t.Show(t.screen.Put(text[0], t.parser.style)), text[1..])
  }

  /** If `pending + [byte]` still wants more it has not started a second character. */
  lemma NeedMoreKeepsPrefix(pending: seq<Byte>, byte: Byte)
    requires pending != [] ==> Scan(pending) == Incomplete
    requires FromUtf8(pending + [byte]).NeedMore?
    ensures Scan(pending + [byte]) == Incomplete
  {
  }

  ghost function Flush(t: Term): (t': Term)
    requires t.Valid() && t.parser.state.Ground?
    ensures t'.Valid() && t'.screen.Shaped(t.screen) && t'.parser == t.parser.(pending := [])
  {
    if t.parser.pending == [] then t
    else t.Show(t.screen.Put(REPLACEMENT, t.parser.style)).(parser := t.parser.(pending := []))
  }

  ghost function GroundByte(t: Term, byte: Byte): (t': Term)
    requires t.Valid() && t.parser.state.Ground?
    ensures t'.Valid() && t'.screen.Shaped(t.screen)
  {
    var f := Flush(t);
    if byte == ESC then f.To(Escape)
    else if byte == 0x0A then f.Show(f.screen.Newline())
    else if byte == 0x0D then f.Show(f.screen.CarriageReturn())
    else if byte == 0x08 then f.Show(f.screen.Backspace())
    else if byte == 0x09 then f.Show(f.screen.Tab())
    else if byte < 0x20 || byte == 0x7F then f
    else PushTextByte(t, byte)
  }

  function AfterEscape(byte: Byte): State {
    if byte == 0x5B then Csi([])
    else if byte == 0x5D then Osc([])
    else if byte == 0x50 || byte == 0x5F || byte == 0x5E then Dcs(0)
    else Ground
  }

  // ---------- control sequences ----------

  function Split(s: seq<Byte>, separator: Byte): (parts: seq<seq<Byte>>)
    ensures |parts| >= 1
  {
    if s == [] then [[]]
    else
      var rest := Split(s[1..], separator);
      if s[0] == separator then [[]] + rest else [[s[0]] + rest[0]] + rest[1..]
  }

  /** `str::parse::<u16>().unwrap_or(0)`: an optional plus sign, then digits, all within range. */
  function ParseU16(part: seq<Byte>): U16 {
    var digits := if part != [] && part[0] == 0x2B then part[1..] else part;
    if digits == [] || !AllDigits(digits) then 0
    else if Decimal(digits) < 0x1_0000 then Decimal(digits) else 0
  }

  predicate AllDigits(digits: seq<Byte>) {
    forall i | 0 <= i < |digits| :: 0x30 <= digits[i] <= 0x39
  }

  function Decimal(digits: seq<Byte>): nat
    requires AllDigits(digits)
  {
    if digits == [] then 0
    else
      var last: int := digits[|digits| - 1];
      Decimal(digits[..|digits| - 1]) * 10 + (last - 0x30)
  }

  function Params(bytes: seq<Byte>): (params: seq<U16>)
    ensures 1 <= |params| <= 16
  {
    if bytes == [] then [0]
    else
      var parts := Split(bytes, SEMICOLON);
      seq(Min(|parts|, 16), i requires 0 <= i < |parts| => ParseU16(parts[i]))
  }

  ghost function ApplyCsi(t: Term, sequence: seq<Byte>, final: Byte): (t': Term)
    requires t.Valid()
    ensures t'.Valid() && t'.screen.Shaped(t.screen) && t'.parser == t.parser.(style := t'.parser.style)
  {
    var private := sequence != [] && sequence[0] == QUESTION;
    var params := Params(if private then sequence[1..] else sequence);
    if final == 0x6D then t.(parser := t.parser.(style := Sgr(t.parser.style, params, 0)))
    else t.Show(CsiScreen(t.screen, private, params, final))
  }

  ghost function CsiScreen(s: Screen, private: bool, params: seq<U16>, final: Byte): (s': Screen)
    requires s.Valid() && params != []
    ensures s'.Valid() && s'.Shaped(s)
  {
    var first: int := params[0];
    var second: int := if |params| > 1 then params[1] else 1;
    if final == 0x41 then s.MoveCursor(-Max(first, 1), 0)
    else if final == 0x42 then s.MoveCursor(Max(first, 1), 0)
    else if final == 0x43 then s.MoveCursor(0, Max(first, 1))
    else if final == 0x44 then s.MoveCursor(0, -Max(first, 1))
    else if final == 0x48 || final == 0x66 then s.SetCursor(Max(first, 1) - 1, Max(second, 1) - 1)
    else if final == 0x4A then s.ClearDisplay(first)
    else if final == 0x4B then s.ClearLine(first)
    else if final == 0x68 && private && first == 25 then s.SetVisible(true)
    else if final == 0x6C && private && first == 25 then s.SetVisible(false)
    else s
  }

  function ToByte(n: U16): Byte { if n <= 255 then n else 255 }

  function Paint(style: Style, foreground: bool, color: Color): Style {
    if foreground then style.(fg := color) else style.(bg := color)
  }

  /** Select graphic rendition, from parameter `index` on. */
  function Sgr(style: Style, params: seq<U16>, index: nat): Style
    decreases |params| - index
  {
    if index >= |params| then style
    else
      var (next, used) := SgrStep(style, params, index);
      Sgr(next, params, index + used)
  }

  /** The style after one SGR item and how many parameters the item takes up. */
  function SgrStep(style: Style, params: seq<U16>, index: nat): (r: (Style, nat))
    requires index < |params|
    ensures r.1 >= 1
  {
    var p: int := params[index];
    if p == 0 then (PLAIN, 1)
    else if p == 1 then (style.(attrs := style.attrs.(bold := true)), 1)
    else if p == 3 then (style.(attrs := style.attrs.(italic := true)), 1)
    else if p == 4 then (style.(attrs := style.attrs.(underline := true)), 1)
    else if p == 7 then (style.(attrs := style.attrs.(reverse := true)), 1)
    else if p == 22 then (style.(attrs := style.attrs.(bold := false)), 1)
    else if p == 23 then (style.(attrs := style.attrs.(italic := false)), 1)
    else if p == 24 then (style.(attrs := style.attrs.(underline := false)), 1)
    else if p == 27 then (style.(attrs := style.attrs.(reverse := false)), 1)
    else if 30 <= p <= 37 then (style.(fg := Indexed(p - 30)), 1)
    else if p == 39 then (style.(fg := DefaultColor), 1)
    else if 40 <= p <= 47 then (style.(bg := Indexed(p - 40)), 1)
    else if p == 49 then (style.(bg := DefaultColor), 1)
    else if 90 <= p <= 97 then (style.(fg := Indexed(p - 82)), 1)
    else if 100 <= p <= 107 then (style.(bg := Indexed(p - 92)), 1)
    else if p == 38 || p == 48 then
      if index + 1 < |params| && params[index + 1] == 5 then
        (if index + 2 < |params| then Paint(style, p == 38, Indexed(ToByte(params[index + 2]))) else style, 3)
      else if index + 1 < |params| && params[index + 1] == 2 then
        (if index + 4 < |params| then
           Paint(style, p == 38, Rgb(ToByte(params[index + 2]), ToByte(params[index + 3]), ToByte(params[index + 4])))
         else style, 5)
      else (style, 1)
    else (style, 1)
  }

  // ---------- control strings ----------

  /** `splitn(n, ';')` */
  function SplitN(text: seq<Scalar>, n: nat): (parts: seq<seq<Scalar>>)
    requires n >= 1
    ensures 1 <= |parts| <= n
    decreases n, |text|
  {
    if n == 1 then [text]
    else if text == [] then [[]]
    else if text[0] == SEMICOLON then [[]] + SplitN(text[1..], n - 1)
    else
      var rest := SplitN(text[1..], n);
      [[text[0]] + rest[0]] + rest[1..]
  }

  const ZERO: seq<Scalar> := [0x30]
  const TWO: seq<Scalar> := [0x32]
  const EIGHT: seq<Scalar> := [0x38]
  const FIFTY_TWO: seq<Scalar> := [0x35, 0x32]
  const HTTP: seq<Scalar> := [0x68, 0x74, 0x74, 0x70, 0x3A, 0x2F, 0x2F]
  const HTTPS: seq<Scalar> := [0x68, 0x74, 0x74, 0x70, 0x73, 0x3A, 0x2F, 0x2F]

  ghost function Hyperlink(uri: seq<Scalar>): Option<seq<Scalar>> {
    if uri != [] && |EncodeAll(uri)| <= MAX_HYPERLINK_BYTES && (HTTPS <= uri || HTTP <= uri) then Some(uri)
    else None
  }

  ghost function ApplyOsc(t: Term, sequence: seq<Byte>): (t': Term)
    requires t.Valid()
    ensures t'.Valid() && t'.screen.Shaped(t.screen) && t'.parser == t.parser.(style := t'.parser.style)
  {
    var parts := SplitN(Lossy(sequence), 3);
    if parts[0] == ZERO || parts[0] == TWO then
      if |parts| > 1 then t.Show(t.screen.SetTitle(parts[1])) else t
    else if parts[0] == EIGHT then
      var uri := if |parts| > 2 then parts[2] else [];
      t.(parser := t.parser.(style := t.parser.style.(hyperlink := Hyperlink(uri))))
    else t
  }

  // ---------- the machine ----------

  ghost function Abort(t: Term): Term {
    t.To(Ground).Show(t.screen.MarkTruncated())
  }

  ghost function Step(t: Term, byte: Byte): (t': Term)
    requires t.Valid()
    ensures t'.Valid() && t'.screen.Shaped(t.screen)
  {
    match t.parser.state
    case Ground => GroundByte(t, byte)
    case Escape => t.To(AfterEscape(byte))
    case Csi(sequence) =>
      if 0x40 <= byte <= 0x7E then ApplyCsi(t.To(Ground), sequence, byte)
      else if |sequence| < MAX_CSI_BYTES && 0x20 <= byte <= 0x3F then t.To(Csi(sequence + [byte]))
      else Abort(t)
    case Osc(sequence) =>
      if byte == BEL then ApplyOsc(t.To(Ground), sequence)
      else if byte == ESC then t.To(OscEscape(sequence))
      else if |sequence| < MAX_OSC_BYTES then t.To(Osc(sequence + [byte]))
      else Abort(t)
    case OscEscape(sequence) =>
      if byte == BACKSLASH then ApplyOsc(t.To(Ground), sequence)
      else if |sequence| + 2 <= MAX_OSC_BYTES then t.To(Osc(sequence + [ESC, byte]))
      else Abort(t)
    case Dcs(count) =>
      if byte == ESC then t.To(DcsEscape(count))
      else if count < MAX_DCS_BYTES then t.To(Dcs(count + 1))
      else Abort(t)
    case DcsEscape(count) =>
      if byte == BACKSLASH then t.To(Ground) else t.To(Dcs(count + 2))
  }

  ghost function Feed(t: Term, bytes: seq<Byte>): (t': Term)
    requires t.Valid()
    ensures t'.Valid() && t'.screen.Shaped(t.screen)
    decreases |bytes|
  {
    if bytes == [] then t else Feed(Step(t, bytes[0]), bytes[1..])
  }
}
