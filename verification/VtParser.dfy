/** The byte-driven parser object, updating its own fields and a surface in place. */
module VtParser {
  import opened Wrappers
  import opened Utf8
  import opened ScreenSpec
  import opened VtSpec
  import opened Surface

  class VtParser {
    var state: State
    var style: Style
    var utf8: seq<Byte>

    ghost function View(): Parser
      reads this
    {
      Parser(state, style, utf8)
    }

    ghost function Both(surface: TerminalSurface): Term
      reads this, surface
      requires surface.Valid()
    {
      Term(View(), surface.View())
    }

    constructor ()
      ensures View() == FRESH_PARSER
    {
      state, style, utf8 := Ground, PLAIN, [];
    }

    method Feed(bytes: seq<Byte>, surface: TerminalSurface)
      requires surface.Valid() && View().Valid()
      modifies this, surface
      ensures surface.Valid() && View().Valid()
      ensures Both(surface) == VtSpec.Feed(old(Both(surface)), bytes)
    {
      ghost var whole := VtSpec.Feed(Both(surface), bytes);
      for i := 0 to |bytes|
        invariant surface.Valid() && View().Valid()
        invariant VtSpec.Feed(Both(surface), bytes[i..]) == whole
      {
        assert bytes[i..][0] == bytes[i] && bytes[i..][1..] == bytes[i + 1..];
        FeedByte(bytes[i], surface);
      }
    }

    method FeedByte(byte: Byte, surface: TerminalSurface)
      requires surface.Valid() && View().Valid()
      modifies this, surface
      ensures surface.Valid() && View().Valid()
      ensures Both(surface) == Step(old(Both(surface)), byte)
    {
      hide Screen.MarkTruncated, VtSpec.GroundByte, VtSpec.ApplyCsi, VtSpec.ApplyOsc;
      var taken := state;
      state := Ground;
      match taken
      case Ground => GroundByte(byte, surface);
      case Escape => state := AfterEscape(byte);
      case Csi(sequence) =>
        if 0x40 <= byte <= 0x7E {
          ApplyCsi(sequence, byte, surface);
        } else if |sequence| < MAX_CSI_BYTES && 0x20 <= byte <= 0x3F {
          state := Csi(sequence + [byte]);
        } else {
          surface.MarkTruncated();
        }
      case Osc(sequence) =>
        if byte == BEL {
          ApplyOsc(sequence, surface);
        } else if byte == ESC {
          state := OscEscape(sequence);
        } else if |sequence| < MAX_OSC_BYTES {
          state := Osc(sequence + [byte]);
        } else {
          surface.MarkTruncated();
        }
      case OscEscape(sequence) =>
        if byte == BACKSLASH {
          ApplyOsc(sequence, surface);
        } else if |sequence| + 2 <= MAX_OSC_BYTES {
          state := Osc(sequence + [ESC, byte]);
        } else {
          surface.MarkTruncated();
        }
      case Dcs(count) =>
        if byte == ESC {
          state := DcsEscape(count);
        } else if count < MAX_DCS_BYTES {
          state := Dcs(count + 1);
        } else {
          surface.MarkTruncated();
        }
      case DcsEscape(count) =>
        if byte != BACKSLASH {
          state := Dcs(count + 2);
        }
    }

    method GroundByte(byte: Byte, surface: TerminalSurface)
      requires surface.Valid() && View().Valid() && state.Ground?
      modifies this, surface
      ensures surface.Valid()
      ensures Both(surface) == VtSpec.GroundByte(old(Both(surface)), byte)
    {
      if byte < 0x20 || byte == 0x7F {
        FlushIncompleteUtf8(surface);
        if byte == ESC {
          state := Escape;
        } else if byte == 0x0A {
          surface.Newline();
        } else if byte == 0x0D {
          surface.CarriageReturn();
        } else if byte == 0x08 {
          surface.Backspace();
        } else if byte == 0x09 {
          surface.Tab();
        }
      } else {
        PushTextByte(byte, surface);
      }
    }

    method PushTextByte(byte: Byte, surface: TerminalSurface)
      requires surface.Valid() && View().Valid() && state.Ground?
      modifies this`utf8, surface
      ensures surface.Valid()
      ensures Both(surface) == VtSpec.PushTextByte(old(Both(surface)), byte)
    {
      ghost var before := Both(surface);
      utf8 := utf8 + [byte];
      var decoded := FromUtf8(utf8);
      if decoded.Ok? {
        var text := decoded.text;
        for i := 0 to |text|
          invariant surface.Valid() && style == before.parser.style && state.Ground?
          invariant PutAll(before, text).screen == PutAll(before.Show(surface.View()), text[i..]).screen
        {
          assert text[i..][0] == text[i] && text[i..][1..] == text[i + 1..];
          surface.Put(text[i], style);
        }
        utf8 := [];
      } else if decoded.NeedMore? && |utf8| < 4 {
      } else {
        surface.Put(REPLACEMENT, style);
        utf8 := [];
      }
    }

    method FlushIncompleteUtf8(surface: TerminalSurface)
      requires surface.Valid() && View().Valid() && state.Ground?
      modifies this`utf8, surface
      ensures surface.Valid()
      ensures Both(surface) == Flush(old(Both(surface)))
    {
      if utf8 != [] {
        surface.Put(REPLACEMENT, style);
        utf8 := [];
      }
    }

    method ApplyCsi(sequence: seq<Byte>, final: Byte, surface: TerminalSurface)
      requires surface.Valid() && View().Valid()
      modifies this`style, surface
      ensures surface.Valid()
      ensures Both(surface) == VtSpec.ApplyCsi(old(Both(surface)), sequence, final)
    {
      var private := sequence != [] && sequence[0] == QUESTION;
      var params := Params(if private then sequence[1..] else sequence);
      if final == 0x6D {
        ApplySgr(params);
      } else {
        MoveOrErase(private, params, final, surface);
      }
    }

    /** The control sequences that act on the surface. */
    static method MoveOrErase(private: bool, params: seq<U16>, final: Byte, surface: TerminalSurface)
      requires surface.Valid() && params != []
      modifies surface
      ensures surface.Valid()
      ensures surface.View() == CsiScreen(old(surface.View()), private, params, final)
    {
      var first: int := params[0];
      if final == 0x41 {
        surface.MoveCursor(-Max(first, 1), 0);
      } else if final == 0x42 {
        surface.MoveCursor(Max(first, 1), 0);
      } else if final == 0x43 {
        surface.MoveCursor(0, Max(first, 1));
      } else if final == 0x44 {
        surface.MoveCursor(0, -Max(first, 1));
      } else if final == 0x48 || final == 0x66 {
        var second: int := if |params| > 1 then params[1] else 1;
        surface.SetCursor(Max(first, 1) - 1, Max(second, 1) - 1);
      } else if final == 0x4A {
        surface.ClearDisplay(first);
      } else if final == 0x4B {
        surface.ClearLine(first);
      } else if final == 0x68 && private && first == 25 {
        surface.SetCursorVisible(true);
      } else if final == 0x6C && private && first == 25 {
        surface.SetCursorVisible(false);
      }
    }

    method ApplySgr(params: seq<U16>)
      modifies this`style
      ensures style == Sgr(old(style), params, 0)
    {
      var index := 0;
      while index < |params|
        invariant Sgr(style, params, index) == Sgr(old(style), params, 0)
        decreases |params| - index
      {
        var (next, used) := SgrStep(style, params, index);
        style := next;
        index := index + used;
      }
    }

    method ApplyOsc(sequence: seq<Byte>, surface: TerminalSurface)
      requires surface.Valid() && View().Valid()
      modifies this`style, surface
      ensures surface.Valid()
      ensures Both(surface) == VtSpec.ApplyOsc(old(Both(surface)), sequence)
    {
      var parts := SplitN(Lossy(sequence), 3);
      if parts[0] == ZERO || parts[0] == TWO {
        if |parts| > 1 {
          surface.SetTitle(parts[1]);
        }
      } else if parts[0] == EIGHT {
        var uri := if |parts| > 2 then parts[2] else [];
        style := style.(hyperlink :=
          if uri != [] && |EncodeAll(uri)| <= MAX_HYPERLINK_BYTES && (HTTPS <= uri || HTTP <= uri) then Some(uri)
          else None);
      }
    }
  }
}
