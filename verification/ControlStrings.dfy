/**
 Complete control strings fed as bytes: device control strings leave no trace, and operating
 system commands touch only the title and the hyperlink.
 */
module ControlStrings {
  import opened Wrappers
  import opened Utf8
  import opened ScreenSpec
  import opened VtSpec
  import opened Transcript

  ghost predicate Without(bytes: seq<Byte>, b: Byte) {
    forall i | 0 <= i < |bytes| :: bytes[i] != b
  }

  /** ESC and the byte after it. */
  lemma Introduced(t: Term, intro: Byte)
    requires t.Valid() && t.parser.state.Ground?
    ensures Feed(t, [ESC, intro]) == Flush(t).To(AfterEscape(intro))
  {
    var e := Step(t, ESC);
    assert e == Flush(t).To(Escape);
    FeedSnoc(t, [], ESC);
    FeedSnoc(t, [ESC], intro);
    assert [] + [ESC] == [ESC] && [ESC] + [intro] == [ESC, intro];
  }

  /** A control function in three parts: introducer, body, final byte. */
  lemma FeedFramed(t: Term, intro: seq<Byte>, body: seq<Byte>, last: Byte, inside: Term)
    requires t.Valid() && Feed(Feed(t, intro), body) == inside
    ensures Feed(t, intro + body) == inside
    ensures Feed(t, intro + body + [last]) == Step(inside, last)
  {
    FeedAppend(t, intro, body);
    FeedSnoc(t, intro + body, last);
  }

  // ---------- device control strings ----------

  /** P, underscore and circumflex: DCS, APC and PM. */
  predicate StringIntroducer(intro: Byte) {
    intro == 0x50 || intro == 0x5F || intro == 0x5E
  }

  /** After `k` bytes of a payload the last one is an ESC still without its partner. */
  ghost predicate Paired(payload: seq<Byte>, k: nat)
    requires k <= |payload|
  {
    k > 0 && payload[k - 1] == ESC && !Paired(payload, k - 1)
  }

  /** The byte belongs to no pair of ESC and the byte after it. */
  ghost predicate Plain(payload: seq<Byte>, k: nat)
    requires k < |payload|
  {
    payload[k] != ESC && !Paired(payload, k)
  }

  /** The byte ends the string: the backslash of an ESC pair. */
  ghost predicate Closes(payload: seq<Byte>, k: nat)
    requires k < |payload|
  {
    payload[k] == BACKSLASH && Paired(payload, k)
  }

  /** A payload that is skipped whole: nothing in it ends the string, and the cap spares it. */
  ghost predicate Skippable(payload: seq<Byte>) {
    forall k | 0 <= k < |payload| :: !Closes(payload, k) && (Plain(payload, k) ==> k < 4096)
  }

  ghost predicate InString(t: Term) {
    t.parser.state.Dcs? || t.parser.state.DcsEscape?
  }

  /** Where the parser stands after `k` payload bytes of a string. */
  ghost function Skipped(t: Term, payload: seq<Byte>, k: nat): Term
    requires k <= |payload|
  {
    t.To(if Paired(payload, k) then DcsEscape(k - 1) else Dcs(k))
  }

  lemma {:induction false} InsideDcs(t: Term, payload: seq<Byte>, k: nat)
    requires t.Valid() && t.parser.pending == [] && k <= |payload|
    requires forall i | 0 <= i < k :: !Closes(payload, i) && (Plain(payload, i) ==> i < 4096)
    ensures Feed(t.To(Dcs(0)), payload[..k]) == Skipped(t, payload, k)
  {
    if k > 0 {
      InsideDcs(t, payload, k - 1);
      assert payload[..k] == payload[..k - 1] + [payload[k - 1]];
      FeedSnoc(t.To(Dcs(0)), payload[..k - 1], payload[k - 1]);
      assert !Closes(payload, k - 1);
    }
  }

  /** The byte that closes the string or overruns the cap is where the parser leaves it. */
  lemma LeavesString(t: Term, payload: seq<Byte>, k: nat)
    requires t.Valid() && t.parser.pending == [] && k < |payload|
    requires forall i | 0 <= i < k :: !Closes(payload, i) && (Plain(payload, i) ==> i < 4096)
    requires Closes(payload, k) || (Plain(payload, k) && k >= 4096)
    ensures Feed(t.To(Dcs(0)), payload[..k + 1]).parser.state.Ground?
  {
    InsideDcs(t, payload, k);
    assert payload[..k + 1] == payload[..k] + [payload[k]];
    FeedSnoc(t.To(Dcs(0)), payload[..k], payload[k]);
  }

  ghost predicate StaysInString(t: Term, intro: Byte, payload: seq<Byte>)
    requires t.Valid()
  {
    forall k | 0 <= k <= |payload| :: InString(Feed(t, [ESC, intro] + payload[..k]))
  }

  lemma StringPrefix(t: Term, intro: Byte, payload: seq<Byte>, k: nat)
    requires t.Valid() && t.parser.state.Ground? && StringIntroducer(intro) && k <= |payload|
    ensures Feed(t, [ESC, intro] + payload[..k]) == Feed(Flush(t).To(Dcs(0)), payload[..k])
  {
    Introduced(t, intro);
    FeedAppend(t, [ESC, intro], payload[..k]);
  }

  /**
   The cap holds for plain bytes only. A string is left before its end exactly if a byte outside
   an ESC pair stands at offset 4096 or later; otherwise the count is the number of bytes read,
   less an ESC still waiting, however large that is.
   */
  lemma DeviceStringCap(t: Term, intro: Byte, payload: seq<Byte>)
    requires t.Valid() && t.parser.state.Ground? && StringIntroducer(intro)
    ensures StaysInString(t, intro, payload) <==> Skippable(payload)
    ensures Skippable(payload) ==>
      Feed(t, [ESC, intro] + payload).parser.state
      == if Paired(payload, |payload|) then DcsEscape(|payload| - 1) else Dcs(|payload|)
  {
    var f := Flush(t);
    if Skippable(payload) {
      forall k | 0 <= k <= |payload| ensures InString(Feed(t, [ESC, intro] + payload[..k])) {
        StringPrefix(t, intro, payload, k);
        InsideDcs(f, payload, k);
      }
      StringPrefix(t, intro, payload, |payload|);
      InsideDcs(f, payload, |payload|);
      assert payload[..|payload|] == payload;
    } else {
      var k := FirstOffence(payload);
      LeavesString(f, payload, k);
      StringPrefix(t, intro, payload, k + 1);
      assert !InString(Feed(t, [ESC, intro] + payload[..k + 1]));
    }
  }

  lemma FirstOffence(payload: seq<Byte>) returns (k: nat)
    requires !Skippable(payload)
    ensures k < |payload| && (Closes(payload, k) || (Plain(payload, k) && k >= 4096))
    ensures forall i | 0 <= i < k :: !Closes(payload, i) && (Plain(payload, i) ==> i < 4096)
  {
    k := 0;
    while !(Closes(payload, k) || (Plain(payload, k) && k >= 4096))
      invariant k < |payload|
      invariant forall i | 0 <= i < k :: !Closes(payload, i) && (Plain(payload, i) ==> i < 4096)
      decreases |payload| - k
    {
      if k + 1 == |payload| {
        assert Skippable(payload);
      }
      k := k + 1;
    }
  }

  /** So the count does exceed the cap: 4096 plain bytes and one ESC pair are still being skipped. */
  lemma CapExceeded(t: Term, intro: Byte, plain: seq<Byte>, second: Byte)
    requires t.Valid() && t.parser.state.Ground? && StringIntroducer(intro)
    requires |plain| == 4096 && Without(plain, ESC) && second != BACKSLASH
    ensures Feed(t, [ESC, intro] + (plain + [ESC, second])).parser.state == Dcs(4096 + 2)
  {
    hide Feed;
    var payload := plain + [ESC, second];
    assert forall i | 0 <= i < |plain| :: payload[i] == plain[i];
    assert !Paired(payload, 4096) && payload[4096] == ESC;
    assert Paired(payload, 4096 + 1);
    DeviceStringCap(t, intro, payload);
  }

  /** A complete DCS, APC or PM string only flushes text left incomplete before it. */
  lemma DeviceStringIsInert(t: Term, intro: Byte, payload: seq<Byte>)
    requires t.Valid() && t.parser.state.Ground? && StringIntroducer(intro)
    requires Skippable(payload) && !Paired(payload, |payload|)
    ensures Feed(t, [ESC, intro] + payload + [ESC, BACKSLASH]) == Flush(t)
    ensures t.parser.pending == [] ==> Flush(t) == t
  {
    var f := Flush(t);
    Introduced(t, intro);
    InsideDcs(f, payload, |payload|);
    assert payload[..|payload|] == payload;
    Terminated(t, [ESC, intro], payload, f.To(Dcs(|payload|)), ESC, BACKSLASH);
  }

  lemma Terminated(t: Term, intro: seq<Byte>, payload: seq<Byte>, inside: Term, esc: Byte, backslash: Byte)
    requires t.Valid() && Feed(Feed(t, intro), payload) == inside
    ensures Feed(t, intro + payload + [esc, backslash]) == Step(Step(inside, esc), backslash)
  {
    FeedFramed(t, intro, payload, esc, inside);
    FeedSnoc(t, intro + payload + [esc], backslash);
    assert intro + payload + [esc] + [backslash] == intro + payload + [esc, backslash];
  }

  // ---------- operating system commands ----------

  /** The byte ends the command: BEL outside an ESC pair, or the backslash of one. */
  ghost predicate EndsCommand(payload: seq<Byte>, k: nat)
    requires k < |payload|
  {
    if Paired(payload, k) then payload[k] == BACKSLASH else payload[k] == BEL
  }

  /** The byte does not fit any more; an ESC is collected only with its partner. */
  ghost predicate Overflows(payload: seq<Byte>, k: nat)
    requires k < |payload|
  {
    k >= 4096 && (payload[k] != ESC || Paired(payload, k))
  }

  /** What the parser has collected after `k` bytes; an ESC waits for its partner. */
  ghost function Collected(t: Term, payload: seq<Byte>, k: nat): Term
    requires k <= |payload|
  {
    t.To(if Paired(payload, k) then OscEscape(payload[..k - 1]) else Osc(payload[..k]))
  }

  lemma {:induction false} InsideOsc(t: Term, payload: seq<Byte>, k: nat)
    requires t.Valid() && t.parser.pending == [] && k <= |payload|
    requires forall i | 0 <= i < k :: !EndsCommand(payload, i) && !Overflows(payload, i)
    ensures Collected(t, payload, k).Valid() && Feed(t.To(Osc([])), payload[..k]) == Collected(t, payload, k)
  {
    if k == 0 {
      assert payload[..0] == [];
    } else {
      InsideOsc(t, payload, k - 1);
      assert payload[..k] == payload[..k - 1] + [payload[k - 1]];
      FeedSnoc(t.To(Osc([])), payload[..k - 1], payload[k - 1]);
      assert !EndsCommand(payload, k - 1) && !Overflows(payload, k - 1);
      OneCollected(t, payload, k - 1);
    }
  }

  lemma OneCollected(t: Term, payload: seq<Byte>, k: nat)
    requires t.Valid() && t.parser.pending == [] && k < |payload| && Collected(t, payload, k).Valid()
    requires !EndsCommand(payload, k) && !Overflows(payload, k)
    ensures Collected(t, payload, k + 1).Valid()
    ensures Step(Collected(t, payload, k), payload[k]) == Collected(t, payload, k + 1)
  {
    if Paired(payload, k) {
      assert payload[..k + 1] == payload[..k - 1] + [ESC, payload[k]];
    } else if payload[k] != ESC {
      assert payload[..k + 1] == payload[..k] + [payload[k]];
    }
  }

  /** A command complete up to its terminator: nothing ends it, no ESC waits, and it fits. */
  ghost predicate OscPayload(payload: seq<Byte>) {
    |payload| <= 4096 && !Paired(payload, |payload|) && forall k | 0 <= k < |payload| :: !EndsCommand(payload, k)
  }

  /** Both terminators apply the command, ESC pairs in it included; nothing of it is shown. */
  lemma OscString(t: Term, payload: seq<Byte>)
    requires t.Valid() && t.parser.state.Ground? && OscPayload(payload)
    ensures Feed(t, [ESC, 0x5D] + payload + [BEL]) == ApplyOsc(Flush(t), payload)
    ensures Feed(t, [ESC, 0x5D] + payload + [ESC, BACKSLASH]) == ApplyOsc(Flush(t), payload)
  {
    var f := Flush(t);
    Introduced(t, 0x5D);
    InsideOsc(f, payload, |payload|);
    assert payload[..|payload|] == payload;
    FeedFramed(t, [ESC, 0x5D], payload, BEL, f.To(Osc(payload)));
    Terminated(t, [ESC, 0x5D], payload, f.To(Osc(payload)), ESC, BACKSLASH);
    assert f.To(Osc(payload)).To(Ground) == f && f.To(OscEscape(payload)).To(Ground) == f;
  }

  /** A longer one is given up early: text is shown again, and the picture is marked truncated. */
  lemma OscTooLong(t: Term, payload: seq<Byte>) returns (k: nat)
    requires t.Valid() && t.parser.state.Ground? && |payload| > 4096 && !Paired(payload, |payload|)
    requires forall i | 0 <= i < |payload| :: !EndsCommand(payload, i)
    ensures 4096 < k <= |payload| && k <= 4096 + 2
    ensures Feed(t, [ESC, 0x5D] + payload[..k]) == Flush(t).Show(Flush(t).screen.MarkTruncated())
  {
    hide Flush, Feed, Collected;
    var f := Flush(t);
    k := if Overflows(payload, 4096) then 4096 + 1 else 4096 + 2;
    assert payload[k - 1] != ESC || Paired(payload, k - 1);
    InsideOsc(f, payload, k - 1);
    Introduced(t, 0x5D);
    FeedAppend(t, [ESC, 0x5D], payload[..k]);
    assert payload[..k] == payload[..k - 1] + [payload[k - 1]];
    FeedSnoc(f.To(Osc([])), payload[..k - 1], payload[k - 1]);
    GivenUp(f, payload, k - 1);
  }

  lemma GivenUp(t: Term, payload: seq<Byte>, k: nat)
    requires t.Valid() && t.parser.pending == [] && t.parser.state.Ground? && k < |payload|
    requires Collected(t, payload, k).Valid() && !EndsCommand(payload, k) && Overflows(payload, k)
    ensures Step(Collected(t, payload, k), payload[k]) == t.Show(t.screen.MarkTruncated())
  {
  }

  /** An operating system command reaches nothing but the title and the hyperlink of the style. */
  lemma OscKeepsPicture(t: Term, payload: seq<Byte>)
    requires t.Valid()
    ensures var t' := ApplyOsc(t, payload);
            && t'.screen == t.screen.(title := t'.screen.title)
            && t'.parser == t.parser.(style := t.parser.style.(hyperlink := t'.parser.style.hyperlink))
  {
  }

  lemma LossyAscii(b: Byte, rest: seq<Byte>)
    requires b < 0x80
    ensures Lossy([b] + rest) == [b] + Lossy(rest)
  {
    var s := [b] + rest;
    assert s[1..] == rest;
    var c: Scalar := b;
    assert Scan(s) == Whole(c, 1);
  }

  /** OSC 52, which asks for clipboard access, is ignored altogether. */
  lemma ClipboardRequestIgnored(t: Term, payload: seq<Byte>)
    requires t.Valid() && t.parser.state.Ground? && t.parser.pending == []
    requires OscPayload([0x35, 0x32, SEMICOLON] + payload)
    ensures Feed(t, [ESC, 0x5D] + ([0x35, 0x32, SEMICOLON] + payload) + [BEL]) == t
    ensures Feed(t, [ESC, 0x5D] + ([0x35, 0x32, SEMICOLON] + payload) + [ESC, BACKSLASH]) == t
  {
    var command: seq<Byte> := [0x35, 0x32, SEMICOLON] + payload;
    OscString(t, command);
    var text := Lossy(payload);
    assert command == [0x35] + ([0x32] + ([SEMICOLON] + payload));
    LossyAscii(0x35, [0x32] + ([SEMICOLON] + payload));
    LossyAscii(0x32, [SEMICOLON] + payload);
    LossyAscii(SEMICOLON, payload);
    var rest := SplitN(text, 2);
    SplitField(SEMICOLON_CHAR, [], text, 3);
    SplitChar(0x32, [SEMICOLON_CHAR] + text, 3);
    SplitChar(0x35, [0x32] + ([SEMICOLON_CHAR] + text), 3);
    assert SplitN(Lossy(command), 3)[0] == FIFTY_TWO;
  }

  const SEMICOLON_CHAR: Scalar := 0x3B

  lemma SplitChar(c: Scalar, rest: seq<Scalar>, n: nat)
    requires n >= 2 && c != SEMICOLON
    ensures SplitN([c] + rest, n)[0] == [c] + SplitN(rest, n)[0]
    ensures SplitN([c] + rest, n)[1..] == SplitN(rest, n)[1..]
  {
    assert ([c] + rest)[1..] == rest;
  }

  lemma {:induction false} SplitField(separator: Scalar, field: seq<Scalar>, rest: seq<Scalar>, n: nat)
    requires n >= 2 && separator == SEMICOLON && separator !in field
    ensures SplitN(field + [separator] + rest, n) == [field] + SplitN(rest, n - 1)
    decreases |field|
  {
    var text := field + [separator] + rest;
    if field == [] {
      assert text[1..] == rest;
    } else {
      assert text[1..] == field[1..] + [separator] + rest;
      SplitField(separator, field[1..], rest, n);
      assert [field[0]] + field[1..] == field;
    }
  }

  lemma {:induction false} SplitLast(field: seq<Scalar>, n: nat)
    requires n >= 1 && (n == 1 || SEMICOLON_CHAR !in field)
    ensures SplitN(field, n) == [field]
    decreases |field|
  {
    if n > 1 && field != [] {
      SplitLast(field[1..], n);
      assert [field[0]] + field[1..] == field;
    }
  }

  ghost function UpToSemicolon(text: seq<Scalar>): (r: seq<Scalar>)
    ensures SEMICOLON_CHAR !in r && r <= text && (r == text <==> SEMICOLON_CHAR !in text)
    ensures r != text ==> text[|r|] == SEMICOLON_CHAR
  {
    if text == [] || text[0] == SEMICOLON_CHAR then [] else [text[0]] + UpToSemicolon(text[1..])
  }

  /**
   Setting the title: what arrives is the text up to its first semicolon, at most 256 characters.
   So the title is the text asked for exactly when that has no semicolon and fits.
   */
  lemma TitleCommand(t: Term, name: seq<Scalar>, text: seq<Scalar>, payload: seq<Byte>)
    requires t.Valid() && t.parser.state.Ground? && t.parser.pending == [] && (name == [0x30] || name == [0x32])
    requires OscPayload(payload) && payload == EncodeAll(name + [SEMICOLON_CHAR] + text)
    ensures var t' := Feed(t, [ESC, 0x5D] + payload + [BEL]);
            && t' == t.Show(t.screen.SetTitle(UpToSemicolon(text)))
            && (t'.screen.title == text <==> SEMICOLON_CHAR !in text && |text| <= 256)
  {
    hide Feed, ApplyOsc, SplitN, Lossy, EncodeAll, OscPayload;
    var shown := UpToSemicolon(text);
    TitleParsed(name, text, payload);
    TitleApplied(t, payload, shown);
    OscString(t, payload);
    assert shown[..Min(|shown|, MAX_TITLE)] == text <==> shown == text && |text| <= 256;
  }

  lemma TitleParsed(name: seq<Scalar>, text: seq<Scalar>, payload: seq<Byte>)
    requires SEMICOLON_CHAR !in name && payload == EncodeAll(name + [SEMICOLON_CHAR] + text)
    ensures var parts := SplitN(Lossy(payload), 3);
            |parts| > 1 && parts[0] == name && parts[1] == UpToSemicolon(text)
  {
    FromUtf8Encoded(name + [SEMICOLON_CHAR] + text);
    FieldsAfter(name, text);
  }

  lemma TitleApplied(t: Term, payload: seq<Byte>, title: seq<Scalar>)
    requires t.Valid()
    requires var parts := SplitN(Lossy(payload), 3); (parts[0] == ZERO || parts[0] == TWO) && |parts| > 1 && parts[1] == title
    ensures ApplyOsc(t, payload) == t.Show(t.screen.SetTitle(title))
  {
  }

  /** The first two fields of a command. */
  lemma FieldsAfter(name: seq<Scalar>, text: seq<Scalar>)
    requires SEMICOLON_CHAR !in name
    ensures var parts := SplitN(name + [SEMICOLON_CHAR] + text, 3);
            parts[0] == name && |parts| > 1 && parts[1] == UpToSemicolon(text)
  {
    SplitField(SEMICOLON_CHAR, name, text, 3);
    var title := UpToSemicolon(text);
    if title == text {
      SplitLast(text, 2);
    } else {
      SplitField(SEMICOLON_CHAR, title, text[|title| + 1..], 2);
      assert text == title + [SEMICOLON_CHAR] + text[|title| + 1..];
    }
  }

  /** The links that are followed: not empty, at most 2048 bytes, and of the web. */
  ghost predicate Followed(uri: seq<Scalar>) {
    && uri != [] && |EncodeAll(uri)| <= 2048
    && ([0x68, 0x74, 0x74, 0x70, 0x3A, 0x2F, 0x2F] <= uri || [0x68, 0x74, 0x74, 0x70, 0x73, 0x3A, 0x2F, 0x2F] <= uri)
  }

  /** OSC 8: text that follows carries the link, or none if it is not one to follow. */
  lemma HyperlinkCommand(t: Term, attributes: seq<Scalar>, uri: seq<Scalar>, payload: seq<Byte>)
    requires t.Valid() && t.parser.state.Ground? && t.parser.pending == [] && SEMICOLON_CHAR !in attributes
    requires OscPayload(payload)
    requires payload == EncodeAll([0x38] + [SEMICOLON_CHAR] + (attributes + [SEMICOLON_CHAR] + uri))
    ensures Feed(t, [ESC, 0x5D] + payload + [BEL])
         == t.(parser := t.parser.(style := t.parser.style.(hyperlink := if Followed(uri) then Some(uri) else None)))
  {
    FromUtf8Encoded([0x38] + [SEMICOLON_CHAR] + (attributes + [SEMICOLON_CHAR] + uri));
    SplitField(SEMICOLON_CHAR, [0x38], attributes + [SEMICOLON_CHAR] + uri, 3);
    SplitField(SEMICOLON_CHAR, attributes, uri, 2);
    HyperlinkApplied(t, payload, uri);
    OscString(t, payload);
  }

  lemma HyperlinkApplied(t: Term, payload: seq<Byte>, uri: seq<Scalar>)
    requires t.Valid()
    requires var parts := SplitN(Lossy(payload), 3); |parts| == 3 && parts[0] == [0x38] && parts[2] == uri
    ensures ApplyOsc(t, payload)
         == t.(parser := t.parser.(style := t.parser.style.(hyperlink := if Followed(uri) then Some(uri) else None)))
  {
  }
}
