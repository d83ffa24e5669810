/**
 What malformed text looks like on the terminal, compared with the standard library's lossy
 decoding: the parser decodes byte by byte and, when a character is cut off, swallows the byte
 that cut it off.
 */
module MalformedText {
  import opened Utf8
  import opened VtSpec
  import opened Transcript

  /** The characters that bytes complete, and what is held back after them. */
  datatype Reading = Reading(shown: seq<Scalar>, pending: seq<Byte>)

  function Decode(pending: seq<Byte>, byte: Byte): Reading {
    var bytes := pending + [byte];
    match FromUtf8(bytes)
    case Ok(text) => Reading(text, [])
    case NeedMore => if |bytes| < 4 then Reading([], bytes) else Reading([REPLACEMENT], [])
    case Bad => Reading([REPLACEMENT], [])
  }

  function Decoded(bytes: seq<Byte>): Reading {
    if bytes == [] then Reading([], [])
    else
      var before := Decoded(bytes[..|bytes| - 1]);
      var next := Decode(before.pending, bytes[|bytes| - 1]);
      Reading(before.shown + next.shown, next.pending)
  }

  function Pending(bytes: seq<Byte>, k: nat): seq<Byte>
    requires k <= |bytes|
  {
    Decoded(bytes[..k]).pending
  }

  /** The characters shown once text left incomplete at the end is flushed. */
  function Displayed(bytes: seq<Byte>): seq<Scalar> {
    var r := Decoded(bytes);
    if r.pending == [] then r.shown else r.shown + [REPLACEMENT]
  }

  // ---------- the terminal shows what is decoded ----------

  ghost predicate IsText(bytes: seq<Byte>) {
    forall i | 0 <= i < |bytes| :: bytes[i] >= 0x20 && bytes[i] != 0x7F
  }

  lemma {:induction false} PutAllAppend(t: Term, a: seq<Scalar>, b: seq<Scalar>)
    requires t.screen.Valid()
    ensures PutAll(t, a + b) == PutAll(PutAll(t, a), b)
    decreases |a|
  {
    if a == [] {
      assert a + b == b;
    } else {
      assert (a + b)[1..] == a[1..] + b;
      PutAllAppend(t.Show(t.screen.Put(a[0], t.parser.style)), a[1..], b);
    }
  }

  lemma PutOne(t: Term, c: Scalar)
    requires t.screen.Valid()
    ensures PutAll(t, [c]) == t.Show(t.screen.Put(c, t.parser.style))
  {
    assert PutAll(t, [c]) == PutAll(t.Show(t.screen.Put(c, t.parser.style)), []);
  }

  lemma {:induction false} PutAllKeepsPending(t: Term, text: seq<Scalar>, pending: seq<Byte>)
    requires t.screen.Valid()
    ensures PutAll(t.(parser := t.parser.(pending := pending)), text)
         == PutAll(t, text).(parser := t.parser.(pending := pending))
    decreases |text|
  {
    if text != [] {
      PutAllKeepsPending(t.Show(t.screen.Put(text[0], t.parser.style)), text[1..], pending);
    }
  }

  lemma ByteShowsDecoded(t: Term, byte: Byte)
    requires t.Valid() && t.parser.state.Ground? && byte >= 0x20 && byte != 0x7F
    ensures Step(t, byte) == PutAll(t, Decode(t.parser.pending, byte).shown)
                               .(parser := t.parser.(pending := Decode(t.parser.pending, byte).pending))
  {
    StepText(t, byte);
    PutOne(t, REPLACEMENT);
  }

  /** Any text bytes, valid or not, put the decoded characters. */
  lemma {:induction false} TextShowsDecoded(t: Term, bytes: seq<Byte>)
    requires t.Valid() && t.parser.state.Ground? && t.parser.pending == [] && IsText(bytes)
    ensures Feed(t, bytes) == PutAll(t, Decoded(bytes).shown).(parser := t.parser.(pending := Decoded(bytes).pending))
    ensures Flush(Feed(t, bytes)) == PutAll(t, Displayed(bytes))
    decreases |bytes|
  {
    if bytes != [] {
      var n := |bytes| - 1;
      var before := Feed(t, bytes[..n]);
      TextShowsDecoded(t, bytes[..n]);
      assert bytes == bytes[..n] + [bytes[n]];
      FeedSnoc(t, bytes[..n], bytes[n]);
      ByteShowsDecoded(before, bytes[n]);
      var Reading(shown, pending) := Decoded(bytes[..n]);
      var more := Decode(pending, bytes[n]).shown;
      PutAllKeepsPending(PutAll(t, shown), more, pending);
      PutAllAppend(t, shown, more);
    }
    PutAllAppend(t, Decoded(bytes).shown, [REPLACEMENT]);
    PutOne(PutAll(t, Decoded(bytes).shown), REPLACEMENT);
  }

  // ---------- one byte, seen from the scanner ----------

  ghost predicate Begun(pending: seq<Byte>) {
    pending == [] || Scan(pending) == Incomplete
  }

  lemma DecodeByScan(pending: seq<Byte>, byte: Byte)
    requires Begun(pending)
    ensures match Scan(pending + [byte])
            case Whole(c, n) => n == |pending| + 1 && Decode(pending, byte) == Reading([c], [])
            case Incomplete => Decode(pending, byte) == Reading([], pending + [byte])
            case Malformed(n) => (pending != [] ==> n == |pending|) && Decode(pending, byte) == Reading([REPLACEMENT], [])
  {
    var bytes := pending + [byte];
    assert pending == [] || bytes[0] == pending[0];
    FromUtf8Cons(bytes);
    assert FromUtf8([]) == Ok([]);
    if Scan(bytes).Whole? {
      assert bytes[|bytes|..] == [] && [Scan(bytes).c] + [] == [Scan(bytes).c];
    }
  }

  lemma ScanLong(s: seq<Byte>, rest: seq<Byte>)
    requires s != [] && Scan(s) != Incomplete
    ensures Scan(s + rest) == Scan(s)
  {
    assert forall i | 0 <= i < |s| :: (s + rest)[i] == s[i];
  }

  ghost predicate EndsAt(p: seq<Byte>, bytes: seq<Byte>, k: nat)
    requires k <= |bytes|
  {
    |p| <= k && p == bytes[k - |p|..k]
  }

  lemma EndsOneLater(p: seq<Byte>, bytes: seq<Byte>, k: nat)
    requires k < |bytes| && EndsAt(p, bytes, k)
    ensures EndsAt(p + [bytes[k]], bytes, k + 1) && EndsAt([], bytes, k + 1)
  {
  }

  /** What is held back is the start of a character, and the end of what was read. */
  lemma {:induction false} PendingBegun(bytes: seq<Byte>, k: nat)
    requires k <= |bytes|
    ensures Begun(Pending(bytes, k)) && EndsAt(Pending(bytes, k), bytes, k)
  {
    if k == 0 {
      assert bytes[..0] == [];
    } else {
      PendingBegun(bytes, k - 1);
      BegunOneLater(bytes, k - 1);
    }
  }

  lemma BegunOneLater(bytes: seq<Byte>, k: nat)
    requires k < |bytes| && Begun(Pending(bytes, k)) && EndsAt(Pending(bytes, k), bytes, k)
    ensures Begun(Pending(bytes, k + 1)) && EndsAt(Pending(bytes, k + 1), bytes, k + 1)
  {
    hide Scan, Decode, Decoded, EndsAt;
    OneMore(bytes, k);
    DecodeByScan(Pending(bytes, k), bytes[k]);
    EndsOneLater(Pending(bytes, k), bytes, k);
  }

  lemma OneMore(bytes: seq<Byte>, k: nat)
    requires k < |bytes|
    ensures Decoded(bytes[..k + 1]).shown == Decoded(bytes[..k]).shown + Decode(Pending(bytes, k), bytes[k]).shown
    ensures Pending(bytes, k + 1) == Decode(Pending(bytes, k), bytes[k]).pending
  {
    assert bytes[..k + 1][..k] == bytes[..k];
  }

  // ---------- where the byte is swallowed ----------

  /** A character has begun, and the byte does not continue it. */
  ghost predicate Swallows(bytes: seq<Byte>, k: nat)
    requires k < |bytes|
  {
    Pending(bytes, k) != [] && Scan(Pending(bytes, k) + [bytes[k]]).Malformed?
  }

  /** Before the first such byte the lossy decoding agrees, whatever follows. */
  lemma {:induction false} LossyAgrees(bytes: seq<Byte>, k: nat, rest: seq<Byte>)
    requires k <= |bytes| && forall j | 0 <= j < k :: !Swallows(bytes, j)
    ensures Lossy(bytes[..k] + rest) == Decoded(bytes[..k]).shown + Lossy(Pending(bytes, k) + rest)
    decreases k
  {
    if k == 0 {
      assert bytes[..0] == [] && [] + rest == rest;
    } else {
      var b := bytes[k - 1];
      LossyAgrees(bytes, k - 1, [b] + rest);
      assert !Swallows(bytes, k - 1);
      AgreesOneLater(bytes, k - 1, rest);
    }
  }

  lemma AgreesOneLater(bytes: seq<Byte>, k: nat, rest: seq<Byte>)
    requires k < |bytes| && !Swallows(bytes, k)
    requires Lossy(bytes[..k] + ([bytes[k]] + rest))
          == Decoded(bytes[..k]).shown + Lossy(Pending(bytes, k) + ([bytes[k]] + rest))
    ensures Lossy(bytes[..k + 1] + rest) == Decoded(bytes[..k + 1]).shown + Lossy(Pending(bytes, k + 1) + rest)
  {
    hide Scan, Decode, Lossy, Decoded;
    var p, b := Pending(bytes, k), bytes[k];
    PendingBegun(bytes, k);
    LossyStep(p, b, rest);
    OneMore(bytes, k);
    assert bytes[..k + 1] + rest == bytes[..k] + ([b] + rest);
    assert p + ([b] + rest) == p + [b] + rest;
    Regrouped(Decoded(bytes[..k]).shown, Decode(p, b).shown, Lossy(Decode(p, b).pending + rest));
  }

  lemma Regrouped<T>(a: seq<T>, b: seq<T>, c: seq<T>)
    ensures a + (b + c) == a + b + c
  {
  }

  lemma LossyStep(p: seq<Byte>, b: Byte, rest: seq<Byte>)
    requires Begun(p) && (p != [] ==> !Scan(p + [b]).Malformed?)
    ensures Lossy(p + [b] + rest) == Decode(p, b).shown + Lossy(Decode(p, b).pending + rest)
  {
    DecodeByScan(p, b);
    var s := p + [b];
    if Scan(s) != Incomplete {
      ScanLong(s, rest);
      assert (s + rest)[|s|..] == rest;
      assert [] + rest == rest;
    }
  }

  /** At such a byte the lossy decoding reads it again, so it shows at least one character more. */
  lemma SwallowedIsMissing(bytes: seq<Byte>, k: nat)
    requires k < |bytes| && Swallows(bytes, k) && forall j | 0 <= j < k :: !Swallows(bytes, j)
    ensures |Displayed(bytes[..k + 1])| < |Lossy(bytes[..k + 1])|
  {
    var p, b := Pending(bytes, k), bytes[k];
    LossyAgrees(bytes, k, [b]);
    assert bytes[..k + 1] == bytes[..k] + [b];
    OneMore(bytes, k);
    PendingBegun(bytes, k);
    DecodeByScan(p, b);
    assert (p + [b])[|p|..] == [b];
    assert Lossy(p + [b]) == [REPLACEMENT] + Lossy([b]);
    assert Lossy([b]) != [];
  }

  // ---------- the condition on the input ----------

  ghost predicate NoneCutOff(bytes: seq<Byte>) {
    forall i, k | 0 <= i < k < |bytes| :: !CutOff(bytes, i, k)
  }

  /** A character begins at `i`, and the byte at `k` cannot continue it. */
  ghost predicate CutOff(bytes: seq<Byte>, i: nat, k: nat)
    requires i < k < |bytes|
  {
    Scan(bytes[i..k]) == Incomplete && Scan(bytes[i..k + 1]).Malformed?
  }

  lemma NoneCutOffIffNoneSwallowed(bytes: seq<Byte>)
    ensures NoneCutOff(bytes) <==> forall k | 0 <= k < |bytes| :: !Swallows(bytes, k)
  {
    hide Swallows, CutOff;
    if k :| 0 <= k < |bytes| && Swallows(bytes, k) {
      SwallowedCutsOff(bytes, k);
    } else if !NoneCutOff(bytes) {
      var i, k :| 0 <= i < k < |bytes| && CutOff(bytes, i, k);
      CutOffSwallows(bytes, i, k);
    }
  }

  lemma SwallowedCutsOff(bytes: seq<Byte>, k: nat)
    requires k < |bytes| && Swallows(bytes, k)
    ensures !NoneCutOff(bytes)
  {
    hide Scan, Decoded;
    PendingBegun(bytes, k);
    var i := k - |Pending(bytes, k)|;
    assert bytes[i..k + 1] == bytes[i..k] + [bytes[k]];
    assert CutOff(bytes, i, k);
  }

  lemma CutOffSwallows(bytes: seq<Byte>, i: nat, k: nat)
    requires i < k < |bytes| && CutOff(bytes, i, k)
    ensures exists j :: 0 <= j < |bytes| && Swallows(bytes, j)
  {
    hide Scan, Decoded;
    if forall j | 0 <= j < |bytes| :: !Swallows(bytes, j) {
      PendingFrom(bytes, i, k);
      assert bytes[i..k + 1] == bytes[i..k] + [bytes[k]];
      assert Swallows(bytes, k);
    }
  }

  /** If nothing is swallowed, a begun character is what is held back. */
  lemma {:induction false} PendingFrom(bytes: seq<Byte>, i: nat, k: nat)
    requires i < k < |bytes| && Scan(bytes[i..k]) == Incomplete
    requires forall j | 0 <= j < |bytes| :: !Swallows(bytes, j)
    ensures Pending(bytes, k) == bytes[i..k]
    decreases k
  {
    assert bytes[i..k] == bytes[i..k - 1] + [bytes[k - 1]];
    OneMore(bytes, k - 1);
    PendingBegun(bytes, k - 1);
    if k - 1 > i {
      IncompleteBefore(bytes[i..k - 1], bytes[k - 1]);
      PendingFrom(bytes, i, k - 1);
    } else {
      LeadCutsOff(Pending(bytes, i), bytes[i]);
      assert !Swallows(bytes, i);
      assert Pending(bytes, i) + [bytes[i]] == bytes[i..k];
    }
    DecodeByScan(Pending(bytes, k - 1), bytes[k - 1]);
  }

  lemma IncompleteBefore(s: seq<Byte>, b: Byte)
    requires s != [] && Scan(s + [b]) == Incomplete
    ensures Scan(s) == Incomplete
  {
    if Scan(s) != Incomplete {
      ScanLong(s, [b]);
    }
  }

  /** A byte that begins a character cannot continue one. */
  lemma LeadCutsOff(p: seq<Byte>, lead: Byte)
    requires Begun(p) && Scan([lead]) == Incomplete
    ensures p != [] ==> Scan(p + [lead]).Malformed?
  {
    if p != [] {
      var s := p + [lead];
      assert forall i | 0 <= i < |p| :: s[i] == p[i];
      assert s[|p|] == lead;
    }
  }

  /**
   At every point of a stream the terminal shows what the lossy decoding of the bytes so far
   gives, exactly if no character of the stream is cut off.
   */
  lemma LossyIffNoneCutOff(bytes: seq<Byte>)
    ensures (forall k | 0 <= k <= |bytes| :: Displayed(bytes[..k]) == Lossy(bytes[..k])) <==> NoneCutOff(bytes)
  {
    NoneCutOffIffNoneSwallowed(bytes);
    if k :| 0 <= k < |bytes| && Swallows(bytes, k) {
      var first := FirstSwallowed(bytes, k);
      SwallowedIsMissing(bytes, first);
      assert Displayed(bytes[..first + 1]) != Lossy(bytes[..first + 1]);
    } else {
      forall k | 0 <= k <= |bytes| ensures Displayed(bytes[..k]) == Lossy(bytes[..k]) {
        LossyAgrees(bytes, k, []);
        PendingBegun(bytes, k);
        assert bytes[..k] + [] == bytes[..k] && Pending(bytes, k) + [] == Pending(bytes, k);
      }
    }
  }

  lemma FirstSwallowed(bytes: seq<Byte>, k: nat) returns (first: nat)
    requires k < |bytes| && Swallows(bytes, k)
    ensures first <= k && Swallows(bytes, first) && forall j | 0 <= j < first :: !Swallows(bytes, j)
  {
    first := 0;
    while !Swallows(bytes, first)
      invariant first <= k && forall j | 0 <= j < first :: !Swallows(bytes, j)
      decreases k - first
    {
      first := first + 1;
    }
  }

  /** The shortest loss: the letter behind a cut-off character is gone. */
  lemma LetterSwallowed()
    ensures Displayed([0xC3, 0x41]) == [REPLACEMENT] && Lossy([0xC3, 0x41]) == [REPLACEMENT, 0x41]
  {
    var s: seq<Byte> := [0xC3, 0x41];
    assert s[..1] == [0xC3] && [0xC3][..0] == [];
    DecodeByScan([], 0xC3);
    DecodeByScan([0xC3], 0x41);
    assert [] + [0xC3] == [0xC3] && [0xC3] + [0x41] == s;
    assert s[1..] == [0x41] && [0x41][1..] == [];
  }

  /**
   Only the whole stream may agree again by chance: of a cut-off character followed by a cut-off
   three-byte one the same two replacement characters remain.
   */
  lemma AgreementByChance()
    ensures var bytes: seq<Byte> := [0xC3, 0xE1, 0x80];
            Displayed(bytes) == Lossy(bytes) == [REPLACEMENT, REPLACEMENT] && !NoneCutOff(bytes)
  {
    var bytes: seq<Byte> := [0xC3, 0xE1, 0x80];
    assert bytes[..2] == [0xC3, 0xE1] && [0xC3, 0xE1][..1] == [0xC3] && [0xC3][..0] == [];
    DecodeByScan([], 0xC3);
    DecodeByScan([0xC3], 0xE1);
    DecodeByScan([], 0x80);
    assert [] + [0xC3] == [0xC3] && [0xC3] + [0xE1] == [0xC3, 0xE1] && [] + [0x80] == [0x80];
    assert bytes[1..] == [0xE1, 0x80];
    assert bytes[0..1] == [0xC3] && bytes[0..2] == [0xC3, 0xE1] && CutOff(bytes, 0, 1);
  }
}
