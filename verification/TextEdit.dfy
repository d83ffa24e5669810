/**
 Edits given in bytes and carried out in characters, and the difference of two texts as one
 such edit.
 */
module TextEdit {
  import opened Wrappers
  import opened Sums
  import opened Utf8
  import opened Checkpoint

  datatype Edit = Edit(startByte: nat, oldEndByte: nat, replacement: Text)

  function CharLens(text: Text): (lens: seq<nat>)
    ensures |lens| == |text|
  {
    seq(|text|, i requires 0 <= i < |text| => |Encode(text[i])|)
  }

  /** The byte offset of character `k`. */
  function ByteAt(text: Text, k: nat): nat
    requires k <= |text|
  {
    Sum(CharLens(text), k)
  }

  function ByteLen(text: Text): nat { ByteAt(text, |text|) }

  /** `byte_to_char`: the character that holds a byte. */
  function CharAt(text: Text, byte: nat): (k: nat)
    ensures k <= |text|
  {
    Floor(CharLens(text), |text|, byte)
  }

  predicate IsCharBoundary(text: Text, byte: nat) {
    ByteAt(text, CharAt(text, byte)) == byte
  }

  lemma BoundaryIffCharStart(text: Text, byte: nat)
    ensures IsCharBoundary(text, byte) <==> exists k | 0 <= k <= |text| :: ByteAt(text, k) == byte
  {
    forall k | 0 <= k <= |text| && ByteAt(text, k) == byte ensures CharAt(text, byte) == k {
      FloorOfSum(CharLens(text), k);
    }
  }

  lemma {:induction false} BytesOfPrefix(text: Text, k: nat)
    requires k <= |text|
    ensures |EncodeAll(text[..k])| == ByteAt(text, k) <= |EncodeAll(text)|
    ensures EncodeAll(text)[..ByteAt(text, k)] == EncodeAll(text[..k])
    ensures EncodeAll(text)[ByteAt(text, k)..] == EncodeAll(text[k..])
  {
    assert text == text[..k] + text[k..];
    EncodeAllAppend(text[..k], text[k..]);
    PrefixLength(text, k);
  }

  lemma {:induction false} PrefixLength(text: Text, k: nat)
    requires k <= |text|
    ensures |EncodeAll(text[..k])| == ByteAt(text, k)
  {
    if k > 0 {
      PrefixLength(text, k - 1);
      assert text[..k] == text[..k - 1] + [text[k - 1]];
      EncodeAllAppend(text[..k - 1], [text[k - 1]]);
      assert EncodeAll([text[k - 1]]) == Encode(text[k - 1]) + EncodeAll([]);
    }
  }

  // ---------- applying an edit ----------

  /** The first and last character touched: both offsets clamped, then moved down to a boundary. */
  function EditStart(text: Text, edit: Edit): (k: nat)
    ensures k <= |text|
  {
    CharAt(text, Min(edit.startByte, ByteLen(text)))
  }

  function EditEnd(text: Text, edit: Edit): (k: nat)
    ensures EditStart(text, edit) <= k <= |text|
  {
    FloorMonotone(CharLens(text), EndStart(text, edit).1, EndStart(text, edit).0);
    CharAt(text, EndStart(text, edit).0)
  }

  function EndStart(text: Text, edit: Edit): (r: (nat, nat))
    ensures r.1 <= r.0
  {
    var start := Min(edit.startByte, ByteLen(text));
    var end := Min(edit.oldEndByte, ByteLen(text));
    (if end < start then start else end, start)
  }

  function Edited(text: Text, edit: Edit): Text {
    text[..EditStart(text, edit)] + edit.replacement + text[EditEnd(text, edit)..]
  }

  /**
   In bytes, an edit replaces the stretch between the two clamped and snapped offsets and leaves
   every other byte alone. On boundaries within the text nothing is clamped or snapped.
   */
  lemma EditIsByteSplice(text: Text, edit: Edit)
    ensures var bytes := EncodeAll(text);
            var s, e := ByteAt(text, EditStart(text, edit)), ByteAt(text, EditEnd(text, edit));
            && s <= e <= |bytes|
            && EncodeAll(Edited(text, edit)) == bytes[..s] + EncodeAll(edit.replacement) + bytes[e..]
            && s <= edit.startByte && e <= EndStart(text, edit).0
            && (IsCharBoundary(text, edit.startByte) ==> s == edit.startByte)
            && (IsCharBoundary(text, edit.oldEndByte) && edit.startByte <= edit.oldEndByte ==> e == edit.oldEndByte)
  {
    var s, e := EditStart(text, edit), EditEnd(text, edit);
    BytesOfPrefix(text, s);
    BytesOfPrefix(text, e);
    SumMonotone(CharLens(text), s, e);
    SumMonotone(CharLens(text), CharAt(text, edit.startByte), |text|);
    SumMonotone(CharLens(text), CharAt(text, edit.oldEndByte), |text|);
    EncodeAllAppend(text[..s] + edit.replacement, text[e..]);
    EncodeAllAppend(text[..s], edit.replacement);
  }

  /** Snapping takes the greatest boundary not above the offset; an end before the start counts as the start. */
  lemma EditSnapsDown(text: Text, edit: Edit, b: nat)
    requires IsCharBoundary(text, b)
    ensures var s, e := ByteAt(text, EditStart(text, edit)), ByteAt(text, EditEnd(text, edit));
            && IsCharBoundary(text, s) && IsCharBoundary(text, e)
            && s <= edit.startByte && (e <= edit.startByte || e <= edit.oldEndByte)
            && (b <= edit.startByte ==> b <= s)
            && (b <= edit.startByte || b <= edit.oldEndByte ==> b <= e)
  {
    hide CharLens;
    CharBytes(text, EditStart(text, edit));
    CharBytes(text, EditEnd(text, edit));
    BoundaryBelow(text, b, edit.startByte);
    BoundaryBelow(text, b, EndStart(text, edit).0);
  }

  lemma BoundaryBelow(text: Text, b: nat, byte: nat)
    requires IsCharBoundary(text, b)
    ensures b <= byte ==> b <= ByteAt(text, CharAt(text, Min(byte, ByteLen(text))))
  {
    var lens := CharLens(text);
    SumMonotone(lens, CharAt(text, b), |text|);
    if b <= byte {
      FloorMonotone(lens, b, Min(byte, ByteLen(text)));
      SumMonotone(lens, CharAt(text, b), CharAt(text, Min(byte, ByteLen(text))));
    }
  }

  datatype Outcome<T> = Done(value: T) | StaleRevision

  datatype PathState = Saved(path: Path) | Untitled(suggestedName: string) | Recovered(original: Path)

  function BackingPath(state: PathState): Option<Path> {
    match state
    case Saved(p) => Some(p)
    case Recovered(p) => Some(p)
    case Untitled(_) => None
  }

  /** The document buffer; the rope is its sequence of characters. */
  class Buffer {
    const id: DocId
    const language: Language
    var revision: Revision
    var rope: Text
    var pathState: PathState
    var dirty: bool
    var lastCheckpointedRevision: Option<Revision>

    constructor (id: DocId, language: Language, content: Text)
      ensures this.id == id && this.language == language && rope == content
      ensures revision == 0 && !dirty && lastCheckpointedRevision == None
    {
      this.id, this.language := id, language;
      revision, rope, dirty, lastCheckpointedRevision := 0, content, false, None;
      pathState := Untitled("untitled");
    }

    constructor FromCheckpoint(payload: Payload, state: PathState)
      ensures id == payload.docId && language == payload.language && rope == payload.content
      ensures revision == payload.revision && dirty && lastCheckpointedRevision == Some(payload.revision)
      ensures pathState == state
    {
      id, language := payload.docId, payload.language;
      revision, rope, pathState := payload.revision, payload.content, state;
      dirty, lastCheckpointedRevision := true, Some(payload.revision);
    }

    /** Only an edit made against the current revision is accepted; the payload carries the new text. */
    method ApplyEdit(expected: Revision, edit: Edit, epoch: Epoch) returns (r: Outcome<(Revision, Payload)>)
      modifies this
      ensures r.StaleRevision? <==> expected != old(revision)
      ensures r.StaleRevision? ==> unchanged(this)
      ensures r.Done? ==>
        && rope == Edited(old(rope), edit)
        && revision == old(revision) + 1 && dirty
        && pathState == old(pathState) && lastCheckpointedRevision == old(lastCheckpointedRevision)
        && r.value == (revision, Payload(id, revision, rope, language, BackingPath(pathState), epoch))
    {
      if expected != revision {
        return StaleRevision;
      }
      var startChar, oldEndChar := CharRange(rope, edit);
      rope := rope[..startChar] + rope[oldEndChar..];
      rope := rope[..startChar] + edit.replacement + rope[startChar..];
      revision := revision + 1;
      dirty := true;
      r := Done((revision, Payload(id, revision, rope, language, BackingPath(pathState), epoch)));
    }

    method MarkClean(at: Revision)
      modifies this`dirty, this`lastCheckpointedRevision
      ensures dirty == (old(dirty) && at != revision)
      ensures lastCheckpointedRevision == if at == revision then Some(at) else old(lastCheckpointedRevision)
    {
      if at == revision {
        dirty := false;
        lastCheckpointedRevision := Some(at);
      }
    }

    method RecordLastCheckpoint(at: Revision)
      modifies this`lastCheckpointedRevision
      ensures lastCheckpointedRevision == if at == revision then Some(at) else old(lastCheckpointedRevision)
    {
      if at == revision {
        lastCheckpointedRevision := Some(at);
      }
    }
  }

  /** Clamp and snap the byte offsets of an edit, then convert them to character indices. */
  method CharRange(text: Text, edit: Edit) returns (startChar: nat, oldEndChar: nat)
    ensures startChar == EditStart(text, edit) && oldEndChar == EditEnd(text, edit)
  {
    hide CharLens;
    var len := ByteLen(text);
    var start := Min(edit.startByte, len);
    var oldEnd := Min(edit.oldEndByte, len);
    oldEnd := if oldEnd < start then start else oldEnd;
    assert EndStart(text, edit) == (oldEnd, start);
    var s, e := start, oldEnd;
    if !IsCharBoundary(text, s) {
      s := PrevCharBoundary(text, s);
    }
    if !IsCharBoundary(text, e) {
      e := PrevCharBoundary(text, e);
      e := if e < s then s else e;
    }
    SumMonotone(CharLens(text), CharAt(text, start), CharAt(text, oldEnd));
    CharBytes(text, CharAt(text, start));
    CharBytes(text, CharAt(text, oldEnd));
    startChar, oldEndChar := CharAt(text, s), CharAt(text, e);
  }

  method PrevCharBoundary(text: Text, byte: nat) returns (b: nat)
    ensures b == ByteAt(text, CharAt(text, Min(byte, ByteLen(text))))
  {
    hide CharLens;
    var from := Min(byte, ByteLen(text));
    b := from;
    ghost var k := CharAt(text, from);
    CharBytes(text, k);
    while b > 0 && !IsCharBoundary(text, b)
      invariant ByteAt(text, k) <= b <= from
    {
      b := b - 1;
    }
    FloorMonotone(CharLens(text), b, from);
    SumMonotone(CharLens(text), CharAt(text, b), k);
  }

  // ---------- the difference of two texts ----------

  function CommonPrefix(a: Text, b: Text): (n: nat)
    ensures n <= |a| && n <= |b|
  {
    if a == [] || b == [] || a[0] != b[0] then 0 else 1 + CommonPrefix(a[1..], b[1..])
  }

  function CommonSuffix(a: Text, b: Text): (n: nat)
    ensures n <= |a| && n <= |b|
  {
    if a == [] || b == [] || a[|a| - 1] != b[|b| - 1] then 0
    else 1 + CommonSuffix(a[..|a| - 1], b[..|b| - 1])
  }

  lemma {:induction false} PrefixIsLongest(a: Text, b: Text, n: nat)
    requires n <= |a| && n <= |b|
    ensures a[..n] == b[..n] <==> n <= CommonPrefix(a, b)
  {
    if n > 0 {
      assert a[..n] == [a[0]] + a[1..][..n - 1] && b[..n] == [b[0]] + b[1..][..n - 1];
      if a[0] == b[0] {
        PrefixIsLongest(a[1..], b[1..], n - 1);
        assert a[..n] == b[..n] <==> a[1..][..n - 1] == b[1..][..n - 1] by {
          assert a[..n][1..] == a[1..][..n - 1] && b[..n][1..] == b[1..][..n - 1];
        }
      } else {
        assert a[..n][0] != b[..n][0];
      }
    }
  }

  lemma {:induction false} SuffixIsLongest(a: Text, b: Text, n: nat)
    requires n <= |a| && n <= |b|
    ensures a[|a| - n..] == b[|b| - n..] <==> n <= CommonSuffix(a, b)
  {
    if n > 0 {
      var a', b' := a[..|a| - 1], b[..|b| - 1];
      assert a[|a| - n..] == a'[|a'| - (n - 1)..] + [a[|a| - 1]];
      assert b[|b| - n..] == b'[|b'| - (n - 1)..] + [b[|b| - 1]];
      if a[|a| - 1] == b[|b| - 1] {
        SuffixIsLongest(a', b', n - 1);
        assert a[|a| - n..] == b[|b| - n..] <==> a'[|a'| - (n - 1)..] == b'[|b'| - (n - 1)..] by {
          assert a[|a| - n..][..n - 1] == a'[|a'| - (n - 1)..] && b[|b| - n..][..n - 1] == b'[|b'| - (n - 1)..];
        }
      } else {
        assert a[|a| - n..][n - 1] != b[|b| - n..][n - 1];
      }
    }
  }

  datatype Point = Point(row: nat, column: nat)
  datatype InputEdit = InputEdit(
    startByte: nat, oldEndByte: nat, newEndByte: nat,
    startPosition: Point, oldEndPosition: Point, newEndPosition: Point)

  /** The changed region in characters: unchanged before `p`, and unchanged in the last `s`. */
  function Changed(before: Text, after: Text): (r: (nat, nat))
    ensures r.0 + r.1 <= |before| && r.0 + r.1 <= |after|
  {
    var p := CommonPrefix(before, after);
    (p, CommonSuffix(before[p..], after[p..]))
  }

  function Diff(before: Text, after: Text): InputEdit {
    var (p, s) := Changed(before, after);
    var start := ByteAt(before, p);
    var oldEnd := ByteAt(before, |before| - s);
    var newEnd := ByteAt(after, |after| - s);
    InputEdit(start, oldEnd, newEnd, PointOf(before, start), PointOf(before, oldEnd), PointOf(after, newEnd))
  }

  /** The edit that a difference stands for: the stretch of the new text between its bytes. */
  function DiffEdit(before: Text, after: Text): Edit {
    var (p, s) := Changed(before, after);
    Edit(Diff(before, after).startByte, Diff(before, after).oldEndByte, after[p..|after| - s])
  }

  /** Applied to the old text, the difference yields exactly the new text. */
  lemma DiffRebuilds(before: Text, after: Text)
    ensures Edited(before, DiffEdit(before, after)) == after
  {
    hide CharLens, CommonPrefix, CommonSuffix, Encode;
    var (p, s) := Changed(before, after);
    EditAtBoundaries(before, p, |before| - s, after[p..|after| - s]);
    ChangedKeepsRest(before, after);
    assert after == after[..p] + after[p..|after| - s] + after[|after| - s..];
  }

  /** An edit between two character offsets replaces the characters between them. */
  lemma EditAtBoundaries(text: Text, from: nat, to: nat, replacement: Text)
    requires from <= to <= |text|
    ensures Edited(text, Edit(ByteAt(text, from), ByteAt(text, to), replacement))
         == text[..from] + replacement + text[to..]
  {
    hide CharLens, Encode;
    CharBytes(text, from);
    CharBytes(text, to);
    SumMonotone(CharLens(text), from, to);
  }

  lemma ChangedKeepsRest(before: Text, after: Text)
    ensures var (p, s) := Changed(before, after);
            before[..p] == after[..p] && before[|before| - s..] == after[|after| - s..]
  {
    hide CommonPrefix, CommonSuffix;
    var (p, s) := Changed(before, after);
    PrefixIsLongest(before, after, p);
    SuffixIsLongest(before[p..], after[p..], s);
    TailOfTail(before, p, s);
    TailOfTail(after, p, s);
  }

  lemma TailOfTail(text: Text, p: nat, s: nat)
    requires p + s <= |text|
    ensures text[p..][|text[p..]| - s..] == text[|text| - s..]
  {
  }

  /** All four offsets lie between characters, in order and within their texts. */
  lemma DiffOnBoundaries(before: Text, after: Text)
    ensures var d := Diff(before, after);
            && d.startByte <= d.oldEndByte <= ByteLen(before) && d.startByte <= d.newEndByte <= ByteLen(after)
            && IsCharBoundary(before, d.startByte) && IsCharBoundary(before, d.oldEndByte)
            && IsCharBoundary(after, d.startByte) && IsCharBoundary(after, d.newEndByte)
  {
    hide CharLens, Encode, CommonPrefix, CommonSuffix;
    var (p, s) := Changed(before, after);
    ChangedKeepsRest(before, after);
    SamePrefixBytes(before, after, p);
    CharBytes(before, p);
    CharBytes(before, |before| - s);
    CharBytes(after, p);
    CharBytes(after, |after| - s);
    SumMonotone(CharLens(before), p, |before| - s);
    SumMonotone(CharLens(after), p, |after| - s);
  }

  lemma CharBytes(text: Text, k: nat)
    requires k <= |text|
    ensures CharAt(text, ByteAt(text, k)) == k && ByteAt(text, k) <= ByteLen(text)
    ensures IsCharBoundary(text, ByteAt(text, k))
  {
    FloorOfSum(CharLens(text), k);
    SumMonotone(CharLens(text), k, |text|);
  }

  lemma SamePrefixBytes(a: Text, b: Text, k: nat)
    requires k <= |a| && k <= |b| && a[..k] == b[..k]
    ensures ByteAt(a, k) == ByteAt(b, k)
  {
    PrefixLength(a, k);
    PrefixLength(b, k);
  }

  /** Each of the three points names its own byte, the first two in the old text and the third in the new. */
  lemma DiffPoints(before: Text, after: Text)
    ensures var d := Diff(before, after);
            && ByteOfPoint(before, d.startPosition) == d.startByte
            && ByteOfPoint(before, d.oldEndPosition) == d.oldEndByte
            && ByteOfPoint(after, d.newEndPosition) == d.newEndByte
  {
    hide PointOf, ByteOfPoint;
    var d := Diff(before, after);
    DiffOnBoundaries(before, after);
    PointRoundTrip(before, d.startByte);
    PointRoundTrip(before, d.oldEndByte);
    PointRoundTrip(after, d.newEndByte);
  }

  /** No other description as prefix, changed stretch and suffix keeps more of the text. */
  lemma DiffIsSmallest(before: Text, after: Text, p: nat, s: nat)
    requires p + s <= |before| && p + s <= |after|
    requires before[..p] == after[..p] && before[|before| - s..] == after[|after| - s..]
    ensures var (p0, s0) := Changed(before, after);
            p <= p0 && (p == p0 ==> s <= s0)
  {
    var (p0, s0) := Changed(before, after);
    PrefixIsLongest(before, after, p);
    if p == p0 {
      TailOfTail(before, p, s);
      TailOfTail(after, p, s);
      SuffixIsLongest(before[p..], after[p..], s);
    }
  }

  // ---------- rows and columns ----------

  const NEWLINE: Scalar := 0x0A

  function Rows(text: Text): nat {
    if text == [] then 0 else Rows(text[..|text| - 1]) + (if text[|text| - 1] == NEWLINE then 1 else 0)
  }

  /** Bytes since the last newline. */
  function ColumnOf(text: Text): nat {
    if text == [] || text[|text| - 1] == NEWLINE then 0
    else ColumnOf(text[..|text| - 1]) + |Encode(text[|text| - 1])|
  }

  function PointOf(text: Text, byte: nat): Point {
    var prefix := text[..CharAt(text, Min(byte, ByteLen(text)))];
    Point(Rows(prefix), ColumnOf(prefix))
  }

  method ByteToPoint(text: Text, byte: nat) returns (point: Point)
    ensures point == PointOf(text, byte)
  {
    var b := Min(byte, ByteLen(text));
    var row, column, pos, i := 0, 0, 0, 0;
    while i < |text| && pos + |Encode(text[i])| <= b
      invariant 0 <= i <= |text| && pos == ByteAt(text, i) <= b
      invariant row == Rows(text[..i]) && column == ColumnOf(text[..i])
    {
      assert text[..i + 1][..i] == text[..i];
      if text[i] == NEWLINE {
        row := row + 1;
        column := 0;
      } else {
        column := column + |Encode(text[i])|;
      }
      pos := pos + |Encode(text[i])|;
      i := i + 1;
    }
    FloorUnique(CharLens(text), b, i);
    point := Point(row, column);
  }

  /** Find a point again: pass as many newlines as it has rows, then count its column. */
  function ByteOfPoint(text: Text, point: Point): nat {
    if point.row == 0 || text == [] then point.column
    else
      |Encode(text[0])| + ByteOfPoint(text[1..], if text[0] == NEWLINE then point.(row := point.row - 1) else point)
  }

  /** A row and column say the same as the byte they were computed from. */
  lemma PointRoundTrip(text: Text, byte: nat)
    requires IsCharBoundary(text, byte)
    ensures ByteOfPoint(text, PointOf(text, byte)) == byte
  {
    var k := CharAt(text, byte);
    CharBytes(text, k);
    PointAtChar(text, k);
  }

  lemma {:induction false} PointAtChar(text: Text, k: nat)
    requires k <= |text|
    ensures ByteOfPoint(text, Point(Rows(text[..k]), ColumnOf(text[..k]))) == ByteAt(text, k)
    decreases |text|
  {
    if Rows(text[..k]) == 0 {
      FirstRowColumn(text, k);
    } else {
      hide Encode, ColumnOf, Sum, CharLens;
      var c, rest := text[0], text[1..][..k - 1];
      assert text[..k] == [c] + rest;
      RowsShift(c, rest);
      PointAtChar(text[1..], k - 1);
      ByteAtShift(text, k);
    }
  }

  lemma ByteAtShift(text: Text, k: nat)
    requires 0 < k <= |text|
    ensures ByteAt(text, k) == |Encode(text[0])| + ByteAt(text[1..], k - 1)
  {
    SumShift(CharLens(text), k);
    assert CharLens(text)[1..] == CharLens(text[1..]);
  }

  lemma {:induction false} FirstRowColumn(text: Text, k: nat)
    requires k <= |text| && Rows(text[..k]) == 0
    ensures ColumnOf(text[..k]) == ByteAt(text, k)
  {
    if k > 0 {
      hide Encode;
      assert text[..k][..k - 1] == text[..k - 1];
      FirstRowColumn(text, k - 1);
    }
  }

  lemma {:induction false} RowsShift(c: Scalar, text: Text)
    ensures Rows([c] + text) == Rows(text) + (if c == NEWLINE then 1 else 0)
    ensures ColumnOf([c] + text) == ColumnOf(text) + (if c != NEWLINE && Rows(text) == 0 then |Encode(c)| else 0)
  {
    var whole := [c] + text;
    if text == [] {
      assert whole[..0] == [];
    } else {
      assert whole[..|whole| - 1] == [c] + text[..|text| - 1];
      RowsShift(c, text[..|text| - 1]);
    }
  }
}
