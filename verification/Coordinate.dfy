/**
 The conversions between byte offsets, display cells, UTF-16 columns and grapheme indices, and
 the cursor motions built on them. Each conversion is a scanning loop of its own; all are
 proved to agree on one notion, the caret of module Document.
 */
module Coordinate {
  import opened Sums
  import opened Document
  import Encoding = Utf8

  method SnapToGraphemeStart(doc: Doc, byte: nat) returns (r: nat)
    ensures r == Snap(doc, byte)
  {
    hide Sums.Sum, LineStart, CaretAt;
    var b := CharBoundaryBelow(doc, byte);
    var line := LineOf(doc, b);
    var lineStart := LineStart(doc, line);
    SnapByLine(doc, b);
    if b <= lineStart {
      return lineStart;
    }
    var offset := SnapOffset(doc[line], b - lineStart);
    return lineStart + offset;
  }

  lemma SnapByLine(doc: Doc, b: nat)
    requires b <= Len(doc)
    ensures var l := LineOf(doc, b);
            var sizes := Sizes(Utf8, doc[l].graphemes);
            && LineStart(doc, l) <= b
            && Snap(doc, b) == LineStart(doc, l) + Sum(sizes, Floor(sizes, |sizes|, b - LineStart(doc, l)))
            && (b == LineStart(doc, l) ==> Snap(doc, b) == b)
  {
    var l := LineOf(doc, b);
    LineOfStarts(doc, b);
    SizesPositive(Utf8, doc[l]);
    FloorOfSum(Sizes(Utf8, doc[l].graphemes), 0);
  }

  /** Snapping within the visible text of one line. */
  method SnapOffset(line: Line, offset: nat) returns (snapped: nat)
    ensures snapped == Offset(Utf8, line.graphemes, Floor(Sizes(Utf8, line.graphemes), |line.graphemes|, offset))
  {
    var textLen := TextLen(line);
    var rel := Min(offset, textLen);
    if rel >= textLen {
      snapped := textLen;
    } else {
      snapped := ClusterStart(line.graphemes, rel);
    }
  }

  /** Step down to a character boundary; no caret is passed on the way. */
  method CharBoundaryBelow(doc: Doc, byte: nat) returns (b: nat)
    ensures b <= Len(doc) && Snap(doc, b) == Snap(doc, byte) && (b == 0 || IsCharBoundary(doc, b))
  {
    b := Min(byte, Len(doc));
    SnapBelow(doc, byte);
    while b > 0 && !IsCharBoundary(doc, b)
      invariant Snap(doc, byte) <= b <= Min(byte, Len(doc))
    {
      CaretIsBoundary(doc, CaretAt(doc, byte));
      b := b - 1;
    }
    SnapSandwich(doc, b, byte);
  }

  /** The scan over `grapheme_indices` for the cluster that holds offset `rel`. */
  method ClusterStart(gs: seq<Grapheme>, rel: nat) returns (candidate: nat)
    requires rel < Offset(Utf8, gs, |gs|)
    ensures candidate == Offset(Utf8, gs, Floor(Sizes(Utf8, gs), |gs|, rel))
  {
    var gStart, i := 0, 0;
    candidate := 0;
    while i < |gs| && gStart <= rel
      invariant 0 <= i <= |gs| && gStart == Offset(Utf8, gs, i)
      invariant if i == 0 then candidate == 0 else candidate == Offset(Utf8, gs, i - 1) <= rel
    {
      candidate := gStart;
      gStart := gStart + Size(Utf8, gs[i].chars);
      i := i + 1;
    }
    FloorUnique(Sizes(Utf8, gs), rel, i - 1);
  }

  lemma SnapSandwich(doc: Doc, b: nat, byte: nat)
    requires Snap(doc, byte) <= b <= byte
    ensures Snap(doc, b) == Snap(doc, byte)
  {
    SnapMonotone(doc, b, byte);
    SnapIsGreatestCaret(doc, b, CaretAt(doc, byte));
  }

  // ---------- display cells ----------

  /** The first index with the same column as `i`: step back over zero-width graphemes. */
  function FirstAtColumn(gs: seq<Grapheme>, i: nat): (first: nat)
    requires i <= |gs|
    ensures first <= i && Column(gs, first) == Column(gs, i)
    ensures first == 0 || gs[first - 1].width > 0
  {
    if i > 0 && gs[i - 1].width == 0 then FirstAtColumn(gs, i - 1) else i
  }

  /** Where a cell column lands: the first grapheme at exactly that column, else the one that covers it. */
  function CellIndex(gs: seq<Grapheme>, column: nat): (i: nat)
    ensures i <= |gs|
  {
    var f := Floor(Widths(gs), |gs|, column);
    if Column(gs, f) == column then FirstAtColumn(gs, f) else f
  }

  ghost function CellCaret(doc: Doc, line: nat, column: nat): (c: Caret)
    ensures ValidCaret(doc, c)
  {
    var l := Min(line, |doc| - 1);
    Caret(l, CellIndex(doc[l].graphemes, column))
  }

  method CellToByte(doc: Doc, line: nat, column: nat) returns (r: nat)
    ensures r == ByteOf(doc, CellCaret(doc, line, column))
  {
    var l := Min(line, |doc| - 1);
    var lineStart, gs := LineStart(doc, l), doc[l].graphemes;
    var col, gStart := 0, 0;
    for i := 0 to |gs|
      invariant col == Column(gs, i) <= column && gStart == Offset(Utf8, gs, i)
      invariant forall j | 0 <= j < i :: Column(gs, j) != column
    {
      var gWidth := gs[i].width;
      if col + gWidth > column || col == column {
        CellIndexFound(gs, column, i);
        return lineStart + gStart;
      }
      col := col + gWidth;
      gStart := gStart + Size(Utf8, gs[i].chars);
    }
    CellIndexFound(gs, column, |gs|);
    return lineStart + gStart;
  }

  lemma CellIndexFound(gs: seq<Grapheme>, column: nat, i: nat)
    requires i <= |gs| && Column(gs, i) <= column
    requires forall j | 0 <= j < i :: Column(gs, j) != column
    requires i < |gs| ==> Column(gs, i) == column || Column(gs, i + 1) > column
    ensures CellIndex(gs, column) == i
  {
    var widths := Widths(gs);
    if Column(gs, i) == column {
      var f := Floor(widths, |gs|, column);
      SumMonotone(widths, i, f);
      var first := FirstAtColumn(gs, f);
      if i < first {
        SumMonotone(widths, i, first - 1);
      }
    } else {
      FloorUnique(widths, column, i);
    }
  }

  method ByteToCell(doc: Doc, byte: nat) returns (line: nat, column: nat)
    ensures var c := CaretAt(doc, byte);
            line == c.line && column == Column(doc[c.line].graphemes, c.index)
  {
    ghost var c := CaretAt(doc, byte);
    var b := SnapToGraphemeStart(doc, byte);
    CaretRoundTrip(doc, c);
    line := LineOf(doc, b);
    var rel := Min(b - LineStart(doc, line), TextLen(doc[line]));
    SizesPositive(Utf8, doc[line]);
    SumMonotone(Sizes(Utf8, doc[line].graphemes), c.index, |doc[line].graphemes|);
    column := ColumnBefore(doc[line].graphemes, rel, c.index);
  }

  /** Add up the widths of the graphemes that start before offset `rel`. */
  method ColumnBefore(gs: seq<Grapheme>, rel: nat, ghost index: nat) returns (column: nat)
    requires Positive(Sizes(Utf8, gs)) && index <= |gs| && rel == Offset(Utf8, gs, index)
    ensures column == Column(gs, index)
  {
    var gStart, i := 0, 0;
    column := 0;
    while i < |gs| && gStart < rel
      invariant 0 <= i <= index && gStart == Offset(Utf8, gs, i) && column == Column(gs, i)
    {
      column := column + gs[i].width;
      gStart := gStart + Size(Utf8, gs[i].chars);
      i := i + 1;
    }
    SumMonotone(Sizes(Utf8, gs), i, index);
  }

  /**
   The column found is the greatest caret column of the clamped line not above the one asked for. Of
   places at the very column asked for it is the first, of others the last.
   */
  lemma CellLandsLeft(doc: Doc, line: nat, column: nat, index: nat)
    requires index <= |doc[Min(line, |doc| - 1)].graphemes|
    ensures var gs, c := doc[Min(line, |doc| - 1)].graphemes, CellCaret(doc, line, column);
            && Column(gs, c.index) <= column
            && (Column(gs, index) <= column ==> Column(gs, index) <= Column(gs, c.index))
            && c.line == (if line < |doc| then line else |doc| - 1)
            && (Column(gs, index) == column ==> c.index <= index)
            && (Column(gs, index) <= column && Column(gs, c.index) < column ==> index <= c.index)
  {
    var gs := doc[Min(line, |doc| - 1)].graphemes;
    var f := Floor(Widths(gs), |gs|, column);
    if index <= f {
      SumMonotone(Widths(gs), index, f);
      var first := FirstAtColumn(gs, f);
      if index < first {
        SumMonotone(Widths(gs), index, first - 1);
      }
    } else {
      SumMonotone(Widths(gs), f + 1, index);
    }
  }

  lemma CellIndexRoundTrip(gs: seq<Grapheme>, i: nat)
    requires i <= |gs|
    ensures CellIndex(gs, Column(gs, i)) == i <==> i == 0 || gs[i - 1].width > 0
  {
    var column := Column(gs, i);
    var f := Floor(Widths(gs), |gs|, column);
    SumMonotone(Widths(gs), i, f);
    var first := FirstAtColumn(gs, f);
    if i < first {
      SumMonotone(Widths(gs), i, first - 1);
    } else if first < i {
      SumMonotone(Widths(gs), first, i - 1);
    }
  }

  /**
   Going to cells and back snaps, except behind zero-width graphemes: those share their column
   with the grapheme before them, and the way back takes the first place at that column.
   */
  lemma CellRoundTrip(doc: Doc, byte: nat)
    ensures var c := CaretAt(doc, byte);
            var gs := doc[c.line].graphemes;
            ByteOf(doc, CellCaret(doc, c.line, Column(gs, c.index))) == Snap(doc, byte)
            <==> c.index == 0 || gs[c.index - 1].width > 0
  {
    var c := CaretAt(doc, byte);
    var back := CellCaret(doc, c.line, Column(doc[c.line].graphemes, c.index));
    CellIndexRoundTrip(doc[c.line].graphemes, c.index);
    BytesTellCarets(doc, c, back);
  }

  lemma BytesTellCarets(doc: Doc, a: Caret, b: Caret)
    requires ValidCaret(doc, a) && ValidCaret(doc, b)
    ensures ByteOf(doc, a) == ByteOf(doc, b) <==> a == b
  {
    CaretRoundTrip(doc, a);
    CaretRoundTrip(doc, b);
  }

  // ---------- UTF-16 columns ----------

  method ByteToUtf16Position(doc: Doc, byte: nat) returns (line: nat, utf16: nat)
    ensures var c := CaretAt(doc, byte);
            line == c.line && utf16 == Offset(Utf16, doc[c.line].graphemes, c.index)
  {
    ghost var c := CaretAt(doc, byte);
    var b := SnapToGraphemeStart(doc, byte);
    CaretRoundTrip(doc, c);
    line := LineOf(doc, b);
    utf16 := Utf16Count(doc[line].graphemes, b - LineStart(doc, line), c.index);
  }

  /** Count the code units of the characters in the first `bytes` bytes. */
  method Utf16Count(gs: seq<Grapheme>, bytes: nat, ghost index: nat) returns (utf16: nat)
    requires index <= |gs| && bytes == Offset(Utf8, gs, index)
    ensures utf16 == Offset(Utf16, gs, index)
  {
    var chars := CharsOf(gs);
    GraphemeBoundary(Utf8, gs, index);
    FloorOfSum(CharSizes(Utf8, chars), CharIndex(gs, index));
    var prefix := chars[..Floor(CharSizes(Utf8, chars), |chars|, bytes)];
    utf16 := 0;
    for i := 0 to |prefix|
      invariant utf16 == Sum(CharSizes(Utf16, chars), i)
    {
      utf16 := utf16 + CharSize(Utf16, prefix[i]);
    }
    GraphemeBoundary(Utf16, gs, index);
  }

  /** The sizes are those of the encodings: bytes as encoded, and a surrogate pair from U+10000 on. */
  lemma SizesOfEncodings(c: Encoding.Scalar)
    ensures 1 <= |Encoding.Encode(c)| <= 4
    ensures CharSize(Utf8, |Encoding.Encode(c)|) == |Encoding.Encode(c)|
    ensures CharSize(Utf16, |Encoding.Encode(c)|) == if c >= 0x1_0000 then 2 else 1
  {
  }

  /** The caret with the greatest UTF-16 offset not above `column` on the clamped line. */
  ghost function Utf16Caret(doc: Doc, line: nat, column: nat): (c: Caret)
    ensures ValidCaret(doc, c)
  {
    var l := Min(line, |doc| - 1);
    var gs := doc[l].graphemes;
    Caret(l, Floor(Sizes(Utf16, gs), |gs|, column))
  }

  /** It is the last place of the clamped line whose UTF-16 offset is not above the column. */
  lemma Utf16LandsLeft(doc: Doc, line: nat, column: nat, index: nat)
    requires index <= |doc[Min(line, |doc| - 1)].graphemes|
    ensures var gs, c := doc[Min(line, |doc| - 1)].graphemes, Utf16Caret(doc, line, column);
            && c.line == (if line < |doc| then line else |doc| - 1)
            && (Offset(Utf16, gs, index) <= column <==> index <= c.index)
  {
    var gs, c := doc[Min(line, |doc| - 1)].graphemes, Utf16Caret(doc, line, column);
    if index <= c.index {
      SumMonotone(Sizes(Utf16, gs), index, c.index);
    } else {
      SumMonotone(Sizes(Utf16, gs), c.index + 1, index);
    }
  }

  method Utf16PositionToByte(doc: Doc, line: nat, utf16Col: nat) returns (r: nat)
    ensures r == ByteOf(doc, Utf16Caret(doc, line, utf16Col))
  {
    var l := Min(line, |doc| - 1);
    var gs := doc[l].graphemes;
    var byteOff := Utf16Scan(gs, utf16Col);
    SnapInLine(doc, l, byteOff, Floor(Sizes(Utf8, gs), |gs|, byteOff));
    r := SnapToGraphemeStart(doc, LineStart(doc, l) + byteOff);
  }

  /** Walk the characters of a line as far as the UTF-16 column allows. */
  method Utf16Scan(gs: seq<Grapheme>, utf16Col: nat) returns (byteOff: nat)
    requires forall i | 0 <= i < |gs| :: gs[i].chars != []
    ensures byteOff <= Size(Utf8, CharsOf(gs))
    ensures Floor(Sizes(Utf8, gs), |gs|, byteOff) == Floor(Sizes(Utf16, gs), |gs|, utf16Col)
  {
    hide CharsOf, Floor;
    var chars := CharsOf(gs);
    ghost var u8, u16 := CharSizes(Utf8, chars), CharSizes(Utf16, chars);
    var curUtf16, i := 0, 0;
    byteOff := 0;
    while i < |chars| && curUtf16 + CharSize(Utf16, chars[i]) <= utf16Col
      invariant 0 <= i <= |chars| && curUtf16 == Sum(u16, i) <= utf16Col && byteOff == Sum(u8, i)
    {
      curUtf16 := curUtf16 + CharSize(Utf16, chars[i]);
      byteOff := byteOff + CharSize(Utf8, chars[i]);
      i := i + 1;
      if curUtf16 == utf16Col {
        break;
      }
    }
    FloorUnique(u16, utf16Col, i);
    CharFloorIsGraphemeFloor(gs, utf16Col, i);
    SumMonotone(u8, i, |chars|);
  }

  /** Stopping at a character and then snapping stops at the right grapheme. */
  lemma CharFloorIsGraphemeFloor(gs: seq<Grapheme>, column: nat, k: nat)
    requires forall i | 0 <= i < |gs| :: gs[i].chars != []
    requires k == Floor(CharSizes(Utf16, CharsOf(gs)), |CharsOf(gs)|, column)
    ensures Floor(Sizes(Utf8, gs), |gs|, Sum(CharSizes(Utf8, CharsOf(gs)), k))
         == Floor(Sizes(Utf16, gs), |gs|, column)
  {
    hide Size;
    var u8, u16 := CharSizes(Utf8, CharsOf(gs)), CharSizes(Utf16, CharsOf(gs));
    var i := Floor(Sizes(Utf16, gs), |gs|, column);
    assert CharIndex(gs, i) <= k && Offset(Utf8, gs, i) <= Sum(u8, k) by {
      GraphemeBoundary(Utf16, gs, i);
      if k < CharIndex(gs, i) {
        SumMonotone(u16, k + 1, CharIndex(gs, i));
      }
      GraphemeBoundary(Utf8, gs, i);
      SumMonotone(u8, CharIndex(gs, i), k);
    }
    if i < |gs| {
      assert Sum(u8, k) < Offset(Utf8, gs, i + 1) by {
        GraphemeBoundary(Utf16, gs, i + 1);
        if CharIndex(gs, i + 1) <= k {
          SumMonotone(u16, CharIndex(gs, i + 1), k);
        }
        GraphemeBoundary(Utf8, gs, i + 1);
        SumMonotone(u8, k, CharIndex(gs, i + 1));
      }
    }
    FloorUnique(Sizes(Utf8, gs), Sum(u8, k), i);
  }

  /** Within the text of a line, snapping is a matter of that line alone. */
  lemma SnapInLine(doc: Doc, l: nat, offset: nat, i: nat)
    requires l < |doc| && offset <= Size(Utf8, CharsOf(doc[l].graphemes))
    requires i == Floor(Sizes(Utf8, doc[l].graphemes), |doc[l].graphemes|, offset)
    ensures CaretAt(doc, LineStart(doc, l) + offset) == Caret(l, i)
  {
    hide CharsOf, CharIndex, Sizes, LineOf;
    var gs := doc[l].graphemes;
    GraphemeBoundary(Utf8, gs, |gs|);
    CharIndexEnd(gs);
    SumMonotone(LineSizes(doc), l + 1, |doc|);
    assert LineStart(doc, l + 1) == LineStart(doc, l) + TextLen(doc[l]) + doc[l].terminator;
    LineOfUnique(doc, LineStart(doc, l) + offset, l);
  }

  /** An editor position sent to a language server and back is the snapped byte, for every byte. */
  lemma Utf16RoundTrip(doc: Doc, byte: nat)
    ensures var c := CaretAt(doc, byte);
            ByteOf(doc, Utf16Caret(doc, c.line, Offset(Utf16, doc[c.line].graphemes, c.index))) == Snap(doc, byte)
  {
    var c := CaretAt(doc, byte);
    SizesPositive(Utf16, doc[c.line]);
    FloorOfSum(Sizes(Utf16, doc[c.line].graphemes), c.index);
  }

  /** The other way round a server position survives exactly when it names a caret of the document. */
  lemma Utf16PositionSurvives(doc: Doc, line: nat, column: nat)
    ensures var c := CaretAt(doc, ByteOf(doc, Utf16Caret(doc, line, column)));
            c.line == line && Offset(Utf16, doc[c.line].graphemes, c.index) == column
            <==> exists c' :: ValidCaret(doc, c') && c'.line == line
                   && Offset(Utf16, doc[line].graphemes, c'.index) == column
  {
    var u := Utf16Caret(doc, line, column);
    CaretRoundTrip(doc, u);
    forall c' | ValidCaret(doc, c') && c'.line == line && Offset(Utf16, doc[line].graphemes, c'.index) == column
      ensures u.index == c'.index
    {
      SizesPositive(Utf16, doc[line]);
      FloorOfSum(Sizes(Utf16, doc[line].graphemes), c'.index);
    }
  }

  // ---------- grapheme indices ----------

  function Counts(doc: Doc): (counts: seq<nat>)
    ensures |counts| == |doc|
  {
    seq(|doc|, l requires 0 <= l < |doc| => |doc[l].graphemes|)
  }

  function Total(doc: Doc): nat { Sum(Counts(doc), |doc|) }

  ghost function Index(doc: Doc, c: Caret): nat
    requires ValidCaret(doc, c)
  {
    Sum(Counts(doc), c.line) + c.index
  }

  ghost function GraphemeAt(doc: Doc, byte: nat): nat
  {
    Index(doc, CaretAt(doc, byte))
  }

  ghost function EndCaret(doc: Doc): Caret
  {
    Caret(|doc| - 1, |doc[|doc| - 1].graphemes|)
  }

  /** The start of grapheme `g`, or the end of the document past the last one. */
  ghost function GraphemeCaret(doc: Doc, g: nat): (c: Caret)
    ensures ValidCaret(doc, c)
  {
    if g >= Total(doc) then EndCaret(doc)
    else
      var l := Floor(Counts(doc), |doc|, g);
      assert Sum(Counts(doc), l + 1) > g;
      Caret(l, g - Sum(Counts(doc), l))
  }

  method ByteToGrapheme(doc: Doc, byte: nat) returns (count: nat)
    ensures count == GraphemeAt(doc, byte)
  {
    ghost var c := CaretAt(doc, byte);
    var b := SnapToGraphemeStart(doc, byte);
    CaretRoundTrip(doc, c);
    var targetLine := LineOf(doc, b);
    count := 0;
    for l := 0 to targetLine
      invariant count == Sum(Counts(doc), l)
    {
      count := count + |doc[l].graphemes|;
    }
    var gs := doc[targetLine].graphemes;
    count := count + Floor(Sizes(Utf8, gs), |gs|, b - LineStart(doc, targetLine));
  }

  method GraphemeToByte(doc: Doc, grapheme: nat) returns (r: nat)
    ensures r == ByteOf(doc, GraphemeCaret(doc, grapheme))
  {
    var remaining := grapheme;
    for l := 0 to |doc|
      invariant Sum(Counts(doc), l) <= grapheme && remaining == grapheme - Sum(Counts(doc), l)
    {
      var gs := doc[l].graphemes;
      if remaining < |gs| {
        SumMonotone(Counts(doc), l + 1, |doc|);
        FloorUnique(Counts(doc), grapheme, l);
        return LineStart(doc, l) + Offset(Utf8, gs, remaining);
      }
      remaining := remaining - |gs|;
    }
    return Len(doc);
  }

  lemma IndexBounds(doc: Doc, c: Caret)
    requires ValidCaret(doc, c)
    ensures Index(doc, c) <= Total(doc) && Index(doc, EndCaret(doc)) == Total(doc)
    ensures c.index < |doc[c.line].graphemes| ==> Index(doc, c) < Total(doc)
  {
    SumMonotone(Counts(doc), c.line + 1, |doc|);
  }

  /** The start of the grapheme with a given index has that index. */
  lemma IndexOfGrapheme(doc: Doc, g: nat)
    ensures Index(doc, GraphemeCaret(doc, g)) == Min(g, Total(doc))
    ensures g < Total(doc) <==> IsStart(doc, GraphemeCaret(doc, g))
  {
    if g < Total(doc) {
      var l := Floor(Counts(doc), |doc|, g);
      assert Sum(Counts(doc), l + 1) > g;
    }
  }

  /** A caret before a grapheme. Line ends are carets too, but not starts. */
  ghost predicate IsStart(doc: Doc, c: Caret)
    requires ValidCaret(doc, c)
  {
    c.index < |doc[c.line].graphemes|
  }

  lemma GraphemeAtIndex(doc: Doc, c: Caret)
    requires ValidCaret(doc, c)
    ensures IsStart(doc, c) || c == EndCaret(doc) <==> GraphemeCaret(doc, Index(doc, c)) == c
  {
    IndexBounds(doc, c);
    if IsStart(doc, c) {
      FloorUnique(Counts(doc), Index(doc, c), c.line);
    }
    IndexOfGrapheme(doc, Index(doc, c));
  }

  /** From an index to a byte and back. */
  lemma GraphemeRoundTrip(doc: Doc, g: nat)
    requires g <= Total(doc)
    ensures GraphemeAt(doc, ByteOf(doc, GraphemeCaret(doc, g))) == g
  {
    CaretRoundTrip(doc, GraphemeCaret(doc, g));
    IndexOfGrapheme(doc, g);
  }

  // ---------- cursor motion ----------

  ghost function LeftOf(doc: Doc, c: Caret): (l: Caret)
    requires ValidCaret(doc, c)
    ensures ValidCaret(doc, l)
  {
    if Index(doc, c) == 0 then Caret(0, 0) else GraphemeCaret(doc, Index(doc, c) - 1)
  }

  ghost function RightOf(doc: Doc, c: Caret): (r: Caret)
    requires ValidCaret(doc, c)
    ensures ValidCaret(doc, r)
  {
    if Index(doc, c) >= Total(doc) then EndCaret(doc) else GraphemeCaret(doc, Index(doc, c) + 1)
  }

  ghost function Left(doc: Doc, byte: nat): nat
  {
    ByteOf(doc, LeftOf(doc, CaretAt(doc, byte)))
  }

  ghost function Right(doc: Doc, byte: nat): nat
  {
    ByteOf(doc, RightOf(doc, CaretAt(doc, byte)))
  }

  method MoveLeft(doc: Doc, byte: nat) returns (r: nat)
    ensures r == Left(doc, byte)
  {
    hide Sums.Sum, Offset, CaretAt, GraphemeCaret;
    var g := ByteToGrapheme(doc, byte);
    if g == 0 {
      r := 0;
      StartOfDocument(doc);
    } else {
      r := GraphemeToByte(doc, g - 1);
    }
  }

  method MoveRight(doc: Doc, byte: nat) returns (r: nat)
    ensures r == Right(doc, byte)
  {
    hide Sums.Sum, LineStart, ByteOf, Offset, CaretAt, GraphemeCaret;
    var g := ByteToGrapheme(doc, byte);
    var maxG := ByteToGrapheme(doc, Len(doc));
    assert maxG == Total(doc) && ByteOf(doc, EndCaret(doc)) == Len(doc) by {
      EndOfDocument(doc);
    }
    if g >= maxG {
      r := Len(doc);
    } else {
      r := GraphemeToByte(doc, g + 1);
    }
  }

  lemma StartOfDocument(doc: Doc)
    ensures ByteOf(doc, Caret(0, 0)) == 0
  {
  }

  lemma EndOfDocument(doc: Doc)
    ensures ByteOf(doc, EndCaret(doc)) == Len(doc) && CaretAt(doc, Len(doc)) == EndCaret(doc)
    ensures GraphemeAt(doc, Len(doc)) == Total(doc)
  {
    CaretRoundTrip(doc, EndCaret(doc));
    IndexBounds(doc, EndCaret(doc));
  }

  /** Each motion lands on a caret and changes the grapheme index by one, or stays at the end it has reached. */
  lemma MotionsStepByOne(doc: Doc, byte: nat)
    ensures Snap(doc, Right(doc, byte)) == Right(doc, byte) && Snap(doc, Left(doc, byte)) == Left(doc, byte)
    ensures GraphemeAt(doc, Right(doc, byte)) == Min(GraphemeAt(doc, byte) + 1, Total(doc))
    ensures GraphemeAt(doc, Left(doc, byte)) == if GraphemeAt(doc, byte) == 0 then 0 else GraphemeAt(doc, byte) - 1
  {
    var c := CaretAt(doc, byte);
    IndexBounds(doc, c);
    CaretRoundTrip(doc, RightOf(doc, c));
    CaretRoundTrip(doc, LeftOf(doc, c));
    IndexOfGrapheme(doc, Index(doc, c) + 1);
    if Index(doc, c) > 0 {
      IndexOfGrapheme(doc, Index(doc, c) - 1);
    }
  }

  ghost predicate IsGraphemeStart(doc: Doc, byte: nat)
  {
    Snap(doc, byte) == byte && IsStart(doc, CaretAt(doc, byte))
  }

  lemma ReturnTrips(doc: Doc, c: Caret)
    requires ValidCaret(doc, c)
    ensures LeftOf(doc, RightOf(doc, c)) == c <==> IsStart(doc, c) || (Total(doc) == 0 && c == Caret(0, 0))
    ensures RightOf(doc, LeftOf(doc, c)) == c <==> (IsStart(doc, c) && Index(doc, c) > 0) || c == EndCaret(doc)
  {
    hide Sums.Sum;
    var g := Index(doc, c);
    IndexBounds(doc, c);
    GraphemeAtIndex(doc, c);
    IndexOfGrapheme(doc, g);
    IndexOfGrapheme(doc, g + 1);
    if Total(doc) > 0 {
      IndexOfGrapheme(doc, Total(doc) - 1);
    }
    if g > 0 {
      IndexOfGrapheme(doc, g - 1);
    }
  }

  /** Right then left is a return trip exactly from the start of a grapheme, or when there is none at all. */
  lemma RightThenLeft(doc: Doc, byte: nat)
    ensures Left(doc, Right(doc, byte)) == byte <==> IsGraphemeStart(doc, byte) || (Total(doc) == 0 && byte == 0)
  {
    var c := CaretAt(doc, byte);
    var back := LeftOf(doc, RightOf(doc, c));
    CaretRoundTrip(doc, RightOf(doc, c));
    CaretRoundTrip(doc, Caret(0, 0));
    BytesTellCarets(doc, c, back);
    CaretRoundTrip(doc, back);
    ReturnTrips(doc, c);
  }

  /** Left then right is one exactly from a grapheme that is not the first, or from the document's end. */
  lemma LeftThenRight(doc: Doc, byte: nat)
    ensures Right(doc, Left(doc, byte)) == byte
       <==> (IsGraphemeStart(doc, byte) && GraphemeAt(doc, byte) > 0) || byte == Len(doc)
  {
    var c := CaretAt(doc, byte);
    var back := RightOf(doc, LeftOf(doc, c));
    CaretRoundTrip(doc, LeftOf(doc, c));
    BytesTellCarets(doc, c, back);
    CaretRoundTrip(doc, back);
    EndOfDocument(doc);
    ReturnTrips(doc, c);
  }

  ghost function TargetLine(doc: Doc, byte: nat, delta: int): (l: nat)
    ensures l < |doc|
  {
    var t := CaretAt(doc, byte).line + delta;
    if t < 0 then 0 else Min(t, |doc| - 1)
  }

  ghost function Vertical(doc: Doc, byte: nat, delta: int): nat
  {
    if delta == 0 then Snap(doc, byte)
    else
      var c := CaretAt(doc, byte);
      ByteOf(doc, CellCaret(doc, TargetLine(doc, byte, delta), Column(doc[c.line].graphemes, c.index)))
  }

  method MoveVertical(doc: Doc, byte: nat, delta: int) returns (r: nat)
    ensures r == Vertical(doc, byte, delta)
  {
    if delta == 0 {
      r := SnapToGraphemeStart(doc, byte);
      return;
    }
    var line, column := ByteToCell(doc, byte);
    var target: int := line + delta;
    target := if target < 0 then 0 else Min(target, |doc| - 1);
    var nb := CellToByte(doc, target, column);
    CaretRoundTrip(doc, CellCaret(doc, target, column));
    r := SnapToGraphemeStart(doc, nb);
  }

  /**
   A vertical motion goes as many lines down as asked for, or up if negative, stops at the first and
   the last line, and lands on a caret never further right than it started.
   */
  lemma VerticalMotion(doc: Doc, byte: nat, delta: int)
    ensures var from, to := CaretAt(doc, byte), CaretAt(doc, Vertical(doc, byte, delta));
            && Snap(doc, Vertical(doc, byte, delta)) == Vertical(doc, byte, delta)
            && to.line == (if from.line + delta < 0 then 0
                           else if from.line + delta >= |doc| then |doc| - 1 else from.line + delta)
            && (delta == 0 ==> to == from)
            && (delta >= 0 ==> to.line >= from.line) && (delta <= 0 ==> to.line <= from.line)
            && Column(doc[to.line].graphemes, to.index) <= Column(doc[from.line].graphemes, from.index)
            && forall i | 0 <= i <= |doc[to.line].graphemes| && Column(doc[to.line].graphemes, i)
                          <= Column(doc[from.line].graphemes, from.index) && delta != 0 ::
                 Column(doc[to.line].graphemes, i) <= Column(doc[to.line].graphemes, to.index)
  {
    var from := CaretAt(doc, byte);
    LineOfStarts(doc, byte);
    if delta == 0 {
      CaretRoundTrip(doc, from);
    } else {
      var column := Column(doc[from.line].graphemes, from.index);
      var c := CellCaret(doc, TargetLine(doc, byte, delta), column);
      CaretRoundTrip(doc, c);
      CellLandsLeft(doc, c.line, column, 0);
      forall i | 0 <= i <= |doc[c.line].graphemes| && Column(doc[c.line].graphemes, i) <= column
        ensures Column(doc[c.line].graphemes, i) <= Column(doc[c.line].graphemes, c.index)
      {
        CellLandsLeft(doc, c.line, column, i);
      }
    }
  }

  /** Down and up again, or up and down, returns to the line as long as neither end of the document was reached. */
  lemma VerticalReturn(doc: Doc, byte: nat, delta: int)
    requires 0 <= CaretAt(doc, byte).line + delta < |doc|
    ensures CaretAt(doc, Vertical(doc, Vertical(doc, byte, delta), -delta)).line == CaretAt(doc, byte).line
  {
    VerticalMotion(doc, byte, delta);
    VerticalMotion(doc, Vertical(doc, byte, delta), -delta);
  }
}
