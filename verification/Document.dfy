/**
 A document as text-position code sees it: lines of grapheme clusters, each cluster a run of
 characters with a display width, each line but the last ended by CR, LF or CRLF.
 */
module Document {
  import opened Sums

  /** A character, given by the number of bytes of its UTF-8 form. */
  type Char = n: int | 1 <= n <= 4 witness 1

  /** The two encodings whose code units columns are counted in. */
  datatype Unit = Utf8 | Utf16

  /** Exactly the four-byte characters lie above U+FFFF and need a surrogate pair. */
  function CharSize(unit: Unit, c: Char): nat {
    match unit
    case Utf8 => c
    case Utf16 => if c == 4 then 2 else 1
  }

  datatype Grapheme = Grapheme(chars: seq<Char>, width: nat)
  datatype Line = Line(graphemes: seq<Grapheme>, terminator: nat)
  predicate ValidLine(line: Line) {
    line.terminator <= 2 && forall i | 0 <= i < |line.graphemes| :: line.graphemes[i].chars != []
  }

  /** A rope always has a last line, and only that one has no terminator. */
  type Doc = d: seq<Line> |
    d != [] && forall l | 0 <= l < |d| :: ValidLine(d[l]) && (d[l].terminator == 0 <==> l == |d| - 1)
    witness [Line([], 0)]

  function CharSizes(unit: Unit, chars: seq<Char>): seq<nat> {
    seq(|chars|, i requires 0 <= i < |chars| => CharSize(unit, chars[i]))
  }

  /** Length of a run of characters in code units. */
  function Size(unit: Unit, chars: seq<Char>): nat {
    Sum(CharSizes(unit, chars), |chars|)
  }

  function Sizes(unit: Unit, gs: seq<Grapheme>): (sizes: seq<nat>)
    ensures |sizes| == |gs|
  {
    seq(|gs|, i requires 0 <= i < |gs| => Size(unit, gs[i].chars))
  }

  function Widths(gs: seq<Grapheme>): (widths: seq<nat>)
    ensures |widths| == |gs|
  {
    seq(|gs|, i requires 0 <= i < |gs| => gs[i].width)
  }

  /** Code units before grapheme `i` of a line. */
  function Offset(unit: Unit, gs: seq<Grapheme>, i: nat): nat
    requires i <= |gs|
  {
    Sum(Sizes(unit, gs), i)
  }

  function Column(gs: seq<Grapheme>, i: nat): nat
    requires i <= |gs|
  {
    Sum(Widths(gs), i)
  }

  function TextLen(line: Line): nat { Offset(Utf8, line.graphemes, |line.graphemes|) }

  function LineSizes(doc: seq<Line>): (sizes: seq<nat>)
    ensures |sizes| == |doc|
  {
    seq(|doc|, l requires 0 <= l < |doc| => TextLen(doc[l]) + doc[l].terminator)
  }

  /** `line_to_byte` */
  function LineStart(doc: seq<Line>, l: nat): nat
    requires l <= |doc|
  {
    Sum(LineSizes(doc), l)
  }

  function Len(doc: seq<Line>): nat { LineStart(doc, |doc|) }

  /** `line_for_byte`: the line holding a byte, the last line for bytes at or past the end. */
  function LineOf(doc: seq<Line>, byte: nat): (l: nat)
    requires doc != []
    ensures l < |doc|
  {
    if byte >= Len(doc) then |doc| - 1
    else
      SumMonotone(LineSizes(doc), 0, |doc|);
      Floor(LineSizes(doc), |doc|, byte)
  }

  // ---------- carets ----------

  /** A place the cursor may rest: before a grapheme, or behind the last one of its line. */
  datatype Caret = Caret(line: nat, index: nat)

  ghost predicate ValidCaret(doc: seq<Line>, c: Caret) {
    c.line < |doc| && c.index <= |doc[c.line].graphemes|
  }

  function ByteOf(doc: seq<Line>, c: Caret): nat
    requires c.line < |doc| && c.index <= |doc[c.line].graphemes|
  {
    LineStart(doc, c.line) + Offset(Utf8, doc[c.line].graphemes, c.index)
  }

  /** The caret a byte offset snaps to. */
  function CaretAt(doc: seq<Line>, byte: nat): (c: Caret)
    requires doc != []
    ensures ValidCaret(doc, c)
  {
    var b := Min(byte, Len(doc));
    var l := LineOf(doc, b);
    var gs := doc[l].graphemes;
    Caret(l, if b < LineStart(doc, l) then 0 else Floor(Sizes(Utf8, gs), |gs|, b - LineStart(doc, l)))
  }

  lemma SizePositive(unit: Unit, chars: seq<Char>)
    requires chars != []
    ensures Size(unit, chars) > 0
  {
  }

  lemma SizesPositive(unit: Unit, line: Line)
    requires ValidLine(line)
    ensures Positive(Sizes(unit, line.graphemes))
  {
    forall i | 0 <= i < |line.graphemes| ensures Sizes(unit, line.graphemes)[i] > 0 {
      SizePositive(unit, line.graphemes[i].chars);
    }
  }

  lemma LineOfStarts(doc: Doc, byte: nat)
    ensures var l := LineOf(doc, Min(byte, Len(doc)));
            && LineStart(doc, l) <= Min(byte, Len(doc))
            && (l + 1 < |doc| ==> Min(byte, Len(doc)) < LineStart(doc, l + 1))
  {
    SumMonotone(LineSizes(doc), |doc| - 1, |doc|);
  }

  lemma LineOfUnique(doc: Doc, byte: nat, l: nat)
    requires l < |doc| && LineStart(doc, l) <= byte <= Len(doc)
    requires l + 1 < |doc| ==> byte < LineStart(doc, l + 1)
    ensures LineOf(doc, byte) == l
  {
    hide TextLen;
    var sizes, m := LineSizes(doc), LineOf(doc, byte);
    LineOfStarts(doc, byte);
    if l < m {
      SumMonotone(sizes, l + 1, m);
    }
  }

  lemma LinesMonotone(doc: Doc, a: nat, b: nat)
    requires a <= b <= Len(doc)
    ensures LineOf(doc, a) <= LineOf(doc, b)
  {
    FloorMonotone(LineSizes(doc), a, b);
  }

  /** Caret and byte determine each other: `CaretAt` inverts `ByteOf`. */
  lemma CaretRoundTrip(doc: Doc, c: Caret)
    requires ValidCaret(doc, c)
    ensures ByteOf(doc, c) <= Len(doc) && LineOf(doc, ByteOf(doc, c)) == c.line
    ensures CaretAt(doc, ByteOf(doc, c)) == c
  {
    var gs := doc[c.line].graphemes;
    SizesPositive(Utf8, doc[c.line]);
    SumMonotone(Sizes(Utf8, gs), c.index, |gs|);
    SumMonotone(LineSizes(doc), c.line + 1, |doc|);
    assert LineStart(doc, c.line + 1) == LineStart(doc, c.line) + TextLen(doc[c.line]) + doc[c.line].terminator;
    LineOfUnique(doc, ByteOf(doc, c), c.line);
    FloorOfSum(Sizes(Utf8, gs), c.index);
  }

  /** The byte of the caret a byte snaps to. */
  function Snap(doc: seq<Line>, byte: nat): nat
    requires doc != []
  {
    ByteOf(doc, CaretAt(doc, byte))
  }

  lemma SnapBelow(doc: Doc, byte: nat)
    ensures Snap(doc, byte) <= byte && Snap(doc, byte) <= Len(doc)
  {
    LineOfStarts(doc, byte);
  }

  lemma SnapMonotone(doc: Doc, a: nat, b: nat)
    requires a <= b
    ensures Snap(doc, a) <= Snap(doc, b)
  {
    var ca, cb := CaretAt(doc, a), CaretAt(doc, b);
    LineOfStarts(doc, a);
    LineOfStarts(doc, b);
    if ca.line == cb.line {
      var gs, start := doc[ca.line].graphemes, LineStart(doc, ca.line);
      FloorMonotone(Sizes(Utf8, gs), Min(a, Len(doc)) - start, Min(b, Len(doc)) - start);
      SumMonotone(Sizes(Utf8, gs), ca.index, cb.index);
    } else {
      LinesMonotone(doc, Min(a, Len(doc)), Min(b, Len(doc)));
      SumMonotone(LineSizes(doc), ca.line + 1, cb.line);
      SumMonotone(Sizes(Utf8, doc[ca.line].graphemes), ca.index, |doc[ca.line].graphemes|);
    }
  }

  /** Snapping yields the greatest caret position not above the byte. */
  lemma SnapIsGreatestCaret(doc: Doc, byte: nat, c: Caret)
    requires ValidCaret(doc, c)
    ensures ValidCaret(doc, CaretAt(doc, byte)) && Snap(doc, byte) <= byte
    ensures ByteOf(doc, c) <= byte ==> ByteOf(doc, c) <= Snap(doc, byte)
    ensures Snap(doc, ByteOf(doc, c)) == ByteOf(doc, c)
  {
    SnapBelow(doc, byte);
    CaretRoundTrip(doc, c);
    if ByteOf(doc, c) <= byte {
      SnapMonotone(doc, ByteOf(doc, c), byte);
    }
  }

  // ---------- the characters of a document ----------

  function CharsOf(gs: seq<Grapheme>): seq<Char> {
    if gs == [] then [] else gs[0].chars + CharsOf(gs[1..])
  }

  /** Number of characters before grapheme `i`. */
  ghost function CharIndex(gs: seq<Grapheme>, i: nat): (k: nat)
    requires i <= |gs|
    ensures k <= |CharsOf(gs)|
  {
    if i == 0 then 0 else |gs[0].chars| + CharIndex(gs[1..], i - 1)
  }

  lemma SizeAppend(unit: Unit, a: seq<Char>, b: seq<Char>, n: nat)
    requires n <= |a| + |b|
    ensures n <= |a| ==> Sum(CharSizes(unit, a + b), n) == Sum(CharSizes(unit, a), n)
    ensures |a| <= n ==> Sum(CharSizes(unit, a + b), n) == Size(unit, a) + Sum(CharSizes(unit, b), n - |a|)
  {
    assert CharSizes(unit, a + b) == CharSizes(unit, a) + CharSizes(unit, b);
    SumAppend(CharSizes(unit, a), CharSizes(unit, b), n);
  }

  lemma OffsetShift(unit: Unit, gs: seq<Grapheme>, i: nat)
    requires 0 < i <= |gs|
    ensures Offset(unit, gs, i) == Size(unit, gs[0].chars) + Offset(unit, gs[1..], i - 1)
  {
    SumShift(Sizes(unit, gs), i);
    assert Sizes(unit, gs)[1..] == Sizes(unit, gs[1..]);
  }

  /** Counting code units by graphemes or by characters gives the same offsets. */
  lemma {:induction false} GraphemeBoundary(unit: Unit, gs: seq<Grapheme>, i: nat)
    requires i <= |gs|
    ensures Sum(CharSizes(unit, CharsOf(gs)), CharIndex(gs, i)) == Offset(unit, gs, i)
    decreases |gs|
  {
    if i > 0 {
      GraphemeBoundary(unit, gs[1..], i - 1);
      SizeAppend(unit, gs[0].chars, CharsOf(gs[1..]), CharIndex(gs, i));
      OffsetShift(unit, gs, i);
    }
  }

  lemma {:induction false} CharIndexEnd(gs: seq<Grapheme>)
    ensures CharIndex(gs, |gs|) == |CharsOf(gs)|
  {
    if gs != [] {
      CharIndexEnd(gs[1..]);
    }
  }

  function DocChars(doc: seq<Line>): seq<Char> {
    if doc == [] then [] else CharsOf(doc[0].graphemes) + Ones(doc[0].terminator) + DocChars(doc[1..])
  }

  function Ones(n: nat): seq<Char> { seq(n, _ => 1) }

  /** A byte offset between two characters of the document. */
  predicate IsCharBoundary(doc: seq<Line>, byte: nat) {
    var chars := DocChars(doc);
    exists k | 0 <= k <= |chars| :: Sum(CharSizes(Utf8, chars), k) == byte
  }

  lemma {:induction false} OnesSize(n: nat)
    ensures Size(Utf8, Ones(n)) == n
  {
    if n > 0 {
      OnesSize(n - 1);
      assert CharSizes(Utf8, Ones(n))[..n - 1] == CharSizes(Utf8, Ones(n - 1));
      SumPrefix(CharSizes(Utf8, Ones(n)), n - 1, n - 1);
    }
  }

  lemma LineStartShift(doc: seq<Line>, l: nat)
    requires 0 < l <= |doc|
    ensures LineStart(doc, l) == TextLen(doc[0]) + doc[0].terminator + LineStart(doc[1..], l - 1)
  {
    SumShift(LineSizes(doc), l);
    assert LineSizes(doc)[1..] == LineSizes(doc[1..]);
  }

  /** Every caret lies between characters. */
  lemma {:induction false} CaretIsBoundary(doc: seq<Line>, c: Caret)
    requires ValidCaret(doc, c)
    ensures IsCharBoundary(doc, ByteOf(doc, c))
    decreases c.line
  {
    var k := CaretChar(doc, c);
  }

  lemma {:induction false} CaretChar(doc: seq<Line>, c: Caret) returns (k: nat)
    requires ValidCaret(doc, c)
    ensures k <= |DocChars(doc)| && Sum(CharSizes(Utf8, DocChars(doc)), k) == ByteOf(doc, c)
    decreases c.line
  {
    hide CharSizes, CharsOf, CharIndex, Ones;
    var gs := doc[0].graphemes;
    var head := CharsOf(gs) + Ones(doc[0].terminator);
    if c.line == 0 {
      k := CharIndex(gs, c.index);
      GraphemeBoundary(Utf8, gs, c.index);
      SizeAppend(Utf8, CharsOf(gs), Ones(doc[0].terminator), k);
      SizeAppend(Utf8, head, DocChars(doc[1..]), k);
    } else {
      var rest := CaretChar(doc[1..], Caret(c.line - 1, c.index));
      k := |head| + rest;
      SizeAppend(Utf8, head, DocChars(doc[1..]), k);
      SizeAppend(Utf8, CharsOf(gs), Ones(doc[0].terminator), |head|);
      GraphemeBoundary(Utf8, gs, |gs|);
      CharIndexEnd(gs);
      OnesSize(doc[0].terminator);
      LineStartShift(doc, c.line);
    }
  }
}
