/**
 The journal file: one JSON record per line, recovery that keeps the latest record per document,
 and the file a map of checkpoints is written to. A file that is not UTF-8 throughout is lost whole.
 */
module JournalFile {
  import opened Wrappers
  import opened Utf8
  import opened Checkpoint

  // ---------- records ----------

  /** One JSON record; every field but the first two may be missing. */
  datatype Record = Record(
    v: nat, kind: string, id: Option<DocId>, rev: Option<Revision>, content: Option<Text>,
    path: Option<Path>, lang: Option<string>, epoch: Option<Epoch>)

  /** A line of the file after trimming: empty, not a record, or the record it parses to. */
  datatype FileLine = Empty | Garbled | Parsed(record: Record)

  datatype RecoveredBuffer = RecoveredBuffer(
    id: DocId, revision: Revision, content: Text, path: Option<Path>, language: Language)

  type Buffers = map<DocId, RecoveredBuffer>

  function LanguageName(language: Language): string {
    match language
    case Rust => "rust"
    case TypeScript => "typescript"
    case JavaScript => "javascript"
    case Go => "go"
    case Python => "python"
    case PlainText => "plain"
  }

  function LanguageNamed(name: Option<string>): Language {
    if name == Some("rust") then Rust
    else if name == Some("typescript") then TypeScript
    else if name == Some("javascript") then JavaScript
    else if name == Some("go") then Go
    else if name == Some("python") then Python
    else PlainText
  }

  /** The checkpoint a line holds, if it holds one. */
  function Read(line: FileLine): Option<RecoveredBuffer> {
    if line.Parsed? && line.record.v == 1 && line.record.kind == "checkpoint"
       && line.record.id.Some? && line.record.rev.Some? && line.record.content.Some? then
      var r := line.record;
      Some(RecoveredBuffer(r.id.value, r.rev.value, r.content.value, r.path, LanguageNamed(r.lang)))
    else None
  }

  function Add(latest: Buffers, found: Option<RecoveredBuffer>): Buffers {
    if found.None? then latest
    else if found.value.id in latest && found.value.revision <= latest[found.value.id].revision then latest
    else latest[found.value.id := found.value]
  }

  // ---------- lines ----------

  const NEWLINE: Scalar := 0x0A

  /** `serde_json` as far as it matters here: some record or none for a text, and a text for a record. */
  datatype Codec = Codec(parse: seq<Scalar> -> Option<Record>, render: Record -> seq<Scalar>)
  {
    /** A rendered record parses back and is one line without blanks around it. */
    ghost predicate Lawful() {
      forall r :: Rendered(r)
    }

    ghost predicate Rendered(r: Record) {
      var text := render(r);
      parse(text) == Some(r) && text != [] && NEWLINE !in text && Trim(text) == text
    }
  }

  /** `char::is_whitespace`. */
  predicate IsWhitespace(c: Scalar) {
    || 0x09 <= c <= 0x0D || c == 0x20 || c == 0x85 || c == 0xA0 || c == 0x1680
    || 0x2000 <= c <= 0x200A || c == 0x2028 || c == 0x2029 || c == 0x202F || c == 0x205F || c == 0x3000
  }

  function Trim(text: seq<Scalar>): seq<Scalar> {
    if text != [] && IsWhitespace(text[0]) then Trim(text[1..])
    else if text != [] && IsWhitespace(text[|text| - 1]) then Trim(text[..|text| - 1])
    else text
  }

  function LineOf(json: Codec, text: seq<Scalar>): FileLine {
    var line := Trim(text);
    if line == [] then Empty
    else match json.parse(line)
      case Some(r) => Parsed(r)
      case None => Garbled
  }

  /** The text between newlines. A carriage return is trimmed off with the blanks, and so is an empty last line. */
  function SplitLines(text: seq<Scalar>): (lines: seq<seq<Scalar>>)
    ensures lines != []
  {
    if text == [] then [[]]
    else
      var rest := SplitLines(text[1..]);
      if text[0] == NEWLINE then [[]] + rest else [[text[0]] + rest[0]] + rest[1..]
  }

  function Lines(json: Codec, texts: seq<seq<Scalar>>): seq<FileLine> {
    seq(|texts|, i requires 0 <= i < |texts| => LineOf(json, texts[i]))
  }

  // ---------- recovery ----------

  function Recovered(lines: seq<FileLine>): Buffers {
    if lines == [] then map[] else Add(Recovered(lines[..|lines| - 1]), Read(lines[|lines| - 1]))
  }

  /** What recovery finds in a file; nothing at all when its bytes are not valid UTF-8. */
  function RecoveredFile(json: Codec, file: seq<Byte>): Buffers {
    match FromUtf8(file)
    case Ok(text) => Recovered(Lines(json, SplitLines(text)))
    case _ => map[]
  }

  method Recover(json: Codec, file: seq<Byte>) returns (latest: Buffers)
    ensures latest == RecoveredFile(json, file)
  {
    latest := map[];
    var decoded := FromUtf8(file);
    if !decoded.Ok? {
      return;
    }
    var texts := SplitLines(decoded.text);
    ghost var lines := Lines(json, texts);
    for i := 0 to |texts|
      invariant latest == Recovered(lines[..i])
    {
      assert lines[..i + 1][..i] == lines[..i];
      var found := Read(LineOf(json, texts[i]));
      if found.Some? {
        var buf := found.value;
        if buf.id !in latest || buf.revision > latest[buf.id].revision {
          latest := latest[buf.id := buf];
        }
      }
    }
    assert lines[..|texts|] == lines;
  }

  ghost predicate Holds(line: FileLine, id: DocId) {
    Read(line).Some? && Read(line).value.id == id
  }

  /**
   Per document, recovery returns the first of the records with the highest revision, whatever
   else stands in the file; documents without a record are not invented.
   */
  lemma {:induction false} RecoveredIsLatest(lines: seq<FileLine>, id: DocId)
    ensures id in Recovered(lines) <==> exists i | 0 <= i < |lines| :: Holds(lines[i], id)
    ensures id in Recovered(lines) ==> exists i | 0 <= i < |lines| ::
      && Read(lines[i]) == Some(Recovered(lines)[id]) && Recovered(lines)[id].id == id
      && (forall j | 0 <= j < |lines| && Holds(lines[j], id) ::
            Read(lines[j]).value.revision <= Recovered(lines)[id].revision)
      && (forall j | 0 <= j < i && Holds(lines[j], id) ::
            Read(lines[j]).value.revision < Recovered(lines)[id].revision)
  {
    if lines != [] {
      var n := |lines| - 1;
      var before := lines[..n];
      RecoveredIsLatest(before, id);
      assert forall j | 0 <= j < n :: lines[j] == before[j];
      if Holds(lines[n], id) && Recovered(lines).Keys == Recovered(before).Keys + {id}
         && Recovered(lines)[id] == Read(lines[n]).value {
        if id in Recovered(before) && Recovered(before)[id] == Recovered(lines)[id] {
          assert Recovered(before)[id] == Recovered(lines)[id];
        } else {
          assert Read(lines[n]) == Some(Recovered(lines)[id]);
        }
      }
    }
  }

  /** Lines that hold no checkpoint change nothing, wherever they stand. */
  lemma {:induction false} ForeignLineIgnored(a: seq<FileLine>, line: FileLine, b: seq<FileLine>)
    requires Read(line).None?
    ensures Recovered(a + [line] + b) == Recovered(a + b)
    decreases |b|
  {
    if b == [] {
      assert (a + [line] + b)[..|a|] == a && a + b == a;
    } else {
      var n := |b| - 1;
      ForeignLineIgnored(a, line, b[..n]);
      assert (a + [line] + b)[..|a| + 1 + n] == a + [line] + b[..n];
      assert (a + b)[..|a| + n] == a + b[..n];
    }
  }

  /** Blanks around a record do not matter, nor does the carriage return of a line ended by both. */
  lemma BlanksIgnored(json: Codec, line: seq<Scalar>, blank: Scalar)
    requires blank == 0x20 || blank == 0x09 || blank == 0x0D
    ensures LineOf(json, [blank] + line) == LineOf(json, line) == LineOf(json, line + [blank])
  {
    assert ([blank] + line)[1..] == line;
    TrimEnd(line, blank);
  }

  lemma {:induction false} TrimEnd(line: seq<Scalar>, blank: Scalar)
    requires IsWhitespace(blank)
    ensures Trim(line + [blank]) == Trim(line)
  {
    var longer := line + [blank];
    if line == [] {
      assert longer[1..] == [];
    } else if IsWhitespace(line[0]) {
      assert longer[1..] == line[1..] + [blank];
      TrimEnd(line[1..], blank);
    } else {
      assert longer[..|longer| - 1] == line;
    }
  }

  lemma {:induction false} SplitAtNewline(a: seq<Scalar>, b: seq<Scalar>, newline: Scalar)
    requires newline == NEWLINE
    ensures SplitLines(a + [newline] + b) == SplitLines(a) + SplitLines(b)
    decreases |a|
  {
    var text := a + [newline] + b;
    if a == [] {
      assert text[1..] == b;
    } else {
      assert text[1..] == a[1..] + [newline] + b;
      SplitAtNewline(a[1..], b, newline);
    }
  }

  lemma {:induction false} SplitOneLine(line: seq<Scalar>)
    requires NEWLINE !in line
    ensures SplitLines(line) == [line]
    decreases |line|
  {
    if line != [] {
      SplitOneLine(line[1..]);
      assert [line[0]] + line[1..] == line;
    }
  }

  lemma LinesAppend(json: Codec, a: seq<seq<Scalar>>, b: seq<seq<Scalar>>)
    ensures Lines(json, a + b) == Lines(json, a) + Lines(json, b)
  {
  }

  // ---------- a corrupt line ----------

  /** Whole lines: nothing, or bytes up to and including a newline. */
  ghost predicate WholeLines(file: seq<Byte>) {
    file == [] || file[|file| - 1] == NEWLINE_BYTE
  }

  const NEWLINE_BYTE: Byte := 0x0A

  /** The line holds no checkpoint: not one that can be read, at any rate. */
  ghost predicate Corrupt(json: Codec, line: seq<Byte>) {
    && NEWLINE_BYTE !in line
    && (FromUtf8(line).Ok? ==> Read(LineOf(json, FromUtf8(line).text)).None?)
  }

  /** The text of whole lines, one more line, and more lines. */
  lemma DecodeAround(a: seq<Byte>, line: seq<Byte>, b: seq<Byte>)
    requires WholeLines(a)
    ensures FromUtf8(a + b).Ok? <==> FromUtf8(a).Ok? && FromUtf8(b).Ok?
    ensures FromUtf8(a + b).Ok? ==> FromUtf8(a + b).text == FromUtf8(a).text + FromUtf8(b).text
    ensures FromUtf8(a + line + [NEWLINE_BYTE] + b).Ok? <==> FromUtf8(a + b).Ok? && FromUtf8(line).Ok?
    ensures FromUtf8(a + line + [NEWLINE_BYTE] + b).Ok? ==>
      FromUtf8(a + line + [NEWLINE_BYTE] + b).text
      == FromUtf8(a).text + (FromUtf8(line).text + [NEWLINE] + FromUtf8(b).text)
  {
    var tail := line + [NEWLINE_BYTE] + b;
    FromUtf8Around(line, b, NEWLINE_BYTE);
    DecodeAfter(a, b);
    DecodeAfter(a, tail);
    assert a + line + [NEWLINE_BYTE] + b == a + tail;
  }

  lemma DecodeAfter(a: seq<Byte>, b: seq<Byte>)
    requires WholeLines(a)
    ensures FromUtf8(a + b).Ok? <==> FromUtf8(a).Ok? && FromUtf8(b).Ok?
    ensures FromUtf8(a + b).Ok? ==> FromUtf8(a + b).text == FromUtf8(a).text + FromUtf8(b).text
    ensures FromUtf8(a).Ok? ==> FromUtf8(a).text == [] || FromUtf8(a).text[|FromUtf8(a).text| - 1] == NEWLINE
  {
    assert FromUtf8([]) == Ok([]);
    hide FromUtf8;
    if a == [] {
      assert a + b == b;
    } else {
      var start := a[..|a| - 1];
      assert a == start + [NEWLINE_BYTE] && a + b == start + [NEWLINE_BYTE] + b;
      LineEndDecoded(start);
      FromUtf8Around(start, b, NEWLINE_BYTE);
    }
  }

  lemma LineEndDecoded(start: seq<Byte>)
    ensures FromUtf8(start + [NEWLINE_BYTE]).Ok? <==> FromUtf8(start).Ok?
    ensures FromUtf8(start).Ok? ==> FromUtf8(start + [NEWLINE_BYTE]).text == FromUtf8(start).text + [NEWLINE]
  {
    assert FromUtf8([]) == Ok([]);
    hide FromUtf8;
    FromUtf8Around(start, [], NEWLINE_BYTE);
    assert start + [NEWLINE_BYTE] + [] == start + [NEWLINE_BYTE];
  }

  /** In a file that stays readable, a line without a checkpoint changes nothing. */
  lemma ReadableLineIgnored(json: Codec, a: seq<Scalar>, line: seq<Scalar>, b: seq<Scalar>)
    requires a == [] || a[|a| - 1] == NEWLINE
    requires NEWLINE !in line && Read(LineOf(json, line)).None?
    ensures Recovered(Lines(json, SplitLines(a + (line + [NEWLINE] + b))))
         == Recovered(Lines(json, SplitLines(a + b)))
  {
    hide SplitLines, LineOf, Read, Recovered;
    var tail := line + [NEWLINE] + b;
    SplitAtNewline(line, b, NEWLINE);
    SplitOneLine(line);
    var before := SplitAfter(a, b);
    var same := SplitAfter(a, tail);
    var la, lb := Lines(json, before), Lines(json, SplitLines(b));
    LinesAppend(json, before, [line] + SplitLines(b));
    LinesAppend(json, [line], SplitLines(b));
    LinesAppend(json, before, SplitLines(b));
    assert Lines(json, [line]) == [LineOf(json, line)];
    ForeignLineIgnored(la, LineOf(json, line), lb);
    assert la + ([LineOf(json, line)] + lb) == la + [LineOf(json, line)] + lb;
  }

  /** The lines before a line start, whatever comes after it. */
  lemma SplitAfter(a: seq<Scalar>, b: seq<Scalar>) returns (before: seq<seq<Scalar>>)
    requires a == [] || a[|a| - 1] == NEWLINE
    ensures before == if a == [] then [] else SplitLines(a[..|a| - 1])
    ensures SplitLines(a + b) == before + SplitLines(b)
  {
    hide SplitLines;
    if a == [] {
      before := [];
      assert a + b == b && [] + SplitLines(b) == SplitLines(b);
    } else {
      var start := a[..|a| - 1];
      before := SplitLines(start);
      assert a + b == start + [NEWLINE] + b;
      SplitAtNewline(start, b, NEWLINE);
    }
  }

  /**
   A corrupt line among others is skipped as promised exactly if its bytes are valid UTF-8, or if
   there was nothing to recover anyway.
   */
  lemma CorruptLineIgnored(json: Codec, a: seq<Byte>, line: seq<Byte>, b: seq<Byte>)
    requires WholeLines(a) && Corrupt(json, line)
    ensures RecoveredFile(json, a + line + [NEWLINE_BYTE] + b) == RecoveredFile(json, a + b)
       <==> FromUtf8(line).Ok? || RecoveredFile(json, a + b) == map[]
  {
    DecodeAround(a, line, b);
    DecodeAfter(a, b);
    if FromUtf8(line).Ok? && FromUtf8(a + b).Ok? {
      NewlineKept(line);
      ReadableLineIgnored(json, FromUtf8(a).text, FromUtf8(line).text, FromUtf8(b).text);
    }
  }

  lemma NewlineKept(line: seq<Byte>)
    requires FromUtf8(line).Ok? && NEWLINE_BYTE !in line
    ensures NEWLINE !in FromUtf8(line).text
  {
    FromUtf8OnlyEncodings(line);
    if NEWLINE in FromUtf8(line).text {
      AsciiEncoded(FromUtf8(line).text, NEWLINE);
    }
  }

  /** One such byte on a line of its own discards every checkpoint of the file. */
  lemma BadByteDiscardsAll(json: Codec, file: seq<Byte>)
    requires WholeLines(file)
    ensures RecoveredFile(json, file + [0xFF] + [NEWLINE_BYTE] + []) == map[]
  {
    DecodeAround(file, [0xFF], []);
    assert !FromUtf8([0xFF]).Ok?;
  }

  // ---------- writing ----------

  type Dirty = map<DocId, Payload>

  ghost predicate ValidDirty(dirty: Dirty) {
    forall id | id in dirty :: dirty[id].docId == id
  }

  function RecordFor(p: Payload): Record {
    Record(1, "checkpoint", Some(p.docId), Some(p.revision), Some(p.content), p.path,
           Some(LanguageName(p.language)), Some(p.epoch))
  }

  /** What recovery should find of a checkpoint. */
  function Kept(p: Payload): RecoveredBuffer {
    RecoveredBuffer(p.docId, p.revision, p.content, p.path, p.language)
  }

  ghost function Image(dirty: Dirty): Buffers {
    map id | id in dirty :: Kept(dirty[id])
  }

  /** `Recovery` seeds the worker; the epoch of a recovered checkpoint is reset. */
  function Seeded(buffers: Buffers): Dirty {
    map id | id in buffers ::
      Payload(id, buffers[id].revision, buffers[id].content, buffers[id].language, buffers[id].path, 0)
  }

  lemma RecordReadsBack(json: Codec, p: Payload)
    requires json.Lawful()
    ensures var line := json.render(RecordFor(p));
            NEWLINE !in line && Read(LineOf(json, line)) == Some(Kept(p))
  {
    assert json.Rendered(RecordFor(p));
  }

  /** The record on disk, by its names. */
  lemma WrittenRecord(p: Payload)
    ensures var r := RecordFor(p);
            && r.v == 1 && r.kind == "checkpoint" && r.id == Some(p.docId) && r.rev == Some(p.revision)
            && r.content == Some(p.content) && r.path == p.path && r.epoch == Some(p.epoch)
            && (p.language.Rust? ==> r.lang == Some("rust")) && (p.language.Go? ==> r.lang == Some("go"))
            && (p.language.TypeScript? ==> r.lang == Some("typescript"))
            && (p.language.JavaScript? ==> r.lang == Some("javascript"))
            && (p.language.Python? ==> r.lang == Some("python")) && (p.language.PlainText? ==> r.lang == Some("plain"))
  {
  }

  /** The text of lines, each ended by a newline. */
  ghost function Joined(texts: seq<seq<Scalar>>): seq<Scalar> {
    if texts == [] then [] else Joined(texts[..|texts| - 1]) + (texts[|texts| - 1] + [NEWLINE])
  }

  lemma {:induction false} SplitJoined(texts: seq<seq<Scalar>>, rest: seq<Scalar>)
    requires forall i | 0 <= i < |texts| :: NEWLINE !in texts[i]
    ensures SplitLines(Joined(texts) + rest) == texts + SplitLines(rest)
    decreases |texts|
  {
    hide SplitLines;
    if texts == [] {
      assert Joined(texts) + rest == rest && texts + SplitLines(rest) == SplitLines(rest);
    } else {
      var n := |texts| - 1;
      var tail := texts[n] + [NEWLINE] + rest;
      assert Joined(texts) + rest == Joined(texts[..n]) + tail;
      SplitJoined(texts[..n], tail);
      SplitAtNewline(texts[n], rest, NEWLINE);
      SplitOneLine(texts[n]);
      assert texts == texts[..n] + [texts[n]];
    }
  }

  /** What lines end up as in the file is what recovery reads. */
  lemma JoinedReadsBack(json: Codec, texts: seq<seq<Scalar>>)
    requires forall i | 0 <= i < |texts| :: NEWLINE !in texts[i]
    ensures RecoveredFile(json, EncodeAll(Joined(texts))) == Recovered(Lines(json, texts))
  {
    assert SplitLines([]) == [[]];
    assert Trim([]) == [] && LineOf(json, []) == Empty && Read(Empty) == None;
    hide FromUtf8, EncodeAll, SplitLines, LineOf, Joined, Read;
    FromUtf8Encoded(Joined(texts));
    SplitJoined(texts, []);
    assert Joined(texts) + [] == Joined(texts);
    LinesAppend(json, texts, [[]]);
    assert (Lines(json, texts) + Lines(json, [[]]))[..|texts|] == Lines(json, texts);
  }

  /** All records of the dirty map, in whatever order the map yields them, as a file. */
  method Serialize(json: Codec, dirty: Dirty) returns (file: seq<Byte>)
    requires ValidDirty(dirty) && json.Lawful()
    ensures RecoveredFile(json, file) == Image(dirty)
  {
    file := [];
    var left := dirty.Keys;
    ghost var texts: seq<seq<Scalar>> := [];
    ghost var written: set<DocId> := {};
    while left != {}
      invariant left <= dirty.Keys && written == dirty.Keys - left
      invariant file == EncodeAll(Joined(texts)) && forall i | 0 <= i < |texts| :: NEWLINE !in texts[i]
      invariant Recovered(Lines(json, texts)) == map id | id in dirty && id in written :: Kept(dirty[id])
      decreases left
    {
      var id :| id in left;
      var line := json.render(RecordFor(dirty[id]));
      RecordReadsBack(json, dirty[id]);
      assert (texts + [line])[..|texts|] == texts;
      LinesAppend(json, texts, [line]);
      assert Lines(json, [line]) == [LineOf(json, line)];
      assert (Lines(json, texts) + [LineOf(json, line)])[..|texts|] == Lines(json, texts);
      EncodeAllAppend(Joined(texts), line + [NEWLINE]);
      texts := texts + [line];
      file := file + EncodeAll(line + [NEWLINE]);
      left := left - {id};
      written := written + {id};
    }
    JoinedReadsBack(json, texts);
    assert written == dirty.Keys;
  }
}
