/**
 The crash journal's worker: it keeps the latest checkpoint per document, rewrites the whole file
 atomically after every command, and acknowledges what is durable. A write may fail before it
 replaces the file or after.
 */
module Journal {
  import opened Utf8
  import opened Checkpoint
  import opened JournalFile

  /** How a durable write can end; `durable_atomic_replace` can also fail after the rename. */
  datatype Persist = Written | FailedKeepingOld | FailedHavingNew

  // ---------- the worker ----------

  datatype Command = Submit(payload: Payload) | AckSave(id: DocId, rev: Revision) | Flush

  datatype Ack = Ack(docId: DocId, revision: Revision, epoch: Epoch)

  /** What matters of the worker: its map, what recovery would find now, and the acks sent. */
  datatype Worker = Worker(dirty: Dirty, disk: Buffers, acks: seq<Ack>)

  ghost function Persisted(w: Worker, outcome: Persist): Worker {
    if outcome == FailedKeepingOld then w else w.(disk := Image(w.dirty))
  }

  ghost function Step(w: Worker, command: Command, outcome: Persist): Worker {
    match command
    case Submit(p) =>
      var w1 := Persisted(w.(dirty := w.dirty[p.docId := p]), outcome);
      if outcome == Written then w1.(acks := w1.acks + [Ack(p.docId, p.revision, p.epoch)]) else w1
    case AckSave(id, rev) =>
      if id in w.dirty && w.dirty[id].revision <= rev then
        var w1 := Persisted(w.(dirty := w.dirty - {id}), outcome);
        if outcome == Written then w1 else w1.(dirty := w.dirty)
      else w
    case Flush => Persisted(w, outcome)
  }

  ghost function Startup(json: Codec, file: seq<Byte>): Worker {
    Worker(Seeded(RecoveredFile(json, file)), RecoveredFile(json, file), [])
  }

  lemma RecoveredIds(json: Codec, file: seq<Byte>)
    ensures forall id | id in RecoveredFile(json, file) :: RecoveredFile(json, file)[id].id == id
  {
    forall id | id in RecoveredFile(json, file) ensures RecoveredFile(json, file)[id].id == id {
      RecoveredIsLatest(Lines(json, SplitLines(FromUtf8(file).text)), id);
    }
  }

  class JournalWorker {
    var dirty: Dirty
    const json: Codec
    var file: seq<Byte>
    var acks: seq<Ack>

    ghost predicate Valid()
      reads this
    {
      ValidDirty(dirty) && json.Lawful()
    }

    ghost function View(): Worker
      reads this
    {
      Worker(dirty, RecoveredFile(json, file), acks)
    }

    /** Startup: recover what the file holds, and keep it all. */
    constructor (json: Codec, file: seq<Byte>)
      requires json.Lawful()
      ensures Valid() && this.json == json && this.file == file
      ensures View() == Startup(json, file)
    {
      var recovery := Recover(json, file);
      this.json := json;
      this.dirty := Seeded(recovery);
      this.file := file;
      this.acks := [];
      RecoveredIds(json, file);
    }

    method PersistCurrent(outcome: Persist) returns (ok: bool)
      requires Valid()
      modifies this`file
      ensures ok <==> outcome == Written
      ensures View() == Persisted(old(View()), outcome)
    {
      var tmp := Serialize(json, dirty);
      if outcome != FailedKeepingOld {
        file := tmp;
      }
      ok := outcome == Written;
    }

    /** One turn of the worker's loop; `outcome` is how its write, if any, turns out. */
    method Handle(command: Command, outcome: Persist)
      requires Valid()
      modifies this
      ensures Valid() && View() == Step(old(View()), command, outcome)
    {
      match command
      case Submit(p) =>
        dirty := dirty[p.docId := p];
        var ok := PersistCurrent(outcome);
        if ok {
          acks := acks + [Ack(p.docId, p.revision, p.epoch)];
        }
      case AckSave(id, rev) =>
        if id in dirty && dirty[id].revision <= rev {
          var p := dirty[id];
          ghost var before := dirty;
          dirty := dirty - {id};
          var ok := PersistCurrent(outcome);
          if !ok {
            dirty := dirty[id := p];
            assert dirty == before;
          }
        }
      case Flush =>
        var _ := PersistCurrent(outcome);
    }
  }

  // ---------- what every run keeps ----------

  type Turn = (Command, Persist)

  ghost function Run(w: Worker, turns: seq<Turn>): Worker
    decreases |turns|
  {
    if turns == [] then w else Run(Step(w, turns[0].0, turns[0].1), turns[1..])
  }

  ghost predicate Durable(w: Worker, p: Payload) {
    && p.docId in w.dirty && w.dirty[p.docId] == p
    && p.docId in w.disk && w.disk[p.docId] == Kept(p)
  }

  /** A command that may replace or retire the checkpoint `p`. */
  ghost predicate Supersedes(command: Command, p: Payload) {
    || (command.Submit? && command.payload.docId == p.docId)
    || (command.AckSave? && command.id == p.docId && p.revision <= command.rev)
  }

  /**
   An ack is sent only when recovery would now return that very checkpoint: exactly for a submission
   whose write succeeds. A write that fails after replacing the file makes it durable without an ack.
   */
  lemma AckMeansDurable(w: Worker, command: Command, outcome: Persist)
    ensures Step(w, command, outcome).acks != w.acks <==> command.Submit? && outcome == Written
    ensures command.Submit? && outcome == Written ==>
      && Durable(Step(w, command, outcome), command.payload)
      && Step(w, command, outcome).acks
         == w.acks + [Ack(command.payload.docId, command.payload.revision, command.payload.epoch)]
  {
    if command.Submit? && outcome == Written {
      var p := command.payload;
      assert |w.acks + [Ack(p.docId, p.revision, p.epoch)]| != |w.acks|;
    }
  }

  /** Once durable, a checkpoint stays recoverable through any commands that do not supersede it. */
  lemma {:induction false} DurableStays(w: Worker, turns: seq<Turn>, p: Payload)
    requires Durable(w, p)
    requires forall i | 0 <= i < |turns| :: !Supersedes(turns[i].0, p)
    ensures Durable(Run(w, turns), p)
    decreases |turns|
  {
    if turns != [] {
      assert !Supersedes(turns[0].0, p);
      assert Durable(Step(w, turns[0].0, turns[0].1), p);
      DurableStays(Step(w, turns[0].0, turns[0].1), turns[1..], p);
    }
  }

  /** What was in the file at startup is not lost by work on other documents. */
  lemma SeedsSurvive(json: Codec, file: seq<Byte>, turns: seq<Turn>, id: DocId)
    requires id in RecoveredFile(json, file)
    requires forall i | 0 <= i < |turns| :: !Supersedes(turns[i].0, Seeded(RecoveredFile(json, file))[id])
    ensures var end := Run(Startup(json, file), turns);
            id in end.disk && end.disk[id] == RecoveredFile(json, file)[id]
  {
    RecoveredIds(json, file);
    DurableStays(Startup(json, file), turns, Seeded(RecoveredFile(json, file))[id]);
  }

  /** After a file with one bad byte the first write that succeeds leaves nothing else. */
  lemma BadByteLosesAll(json: Codec, file: seq<Byte>, p: Payload)
    requires WholeLines(file)
    ensures Step(Startup(json, file + [0xFF] + [NEWLINE_BYTE] + []), Submit(p), Written).disk == map[p.docId := Kept(p)]
  {
    BadByteDiscardsAll(json, file);
  }

  /** The file never shows anything but what it started with or what was submitted. */
  lemma {:induction false} NothingInvented(w: Worker, turns: seq<Turn>, id: DocId)
    requires forall d | d in w.dirty :: w.dirty[d].docId == d
    ensures id in Run(w, turns).disk ==>
      || (id in w.disk && Run(w, turns).disk[id] == w.disk[id])
      || (id in w.dirty && Run(w, turns).disk[id] == Kept(w.dirty[id]))
      || exists i | 0 <= i < |turns| ::
           turns[i].0.Submit? && turns[i].0.payload.docId == id && Run(w, turns).disk[id] == Kept(turns[i].0.payload)
    decreases |turns|
  {
    if turns != [] {
      var w1, rest := Step(w, turns[0].0, turns[0].1), turns[1..];
      NothingInvented(w1, rest, id);
      assert forall i | 0 <= i < |rest| :: rest[i] == turns[i + 1];
      if id in w1.dirty && id in Run(w1, rest).disk && Run(w1, rest).disk[id] == Kept(w1.dirty[id]) {
        assert w1.dirty[id] == if turns[0].0.Submit? && turns[0].0.payload.docId == id then turns[0].0.payload else w.dirty[id];
      }
    }
  }

  /** A compaction that reports success removes the document for good, until it is submitted again. */
  lemma {:induction false} CompactedStaysGone(w: Worker, turns: seq<Turn>, id: DocId)
    requires id !in w.dirty && id !in w.disk
    requires forall i | 0 <= i < |turns| :: turns[i].0.Submit? ==> turns[i].0.payload.docId != id
    ensures id !in Run(w, turns).dirty && id !in Run(w, turns).disk
    decreases |turns|
  {
    if turns != [] {
      CompactedStaysGone(Step(w, turns[0].0, turns[0].1), turns[1..], id);
    }
  }

  lemma CompactionRemoves(w: Worker, id: DocId, rev: Revision, outcome: Persist)
    requires id in w.dirty
    ensures var w1 := Step(w, AckSave(id, rev), outcome);
            (id !in w1.dirty <==> w.dirty[id].revision <= rev && outcome == Written)
            && (id !in w1.dirty ==> id !in w1.disk)
  {
  }

  /** Nothing up to revision `rev` of the document is left in the worker's map. */
  ghost predicate Retired(w: Worker, id: DocId, rev: Revision) {
    id in w.dirty ==> w.dirty[id].revision > rev
  }

  ghost predicate Restores(command: Command, id: DocId, rev: Revision) {
    command.Submit? && command.payload.docId == id && command.payload.revision <= rev
  }

  lemma {:induction false} RunSnoc(w: Worker, turns: seq<Turn>, turn: Turn)
    ensures Run(w, turns + [turn]) == Step(Run(w, turns), turn.0, turn.1)
    decreases |turns|
  {
    if turns == [] {
      assert Run(w, [turn]) == Run(Step(w, turn.0, turn.1), []);
    } else {
      assert (turns + [turn])[1..] == turns[1..] + [turn];
      RunSnoc(Step(w, turns[0].0, turns[0].1), turns[1..], turn);
    }
  }

  lemma OneMore(w: Worker, turns: seq<Turn>, k: nat)
    requires k < |turns|
    ensures Run(w, turns[..k + 1]) == Step(Run(w, turns[..k]), turns[k].0, turns[k].1)
  {
    assert turns[..k + 1] == turns[..k] + [turns[k]];
    RunSnoc(w, turns[..k], turns[k]);
  }

  lemma {:induction false} StaysRetired(w: Worker, turns: seq<Turn>, k: nat, j: nat, id: DocId, rev: Revision)
    requires k <= j <= |turns| && Retired(Run(w, turns[..k]), id, rev)
    requires forall i | k <= i < j :: !Restores(turns[i].0, id, rev)
    ensures Retired(Run(w, turns[..j]), id, rev)
    decreases j
  {
    if k < j {
      StaysRetired(w, turns, k, j - 1, id, rev);
      OneMore(w, turns, j - 1);
    }
  }

  /**
   What a successful compaction covers stays out of the worker's map for good, whatever fails
   later, exactly if no covered revision of the document is submitted after it.
   */
  lemma CompactionFinal(w: Worker, turns: seq<Turn>, k: nat)
    requires k < |turns| && turns[k].0.AckSave? && turns[k].1 == Written
    ensures var AckSave(id, rev) := turns[k].0;
            (forall j | k < j <= |turns| :: Retired(Run(w, turns[..j]), id, rev))
            <==> (forall i | k < i < |turns| :: !Restores(turns[i].0, id, rev))
  {
    var AckSave(id, rev) := turns[k].0;
    OneMore(w, turns, k);
    if i :| k < i < |turns| && Restores(turns[i].0, id, rev) {
      OneMore(w, turns, i);
      assert !Retired(Run(w, turns[..i + 1]), id, rev);
    } else {
      forall j | k < j <= |turns| ensures Retired(Run(w, turns[..j]), id, rev) {
        StaysRetired(w, turns, k + 1, j, id, rev);
      }
    }
  }

  // ---------- revisions ----------

  /** The file is never ahead of the worker's map. */
  ghost predicate Ordered(w: Worker) {
    && ValidDirty(w.dirty)
    && w.disk.Keys <= w.dirty.Keys
    && forall id | id in w.disk :: w.disk[id].revision <= w.dirty[id].revision
  }

  /** Submitting only revisions at least as high as the one the worker holds. */
  ghost predicate Forward(w: Worker, command: Command) {
    command.Submit? && command.payload.docId in w.dirty ==>
      w.dirty[command.payload.docId].revision <= command.payload.revision
  }

  ghost predicate Regresses(before: Worker, after: Worker) {
    exists id | id in before.disk && id in after.disk :: after.disk[id].revision < before.disk[id].revision
  }

  ghost predicate AllForward(w: Worker, turns: seq<Turn>)
    decreases |turns|
  {
    turns != [] ==> Forward(w, turns[0].0) && AllForward(Step(w, turns[0].0, turns[0].1), turns[1..])
  }

  lemma ForwardStep(w: Worker, command: Command, outcome: Persist)
    requires Ordered(w) && Forward(w, command)
    ensures Ordered(Step(w, command, outcome)) && !Regresses(w, Step(w, command, outcome))
  {
  }

  /** With nondecreasing submissions per document, the revision on disk never goes back. */
  lemma {:induction false} NoRegress(w: Worker, turns: seq<Turn>, k: nat)
    requires Ordered(w) && AllForward(w, turns) && k < |turns|
    ensures !Regresses(Run(w, turns[..k]), Run(w, turns[..k + 1]))
    decreases |turns|
  {
    ForwardStep(w, turns[0].0, turns[0].1);
    var w1 := Step(w, turns[0].0, turns[0].1);
    if k == 0 {
      assert turns[..1][1..] == [];
      assert Run(w, turns[..1]) == Run(w1, []);
    } else {
      NoRegress(w1, turns[1..], k - 1);
      assert turns[..k][1..] == turns[1..][..k - 1] && turns[..k + 1][1..] == turns[1..][..k];
    }
  }

  /**
   Without that the worker does step back: it stores whatever it is given. The file goes back exactly
   when a checkpoint below the one in the file is submitted and its write replaces the file.
   */
  lemma RegressesExactlyBackward(w: Worker, command: Command, outcome: Persist)
    requires Ordered(w)
    ensures Regresses(w, Step(w, command, outcome)) <==>
      && command.Submit? && outcome != FailedKeepingOld
      && command.payload.docId in w.disk && command.payload.revision < w.disk[command.payload.docId].revision
  {
    if command.Submit? && outcome != FailedKeepingOld {
      var p, w' := command.payload, Step(w, command, outcome);
      if p.docId in w.disk && p.revision < w.disk[p.docId].revision {
        assert w'.disk[p.docId].revision < w.disk[p.docId].revision;
      }
    }
  }
}
