/**
 Saving: one write per document at a time, the newest request kept while one is running, and
 the dirty flag cleared only by the write of the text that is still there.
 */
module SaveQueue {
  import opened Wrappers
  import opened Checkpoint
  import TextEdit

  datatype Request = Request(epoch: Epoch, docId: DocId, revision: Revision, path: Path, content: Text)

  /** Writes running and the newest request waiting, per document. */
  datatype Queue = Queue(inFlight: map<DocId, Revision>, pending: map<DocId, Request>)

  ghost function OnRequest(q: Queue, r: Request): (Queue, Option<Request>) {
    if r.docId in q.inFlight then (q.(pending := q.pending[r.docId := r]), None)
    else (q.(inFlight := q.inFlight[r.docId := r.revision]), Some(r))
  }

  ghost function OnResult(q: Queue, doc: DocId): (Queue, Option<Request>) {
    if doc in q.pending then
      (Queue(q.inFlight[doc := q.pending[doc].revision], q.pending - {doc}), Some(q.pending[doc]))
    else (q.(inFlight := q.inFlight - {doc}), None)
  }

  class SaveCoalesceState {
    var inFlight: map<DocId, Revision>
    var pending: map<DocId, Request>

    ghost var since: map<DocId, seq<Request>>  // asked for since the running write was started

    /** Only behind a running write does a request wait: the last one made since. */
    ghost predicate Valid()
      reads this
    {
      && since.Keys == inFlight.Keys && pending.Keys <= inFlight.Keys
      && forall doc | doc in inFlight ::
           if doc in pending then since[doc] != [] && pending[doc] == since[doc][|since[doc]| - 1] else since[doc] == []
    }

    ghost function View(): Queue
      reads this
    {
      Queue(inFlight, pending)
    }

    constructor ()
      ensures Valid() && View() == Queue(map[], map[]) && since == map[]
    {
      inFlight, pending, since := map[], map[], map[];
    }

    /** A write starts exactly if none of the document is running; otherwise the request is remembered. */
    method Requested(data: Request) returns (launch: Option<Request>)
      requires Valid()
      modifies this
      ensures Valid() && (View(), launch) == OnRequest(old(View()), data)
      ensures launch == if data.docId in old(inFlight) then None else Some(data)
      ensures since == old(since)[data.docId := if launch.None? then old(since)[data.docId] + [data] else []]
    {
      var doc := data.docId;
      if doc in inFlight {
        pending := pending[doc := data];
        since := since[doc := since[doc] + [data]];
        launch := None;
      } else {
        inFlight := inFlight[doc := data.revision];
        since := since[doc := []];
        launch := Some(data);
      }
    }

    /** The last request made since the finished write started is written next; without one the document is idle. */
    method Finished(doc: DocId, revision: Revision) returns (launch: Option<Request>)
      requires Valid()
      modifies this
      ensures Valid() && (View(), launch) == OnResult(old(View()), doc)
      ensures launch == if doc in old(since) then LastOf(old(since)[doc]) else None
      ensures since == if launch.Some? then old(since)[doc := []] else old(since) - {doc}
      ensures doc in inFlight <==> launch.Some?
    {
      ghost var before := inFlight;
      inFlight := inFlight - {doc};
      if doc in pending {
        var data := pending[doc];
        pending := pending - {doc};
        inFlight := inFlight[doc := data.revision];
        assert inFlight == before[doc := data.revision];
        since := since[doc := []];
        launch := Some(data);
      } else {
        since := since - {doc};
        launch := None;
      }
    }
  }

  /** A buffer as far as saving is concerned. */
  datatype Doc = Doc(revision: Revision, text: Text, dirty: bool)

  /** What a finished write does to the buffer it was made from. */
  ghost function Completed(doc: Doc, current: Epoch, revision: Revision, success: bool, epoch: Epoch): Doc {
    if epoch == current && success && doc.revision == revision then doc.(dirty := false) else doc
  }

  method SaveCompleted(buffer: TextEdit.Buffer, current: Epoch, revision: Revision, path: Path, success: bool, epoch: Epoch)
      returns (compact: bool)
    modifies buffer
    ensures Doc(buffer.revision, buffer.rope, buffer.dirty)
         == Completed(old(Doc(buffer.revision, buffer.rope, buffer.dirty)), current, revision, success, epoch)
    ensures compact <==> epoch == current && success && buffer.revision == revision
    ensures buffer.pathState == if compact then TextEdit.Saved(path) else old(buffer.pathState)
  {
    compact := false;
    if epoch != current {
      return;
    }
    if success && buffer.revision == revision {
      buffer.MarkClean(revision);
      buffer.pathState := TextEdit.Saved(path);
      compact := true;
    }
  }

  // ---------- documents, requests and running writes together ----------

  datatype System = System(
    epoch: Epoch,
    docs: map<DocId, Doc>,
    queue: Queue,
    requested: seq<Request>,  // every request ever made, in order
    launched: seq<Request>,   // every write ever started, in order
    running: seq<Request>,    // writes started whose result is still to come
    cleaner: map<DocId, Request>)  // the write that last cleaned a buffer, until it is edited

  datatype Event =
    | Open(doc: DocId, revision: Revision, text: Text, dirty: bool)
    | Edited(doc: DocId, text: Text)
    | Save(doc: DocId, path: Path)
    | Result(write: nat, success: bool)

  ghost function Initial(epoch: Epoch): System {
    System(epoch, map[], Queue(map[], map[]), [], [], [], map[])
  }

  ghost function Launch(s: System, write: Option<Request>): System {
    if write.None? then s
    else s.(launched := s.launched + [write.value], running := s.running + [write.value])
  }

  /** Document ids are never used twice. */
  ghost predicate Fresh(s: System, doc: DocId) {
    doc !in s.docs && forall i | 0 <= i < |s.requested| :: s.requested[i].docId != doc
  }

  /** A request for a document without a buffer carries revision 0 and no text. */
  ghost function RequestFor(s: System, doc: DocId, path: Path): Request {
    if doc in s.docs then Request(s.epoch, doc, s.docs[doc].revision, path, s.docs[doc].text)
    else Request(s.epoch, doc, 0, path, [])
  }

  ghost function Without<T>(xs: seq<T>, i: nat): seq<T>
    requires i < |xs|
  {
    xs[..i] + xs[i + 1..]
  }

  ghost function Step(s: System, e: Event): System {
    match e
    case Open(doc, revision, text, dirty) =>
      if Fresh(s, doc) then s.(docs := s.docs[doc := Doc(revision, text, dirty)]) else s
    case Edited(doc, text) =>
      if doc in s.docs then
        s.(docs := s.docs[doc := Doc(s.docs[doc].revision + 1, text, true)], cleaner := s.cleaner - {doc})
      else s
    case Save(doc, path) =>
      var r := RequestFor(s, doc, path);
      var (queue, write) := OnRequest(s.queue, r);
      Launch(s.(queue := queue, requested := s.requested + [r]), write)
    case Result(write, success) =>
      if write < |s.running| then Finish(s, write, success) else s
  }

  ghost function Finish(s: System, write: nat, success: bool): System
    requires write < |s.running|
  {
    var r := s.running[write];
    var s1 := s.(running := Without(s.running, write));
    var s2 :=
      if r.docId !in s.docs then s1
      else
        var doc := Completed(s.docs[r.docId], s.epoch, r.revision, success, r.epoch);
        var cleans := s.epoch == r.epoch && success && s.docs[r.docId].revision == r.revision;
        s1.(docs := s.docs[r.docId := doc],
            cleaner := if cleans then s.cleaner[r.docId := r] else s.cleaner);
    var (queue, next) := OnResult(s.queue, r.docId);
    Launch(s2.(queue := queue), next)
  }

  ghost function Run(s: System, events: seq<Event>): System
    decreases |events|
  {
    if events == [] then s else Run(Step(s, events[0]), events[1..])
  }

  // ---------- requests of one document ----------

  ghost function Of(rs: seq<Request>, doc: DocId): seq<Request> {
    if rs == [] then []
    else
      var last := rs[|rs| - 1];
      if last.docId == doc then Of(rs[..|rs| - 1], doc) + [last] else Of(rs[..|rs| - 1], doc)
  }

  lemma OfSnoc(rs: seq<Request>, r: Request, doc: DocId)
    ensures Of(rs + [r], doc) == if r.docId == doc then Of(rs, doc) + [r] else Of(rs, doc)
  {
    assert (rs + [r])[..|rs|] == rs;
  }

  lemma {:induction false} OfMember(rs: seq<Request>, i: nat)
    requires i < |rs|
    ensures Of(rs, rs[i].docId) != []
  {
    if i < |rs| - 1 {
      OfMember(rs[..|rs| - 1], i);
    }
  }

  lemma {:induction false} OfWithout(rs: seq<Request>, i: nat, doc: DocId)
    requires i < |rs|
    ensures |Of(Without(rs, i), doc)| == |Of(rs, doc)| - if rs[i].docId == doc then 1 else 0
    decreases |rs|
  {
    var n := |rs| - 1;
    if i == n {
      assert Without(rs, i) == rs[..n];
    } else {
      OfWithout(rs[..n], i, doc);
      assert Without(rs, i) == Without(rs[..n], i) + [rs[n]];
      OfSnoc(Without(rs[..n], i), rs[n], doc);
    }
  }

  /** `a` is left of `b` when some of its elements are crossed out. */
  ghost predicate Subsequence<T>(a: seq<T>, b: seq<T>) {
    a == [] || (b != [] &&
      (Subsequence(a, b[..|b| - 1])
       || (a[|a| - 1] == b[|b| - 1] && Subsequence(a[..|a| - 1], b[..|b| - 1]))))
  }

  lemma SubsequenceSnoc<T>(a: seq<T>, b: seq<T>, x: T)
    requires Subsequence(a, b)
    ensures Subsequence(a, b + [x]) && Subsequence(a + [x], b + [x])
  {
    assert (b + [x])[..|b|] == b && (a + [x])[..|a|] == a;
  }

  lemma {:induction false} SubsequenceInit<T>(a: seq<T>, x: T, b: seq<T>)
    requires Subsequence(a + [x], b)
    ensures Subsequence(a, b)
    decreases |b|
  {
    assert (a + [x])[..|a|] == a;
    if Subsequence(a + [x], b[..|b| - 1]) {
      SubsequenceInit(a, x, b[..|b| - 1]);
    }
  }

  ghost function Waiting(s: System, doc: DocId): seq<Request> {
    if doc in s.queue.pending then [s.queue.pending[doc]] else []
  }

  ghost function LastOf(rs: seq<Request>): Option<Request> {
    if rs == [] then None else Some(rs[|rs| - 1])
  }

  /** What holds between requests, launches and running writes of one document. */
  ghost predicate InOrder(s: System, doc: DocId) {
    && (doc in s.queue.pending ==> doc in s.queue.inFlight && s.queue.pending[doc].docId == doc)
    && |Of(s.running, doc)| == (if doc in s.queue.inFlight then 1 else 0)
    && Subsequence(Of(s.launched, doc) + Waiting(s, doc), Of(s.requested, doc))
    && LastOf(Of(s.launched, doc) + Waiting(s, doc)) == LastOf(Of(s.requested, doc))
  }

  lemma SaveKeepsOrder(s: System, saved: DocId, path: Path, doc: DocId)
    requires InOrder(s, doc)
    ensures InOrder(Step(s, Save(saved, path)), doc)
  {
    hide Of, Subsequence;
    var r := RequestFor(s, saved, path);
    OfSnoc(s.requested, r, doc);
    OfSnoc(s.launched, r, doc);
    OfSnoc(s.running, r, doc);
    var launched := Of(s.launched, doc);
    if saved == doc {
      if doc in s.queue.pending {
        SubsequenceInit(launched, s.queue.pending[doc], Of(s.requested, doc));
      } else {
        assert launched + [] == launched;
      }
      SubsequenceSnoc(launched, Of(s.requested, doc), r);
      assert launched + [r] + [] == launched + [r];
    }
  }

  lemma ResultKeepsOrder(s: System, write: nat, success: bool, doc: DocId)
    requires InOrder(s, doc) && PendingFiled(s) && write < |s.running|
    ensures InOrder(Finish(s, write, success), doc)
  {
    hide Of, Subsequence, Without, Completed, InOrder;
    var r := s.running[write];
    OfWithout(s.running, write, doc);
    OfMember(s.running, write);
    if r.docId in s.queue.pending {
      var next := s.queue.pending[r.docId];
      OfSnoc(Without(s.running, write), next, doc);
      OfSnoc(s.launched, next, doc);
    }
    FinishKeepsOrder(s, Finish(s, write, success), r.docId, doc);
  }

  /** The same in terms of what one document sees of it. */
  lemma FinishKeepsOrder(s: System, s': System, done: DocId, doc: DocId)
    requires InOrder(s, doc) && s'.requested == s.requested && s'.queue == OnResult(s.queue, done).0
    requires var next := if done == doc then Waiting(s, doc) else [];
             && Of(s'.launched, doc) == Of(s.launched, doc) + next
             && |Of(s'.running, doc)| == |Of(s.running, doc)| - (if done == doc then 1 else 0) + |next|
    ensures InOrder(s', doc)
  {
    hide Of, Subsequence;
    assert Of(s.launched, doc) + Waiting(s, doc) + [] == Of(s.launched, doc) + Waiting(s, doc);
    assert Of(s.launched, doc) + [] == Of(s.launched, doc);
  }

  lemma StepKeepsOrder(s: System, e: Event, doc: DocId)
    requires InOrder(s, doc) && PendingFiled(s)
    ensures InOrder(Step(s, e), doc) && PendingFiled(Step(s, e))
  {
    hide Of, Subsequence;
    match e
    case Save(saved, path) => SaveKeepsOrder(s, saved, path, doc);
    case Result(write, success) =>
      if write < |s.running| {
        ResultKeepsOrder(s, write, success, doc);
      }
    case other =>
  }

  ghost predicate PendingFiled(s: System) {
    forall d | d in s.queue.pending :: s.queue.pending[d].docId == d
  }

  lemma {:induction false} RunKeepsOrder(s: System, events: seq<Event>, doc: DocId)
    requires InOrder(s, doc) && PendingFiled(s)
    ensures InOrder(Run(s, events), doc)
    decreases |events|
  {
    if events != [] {
      StepKeepsOrder(s, events[0], doc);
      RunKeepsOrder(Step(s, events[0]), events[1..], doc);
    }
  }

  /**
   In every run at most one write per document is running, writes start in the order they were
   asked for, and once none is running the last one started is the last one asked for.
   */
  lemma WritesFollowRequests(epoch: Epoch, events: seq<Event>, doc: DocId)
    ensures var s := Run(Initial(epoch), events);
            && |Of(s.running, doc)| <= 1
            && Subsequence(Of(s.launched, doc), Of(s.requested, doc))
            && (Of(s.running, doc) == [] ==> LastOf(Of(s.launched, doc)) == LastOf(Of(s.requested, doc)))
  {
    RunKeepsOrder(Initial(epoch), events, doc);
    var s := Run(Initial(epoch), events);
    var launched := Of(s.launched, doc);
    if doc in s.queue.pending {
      SubsequenceInit(launched, s.queue.pending[doc], Of(s.requested, doc));
    } else {
      assert launched + [] == launched;
    }
  }

  // ---------- what a clean buffer means ----------

  /** A request made at the current revision of a buffer carries the buffer's text. */
  ghost predicate TellsText(s: System, r: Request) {
    r.docId in s.docs ==>
      r.revision <= s.docs[r.docId].revision
      && (r.revision == s.docs[r.docId].revision ==> r.content == s.docs[r.docId].text)
  }

  ghost predicate Truthful(s: System) {
    && (forall i | 0 <= i < |s.requested| :: TellsText(s, s.requested[i]))
    && (forall i | 0 <= i < |s.running| :: s.running[i] in s.requested)
    && (forall d | d in s.queue.pending :: s.queue.pending[d] in s.requested)
    && (forall d | d in s.cleaner ::
          && d in s.docs && !s.docs[d].dirty && s.cleaner[d].docId == d
          && s.cleaner[d].content == s.docs[d].text && s.cleaner[d] in s.requested)
  }

  lemma EditKeepsTruth(s: System, e: Event)
    requires Truthful(s) && (e.Open? || e.Edited?)
    ensures Truthful(Step(s, e))
  {
    var s' := Step(s, e);
    forall i | 0 <= i < |s'.requested| ensures TellsText(s', s'.requested[i]) {
      assert TellsText(s, s.requested[i]);
    }
  }

  lemma SaveKeepsTruth(s: System, doc: DocId, path: Path)
    requires Truthful(s)
    ensures Truthful(Step(s, Save(doc, path)))
  {
    var r, s' := RequestFor(s, doc, path), Step(s, Save(doc, path));
    assert s'.requested == s.requested + [r];
    forall i | 0 <= i < |s'.requested| ensures TellsText(s', s'.requested[i]) {
      if i < |s.requested| {
        assert TellsText(s, s.requested[i]) && s'.requested[i] == s.requested[i];
      }
    }
    assert forall q | q in s.requested :: q in s'.requested;
    assert s'.requested[|s.requested|] == r;
  }

  lemma ResultKeepsTruth(s: System, write: nat, success: bool)
    requires Truthful(s) && write < |s.running|
    ensures Truthful(Finish(s, write, success))
  {
    var r, s' := s.running[write], Finish(s, write, success);
    assert r in s.requested;
    assert TellsText(s, r);
    forall i | 0 <= i < |s'.requested| ensures TellsText(s', s'.requested[i]) {
      assert TellsText(s, s.requested[i]);
    }
  }

  lemma StepKeepsTruth(s: System, e: Event)
    requires Truthful(s)
    ensures Truthful(Step(s, e))
  {
    hide Truthful;
    match e
    case Save(doc, path) => SaveKeepsTruth(s, doc, path);
    case Result(write, success) =>
      if write < |s.running| {
        ResultKeepsTruth(s, write, success);
      }
    case other => EditKeepsTruth(s, e);
  }

  /** A buffer that a save has cleaned and nobody has edited since holds exactly the text written. */
  lemma {:induction false} CleanMeansWritten(s: System, events: seq<Event>)
    requires Truthful(s)
    ensures Truthful(Run(s, events))
    ensures var end := Run(s, events);
            forall d | d in end.cleaner :: !end.docs[d].dirty && end.cleaner[d].content == end.docs[d].text
    decreases |events|
  {
    if events != [] {
      StepKeepsTruth(s, events[0]);
      CleanMeansWritten(Step(s, events[0]), events[1..]);
    }
  }

  /** The flag falls only at the result of a successful write of the text the buffer still holds. */
  lemma OnlyMatchingWriteCleans(s: System, e: Event, doc: DocId)
    requires Truthful(s) && doc in s.docs && s.docs[doc].dirty && !Step(s, e).docs[doc].dirty
    ensures e.Result? && e.success && e.write < |s.running|
    ensures s.running[e.write].docId == doc && s.running[e.write].content == s.docs[doc].text
    ensures Step(s, e).docs[doc] == s.docs[doc].(dirty := false)
  {
    if e.Result? && e.write < |s.running| {
      assert TellsText(s, s.running[e.write]);
    }
  }

  /** And there it does fall: a result cleans its buffer exactly if it is a success for the current revision and epoch. */
  lemma MatchingWriteCleans(s: System, write: nat, success: bool)
    requires write < |s.running| && s.running[write].docId in s.docs
    ensures var r, s' := s.running[write], Step(s, Result(write, success));
            var doc := s.docs[r.docId];
            && s'.docs[r.docId] == doc.(dirty := doc.dirty && !(success && r.epoch == s.epoch && r.revision == doc.revision))
            && s'.docs.Keys == s.docs.Keys
            && forall d | d in s.docs && d != r.docId :: s'.docs[d] == s.docs[d]
  {
  }

  /** A request carries revision and text of its buffer at that moment, and an edit makes both new. */
  lemma RequestsAndEdits(s: System, doc: DocId, path: Path, text: Text)
    requires doc in s.docs
    ensures Step(s, Save(doc, path)).requested
         == s.requested + [Request(s.epoch, doc, s.docs[doc].revision, path, s.docs[doc].text)]
    ensures Step(s, Edited(doc, text)).docs[doc] == Doc(s.docs[doc].revision + 1, text, true)
  {
  }
}
