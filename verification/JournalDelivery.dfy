/**
 The application's side of the journal: a bounded command queue to the worker, and what is kept
 back when the queue is full. Module Journal says what the worker makes of the commands.
 */
module JournalDelivery {
  import opened Checkpoint
  import JournalFile
  import J = Journal

  const CAPACITY := 16

  // ---------- the outbox ----------

  type Retained = map<DocId, Payload>

  /** What is kept back, and the channel: connected as long as the worker listens. */
  datatype Box = Box(
    checkpoints: Retained, compactions: map<DocId, Revision>, queue: seq<J.Command>, connected: bool)
  {
    ghost predicate Refuses() { |queue| >= CAPACITY || !connected }

    /** Checkpoints are retained under their own document. */
    ghost predicate Filed() {
      forall id | id in checkpoints :: checkpoints[id].docId == id
    }

    /** The checkpoint of that revision, or a newer one, is retained or queued. */
    ghost predicate Holds(id: DocId, rev: Revision) {
      || (id in checkpoints && checkpoints[id].revision >= rev)
      || exists i | 0 <= i < |queue| :: Submits(queue[i], id, rev)
    }

    ghost predicate HoldsCompaction(id: DocId, rev: Revision) {
      || (id in compactions && compactions[id] >= rev)
      || exists i | 0 <= i < |queue| :: Compacts(queue[i], id, rev)
    }

    ghost function Post(command: J.Command): Box { this.(queue := queue + [command]) }

    ghost function Offer(p: Payload): Box {
      if !Refuses() then Post(J.Submit(p)) else this.(checkpoints := Retain(checkpoints, p))
    }

    ghost function Compact(id: DocId, rev: Revision): Box {
      if !Refuses() then Post(J.AckSave(id, rev))
      else if id in compactions && rev <= compactions[id] then this
      else this.(compactions := compactions[id := rev])
    }

    ghost function Retry(id: DocId): Box {
      if id !in checkpoints || Refuses() then this
      else this.(checkpoints := checkpoints - {id}).Post(J.Submit(checkpoints[id]))
    }

    ghost function RetryCompact(id: DocId): Box {
      if id !in compactions || Refuses() then this
      else this.(compactions := compactions - {id}).Post(J.AckSave(id, compactions[id]))
    }

    ghost function RetryAll(order: seq<DocId>): Box
      decreases |order|
    {
      if order == [] then this else RetryAll(order[..|order| - 1]).Retry(order[|order| - 1])
    }

    /** An ack retires what is retained of the same document, unless that is newer. */
    ghost function Acked(ack: J.Ack, epoch: Epoch): Box {
      if ack.epoch == epoch && ack.docId in checkpoints && checkpoints[ack.docId].revision <= ack.revision then
        this.(checkpoints := checkpoints - {ack.docId})
      else this
    }
  }

  ghost function Retain(kept: Retained, p: Payload): Retained {
    if p.docId in kept && p.revision <= kept[p.docId].revision then kept else kept[p.docId := p]
  }

  lemma OfferHolds(b: Box, p: Payload)
    ensures b.Offer(p).Holds(p.docId, p.revision)
    ensures forall id, rev | b.Holds(id, rev) :: b.Offer(p).Holds(id, rev)
  {
    if !b.Refuses() {
      assert Submits(b.Offer(p).queue[|b.queue|], p.docId, p.revision);
    }
    forall id, rev | b.Holds(id, rev) ensures b.Offer(p).Holds(id, rev) {
      if i :| 0 <= i < |b.queue| && Submits(b.queue[i], id, rev) {
        assert b.Offer(p).queue[i] == b.queue[i];
      }
    }
  }

  lemma CompactHolds(b: Box, id: DocId, rev: Revision)
    ensures b.Compact(id, rev).HoldsCompaction(id, rev)
    ensures forall d, r | b.HoldsCompaction(d, r) :: b.Compact(id, rev).HoldsCompaction(d, r)
  {
    var b' := b.Compact(id, rev);
    if !b.Refuses() {
      assert Compacts(b'.queue[|b.queue|], id, rev);
    }
    forall d, r | b.HoldsCompaction(d, r) ensures b'.HoldsCompaction(d, r) {
      if i :| 0 <= i < |b.queue| && Compacts(b.queue[i], d, r) {
        assert b'.queue[i] == b.queue[i];
      }
    }
  }

  lemma RetryFiled(b: Box, d: DocId)
    requires b.Filed()
    ensures b.Retry(d).Filed()
  {
  }

  lemma RetryHolds(b: Box, d: DocId, id: DocId, rev: Revision)
    requires b.Holds(id, rev) && b.Filed()
    ensures b.Retry(d).Holds(id, rev)
  {
    var b' := b.Retry(d);
    if i :| 0 <= i < |b.queue| && Submits(b.queue[i], id, rev) {
      assert b'.queue[i] == b.queue[i];
    } else if d == id && !b.Refuses() {
      assert Submits(b'.queue[|b.queue|], id, rev);
    }
  }

  lemma {:induction false} RetryAllHolds(b: Box, order: seq<DocId>)
    requires b.Filed()
    ensures var b' := b.RetryAll(order);
            b'.Filed() && forall id, rev | b.Holds(id, rev) :: b'.Holds(id, rev)
    decreases |order|
  {
    if order != [] {
      var last := |order| - 1;
      RetryAllHolds(b, order[..last]);
      var before := b.RetryAll(order[..last]);
      RetryFiled(before, order[last]);
      forall id, rev | b.Holds(id, rev) ensures b.RetryAll(order).Holds(id, rev) {
        RetryHolds(before, order[last], id, rev);
      }
    }
  }

  class JournalOutbox {
    var pendingCheckpoints: Retained
    var pendingCompactions: map<DocId, Revision>
    var queue: seq<J.Command>
    var connected: bool

    ghost predicate Valid()
      reads this
    {
      View().Filed()
    }

    ghost function View(): Box
      reads this
    {
      Box(pendingCheckpoints, pendingCompactions, queue, connected)
    }

    constructor ()
      ensures Valid() && View() == Box(map[], map[], [], true)
    {
      pendingCheckpoints, pendingCompactions, queue, connected := map[], map[], [], true;
    }

    method TrySend(command: J.Command) returns (ok: bool)
      modifies this`queue
      ensures ok <==> connected && old(|queue|) < 16
      ensures View() == if ok then old(View()).Post(command) else old(View())
    {
      ok := connected && |queue| < CAPACITY;
      if ok {
        queue := queue + [command];
      }
    }

    /** The checkpoint is in hand afterwards, and so is everything that was. */
    method TryCheckpoint(p: Payload)
      requires Valid()
      modifies this
      ensures Valid() && View() == old(View()).Offer(p)
      ensures View().Holds(p.docId, p.revision)
      ensures !old(View()).Refuses() ==> queue == old(queue) + [J.Submit(p)] && pendingCheckpoints == old(pendingCheckpoints)
      ensures old(View()).Refuses() ==>
        && queue == old(queue) && pendingCheckpoints.Keys == old(pendingCheckpoints).Keys + {p.docId}
        && pendingCheckpoints[p.docId] ==
             (if p.docId in old(pendingCheckpoints) && old(pendingCheckpoints)[p.docId].revision >= p.revision then
                old(pendingCheckpoints)[p.docId] else p)
        && forall id | id in old(pendingCheckpoints) && id != p.docId :: pendingCheckpoints[id] == old(pendingCheckpoints)[id]
      ensures forall id: DocId, rev: Revision | old(View()).Holds(id, rev) :: View().Holds(id, rev)
    {
      OfferHolds(View(), p);
      var ok := TrySend(J.Submit(p));
      if !ok && !(p.docId in pendingCheckpoints && p.revision <= pendingCheckpoints[p.docId].revision) {
        pendingCheckpoints := pendingCheckpoints[p.docId := p];
      }
    }

    method CompactAfterSave(id: DocId, rev: Revision)
      requires Valid()
      modifies this
      ensures Valid() && View() == old(View()).Compact(id, rev)
      ensures View().HoldsCompaction(id, rev)
      ensures forall d: DocId, r: Revision | old(View()).HoldsCompaction(d, r) :: View().HoldsCompaction(d, r)
    {
      CompactHolds(View(), id, rev);
      var ok := TrySend(J.AckSave(id, rev));
      if !ok && !(id in pendingCompactions && rev <= pendingCompactions[id]) {
        pendingCompactions := pendingCompactions[id := rev];
      }
    }

    /** Only what the ack covers may go; afterwards nothing it covers is retained. */
    method ApplyJournalAck(ack: J.Ack, epoch: Epoch)
      requires Valid()
      modifies this
      ensures Valid() && View() == old(View()).Acked(ack, epoch)
      ensures forall id: DocId, rev: Revision | old(View()).Holds(id, rev) && (id != ack.docId || rev > ack.revision) ::
        View().Holds(id, rev)
      ensures ack.epoch == epoch && ack.docId in pendingCheckpoints ==>
        pendingCheckpoints[ack.docId].revision > ack.revision
    {
      if ack.epoch != epoch {
        return;
      }
      if ack.docId in pendingCheckpoints && pendingCheckpoints[ack.docId].revision <= ack.revision {
        pendingCheckpoints := pendingCheckpoints - {ack.docId};
      }
    }

    /** Offer every retained checkpoint once more, in whatever order the map yields them. */
    method RetryPendingCheckpoints() returns (ghost order: seq<DocId>)
      requires Valid()
      modifies this
      ensures Valid()
      ensures forall id :: id in order <==> id in old(pendingCheckpoints)
      ensures View() == old(View()).RetryAll(order)
      ensures forall id: DocId, rev: Revision | old(View()).Holds(id, rev) :: View().Holds(id, rev)
    {
      var drained, still := pendingCheckpoints, map[];
      var left := drained.Keys;
      order := [];
      ghost var before := View();
      while left != {}
        invariant left <= drained.Keys && still.Keys !! left
        invariant pendingCompactions == old(pendingCompactions)
        invariant forall id :: id in order <==> id in drained && id !in left
        invariant forall id | id in still :: id in drained && still[id] == drained[id]
        invariant before == old(View()).RetryAll(order)
        invariant before.queue == queue && before.compactions == pendingCompactions && before.connected == connected
        invariant before.checkpoints.Keys == left + still.Keys
        invariant forall id | id in before.checkpoints :: before.checkpoints[id] == drained[id]
        decreases left
      {
        var id :| id in left;
        var p := drained[id];
        assert (order + [id])[..|order|] == order;
        var ok := TrySend(J.Submit(p));
        if !ok {
          still := still[id := p];
        }
        order := order + [id];
        left := left - {id};
        before := before.Retry(id);
      }
      pendingCheckpoints := still;
      assert still == before.checkpoints;
      RetryAllHolds(old(View()), order);
    }
  }

  // ---------- application, queue and worker together ----------

  datatype Link = Link(
    box: Box, worker: J.Worker, read: nat,  // acks read so far
    seed: J.Worker,                         // the worker at the start
    asked: seq<Payload>,                    // checkpoints handed to the outbox
    saved: seq<(DocId, Revision)>,          // compactions asked for
    sent: seq<J.Command>,                   // commands that entered the queue
    turns: seq<J.Turn>)                     // what the worker has done

  /** A blocking submission at shutdown is a retry that waited for room. */
  datatype Event =
    | Ask(payload: Payload)
    | Saved(id: DocId, rev: Revision)
    | Retry(id: DocId)
    | RetryCompact(id: DocId)
    | Work(outcome: J.Persist)
    | ReadAck
    | Disconnect

  ghost function Moved(s: Link, box: Box): Link {
    s.(box := box, sent := s.sent + box.queue[Least(|s.box.queue|, |box.queue|)..])
  }

  function Least(a: nat, b: nat): nat { if a <= b then a else b }

  ghost function Step(s: Link, e: Event, epoch: Epoch): Link {
    match e
    case Ask(p) => Moved(s.(asked := s.asked + [p]), s.box.Offer(p))
    case Saved(id, rev) => Moved(s.(saved := s.saved + [(id, rev)]), s.box.Compact(id, rev))
    case Retry(id) => Moved(s, s.box.Retry(id))
    case RetryCompact(id) => Moved(s, s.box.RetryCompact(id))
    case Work(outcome) =>
      if s.box.queue == [] || !s.box.connected then s
      else
        var command := s.box.queue[0];
        s.(box := s.box.(queue := s.box.queue[1..]), worker := J.Step(s.worker, command, outcome),
           turns := s.turns + [(command, outcome)])
    case ReadAck =>
      if s.read < |s.worker.acks| then s.(box := s.box.Acked(s.worker.acks[s.read], epoch), read := s.read + 1)
      else s
    case Disconnect => s.(box := s.box.(connected := false))
  }

  ghost function Run(s: Link, events: seq<Event>, epoch: Epoch): Link
    decreases |events|
  {
    if events == [] then s else Run(Step(s, events[0], epoch), events[1..], epoch)
  }

  ghost function Start(seed: J.Worker): Link {
    Link(Box(map[], map[], [], true), seed, 0, seed, [], [], [], [])
  }

  // ---------- nothing asked for is lost ----------

  ghost predicate Submits(command: J.Command, id: DocId, rev: Revision) {
    command.Submit? && command.payload.docId == id && command.payload.revision >= rev
  }

  ghost predicate Sent(s: Link, id: DocId, rev: Revision) {
    exists i | 0 <= i < |s.sent| :: Submits(s.sent[i], id, rev)
  }

  /** The checkpoint or a newer one of its document is retained, or has entered the queue. */
  ghost predicate Reached(s: Link, p: Payload) {
    || (p.docId in s.box.checkpoints && s.box.checkpoints[p.docId].revision >= p.revision)
    || Sent(s, p.docId, p.revision)
  }

  ghost predicate CompactReached(s: Link, save: (DocId, Revision)) {
    || (save.0 in s.box.compactions && s.box.compactions[save.0] >= save.1)
    || exists i | 0 <= i < |s.sent| :: Compacts(s.sent[i], save.0, save.1)
  }

  ghost predicate Compacts(command: J.Command, id: DocId, rev: Revision) {
    command.AckSave? && command.id == id && command.rev >= rev
  }

  /** Queue, histories and worker belong together. */
  ghost predicate Linked(s: Link) {
    && |s.box.queue| <= CAPACITY && |s.turns| + |s.box.queue| == |s.sent|
    && (forall i | 0 <= i < |s.turns| :: s.turns[i].0 == s.sent[i])
    && (forall i | 0 <= i < |s.box.queue| :: s.box.queue[i] == s.sent[|s.turns| + i])
    && (forall i | 0 <= i < |s.worker.acks| :: Sent(s, s.worker.acks[i].docId, s.worker.acks[i].revision))
    && s.box.Filed()
  }

  ghost predicate NothingLost(s: Link) {
    && (forall i | 0 <= i < |s.asked| :: Reached(s, s.asked[i]))
    && (forall i | 0 <= i < |s.saved| :: CompactReached(s, s.saved[i]))
  }

  /** What has entered the queue stays entered. */
  lemma SentStays(s: Link, s': Link, id: DocId, rev: Revision)
    requires s.sent <= s'.sent && Sent(s, id, rev)
    ensures Sent(s', id, rev)
  {
    var i :| 0 <= i < |s.sent| && Submits(s.sent[i], id, rev);
    assert s'.sent[i] == s.sent[i];
  }

  lemma PostKeepsLinked(s: Link, s': Link, command: J.Command)
    requires Linked(s) && !s.box.Refuses()
    requires s'.box.queue == s.box.queue + [command] && s'.sent == s.sent + [command]
    requires s'.turns == s.turns && s'.worker == s.worker
    requires s'.box.Filed()
    ensures Linked(s')
  {
    forall i | 0 <= i < |s'.worker.acks| ensures Sent(s', s'.worker.acks[i].docId, s'.worker.acks[i].revision) {
      SentStays(s, s', s.worker.acks[i].docId, s.worker.acks[i].revision);
    }
  }

  lemma WorkKeepsLinked(s: Link, outcome: J.Persist, epoch: Epoch)
    requires Linked(s)
    ensures Linked(Step(s, Work(outcome), epoch))
  {
    if s.box.queue != [] {
      var command, s' := s.box.queue[0], Step(s, Work(outcome), epoch);
      J.AckMeansDurable(s.worker, command, outcome);
      assert s.sent[|s.turns|] == command;
      forall i | 0 <= i < |s'.worker.acks| ensures Sent(s', s'.worker.acks[i].docId, s'.worker.acks[i].revision) {
        if i < |s.worker.acks| {
          assert s'.worker.acks[i] == s.worker.acks[i];
          SentStays(s, s', s.worker.acks[i].docId, s.worker.acks[i].revision);
        } else {
          assert Submits(s'.sent[|s.turns|], s'.worker.acks[i].docId, s'.worker.acks[i].revision);
        }
      }
    }
  }

  lemma StepKeepsLinked(s: Link, e: Event, epoch: Epoch)
    requires Linked(s)
    ensures Linked(Step(s, e, epoch)) && s.sent <= Step(s, e, epoch).sent
  {
    hide Sent, J.Step;
    var s' := Step(s, e, epoch);
    if e.Work? {
      WorkKeepsLinked(s, e.outcome, epoch);
    } else if |s'.box.queue| > |s.box.queue| {
      var command := s'.box.queue[|s.box.queue|];
      assert s'.box.queue == s.box.queue + [command];
      PostKeepsLinked(s, s', command);
    } else {
      assert s'.sent == s.sent;
      forall i | 0 <= i < |s'.worker.acks| ensures Sent(s', s'.worker.acks[i].docId, s'.worker.acks[i].revision) {
        SentStays(s, s', s.worker.acks[i].docId, s.worker.acks[i].revision);
      }
    }
  }

  lemma AckedWasSent(s: Link, k: nat, rev: Revision)
    requires Linked(s) && k < |s.worker.acks| && rev <= s.worker.acks[k].revision
    ensures Sent(s, s.worker.acks[k].docId, rev)
  {
    var i :| 0 <= i < |s.sent| && Submits(s.sent[i], s.worker.acks[k].docId, s.worker.acks[k].revision);
    assert Submits(s.sent[i], s.worker.acks[k].docId, rev);
  }

  lemma ReachedStays(s: Link, e: Event, epoch: Epoch, p: Payload)
    requires Linked(s) && Reached(s, p)
    ensures Reached(Step(s, e, epoch), p)
  {
    StepKeepsLinked(s, e, epoch);
    var s' := Step(s, e, epoch);
    if e.ReadAck? && s.read < |s.worker.acks| && s.worker.acks[s.read].docId == p.docId
       && p.revision <= s.worker.acks[s.read].revision {
      AckedWasSent(s, s.read, p.revision);
    }
    if Sent(s, p.docId, p.revision) {
      SentStays(s, s', p.docId, p.revision);
    } else if e.Retry? && e.id == p.docId && !s.box.Refuses() {
      assert Submits(s'.sent[|s.sent|], p.docId, p.revision);
    }
  }

  lemma CompactReachedStays(s: Link, e: Event, epoch: Epoch, save: (DocId, Revision))
    requires Linked(s) && CompactReached(s, save)
    ensures CompactReached(Step(s, e, epoch), save)
  {
    StepKeepsLinked(s, e, epoch);
    var s' := Step(s, e, epoch);
    if i :| 0 <= i < |s.sent| && Compacts(s.sent[i], save.0, save.1) {
      assert Compacts(s'.sent[i], save.0, save.1);
    } else if e.RetryCompact? && e.id == save.0 && !s.box.Refuses() {
      assert Compacts(s'.sent[|s.sent|], save.0, save.1);
    }
  }

  lemma StepLosesNothing(s: Link, e: Event, epoch: Epoch)
    requires Linked(s) && NothingLost(s)
    ensures NothingLost(Step(s, e, epoch))
  {
    var s' := Step(s, e, epoch);
    forall i | 0 <= i < |s'.asked| ensures Reached(s', s'.asked[i]) {
      if i < |s.asked| {
        ReachedStays(s, e, epoch, s.asked[i]);
      } else if !s.box.Refuses() {
        assert Submits(s'.sent[|s.sent|], e.payload.docId, e.payload.revision);
      }
    }
    forall i | 0 <= i < |s'.saved| ensures CompactReached(s', s'.saved[i]) {
      if i < |s.saved| {
        CompactReachedStays(s, e, epoch, s.saved[i]);
      } else if !s.box.Refuses() {
        assert Compacts(s'.sent[|s.sent|], e.id, e.rev);
      }
    }
  }

  /**
   However full the queue and whatever fails: every checkpoint handed to the outbox, or a newer
   one of its document, is retained or has entered the queue, and so for every compaction.
   */
  lemma {:induction false} NewestNeverLost(s: Link, events: seq<Event>, epoch: Epoch)
    requires Linked(s) && NothingLost(s)
    ensures Linked(Run(s, events, epoch)) && NothingLost(Run(s, events, epoch))
    decreases |events|
  {
    if events != [] {
      StepKeepsLinked(s, events[0], epoch);
      StepLosesNothing(s, events[0], epoch);
      NewestNeverLost(Step(s, events[0], epoch), events[1..], epoch);
    }
  }

  /** The worker has done exactly the commands that left the queue, in the order they entered it. */
  lemma {:induction false} WorkerFollowsQueue(s: Link, events: seq<Event>, epoch: Epoch)
    requires Linked(s) && s.worker == J.Run(s.seed, s.turns)
    ensures var end := Run(s, events, epoch); end.worker == J.Run(end.seed, end.turns) && end.seed == s.seed
    decreases |events|
  {
    if events != [] {
      StepKeepsLinked(s, events[0], epoch);
      if events[0].Work? && s.box.queue != [] {
        J.RunSnoc(s.seed, s.turns, (s.box.queue[0], events[0].outcome));
      }
      WorkerFollowsQueue(Step(s, events[0], epoch), events[1..], epoch);
    }
  }

  // ---------- nothing is made up ----------

  /** What is retained or was sent is one of the very payloads and compactions handed over. */
  ghost predicate NothingMadeUp(s: Link) {
    BoxHandedOver(s) && forall i | 0 <= i < |s.sent| :: HandedOver(s, s.sent[i])
  }

  ghost predicate BoxHandedOver(s: Link) {
    && (forall id | id in s.box.checkpoints :: s.box.checkpoints[id] in s.asked)
    && (forall id | id in s.box.compactions :: (id, s.box.compactions[id]) in s.saved)
  }

  ghost predicate HandedOver(s: Link, command: J.Command) {
    match command
    case Submit(p) => p in s.asked
    case AckSave(id, rev) => (id, rev) in s.saved
    case Flush => false
  }

  lemma StepMakesNothingUp(s: Link, e: Event, epoch: Epoch)
    requires Linked(s) && NothingMadeUp(s)
    ensures NothingMadeUp(Step(s, e, epoch))
  {
    hide J.Step, HandedOver, BoxHandedOver;
    StepKeepsLinked(s, e, epoch);
    BoxStaysHandedOver(s, e, epoch);
    var s' := Step(s, e, epoch);
    forall i | 0 <= i < |s'.sent| ensures HandedOver(s', s'.sent[i]) {
      if i < |s.sent| {
        assert HandedOver(s, s.sent[i]);
        StaysHandedOver(s, e, epoch, s.sent[i]);
      } else {
        PostedIsHandedOver(s, e, epoch);
      }
    }
  }

  lemma BoxStaysHandedOver(s: Link, e: Event, epoch: Epoch)
    requires BoxHandedOver(s)
    ensures BoxHandedOver(Step(s, e, epoch))
  {
    hide J.Step;
    assert forall p, q | p in s.asked :: p in s.asked + [q];
  }

  lemma StaysHandedOver(s: Link, e: Event, epoch: Epoch, command: J.Command)
    requires HandedOver(s, command)
    ensures HandedOver(Step(s, e, epoch), command)
  {
    hide J.Step;
  }

  lemma PostedIsHandedOver(s: Link, e: Event, epoch: Epoch)
    requires BoxHandedOver(s)
    ensures var s' := Step(s, e, epoch);
            |s'.sent| <= |s.sent| + 1 && (|s'.sent| == |s.sent| + 1 ==> HandedOver(s', s'.sent[|s.sent|]))
  {
    hide J.Step;
  }

  /** Over every run, with its text as it was handed over. */
  lemma {:induction false} RunMakesNothingUp(s: Link, events: seq<Event>, epoch: Epoch)
    requires Linked(s) && NothingMadeUp(s)
    ensures NothingMadeUp(Run(s, events, epoch))
    decreases |events|
  {
    if events != [] {
      StepKeepsLinked(s, events[0], epoch);
      StepMakesNothingUp(s, events[0], epoch);
      RunMakesNothingUp(Step(s, events[0], epoch), events[1..], epoch);
    }
  }

  // ---------- order ----------

  /** The commands submit nondecreasing revisions of every document. */
  ghost predicate InOrder(sent: seq<J.Command>) {
    forall i, j | 0 <= i < j < |sent| && sent[i].Submit? ::
      Submits(sent[j], sent[i].payload.docId, 0) ==> sent[j].payload.revision >= sent[i].payload.revision
  }

  /** No newer checkpoint of the same document has entered the queue before. */
  ghost predicate Newest(s: Link, p: Payload) {
    forall i | 0 <= i < |s.sent| :: !Submits(s.sent[i], p.docId, p.revision + 1)
  }

  /** A retry that puts an older checkpoint behind a newer one; the retry does not look. */
  ghost predicate StaleRetry(s: Link, e: Event) {
    && e.Retry? && e.id in s.box.checkpoints && !s.box.Refuses()
    && !Newest(s, s.box.checkpoints[e.id])
  }

  ghost predicate NoStaleRetry(s: Link, events: seq<Event>, epoch: Epoch)
    decreases |events|
  {
    events != [] ==> !StaleRetry(s, events[0]) && NoStaleRetry(Step(s, events[0], epoch), events[1..], epoch)
  }

  /** A buffer's revisions only grow, so a new checkpoint is never behind what was sent. */
  ghost predicate EditsForward(s: Link, events: seq<Event>, epoch: Epoch)
    decreases |events|
  {
    events != [] ==>
      (events[0].Ask? ==> Newest(s, events[0].payload)) && EditsForward(Step(s, events[0], epoch), events[1..], epoch)
  }

  lemma PostInOrder(s: Link, s': Link, p: Payload)
    requires InOrder(s.sent) && s'.sent == s.sent + [J.Submit(p)]
    ensures InOrder(s'.sent) <==> Newest(s, p)
  {
    if i :| 0 <= i < |s.sent| && Submits(s.sent[i], p.docId, p.revision + 1) {
      assert s'.sent[i] == s.sent[i] && Submits(s'.sent[|s.sent|], p.docId, 0);
    }
  }

  lemma StepInOrder(s: Link, e: Event, epoch: Epoch)
    requires Linked(s) && InOrder(s.sent) && (e.Ask? ==> Newest(s, e.payload))
    ensures InOrder(Step(s, e, epoch).sent) <==> !StaleRetry(s, e)
  {
    hide J.Step;
    StepKeepsLinked(s, e, epoch);
    var s' := Step(s, e, epoch);
    if e.Ask? && !s.box.Refuses() {
      PostInOrder(s, s', e.payload);
    } else if e.Retry? && e.id in s.box.checkpoints && !s.box.Refuses() {
      PostInOrder(s, s', s.box.checkpoints[e.id]);
    }
  }

  lemma {:induction false} SentGrows(s: Link, events: seq<Event>, epoch: Epoch)
    requires Linked(s)
    ensures s.sent <= Run(s, events, epoch).sent
    decreases |events|
  {
    if events != [] {
      StepKeepsLinked(s, events[0], epoch);
      SentGrows(Step(s, events[0], epoch), events[1..], epoch);
    }
  }

  /** The worker is given nondecreasing revisions exactly when no retry was stale. */
  lemma {:induction false} OrderlyIffNoStaleRetry(s: Link, events: seq<Event>, epoch: Epoch)
    requires Linked(s) && InOrder(s.sent) && EditsForward(s, events, epoch)
    ensures InOrder(Run(s, events, epoch).sent) <==> NoStaleRetry(s, events, epoch)
    decreases |events|
  {
    if events != [] {
      var s1 := Step(s, events[0], epoch);
      StepKeepsLinked(s, events[0], epoch);
      StepInOrder(s, events[0], epoch);
      if StaleRetry(s, events[0]) {
        SentGrows(s1, events[1..], epoch);
        if InOrder(Run(s1, events[1..], epoch).sent) {
          PrefixInOrder(s1.sent, Run(s1, events[1..], epoch).sent);
        }
      } else {
        OrderlyIffNoStaleRetry(s1, events[1..], epoch);
      }
    }
  }

  lemma PrefixInOrder(a: seq<J.Command>, b: seq<J.Command>)
    requires a <= b && InOrder(b)
    ensures InOrder(a)
  {
    assert forall i | 0 <= i < |a| :: a[i] == b[i];
  }

  // ---------- what the worker ends up with ----------

  /** No compaction that covers the revision has been sent. */
  ghost predicate Uncovered(s: Link, id: DocId, rev: Revision) {
    forall i | 0 <= i < |s.sent| :: !Compacts(s.sent[i], id, rev)
  }

  /** Where among the first `n` commands the document was submitted last; -1 if it was not. */
  ghost function LastSubmit(sent: seq<J.Command>, n: nat, id: DocId): (l: int)
    requires n <= |sent|
    ensures -1 <= l < n && (l >= 0 ==> Submits(sent[l], id, 0))
    ensures forall i | l < i < n :: !Submits(sent[i], id, 0)
  {
    if n == 0 then -1
    else if Submits(sent[n - 1], id, 0) then n - 1
    else LastSubmit(sent, n - 1, id)
  }

  lemma LastSubmitUnique(sent: seq<J.Command>, n: nat, id: DocId, l: int)
    requires n <= |sent| && -1 <= l < n && (l >= 0 ==> Submits(sent[l], id, 0))
    requires forall i | l < i < n :: !Submits(sent[i], id, 0)
    ensures LastSubmit(sent, n, id) == l
  {
  }

  /**
   Of a document the worker holds the last checkpoint it was given or none, and surely that one if
   no compaction covers it.
   */
  ghost predicate HoldsLast(s: Link, id: DocId, rev: Revision)
    requires Linked(s)
  {
    var l := LastSubmit(s.sent, |s.turns|, id);
    l >= 0 ==>
      && (id in s.worker.dirty ==> s.worker.dirty[id] == s.sent[l].payload)
      && (Uncovered(s, id, rev) && s.sent[l].payload.revision >= rev ==> id in s.worker.dirty)
  }

  lemma StepHoldsLast(s: Link, e: Event, epoch: Epoch, id: DocId, rev: Revision)
    requires Linked(s) && HoldsLast(s, id, rev)
    ensures Linked(Step(s, e, epoch)) && HoldsLast(Step(s, e, epoch), id, rev)
  {
    StepKeepsLinked(s, e, epoch);
    var s' := Step(s, e, epoch);
    var l := LastSubmit(s.sent, |s.turns|, id);
    assert forall i | 0 <= i < |s.sent| :: s.sent[i] == s'.sent[i];
    if e.Work? && s.box.queue != [] && s.box.connected {
      WorkHoldsLast(s, e.outcome, epoch, id, rev);
    } else {
      LastSubmitUnique(s'.sent, |s'.turns|, id, l);
    }
  }

  lemma WorkHoldsLast(s: Link, outcome: J.Persist, epoch: Epoch, id: DocId, rev: Revision)
    requires Linked(s) && HoldsLast(s, id, rev) && s.box.queue != [] && s.box.connected
    requires Linked(Step(s, Work(outcome), epoch))
    ensures HoldsLast(Step(s, Work(outcome), epoch), id, rev)
  {
    var command, n := s.box.queue[0], |s.turns|;
    assert s.sent[n] == command;
    LastSubmitUnique(s.sent, n + 1, id, if Submits(command, id, 0) then n else LastSubmit(s.sent, n, id));
    assert Uncovered(s, id, rev) ==> !Compacts(s.sent[n], id, rev);
  }

  lemma {:induction false} RunHoldsLast(s: Link, events: seq<Event>, epoch: Epoch, id: DocId, rev: Revision)
    requires Linked(s) && HoldsLast(s, id, rev)
    ensures Linked(Run(s, events, epoch)) && HoldsLast(Run(s, events, epoch), id, rev)
    decreases |events|
  {
    if events != [] {
      StepHoldsLast(s, events[0], epoch, id, rev);
      RunHoldsLast(Step(s, events[0], epoch), events[1..], epoch, id, rev);
    }
  }

  /** Nothing of the document of `p` is on its way any more, and no compaction has covered `p`. */
  ghost predicate Settled(s: Link, p: Payload) {
    p in s.asked && s.box.queue == [] && p.docId !in s.box.checkpoints && Uncovered(s, p.docId, p.revision)
  }

  /**
   After a flush the file holds the checkpoint, or a newer one of its document, exactly as it was
   handed over.
   */
  ghost predicate Preserved(s: Link, p: Payload) {
    var disk := J.Step(s.worker, J.Flush, J.Written).disk;
    exists q | q in s.asked :: Supplants(q, p) && p.docId in disk && disk[p.docId] == JournalFile.Kept(q)
  }

  ghost predicate Supplants(q: Payload, p: Payload) {
    q.docId == p.docId && q.revision >= p.revision
  }

  /**
   The promise itself, over every run: a settled checkpoint is preserved, or a newer one, exactly if
   the last checkpoint of its document that entered the queue is at least as new.
   */
  lemma PreservedIffLastIsNew(seed: J.Worker, events: seq<Event>, epoch: Epoch, p: Payload)
    requires seed.acks == [] && Settled(Run(Start(seed), events, epoch), p)
    ensures var s := Run(Start(seed), events, epoch);
            var l := LastSubmit(s.sent, |s.sent|, p.docId);
            l >= 0 && (Preserved(s, p) <==> s.sent[l].payload.revision >= p.revision)
  {
    hide Preserved, Settled, Run;
    NewestNeverLost(Start(seed), events, epoch);
    RunHoldsLast(Start(seed), events, epoch, p.docId, p.revision);
    RunMakesNothingUp(Start(seed), events, epoch);
    SettledPreserved(Run(Start(seed), events, epoch), p);
  }

  lemma SettledPreserved(s: Link, p: Payload)
    requires Linked(s) && NothingLost(s) && NothingMadeUp(s) && HoldsLast(s, p.docId, p.revision) && Settled(s, p)
    ensures var l := LastSubmit(s.sent, |s.sent|, p.docId);
            l >= 0 && (Preserved(s, p) <==> s.sent[l].payload.revision >= p.revision)
  {
    hide Preserved;
    SettledIsSent(s, p);
    var l := LastSubmit(s.sent, |s.sent|, p.docId);
    assert HandedOver(s, s.sent[l]);
    PreservedIffNew(s, p, s.sent[l].payload);
  }

  lemma SettledIsSent(s: Link, p: Payload)
    requires NothingLost(s) && Settled(s, p)
    ensures LastSubmit(s.sent, |s.sent|, p.docId) >= 0
  {
    hide LastSubmit;
    var k :| 0 <= k < |s.asked| && s.asked[k] == p;
    assert Reached(s, s.asked[k]);
    var i :| 0 <= i < |s.sent| && Submits(s.sent[i], p.docId, p.revision);
    assert Submits(s.sent[i], p.docId, 0);
  }

  lemma PreservedIffNew(s: Link, p: Payload, last: Payload)
    requires last in s.asked && last.docId == p.docId
    requires p.docId in s.worker.dirty ==> s.worker.dirty[p.docId] == last
    requires last.revision >= p.revision ==> p.docId in s.worker.dirty
    ensures Preserved(s, p) <==> last.revision >= p.revision
  {
    if last.revision >= p.revision {
      assert Supplants(last, p);
    }
  }

  /** So without stale retries every settled checkpoint is preserved. */
  lemma SettledMeansNewest(seed: J.Worker, events: seq<Event>, epoch: Epoch, p: Payload)
    requires seed.acks == [] && EditsForward(Start(seed), events, epoch) && NoStaleRetry(Start(seed), events, epoch)
    requires Settled(Run(Start(seed), events, epoch), p)
    ensures Preserved(Run(Start(seed), events, epoch), p)
  {
    var s := Run(Start(seed), events, epoch);
    PreservedIffLastIsNew(seed, events, epoch, p);
    OrderlyIffNoStaleRetry(Start(seed), events, epoch);
    NewestNeverLost(Start(seed), events, epoch);
    hide Run, Preserved, NoStaleRetry, EditsForward;
    var k :| 0 <= k < |s.asked| && s.asked[k] == p;
    assert Reached(s, s.asked[k]);
    var i :| 0 <= i < |s.sent| && Submits(s.sent[i], p.docId, p.revision);
    var l := LastSubmit(s.sent, |s.sent|, p.docId);
    assert Submits(s.sent[i], p.docId, 0) && Submits(s.sent[l], s.sent[i].payload.docId, 0);
  }

  /** A stale retry need not do harm: a newer checkpoint behind it repairs the file. */
  lemma StaleRetryRepaired(s: Link, a: Payload, b: Payload, c: Payload, epoch: Epoch)
    requires Retains(s, a) && a.docId == b.docId == c.docId && a.revision < b.revision < c.revision
    ensures var s1 := Run(s, [Ask(b), Work(J.Written)], epoch);
            var s2 := Run(s1, [Retry(a.docId), Work(J.Written)], epoch);
            var s3 := Run(s2, [Ask(c), Work(J.Written)], epoch);
            && StaleRetry(s1, Retry(a.docId)) && s3.box.queue == [] && s3.box.checkpoints == map[]
            && c.docId in s3.worker.disk && s3.worker.disk[c.docId] == JournalFile.Kept(c)
  {
    var s1 := Step(Step(s, Ask(b), epoch), Work(J.Written), epoch);
    RunTwice(s, Ask(b), Work(J.Written), [], epoch);
    assert [Ask(b), Work(J.Written)] + [] == [Ask(b), Work(J.Written)];
    assert Retains(s1, a) && s1.sent == s.sent + [J.Submit(b)];
    assert Submits(s1.sent[|s.sent|], a.docId, a.revision + 1);
    RetryArrives(s1, a, epoch);
    var s2 := Run(s1, [Retry(a.docId), Work(J.Written)], epoch);
    RunTwice(s2, Ask(c), Work(J.Written), [], epoch);
    assert [Ask(c), Work(J.Written)] + [] == [Ask(c), Work(J.Written)];
  }

  /**
   A stale retry does lose the newest checkpoint: from a state that retains an older one, a new
   checkpoint followed by the retry leaves the old one on disk, with nothing retained or queued.
   */
  lemma StaleRetryLosesNewest(s: Link, earlier: Payload, later: Payload, epoch: Epoch)
    requires Retains(s, earlier) && earlier.docId == later.docId && earlier.revision < later.revision
    ensures var s' := Run(s, [Ask(later), Work(J.Written), Retry(earlier.docId), Work(J.Written)], epoch);
            && s'.box.queue == [] && s'.box.checkpoints == map[] && s'.asked == s.asked + [later]
            && earlier.docId in s'.worker.disk && s'.worker.disk[earlier.docId] == JournalFile.Kept(earlier)
  {
    var s1 := Step(s, Ask(later), epoch);
    var s2 := Step(s1, Work(J.Written), epoch);
    RunTwice(s, Ask(later), Work(J.Written), [Retry(earlier.docId), Work(J.Written)], epoch);
    RetryArrives(s2, earlier, epoch);
  }

  /**
   A saved document comes back: the save does not look at what is retained, so a retry behind the
   compaction restores the checkpoint to the file, though it was never stale.
   */
  lemma SavedComesBack(s: Link, p: Payload, epoch: Epoch)
    requires Retains(s, p) && Newest(s, p)
    ensures var events := [Saved(p.docId, p.revision), Work(J.Written), Retry(p.docId), Work(J.Written)];
            var s' := Run(s, events, epoch);
            && NoStaleRetry(s, events, epoch) && EditsForward(s, events, epoch)
            && s'.asked == s.asked && s'.saved == s.saved + [(p.docId, p.revision)] && s'.box.queue == [] && s'.box.checkpoints == map[]
            && p.docId in s'.worker.disk && s'.worker.disk[p.docId] == JournalFile.Kept(p)
  {
    hide J.Step, JournalFile.Kept, InOrder;
    var save, work, retry := Saved(p.docId, p.revision), Work(J.Written), Retry(p.docId);
    var s2 := Step(Step(s, save, epoch), work, epoch);
    assert s2.sent == s.sent + [J.AckSave(p.docId, p.revision)];
    assert Retains(s2, p) && Newest(s2, p);
    RunTwice(s, save, work, [retry, work], epoch);
    RetryArrives(s2, p, epoch);
    RetryIsFresh(s2, p, epoch);
    assert [work, retry, work][1..] == [retry, work] && [save, work, retry, work][1..] == [work, retry, work];
    assert NoStaleRetry(Step(s, save, epoch), [work, retry, work], epoch);
    assert EditsForward(Step(s, save, epoch), [work, retry, work], epoch);
  }

  lemma RetryIsFresh(s: Link, p: Payload, epoch: Epoch)
    requires Retains(s, p) && Newest(s, p)
    ensures NoStaleRetry(s, [Retry(p.docId), Work(J.Written)], epoch)
    ensures EditsForward(s, [Retry(p.docId), Work(J.Written)], epoch)
  {
    hide J.Step;
    var work, s3 := Work(J.Written), Step(s, Retry(p.docId), epoch);
    assert [Retry(p.docId), work][1..] == [work] && [work][1..] == [];
    assert NoStaleRetry(s3, [work], epoch) && EditsForward(s3, [work], epoch);
  }

  /** Exactly the checkpoint `p` is retained, and the queue is idle. */
  ghost predicate Retains(s: Link, p: Payload) {
    s.box.queue == [] && s.box.connected && s.box.checkpoints == map[p.docId := p]
  }

  lemma RunTwice(s: Link, a: Event, b: Event, rest: seq<Event>, epoch: Epoch)
    ensures Run(s, [a, b] + rest, epoch) == Run(Step(Step(s, a, epoch), b, epoch), rest, epoch)
  {
    assert ([a, b] + rest)[1..] == [b] + rest && ([b] + rest)[1..] == rest;
  }

  lemma RetryArrives(s: Link, p: Payload, epoch: Epoch)
    requires Retains(s, p)
    ensures var s' := Run(s, [Retry(p.docId), Work(J.Written)], epoch);
            && s'.box.queue == [] && s'.box.checkpoints == map[] && s'.box.connected
            && s'.asked == s.asked && s'.saved == s.saved
            && p.docId in s'.worker.disk && s'.worker.disk[p.docId] == JournalFile.Kept(p)
  {
    var s1 := Step(s, Retry(p.docId), epoch);
    assert s1.box.queue == [J.Submit(p)] && s1.box.checkpoints == map[];
    RunTwice(s, Retry(p.docId), Work(J.Written), [], epoch);
    assert [Retry(p.docId), Work(J.Written)] + [] == [Retry(p.docId), Work(J.Written)];
  }

  lemma {:induction false} RunAppend(s: Link, a: seq<Event>, b: seq<Event>, epoch: Epoch)
    ensures Run(s, a + b, epoch) == Run(Run(s, a, epoch), b, epoch)
    decreases |a|
  {
    if a == [] {
      assert a + b == b;
    } else {
      assert (a + b)[1..] == a[1..] + b;
      RunAppend(Step(s, a[0], epoch), a[1..], b, epoch);
    }
  }

  ghost predicate NoSubmissions(sent: seq<J.Command>) {
    forall i | 0 <= i < |sent| :: !sent[i].Submit?
  }

  lemma {:induction false} Filling(s: Link, events: seq<Event>, epoch: Epoch)
    requires forall i | 0 <= i < |events| :: events[i] == Saved(0, 0)
    requires |s.box.queue| + |events| <= CAPACITY && s.box.connected && NoSubmissions(s.sent)
    ensures var s' := Run(s, events, epoch);
            && |s'.box.queue| == |s.box.queue| + |events| && s'.box.checkpoints == s.box.checkpoints
            && s'.asked == s.asked && s'.box.connected && NoSubmissions(s'.sent)
    decreases |events|
  {
    if events != [] {
      Filling(Step(s, events[0], epoch), events[1..], epoch);
    }
  }

  lemma {:induction false} Draining(s: Link, events: seq<Event>, epoch: Epoch)
    requires forall i | 0 <= i < |events| :: events[i] == Work(J.Written)
    requires |s.box.queue| == |events| && s.box.connected
    ensures var s' := Run(s, events, epoch);
            && s'.box.queue == [] && s'.box.connected && s'.box.checkpoints == s.box.checkpoints
            && s'.asked == s.asked && s'.sent == s.sent
    decreases |events|
  {
    if events != [] {
      Draining(Step(s, events[0], epoch), events[1..], epoch);
    }
  }

  /** A checkpoint that meets a full queue is retained until the queue is idle again. */
  lemma RetentionIsReachable(seed: J.Worker, p: Payload, epoch: Epoch) returns (events: seq<Event>)
    ensures var s := Run(Start(seed), events, epoch);
            Retains(s, p) && s.asked == [p] && Newest(s, p)
  {
    hide J.Step;
    var fill, drain := seq(CAPACITY, _ => Saved(0, 0)), seq(CAPACITY, _ => Work(J.Written));
    var s0 := Run(Start(seed), fill, epoch);
    Filling(Start(seed), fill, epoch);
    var s1 := Step(s0, Ask(p), epoch);
    assert Run(s0, [Ask(p)], epoch) == Run(s1, [], epoch);
    Draining(s1, drain, epoch);
    events := fill + [Ask(p)] + drain;
    RunAppend(Start(seed), fill, [Ask(p)], epoch);
    RunAppend(Start(seed), fill + [Ask(p)], drain, epoch);
    assert s1.asked == [p] && NoSubmissions(s1.sent);
  }

  /** So both runs exist from the start, the first with revisions handed over in ascending order. */
  lemma LossIsReachable(seed: J.Worker, earlier: Payload, later: Payload, epoch: Epoch) returns (events: seq<Event>)
    requires earlier.docId == later.docId && earlier.revision < later.revision
    ensures var s' := Run(Start(seed), events, epoch);
            && s'.asked == [earlier, later] && s'.box.queue == [] && s'.box.checkpoints == map[]
            && earlier.docId in s'.worker.disk && s'.worker.disk[earlier.docId] == JournalFile.Kept(earlier)
  {
    hide Step, J.Step;
    var before := RetentionIsReachable(seed, earlier, epoch);
    var last := [Ask(later), Work(J.Written), Retry(earlier.docId), Work(J.Written)];
    StaleRetryLosesNewest(Run(Start(seed), before, epoch), earlier, later, epoch);
    events := before + last;
    RunAppend(Start(seed), before, last, epoch);
  }

  lemma ReturnIsReachable(seed: J.Worker, p: Payload, epoch: Epoch) returns (events: seq<Event>)
    ensures var s' := Run(Start(seed), events, epoch);
            && s'.asked == [p] && s'.saved != [] && s'.saved[|s'.saved| - 1] == (p.docId, p.revision)
            && s'.box.queue == [] && s'.box.checkpoints == map[]
            && p.docId in s'.worker.disk && s'.worker.disk[p.docId] == JournalFile.Kept(p)
  {
    hide Step, J.Step;
    var before := RetentionIsReachable(seed, p, epoch);
    var last := [Saved(p.docId, p.revision), Work(J.Written), Retry(p.docId), Work(J.Written)];
    SavedComesBack(Run(Start(seed), before, epoch), p, epoch);
    events := before + last;
    RunAppend(Start(seed), before, last, epoch);
  }

  // ---------- when a compaction is final ----------

  /**
   A compaction whose write succeeded has been final so far exactly if no covered revision of its
   document entered the queue behind it and was handled.
   */
  lemma CompactionFinal(seed: J.Worker, events: seq<Event>, epoch: Epoch, k: nat)
    requires seed.acks == []
    requires var s := Run(Start(seed), events, epoch);
             k < |s.turns| && k < |s.sent| && s.sent[k].AckSave? && s.turns[k].1 == J.Written
    ensures var s := Run(Start(seed), events, epoch);
            var id, rev := s.sent[k].id, s.sent[k].rev;
            s.worker == J.Run(seed, s.turns)
            && ((forall j | k < j <= |s.turns| :: J.Retired(J.Run(seed, s.turns[..j]), id, rev))
                <==> (forall i | k < i < |s.turns| && i < |s.sent| :: !J.Restores(s.sent[i], id, rev)))
  {
    var s := Run(Start(seed), events, epoch);
    NewestNeverLost(Start(seed), events, epoch);
    WorkerFollowsQueue(Start(seed), events, epoch);
    hide J.Run, J.Retired, J.Restores, Run;
    assert forall i | 0 <= i < |s.turns| :: s.turns[i].0 == s.sent[i];
    J.CompactionFinal(seed, s.turns, k);
  }
}
