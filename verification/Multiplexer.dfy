/**
 Request and response over one transport, as the atomic steps of concurrent tasks: callers
 inserting, checking liveness, sending, waiting, giving up; a reader routing answers; and one
 task declaring the transport lost.
 */
module Multiplexer {

  const MAX_PENDING := 64

  type CallId = nat
  type Uuid = nat

  datatype Failure = Backpressure | Duplicate | Closed | TimedOut | Cancelled

  datatype Outcome = Answered(answer: Uuid) | Failed(failure: Failure)

  /** How far a call of `request` has got. */
  datatype Phase =
    | Inserted                    // entered in the table, liveness not checked yet
    | Checked                     // found alive, message not handed over yet
    | Waiting                     // message handed over
    | Leaving(failure: Failure)   // decided to fail, entry not removed yet
    | Finished(outcome: Outcome)

  /** The receiving end of a call's one-shot channel. */
  datatype Receiver = Open | Delivered(answer: Uuid) | Dropped

  datatype Call = Call(id: Uuid, phase: Phase, receiver: Receiver)

  /** Progress of `mark_lost`: liveness withdrawn first, table cleared later. */
  datatype Loss = Alive | Declared | Cleared

  datatype State = State(calls: map<CallId, Call>, pending: map<Uuid, CallId>, loss: Loss)

  datatype Step =
    | Begin(call: CallId, id: Uuid)
    | CheckAlive(call: CallId)
    | Send(call: CallId, accepted: bool)
    | GiveUp(call: CallId, timedOut: bool)
    | Leave(call: CallId)
    | Receive(call: CallId)
    | Route(answer: Uuid)
    | DeclareLoss
    | ClearPending

  ghost function SetPhase(s: State, c: CallId, phase: Phase): State
    requires c in s.calls
  {
    s.(calls := s.calls[c := s.calls[c].(phase := phase)])
  }

  /** Taking an entry out of the table without answering drops its sender. */
  ghost function DropEntry(s: State, id: Uuid): State
    requires id in s.pending ==> s.pending[id] in s.calls
  {
    if id !in s.pending then s
    else
      var c := s.pending[id];
      s.(pending := s.pending - {id}, calls := s.calls[c := s.calls[c].(receiver := Dropped)])
  }

  ghost predicate In(s: State, c: CallId, phase: Phase) {
    c in s.calls && s.calls[c].phase == phase
  }

  ghost predicate Enabled(s: State, step: Step) {
    match step
    case Begin(c, _) => c !in s.calls
    case CheckAlive(c) => In(s, c, Inserted)
    case Send(c, _) => In(s, c, Checked)
    case GiveUp(c, _) => In(s, c, Waiting)
    case Leave(c) => c in s.calls && s.calls[c].phase.Leaving?
    case Receive(c) => In(s, c, Waiting) && !s.calls[c].receiver.Open?
    case Route(_) => true
    case DeclareLoss => true
    case ClearPending => s.loss == Declared
  }

  ghost function Next(s: State, step: Step): State
    requires Sound(s) && Enabled(s, step)
  {
    match step
    case Begin(c, id) =>
      if |s.pending| >= MAX_PENDING then
        s.(calls := s.calls[c := Call(id, Finished(Failed(Backpressure)), Dropped)])
      else if id in s.pending then
        s.(calls := s.calls[c := Call(id, Finished(Failed(Duplicate)), Dropped)])
      else s.(calls := s.calls[c := Call(id, Inserted, Open)], pending := s.pending[id := c])
    case CheckAlive(c) => SetPhase(s, c, if s.loss == Alive then Checked else Leaving(Closed))
    case Send(c, accepted) => SetPhase(s, c, if accepted then Waiting else Leaving(Closed))
    case GiveUp(c, timedOut) => SetPhase(s, c, Leaving(if timedOut then TimedOut else Cancelled))
    case Leave(c) =>
      var call := s.calls[c];
      SetPhase(DropEntry(s, call.id), c, Finished(Failed(call.phase.failure)))
    case Receive(c) =>
      SetPhase(s, c, Finished(
        if s.calls[c].receiver.Delivered? then Answered(s.calls[c].receiver.answer) else Failed(Closed)))
    case Route(answer) =>
      if answer !in s.pending then s
      else
        var c := s.pending[answer];
        s.(pending := s.pending - {answer}, calls := s.calls[c := s.calls[c].(receiver := Delivered(answer))])
    case DeclareLoss => if s.loss == Alive then s.(loss := Declared) else s
    case ClearPending =>
      State(map c | c in s.calls ::
              if s.calls[c].id in s.pending && s.pending[s.calls[c].id] == c then s.calls[c].(receiver := Dropped)
              else s.calls[c],
            map[], Cleared)
  }

  // ---------- what every interleaving keeps ----------

  /** Table and channels agree: an open receiver is exactly one whose sender is in the table. */
  ghost predicate Matched(s: State) {
    && (forall id | id in s.pending :: s.pending[id] in s.calls && s.calls[s.pending[id]].id == id
          && s.calls[s.pending[id]].receiver == Open && !s.calls[s.pending[id]].phase.Finished?)
    && (forall c | c in s.calls && s.calls[c].receiver == Open ::
          s.calls[c].id in s.pending && s.pending[s.calls[c].id] == c)
  }

  /** What a single call may look like, given how far the loss has got. */
  ghost predicate Proper(call: Call, loss: Loss) {
    && (call.receiver.Delivered? ==> call.receiver.answer == call.id)
    && (call.phase.Finished? && call.phase.outcome.Answered? ==> call.phase.outcome.answer == call.id)
    && (loss == Cleared && call.receiver == Open ==> call.phase.Inserted? || call.phase.Leaving?)
  }

  ghost predicate Sound(s: State) {
    && |s.pending| <= MAX_PENDING && Matched(s)
    && forall c | c in s.calls :: Proper(s.calls[c], s.loss)
  }

  const START := State(map[], map[], Alive)

  /** A call that is refused leaves the table alone. */
  lemma RefusalKeepsSound(s: State, c: CallId, id: Uuid, failure: Failure)
    requires Sound(s) && c !in s.calls
    ensures Sound(s.(calls := s.calls[c := Call(id, Finished(Failed(failure)), Dropped)]))
  {
  }

  lemma Grows(pending: map<Uuid, CallId>, id: Uuid, c: CallId)
    requires id !in pending
    ensures |pending[id := c]| == |pending| + 1
  {
    assert pending[id := c].Keys == pending.Keys + {id};
  }

  lemma EntryKeepsSound(s: State, c: CallId, id: Uuid)
    requires Sound(s) && c !in s.calls && id !in s.pending && |s.pending| < MAX_PENDING
    ensures Sound(s.(calls := s.calls[c := Call(id, Inserted, Open)], pending := s.pending[id := c]))
  {
    Grows(s.pending, id, c);
  }

  lemma BeginKeepsSound(s: State, c: CallId, id: Uuid)
    requires Sound(s) && Enabled(s, Begin(c, id))
    ensures Sound(Next(s, Begin(c, id)))
  {
    RefusalKeepsSound(s, c, id, Backpressure);
    RefusalKeepsSound(s, c, id, Duplicate);
    if id !in s.pending && |s.pending| < MAX_PENDING {
      EntryKeepsSound(s, c, id);
    }
  }

  lemma Shrinks(pending: map<Uuid, CallId>, id: Uuid)
    ensures |pending - {id}| <= |pending|
  {
    assert (pending - {id}).Keys == pending.Keys - {id};
    assert |pending.Keys - {id}| <= |pending.Keys|;
  }

  /** Removing an entry and closing its channel, whichever way. */
  lemma RemovalKeepsSound(s: State, id: Uuid, receiver: Receiver)
    requires Sound(s) && id in s.pending && (receiver == Dropped || receiver == Delivered(id))
    ensures Sound(s.(pending := s.pending - {id},
                     calls := s.calls[s.pending[id] := s.calls[s.pending[id]].(receiver := receiver)]))
  {
    Shrinks(s.pending, id);
  }

  /** A call whose channel is closed may move on without further ado. */
  lemma ClosedCallMoves(s: State, c: CallId, phase: Phase)
    requires Sound(s) && c in s.calls && s.calls[c].receiver != Open
    requires phase.Finished? && phase.outcome.Answered? ==> phase.outcome.answer == s.calls[c].id
    ensures Sound(SetPhase(s, c, phase))
  {
  }

  lemma LeaveKeepsSound(s: State, c: CallId)
    requires Sound(s) && Enabled(s, Leave(c))
    ensures Sound(Next(s, Leave(c)))
  {
    var id, phase := s.calls[c].id, Finished(Failed(s.calls[c].phase.failure));
    if id in s.pending {
      RemovalKeepsSound(s, id, Dropped);
    }
    ClosedCallMoves(DropEntry(s, id), c, phase);
  }

  lemma NextKeepsSound(s: State, step: Step)
    requires Sound(s) && Enabled(s, step)
    ensures Sound(Next(s, step))
  {
    match step
    case Begin(c, id) => BeginKeepsSound(s, c, id);
    case Leave(c) => LeaveKeepsSound(s, c);
    case Receive(c) => ClosedCallMoves(s, c, Next(s, step).calls[c].phase);
    case Route(id) =>
      if id in s.pending {
        RemovalKeepsSound(s, id, Delivered(id));
      }
    case other =>
  }

  /** Steps that are not enabled are skipped, so every sequence is an interleaving. */
  ghost function Run(s: State, steps: seq<Step>): (end: State)
    requires Sound(s)
    ensures Sound(end)
    decreases |steps|
  {
    if steps == [] then s
    else if Enabled(s, steps[0]) then
      NextKeepsSound(s, steps[0]);
      Run(Next(s, steps[0]), steps[1..])
    else Run(s, steps[1..])
  }

  /** A call's result, once there, never changes; its identifier never does. */
  lemma {:induction false} ResultsAreFinal(s: State, steps: seq<Step>, c: CallId)
    requires Sound(s) && c in s.calls
    ensures c in Run(s, steps).calls && Run(s, steps).calls[c].id == s.calls[c].id
    ensures s.calls[c].phase.Finished? ==> Run(s, steps).calls[c].phase == s.calls[c].phase
    ensures s.calls[c].receiver != Open ==> Run(s, steps).calls[c].receiver == s.calls[c].receiver
    decreases |steps|
  {
    if steps != [] {
      if Enabled(s, steps[0]) {
        NextKeepsSound(s, steps[0]);
        OneStepIsFinal(s, steps[0], c);
        ResultsAreFinal(Next(s, steps[0]), steps[1..], c);
      } else {
        ResultsAreFinal(s, steps[1..], c);
      }
    }
  }

  lemma OneStepIsFinal(s: State, step: Step, c: CallId)
    requires Sound(s) && Enabled(s, step) && c in s.calls
    ensures c in Next(s, step).calls && Next(s, step).calls[c].id == s.calls[c].id
    ensures s.calls[c].phase.Finished? ==> Next(s, step).calls[c].phase == s.calls[c].phase
    ensures s.calls[c].receiver != Open ==> Next(s, step).calls[c].receiver == s.calls[c].receiver
  {
  }

  /**
   Over every interleaving the table stays within its bound, and a call that is answered is
   answered with its own identifier.
   */
  lemma AnswersAreOwn(steps: seq<Step>, c: CallId)
    ensures var end := Run(START, steps);
            && |end.pending| <= MAX_PENDING
            && (c in end.calls && end.calls[c].phase.Finished? && end.calls[c].phase.outcome.Answered? ==>
                  end.calls[c].phase.outcome.answer == end.calls[c].id)
  {
    assert Sound(START);
    assert Sound(Run(START, steps));
  }

  /** Once the table has been cleared, no call that was found alive waits on an open channel. */
  lemma NobodyLeftWaiting(steps: seq<Step>, c: CallId)
    ensures var end := Run(START, steps);
            end.loss == Cleared && c in end.calls && (end.calls[c].phase.Checked? || end.calls[c].phase.Waiting?) ==>
              end.calls[c].receiver != Open
  {
    assert Sound(START);
    assert Sound(Run(START, steps));
  }

  /** The step a call can take by itself once the transport is lost. */
  ghost function OwnStep(s: State, c: CallId): Step
    requires c in s.calls && !s.calls[c].phase.Finished?
  {
    match s.calls[c].phase
    case Inserted => CheckAlive(c)
    case Checked => Send(c, true)
    case Waiting => Receive(c)
    case Leaving(_) => Leave(c)
  }

  /** How many steps of its own a call may still take after the loss. */
  function Rank(phase: Phase): nat {
    match phase
    case Inserted => 2
    case Checked => 3
    case Waiting => 2
    case Leaving(_) => 1
    case Finished(_) => 0
  }

  /** An unfinished call can always take a step of its own. */
  lemma LossReleasesCallers(s: State, c: CallId)
    requires Sound(s) && s.loss == Cleared && c in s.calls && !s.calls[c].phase.Finished?
    ensures Enabled(s, OwnStep(s, c)) && Own(OwnStep(s, c), c)
  {
  }

  ghost predicate Own(step: Step, c: CallId) {
    (step.CheckAlive? || step.Send? || step.GiveUp? || step.Leave? || step.Receive?) && step.call == c
  }

  /** Each step of its own brings a call closer to a result, and no step of others sets it back. */
  lemma StepsLowerRank(s: State, step: Step, c: CallId)
    requires Sound(s) && s.loss == Cleared && c in s.calls && Enabled(s, step)
    ensures Next(s, step).loss == Cleared && c in Next(s, step).calls
    ensures Rank(Next(s, step).calls[c].phase) + (if Own(step, c) then 1 else 0) <= Rank(s.calls[c].phase)
  {
  }

  /** The steps of its own that a call takes in a run. */
  ghost function OwnSteps(s: State, steps: seq<Step>, c: CallId): nat
    requires Sound(s)
    decreases |steps|
  {
    if steps == [] then 0
    else if Enabled(s, steps[0]) then
      NextKeepsSound(s, steps[0]);
      (if Own(steps[0], c) then 1 else 0) + OwnSteps(Next(s, steps[0]), steps[1..], c)
    else OwnSteps(s, steps[1..], c)
  }

  /** However the steps interleave, after the loss a call takes at most three of its own, and three finish it. */
  lemma {:induction false} LossEndsCalls(s: State, steps: seq<Step>, c: CallId)
    requires Sound(s) && s.loss == Cleared && c in s.calls
    ensures var end := Run(s, steps);
            && c in end.calls && OwnSteps(s, steps, c) + Rank(end.calls[c].phase) <= Rank(s.calls[c].phase) <= 3
            && (OwnSteps(s, steps, c) >= 3 ==> end.calls[c].phase.Finished?)
    decreases |steps|
  {
    if steps != [] {
      if Enabled(s, steps[0]) {
        NextKeepsSound(s, steps[0]);
        StepsLowerRank(s, steps[0], c);
        LossEndsCalls(Next(s, steps[0]), steps[1..], c);
      } else {
        LossEndsCalls(s, steps[1..], c);
      }
    }
  }

  /** After the loss is declared no further call is found alive. */
  lemma NoneFoundAliveAfterLoss(s: State, c: CallId)
    requires Sound(s) && s.loss != Alive && Enabled(s, CheckAlive(c))
    ensures Next(s, CheckAlive(c)).calls[c].phase == Leaving(Closed)
  {
  }

  // ---------- answers arrive ----------

  /** A call is refused exactly if the table is full, or has its identifier; else it enters. */
  lemma BeginEnters(s: State, c: CallId, id: Uuid)
    requires Sound(s) && Enabled(s, Begin(c, id))
    ensures var s' := Next(s, Begin(c, id));
            && c in s'.calls && s'.calls[c].id == id
            && s'.calls[c].phase == (if |s.pending| >= 64 then Finished(Failed(Backpressure))
                                     else if id in s.pending then Finished(Failed(Duplicate)) else Inserted)
            && (s'.calls[c].phase == Inserted <==> id in s'.pending && s'.pending[id] == c)
            && forall other | other in s.calls :: s'.calls[other] == s.calls[other]
  {
  }

  /** The outcome of receiving: the answer if it was delivered, and an error if the channel was dropped. */
  lemma ReceiveTells(s: State, c: CallId)
    requires Sound(s) && Enabled(s, Receive(c))
    ensures var phase := Next(s, Receive(c)).calls[c].phase;
            if s.calls[c].receiver.Delivered? then phase == Finished(Answered(s.calls[c].id))
            else phase == Finished(Failed(Closed))
  {
  }

  /** Only a call's own steps change how far it has got. */
  lemma OthersLeavePhase(s: State, step: Step, c: CallId)
    requires Sound(s) && Enabled(s, step) && c in s.calls && !Own(step, c)
    ensures c in Next(s, step).calls && Next(s, step).calls[c].phase == s.calls[c].phase
  {
  }

  lemma {:induction false} WaitsWithAnswer(s: State, steps: seq<Step>, c: CallId)
    requires Sound(s) && c in s.calls && s.calls[c].phase == Waiting && s.calls[c].receiver.Delivered?
    requires forall i | 0 <= i < |steps| :: !Own(steps[i], c)
    ensures var end := Run(s, steps);
            c in end.calls && end.calls[c].phase == Waiting && end.calls[c].receiver == s.calls[c].receiver
            && end.calls[c].id == s.calls[c].id
    decreases |steps|
  {
    if steps != [] {
      if Enabled(s, steps[0]) {
        NextKeepsSound(s, steps[0]);
        OthersLeavePhase(s, steps[0], c);
        OneStepIsFinal(s, steps[0], c);
        WaitsWithAnswer(Next(s, steps[0]), steps[1..], c);
      } else {
        WaitsWithAnswer(s, steps[1..], c);
      }
    }
  }

  /** A waiting call whose answer is routed receives it, whatever others do in between. */
  lemma RoutedIsReceived(s: State, c: CallId, others: seq<Step>)
    requires Sound(s) && c in s.calls && s.calls[c].phase == Waiting
    requires s.calls[c].id in s.pending && s.pending[s.calls[c].id] == c
    requires forall i | 0 <= i < |others| :: !Own(others[i], c)
    ensures var id := s.calls[c].id;
            var before := Run(Next(s, Route(id)), others);
            && Enabled(before, Receive(c))
            && Next(before, Receive(c)).calls[c].phase == Finished(Answered(id))
  {
    var s1 := Next(s, Route(s.calls[c].id));
    NextKeepsSound(s, Route(s.calls[c].id));
    WaitsWithAnswer(s1, others, c);
    ReceiveTells(Run(s1, others), c);
  }

  /** The step delivers an answer to the call: its identifier is still in the table. */
  ghost predicate Hits(s: State, step: Step, c: CallId) {
    step.Route? && step.answer in s.pending && s.pending[step.answer] == c
  }

  /** At some point of the run the call's answer was routed while its entry was in the table. */
  ghost predicate RoutedInTime(s: State, steps: seq<Step>, c: CallId)
    requires Sound(s)
    decreases |steps|
  {
    if steps == [] then false
    else if Enabled(s, steps[0]) then
      NextKeepsSound(s, steps[0]);
      Hits(s, steps[0], c) || RoutedInTime(Next(s, steps[0]), steps[1..], c)
    else RoutedInTime(s, steps[1..], c)
  }

  ghost predicate Delivery(s: State, c: CallId) {
    c in s.calls && s.calls[c].receiver.Delivered?
  }

  lemma StepDelivers(s: State, step: Step, c: CallId)
    requires Sound(s) && Enabled(s, step)
    ensures Delivery(Next(s, step), c) <==> Delivery(s, c) || Hits(s, step, c)
  {
  }

  lemma {:induction false} DeliveredIffRouted(s: State, steps: seq<Step>, c: CallId)
    requires Sound(s)
    ensures Delivery(Run(s, steps), c) <==> Delivery(s, c) || RoutedInTime(s, steps, c)
    decreases |steps|
  {
    if steps != [] {
      if Enabled(s, steps[0]) {
        NextKeepsSound(s, steps[0]);
        StepDelivers(s, steps[0], c);
        DeliveredIffRouted(Next(s, steps[0]), steps[1..], c);
      } else {
        DeliveredIffRouted(s, steps[1..], c);
      }
    }
  }

  /** In every run a call that receives gets its own answer exactly if that was routed before its entry left the table. */
  lemma AnsweredIffRouted(steps: seq<Step>, c: CallId)
    requires Sound(START) && Enabled(Run(START, steps), Receive(c))
    ensures var before := Run(START, steps);
            Next(before, Receive(c)).calls[c].phase == Finished(Answered(before.calls[c].id))
            <==> RoutedInTime(START, steps, c)
  {
    DeliveredIffRouted(START, steps, c);
    ReceiveTells(Run(START, steps), c);
  }

  /** On a live transport with room a new call gets to wait, with its entry in the table. */
  lemma CallWaits(s: State, c: CallId, id: Uuid)
    requires Sound(s) && s.loss == Alive && c !in s.calls && id !in s.pending && |s.pending| < 64
    ensures var s' := Run(s, [Begin(c, id), CheckAlive(c), Send(c, true)]);
            && c in s'.calls && s'.calls[c].phase == Waiting && s'.calls[c].id == id
            && id in s'.pending && s'.pending[id] == c
  {
    BeginEnters(s, c, id);
    NextKeepsSound(s, Begin(c, id));
    var s1 := Next(s, Begin(c, id));
    NextKeepsSound(s1, CheckAlive(c));
    var s2 := Next(s1, CheckAlive(c));
    NextKeepsSound(s2, Send(c, true));
    hide Sound;
    RunOne(s, Begin(c, id), [CheckAlive(c), Send(c, true)]);
    RunOne(s1, CheckAlive(c), [Send(c, true)]);
    RunOne(s2, Send(c, true), []);
    assert [Send(c, true)] + [] == [Send(c, true)];
  }

  /** And once its answer is routed it is answered. */
  lemma CallIsAnswered(s: State, c: CallId, id: Uuid)
    requires Sound(s) && s.loss == Alive && c !in s.calls && id !in s.pending && |s.pending| < 64
    ensures var sent := Run(s, [Begin(c, id), CheckAlive(c), Send(c, true)]);
            var end := Run(sent, [Route(id), Receive(c)]);
            c in end.calls && end.calls[c].phase == Finished(Answered(id)) && id !in end.pending
  {
    CallWaits(s, c, id);
    var sent := Run(s, [Begin(c, id), CheckAlive(c), Send(c, true)]);
    RoutedIsReceived(sent, c, []);
    NextKeepsSound(sent, Route(id));
    NextKeepsSound(Next(sent, Route(id)), Receive(c));
    RunOne(sent, Route(id), [Receive(c)]);
    RunOne(Next(sent, Route(id)), Receive(c), []);
    assert [Receive(c)] + [] == [Receive(c)];
  }

  lemma RunOne(s: State, step: Step, rest: seq<Step>)
    requires Sound(s) && Enabled(s, step) && Sound(Next(s, step))
    ensures Run(s, [step] + rest) == Run(Next(s, step), rest)
  {
    assert ([step] + rest)[1..] == rest;
  }

  /** A failing call reports why: a message not accepted, a timeout, or a cancellation. */
  lemma FailureTells(s: State, c: CallId, timedOut: bool)
    requires Sound(s)
    ensures Enabled(s, Send(c, false)) ==> Next(s, Send(c, false)).calls[c].phase == Leaving(Closed)
    ensures Enabled(s, GiveUp(c, timedOut)) ==>
      Next(s, GiveUp(c, timedOut)).calls[c].phase == if timedOut then Leaving(TimedOut) else Leaving(Cancelled)
    ensures Enabled(s, Leave(c)) ==>
      && Next(s, Leave(c)).calls[c].phase == Finished(Failed(s.calls[c].phase.failure))
      && s.calls[c].id !in Next(s, Leave(c)).pending
  {
  }
}
