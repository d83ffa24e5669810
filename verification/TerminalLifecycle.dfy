/**
 Starting, attaching and closing the terminal under the trust rules: which authority is current,
 whether it may execute, and which launch result is still wanted.
 */
module TerminalLifecycle {

  datatype Trust = Trusted | InspectOnly
  datatype Kind = Local | Ssh | DevContainer
  datatype Authority = Authority(kind: Kind, name: string, trust: Trust)

  /** The modal in front, as far as it matters for trust. */
  datatype Overlay =
    | NoOverlay
    | TrustReview(focusedGrant: bool)
    | CommandPalette(items: seq<PaletteItem>, selected: nat)
    | OtherOverlay

  datatype PaletteItem = ReviewItem | RevokeItem

  datatype App = App(
    authorities: seq<Authority>, current: nat, overlay: Overlay,
    present: bool, starting: bool, launchId: nat, capture: bool, epoch: nat)
  {
    /** Without a current authority nothing is trusted. */
    function CurrentTrust(): Trust {
      if current < |authorities| then authorities[current].trust else InspectOnly
    }

    function CurrentIsSsh(): bool {
      current < |authorities| && authorities[current].kind == Ssh
    }

    function WithTrust(trust: Trust): App {
      if current < |authorities| then this.(authorities := authorities[current := authorities[current].(trust := trust)])
      else this
    }

    /** Withdraw any launch under way; its result will carry an old number. */
    function Withdrawn(): App {
      this.(starting := false, launchId := launchId + 1, capture := false)
    }

    function PaletteItems(): seq<PaletteItem> {
      if CurrentTrust() == Trusted then [ReviewItem, RevokeItem] else [ReviewItem]
    }
  }

  /** User actions, results of launches, and what the environment answers where the code asks it. */
  datatype Action =
    | OpenTerminal(sshConnected: bool, running: bool)
    | CloseTerminal
    | CycleAuthority
    | SelectSshAuthority(name: string)
    | RegisterSshAuthority(name: string)
    | ReviewTrust
    | NextControl
    | PrevControl
    | GrantTrust
    | RevokeTrust
    | ActivateFocused
    | OpenCommandPalette
    | PaletteQuery(items: seq<PaletteItem>)
    | OpenOther
    | CancelModal
    | FocusLandmark(bottom: bool, running: bool)
    | ReleaseCapture
    | TerminalInput(fails: bool)
    | Attach(epoch: nat, launchId: nat, sessionEpoch: nat, resizes: bool)
    | FailStart(epoch: nat, launchId: nat)

  function Opened(s: App, sshConnected: bool, running: bool): App {
    if s.CurrentTrust() != Trusted then s.Withdrawn()
    else if s.CurrentIsSsh() && !sshConnected then s.Withdrawn()
    else if s.present && running then s.(capture := true)
    else s.Withdrawn().(present := false, starting := true)
  }

  function Revoked(s: App): App {
    s.WithTrust(InspectOnly).Withdrawn().(present := false, overlay := NoOverlay)
  }

  function Moved(s: App, forward: bool): App {
    match s.overlay
    case TrustReview(focused) => s.(overlay := TrustReview(!focused))
    case CommandPalette(items, selected) =>
      if items == [] then s
      else
        var next := if forward then (selected + 1) % |items| else if selected == 0 then |items| - 1 else selected - 1;
        s.(overlay := CommandPalette(items, next))
    case _ => s
  }

  function Activated(s: App): App {
    if s.overlay.CommandPalette? && s.overlay.selected < |s.overlay.items| then
      var item := s.overlay.items[s.overlay.selected];
      var closed := s.(overlay := NoOverlay);
      if item == ReviewItem then closed.(overlay := TrustReview(false)) else Revoked(closed)
    else s.(overlay := NoOverlay)
  }

  function SshIndex(authorities: seq<Authority>, name: string): (i: nat)
    ensures i <= |authorities|
  {
    if authorities == [] || (authorities[0].kind == Ssh && authorities[0].name == name) then 0
    else 1 + SshIndex(authorities[1..], name)
  }

  function Selected(s: App, name: string): App {
    var i := SshIndex(s.authorities, name);
    var s1 := if i < |s.authorities| then s
              else s.(authorities := s.authorities + [Authority(Ssh, name, InspectOnly)]);
    s1.(current := i).Withdrawn().(present := false)
  }

  function Attached(s: App, epoch: nat, launchId: nat, sessionEpoch: nat, resizes: bool): App {
    if epoch != s.epoch || launchId != s.launchId || !s.starting || sessionEpoch != epoch then s
    else if !resizes then s.(starting := false, capture := false)
    else s.(present := true, starting := false, capture := true)
  }

  function Step(s: App, a: Action): App {
    match a
    case OpenTerminal(sshConnected, running) => Opened(s, sshConnected, running)
    case CloseTerminal => s.Withdrawn().(present := false)
    case CycleAuthority =>
      if |s.authorities| < 2 then s
      else s.(current := (s.current + 1) % |s.authorities|).Withdrawn().(present := false)
    case SelectSshAuthority(name) => Selected(s, name)
    case RegisterSshAuthority(name) =>
      if SshIndex(s.authorities, name) < |s.authorities| then s
      else s.(authorities := s.authorities + [Authority(Ssh, name, InspectOnly)])
    case ReviewTrust => s.(overlay := TrustReview(false))
    case NextControl => Moved(s, true)
    case PrevControl => Moved(s, false)
    case GrantTrust =>
      if s.overlay == TrustReview(true) then s.WithTrust(Trusted).(overlay := NoOverlay) else s
    case RevokeTrust => Revoked(s)
    case ActivateFocused => Activated(s)
    case OpenCommandPalette => s.(overlay := CommandPalette(s.PaletteItems(), 0))
    case PaletteQuery(items) =>
      if s.overlay.CommandPalette? then s.(overlay := CommandPalette(items, 0)) else s
    case OpenOther => s.(overlay := OtherOverlay)
    case CancelModal => s.(overlay := NoOverlay)
    case FocusLandmark(bottom, running) => s.(capture := bottom && s.present && running)
    case ReleaseCapture => s.(capture := false)
    case TerminalInput(fails) => if s.capture && s.present && fails then s.(present := false, capture := false) else s
    case Attach(epoch, launchId, sessionEpoch, resizes) => Attached(s, epoch, launchId, sessionEpoch, resizes)
    case FailStart(epoch, launchId) =>
      if epoch == s.epoch && launchId == s.launchId && s.starting then s.(starting := false, capture := false) else s
  }

  function Run(s: App, actions: seq<Action>): App
    decreases |actions|
  {
    if actions == [] then s else Run(Step(s, actions[0]), actions[1..])
  }

  // ---------- safety ----------

  /** A terminal, running or on its way, needs a trusted authority; the rest is bookkeeping. */
  ghost predicate Safe(s: App) {
    && (s.present || s.starting ==> s.CurrentTrust() == Trusted)
    && !(s.present && s.starting)
    && (s.capture ==> s.present)
  }

  lemma StepKeepsSafe(s: App, a: Action)
    requires Safe(s)
    ensures Safe(Step(s, a))
  {
  }

  lemma {:induction false} RunKeepsSafe(s: App, actions: seq<Action>)
    requires Safe(s)
    ensures Safe(Run(s, actions))
    decreases |actions|
  {
    if actions != [] {
      StepKeepsSafe(s, actions[0]);
      RunKeepsSafe(Step(s, actions[0]), actions[1..]);
    }
  }

  ghost predicate TrustedAt(s: App, i: nat) {
    i < |s.authorities| && s.authorities[i].trust == Trusted
  }

  /** Trust rises in one way only: the grant confirmed with the grant control focused in the review. */
  lemma TrustRisesByGrantOnly(s: App, a: Action, i: nat)
    ensures !TrustedAt(s, i) && TrustedAt(Step(s, a), i) ==>
      a == GrantTrust && s.overlay == TrustReview(true) && i == s.current
  {
  }

  /** So an authority trusted at the end but not at the start was granted trust in between, while current. */
  lemma {:induction false} TrustHasAGrant(s: App, actions: seq<Action>, i: nat) returns (k: nat)
    requires !TrustedAt(s, i) && TrustedAt(Run(s, actions), i)
    ensures k < |actions| && actions[k] == GrantTrust
    ensures Run(s, actions[..k]).overlay == TrustReview(true) && Run(s, actions[..k]).current == i
    decreases |actions|
  {
    var s1 := Step(s, actions[0]);
    if TrustedAt(s1, i) {
      TrustRisesByGrantOnly(s, actions[0], i);
      k := 0;
    } else {
      var j := TrustHasAGrant(s1, actions[1..], i);
      k := j + 1;
      assert actions[..k][1..] == actions[1..][..j];
    }
  }

  // ---------- stale launches ----------

  /** The launch numbered `id` is still wanted. */
  ghost predicate Wanted(s: App, id: nat) {
    s.starting && s.launchId == id
  }

  /** A new start, a blocked open, a close, a change of authority, or a revocation. */
  ghost predicate Invalidates(s: App, a: Action) {
    || (a.OpenTerminal? && !(s.CurrentTrust() == Trusted && (s.CurrentIsSsh() ==> a.sshConnected) && s.present && a.running))
    || a.CloseTerminal? || (a.CycleAuthority? && |s.authorities| >= 2) || a.SelectSshAuthority? || a.RevokeTrust?
    || (a.ActivateFocused? && s.overlay.CommandPalette? && s.overlay.selected < |s.overlay.items|
        && s.overlay.items[s.overlay.selected] == RevokeItem)
  }

  /** The result of the launch itself. */
  ghost predicate Settles(a: Action, id: nat) {
    (a.Attach? || a.FailStart?) && a.launchId == id
  }

  ghost predicate NoneInvalidates(s: App, actions: seq<Action>)
    decreases |actions|
  {
    actions == [] || (!Invalidates(s, actions[0]) && NoneInvalidates(Step(s, actions[0]), actions[1..]))
  }

  lemma LaunchStep(s: App, a: Action, id: nat)
    requires Safe(s) && Wanted(s, id) && !Settles(a, id)
    ensures Wanted(Step(s, a), id) <==> !Invalidates(s, a)
    ensures Invalidates(s, a) ==> Step(s, a).launchId > id
  {
  }

  lemma MoveOnlyOverlay(s: App, forward: bool)
    ensures Moved(s, forward) == s.(overlay := Moved(s, forward).overlay)
  {
  }

  lemma StepBasics(s: App, a: Action)
    ensures Step(s, a).launchId >= s.launchId && Step(s, a).epoch == s.epoch
  {
    hide SshIndex, App.CurrentTrust, App.CurrentIsSsh, App.PaletteItems, Moved;
    assert a.NextControl? || a.PrevControl? ==> Step(s, a) == s.(overlay := Step(s, a).overlay) by {
      MoveOnlyOverlay(s, a.NextControl?);
    }
  }

  lemma {:induction false} LaunchNumbersRise(s: App, actions: seq<Action>)
    ensures Run(s, actions).launchId >= s.launchId
    decreases |actions|
  {
    if actions != [] {
      StepBasics(s, actions[0]);
      hide Step;
      LaunchNumbersRise(Step(s, actions[0]), actions[1..]);
    }
  }

  /** Until its result arrives, a launch stays wanted exactly as long as nothing invalidates it. */
  lemma {:induction false} WantedUntilInvalidated(s: App, actions: seq<Action>, id: nat)
    requires Safe(s) && Wanted(s, id)
    requires forall i | 0 <= i < |actions| :: !Settles(actions[i], id)
    ensures Wanted(Run(s, actions), id) <==> NoneInvalidates(s, actions)
    decreases |actions|
  {
    if actions != [] {
      assert !Settles(actions[0], id);
      LaunchStep(s, actions[0], id);
      StepKeepsSafe(s, actions[0]);
      if Invalidates(s, actions[0]) {
        LaunchNumbersRise(Step(s, actions[0]), actions[1..]);
      } else {
        WantedUntilInvalidated(Step(s, actions[0]), actions[1..], id);
      }
    }
  }

  /** A launch result attaches a terminal exactly when its launch is still wanted and the session fits. */
  lemma AttachOnlyIfWanted(s: App, actions: seq<Action>, id: nat, sessionEpoch: nat, resizes: bool)
    requires Safe(s) && Wanted(s, id)
    requires forall i | 0 <= i < |actions| :: !Settles(actions[i], id)
    ensures var before := Run(s, actions);
            var after := Step(before, Attach(s.epoch, id, sessionEpoch, resizes));
            !before.present && after.present <==>
              NoneInvalidates(s, actions) && sessionEpoch == s.epoch && resizes
  {
    WantedUntilInvalidated(s, actions, id);
    RunKeepsSafe(s, actions);
    EpochFixed(s, actions);
  }

  /** And then it attaches under the authority it was started for, which is still trusted. */
  lemma {:induction false} AttachesWhereStarted(s: App, actions: seq<Action>, id: nat)
    requires Safe(s) && Wanted(s, id) && NoneInvalidates(s, actions)
    requires forall i | 0 <= i < |actions| :: !Settles(actions[i], id)
    ensures Run(s, actions).current == s.current && TrustedAt(Run(s, actions), s.current)
    ensures Run(s, actions).authorities[s.current].kind == s.authorities[s.current].kind
    ensures Run(s, actions).authorities[s.current].name == s.authorities[s.current].name
    decreases |actions|
  {
    if actions != [] {
      assert !Settles(actions[0], id);
      LaunchStep(s, actions[0], id);
      StepKeepsSafe(s, actions[0]);
      SameAuthority(s, actions[0]);
      AttachesWhereStarted(Step(s, actions[0]), actions[1..], id);
    }
  }

  lemma SameAuthority(s: App, a: Action)
    requires !Invalidates(s, a) && s.current < |s.authorities|
    ensures var s' := Step(s, a);
            && s'.current == s.current < |s'.authorities|
            && s'.authorities[s.current].kind == s.authorities[s.current].kind
            && s'.authorities[s.current].name == s.authorities[s.current].name
  {
  }

  lemma {:induction false} EpochFixed(s: App, actions: seq<Action>)
    ensures Run(s, actions).epoch == s.epoch
    decreases |actions|
  {
    if actions != [] {
      StepBasics(s, actions[0]);
      hide Step;
      EpochFixed(Step(s, actions[0]), actions[1..]);
    }
  }

  // ---------- what each action brings about ----------

  /** Opening is allowed: the current authority is trusted and, if remote, connected. */
  ghost predicate MayOpen(s: App, sshConnected: bool) {
    && s.current < |s.authorities| && s.authorities[s.current].trust == Trusted
    && (s.authorities[s.current].kind == Ssh ==> sshConnected)
  }

  ghost predicate PicksRevoke(s: App, a: Action) {
    a.ActivateFocused? && s.overlay.CommandPalette? && s.overlay.selected < |s.overlay.items|
    && s.overlay.items[s.overlay.selected] == RevokeItem
  }

  /** Close, another authority, or revocation: whatever runs or was started is given up. */
  ghost predicate GivesUp(s: App, a: Action) {
    || a.CloseTerminal? || (a.CycleAuthority? && |s.authorities| >= 2) || a.SelectSshAuthority?
    || a.RevokeTrust? || PicksRevoke(s, a)
  }

  /** A new launch is wanted exactly after an allowed opening while no terminal was running. */
  lemma LaunchStarts(s: App, a: Action)
    requires Safe(s)
    ensures var s' := Step(s, a);
            Wanted(s', s'.launchId) && s'.launchId != s.launchId <==>
              a.OpenTerminal? && MayOpen(s, a.sshConnected) && !(s.present && a.running)
  {
  }

  /** A terminal comes by a fitting result of the wanted launch, and goes when given up, replaced or failing. */
  lemma WhenPresent(s: App, a: Action)
    requires Safe(s)
    ensures Step(s, a).present <==>
      || (a.Attach? && Wanted(s, a.launchId) && a.epoch == s.epoch == a.sessionEpoch && a.resizes)
      || (s.present && !GivesUp(s, a) && !(a.TerminalInput? && s.capture && a.fails)
          && !(a.OpenTerminal? && MayOpen(s, a.sshConnected) && !a.running))
  {
  }

  /** Input goes to the terminal after it was attached, opened again, or its pane focused, until released. */
  lemma WhenCaptured(s: App, a: Action)
    requires Safe(s)
    ensures Step(s, a).capture <==>
      if a.OpenTerminal? then MayOpen(s, a.sshConnected) && s.present && a.running
      else if a.FocusLandmark? then a.bottom && s.present && a.running
      else if a.Attach? && !s.present then Step(s, a).present
      else s.capture && !GivesUp(s, a) && !a.ReleaseCapture? && !(a.TerminalInput? && a.fails)
  {
  }

  /** Cycling goes to the next authority, after the last to the first; selecting to the one named; nothing else moves. */
  lemma WhichAuthority(s: App, a: Action)
    requires s.current < |s.authorities|
    ensures var s' := Step(s, a);
            if a.CycleAuthority? then s'.current == if s.current + 1 == |s.authorities| then 0 else s.current + 1
            else if a.SelectSshAuthority? then
              s'.current < |s'.authorities| && s'.authorities[s'.current].kind == Ssh
              && s'.authorities[s'.current].name == a.name
            else s'.current == s.current
  {
    if a.SelectSshAuthority? {
      SshIndexFound(s.authorities, a.name);
    } else if a.CycleAuthority? {
      CycleStep(s.current, |s.authorities|);
    }
  }

  /** The next control: the other one of the review, the item below in the palette; and backwards. */
  lemma FocusMoves(s: App, forward: bool)
    ensures s.overlay.TrustReview? ==> Moved(s, forward) == s.(overlay := TrustReview(!s.overlay.focusedGrant))
    ensures s.overlay.CommandPalette? && s.overlay.selected < |s.overlay.items| ==>
      var k, n := s.overlay.selected, |s.overlay.items|;
      Moved(s, forward) == s.(overlay := CommandPalette(s.overlay.items,
        if forward then if k + 1 == n then 0 else k + 1 else if k == 0 then n - 1 else k - 1))
  {
    if s.overlay.CommandPalette? && s.overlay.selected < |s.overlay.items| {
      CycleStep(s.overlay.selected, |s.overlay.items|);
    }
  }

  /** The palette always offers the review, and the revocation to a trusted authority only. */
  lemma PaletteOffers(s: App)
    ensures var s' := Step(s, OpenCommandPalette);
            && s'.overlay.CommandPalette? && ReviewItem in s'.overlay.items
            && (RevokeItem in s'.overlay.items <==> s.current < |s.authorities| && s.authorities[s.current].trust == Trusted)
  {
    assert [ReviewItem, RevokeItem][0] == ReviewItem && [ReviewItem, RevokeItem][1] == RevokeItem;
  }

  /** Reviewing, by key or by palette, never starts on the grant control. */
  lemma ReviewStartsOnDeny(s: App, a: Action)
    requires a.ReviewTrust? || a.ActivateFocused?
    ensures var s' := Step(s, a);
            && s'.overlay != TrustReview(true)
            && (s'.overlay == TrustReview(false) <==>
                  a.ReviewTrust? || (s.overlay.CommandPalette? && s.overlay.selected < |s.overlay.items|
                                     && s.overlay.items[s.overlay.selected] == ReviewItem))
  {
  }

  // ---------- the application object ----------

  lemma StepFacts(s: App, a: Action)
    requires Safe(s)
    ensures Safe(Step(s, a))
    ensures forall i: nat | TrustedAt(Step(s, a), i) && !TrustedAt(s, i) ::
      a == GrantTrust && s.overlay == TrustReview(true) && i == s.current
    ensures forall id | Wanted(s, id) && !Settles(a, id) :: Wanted(Step(s, a), id) <==> !Invalidates(s, a)
  {
    StepKeepsSafe(s, a);
    forall i: nat | TrustedAt(Step(s, a), i) && !TrustedAt(s, i)
      ensures a == GrantTrust && s.overlay == TrustReview(true) && i == s.current
    {
      TrustRisesByGrantOnly(s, a, i);
    }
    forall id | Wanted(s, id) && !Settles(a, id) ensures Wanted(Step(s, a), id) <==> !Invalidates(s, a) {
      LaunchStep(s, a, id);
    }
  }

  lemma {:induction false} SshIndexFound(authorities: seq<Authority>, name: string)
    ensures var i := SshIndex(authorities, name);
            i < |authorities| ==> authorities[i].kind == Ssh && authorities[i].name == name
    ensures SshIndex(authorities + [Authority(Ssh, name, InspectOnly)], name) == SshIndex(authorities, name)
  {
    var more := authorities + [Authority(Ssh, name, InspectOnly)];
    if authorities != [] {
      SshIndexFound(authorities[1..], name);
      assert more[1..] == authorities[1..] + [Authority(Ssh, name, InspectOnly)];
    }
  }

  /** Moving to the next control and back leaves the modal as it was. */
  lemma FocusReturns(s: App, forward: bool)
    requires s.overlay.CommandPalette? && s.overlay.items != [] ==> s.overlay.selected < |s.overlay.items|
    ensures Moved(Moved(s, forward), !forward) == s
  {
    if s.overlay.CommandPalette? && s.overlay.items != [] {
      CycleStep(s.overlay.selected, |s.overlay.items|);
      if s.overlay.selected > 0 {
        CycleStep(s.overlay.selected - 1, |s.overlay.items|);
      }
      CycleStep(|s.overlay.items| - 1, |s.overlay.items|);
    }
  }

  lemma CycleStep(k: nat, n: nat)
    requires k < n
    ensures (k + 1) % n == if k + 1 == n then 0 else k + 1
  {
  }

  /** No launch numbered up to `id` is wanted any more: whatever such a launch reports is ignored. */
  ghost predicate NoneWantedUpTo(s: App, id: nat) {
    forall i | 0 <= i <= id :: !Wanted(s, i)
  }

  /** The same authorities are trusted. */
  ghost predicate SameTrust(s: App, t: App) {
    forall i: nat :: TrustedAt(s, i) <==> TrustedAt(t, i)
  }

  class TerminalApp {
    var authorities: seq<Authority>
    var currentAuthority: nat
    var overlay: Overlay
    var terminal: bool
    var terminalStarting: bool
    var terminalLaunchId: nat
    var terminalCapture: bool
    var epoch: nat

    function View(): App
      reads this
    {
      App(authorities, currentAuthority, overlay, terminal, terminalStarting, terminalLaunchId, terminalCapture, epoch)
    }

    ghost predicate Valid()
      reads this
    {
      Safe(View())
    }

    /** Nothing runs in a restored application, whatever was trusted before. */
    constructor (authorities: seq<Authority>, epoch: nat)
      ensures View() == App(authorities, 0, NoOverlay, false, false, 0, false, epoch)
      ensures Valid() && forall id :: !Wanted(View(), id)
    {
      this.authorities, this.epoch := authorities, epoch;
      currentAuthority, overlay, terminal := 0, NoOverlay, false;
      terminalStarting, terminalLaunchId, terminalCapture := false, 0, false;
    }

    /**
     A launch is wanted afterwards only under a trusted, connected authority; unless a running
     terminal was captured, no earlier launch is.
     */
    method OpenTerminal(sshConnected: bool, running: bool)
      requires Valid()
      modifies this
      ensures Valid() && SameTrust(View(), old(View()))
      ensures terminalStarting ==> TrustedAt(View(), currentAuthority) && (View().CurrentIsSsh() ==> sshConnected)
      ensures terminalCapture ==> terminal && old(terminal) && running
      ensures !terminalCapture ==> NoneWantedUpTo(View(), old(terminalLaunchId))
      ensures Wanted(View(), terminalLaunchId) <==>
        MayOpen(old(View()), sshConnected) && !(old(terminal) && running)
      ensures View() == Step(old(View()), Action.OpenTerminal(sshConnected, running))
    {
      var trusted := currentAuthority < |authorities| && authorities[currentAuthority].trust == Trusted;
      var ssh := currentAuthority < |authorities| && authorities[currentAuthority].kind == Ssh;
      if !trusted || (ssh && !sshConnected) {
        Withdraw();
      } else if terminal && running {
        terminalCapture := true;
      } else {
        terminal := false;
        Withdraw();
        terminalStarting := true;
      }
    }

    method Withdraw()
      modifies this`terminalStarting, this`terminalLaunchId, this`terminalCapture
      ensures View() == old(View()).Withdrawn()
    {
      terminalStarting := false;
      terminalLaunchId := terminalLaunchId + 1;
      terminalCapture := false;
    }

    /** Nothing runs, and no launch made so far can attach any more. */
    method CloseTerminal()
      requires Valid()
      modifies this
      ensures Valid() && !terminal && NoneWantedUpTo(View(), old(terminalLaunchId)) && SameTrust(View(), old(View()))
      ensures View() == Step(old(View()), Action.CloseTerminal)
    {
      Withdraw();
      terminal := false;
    }

    /** With another authority current nothing of the former one runs or can still attach. */
    method CycleAuthority()
      requires Valid()
      modifies this
      ensures Valid() && SameTrust(View(), old(View()))
      ensures currentAuthority != old(currentAuthority) ==>
        !terminal && NoneWantedUpTo(View(), old(terminalLaunchId))
      ensures |authorities| >= 2 ==> currentAuthority < |authorities| && NoneWantedUpTo(View(), old(terminalLaunchId))
      ensures View() == Step(old(View()), Action.CycleAuthority)
    {
      if |authorities| >= 2 {
        currentAuthority := (currentAuthority + 1) % |authorities|;
        Withdraw();
        terminal := false;
      }
    }

    /** The authority of that name is current, as trusted as it was; nothing of the former one runs or can attach. */
    method SelectSshAuthority(name: string)
      requires Valid()
      modifies this
      ensures Valid() && SameTrust(View(), old(View()))
      ensures currentAuthority < |authorities| && authorities[currentAuthority].kind == Ssh
        && authorities[currentAuthority].name == name
      ensures !terminal && NoneWantedUpTo(View(), old(terminalLaunchId))
      ensures View() == Step(old(View()), Action.SelectSshAuthority(name))
    {
      var index := SshIndex(authorities, name);
      SshIndexFound(authorities, name);
      if index == |authorities| {
        authorities := authorities + [Authority(Ssh, name, InspectOnly)];
      }
      currentAuthority := index;
      Withdraw();
      terminal := false;
    }

    /** Trust is gained by the current authority, with the grant control focused in the review, or not at all. */
    method GrantTrust()
      requires Valid()
      modifies this
      ensures Valid()
      ensures forall i: nat :: TrustedAt(View(), i) <==>
        TrustedAt(old(View()), i) || (i == currentAuthority < |authorities| && old(overlay) == TrustReview(true))
      ensures terminal == old(terminal) && forall id :: Wanted(View(), id) <==> Wanted(old(View()), id)
      ensures View() == Step(old(View()), Action.GrantTrust)
    {
      if overlay == TrustReview(true) {
        if currentAuthority < |authorities| {
          authorities := authorities[currentAuthority := authorities[currentAuthority].(trust := Trusted)];
        }
        overlay := NoOverlay;
      }
    }

    /** Exactly the current authority loses its trust, and nothing runs or can still attach. */
    method RevokeTrust()
      requires Valid()
      modifies this
      ensures Valid() && !terminal && NoneWantedUpTo(View(), old(terminalLaunchId))
      ensures forall i: nat :: TrustedAt(View(), i) <==> TrustedAt(old(View()), i) && i != currentAuthority
      ensures View() == Step(old(View()), Action.RevokeTrust)
    {
      if currentAuthority < |authorities| {
        authorities := authorities[currentAuthority := authorities[currentAuthority].(trust := InspectOnly)];
      }
      Withdraw();
      terminal := false;
      overlay := NoOverlay;
    }

    /** No palette item grants trust. What takes it away also stops the terminal. */
    method ActivateFocused()
      requires Valid()
      modifies this
      ensures Valid() && !overlay.CommandPalette? && overlay != TrustReview(true)
      ensures forall i: nat | TrustedAt(View(), i) :: TrustedAt(old(View()), i)
      ensures !SameTrust(View(), old(View())) ==> !terminal && NoneWantedUpTo(View(), old(terminalLaunchId))
      ensures View() == Step(old(View()), Action.ActivateFocused)
    {
      if overlay.CommandPalette? && overlay.selected < |overlay.items| {
        var item := overlay.items[overlay.selected];
        overlay := NoOverlay;
        if item == ReviewItem {
          overlay := TrustReview(false);
        } else {
          RevokeTrust();
        }
        return;
      }
      overlay := NoOverlay;
    }

    /** A terminal appears only if the launch was wanted, and a result of this epoch is used up at most once. */
    method AttachTerminal(epoch: nat, launchId: nat, sessionEpoch: nat, resizes: bool)
      requires Valid()
      modifies this
      ensures Valid() && SameTrust(View(), old(View()))
      ensures terminal && !old(terminal) <==>
        Wanted(old(View()), launchId) && epoch == this.epoch && sessionEpoch == epoch && resizes
      ensures old(terminal) ==> terminal
      ensures forall id :: Wanted(View(), id) <==>
        Wanted(old(View()), id) && !(id == launchId && epoch == this.epoch && sessionEpoch == epoch)
      ensures View() == Step(old(View()), Attach(epoch, launchId, sessionEpoch, resizes))
    {
      if epoch != this.epoch || launchId != terminalLaunchId || !terminalStarting || sessionEpoch != epoch {
        return;
      }
      terminalStarting := false;
      terminalCapture := resizes;
      if resizes {
        terminal := true;
      }
    }

    /** A failure ends the wait for its own launch only. */
    method FailTerminalStart(epoch: nat, launchId: nat)
      requires Valid()
      modifies this
      ensures Valid() && terminal == old(terminal) && SameTrust(View(), old(View()))
      ensures forall id :: Wanted(View(), id) <==> Wanted(old(View()), id) && !(id == launchId && epoch == this.epoch)
      ensures View() == Step(old(View()), FailStart(epoch, launchId))
    {
      if epoch == this.epoch && launchId == terminalLaunchId && terminalStarting {
        terminalStarting := false;
        terminalCapture := false;
      }
    }

    /** Input ends a terminal only by failing, and then it is no longer captured. */
    method TerminalInput(fails: bool)
      requires Valid()
      modifies this
      ensures Valid() && SameTrust(View(), old(View())) && terminalCapture == (old(terminalCapture) && !fails)
      ensures terminal != old(terminal) <==> old(terminalCapture) && fails
      ensures forall id :: Wanted(View(), id) <==> Wanted(old(View()), id)
      ensures View() == Step(old(View()), Action.TerminalInput(fails))
    {
      if terminalCapture && terminal && fails {
        terminal := false;
        terminalCapture := false;
      }
    }

    method MoveFocus(forward: bool)
      requires Valid()
      modifies this`overlay
      ensures Valid() && View() == Moved(old(View()), forward)
    {
      match overlay
      case TrustReview(focused) => overlay := TrustReview(!focused);
      case CommandPalette(items, selected) =>
        if items != [] {
          var next := if forward then (selected + 1) % |items|
                      else if selected == 0 then |items| - 1 else selected - 1;
          overlay := CommandPalette(items, next);
        }
      case _ =>
    }

    /** The authority is known afterwards, and no authority became trusted or changed its place. */
    method RegisterSshAuthority(name: string)
      requires Valid()
      modifies this`authorities
      ensures Valid() && SameTrust(View(), old(View())) && old(authorities) <= authorities
      ensures SshIndex(authorities, name) < |authorities|
      ensures View() == Step(old(View()), Action.RegisterSshAuthority(name))
    {
      var index := SshIndex(authorities, name);
      SshIndexFound(authorities, name);
      if index == |authorities| {
        authorities := authorities + [Authority(Ssh, name, InspectOnly)];
      }
    }

    /**
     Whatever the user or the event loop asks for: no terminal without trust, trust only by grant,
     and a launch wanted until its result comes or something invalidates it.
     */
    method ApplyAction(a: Action)
      requires Valid()
      modifies this
      ensures Valid()
      ensures forall i: nat | TrustedAt(View(), i) && !TrustedAt(old(View()), i) ::
        a == Action.GrantTrust && old(overlay) == TrustReview(true) && i == old(currentAuthority)
      ensures forall id | Wanted(old(View()), id) && !Settles(a, id) ::
        Wanted(View(), id) <==> !Invalidates(old(View()), a)
      ensures View() == Step(old(View()), a)
    {
      StepFacts(View(), a);
      hide SshIndex, Safe, Wanted, TrustedAt, Invalidates, Settles, SameTrust, NoneWantedUpTo;
      match a
      case OpenTerminal(sshConnected, running) => OpenTerminal(sshConnected, running);
      case CloseTerminal => CloseTerminal();
      case CycleAuthority => CycleAuthority();
      case SelectSshAuthority(name) => SelectSshAuthority(name);
      case RegisterSshAuthority(name) => RegisterSshAuthority(name);
      case ReviewTrust => overlay := TrustReview(false);
      case NextControl => MoveFocus(true);
      case PrevControl => MoveFocus(false);
      case GrantTrust => GrantTrust();
      case RevokeTrust => RevokeTrust();
      case ActivateFocused => ActivateFocused();
      case OpenCommandPalette => overlay := CommandPalette(View().PaletteItems(), 0);
      case PaletteQuery(items) =>
        if overlay.CommandPalette? {
          overlay := CommandPalette(items, 0);
        }
      case OpenOther => overlay := OtherOverlay;
      case CancelModal => overlay := NoOverlay;
      case FocusLandmark(bottom, running) => terminalCapture := bottom && terminal && running;
      case ReleaseCapture => terminalCapture := false;
      case TerminalInput(fails) => TerminalInput(fails);
      case Attach(epoch, launchId, sessionEpoch, resizes) => AttachTerminal(epoch, launchId, sessionEpoch, resizes);
      case FailStart(epoch, launchId) => FailTerminalStart(epoch, launchId);
    }
  }
}
