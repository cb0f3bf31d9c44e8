/**
 * The reconnect monitor: after a disconnect it polls the root port and emits one recovery signal when the
 * port, once seen empty, has been occupied for fifteen polls in a row.
 *
 * `Monitor` is what the lock protects; the class has the critical sections of work, arm, cancel and exit
 * and is proved against the functions on it. `Next` interleaves them with what happens outside the lock:
 * taking and dropping host-controller references, and waiting for the delayed work. Callers stand at the
 * program points of their functions, and each releases what its own critical section gave it.
 */
module Reconnect {
  import opened Bytes

  const STABLE_POLLS: nat := 15
  const MAX_POLLS: nat := 6000

  // ---------------------------------------------------------------- the port a device hangs off

  datatype UsbDevice = RootHub(hcd: nat) | Child(parent: UsbDevice, port: nat)

  function HcdOf(d: UsbDevice): nat {
    match d case RootHub(hcd) => hcd case Child(parent, _) => HcdOf(parent)
  }

  /** The ports from the root hub down to the device. */
  function PortPath(d: UsbDevice): seq<nat> {
    match d case RootHub(_) => [] case Child(parent, port) => PortPath(parent) + [port]
  }

  /** gud_reconnect_root_child: the ancestor plugged into the root hub; none for the hub itself. */
  method RootChild(d: UsbDevice) returns (root: Option<UsbDevice>)
    ensures root.None? <==> d.RootHub?
    ensures root.Some? ==>
              && root.value.Child? && root.value.parent == RootHub(HcdOf(d))
              && root.value.port == PortPath(d)[0]
  {
    if d.RootHub? {
      return None;
    }
    var at := d;
    while at.parent.Child?
      invariant at.Child? && HcdOf(at) == HcdOf(d) && PortPath(at) <= PortPath(d)
      decreases at
    {
      at := at.parent;
    }
    assert PortPath(at)[0] == at.port;
    root := Some(at);
  }

  // ---------------------------------------------------------------- the critical sections

  /** What reading the port status gave. */
  datatype Probe = Unreadable | Status(bits: u32)
  datatype Poll = Failed | Empty | Occupied

  /** Bit 0 of the port status is the connection. */
  function Seen(p: Probe): Poll {
    match p
    case Unreadable => Failed
    case Status(bits) => if bits % 2 == 0 then Empty else Occupied
  }

  datatype Monitor = Monitor(hcd: Option<nat>, port: nat, polls: nat, stable: nat, detached: bool, stopping: bool)

  datatype Ending = GoesOn | Notifies | TimesOut

  function Counted(m: Monitor, poll: Poll): Monitor {
    var m := m.(polls := m.polls + 1);
    if poll.Empty? then m.(detached := true, stable := 0)
    else if poll.Occupied? && m.detached then m.(stable := m.stable + 1)
    else m.(stable := 0)
  }

  /** One poll of an armed monitor. */
  function EndingOf(m: Monitor, poll: Poll): Ending {
    var after := Counted(m, poll);
    if poll.Occupied? && after.detached && after.stable >= STABLE_POLLS then Notifies
    else if after.polls >= MAX_POLLS then TimesOut
    else GoesOn
  }

  function Polled(m: Monitor, poll: Poll): Monitor {
    if EndingOf(m, poll).GoesOn? then Counted(m, poll) else Counted(m, poll).(hcd := None)
  }

  predicate Arms(m: Monitor) { !m.stopping && m.hcd.None? }

  function Armed(m: Monitor, hcd: nat, port: nat): Monitor {
    Monitor(Some(hcd), port, 0, 0, false, m.stopping)
  }

  predicate Matches(m: Monitor, hcd: nat, port: nat) { m.hcd == Some(hcd) && m.port == port }

  class ReconnectMonitor {
    var hcd: Option<nat>
    var portnum: nat
    var polls: nat
    var stablePolls: nat
    var detachedObserved: bool
    var stopping: bool

    ghost function View(): Monitor
      reads this
    {
      Monitor(hcd, portnum, polls, stablePolls, detachedObserved, stopping)
    }

    constructor ()
      ensures View() == Monitor(None, 0, 0, 0, false, false)
    {
      hcd, portnum, polls, stablePolls, detachedObserved, stopping := None, 0, 0, 0, false, false;
    }

    /** The locked part of gud_reconnect_work; `again` is whether it schedules itself. */
    method Work(probe: Probe) returns (finished: Option<nat>, notify: bool, timeout: bool, again: bool)
      modifies this
      ensures var m := old(View());
              if m.hcd.None? || m.stopping then
                View() == m && finished.None? && !notify && !timeout && !again
              else
                && View() == Polled(m, Seen(probe))
                && notify == EndingOf(m, Seen(probe)).Notifies? && timeout == EndingOf(m, Seen(probe)).TimesOut?
                && finished == (if notify || timeout then m.hcd else None) && again == View().hcd.Some?
      ensures old(hcd).Some? && !old(stopping) ==>
                && detachedObserved == (old(detachedObserved) || (probe.Status? && probe.bits % 2 == 0))
                && stablePolls == (if old(detachedObserved) && probe.Status? && probe.bits % 2 == 1
                                   then old(stablePolls) + 1 else 0)
    {
      finished, notify, timeout, again := None, false, false, false;
      if hcd.None? || stopping {
        return;
      }
      polls := polls + 1;
      if probe.Status? && probe.bits % 2 == 0 {
        detachedObserved := true;
        stablePolls := 0;
      } else if probe.Status? && detachedObserved {
        stablePolls := stablePolls + 1;
        if stablePolls >= STABLE_POLLS {
          notify := true;
          finished := hcd;
          hcd := None;
        }
      } else {
        stablePolls := 0;
      }
      if finished.None? && polls >= MAX_POLLS {
        timeout := true;
        finished := hcd;
        hcd := None;
      }
      again := hcd.Some?;
    }

    /** The locked part of gud_reconnect_arm; when it does not arm, the caller drops its reference. */
    method Arm(controller: nat, port: nat) returns (armed: bool)
      modifies this
      ensures armed == Arms(old(View()))
      ensures View() == if armed then Armed(old(View()), controller, port) else old(View())
    {
      if stopping || hcd.Some? {
        return false;
      }
      hcd, portnum, polls, stablePolls, detachedObserved := Some(controller), port, 0, 0, false;
      armed := true;
    }

    /** The locked part of gud_reconnect_cancel. */
    method Cancel(controller: nat, port: nat) returns (taken: Option<nat>)
      modifies this
      ensures var m := old(View());
              if Matches(m, controller, port) then taken == m.hcd && View() == m.(hcd := None)
              else taken == None && View() == m
    {
      taken := None;
      if hcd == Some(controller) && portnum == port {
        taken := hcd;
        hcd := None;
      }
    }

    /** The locked part of gud_reconnect_exit. */
    method Exit() returns (taken: Option<nat>)
      modifies this
      ensures taken == old(View()).hcd && View() == old(View()).(hcd := None, stopping := true)
    {
      stopping := true;
      taken := hcd;
      hcd := None;
    }
  }

  // ---------------------------------------------------------------- all interleavings

  /** The delayed work: not running, started but not yet locked, or unlocked and about to drop a reference. */
  datatype Worker = Idle | Entered | Leaving(finished: Option<nat>)

  /**
   * Where a caller stands with a reference in its hands: arm before the lock, arm after a refusal, cancel
   * and exit after their wait. A caller that has returned is gone.
   */
  datatype Caller = Arming(hcd: nat) | Refused(hcd: nat) | CancelWaited(hcd: nat) | ExitWaited(hcd: nat)

  /**
   * `cancelling` and `exiting` are the callers between their lock and the end of their wait for the work,
   * each with what it took out; `acquired` and `released` are all references taken and dropped so far;
   * `session` are the polls since the monitor was last armed, `signals` the recovery signals among them.
   */
  datatype State = State(
    monitor: Monitor, pending: bool, worker: Worker, callers: multiset<Caller>, cancelling: multiset<nat>,
    exiting: multiset<Option<nat>>, exited: bool, acquired: multiset<nat>, released: multiset<nat>,
    session: seq<Poll>, signals: nat)

  const INITIALLY: State :=
    State(Monitor(None, 0, 0, 0, false, false), false, Idle, multiset{}, multiset{}, multiset{}, false,
          multiset{}, multiset{}, [], 0)

  datatype Action =
    | Get(hcd: nat)
    | ArmLock(hcd: nat, port: nat)
    | StartWork
    | WorkLock(poll: Poll)
    | WorkEnd
    | CancelLock(hcd: nat, port: nat)
    | CancelWait(hcd: nat)
    | ExitLock
    | ExitWait(taken: Option<nat>)
    | Put(caller: Caller)

  predicate Enabled(s: State, a: Action) {
    match a
    case Get(_) => true
    case ArmLock(hcd, _) => Arming(hcd) in s.callers
    case StartWork => s.pending && s.worker.Idle?
    case WorkLock(_) => s.worker.Entered?
    case WorkEnd => s.worker.Leaving?
    case CancelLock(_, _) => true
    case CancelWait(hcd) => hcd in s.cancelling && s.worker.Idle?
    case ExitLock => true
    case ExitWait(taken) => taken in s.exiting && s.worker.Idle?
    case Put(caller) => caller in s.callers && !caller.Arming?
  }

  function One(hcd: Option<nat>): multiset<nat> {
    match hcd case Some(h) => multiset{h} case None => multiset{}
  }

  function AfterPoll(s: State, poll: Poll): State {
    var m, ending := s.monitor, EndingOf(s.monitor, poll);
    s.(monitor := Polled(m, poll),
       worker := Leaving(if ending.GoesOn? then None else m.hcd),
       pending := s.pending || ending.GoesOn?,
       session := s.session + [poll],
       signals := if ending.Notifies? then s.signals + 1 else s.signals)
  }

  function Next(s: State, a: Action): State
    requires Enabled(s, a)
  {
    match a
    case Get(hcd) => s.(acquired := s.acquired + multiset{hcd}, callers := s.callers + multiset{Arming(hcd)})
    case ArmLock(hcd, port) =>
      var others := s.callers - multiset{Arming(hcd)};
      if !Arms(s.monitor) then s.(callers := others + multiset{Refused(hcd)}) else
      s.(monitor := Armed(s.monitor, hcd, port), callers := others, pending := true, session := [], signals := 0)
    case StartWork => s.(pending := false, worker := Entered)
    case WorkLock(poll) =>
      if s.monitor.hcd.None? || s.monitor.stopping then s.(worker := Leaving(None)) else AfterPoll(s, poll)
    case WorkEnd => s.(worker := Idle, released := s.released + One(s.worker.finished))
    case CancelLock(hcd, port) =>
      if !Matches(s.monitor, hcd, port) then s else
      s.(monitor := s.monitor.(hcd := None), cancelling := s.cancelling + multiset{hcd})
    case CancelWait(hcd) =>
      s.(pending := false, cancelling := s.cancelling - multiset{hcd},
         callers := s.callers + multiset{CancelWaited(hcd)})
    case ExitLock =>
      s.(monitor := s.monitor.(hcd := None, stopping := true), exiting := s.exiting + multiset{s.monitor.hcd})
    case ExitWait(taken) =>
      s.(pending := false, exited := true, exiting := s.exiting - multiset{taken},
         callers := match taken case None => s.callers case Some(h) => s.callers + multiset{ExitWaited(h)})
    case Put(caller) =>
      s.(callers := s.callers - multiset{caller}, released := s.released + multiset{caller.hcd})
  }

  function Execute(actions: seq<Action>): Option<State> {
    if actions == [] then Some(INITIALLY) else
    match Execute(actions[..|actions| - 1])
    case None => None
    case Some(s) => var a := actions[|actions| - 1]; if Enabled(s, a) then Some(Next(s, a)) else None
  }

  lemma ExecuteMore(actions: seq<Action>, a: Action)
    requires Execute(actions).Some? && Enabled(Execute(actions).value, a)
    ensures Execute(actions + [a]) == Some(Next(Execute(actions).value, a))
  {
    assert (actions + [a])[..|actions|] == actions;
  }

  // ---------------------------------------------------------------- references

  function Count(b: bool): nat { if b then 1 else 0 }

  /** How many callers have a reference to the controller in their hands. */
  function InHands(callers: multiset<Caller>, hcd: nat): nat {
    callers[Arming(hcd)] + callers[Refused(hcd)] + callers[CancelWaited(hcd)] + callers[ExitWaited(hcd)]
  }

  lemma CallerComes(callers: multiset<Caller>, c: Caller, hcd: nat)
    ensures InHands(callers + multiset{c}, hcd) == InHands(callers, hcd) + Count(c.hcd == hcd)
  {
  }

  lemma CallerGoes(callers: multiset<Caller>, c: Caller, hcd: nat)
    requires c in callers
    ensures InHands(callers - multiset{c}, hcd) == InHands(callers, hcd) - Count(c.hcd == hcd)
  {
  }

  /** How many references to the controller are held: by the monitor, the worker, and callers under way. */
  function Held(s: State, hcd: nat): nat {
    Count(s.monitor.hcd == Some(hcd)) + Count(s.worker == Leaving(Some(hcd)))
    + InHands(s.callers, hcd) + s.cancelling[hcd] + s.exiting[Some(hcd)]
  }

  predicate Balanced(s: State, hcd: nat) {
    s.acquired[hcd] == s.released[hcd] + Held(s, hcd)
  }

  lemma GetBalanced(s: State, hcd: nat, x: nat)
    requires Balanced(s, x)
    ensures Balanced(Next(s, Get(hcd)), x)
  {
    CallerComes(s.callers, Arming(hcd), x);
  }

  lemma ArmBalanced(s: State, hcd: nat, port: nat, x: nat)
    requires Balanced(s, x) && Arming(hcd) in s.callers
    ensures Balanced(Next(s, ArmLock(hcd, port)), x)
  {
    var others, t := s.callers - multiset{Arming(hcd)}, Next(s, ArmLock(hcd, port));
    CallerGoes(s.callers, Arming(hcd), x);
    if Arms(s.monitor) {
      assert t.callers == others && t.monitor.hcd == Some(hcd);
    } else {
      CallerComes(others, Refused(hcd), x);
      assert t.callers == others + multiset{Refused(hcd)} && t.monitor == s.monitor;
    }
  }

  lemma PollBalanced(s: State, poll: Poll, x: nat)
    requires Balanced(s, x) && s.worker.Entered?
    ensures Balanced(Next(s, WorkLock(poll)), x)
  {
  }

  lemma WorkEndBalanced(s: State, x: nat)
    requires Balanced(s, x) && s.worker.Leaving?
    ensures Balanced(Next(s, WorkEnd), x)
  {
  }

  lemma CancelWaitBalanced(s: State, hcd: nat, x: nat)
    requires Balanced(s, x) && Enabled(s, CancelWait(hcd))
    ensures Balanced(Next(s, CancelWait(hcd)), x)
  {
    CallerComes(s.callers, CancelWaited(hcd), x);
  }

  lemma ExitWaitBalanced(s: State, taken: Option<nat>, x: nat)
    requires Balanced(s, x) && Enabled(s, ExitWait(taken))
    ensures Balanced(Next(s, ExitWait(taken)), x)
  {
    if taken.Some? {
      CallerComes(s.callers, ExitWaited(taken.value), x);
    }
  }

  lemma LockBalanced(s: State, a: Action, x: nat)
    requires Balanced(s, x) && Enabled(s, a) && (a.CancelLock? || a.ExitLock?)
    ensures Balanced(Next(s, a), x)
  {
  }

  lemma PutBalanced(s: State, caller: Caller, x: nat)
    requires Balanced(s, x) && Enabled(s, Put(caller))
    ensures Balanced(Next(s, Put(caller)), x)
  {
    CallerGoes(s.callers, caller, x);
  }

  lemma StepBalanced(s: State, a: Action, x: nat)
    requires Balanced(s, x) && Enabled(s, a)
    ensures Balanced(Next(s, a), x)
  {
    match a
    case StartWork =>
    case Get(hcd) => GetBalanced(s, hcd, x);
    case ArmLock(hcd, port) => ArmBalanced(s, hcd, port, x);
    case WorkLock(poll) => PollBalanced(s, poll, x);
    case WorkEnd => WorkEndBalanced(s, x);
    case CancelLock(_, _) => LockBalanced(s, a, x);
    case ExitLock => LockBalanced(s, a, x);
    case CancelWait(hcd) => CancelWaitBalanced(s, hcd, x);
    case ExitWait(taken) => ExitWaitBalanced(s, taken, x);
    case Put(caller) => PutBalanced(s, caller, x);
  }

  /**
   * In every interleaving, for every controller: references acquired are those released plus those of the
   * monitor, of the worker, and of callers on their way to releasing what they took themselves. In
   * particular nothing is released that was not acquired.
   */
  lemma {:induction false} AlwaysBalanced(actions: seq<Action>, hcd: nat)
    requires Execute(actions).Some?
    ensures Balanced(Execute(actions).value, hcd)
  {
    if actions != [] {
      var before := actions[..|actions| - 1];
      AlwaysBalanced(before, hcd);
      StepBalanced(Execute(before).value, actions[|actions| - 1], hcd);
    }
  }

  predicate AllReturned(s: State) {
    s.callers == multiset{} && s.cancelling == multiset{} && s.exiting == multiset{}
  }

  /** With no caller under way and the worker idle, every reference but the armed one has been released once. */
  lemma OnlyTheArmedIsLeft(actions: seq<Action>)
    requires Execute(actions).Some?
    requires AllReturned(Execute(actions).value) && Execute(actions).value.worker.Idle?
    ensures var s := Execute(actions).value; s.acquired == s.released + One(s.monitor.hcd)
  {
    var s := Execute(actions).value;
    forall hcd: nat
      ensures s.acquired[hcd] == (s.released + One(s.monitor.hcd))[hcd]
    {
      AlwaysBalanced(actions, hcd);
    }
  }

  // ---------------------------------------------------------------- sessions

  /** How many polls in a row found the port occupied, up to now. */
  function Streak(session: seq<Poll>): nat {
    if session == [] || !session[|session| - 1].Occupied? then 0 else 1 + Streak(session[..|session| - 1])
  }

  /** The condition for the signal, stated on the poll results alone. */
  predicate Recovered(session: seq<Poll>) {
    && Empty in session && |session| >= 15
    && forall i :: |session| - 15 <= i < |session| ==> session[i] == Occupied
  }

  lemma {:induction false} StreakMeans(session: seq<Poll>, n: nat)
    requires n <= |session|
    ensures Streak(session) >= n <==> forall i :: |session| - n <= i < |session| ==> session[i] == Occupied
  {
    if n > 0 {
      var before := session[..|session| - 1];
      StreakMeans(before, n - 1);
      assert session[|session| - 1] == Occupied ==> Streak(session) == 1 + Streak(before);
      if forall i :: |session| - n <= i < |session| ==> session[i] == Occupied {
        assert forall i :: |before| - (n - 1) <= i < |before| ==> before[i] == session[i];
      }
      if Streak(session) >= n {
        assert forall i :: |session| - n <= i < |session| - 1 ==> session[i] == before[i];
      }
    }
  }

  lemma {:induction false} StreakBounded(session: seq<Poll>)
    ensures Streak(session) <= |session|
  {
    if session != [] {
      StreakBounded(session[..|session| - 1]);
    }
  }

  /** The counters of an armed monitor are those of its session; a finished session had at most one signal. */
  predicate Honest(s: State) {
    var m := s.monitor;
    && |s.session| <= 6000 && s.signals <= 1
    && (m.stopping ==> m.hcd.None?)
    && (m.hcd.Some? ==>
          && s.signals == 0 && m.polls == |s.session| < MAX_POLLS
          && m.detached == (Empty in s.session)
          && m.stable == (if m.detached then Streak(s.session) else 0) < STABLE_POLLS)
    && (s.signals == 1 ==> Recovered(s.session))
  }

  /** A poll notifies exactly when its session, with it, shows a detach and fifteen occupied polls at the end. */
  lemma NotifiesIffRecovered(s: State, poll: Poll)
    requires Honest(s) && s.monitor.hcd.Some?
    ensures EndingOf(s.monitor, poll).Notifies? <==> Recovered(s.session + [poll])
    ensures !EndingOf(s.monitor, poll).GoesOn? <==> Recovered(s.session + [poll]) || |s.session| + 1 == 6000
  {
    var after := s.session + [poll];
    assert after[..|after| - 1] == s.session;
    StreakBounded(after);
    if |after| >= STABLE_POLLS {
      StreakMeans(after, STABLE_POLLS);
    }
  }

  lemma PollHonest(s: State, poll: Poll)
    requires Honest(s) && s.monitor.hcd.Some? && s.worker.Entered?
    ensures Honest(AfterPoll(s, poll))
  {
    NotifiesIffRecovered(s, poll);
    var after := s.session + [poll];
    assert after[..|after| - 1] == s.session;
  }

  lemma StepHonest(s: State, a: Action)
    requires Honest(s) && Enabled(s, a)
    ensures Honest(Next(s, a))
  {
    if a.WorkLock? && s.monitor.hcd.Some? && !s.monitor.stopping {
      PollHonest(s, a.poll);
    }
  }

  /**
   * In every interleaving: at most one recovery signal per arm, only after a session that saw the port
   * empty and then fifteen successful polls in a row saw it occupied; no session has more than 6000
   * polls; nothing is armed once stopping.
   */
  lemma {:induction false} AlwaysHonest(actions: seq<Action>)
    requires Execute(actions).Some?
    ensures Honest(Execute(actions).value)
  {
    if actions != [] {
      var before := actions[..|actions| - 1];
      AlwaysHonest(before);
      StepHonest(Execute(before).value, actions[|actions| - 1]);
    }
  }

  // ---------------------------------------------------------------- what a cancellation takes

  /** The arm, when it is this one, arms. */
  predicate Begins(before: seq<Action>, a: Action) {
    a.ArmLock? && Execute(before).Some? && Arms(Execute(before).value.monitor)
  }

  /** The controller and port of the last arm that armed. */
  function LastArmed(actions: seq<Action>): Option<(nat, nat)> {
    if actions == [] then None else
    var before, a := actions[..|actions| - 1], actions[|actions| - 1];
    if Begins(before, a) then Some((a.hcd, a.port)) else LastArmed(before)
  }

  lemma StepArmedAs(s: State, a: Action, last: Option<(nat, nat)>)
    requires Enabled(s, a) && (s.monitor.hcd.Some? ==> last == Some((s.monitor.hcd.value, s.monitor.port)))
    ensures var m, begins := Next(s, a).monitor, a.ArmLock? && Arms(s.monitor);
            m.hcd.Some? ==> (if begins then Some((a.hcd, a.port)) else last) == Some((m.hcd.value, m.port))
  {
  }

  lemma {:induction false} ArmedAsAsked(actions: seq<Action>)
    requires Execute(actions).Some?
    ensures var m := Execute(actions).value.monitor;
            m.hcd.Some? ==> LastArmed(actions) == Some((m.hcd.value, m.port))
  {
    if actions != [] {
      var before := actions[..|actions| - 1];
      ArmedAsAsked(before);
      StepArmedAs(Execute(before).value, actions[|actions| - 1], LastArmed(before));
    }
  }

  /**
   * In every interleaving a cancellation disarms exactly the session that was armed for its controller and
   * its port; any other leaves everything as it is.
   */
  lemma CancelIsExact(actions: seq<Action>, hcd: nat, port: nat)
    requires Execute(actions).Some? && Execute(actions).value.monitor.hcd.Some?
    ensures var s := Execute(actions).value;
            var t := Next(s, CancelLock(hcd, port));
            if LastArmed(actions) == Some((hcd, port)) then
              t.monitor.hcd.None? && t.cancelling == s.cancelling + multiset{hcd}
            else t == s
  {
    ArmedAsAsked(actions);
  }

  // ---------------------------------------------------------------- exit, and keeping a poll pending

  /** Once exit has waited for the work, none is pending or running, and nothing is armed. */
  predicate Ended(s: State) {
    && (s.exiting != multiset{} || s.exited ==> s.monitor.stopping)
    && (s.exited ==> s.monitor.hcd.None? && !s.pending && s.worker.Idle?)
  }

  lemma StepEnded(s: State, a: Action)
    requires Ended(s) && (s.monitor.stopping ==> s.monitor.hcd.None?) && Enabled(s, a)
    ensures Ended(Next(s, a))
  {
  }

  lemma {:induction false} NothingAfterExit(actions: seq<Action>)
    requires Execute(actions).Some?
    ensures Ended(Execute(actions).value)
  {
    if actions != [] {
      var before := actions[..|actions| - 1];
      NothingAfterExit(before);
      AlwaysHonest(before);
      StepEnded(Execute(before).value, actions[|actions| - 1]);
    }
  }

  /** After exit, once every caller has returned, no reference is left. */
  lemma NothingLeaks(actions: seq<Action>)
    requires Execute(actions).Some? && Execute(actions).value.exited && AllReturned(Execute(actions).value)
    ensures Execute(actions).value.released == Execute(actions).value.acquired
  {
    NothingAfterExit(actions);
    OnlyTheArmedIsLeft(actions);
  }

  /** Some cancellation has ended its wait since the monitor was last armed. */
  predicate WaitEndedSinceArm(actions: seq<Action>) {
    actions != [] &&
    var before, a := actions[..|actions| - 1], actions[|actions| - 1];
    a.CancelWait? || (!Begins(before, a) && WaitEndedSinceArm(before))
  }

  /** While armed: a poll is coming exactly when no wait has ended in this session. */
  predicate Watched(s: State, waitEnded: bool) {
    s.monitor.hcd.Some? ==> (s.pending || s.worker.Entered? <==> !waitEnded)
  }

  lemma StepWatched(s: State, a: Action, waitEnded: bool)
    requires Watched(s, waitEnded) && Ended(s) && (s.monitor.stopping ==> s.monitor.hcd.None?) && Enabled(s, a)
    ensures Watched(Next(s, a), a.CancelWait? || (!(a.ArmLock? && Arms(s.monitor)) && waitEnded))
  {
  }

  /**
   * In every interleaving: an armed monitor has a poll pending or about to run if and only if no
   * cancellation has ended its wait since the monitor was armed.
   */
  lemma {:induction false} ArmedIsWatchedIff(actions: seq<Action>)
    requires Execute(actions).Some?
    ensures Watched(Execute(actions).value, WaitEndedSinceArm(actions))
  {
    if actions != [] {
      var before := actions[..|actions| - 1];
      ArmedIsWatchedIff(before);
      NothingAfterExit(before);
      AlwaysHonest(before);
      StepWatched(Execute(before).value, actions[|actions| - 1], WaitEndedSinceArm(before));
    }
  }

  /** When the monitor was last armed, a cancellation stood between its lock and the end of its wait. */
  predicate ArmedAmidCancel(actions: seq<Action>) {
    actions != [] &&
    var before, a := actions[..|actions| - 1], actions[|actions| - 1];
    if Begins(before, a) then Execute(before).value.cancelling != multiset{} else ArmedAmidCancel(before)
  }

  predicate Undisturbed(s: State, amidCancel: bool, waitEnded: bool) {
    s.monitor.hcd.Some? && !amidCancel ==> s.cancelling == multiset{} && !waitEnded
  }

  lemma StepUndisturbed(s: State, a: Action, amidCancel: bool, waitEnded: bool)
    requires Undisturbed(s, amidCancel, waitEnded) && Enabled(s, a)
    ensures var begins := a.ArmLock? && Arms(s.monitor);
            Undisturbed(Next(s, a), if begins then s.cancelling != multiset{} else amidCancel,
                        a.CancelWait? || (!begins && waitEnded))
  {
  }

  lemma {:induction false} NoWaitToEnd(actions: seq<Action>)
    requires Execute(actions).Some?
    ensures Undisturbed(Execute(actions).value, ArmedAmidCancel(actions), WaitEndedSinceArm(actions))
  {
    if actions != [] {
      var before := actions[..|actions| - 1];
      NoWaitToEnd(before);
      StepUndisturbed(
        Execute(before).value, actions[|actions| - 1], ArmedAmidCancel(before), WaitEndedSinceArm(before));
    }
  }

  /** So a session armed while no cancellation was waiting has a poll coming, whatever comes before or after. */
  lemma ArmedIsWatching(actions: seq<Action>)
    requires Execute(actions).Some? && Execute(actions).value.monitor.hcd.Some? && !ArmedAmidCancel(actions)
    ensures Execute(actions).value.pending || Execute(actions).value.worker.Entered?
  {
    ArmedIsWatchedIff(actions);
    NoWaitToEnd(actions);
  }

  /** Armed with no poll coming. */
  predicate Stranded(s: State) {
    s.monitor.hcd.Some? && !s.pending && s.worker.Idle?
  }

  /**
   * The overlap matters: from any armed state, a cancellation whose wait comes after another arm for the
   * port removes the poll of the new session, which stays armed without one.
   */
  lemma OverlapStrandsTheMonitor(actions: seq<Action>, hcd: nat, port: nat)
    requires Execute(actions).Some? && Execute(actions).value.worker.Idle?
    requires Matches(Execute(actions).value.monitor, hcd, port) && !Execute(actions).value.monitor.stopping
    ensures var a2 := actions + [Get(hcd)] + [CancelLock(hcd, port)];
            var run := Execute(a2 + [ArmLock(hcd, port)] + [CancelWait(hcd)]);
            run.Some? && Stranded(run.value)
  {
    ExecuteMore(actions, Get(hcd));
    var a1 := actions + [Get(hcd)];
    ExecuteMore(a1, CancelLock(hcd, port));
    var a2 := a1 + [CancelLock(hcd, port)];
    ExecuteMore(a2, ArmLock(hcd, port));
    ExecuteMore(a2 + [ArmLock(hcd, port)], CancelWait(hcd));
  }

  // ---------------------------------------------------------------- every run can be brought to its end

  /** The worker can always finish what it is at. */
  lemma WorkerFinishes(actions: seq<Action>) returns (run: seq<Action>)
    requires Execute(actions).Some?
    ensures actions <= run && Execute(run).Some? && Execute(run).value.worker.Idle?
    ensures Arms(Execute(actions).value.monitor) ==> Arms(Execute(run).value.monitor)
  {
    run := actions;
    if Execute(run).value.worker.Entered? {
      ExecuteMore(run, WorkLock(Failed));
      run := run + [WorkLock(Failed)];
      assert Arms(Execute(actions).value.monitor) ==> Arms(Execute(run).value.monitor);
    }
    if Execute(run).value.worker.Leaving? {
      ExecuteMore(run, WorkEnd);
      run := run + [WorkEnd];
    }
  }

  /** Stopping, with the work at rest. */
  predicate Closing(s: State) {
    s.worker.Idle? && s.monitor.stopping
  }

  function Steps(s: State): nat {
    2 * |s.cancelling| + 2 * |s.exiting| + |s.callers|
  }

  /** Run goes on from actions, and a call has come closer to its end. */
  ghost predicate Closer(actions: seq<Action>, run: seq<Action>)
    requires Execute(actions).Some?
  {
    && actions <= run && Execute(run).Some? && Closing(Execute(run).value)
    && Steps(Execute(run).value) < Steps(Execute(actions).value)
    && (Execute(actions).value.exited || Execute(actions).value.exiting > Execute(run).value.exiting
        ==> Execute(run).value.exited)
  }

  lemma CancellationReturns(actions: seq<Action>, hcd: nat) returns (run: seq<Action>)
    requires Execute(actions).Some? && Closing(Execute(actions).value) && hcd in Execute(actions).value.cancelling
    ensures Closer(actions, run)
  {
    run := actions + [CancelWait(hcd)];
    ExecuteMore(actions, CancelWait(hcd));
  }

  lemma ExitReturns(actions: seq<Action>, taken: Option<nat>) returns (run: seq<Action>)
    requires Execute(actions).Some? && Closing(Execute(actions).value) && taken in Execute(actions).value.exiting
    ensures Closer(actions, run)
  {
    run := actions + [ExitWait(taken)];
    ExecuteMore(actions, ExitWait(taken));
  }

  lemma RefusedReturns(actions: seq<Action>, caller: Caller) returns (run: seq<Action>)
    requires Execute(actions).Some? && Closing(Execute(actions).value) && caller in Execute(actions).value.callers
    requires !caller.Arming?
    ensures Closer(actions, run)
  {
    run := actions + [Put(caller)];
    ExecuteMore(actions, Put(caller));
  }

  lemma ArmingReturns(actions: seq<Action>, hcd: nat) returns (run: seq<Action>)
    requires Execute(actions).Some? && Closing(Execute(actions).value)
    requires Arming(hcd) in Execute(actions).value.callers
    ensures Closer(actions, run)
  {
    run := actions + [ArmLock(hcd, 0)];
    ExecuteMore(actions, ArmLock(hcd, 0));
    assert Refused(hcd) in Execute(run).value.callers;
    run := RefusedReturns(run, Refused(hcd));
  }

  lemma OneComesCloser(actions: seq<Action>) returns (run: seq<Action>)
    requires Execute(actions).Some? && Closing(Execute(actions).value) && !AllReturned(Execute(actions).value)
    ensures Closer(actions, run)
  {
    var s := Execute(actions).value;
    if hcd :| hcd in s.cancelling {
      run := CancellationReturns(actions, hcd);
    } else if taken :| taken in s.exiting {
      run := ExitReturns(actions, taken);
    } else {
      var caller :| caller in s.callers;
      if caller.Arming? {
        run := ArmingReturns(actions, caller.hcd);
      } else {
        run := RefusedReturns(actions, caller);
      }
    }
  }

  /** While stopping, every call can return. */
  lemma AllReturn(actions: seq<Action>) returns (run: seq<Action>)
    requires Execute(actions).Some? && Closing(Execute(actions).value)
    ensures actions <= run && Execute(run).Some? && AllReturned(Execute(run).value)
    ensures Execute(actions).value.exited || Execute(actions).value.exiting != multiset{} ==> Execute(run).value.exited
    decreases Steps(Execute(actions).value)
  {
    if AllReturned(Execute(actions).value) {
      run := actions;
    } else {
      run := OneComesCloser(actions);
      run := AllReturn(run);
    }
  }

  /** From every reachable state an exit can come to its end, and then nothing acquired is left. */
  lemma ExitCanEnd(actions: seq<Action>) returns (run: seq<Action>)
    requires Execute(actions).Some?
    ensures actions <= run && Execute(run).Some? && Execute(run).value.exited
    ensures Execute(run).value.released == Execute(run).value.acquired
  {
    run := WorkerFinishes(actions);
    ExecuteMore(run, ExitLock);
    run := run + [ExitLock];
    run := AllReturn(run);
    NothingLeaks(run);
  }

  lemma Polls(actions: seq<Action>, poll: Poll) returns (run: seq<Action>)
    requires Execute(actions).Some? && Execute(actions).value.pending && Execute(actions).value.worker.Idle?
    requires Execute(actions).value.monitor.hcd.Some? && !Execute(actions).value.monitor.stopping
    ensures actions <= run
    ensures Execute(run) == Some(AfterPoll(Execute(actions).value.(pending := false, worker := Entered), poll))
  {
    ExecuteMore(actions, StartWork);
    run := actions + [StartWork];
    ExecuteMore(run, WorkLock(poll));
    run := run + [WorkLock(poll)];
  }

  /** One more poll of an armed monitor, by the pending work. */
  lemma PollsAgain(actions: seq<Action>, poll: Poll) returns (run: seq<Action>)
    requires Execute(actions).Some? && Execute(actions).value.pending && Execute(actions).value.worker.Idle?
    requires Execute(actions).value.monitor.hcd.Some? && !Execute(actions).value.monitor.stopping
    ensures actions <= run && Execute(run).Some? && Execute(run).value.worker.Idle?
    ensures var s, t := Execute(actions).value, Execute(run).value;
            && t.session == s.session + [poll] && t.monitor == Polled(s.monitor, poll)
            && t.signals == s.signals + Count(EndingOf(s.monitor, poll).Notifies?)
            && t.pending == EndingOf(s.monitor, poll).GoesOn?
  {
    run := Polls(actions, poll);
    ExecuteMore(run, WorkEnd);
    run := run + [WorkEnd];
  }

  /** A session with a detach and n occupied polls so far, and the next poll coming. */
  predicate Counting(s: State, n: nat) {
    && s.pending && s.worker.Idle? && s.signals == 0
    && s.monitor.hcd.Some? && !s.monitor.stopping && s.monitor.detached
    && s.monitor.stable == n && s.monitor.polls == n + 1
  }

  /** The monitor can be armed and see the port empty. */
  lemma DetachCanBeSeen(actions: seq<Action>, hcd: nat, port: nat) returns (run: seq<Action>)
    requires Execute(actions).Some? && Arms(Execute(actions).value.monitor) && Execute(actions).value.worker.Idle?
    ensures actions <= run && Execute(run).Some? && Counting(Execute(run).value, 0)
  {
    ExecuteMore(actions, Get(hcd));
    run := actions + [Get(hcd)];
    ExecuteMore(run, ArmLock(hcd, port));
    run := run + [ArmLock(hcd, port)];
    run := PollsAgain(run, Empty);
  }

  lemma {:induction false} StableUntilSignal(actions: seq<Action>, n: nat) returns (run: seq<Action>)
    requires n < 15 && Execute(actions).Some? && Counting(Execute(actions).value, n)
    ensures actions <= run && Execute(run).Some? && Execute(run).value.signals == 1
    decreases 15 - n
  {
    run := PollsAgain(actions, Occupied);
    if n < 14 {
      run := StableUntilSignal(run, n + 1);
    }
  }

  /** From every reachable state in which the monitor can be armed, a session can end in a recovery signal. */
  lemma RecoveryCanBeSeen(actions: seq<Action>, hcd: nat, port: nat) returns (run: seq<Action>)
    requires Execute(actions).Some? && Arms(Execute(actions).value.monitor)
    ensures actions <= run && Execute(run).Some? && Execute(run).value.signals == 1
  {
    run := WorkerFinishes(actions);
    run := DetachCanBeSeen(run, hcd, port);
    run := StableUntilSignal(run, 0);
  }
}
