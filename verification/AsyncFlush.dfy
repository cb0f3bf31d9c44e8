/**
 * The asynchronous flush: a mailbox with one slot for a framebuffer and a shadow copy of its pixels,
 * filled by commits and emptied by a worker that transfers the shadow copy.
 *
 * `Mailbox` is what the damage lock protects; the class has the critical sections of the C code and is
 * proved against the functions on it. `Next` interleaves those sections with what happens outside the
 * lock: queueing the work item, the worker's transfer, dropping references. Callers stand at the program
 * points of their functions, and the theorems hold in every interleaving.
 */
module AsyncFlush {
  import opened Bytes
  import opened FrameLayout

  datatype Fb = Fb(id: nat, shape: Framebuffer, offset: u32)

  /** async_fb, shadow_buf with its contents, async_stopping. */
  datatype Mailbox = Mailbox(slot: Option<Fb>, shadow: Option<seq<byte>>, stopping: bool)

  // ---------------------------------------------------------------- the critical sections

  /** The checks a submission makes before it takes the lock; vmapError is what mapping the object returned. */
  function Checks(fb: Fb, vmapError: int, mapped: u64): int {
    var layout := FormatFrameLayout(fb.shape.width, fb.shape.height, fb.shape.format);
    if layout.Rejected? then layout.error
    else if vmapError != 0 then vmapError
    else ValidateRange(fb.offset, layout.length, mapped)
  }

  /** The frame in the mapped object. */
  function Pixels(fb: Fb, memory: seq<byte>): (s: seq<byte>)
    requires |memory| < U64_SPAN && Checks(fb, 0, |memory|) == 0
    ensures |s| == LengthOf(fb.shape)
  {
    memory[fb.offset..fb.offset + LengthOf(fb.shape)]
  }

  function SubmitError(m: Mailbox, fb: Fb): int {
    if m.stopping then -ENODEV
    else if m.shadow.Some? && |m.shadow.value| != LengthOf(fb.shape) then -EINVAL
    else 0
  }

  /** The reference a successful submission gives up: the slot's, unless it holds the same framebuffer already. */
  function Displaced(m: Mailbox, fb: Fb): Option<Fb> {
    if m.slot == Some(fb) then None else m.slot
  }

  function Submitted(m: Mailbox, fb: Fb, content: seq<byte>): Mailbox {
    Mailbox(Some(fb), Some(content), m.stopping)
  }

  function Taken(m: Mailbox): Mailbox {
    m.(slot := None)
  }

  function Cancelled(m: Mailbox): Mailbox {
    Mailbox(None, None, m.stopping)
  }

  /** The reference a successful submission takes. */
  function Referenced(m: Mailbox, fb: Fb): multiset<Fb> {
    if m.slot == Some(fb) then multiset{} else multiset{fb}
  }

  class FlushQueue {
    var asyncFb: Option<Fb>
    var shadowBuf: array?<byte>
    var shadowBufSize: nat
    var asyncStopping: bool
    // The framebuffer references submissions have taken so far.
    var taken: multiset<Fb>

    ghost predicate Valid()
      reads this
    {
      shadowBufSize == if shadowBuf == null then 0 else shadowBuf.Length
    }

    ghost function Shadow(): Option<seq<byte>>
      reads this, shadowBuf
    {
      if shadowBuf == null then None else Some(shadowBuf[..])
    }

    ghost function View(): Mailbox
      reads this, shadowBuf
    {
      Mailbox(asyncFb, Shadow(), asyncStopping)
    }

    constructor ()
      ensures Valid() && View() == Mailbox(None, None, false) && taken == multiset{}
    {
      asyncFb, shadowBuf, shadowBufSize, asyncStopping, taken := None, null, 0, false, multiset{};
    }

    method CopyToShadow(memory: array<byte>, offset: nat, length: nat)
      requires shadowBuf != null && shadowBuf.Length == length
      requires memory != shadowBuf && offset + length <= memory.Length
      modifies shadowBuf
      ensures shadowBuf[..] == memory[offset..offset + length]
    {
      for i := 0 to length
        invariant shadowBuf[..i] == memory[offset..offset + i]
      {
        shadowBuf[i] := memory[offset + i];
      }
    }

    /** gud_fb_queue_damage up to the unlock. `displaced` is the reference to drop after queueing the work. */
    method QueueDamage(fb: Fb, vmapError: int, memory: array<byte>) returns (ret: int, displaced: Option<Fb>)
      requires Valid() && memory.Length < U64_SPAN && memory != shadowBuf
      modifies this, shadowBuf
      ensures Valid() && (shadowBuf == old(shadowBuf) || fresh(shadowBuf))
      ensures ret == if Checks(fb, vmapError, memory.Length) != 0 then Checks(fb, vmapError, memory.Length)
                     else SubmitError(old(View()), fb)
      ensures Checks(fb, vmapError, memory.Length) == 0 ==>
                ret == if old(asyncStopping) then -ENODEV
                       else if old(shadowBuf) != null && old(shadowBufSize) != LengthOf(fb.shape) then -EINVAL
                       else 0
      ensures ret != 0 ==> View() == old(View()) && taken == old(taken) && displaced == None
      ensures ret == 0 ==>
                && View() == Submitted(old(View()), fb, Pixels(fb, old(memory[..])))
                && displaced == Displaced(old(View()), fb)
                && taken == old(taken) + Referenced(old(View()), fb)
    {
      displaced := None;
      ret := Checks(fb, vmapError, memory.Length);
      if ret != 0 {
        return;
      }
      var length := LengthOf(fb.shape);
      if asyncStopping {
        return -ENODEV, None;
      }
      if shadowBuf == null {
        shadowBuf := new byte[length](_ => 0);
        shadowBufSize := length;
      }
      if shadowBufSize != length {
        return -EINVAL, None;
      }
      CopyToShadow(memory, fb.offset, length);
      if asyncFb != Some(fb) {
        displaced := asyncFb;
        taken := taken + multiset{fb};
        asyncFb := Some(fb);
      }
    }

    /** The critical section of gud_flush_work. */
    method TakeFb() returns (fb: Option<Fb>)
      requires Valid()
      modifies this
      ensures Valid() && fb == old(asyncFb) && View() == Taken(old(View())) && taken == old(taken)
      ensures shadowBuf == old(shadowBuf)
    {
      fb := asyncFb;
      asyncFb := None;
    }

    /** The critical section of gud_async_cancel. */
    method Empty() returns (fb: Option<Fb>)
      requires Valid()
      modifies this
      ensures Valid() && fb == old(asyncFb) && View() == Cancelled(old(View())) && taken == old(taken)
    {
      fb := asyncFb;
      asyncFb := None;
      shadowBuf := null;
      shadowBufSize := 0;
    }

    method SetStopping()
      requires Valid()
      modifies this
      ensures Valid() && View() == old(View()).(stopping := true) && taken == old(taken)
      ensures shadowBuf == old(shadowBuf)
    {
      asyncStopping := true;
    }
  }

  // ---------------------------------------------------------------- all interleavings

  /** The work item: idle, started but not yet in its critical section, or transferring. */
  datatype Worker = Idle | Started | Busy(fb: Fb, since: nat, carried: seq<byte>)

  /** A transfer that ended: how many submissions it had seen when it started, and the bytes it carried. */
  datatype Transfer = Transfer(fb: Fb, since: nat, carried: seq<byte>, ok: bool)

  /**
   * Where a caller stands after its critical section or its wait: about to drop what it displaced, between
   * the flag and the cancellation of gud_async_stop, between the wait and the lock of a cancellation, about
   * to drop what a cancellation took out. A caller that has returned is gone.
   */
  datatype Caller = Dropping(fb: Fb) | Stopped | Waited | Emptied(fb: Fb)

  /**
   * `queueing` are the submissions between unlock and queue_work, each with what it displaced; `taken` and
   * `released` are all references taken and released so far; `cancelled` is how many of all the submissions
   * came before the latest cancellation.
   */
  datatype State = State(
    box: Mailbox, queued: bool, worker: Worker, queueing: multiset<Option<Fb>>, callers: multiset<Caller>,
    taken: multiset<Fb>, released: multiset<Fb>, submissions: seq<(Fb, seq<byte>)>, cancelled: nat,
    transfers: seq<Transfer>)

  const INITIALLY: State :=
    State(Mailbox(None, None, false), false, Idle, multiset{}, multiset{}, multiset{}, multiset{}, [], 0, [])

  datatype Action =
    | Submit(fb: Fb, content: seq<byte>)
    | QueueWork(displaced: Option<Fb>)
    | DropDisplaced(fb: Fb)
    | StartWork
    | Take
    | Read(n: nat)
    | Finish(ok: bool)
    | Stop
    | CancelWait(stopper: bool)
    | CancelLock
    | DropEmptied(fb: Fb)

  predicate Enabled(s: State, a: Action) {
    match a
    case Submit(fb, content) => |content| == LengthOf(fb.shape)
    case QueueWork(displaced) => displaced in s.queueing
    case DropDisplaced(fb) => Dropping(fb) in s.callers
    case StartWork => s.queued && s.worker.Idle?
    case Take => s.worker.Started?
    case Read(n) => s.worker.Busy? && s.box.shadow.Some? && |s.worker.carried| + n <= |s.box.shadow.value|
    case Finish(ok) => s.worker.Busy? && (ok ==> |s.worker.carried| == LengthOf(s.worker.fb.shape))
    case Stop => true
    case CancelWait(stopper) => s.worker.Idle? && (stopper ==> Stopped in s.callers)
    case CancelLock => Waited in s.callers
    case DropEmptied(fb) => Emptied(fb) in s.callers
  }

  function AfterSubmit(s: State, fb: Fb, content: seq<byte>): State {
    if SubmitError(s.box, fb) != 0 then s else
    s.(box := Submitted(s.box, fb, content),
       queueing := s.queueing + multiset{Displaced(s.box, fb)},
       taken := s.taken + Referenced(s.box, fb),
       submissions := s.submissions + [(fb, content)])
  }

  function AfterCancel(s: State): State {
    var others := s.callers - multiset{Waited};
    s.(box := Cancelled(s.box), cancelled := |s.submissions|,
       callers := match s.box.slot case None => others case Some(fb) => others + multiset{Emptied(fb)})
  }

  function Next(s: State, a: Action): State
    requires Enabled(s, a)
  {
    match a
    case Submit(fb, content) => AfterSubmit(s, fb, content)
    case QueueWork(displaced) =>
      s.(queueing := s.queueing - multiset{displaced}, queued := true,
         callers := match displaced case None => s.callers case Some(fb) => s.callers + multiset{Dropping(fb)})
    case DropDisplaced(fb) => s.(callers := s.callers - multiset{Dropping(fb)}, released := s.released + multiset{fb})
    case StartWork => s.(queued := false, worker := Started)
    case Take =>
      s.(box := Taken(s.box),
         worker := match s.box.slot case None => Idle case Some(fb) => Busy(fb, |s.submissions|, []))
    case Read(n) =>
      var at := |s.worker.carried|;
      s.(worker := s.worker.(carried := s.worker.carried + s.box.shadow.value[at..at + n]))
    case Finish(ok) =>
      s.(worker := Idle, released := s.released + multiset{s.worker.fb},
         transfers := s.transfers + [Transfer(s.worker.fb, s.worker.since, s.worker.carried, ok)])
    case Stop => s.(box := s.box.(stopping := true), callers := s.callers + multiset{Stopped})
    case CancelWait(stopper) =>
      s.(queued := false,
         callers := (if stopper then s.callers - multiset{Stopped} else s.callers) + multiset{Waited})
    case CancelLock => AfterCancel(s)
    case DropEmptied(fb) => s.(callers := s.callers - multiset{Emptied(fb)}, released := s.released + multiset{fb})
  }

  function Execute(actions: seq<Action>): Option<State> {
    if actions == [] then Some(INITIALLY) else
    match Execute(actions[..|actions| - 1])
    case None => None
    case Some(s) => var a := actions[|actions| - 1]; if Enabled(s, a) then Some(Next(s, a)) else None
  }

  lemma ExecuteMore(actions: seq<Action>, a: Action)
    requires Execute(actions).Some? && Enabled(Execute(actions).value, a)
    ensures Execute(actions + [a]) == Some(Next(Execute(actions).value, a))
  {
    assert (actions + [a])[..|actions|] == actions;
  }

  // ---------------------------------------------------------------- references and the shadow buffer

  function Count(b: bool): nat { if b then 1 else 0 }

  /** How many references to fb are held: by the slot, the worker, and callers that still have to drop one. */
  function Held(s: State, fb: Fb): nat {
    Count(s.box.slot == Some(fb)) + Count(s.worker.Busy? && s.worker.fb == fb)
    + s.queueing[Some(fb)] + s.callers[Dropping(fb)] + s.callers[Emptied(fb)]
  }

  predicate Balanced(s: State, fb: Fb) {
    s.taken[fb] == s.released[fb] + Held(s, fb)
  }

  lemma SubmitBalanced(s: State, fb: Fb, content: seq<byte>, x: Fb)
    requires Balanced(s, x)
    ensures Balanced(AfterSubmit(s, fb, content), x)
  {
  }

  lemma QueueBalanced(s: State, displaced: Option<Fb>, x: Fb)
    requires Balanced(s, x) && displaced in s.queueing
    ensures Balanced(Next(s, QueueWork(displaced)), x)
  {
  }

  lemma CancelBalanced(s: State, x: Fb)
    requires Balanced(s, x) && Waited in s.callers
    ensures Balanced(AfterCancel(s), x)
  {
  }

  lemma DropBalanced(s: State, a: Action, x: Fb)
    requires Balanced(s, x) && Enabled(s, a) && (a.DropDisplaced? || a.DropEmptied?)
    ensures Balanced(Next(s, a), x)
  {
  }

  lemma WaitBalanced(s: State, stopper: bool, x: Fb)
    requires Balanced(s, x) && Enabled(s, CancelWait(stopper))
    ensures Balanced(Next(s, CancelWait(stopper)), x)
  {
  }

  lemma WorkerBalanced(s: State, a: Action, x: Fb)
    requires Balanced(s, x) && Enabled(s, a) && (a.Take? || a.Finish?)
    ensures Balanced(Next(s, a), x)
  {
  }

  lemma StepBalanced(s: State, a: Action, x: Fb)
    requires Balanced(s, x) && Enabled(s, a)
    ensures Balanced(Next(s, a), x)
  {
    match a
    case Submit(fb, content) => SubmitBalanced(s, fb, content, x);
    case QueueWork(displaced) => QueueBalanced(s, displaced, x);
    case DropDisplaced(_) => DropBalanced(s, a, x);
    case DropEmptied(_) => DropBalanced(s, a, x);
    case Take => WorkerBalanced(s, a, x);
    case Finish(_) => WorkerBalanced(s, a, x);
    case CancelWait(stopper) => WaitBalanced(s, stopper, x);
    case CancelLock => CancelBalanced(s, x);
    case _ =>
  }

  /**
   * In every interleaving, for every framebuffer: references taken are those released plus those of the
   * slot, of the worker, and of callers on their way to dropping what their own critical section took out.
   * In particular nothing is released that was not taken.
   */
  lemma {:induction false} AlwaysBalanced(actions: seq<Action>, fb: Fb)
    requires Execute(actions).Some?
    ensures Balanced(Execute(actions).value, fb)
  {
    if actions != [] {
      var before := actions[..|actions| - 1];
      AlwaysBalanced(before, fb);
      StepBalanced(Execute(before).value, actions[|actions| - 1], fb);
    }
  }

  /** A filled slot has a shadow copy of its size, and somebody on the way to empty it. */
  predicate SlotAttended(s: State) {
    s.box.slot.Some? ==>
      && s.box.shadow.Some? && |s.box.shadow.value| == LengthOf(s.box.slot.value.shape)
      && (s.queued || s.worker.Started? || s.queueing != multiset{} || Waited in s.callers)
  }

  lemma StepAttended(s: State, a: Action)
    requires SlotAttended(s) && Enabled(s, a)
    ensures SlotAttended(Next(s, a))
  {
    if a.Submit? && SubmitError(s.box, a.fb) == 0 {
      assert Displaced(s.box, a.fb) in Next(s, a).queueing;
    }
  }

  /**
   * In every interleaving a non-null async_fb has a live shadow buffer of its layout length, and it is
   * never forgotten: the work is queued or started, or a submission will queue it, or a cancellation is
   * about to empty the slot.
   */
  lemma {:induction false} AlwaysAttended(actions: seq<Action>)
    requires Execute(actions).Some?
    ensures SlotAttended(Execute(actions).value)
  {
    if actions != [] {
      var before := actions[..|actions| - 1];
      AlwaysAttended(before);
      StepAttended(Execute(before).value, actions[|actions| - 1]);
    }
  }

  predicate AllReturned(s: State) {
    s.queueing == multiset{} && s.callers == multiset{}
  }

  /** No reference remains: once every caller has returned and the work is at rest, all that was taken is released. */
  lemma NothingLeaks(actions: seq<Action>)
    requires Execute(actions).Some?
    requires var s := Execute(actions).value; AllReturned(s) && !s.queued && s.worker.Idle?
    ensures var s := Execute(actions).value; s.box.slot.None? && s.released == s.taken
  {
    var s := Execute(actions).value;
    AlwaysAttended(actions);
    forall fb: Fb
      ensures s.released[fb] == s.taken[fb]
    {
      AlwaysBalanced(actions, fb);
    }
  }

  // ---------------------------------------------------------------- which submissions are refused

  /** The checks before the lock, in plain arithmetic and in their order. */
  lemma ChecksAreExact(fb: Fb, vmapError: int, mapped: u64)
    ensures var n := FrameBytes(fb.shape.width, fb.shape.height, fb.shape.format);
            Checks(fb, vmapError, mapped)
              == if n == 0 then -EINVAL
                 else if n > U32_MAX then -EOVERFLOW
                 else if vmapError != 0 then vmapError
                 else if fb.offset + n > mapped then -EINVAL
                 else 0
  {
    LayoutIsExact(fb.shape.width, fb.shape.height, fb.shape.format);
  }

  /**
   * What the calls alone tell: whether stopping has been set, the length of the shadow buffer set up since
   * the latest cancellation, the submissions made while they were welcome, and how many of those came
   * before that cancellation.
   */
  datatype History = History(stopping: bool, live: Option<nat>, offers: seq<(Fb, seq<byte>)>, withdrawn: nat)

  /** Stopping has not been set, and no shadow buffer of another length is live. */
  predicate Welcomes(h: History, fb: Fb) {
    !h.stopping && (h.live.None? || h.live.value == LengthOf(fb.shape))
  }

  function Recall(h: History, a: Action): History {
    match a
    case Stop => h.(stopping := true)
    case CancelLock => h.(live := None, withdrawn := |h.offers|)
    case Submit(fb, content) =>
      if Welcomes(h, fb) then h.(live := Some(LengthOf(fb.shape)), offers := h.offers + [(fb, content)]) else h
    case _ => h
  }

  function HistoryOf(actions: seq<Action>): History {
    if actions == [] then History(false, None, [], 0)
    else Recall(HistoryOf(actions[..|actions| - 1]), actions[|actions| - 1])
  }

  predicate ToldBy(h: History, s: State) {
    && s.box.stopping == h.stopping
    && h.live == (if s.box.shadow.Some? then Some(|s.box.shadow.value|) else None)
    && s.submissions == h.offers && s.cancelled == h.withdrawn
  }

  lemma StepIsTold(h: History, s: State, a: Action)
    requires ToldBy(h, s) && Enabled(s, a)
    ensures ToldBy(Recall(h, a), Next(s, a))
  {
  }

  lemma {:induction false} RunIsTold(actions: seq<Action>)
    requires Execute(actions).Some?
    ensures ToldBy(HistoryOf(actions), Execute(actions).value)
  {
    if actions != [] {
      var before := actions[..|actions| - 1];
      RunIsTold(before);
      StepIsTold(HistoryOf(before), Execute(before).value, actions[|actions| - 1]);
    }
  }

  /**
   * In every interleaving a submission is refused if and only if stopping has been set, with -ENODEV, or a
   * shadow buffer of another length is live, with -EINVAL; what slot and worker hold does not matter.
   */
  lemma RefusalIsExact(actions: seq<Action>, fb: Fb)
    requires Execute(actions).Some?
    ensures var h := HistoryOf(actions);
            SubmitError(Execute(actions).value.box, fb)
              == if h.stopping then -ENODEV
                 else if h.live.Some? && h.live.value != LengthOf(fb.shape) then -EINVAL
                 else 0
  {
    RunIsTold(actions);
  }

  // ---------------------------------------------------------------- newest wins

  /** Something was submitted since the latest cancellation. */
  predicate Fresh(s: State) {
    s.cancelled < |s.submissions|
  }

  function Final(s: State): (Fb, seq<byte>)
    requires Fresh(s)
  {
    s.submissions[|s.submissions| - 1]
  }

  /** A transfer of the final submission, started after it: what it carried is a prefix of that frame. */
  predicate Carries(s: State, fb: Fb, since: nat, carried: seq<byte>)
    requires Fresh(s)
  {
    fb == Final(s).0 && since == |s.submissions| && carried <= Final(s).1
  }

  predicate SlotIsFinal(s: State) {
    s.box.slot.Some? ==> Fresh(s) && s.box.slot.value == Final(s).0
  }

  predicate ShadowIsFinal(s: State) {
    Fresh(s) ==> s.box.shadow == Some(Final(s).1) && |Final(s).1| == LengthOf(Final(s).0.shape)
  }

  /** With an empty slot the final submission is being carried or has been. */
  predicate FinalIsCarried(s: State) {
    s.box.slot.None? && Fresh(s) ==>
      if s.worker.Busy? then Carries(s, s.worker.fb, s.worker.since, s.worker.carried)
      else s.transfers != [] && var t := s.transfers[|s.transfers| - 1];
           Carries(s, t.fb, t.since, t.carried) && (t.ok ==> t.carried == Final(s).1)
  }

  predicate Newest(s: State) {
    s.cancelled <= |s.submissions| && SlotIsFinal(s) && ShadowIsFinal(s) && FinalIsCarried(s)
  }

  lemma SubmitNewest(s: State, fb: Fb, content: seq<byte>)
    requires Newest(s) && |content| == LengthOf(fb.shape)
    ensures Newest(AfterSubmit(s, fb, content))
  {
    if SubmitError(s.box, fb) == 0 {
      var t := AfterSubmit(s, fb, content);
      assert Fresh(t) && Final(t) == (fb, content);
    }
  }

  lemma ReadNewest(s: State, n: nat)
    requires Newest(s) && Enabled(s, Read(n))
    ensures Newest(Next(s, Read(n)))
  {
    var shadow, at := s.box.shadow.value, |s.worker.carried|;
    assert s.worker.carried <= shadow ==> s.worker.carried + shadow[at..at + n] == shadow[..at + n];
  }

  lemma FinishNewest(s: State, ok: bool)
    requires Newest(s) && Enabled(s, Finish(ok))
    ensures Newest(Next(s, Finish(ok)))
  {
  }

  lemma TakeNewest(s: State)
    requires Newest(s) && s.worker.Started?
    ensures Newest(Next(s, Take))
  {
  }

  /** Steps that touch neither the slot nor a transfer, and the cancellation's, after which nothing is submitted. */
  lemma OtherNewest(s: State, a: Action)
    requires Newest(s) && Enabled(s, a) && !(a.Submit? || a.Read? || a.Finish? || a.Take?)
    ensures Newest(Next(s, a))
  {
  }

  lemma StepNewest(s: State, a: Action)
    requires Newest(s) && Enabled(s, a)
    ensures Newest(Next(s, a))
  {
    match a
    case Submit(fb, content) => SubmitNewest(s, fb, content);
    case Read(n) => ReadNewest(s, n);
    case Finish(ok) => FinishNewest(s, ok);
    case Take => TakeNewest(s);
    case _ => OtherNewest(s, a);
  }

  lemma {:induction false} AlwaysNewest(actions: seq<Action>)
    requires Execute(actions).Some?
    ensures Newest(Execute(actions).value)
  {
    if actions != [] {
      var before := actions[..|actions| - 1];
      AlwaysNewest(before);
      StepNewest(Execute(before).value, actions[|actions| - 1]);
    }
  }

  /** No transfer is under way or on its way; callers may still have references to drop. */
  predicate Quiescent(s: State) {
    !s.queued && s.worker.Idle? && s.queueing == multiset{} && Waited !in s.callers
  }

  /** The transfer started after so many submissions and carried a prefix of the one offered, all of it on success. */
  predicate CarriesOffer(t: Transfer, offers: nat, offer: (Fb, seq<byte>)) {
    t.fb == offer.0 && t.since == offers && t.carried <= offer.1 && (t.ok ==> t.carried == offer.1)
  }

  /** The last transfer is of the last offer, unless that was withdrawn. */
  predicate LastOfferCarried(h: History, transfers: seq<Transfer>) {
    |h.offers| > h.withdrawn ==>
      transfers != [] && CarriesOffer(transfers[|transfers| - 1], |h.offers|, h.offers[|h.offers| - 1])
  }

  lemma AtRest(h: History, s: State)
    requires SlotAttended(s) && Newest(s) && Quiescent(s) && ToldBy(h, s)
    ensures s.box.slot.None? && LastOfferCarried(h, s.transfers)
  {
  }

  /**
   * Newest wins, in every interleaving: once everything has come to rest, the slot is empty; and when a
   * welcome submission was made since the last cancellation, the last transfer started after the final one
   * of them and carried a prefix of exactly that frame, all of it if the transfer succeeded - even though
   * earlier transfers may have read a mixture, and the worker may have taken the frame before its
   * submission got to queue_work.
   */
  lemma NewestWins(actions: seq<Action>)
    requires Execute(actions).Some? && Quiescent(Execute(actions).value)
    ensures Execute(actions).value.box.slot.None?
    ensures LastOfferCarried(HistoryOf(actions), Execute(actions).value.transfers)
  {
    AlwaysNewest(actions);
    AlwaysAttended(actions);
    RunIsTold(actions);
    AtRest(HistoryOf(actions), Execute(actions).value);
  }

  // ---------------------------------------------------------------- calls run to their end

  /** How many of the actions are alike. */
  ghost function Tally(actions: seq<Action>, like: Action -> bool): nat {
    if actions == [] then 0 else
    var n := |actions| - 1;
    Tally(actions[..n], like) + Count(like(actions[n]))
  }

  const QUEUED: Action -> bool := (a: Action) => a.QueueWork?
  const STOPS: Action -> bool := (a: Action) => a.Stop?
  const STOPPER_WAITS: Action -> bool := (a: Action) => a == CancelWait(true)
  const WAITS: Action -> bool := (a: Action) => a.CancelWait?
  const LOCKS: Action -> bool := (a: Action) => a.CancelLock?

  lemma SubmissionGoesOn(s: State, a: Action)
    requires Enabled(s, a)
    ensures var t := Next(s, a);
            |t.submissions| + |s.queueing| == |s.submissions| + |t.queueing| + Count(QUEUED(a))
  {
  }

  /** A caller with something to drop is neither stopping nor cancelling. */
  lemma DropperComesOrGoes(callers: multiset<Caller>, c: Caller)
    requires c.Dropping? || c.Emptied?
    ensures (callers + multiset{c})[Stopped] == callers[Stopped] == (callers - multiset{c})[Stopped]
    ensures (callers + multiset{c})[Waited] == callers[Waited] == (callers - multiset{c})[Waited]
  {
  }

  predicate StopsAndWaits(a: Action, before: multiset<Caller>, after: multiset<Caller>) {
    && before[Stopped] + Count(STOPS(a)) == after[Stopped] + Count(STOPPER_WAITS(a))
    && before[Waited] + Count(WAITS(a)) == after[Waited] + Count(LOCKS(a))
  }

  lemma WaitGoesOn(s: State, a: Action)
    requires Enabled(s, a) && (a.Stop? || a.CancelWait?)
    ensures StopsAndWaits(a, s.callers, Next(s, a).callers)
  {
  }

  lemma LockGoesOn(s: State)
    requires Waited in s.callers
    ensures StopsAndWaits(CancelLock, s.callers, AfterCancel(s).callers)
  {
    if s.box.slot.Some? {
      DropperComesOrGoes(s.callers - multiset{Waited}, Emptied(s.box.slot.value));
    }
  }

  lemma CallersGoOn(s: State, a: Action)
    requires Enabled(s, a)
    ensures StopsAndWaits(a, s.callers, Next(s, a).callers)
  {
    match a
    case QueueWork(displaced) =>
      if displaced.Some? {
        DropperComesOrGoes(s.callers, Dropping(displaced.value));
      }
    case DropDisplaced(fb) => DropperComesOrGoes(s.callers, Dropping(fb));
    case DropEmptied(fb) => DropperComesOrGoes(s.callers, Emptied(fb));
    case Stop | CancelWait(_) => WaitGoesOn(s, a);
    case CancelLock => LockGoesOn(s);
    case _ =>
  }

  /**
   * In every interleaving the calls under way are those begun and not yet gone on: welcome submissions that
   * have not queued the work, stops that have not cancelled, cancellations that have not locked.
   */
  lemma {:induction false} CallsGoOn(actions: seq<Action>)
    requires Execute(actions).Some?
    ensures var s := Execute(actions).value;
            && |HistoryOf(actions).offers| == Tally(actions, QUEUED) + |s.queueing|
            && Tally(actions, STOPS) == Tally(actions, STOPPER_WAITS) + s.callers[Stopped]
            && Tally(actions, WAITS) == Tally(actions, LOCKS) + s.callers[Waited]
  {
    RunIsTold(actions);
    if actions != [] {
      var before := actions[..|actions| - 1];
      CallsGoOn(before);
      RunIsTold(before);
      SubmissionGoesOn(Execute(before).value, actions[|actions| - 1]);
      CallersGoOn(Execute(before).value, actions[|actions| - 1]);
    }
  }

  /** The worker can always finish what it is at. */
  lemma WorkerFinishes(actions: seq<Action>) returns (run: seq<Action>)
    requires Execute(actions).Some?
    ensures actions <= run && Execute(run).Some? && Execute(run).value.worker.Idle?
    ensures Execute(run).value.box.shadow == Execute(actions).value.box.shadow
    ensures Execute(run).value.box.stopping == Execute(actions).value.box.stopping
  {
    run := actions;
    if Execute(run).value.worker.Started? {
      ExecuteMore(run, Take);
      run := run + [Take];
    }
    if Execute(run).value.worker.Busy? {
      ExecuteMore(run, Finish(false));
      run := run + [Finish(false)];
    }
  }

  /** With the work idle, a welcome submission can come to be queued. */
  lemma IdleQueues(actions: seq<Action>, fb: Fb, content: seq<byte>) returns (run: seq<Action>)
    requires Execute(actions).Some? && Execute(actions).value.worker.Idle?
    requires SubmitError(Execute(actions).value.box, fb) == 0 && |content| == LengthOf(fb.shape)
    ensures actions <= run && Execute(run).Some?
    ensures var s := Execute(run).value;
            s.queued && s.worker.Idle? && s.box.slot == Some(fb) && s.box.shadow == Some(content)
  {
    var displaced := Displaced(Execute(actions).value.box, fb);
    ExecuteMore(actions, Submit(fb, content));
    run := actions + [Submit(fb, content)];
    assert displaced in Execute(run).value.queueing;
    ExecuteMore(run, QueueWork(displaced));
    run := run + [QueueWork(displaced)];
  }

  /** Queued work can take the slot. */
  lemma QueuedTakes(actions: seq<Action>) returns (run: seq<Action>)
    requires Execute(actions).Some?
    requires var s := Execute(actions).value; s.queued && s.worker.Idle? && s.box.slot.Some?
    ensures actions <= run && Execute(run).Some?
    ensures var s, t := Execute(actions).value, Execute(run).value;
            && t.worker == Busy(s.box.slot.value, |s.submissions|, []) && t.box == Taken(s.box)
            && t.submissions == s.submissions
  {
    ExecuteMore(actions, StartWork);
    run := actions + [StartWork];
    ExecuteMore(run, Take);
    run := run + [Take];
  }

  /** A transfer can carry the whole shadow buffer. */
  lemma TransferCarries(actions: seq<Action>, fb: Fb, since: nat, content: seq<byte>) returns (run: seq<Action>)
    requires Execute(actions).Some? && Execute(actions).value.worker == Busy(fb, since, [])
    requires Execute(actions).value.box.shadow == Some(content) && |content| == LengthOf(fb.shape)
    ensures actions <= run && Execute(run).Some?
    ensures var s, t := Execute(actions).value, Execute(run).value;
            && t.box == s.box && t.submissions == s.submissions
            && t.transfers == s.transfers + [Transfer(fb, since, content, true)]
  {
    assert content[0..|content|] == content;
    ExecuteMore(actions, Read(|content|));
    run := actions + [Read(|content|)];
    assert Execute(run).value.worker == Busy(fb, since, content);
    ExecuteMore(run, Finish(true));
    run := run + [Finish(true)];
  }

  /** From every reachable state a run leads on in which a welcome submission is carried, whole and successfully. */
  lemma CanAlwaysBeCarried(actions: seq<Action>, fb: Fb, content: seq<byte>) returns (run: seq<Action>)
    requires Execute(actions).Some? && SubmitError(Execute(actions).value.box, fb) == 0
    requires |content| == LengthOf(fb.shape)
    ensures actions <= run && Execute(run).Some? && Execute(run).value.box.slot.None?
    ensures var transfers := Execute(run).value.transfers;
            transfers != [] && transfers[|transfers| - 1] == Transfer(fb, |HistoryOf(run).offers|, content, true)
  {
    run := WorkerFinishes(actions);
    run := IdleQueues(run, fb, content);
    run := QueuedTakes(run);
    run := TransferCarries(run, fb, |Execute(run).value.submissions|, content);
    RunIsTold(run);
  }

  // ---------------------------------------------------------------- the buffer a transfer reads

  /** A cancellation has freed the shadow buffer since the worker last took the slot. */
  predicate FreedSinceTake(actions: seq<Action>) {
    actions != [] &&
    var a := actions[|actions| - 1];
    a.CancelLock? || (!a.Take? && FreedSinceTake(actions[..|actions| - 1]))
  }

  predicate ShadowLive(s: State) {
    s.worker.Busy? ==> s.box.shadow.Some? && |s.box.shadow.value| == LengthOf(s.worker.fb.shape)
  }

  lemma StepLive(s: State, a: Action)
    requires SlotAttended(s) && Enabled(s, a) && !a.CancelLock? && (ShadowLive(s) || a.Take?)
    ensures ShadowLive(Next(s, a))
  {
  }

  /** In every interleaving: until a cancellation frees it, a transfer has its buffer, of its framebuffer's length. */
  lemma {:induction false} ShadowOutlivesTransfer(actions: seq<Action>)
    requires Execute(actions).Some? && !FreedSinceTake(actions)
    ensures ShadowLive(Execute(actions).value)
  {
    if actions != [] {
      var before, a := actions[..|actions| - 1], actions[|actions| - 1];
      AlwaysAttended(before);
      if !a.Take? {
        ShadowOutlivesTransfer(before);
      }
      StepLive(Execute(before).value, a);
    }
  }

  /**
   * A submission overlaps the end of the latest cancellation's wait: it stood between unlock and queue_work
   * then, or has succeeded since.
   */
  predicate Overlapped(actions: seq<Action>) {
    actions != [] &&
    var before, a := actions[..|actions| - 1], actions[|actions| - 1];
    match Execute(before)
    case None => false
    case Some(s) =>
      if a.CancelWait? then s.queueing != multiset{}
      else (a.Submit? && SubmitError(s.box, a.fb) == 0) || Overlapped(before)
  }

  /** Nobody transfers or is about to. */
  predicate Quiet(s: State) {
    s.worker.Idle? && !s.queued && s.queueing == multiset{}
  }

  predicate QuietWait(s: State, overlapped: bool) {
    Waited in s.callers && !overlapped ==> Quiet(s)
  }

  lemma StepQuietWait(s: State, a: Action, overlapped: bool)
    requires QuietWait(s, overlapped) && Enabled(s, a)
    ensures QuietWait(Next(s, a), if a.CancelWait? then s.queueing != multiset{}
                                  else (a.Submit? && SubmitError(s.box, a.fb) == 0) || overlapped)
  {
  }

  /** In every interleaving: a cancellation about to free the buffer finds it unused, unless a submission overlapped. */
  lemma {:induction false} OnlyOverlapsFreeInUse(actions: seq<Action>)
    requires Execute(actions).Some?
    ensures QuietWait(Execute(actions).value, Overlapped(actions))
  {
    if actions != [] {
      var before := actions[..|actions| - 1];
      OnlyOverlapsFreeInUse(before);
      StepQuietWait(Execute(before).value, actions[|actions| - 1], Overlapped(before));
    }
  }

  /** With the work queued between the wait and the lock of a cancellation, the worker loses the buffer it reads. */
  lemma FreedInUse(actions: seq<Action>)
    requires Execute(actions).Some?
    requires var s := Execute(actions).value;
             s.queued && s.worker.Idle? && s.box.slot.Some? && Waited in s.callers
    ensures var run := Execute(actions + [StartWork] + [Take] + [CancelLock]);
            run.Some? && run.value.worker.Busy? && run.value.box.shadow.None?
  {
    ExecuteMore(actions, StartWork);
    ExecuteMore(actions + [StartWork], Take);
    ExecuteMore(actions + [StartWork] + [Take], CancelLock);
  }

  /**
   * From any state with the work idle, a submission that succeeds between the wait and the lock of a
   * cancellation loses its buffer to it.
   */
  lemma LateSubmissionMatters(actions: seq<Action>, fb: Fb, content: seq<byte>)
    requires Execute(actions).Some? && Execute(actions).value.worker.Idle?
    requires SubmitError(Execute(actions).value.box, fb) == 0 && |content| == LengthOf(fb.shape)
    ensures var late := actions + [CancelWait(false)] + [Submit(fb, content)]
                        + [QueueWork(Displaced(Execute(actions).value.box, fb))];
            var run := Execute(late + [StartWork] + [Take] + [CancelLock]);
            run.Some? && run.value.worker.Busy? && run.value.box.shadow.None?
  {
    var displaced := Displaced(Execute(actions).value.box, fb);
    ExecuteMore(actions, CancelWait(false));
    var a1 := actions + [CancelWait(false)];
    ExecuteMore(a1, Submit(fb, content));
    assert displaced in Execute(a1 + [Submit(fb, content)]).value.queueing;
    ExecuteMore(a1 + [Submit(fb, content)], QueueWork(displaced));
    FreedInUse(a1 + [Submit(fb, content)] + [QueueWork(displaced)]);
  }

  /** And so does one that stands between unlock and queue_work when the wait ends. */
  lemma LateQueueingMatters(actions: seq<Action>, fb: Fb, content: seq<byte>)
    requires Execute(actions).Some? && Execute(actions).value.worker.Idle?
    requires SubmitError(Execute(actions).value.box, fb) == 0 && |content| == LengthOf(fb.shape)
    ensures var late := actions + [Submit(fb, content)] + [CancelWait(false)]
                        + [QueueWork(Displaced(Execute(actions).value.box, fb))];
            var run := Execute(late + [StartWork] + [Take] + [CancelLock]);
            run.Some? && run.value.worker.Busy? && run.value.box.shadow.None?
  {
    var displaced := Displaced(Execute(actions).value.box, fb);
    ExecuteMore(actions, Submit(fb, content));
    var a1 := actions + [Submit(fb, content)];
    ExecuteMore(a1, CancelWait(false));
    assert displaced in Execute(a1 + [CancelWait(false)]).value.queueing;
    ExecuteMore(a1 + [CancelWait(false)], QueueWork(displaced));
    FreedInUse(a1 + [CancelWait(false)] + [QueueWork(displaced)]);
  }

  // ---------------------------------------------------------------- stopping is final

  /** Nothing can start a transfer any more. */
  predicate Dead(s: State, transfers: seq<Transfer>) {
    s.box.stopping && s.worker.Idle? && !s.queued && s.queueing == multiset{} && s.transfers == transfers
  }

  lemma StaysDead(s: State, a: Action, transfers: seq<Transfer>)
    requires Dead(s, transfers) && Enabled(s, a)
    ensures Dead(Next(s, a), transfers)
    ensures a.CancelLock? || (s.box.slot.None? && s.box.shadow.None?)
            ==> Next(s, a).box.slot.None? && Next(s, a).box.shadow.None?
  {
  }

  lemma LastStep(actions: seq<Action>, a: Action)
    requires Execute(actions + [a]).Some?
    ensures Execute(actions).Some? && Enabled(Execute(actions).value, a)
    ensures Execute(actions + [a]).value == Next(Execute(actions).value, a)
  {
    assert (actions + [a])[..|actions|] == actions;
  }

  /** Dead, and emptied if a cancellation has taken the lock. */
  predicate DeadAfter(run: Option<State>, transfers: seq<Transfer>, emptied: bool) {
    && run.Some? && Dead(run.value, transfers)
    && (emptied ==> run.value.box.slot.None? && run.value.box.shadow.None?)
  }

  lemma DeadStep(before: seq<Action>, a: Action, transfers: seq<Transfer>, emptied: bool)
    requires Execute(before + [a]).Some? && DeadAfter(Execute(before), transfers, emptied)
    ensures DeadAfter(Execute(before + [a]), transfers, emptied || a.CancelLock?)
  {
    LastStep(before, a);
    StaysDead(Execute(before).value, a, transfers);
  }

  lemma {:induction false} DeadForGood(start: seq<Action>, more: seq<Action>, transfers: seq<Transfer>)
    requires Execute(start + more).Some?
    requires Execute(start).Some? ==> Dead(Execute(start).value, transfers)
    ensures DeadAfter(Execute(start + more), transfers, CancelLock in more)
  {
    if more == [] {
      assert start + more == start;
    } else {
      var before, a := more[..|more| - 1], more[|more| - 1];
      var run := start + before;
      assert start + more == run + [a];
      assert (CancelLock in more) == (CancelLock in before || a == CancelLock) by {
        assert more == before + [a];
      }
      assert Execute(run).Some? by {
        LastStep(run, a);
      }
      DeadForGood(start, before, transfers);
      DeadStep(run, a, transfers, CancelLock in before);
    }
  }

  /**
   * Once a cancellation has waited after the flag was set, with no submission on its way to queue_work, no
   * worker runs again, whatever is called in whatever order; and once it has taken the lock the slot and
   * the shadow buffer are gone for good.
   */
  lemma StopIsFinal(actions: seq<Action>, stopper: bool, more: seq<Action>)
    requires Execute(actions).Some? && Execute(actions).value.box.stopping
    requires Execute(actions).value.queueing == multiset{}
    requires Execute(actions + [CancelWait(stopper)] + more).Some?
    ensures var s := Execute(actions + [CancelWait(stopper)] + more).value;
            && Dead(s, Execute(actions).value.transfers)
            && (CancelLock in more ==> s.box.slot.None? && s.box.shadow.None?)
  {
    var start := actions + [CancelWait(stopper)];
    if Execute(start).Some? {
      LastStep(actions, CancelWait(stopper));
    }
    DeadForGood(start, more, Execute(actions).value.transfers);
  }
}
