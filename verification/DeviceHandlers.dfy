/** What becomes of the button's work items: each one that is queued is handled, with its whole effect. */
module DeviceHandlers {
  import opened Bytes
  import opened Device
  import opened DeviceLeds
  import opened DeviceReset
  import opened DeviceButton

  /** The timer of a press: its delay after some moment since then, unless the delay has passed. */
  predicate TimerSet(due: Option<nat>, since: nat, now: nat, delay: nat) {
    now < since + delay ==> due.Some? && since + delay <= due.value <= now + delay
  }

  predicate HeadIs(s: State, w: Work) {
    s.wq == WqIdle && s.queue != [] && s.queue[0] == w
  }

  // A press

  /** k steps of the work queue after it was about to take up a press. */
  predicate PressStage(s: State, k: nat, since: nat) {
    && since <= s.now
    && (k >= 2 ==> TimerSet(s.timeoutDue, since, s.now, BUTTON_DELAY_BEFORE_REBOOT))
    && (k >= 4 ==> s.latch)
    && (k >= 5 ==> s.green)
    && (k >= 6 ==> s.red)
    && match k
       case 0 => HeadIs(s, PressedWork)
       case 1 => s.wq == Resched40
       case 2 => s.wq == Lock41
       case 3 => s.wq == SetLatch42
       case 4 => s.wq == GreenOn43
       case 5 => s.wq == RedOn44
       case 6 => s.wq == Unlock45
       case 7 => s.wq == WqIdle
       case _ => false
  }

  lemma WqPressStage(s: State, k: nat, since: nat)
    requires PressStage(s, k, since) && k < 7
    ensures PressStage(WqNext(s), k + 1, since)
  {}

  /** What the other threads and the environment leave of the work queue's business. */
  predicate SameButton(s: State, t: State) {
    && t.wq == s.wq && t.latch == s.latch && s.queue <= t.queue && s.now <= t.now
    && (t.timeoutDue == s.timeoutDue || (t.timeoutDue == None && s.timeoutDue.Some? && t.now >= s.timeoutDue.value))
    && (t.rebootDue == s.rebootDue || (t.rebootDue == None && s.rebootDue.Some? && t.now >= s.rebootDue.value))
    && (TimeoutWork in t.queue ==> TimeoutWork in s.queue || s.timeoutDue.Some?)
  }

  lemma MainKeepsBusiness(s: State)
    ensures SameButton(s, MainNext(s))
  {}

  lemma BtKeepsBusiness(s: State)
    ensures SameButton(s, BtNext(s))
  {}

  lemma OthersKeepBusiness(s: State, a: Action)
    requires Enabled(s, a) && a != WqStep
    ensures SameButton(s, Apply(s, a))
  {
    match a
    case MainStep => MainKeepsBusiness(s);
    case BtStep => BtKeepsBusiness(s);
    case _ =>
  }

  lemma OthersKeepLeds(s: State, a: Action)
    requires LedInv(s) && Enabled(s, a) && a != WqStep
    requires s.latch || WqInside(s) || (a != MainStep && a != BtStep)
    ensures SameLeds(s, Apply(s, a))
  {
    assert !WritesLed(s, a);
    OnlyWritesChangeLeds(s, a);
  }

  lemma PressAction(s: State, a: Action, k: nat, since: nat)
    requires LedInv(s) && PressStage(s, k, since) && Enabled(s, a)
    requires a == WqStep ==> k < 7
    ensures PressStage(Apply(s, a), k + if a == WqStep then 1 else 0, since)
  {
    if a == WqStep {
      WqPressStage(s, k, since);
    } else {
      OthersKeepBusiness(s, a);
      if s.latch {
        OthersKeepLeds(s, a);
      }
    }
  }

  lemma {:induction false} PressRun(s: State, acts: seq<Action>, t: State, k: nat, since: nat)
    requires LedInv(s) && PressStage(s, k, since) && Run(s, acts, t) && k + Count(acts, WqStep) == 7
    ensures PressStage(t, 7, since)
    decreases |acts|
  {
    RunFirst(s, acts, t);
    if acts != [] {
      CountFirst(acts, WqStep);
      PressAction(s, acts[0], k, since);
      StepLeds(s, acts[0]);
      PressRun(Apply(s, acts[0]), acts[1..], t, k + if acts[0] == WqStep then 1 else 0, since);
    }
  }

  /**
   * A press that the work queue takes up is handled in its next seven steps, whatever runs in between: the
   * latch is set, both LEDs are on, and the timeout runs, 5000 ms from the handling.
   */
  lemma PressHandled(s0: State, before: seq<Action>, s: State, acts: seq<Action>, t: State)
    requires Init(s0) && Run(s0, before, s) && HeadIs(s, PressedWork)
    requires Run(s, acts, t) && Count(acts, WqStep) == 7
    ensures t.wq == WqIdle && t.latch && t.red && t.green
    ensures t.now < s.now + 5000 ==> t.timeoutDue.Some? && s.now + 5000 <= t.timeoutDue.value <= t.now + 5000
  {
    InitLeds(s0);
    RunKeepsLeds(s0, before, s);
    PressRun(s, acts, t, 0, s.now);
  }

  // A release, and the timeout of a press

  /** The timeout has been withdrawn from timer and queue. */
  predicate Cancelled(s: State) {
    s.timeoutDue == None && TimeoutWork !in s.queue
  }

  /** k steps after the work queue was about to take up a release, or k - 1 after a timeout. */
  predicate OffStage(s: State, k: nat, since: nat, release: bool, alone: bool) {
    && since <= s.now
    && OffAt(s, k, release)
    && (release && k >= 2 ==> Cancelled(s))
    && OffLeds(s, k, alone)
    && (k == 7 ==> TimerSet(s.rebootDue, since, s.now, BUTTON_DELAY_FLUSH_LOGS_MS))
  }

  predicate OffAt(s: State, k: nat, release: bool) {
    match k
    case 0 => release && HeadIs(s, ReleasedWork)
    case 1 => if release then s.wq == Cancel52 else HeadIs(s, TimeoutWork)
    case 2 => s.wq == if release then Lock54 else Lock65
    case 3 => s.wq == if release then GreenOff55 else GreenOff66
    case 4 => s.wq == if release then RedOff56 else RedOff67
    case 5 => s.wq == if release then Unlock57 else Unlock68
    case 6 => s.wq == if release then Resched58 else Resched69
    case 7 => s.wq == WqIdle
    case _ => false
  }

  predicate OffLeds(s: State, k: nat, alone: bool) {
    && (4 <= k <= 5 || (k >= 6 && (s.latch || alone)) ==> !s.green)
    && (k == 5 || (k >= 6 && (s.latch || alone)) ==> !s.red)
  }

  lemma WqOffAt(s: State, k: nat, release: bool)
    requires OffAt(s, k, release) && k < 7
    ensures OffAt(WqNext(s), k + 1, release)
  {}

  lemma WqOffLeds(s: State, k: nat, release: bool, alone: bool)
    requires OffAt(s, k, release) && OffLeds(s, k, alone) && k < 7
    ensures OffLeds(WqNext(s), k + 1, alone)
  {}

  lemma WqOffTimer(s: State, release: bool, since: nat)
    requires OffAt(s, 6, release) && since <= s.now
    ensures TimerSet(WqNext(s).rebootDue, since, WqNext(s).now, BUTTON_DELAY_FLUSH_LOGS_MS)
  {}

  /** The withdrawal lasts: only the timer adds its item, and only a press starts the timer. */
  lemma WqCancels(s: State)
    requires NoRepeats(s.queue) && (s.wq == Cancel52 || (Cancelled(s) && s.wq != WqIdle && s.wq != Resched40))
    ensures Cancelled(WqNext(s))
  {
    WithoutItem(s.queue, TimeoutWork);
  }

  lemma WqOffStage(s: State, k: nat, since: nat, release: bool, alone: bool)
    requires NoRepeats(s.queue) && OffStage(s, k, since, release, alone) && k < 7
    ensures OffStage(WqNext(s), k + 1, since, release, alone)
  {
    WqOffAt(s, k, release);
    WqOffLeds(s, k, release, alone);
    if release && k >= 1 {
      WqCancels(s);
    }
    if k == 6 {
      WqOffTimer(s, release, since);
    }
  }

  lemma OffAction(s: State, a: Action, k: nat, since: nat, release: bool, alone: bool)
    requires LedInv(s) && NoRepeats(s.queue) && OffStage(s, k, since, release, alone) && Enabled(s, a)
    requires a == WqStep ==> k < 7
    requires alone ==> a != MainStep && a != BtStep
    ensures OffStage(Apply(s, a), k + if a == WqStep then 1 else 0, since, release, alone)
  {
    if a == WqStep {
      WqOffStage(s, k, since, release, alone);
    } else {
      OthersKeepBusiness(s, a);
      if s.latch || alone || WqInside(s) {
        OthersKeepLeds(s, a);
      }
    }
  }

  lemma {:induction false} OffRun(
    s: State, acts: seq<Action>, t: State, k: nat, since: nat, release: bool, alone: bool)
    requires LedInv(s) && NoRepeats(s.queue) && OffStage(s, k, since, release, alone)
    requires Run(s, acts, t) && k + Count(acts, WqStep) == 7
    requires alone ==> MainStep !in acts && BtStep !in acts
    ensures OffStage(t, 7, since, release, alone)
    decreases |acts|
  {
    RunFirst(s, acts, t);
    if acts != [] {
      CountFirst(acts, WqStep);
      InFirst(acts, MainStep);
      InFirst(acts, BtStep);
      OffAction(s, acts[0], k, since, release, alone);
      StepLeds(s, acts[0]);
      StepQueue(s, acts[0]);
      var k' := k + if acts[0] == WqStep then 1 else 0;
      OffRun(Apply(s, acts[0]), acts[1..], t, k', since, release, alone);
    }
  }

  /**
   * A release that the work queue takes up is handled in its next seven steps: the timeout is withdrawn, both
   * LEDs are off, for good after a press, and the reboot is due 100 ms from the handling.
   */
  lemma ReleaseHandled(s0: State, before: seq<Action>, s: State, acts: seq<Action>, t: State)
    requires Init(s0) && Run(s0, before, s) && HeadIs(s, ReleasedWork)
    requires Run(s, acts, t) && Count(acts, WqStep) == 7
    ensures t.wq == WqIdle && t.timeoutDue == None && TimeoutWork !in t.queue
    ensures t.latch || (MainStep !in acts && BtStep !in acts) ==> !t.red && !t.green
    ensures t.now < s.now + 100 ==> t.rebootDue.Some? && s.now + 100 <= t.rebootDue.value <= t.now + 100
  {
    InitLeds(s0);
    RunKeepsLeds(s0, before, s);
    RunKeepsButton(s0, before, s);
    OffRun(s, acts, t, 0, s.now, true, MainStep !in acts && BtStep !in acts);
  }

  /** The timeout of a press, in six steps: both LEDs are off, and the reboot is due 100 ms from the handling. */
  lemma TimeoutHandled(s0: State, before: seq<Action>, s: State, acts: seq<Action>, t: State)
    requires Init(s0) && Run(s0, before, s) && HeadIs(s, TimeoutWork)
    requires Run(s, acts, t) && Count(acts, WqStep) == 6
    ensures t.wq == WqIdle
    ensures t.latch || (MainStep !in acts && BtStep !in acts) ==> !t.red && !t.green
    ensures t.now < s.now + 100 ==> t.rebootDue.Some? && s.now + 100 <= t.rebootDue.value <= t.now + 100
  {
    InitLeds(s0);
    RunKeepsLeds(s0, before, s);
    RunKeepsButton(s0, before, s);
    OffRun(s, acts, t, 1, s.now, false, MainStep !in acts && BtStep !in acts);
  }
}
