/** Reset guarantees over all runs: the watchdog bound after a press, and the funnel through the main thread. */
module DeviceReset {
  import opened Bytes
  import opened Device
  import opened DeviceLeds

  // Time

  predicate FeedInv(s: State) {
    && s.deadline == s.history.feed.lastFeed + BUTTON_DELAY_BEFORE_REBOOT
    && s.history.feed.lastFeed <= s.now <= s.deadline
  }

  /** After the latch at most one feed, by an iteration whose test of the latch came before it. */
  predicate PressInv(s: State) {
    var h := s.history;
    && (s.latch <==> h.button.latchTime.Some?)
    && (!s.latch ==> h.feed.feedsAfterLatch == 0)
    && (s.latch ==> h.button.latchTime.value <= s.now && h.feed.feedsAfterLatch <= 1)
    && (s.latch && s.main == Feed212 ==> h.feed.feedsAfterLatch == 0)
    && (s.latch ==> h.feed.lastFeed <= h.button.latchTime.value + h.feed.feedsAfterLatch * BUTTON_DELAY_BEFORE_REBOOT)
  }

  lemma StepFeed(s: State, a: Action)
    requires FeedInv(s) && Enabled(s, a)
    ensures FeedInv(Apply(s, a))
  {}

  lemma StepPress(s: State, a: Action)
    requires FeedInv(s) && PressInv(s) && Enabled(s, a)
    ensures PressInv(Apply(s, a))
  {
    match a
    case MainStep => MainKeepsPress(s);
    case WqStep => WqKeepsPress(s);
    case _ =>
  }

  lemma MainKeepsPress(s: State)
    requires FeedInv(s) && PressInv(s) && MainEnabled(s)
    ensures PressInv(MainNext(s))
  {}

  lemma WqKeepsPress(s: State)
    requires FeedInv(s) && PressInv(s) && WqEnabled(s)
    ensures PressInv(WqNext(s))
  {}

  lemma {:induction false} RunKeepsTime(s: State, acts: seq<Action>, t: State)
    requires FeedInv(s) && PressInv(s) && Run(s, acts, t)
    ensures FeedInv(t) && PressInv(t)
    decreases |acts|
  {
    RunFirst(s, acts, t);
    if acts != [] {
      StepFeed(s, acts[0]);
      StepPress(s, acts[0]);
      RunKeepsTime(Apply(s, acts[0]), acts[1..], t);
    }
  }

  /**
   * Timed reset bound: from the press on, whatever the threads, the timers and the button do, the device
   * runs at most to 5000 ms after the last feed, the last feed is one that main had decided on before the
   * press, and so the device is reset within 10000 ms of the press.
   */
  lemma ResetAfterPress(s0: State, before: seq<Action>, s: State, after: seq<Action>, t: State)
    requires Init(s0) && Run(s0, before, s) && s.latch && Run(s, after, t)
    ensures t.now <= t.history.feed.lastFeed + BUTTON_DELAY_BEFORE_REBOOT
    ensures t.history.feed.feedsAfterLatch <= 1
    ensures s.history.button.latchTime.Some?
    ensures t.now <= s.history.button.latchTime.value
                  + (t.history.feed.feedsAfterLatch + 1) * BUTTON_DELAY_BEFORE_REBOOT
    ensures t.history.feed.feedsAfterLatch > s.history.feed.feedsAfterLatch ==> s.main == Feed212
    ensures s.main != Feed212 ==> t.now <= s.deadline
    ensures t.now <= s.deadline + 5000 <= s.now + 10_000
  {
    RunKeepsTime(s0, before, s);
    RunKeepsTime(s, after, t);
    LatchStays(s, after, t);
    OnlyPendingFeed(s, after, t);
    LatchedDeadline(s, after, t);
  }

  /** With the latch set, the deadline stays, but for a feed that main already stands at. */
  lemma {:induction false} LatchedDeadline(s: State, acts: seq<Action>, t: State)
    requires FeedInv(s) && s.latch && Run(s, acts, t)
    ensures FeedInv(t)
    ensures t.deadline <= s.deadline + if s.main == Feed212 then BUTTON_DELAY_BEFORE_REBOOT else 0
    decreases |acts|
  {
    RunFirst(s, acts, t);
    if acts != [] {
      StepFeed(s, acts[0]);
      FeedOnlyAtFeed(s, acts[0]);
      LatchedDeadline(Apply(s, acts[0]), acts[1..], t);
    }
  }

  /** With the latch set, main feeds again only if it already stands at the feed. */
  lemma {:induction false} OnlyPendingFeed(s: State, acts: seq<Action>, t: State)
    requires s.latch && Run(s, acts, t)
    ensures t.history.feed.feedsAfterLatch > s.history.feed.feedsAfterLatch ==> s.main == Feed212
    decreases |acts|
  {
    RunFirst(s, acts, t);
    if acts != [] {
      FeedOnlyAtFeed(s, acts[0]);
      OnlyPendingFeed(Apply(s, acts[0]), acts[1..], t);
    }
  }

  lemma FeedOnlyAtFeed(s: State, a: Action)
    requires s.latch && Enabled(s, a)
    ensures Apply(s, a).latch
    ensures Apply(s, a).main == Feed212 ==> s.main == Feed212 && Apply(s, a).deadline == s.deadline
    ensures s.main != Feed212 ==> Apply(s, a).deadline == s.deadline
    ensures Apply(s, a).history.feed.feedsAfterLatch > s.history.feed.feedsAfterLatch ==> s.main == Feed212
  {
    if a == MainStep {
      assert MainGoto(s) != Feed212;
    }
  }

  predicate AtFeed(pc: MainPc) {
    pc == Check210 || pc == Feed212
  }

  /** With a request pending: no deadline later than `limit`, or than a last feed from before `limit` allows. */
  predicate RequestInv(s: State, limit: nat, mayFeed: bool) {
    && s.rebootRequested
    && s.deadline <= limit + (if mayFeed then BUTTON_DELAY_BEFORE_REBOOT else 0)
    && (AtFeed(s.main) ==> mayFeed && s.deadline <= limit)
  }

  lemma StepRequest(s: State, a: Action, limit: nat, mayFeed: bool)
    requires FeedInv(s) && RequestInv(s, limit, mayFeed) && Enabled(s, a)
    ensures RequestInv(Apply(s, a), limit, mayFeed)
  {
    if a == MainStep {
      MainKeepsRequest(s, limit, mayFeed);
    }
  }

  lemma MainKeepsRequest(s: State, limit: nat, mayFeed: bool)
    requires FeedInv(s) && RequestInv(s, limit, mayFeed)
    ensures RequestInv(MainNext(s), limit, mayFeed)
  {}

  lemma {:induction false} RunKeepsRequest(s: State, acts: seq<Action>, t: State, limit: nat, mayFeed: bool)
    requires FeedInv(s) && RequestInv(s, limit, mayFeed) && Run(s, acts, t)
    ensures FeedInv(t) && RequestInv(t, limit, mayFeed)
    decreases |acts|
  {
    RunFirst(s, acts, t);
    if acts != [] {
      StepFeed(s, acts[0]);
      StepRequest(s, acts[0], limit, mayFeed);
      RunKeepsRequest(Apply(s, acts[0]), acts[1..], t, limit, mayFeed);
    }
  }

  /**
   * Every request is bounded in time, whoever makes it: the watchdog is fed once more only if main stands at
   * the feed or at the test before it, so the device runs at most to the deadline, or 5000 ms past it.
   */
  lemma ResetAfterRequest(s0: State, before: seq<Action>, s: State, after: seq<Action>, t: State)
    requires Init(s0) && Run(s0, before, s) && s.rebootRequested && Run(s, after, t)
    ensures !AtFeed(s.main) ==> t.now <= s.deadline
    ensures t.now <= s.deadline + 5000 <= s.now + 10_000
  {
    RunKeepsTime(s0, before, s);
    RunKeepsRequest(s, after, t, s.deadline, AtFeed(s.main));
  }

  /** The clock is never stuck short of a reset. */
  lemma ClockOrReset(s0: State, acts: seq<Action>, s: State)
    requires Init(s0) && Run(s0, acts, s) && !s.isReset
    ensures Enabled(s, Tick) || Enabled(s, WatchdogExpires)
    ensures Enabled(s, WatchdogExpires) <==> s.now == s.history.feed.lastFeed + BUTTON_DELAY_BEFORE_REBOOT
  {
    RunKeepsTime(s0, acts, s);
  }

  // The funnel

  predicate MainRebootPc(r: RebootPc) {
    r != Request332 && r != Parked && (r.Files291? ==> r.k <= 3)
  }

  predicate OtherRebootPc(r: RebootPc) {
    r == Test280 || r == Request332 || r == Parked
  }

  predicate FunnelInv(s: State) {
    && s.history.triggeredBy <= {Main}
    && (s.main.MainReboots? ==> MainRebootPc(s.main.r))
    && (s.wq.WqReboots? ==> OtherRebootPc(s.wq.r))
    && (s.wq == WqReboots(Parked) ==> s.rebootRequested)
    && (Main in s.history.triggeredBy <==> s.main == MainReboots(Spinning))
  }

  lemma StepFunnel(s: State, a: Action)
    requires FunnelInv(s) && Enabled(s, a)
    ensures FunnelInv(Apply(s, a))
  {
    match a
    case MainStep => MainKeepsFunnel(s);
    case WqStep => WqKeepsFunnel(s);
    case _ =>
  }

  lemma MainKeepsFunnel(s: State)
    requires FunnelInv(s) && MainEnabled(s)
    ensures FunnelInv(MainNext(s))
  {}

  lemma WqKeepsFunnel(s: State)
    requires FunnelInv(s) && WqEnabled(s)
    ensures FunnelInv(WqNext(s))
  {}

  lemma {:induction false} RunKeepsFunnel(s: State, acts: seq<Action>, t: State)
    requires FunnelInv(s) && Run(s, acts, t)
    ensures FunnelInv(t)
    decreases |acts|
  {
    RunFirst(s, acts, t);
    if acts != [] {
      StepFunnel(s, acts[0]);
      RunKeepsFunnel(Apply(s, acts[0]), acts[1..], t);
    }
  }

  /**
   * In every run only main executes the reset primitive, and a work queue that has called sys_reboot has
   * left its request and holds no mutex.
   */
  lemma OnlyMainResets(s0: State, acts: seq<Action>, s: State)
    requires Init(s0) && Run(s0, acts, s)
    ensures s.history.triggeredBy <= {Main}
    ensures s.wq == WqReboots(Parked) ==> s.rebootRequested && s.mutex != Some(WorkQ) && !Enabled(s, WqStep)
    ensures s.main.MainReboots? ==> s.mutex != Some(Main)
  {
    RunKeepsFunnel(s0, acts, s);
    InitLeds(s0);
    RunKeepsLeds(s0, acts, s);
    FunnelMeans(s);
  }

  lemma ParkedStep(s: State, a: Action)
    requires s.wq == WqReboots(Parked) && Enabled(s, a)
    ensures a != WqStep && Apply(s, a).wq == s.wq
  {
    if a == BtStep {
      assert BtNext(s).wq == s.wq;
    }
  }

  /** A thread parked in sys_reboot stays there: from then on no run contains a step of the work queue. */
  lemma {:induction false} ParkedForEver(s: State, acts: seq<Action>, t: State)
    requires s.wq == WqReboots(Parked) && Run(s, acts, t)
    ensures t.wq == WqReboots(Parked) && WqStep !in acts
    decreases |acts|
  {
    RunFirst(s, acts, t);
    if acts != [] {
      ParkedStep(s, acts[0]);
      ParkedForEver(Apply(s, acts[0]), acts[1..], t);
      assert acts == [acts[0]] + acts[1..];
    }
  }

  lemma FunnelMeans(s: State)
    requires FunnelInv(s) && MutexInv(s)
    ensures s.history.triggeredBy <= {Main}
    ensures s.wq == WqReboots(Parked) ==> s.rebootRequested && s.mutex != Some(WorkQ) && !WqEnabled(s)
    ensures s.main.MainReboots? ==> s.mutex != Some(Main)
  {}

  /** The number of steps main has yet to take, at most, once a reboot is requested. */
  function StepsLeft(pc: MainPc): nat {
    match pc
    case Hook195 => 14
    case Lock197 => 13
    case Check198 => 12
    case RedOn200 => 11
    case Unlock202 => 10
    case Check210 => 17
    case Feed212 => 16
    case Test215 => 15
    case Count217(_) => 14
    case Idle232 => 13
    case Blink238 => 12
    case Asleep(_, again) => if again then 11 else 10
    case Top208 => 9
    case MainReboots(r) =>
      match r
      case Test280 => 8
      case Files291(k) => if k <= 3 then 7 - k else 4
      case Pause320 => 3
      case Pausing320(_) => 2
      case Trigger326 => 1
      case _ => 0
  }

  lemma StepTowardsReset(s: State, a: Action)
    requires FunnelInv(s) && s.rebootRequested && Enabled(s, a)
    ensures Apply(s, a).rebootRequested
    ensures if a == MainStep then StepsLeft(Apply(s, a).main) < StepsLeft(s.main) else Apply(s, a).main == s.main
  {
    if a == MainStep {
      MainTowardsReset(s);
    }
  }

  lemma MainTowardsReset(s: State)
    requires FunnelInv(s) && s.rebootRequested && MainEnabled(s)
    ensures MainNext(s).rebootRequested && StepsLeft(MainGoto(s)) < StepsLeft(s.main)
  {}

  lemma {:induction false} CountsDown(s: State, acts: seq<Action>, t: State)
    requires FunnelInv(s) && s.rebootRequested && Run(s, acts, t)
    ensures t.rebootRequested && Count(acts, MainStep) + StepsLeft(t.main) <= StepsLeft(s.main)
    decreases |acts|
  {
    RunFirst(s, acts, t);
    if acts != [] {
      StepFunnel(s, acts[0]);
      StepTowardsReset(s, acts[0]);
      CountFirst(acts, MainStep);
      CountsDown(Apply(s, acts[0]), acts[1..], t);
    }
  }

  /**
   * A request is never withdrawn, and main executes the reset primitive within the rest of its current
   * iteration: after as many steps of its own as StepsLeft counts, at most 17, it has done so.
   */
  lemma RequestReachesReset(s0: State, before: seq<Action>, s: State, after: seq<Action>, t: State)
    requires Init(s0) && Run(s0, before, s) && s.rebootRequested && Run(s, after, t)
    ensures t.rebootRequested
    ensures Count(after, MainStep) <= StepsLeft(s.main) <= 17
    ensures Count(after, MainStep) == StepsLeft(s.main) ==> Main in t.history.triggeredBy
  {
    RunKeepsFunnel(s0, before, s);
    RunKeepsFunnel(s, after, t);
    CountsDown(s, after, t);
    StepsLeftRange(s.main);
    StepsLeftRange(t.main);
  }

  lemma StepsLeftRange(pc: MainPc)
    requires pc.MainReboots? ==> MainRebootPc(pc.r)
    ensures StepsLeft(pc) <= 17
    ensures StepsLeft(pc) == 0 <==> pc == MainReboots(Spinning)
  {}

  function StepOf(t: Tid): Action
    requires t != Other
  {
    match t
    case Main => MainStep
    case WorkQ => WqStep
    case Bt => BtStep
  }

  /**
   * Main is never stuck on the way: it can run, or waits for the clock, which can advance or resets the
   * device, or waits for a mutex holder that can run.
   */
  lemma MainNeverStuck(s0: State, acts: seq<Action>, s: State)
    requires Init(s0) && Run(s0, acts, s) && !s.isReset && s.main != MainReboots(Spinning)
    ensures
      || Enabled(s, MainStep)
      || ((s.main.Asleep? || s.main.MainReboots?) && (Enabled(s, Tick) || Enabled(s, WatchdogExpires)))
      || (s.main == Lock197 && s.mutex.Some? && s.mutex != Some(Other) && Enabled(s, StepOf(s.mutex.value)))
  {
    RunKeepsTime(s0, acts, s);
    RunKeepsFunnel(s0, acts, s);
    InitLeds(s0);
    RunKeepsLeds(s0, acts, s);
    ClockOrReset(s0, acts, s);
    if !MainEnabled(s) {
      MainWaits(s);
    }
  }

  /** What main can wait for. */
  lemma MainWaits(s: State)
    requires MutexInv(s) && FunnelInv(s) && !s.isReset && !MainEnabled(s) && s.main != MainReboots(Spinning)
    ensures s.main.Asleep? || s.main.MainReboots?
         || (s.main == Lock197 && s.mutex.Some? && s.mutex != Some(Other) && Enabled(s, StepOf(s.mutex.value)))
  {
    if s.main == Lock197 {
      HolderRuns(s);
    }
  }

  /** No thread waits or parks inside its critical section. */
  lemma HolderRuns(s: State)
    requires MutexInv(s) && FunnelInv(s) && !s.isReset && !IrqLocked(s) && s.mutex.Some?
    ensures s.mutex != Some(Other) && Enabled(s, StepOf(s.mutex.value))
  {}

  /** A thread waits at the mutex, for a holder that can run. */
  predicate WaitsForHolder(s: State) {
    s.mutex.Some? && s.mutex != Some(Other) && Enabled(s, StepOf(s.mutex.value))
  }

  /**
   * Nor are the other threads: as long as main has not triggered the reset, the work queue can run unless it
   * has nothing to do, is parked, or waits for a mutex holder that can run; and so can a Bluetooth callback.
   */
  lemma OthersNeverStuck(s0: State, acts: seq<Action>, s: State)
    requires Init(s0) && Run(s0, acts, s) && !s.isReset && s.main != MainReboots(Spinning)
    ensures Enabled(s, WqStep) || (s.wq == WqIdle && s.queue == []) || s.wq == WqReboots(Parked) || WaitsForHolder(s)
    ensures Enabled(s, BtStep) || s.bt == BtIdle || WaitsForHolder(s)
  {
    RunKeepsFunnel(s0, acts, s);
    InitLeds(s0);
    RunKeepsLeds(s0, acts, s);
    if s.mutex.Some? {
      HolderRuns(s);
    }
    WqWaits(s);
    BtWaits(s);
  }

  lemma WqWaits(s: State)
    requires FunnelInv(s) && !s.isReset && !IrqLocked(s) && (s.mutex.Some? ==> WaitsForHolder(s))
    ensures Enabled(s, WqStep) || (s.wq == WqIdle && s.queue == []) || s.wq == WqReboots(Parked) || WaitsForHolder(s)
  {}

  lemma BtWaits(s: State)
    requires !s.isReset && !IrqLocked(s) && (s.mutex.Some? ==> WaitsForHolder(s))
    ensures Enabled(s, BtStep) || s.bt == BtIdle || WaitsForHolder(s)
  {}

  /** And the environment is free: edges, commands and requests come at any time, the rest when it can. */
  lemma EnvironmentFree(s0: State, acts: seq<Action>, s: State, pressed: bool, err: bool)
    requires Init(s0) && Run(s0, acts, s) && !s.isReset && s.main != MainReboots(Spinning)
    ensures Enabled(s, ButtonEdge(pressed)) && Enabled(s, FsCmd) && Enabled(s, OtherReboots)
    ensures s.bt == BtIdle ==> Enabled(s, Connected(err)) && Enabled(s, Disconnected)
    ensures s.timeoutDue.Some? && s.now >= s.timeoutDue.value ==> Enabled(s, TimeoutExpires)
    ensures s.rebootDue.Some? && s.now >= s.rebootDue.value ==> Enabled(s, RebootExpires)
  {
    RunKeepsFunnel(s0, acts, s);
  }
}
