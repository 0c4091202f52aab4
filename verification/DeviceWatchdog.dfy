/** Feeding and time over all runs: main feeds the watchdog in time, and its way to the reset takes its course. */
module DeviceWatchdog {
  import opened Bytes
  import opened Device
  import opened DeviceLeds
  import opened DeviceReset

  // One iteration

  /** Where main is k steps after the top of its loop, with the latch clear. */
  predicate FeedStage(t: State, k: nat, since: nat) {
    && since <= t.now
    && (t.main.MainReboots? ||
        match k
        case 0 => t.main == Top208
        case 1 => t.main == Check210
        case 2 => t.main == Feed212
        case 3 => t.main == Test215 && t.deadline >= since + BUTTON_DELAY_BEFORE_REBOOT
        case _ => false)
  }

  /** The variables that only main writes. */
  predicate SameMain(s: State, t: State) {
    t.main == s.main && t.deadline == s.deadline
  }

  lemma OthersKeepMain(s: State, a: Action)
    requires Enabled(s, a) && a != MainStep
    ensures SameMain(s, Apply(s, a)) && Apply(s, a).now == s.now + if a == Tick then 1 else 0
  {
    match a
    case WqStep => assert SameMain(s, WqNext(s)) && WqNext(s).now == s.now;
    case BtStep => assert SameMain(s, BtNext(s)) && BtNext(s).now == s.now;
    case _ =>
  }

  lemma FeedStep(s: State, k: nat, since: nat)
    requires FeedStage(s, k, since) && !s.latch && k < 3
    ensures FeedStage(MainNext(s), k + 1, since)
  {}

  lemma {:induction false} FeedRun(s: State, acts: seq<Action>, t: State, k: nat, since: nat)
    requires FeedStage(s, k, since) && Run(s, acts, t) && k + Count(acts, MainStep) == 3 && !t.latch
    ensures FeedStage(t, 3, since)
    decreases |acts|
  {
    RunFirst(s, acts, t);
    if acts != [] {
      var next := Apply(s, acts[0]);
      if s.latch {
        LatchStays(s, acts, t);
      }
      CountFirst(acts, MainStep);
      if acts[0] == MainStep {
        FeedStep(s, k, since);
        FeedRun(next, acts[1..], t, k + 1, since);
      } else {
        OthersKeepMain(s, acts[0]);
        FeedRun(next, acts[1..], t, k, since);
      }
    }
  }

  /** Without a press, main feeds the watchdog in every iteration, by its third step, or leaves its loop. */
  lemma FedEachIteration(s: State, acts: seq<Action>, t: State)
    requires s.main == Top208 && Run(s, acts, t) && Count(acts, MainStep) == 3 && !t.latch
    ensures t.main.MainReboots? || (t.main == Test215 && t.deadline >= s.now + 5000)
  {
    FeedRun(s, acts, t, 0, s.now);
  }

  lemma {:induction false} DeadlineStays(s: State, acts: seq<Action>, t: State)
    requires FeedInv(s) && Run(s, acts, t)
    ensures FeedInv(t) && t.deadline >= s.deadline
    decreases |acts|
  {
    RunFirst(s, acts, t);
    if acts != [] {
      StepFeed(s, acts[0]);
      if acts[0] != MainStep {
        OthersKeepMain(s, acts[0]);
      }
      DeadlineStays(Apply(s, acts[0]), acts[1..], t);
    }
  }

  lemma HeldOffFrom(s: State, acts: seq<Action>, u: State, more: seq<Action>, t: State)
    requires FeedInv(s) && s.main == Top208 && Run(s, acts, u) && Run(u, more, t)
    requires Count(acts, MainStep) == 3 && !u.latch && !u.main.MainReboots?
    ensures t.deadline >= s.now + BUTTON_DELAY_BEFORE_REBOOT
  {
    FedEachIteration(s, acts, u);
    DeadlineStays(s, acts, u);
    DeadlineStays(u, more, t);
  }

  lemma NotExpired(t: State)
    requires t.now < t.deadline
    ensures !Enabled(t, WatchdogExpires)
  {}

  /** And so the watchdog cannot expire for 5000 ms from any moment at which main begins an iteration that feeds. */
  lemma HeldOff(s0: State, before: seq<Action>, s: State, acts: seq<Action>, u: State, more: seq<Action>, t: State)
    requires Init(s0) && Run(s0, before, s) && s.main == Top208
    requires Run(s, acts, u) && Count(acts, MainStep) == 3 && !u.latch && !u.main.MainReboots?
    requires Run(u, more, t) && t.now < s.now + 5000
    ensures !Enabled(t, WatchdogExpires)
  {
    RunKeepsTime(s0, before, s);
    HeldOffFrom(s, acts, u, more, t);
    NotExpired(t);
  }

  // Steady running

  /** In an eager run the clock advances only while no thread can run. */
  predicate NoThreadRuns(s: State) {
    !MainEnabled(s) && !WqEnabled(s) && !BtEnabled(s)
  }

  ghost predicate EagerTrace(trace: seq<State>, acts: seq<Action>) {
    && IsTrace(trace, acts)
    && forall i {:trigger acts[i]} | 0 <= i < |acts| && acts[i] == Tick :: NoThreadRuns(trace[i])
  }

  ghost predicate EagerRun(s: State, acts: seq<Action>, t: State) {
    exists trace :: EagerTrace(trace, acts) && trace[0] == s && trace[|acts|] == t
  }

  lemma EagerFirst(s: State, acts: seq<Action>, t: State)
    requires EagerRun(s, acts, t)
    ensures Run(s, acts, t)
    ensures acts == [] ==> s == t
    ensures acts != [] ==> Enabled(s, acts[0]) && EagerRun(Apply(s, acts[0]), acts[1..], t)
    ensures acts != [] && acts[0] == Tick ==> NoThreadRuns(s)
  {
    var trace :| EagerTrace(trace, acts) && trace[0] == s && trace[|acts|] == t;
    if acts != [] {
      TraceTail(trace, acts);
      EagerTail(trace, acts);
      assert acts[0] == acts[0] && trace[1..][|acts[1..]|] == t;
    }
  }

  lemma EagerTail(trace: seq<State>, acts: seq<Action>)
    requires acts != [] && EagerTrace(trace, acts) && IsTrace(trace[1..], acts[1..])
    ensures EagerTrace(trace[1..], acts[1..])
  {
    forall i | 0 <= i < |acts[1..]| && acts[1..][i] == Tick
      ensures NoThreadRuns(trace[1..][i])
    {
      assert acts[1..][i] == acts[i + 1];
    }
  }

  /** The clock and the deadline at every point of the loop: an iteration takes 1000 ms. */
  predicate SteadyAt(pc: MainPc, now: nat, deadline: nat, start: nat) {
    match pc
    case MainReboots(_) => true
    case Asleep(wake, again) =>
      && now <= wake
      && deadline + 1000 == wake + (if again then 950 else 0) + BUTTON_DELAY_BEFORE_REBOOT
    case Test215 => deadline == now + BUTTON_DELAY_BEFORE_REBOOT
    case Count217(_) => deadline == now + BUTTON_DELAY_BEFORE_REBOOT
    case Idle232 => deadline == now + BUTTON_DELAY_BEFORE_REBOOT
    case Blink238 => deadline == now + BUTTON_DELAY_BEFORE_REBOOT
    case _ =>
      && now < deadline
      && (now == start || (!BeforeLoop(pc) && deadline + 1000 == now + BUTTON_DELAY_BEFORE_REBOOT))
  }

  predicate SteadyInv(s: State, start: nat) {
    SteadyAt(s.main, s.now, s.deadline, start)
  }

  lemma MainKeepsSteady(s: State, start: nat)
    requires SteadyInv(s, start) && MainEnabled(s) && !s.latch
    ensures SteadyInv(MainNext(s), start)
  {}

  /** The clock advances only while main sleeps: at the mutex, its holder can run. */
  lemma TickWhileAsleep(s: State)
    requires MutexInv(s) && FunnelInv(s) && !s.isReset && NoThreadRuns(s)
    ensures s.main.Asleep? || s.main.MainReboots?
  {
    if s.main == Lock197 && s.mutex.Some? {
      HolderRuns(s);
    }
  }

  lemma StepSteady(s: State, a: Action, start: nat)
    requires MutexInv(s) && FunnelInv(s) && SteadyInv(s, start) && Enabled(s, a) && !s.latch
    requires a == Tick ==> NoThreadRuns(s)
    ensures SteadyInv(Apply(s, a), start)
  {
    if a == MainStep {
      MainKeepsSteady(s, start);
    } else {
      OthersKeepMain(s, a);
      if a == Tick {
        TickWhileAsleep(s);
      }
    }
  }

  lemma {:induction false} RunKeepsSteady(s: State, acts: seq<Action>, t: State, start: nat)
    requires LedInv(s) && FunnelInv(s) && SteadyInv(s, start) && EagerRun(s, acts, t) && !t.latch
    ensures SteadyInv(t, start)
    decreases |acts|
  {
    EagerFirst(s, acts, t);
    if acts != [] {
      if s.latch {
        LatchStays(s, acts, t);
      }
      StepLeds(s, acts[0]);
      StepFunnel(s, acts[0]);
      StepSteady(s, acts[0], start);
      RunKeepsSteady(Apply(s, acts[0]), acts[1..], t, start);
    }
  }

  /**
   * Without a press, and as long as main does not reboot, the watchdog never expires when threads that can run
   * do: main is back at the feed 1000 ms after the last one.
   */
  lemma NeverResetWhileLooping(s0: State, acts: seq<Action>, t: State)
    requires Init(s0) && s0.now < s0.deadline && EagerRun(s0, acts, t)
    requires !t.latch && !t.main.MainReboots?
    ensures !Enabled(t, WatchdogExpires)
    ensures t.main == Feed212 ==> t.now == s0.now || t.deadline == t.now + 4000
  {
    InitLeds(s0);
    RunKeepsSteady(s0, acts, t, s0.now);
  }

  // The way to the reset

  /** Where main is k steps after it has entered the reboot path. */
  predicate PathStage(t: State, k: nat, since: nat) {
    && since <= t.now
    && match t.main
       case MainReboots(r) =>
         (match r
          case Test280 => k == 0
          case Files291(n) => n <= 3 && k == n + 1
          case Pause320 => k == 5
          case Pausing320(wake) => k == 6 && wake >= since + REBOOT_LOG_DELAY_MS
          case Trigger326 => k == 7 && t.now >= since + REBOOT_LOG_DELAY_MS
          case Spinning => k == 8 && t.now >= since + REBOOT_LOG_DELAY_MS
          case _ => false)
       case _ => false
  }

  lemma PathStep(s: State, k: nat, since: nat)
    requires PathStage(s, k, since) && MainEnabled(s)
    ensures PathStage(MainNext(s), k + 1, since)
  {}

  lemma PathAction(s: State, a: Action, k: nat, k': nat, since: nat)
    requires PathStage(s, k, since) && Enabled(s, a) && k' == k + if a == MainStep then 1 else 0
    ensures PathStage(Apply(s, a), k', since)
  {
    if a == MainStep {
      PathStep(s, k, since);
    } else {
      OthersKeepMain(s, a);
    }
  }

  lemma {:induction false} PathRun(s: State, acts: seq<Action>, t: State, k: nat, since: nat)
    requires PathStage(s, k, since) && Run(s, acts, t)
    ensures PathStage(t, k + Count(acts, MainStep), since)
    decreases |acts|
  {
    RunFirst(s, acts, t);
    if acts != [] {
      var k' := k + if acts[0] == MainStep then 1 else 0;
      CountFirst(acts, MainStep);
      PathAction(s, acts[0], k, k', since);
      PathRun(Apply(s, acts[0]), acts[1..], t, k', since);
    }
  }

  /** From the call to the reset: four file checks and a pause of 25 ms at least, in eight steps of main. */
  lemma RebootPath(s: State, acts: seq<Action>, t: State)
    requires s.main == MainReboots(Test280) && Run(s, acts, t)
    ensures t.main.MainReboots? && Count(acts, MainStep) <= 8
    ensures 1 <= Count(acts, MainStep) <= 4 ==> t.main == MainReboots(Files291(Count(acts, MainStep) - 1))
    ensures t.main == MainReboots(Spinning) <==> Count(acts, MainStep) == 8
    ensures t.main == MainReboots(Spinning) ==> t.now >= s.now + 25
  {
    PathRun(s, acts, t, 0, s.now);
  }

  /** Nothing but the clock and the reset has changed. */
  predicate Frozen(s: State, t: State) {
    && t.main == s.main && t.wq == s.wq && t.bt == s.bt && t.mutex == s.mutex
    && t.latch == s.latch && t.connected == s.connected && t.rebootRequested == s.rebootRequested
    && t.red == s.red && t.green == s.green && t.queue == s.queue
    && t.timeoutDue == s.timeoutDue && t.rebootDue == s.rebootDue && t.deadline == s.deadline
    && t.monitor == s.monitor && t.rgbReady == s.rgbReady && t.history == s.history
  }

  lemma FrozenStep(s: State, a: Action)
    requires s.main == MainReboots(Spinning) && Enabled(s, a)
    ensures Frozen(s, Apply(s, a))
  {
    assert a == Tick || a == WatchdogExpires;
  }

  /** After the trigger only the clock goes on, until the reset. */
  lemma {:induction false} FrozenAfterTrigger(s: State, acts: seq<Action>, t: State)
    requires s.main == MainReboots(Spinning) && Run(s, acts, t)
    ensures Frozen(s, t)
    decreases |acts|
  {
    RunFirst(s, acts, t);
    if acts != [] {
      var next := Apply(s, acts[0]);
      FrozenStep(s, acts[0]);
      FrozenAfterTrigger(next, acts[1..], t);
    }
  }

  // Clock, reset and request, from the actions of the run

  lemma {:induction false} ClockAndReset(s: State, acts: seq<Action>, t: State)
    requires Run(s, acts, t)
    ensures t.now == s.now + Count(acts, Tick)
    ensures t.isReset <==> s.isReset || WatchdogExpires in acts
    decreases |acts|
  {
    RunFirst(s, acts, t);
    if acts != [] {
      ClockStep(s, acts[0]);
      CountFirst(acts, Tick);
      ClockAndReset(Apply(s, acts[0]), acts[1..], t);
      InFirst(acts, WatchdogExpires);
    }
  }

  lemma ClockStep(s: State, a: Action)
    requires Enabled(s, a)
    ensures Apply(s, a).now == s.now + if a == Tick then 1 else 0
    ensures Apply(s, a).isReset <==> s.isReset || a == WatchdogExpires
  {
    match a
    case MainStep => assert MainNext(s).now == s.now && MainNext(s).isReset == s.isReset;
    case WqStep => assert WqNext(s).now == s.now && WqNext(s).isReset == s.isReset;
    case BtStep => assert BtNext(s).now == s.now && BtNext(s).isReset == s.isReset;
    case _ =>
  }

  /** Who has asked for a reboot: another thread, or the work queue, which is then parked. */
  predicate RequestedBy(s: State, earlier: bool) {
    s.rebootRequested <==> earlier || s.wq == WqReboots(Parked)
  }

  lemma StepRequested(s: State, a: Action, earlier: bool)
    requires Enabled(s, a) && FunnelInv(s) && RequestedBy(s, earlier)
    ensures RequestedBy(Apply(s, a), earlier || a == OtherReboots)
  {
    match a
    case MainStep => MainKeepsRequested(s, earlier);
    case WqStep => WqKeepsRequested(s, earlier);
    case BtStep => BtKeepsRequested(s, earlier);
    case _ =>
  }

  lemma MainKeepsRequested(s: State, earlier: bool)
    requires FunnelInv(s) && RequestedBy(s, earlier)
    ensures RequestedBy(MainNext(s), earlier)
  {}

  lemma WqKeepsRequested(s: State, earlier: bool)
    requires FunnelInv(s) && RequestedBy(s, earlier) && WqEnabled(s)
    ensures RequestedBy(WqNext(s), earlier)
  {}

  lemma BtKeepsRequested(s: State, earlier: bool)
    requires RequestedBy(s, earlier)
    ensures RequestedBy(BtNext(s), earlier)
  {}

  lemma {:induction false} RunRequested(s: State, acts: seq<Action>, t: State, earlier: bool)
    requires FunnelInv(s) && RequestedBy(s, earlier) && Run(s, acts, t)
    ensures RequestedBy(t, earlier || OtherReboots in acts)
    decreases |acts|
  {
    RunFirst(s, acts, t);
    if acts != [] {
      StepFunnel(s, acts[0]);
      StepRequested(s, acts[0], earlier);
      RunRequested(Apply(s, acts[0]), acts[1..], t, earlier || acts[0] == OtherReboots);
      InFirst(acts, OtherReboots);
    }
  }

  /** The request flag is set exactly by a call of sys_reboot from another thread, or by one from the work queue. */
  lemma RequestExactly(s0: State, acts: seq<Action>, s: State)
    requires Init(s0) && !s0.rebootRequested && Run(s0, acts, s)
    ensures s.rebootRequested <==> OtherReboots in acts || s.wq == WqReboots(Parked)
  {
    RunRequested(s0, acts, s, false);
  }
}
