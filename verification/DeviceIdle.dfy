/** The inactivity reboot over all runs of the device. */
module DeviceIdle {
  import opened IdleTimeout
  import opened Device

  /** The device's counters are those of its history. */
  predicate MonitorInv(s: State) {
    s.monitor == Replay(s.history.idle.events)
  }

  lemma ReplaySnoc(evs: seq<Event>, e: Event)
    ensures Replay(evs + [e]) ==
      match e
      case FsCommand => AfterCommand(Replay(evs))
      case Iteration(connected) => AfterIteration(Replay(evs), connected)
  {
    assert (evs + [e])[..|evs + [e]| - 1] == evs;
  }

  /** Main has made the poll of this iteration, or has left the loop. */
  predicate Polled(pc: MainPc) {
    pc == Idle232 || pc.MainReboots?
  }

  /** Index p holds the last iteration of the history. */
  ghost predicate LastIteration(evs: seq<Event>, p: nat) {
    && p < |evs| && evs[p].Iteration?
    && forall k | p < k < |evs| :: evs[k] == FsCommand
  }

  /** Main's position in the history. */
  ghost predicate LoopAt(pc: MainPc, evs: seq<Event>, p: nat) {
    && (!Polled(pc) ==> StillLooping(evs))
    && (pc == Idle232 ==> LastIteration(evs, p) && StillLooping(evs[..p]))
  }

  ghost predicate LoopInv(s: State) {
    LoopAt(s.main, s.history.idle.events, s.history.idle.lastPoll)
  }

  lemma LoopingSnoc(evs: seq<Event>)
    requires StillLooping(evs)
    ensures StillLooping(evs + [FsCommand])
  {
    var all := evs + [FsCommand];
    assert all[..|evs|] == evs;
    RunKeptByCommand(all, |evs|);
    LoopingPrefix(all, |evs|);
    assert all[..|evs| + 1] == all;
  }

  /** FS commands after an iteration change neither the run nor the counter. */
  lemma {:induction false} RunSinceIteration(evs: seq<Event>, p: nat)
    requires LastIteration(evs, p)
    ensures CountedRun(evs) == CountedRun(evs[..p + 1])
    ensures Replay(evs).timeoutCnt == Replay(evs[..p + 1]).timeoutCnt
    decreases |evs|
  {
    if p + 1 == |evs| {
      assert evs[..p + 1] == evs;
    } else {
      var front := evs[..|evs| - 1];
      RunSinceIteration(front, p);
      assert front[..p + 1] == evs[..p + 1];
    }
  }

  /** At the test of the counter: it is the run, and 180 is reached exactly when this iteration times out. */
  lemma CounterAtTest(evs: seq<Event>, p: nat)
    requires LastIteration(evs, p) && StillLooping(evs[..p])
    ensures Replay(evs).timeoutCnt == CountedRun(evs) <= UPLOADING_TIMEOUT_SEC
    ensures CountedRun(evs) == UPLOADING_TIMEOUT_SEC <==> TimesOutAt(evs, p)
  {
    assert evs[..p + 1][..p] == evs[..p];
    CounterIsRun(evs[..p + 1]);
    RunSinceIteration(evs, p);
  }

  lemma {:induction false} LoopsOn(evs: seq<Event>, p: nat)
    requires LastIteration(evs, p) && StillLooping(evs[..p]) && CountedRun(evs) < UPLOADING_TIMEOUT_SEC
    ensures StillLooping(evs)
    decreases |evs|
  {
    RunSinceIteration(evs, p);
    if p + 1 == |evs| {
      LoopingPrefix(evs, p);
      assert evs[..p + 1] == evs;
    } else {
      var front := evs[..|evs| - 1];
      assert front[..p] == evs[..p];
      LoopsOn(front, p);
      LoopingSnoc(front);
      assert front + [FsCommand] == evs;
    }
  }

  lemma StepLoop(s: State, a: Action)
    requires MonitorInv(s) && LoopInv(s) && Enabled(s, a)
    ensures LoopInv(Apply(s, a))
  {
    if a == FsCmd {
      CommandKeepsLoop(s.main, s.history.idle.events, s.history.idle.lastPoll);
    } else if a == MainStep {
      MainKeepsLoop(s);
    } else {
      OthersKeepIdle(s, a);
    }
  }

  /** What only main and the FS commands change. */
  predicate SameIdle(s: State, t: State) {
    && t.main == s.main && t.monitor == s.monitor && t.now >= s.now
    && t.history.idle == s.history.idle
  }

  lemma WqKeepsIdle(s: State)
    ensures SameIdle(s, WqNext(s))
  {}

  lemma BtKeepsIdle(s: State)
    ensures SameIdle(s, BtNext(s))
  {}

  lemma OthersKeepIdle(s: State, a: Action)
    requires Enabled(s, a) && a != FsCmd && a != MainStep
    ensures SameIdle(s, Apply(s, a))
  {
    match a
    case WqStep => WqKeepsIdle(s);
    case BtStep => BtKeepsIdle(s);
    case _ =>
  }

  lemma StepMonitor(s: State, a: Action)
    requires MonitorInv(s) && Enabled(s, a)
    ensures MonitorInv(Apply(s, a))
  {
    if a == FsCmd {
      ReplaySnoc(s.history.idle.events, FsCommand);
    } else if a == MainStep {
      if s.main.Count217? {
        ReplaySnoc(s.history.idle.events, Iteration(s.main.wasConnected));
      }
    } else {
      OthersKeepIdle(s, a);
    }
  }

  lemma CommandKeepsLoop(pc: MainPc, evs: seq<Event>, p: nat)
    requires LoopAt(pc, evs, p)
    ensures LoopAt(pc, evs + [FsCommand], p)
  {
    var all := evs + [FsCommand];
    if !Polled(pc) {
      LoopingSnoc(evs);
    } else if pc == Idle232 {
      assert all[..p] == evs[..p];
    }
  }

  lemma PollKeepsLoop(evs: seq<Event>, connected: bool)
    requires StillLooping(evs)
    ensures LoopAt(Idle232, evs + [Iteration(connected)], |evs|)
  {
    assert (evs + [Iteration(connected)])[..|evs|] == evs;
  }

  lemma TestKeepsLoop(evs: seq<Event>, p: nat)
    requires LoopAt(Idle232, evs, p) && !TimedOut(Replay(evs))
    ensures LoopAt(Blink238, evs, p)
  {
    CounterAtTest(evs, p);
    LoopsOn(evs, p);
  }

  lemma MainKeepsLoop(s: State)
    requires MonitorInv(s) && LoopInv(s) && MainEnabled(s)
    ensures LoopInv(MainNext(s))
  {
    if s.main.Count217? {
      PollKeepsLoop(s.history.idle.events, s.main.wasConnected);
    } else if s.main == Idle232 {
      if !TimedOut(s.monitor) {
        TestKeepsLoop(s.history.idle.events, s.history.idle.lastPoll);
      }
    } else {
      MainElsewhere(s);
    }
  }

  lemma MainElsewhere(s: State)
    requires MainEnabled(s) && !s.main.Count217? && s.main != Idle232
    ensures MainNext(s).history.idle == s.history.idle
    ensures MainGoto(s) != Idle232 && (Polled(s.main) ==> Polled(MainGoto(s)))
  {}

  lemma {:induction false} RunKeepsIdle(s: State, acts: seq<Action>, t: State)
    requires MonitorInv(s) && LoopInv(s) && Run(s, acts, t)
    ensures MonitorInv(t) && LoopInv(t)
    decreases |acts|
  {
    RunFirst(s, acts, t);
    if acts != [] {
      StepMonitor(s, acts[0]);
      StepLoop(s, acts[0]);
      RunKeepsIdle(Apply(s, acts[0]), acts[1..], t);
    }
  }

  // The history as an observer of the run sees it

  /** The connection as main has last tested it. */
  function Tested(s: State, a: Action, seen: bool): bool {
    if a == MainStep && s.main == Test215 then s.connected else seen
  }

  /** What an action adds to the history: an FS command, or an iteration at the poll, with what main had seen. */
  function EventOf(s: State, a: Action, seen: bool): seq<Event> {
    if a == FsCmd && s.main != Hook195 then [FsCommand]
    else if a == MainStep && s.main.Count217? then [Iteration(seen)]
    else []
  }

  /** The FS commands and the iterations of a run, from its actions and the connection at each test. */
  function Observed(s: State, acts: seq<Action>, seen: bool): seq<Event>
    decreases |acts|
  {
    if acts == [] || !Enabled(s, acts[0]) then []
    else EventOf(s, acts[0], seen) + Observed(Apply(s, acts[0]), acts[1..], Tested(s, acts[0], seen))
  }

  predicate Seen(s: State, seen: bool) {
    s.main.Count217? ==> s.main.wasConnected == seen
  }

  lemma MainObserved(s: State, seen: bool)
    requires Seen(s, seen)
    ensures MainNext(s).history.idle.events == s.history.idle.events + EventOf(s, MainStep, seen)
    ensures Seen(MainNext(s), Tested(s, MainStep, seen))
  {}

  lemma ObservedStep(s: State, a: Action, seen: bool)
    requires Enabled(s, a) && Seen(s, seen)
    ensures Apply(s, a).history.idle.events == s.history.idle.events + EventOf(s, a, seen)
    ensures Seen(Apply(s, a), Tested(s, a, seen))
  {
    if a == MainStep {
      MainObserved(s, seen);
    } else if a != FsCmd {
      OthersKeepIdle(s, a);
      assert EventOf(s, a, seen) == [];
    }
  }

  lemma ObservedFirst(s: State, acts: seq<Action>, seen: bool, next: State, now: bool)
    requires acts != [] && Enabled(s, acts[0])
    requires next == Apply(s, acts[0]) && now == Tested(s, acts[0], seen)
    ensures Observed(s, acts, seen) == EventOf(s, acts[0], seen) + Observed(next, acts[1..], now)
  {}

  lemma Joined(a: seq<Event>, b: seq<Event>, c: seq<Event>, whole: seq<Event>)
    requires whole == b + c
    ensures (a + b) + c == a + whole
  {}

  lemma {:induction false} ObservedRun(s: State, acts: seq<Action>, t: State, seen: bool)
    requires Run(s, acts, t) && Seen(s, seen)
    ensures t.history.idle.events == s.history.idle.events + Observed(s, acts, seen)
    decreases |acts|
  {
    RunFirst(s, acts, t);
    if acts != [] {
      var next, now := Apply(s, acts[0]), Tested(s, acts[0], seen);
      ObservedStep(s, acts[0], seen);
      ObservedFirst(s, acts, seen, next, now);
      ObservedRun(next, acts[1..], t, now);
      Joined(s.history.idle.events, EventOf(s, acts[0], seen), Observed(next, acts[1..], now), Observed(s, acts, seen));
    }
  }

  /** What is logged is what is observed. */
  lemma EventsObserved(s0: State, acts: seq<Action>, s: State)
    requires Init(s0) && Run(s0, acts, s)
    ensures s.history.idle.events == Observed(s0, acts, false)
  {
    ObservedRun(s0, acts, s, false);
  }

  /**
   * In every run of the device: at the test of the inactivity counter, main goes on to reboot exactly when
   * the iteration it has just polled is the first to end 180 consecutive ones without credit. It is the first
   * to end 180 inactive ones exactly when main reboots and none of those 180 is a missed one. All of it is
   * about the FS commands and the connections of the run itself.
   */
  lemma InactivityReboot(s0: State, acts: seq<Action>, s: State) returns (p: nat)
    requires Init(s0) && Run(s0, acts, s) && s.main == Idle232
    ensures LastIteration(Observed(s0, acts, false), p)
    ensures s.monitor.timeoutCnt == CountedRun(Observed(s0, acts, false))
    ensures MainGoto(s) == MainReboots(Test280) <==> TimesOutAt(Observed(s0, acts, false), p)
    ensures InactivityEndsAt(Observed(s0, acts, false), p)
       <==> MainGoto(s) == MainReboots(Test280) && RunClean(Observed(s0, acts, false)[..p + 1])
  {
    assert StillLooping(s0.history.idle.events);
    RunKeepsIdle(s0, acts, s);
    EventsObserved(s0, acts, s);
    p := s.history.idle.lastPoll;
    CounterAtTest(s.history.idle.events, p);
    TimeoutsExactly(s.history.idle.events, p);
  }

  /** Main enters the reboot path from nowhere but that test and the request flag. */
  lemma WaysToReboot(s: State, a: Action)
    requires Enabled(s, a) && !s.main.MainReboots? && Apply(s, a).main.MainReboots?
    ensures a == MainStep
    ensures (s.main == Idle232 && TimedOut(s.monitor)) || (s.main == Top208 && s.rebootRequested)
  {}

  // How long 180 iterations take

  /** Every iteration but the current one has slept for a second. */
  predicate QuietAt(pc: MainPc, cnt: nat, since: nat, now: nat) {
    && since <= now
    && (if Polled(pc) then cnt <= UPLOADING_TIMEOUT_SEC else cnt < UPLOADING_TIMEOUT_SEC)
    && (cnt > 0 ==>
          match pc
          case Asleep(wake, again) =>
            wake + (if again then RGB_LED_BLINK_INTERVAL_MS - RGB_LED_BLINK_DURATION_MS else 0) >= since + 1000 * cnt
          case Top208 => now >= since + 1000 * cnt
          case Check210 => now >= since + 1000 * cnt
          case Feed212 => now >= since + 1000 * cnt
          case Test215 => now >= since + 1000 * cnt
          case Count217(_) => now >= since + 1000 * cnt
          case _ => now >= since + 1000 * (cnt - 1))
    && (cnt > 0 ==> !BeforeLoop(pc))
  }

  predicate QuietInv(s: State, since: nat) {
    QuietAt(s.main, s.monitor.timeoutCnt, since, s.now)
  }

  lemma MainKeepsQuiet(s: State, since: nat)
    requires QuietInv(s, since) && MainEnabled(s)
    ensures QuietInv(MainNext(s), since)
  {}

  lemma StepQuiet(s: State, a: Action, since: nat)
    requires QuietInv(s, since) && Enabled(s, a)
    ensures QuietInv(Apply(s, a), since)
  {
    if a == MainStep {
      MainKeepsQuiet(s, since);
    } else if a == FsCmd {
    } else {
      OthersKeepIdle(s, a);
    }
  }

  lemma {:induction false} RunKeepsQuiet(s: State, acts: seq<Action>, t: State, since: nat)
    requires QuietInv(s, since) && Run(s, acts, t)
    ensures QuietInv(t, since)
    decreases |acts|
  {
    RunFirst(s, acts, t);
    if acts != [] {
      StepQuiet(s, acts[0], since);
      RunKeepsQuiet(Apply(s, acts[0]), acts[1..], t, since);
    }
  }

  /** From any moment at which the counter is zero, the inactivity reboot is at least 179 seconds away. */
  lemma QuietForSeconds(s: State, acts: seq<Action>, t: State)
    requires s.monitor.timeoutCnt == 0 && Run(s, acts, t) && t.main == Idle232 && TimedOut(t.monitor)
    ensures t.now >= s.now + 179_000
  {
    RunKeepsQuiet(s, acts, t, s.now);
  }
}
