/** From the button's edges and timers to their effects, over all runs and from the actions of the run alone. */
module DeviceProgress {
  import opened Bytes
  import opened Device
  import opened DeviceLeds
  import opened DeviceReset
  import opened DeviceButton
  import opened DeviceHandlers

  // Positions in the queue

  function Index(q: seq<Work>, w: Work): (n: nat)
    requires w in q
    ensures n < |q| && q[n] == w
  {
    if q[0] == w then 0 else 1 + Index(q[1..], w)
  }

  lemma {:induction false} IndexKept(q: seq<Work>, q': seq<Work>, w: Work)
    requires w in q && q <= q'
    ensures Index(q', w) == Index(q, w)
  {
    if q[0] != w {
      assert q[1..] <= q'[1..];
      IndexKept(q[1..], q'[1..], w);
    }
  }

  lemma IndexBehind(x: Work, rest: seq<Work>, w: Work)
    requires w in rest && x != w
    ensures w in [x] + rest && Index([x] + rest, w) == 1 + Index(rest, w)
  {
    var q := [x] + rest;
    assert q[0] == x && q[1..] == rest && q[1 + Index(rest, w)] == w;
  }

  lemma IndexTail(q: seq<Work>, w: Work)
    requires w in q && q[0] != w
    ensures w in q[1..] && Index(q, w) == 1 + Index(q[1..], w)
  {
    assert q == [q[0]] + q[1..];
  }

  lemma {:induction false} IndexWithout(q: seq<Work>, w: Work, other: Work)
    requires w in q && w != other
    ensures w in Without(q, other) && Index(Without(q, other), w) <= Index(q, w)
  {
    var rest := Without(q[1..], other);
    if q[0] == w {
      assert Without(q, other) == [w] + rest;
      assert ([w] + rest)[0] == w;
    } else {
      IndexTail(q, w);
      IndexWithout(q[1..], w, other);
      if q[0] == other {
        assert Without(q, other) == [] + rest == rest;
      } else {
        assert Without(q, other) == [q[0]] + rest;
        IndexBehind(q[0], rest, w);
      }
    }
  }

  lemma AllWork(q: seq<Work>)
    requires NoRepeats(q)
    ensures |q| <= 5
  {
    var all := {PressedWork, ReleasedWork, TimeoutWork, RebootWork, AdvertiseWork};
    DistinctCount(q);
    assert (set x | x in q) <= all;
    SubsetCount((set x | x in q), all);
  }

  lemma {:induction false} DistinctCount(q: seq<Work>)
    requires NoRepeats(q)
    ensures |set x | x in q| == |q|
  {
    if q != [] {
      PoppedItem(q);
      DistinctCount(q[1..]);
      assert (set x | x in q) == (set x | x in q[1..]) + {q[0]};
    }
  }

  lemma {:induction false} SubsetCount(a: set<Work>, b: set<Work>)
    requires a <= b
    ensures |a| <= |b|
  {
    if a != {} {
      var x :| x in a;
      SubsetCount(a - {x}, b - {x});
    }
  }

  // How far the work queue is from an item

  /** The steps of the current handler that are still to come; a reboot handler ends all others. */
  function Busy(pc: WqPc): nat {
    match pc
    case Resched40 => 6
    case Lock41 => 5
    case SetLatch42 => 4
    case GreenOn43 => 3
    case RedOn44 => 2
    case Unlock45 => 1
    case Cancel52 => 6
    case Lock54 => 5
    case GreenOff55 => 4
    case RedOff56 => 3
    case Unlock57 => 2
    case Resched58 => 1
    case Lock65 => 5
    case GreenOff66 => 4
    case RedOff67 => 3
    case Unlock68 => 2
    case Resched69 => 1
    case Advertise => 1
    case _ => 0
  }

  /** Item w is queued, and its handler done at the latest after n more steps of the work queue. */
  predicate Queued(s: State, w: Work, n: int) {
    w in s.queue && Busy(s.wq) + 7 * Index(s.queue, w) + 7 <= n
  }

  /** Another item is taken up. */
  lemma PoppedNearer(s: State, w: Work, n: int)
    requires Queued(s, w, n) && s.wq == WqIdle && s.queue[0] != w
    ensures WqNext(s).wq.WqReboots? || Queued(WqNext(s), w, n - 1)
  {
    IndexTail(s.queue, w);
    assert WqNext(s).queue == s.queue[1..];
  }

  /** A step within a handler. */
  lemma HandlerNearer(s: State, w: Work, n: int)
    requires Queued(s, w, n) && s.wq != WqIdle && !s.wq.WqReboots? && (s.wq == Cancel52 ==> w != TimeoutWork)
    ensures Queued(WqNext(s), w, n - 1)
  {
    BusyLess(s);
    if s.wq == Cancel52 {
      IndexWithout(s.queue, w, TimeoutWork);
    }
  }

  lemma BusyLess(s: State)
    requires s.wq != WqIdle && !s.wq.WqReboots?
    ensures Busy(WqNext(s).wq) < Busy(s.wq)
    ensures WqNext(s).queue == if s.wq == Cancel52 then Without(s.queue, TimeoutWork) else s.queue
  {}

  /** A step of the work queue takes w up, or brings it nearer. */
  lemma WqNearer(s: State, w: Work, n: int)
    requires Queued(s, w, n) && !s.wq.WqReboots?
    ensures WqNext(s).wq.WqReboots?
         || Queued(WqNext(s), w, n - 1)
         || (HeadIs(s, w) && WqNext(s).wq == Handler(w))
         || (s.wq == Cancel52 && WqNext(s).wq == Lock54 && w == TimeoutWork)
  {
    if s.wq == WqIdle {
      if s.queue[0] != w {
        PoppedNearer(s, w, n);
      }
    } else if s.wq != Cancel52 || w != TimeoutWork {
      HandlerNearer(s, w, n);
    }
  }

  lemma OthersKeepQueued(s: State, a: Action, w: Work, n: int)
    requires Queued(s, w, n) && Enabled(s, a) && a != WqStep
    ensures Queued(Apply(s, a), w, n)
  {
    OthersKeepBusiness(s, a);
    IndexKept(s.queue, Apply(s, a).queue, w);
  }

  lemma QueuedIn41(s: State, w: Work)
    requires w in s.queue && NoRepeats(s.queue)
    ensures Queued(s, w, 41)
  {
    AllWork(s.queue);
  }

  // A press sets the latch

  predicate Pressing(s: State, n: int) {
    || s.latch || s.wq.WqReboots?
    || Queued(s, PressedWork, n)
    || ((s.wq == Resched40 || s.wq == Lock41 || s.wq == SetLatch42) && Busy(s.wq) <= n)
  }

  lemma WqKeepsPressing(s: State, n: int)
    requires Pressing(s, n) && WqEnabled(s)
    ensures Pressing(WqNext(s), n - 1)
  {
    if Queued(s, PressedWork, n) && !s.wq.WqReboots? {
      WqNearer(s, PressedWork, n);
    }
  }

  lemma StepPressing(s: State, a: Action, n: int)
    requires Pressing(s, n) && Enabled(s, a)
    ensures Pressing(Apply(s, a), n - if a == WqStep then 1 else 0)
  {
    if a == WqStep {
      WqKeepsPressing(s, n);
    } else {
      OthersKeepBusiness(s, a);
      if Queued(s, PressedWork, n) {
        OthersKeepQueued(s, a, PressedWork, n);
      }
    }
  }

  lemma {:induction false} RunPressing(s: State, acts: seq<Action>, t: State, n: int)
    requires Pressing(s, n) && Run(s, acts, t)
    ensures Pressing(t, n - Count(acts, WqStep))
    decreases |acts|
  {
    RunFirst(s, acts, t);
    if acts != [] {
      CountFirst(acts, WqStep);
      StepPressing(s, acts[0], n);
      RunPressing(Apply(s, acts[0]), acts[1..], t, n - if acts[0] == WqStep then 1 else 0);
    }
  }

  /**
   * A press of the button sets the latch within 41 steps of the work queue, whatever else is queued and
   * whatever runs in between, unless a reboot is handled before.
   */
  lemma PressLatches(s0: State, before: seq<Action>, s: State, acts: seq<Action>, t: State)
    requires Init(s0) && Run(s0, before, s) && Enabled(s, ButtonEdge(true))
    requires Run(Apply(s, ButtonEdge(true)), acts, t) && Count(acts, WqStep) >= 41
    ensures t.latch || t.wq.WqReboots?
  {
    RunKeepsButton(s0, before, s);
    var next := Apply(s, ButtonEdge(true));
    SubmittedItem(s.queue, PressedWork);
    QueuedIn41(next, PressedWork);
    RunPressing(next, acts, t, 41);
  }

  // A release, and the timeout of a press, lead to a reboot

  /** The delayed reboot runs, is queued or is handled. */
  predicate RebootComing(s: State) {
    s.rebootDue.Some? || RebootWork in s.queue || s.wq.WqReboots?
  }

  predicate SwitchesOff(pc: WqPc) {
    HandlesRelease(pc) || HandlesTimeout(pc) || pc == Cancel52
  }

  predicate Releasing(s: State, n: int) {
    || RebootComing(s)
    || Queued(s, ReleasedWork, n) || Queued(s, TimeoutWork, n)
    || (SwitchesOff(s.wq) && Busy(s.wq) <= n)
  }

  lemma WqKeepsComing(s: State)
    requires RebootComing(s) && WqEnabled(s)
    ensures RebootComing(WqNext(s))
  {
    if RebootWork in s.queue {
      if s.wq == Cancel52 {
        IndexWithout(s.queue, RebootWork, TimeoutWork);
      } else if s.wq == WqIdle && s.queue[0] != RebootWork {
        IndexTail(s.queue, RebootWork);
      }
    }
  }

  lemma WqKeepsReleasing(s: State, n: int)
    requires Releasing(s, n) && WqEnabled(s)
    ensures Releasing(WqNext(s), n - 1)
  {
    if RebootComing(s) {
      WqKeepsComing(s);
    } else if Queued(s, ReleasedWork, n) {
      WqNearer(s, ReleasedWork, n);
    } else if Queued(s, TimeoutWork, n) {
      WqNearer(s, TimeoutWork, n);
    } else {
      WqSwitchesOff(s);
    }
  }

  lemma WqSwitchesOff(s: State)
    requires SwitchesOff(s.wq)
    ensures WqNext(s).rebootDue.Some? || (SwitchesOff(WqNext(s).wq) && Busy(WqNext(s).wq) < Busy(s.wq))
  {}

  lemma OthersKeepReleasing(s: State, a: Action, n: int)
    requires Releasing(s, n) && Enabled(s, a) && a != WqStep
    ensures Releasing(Apply(s, a), n)
  {
    OthersKeepBusiness(s, a);
    if Queued(s, ReleasedWork, n) {
      OthersKeepQueued(s, a, ReleasedWork, n);
    } else if Queued(s, TimeoutWork, n) {
      OthersKeepQueued(s, a, TimeoutWork, n);
    } else if RebootComing(s) {
      OthersKeepComing(s, a);
    }
  }

  lemma OthersKeepComing(s: State, a: Action)
    requires RebootComing(s) && Enabled(s, a) && a != WqStep
    ensures RebootComing(Apply(s, a))
  {
    match a
    case MainStep => assert RebootComing(MainNext(s));
    case BtStep => assert RebootComing(BtNext(s));
    case RebootExpires => SubmittedMember(s.queue, RebootWork);
    case _ => OthersKeepBusiness(s, a);
  }

  lemma SubmittedMember(q: seq<Work>, w: Work)
    ensures w in Submit(q, w)
  {
    if w !in q {
      assert Submit(q, w)[|q|] == w;
    }
  }

  lemma {:induction false} RunReleasing(s: State, acts: seq<Action>, t: State, n: int)
    requires Releasing(s, n) && Run(s, acts, t)
    ensures Releasing(t, n - Count(acts, WqStep))
    decreases |acts|
  {
    RunFirst(s, acts, t);
    if acts != [] {
      CountFirst(acts, WqStep);
      if acts[0] == WqStep {
        WqKeepsReleasing(s, n);
      } else {
        OthersKeepReleasing(s, acts[0], n);
      }
      RunReleasing(Apply(s, acts[0]), acts[1..], t, n - if acts[0] == WqStep then 1 else 0);
    }
  }

  /** Within 41 steps of the work queue, a release, or the timeout of a press, has led to the delayed reboot. */
  lemma ReleaseReboots(s0: State, before: seq<Action>, s: State, a: Action, acts: seq<Action>, t: State)
    requires Init(s0) && Run(s0, before, s) && Enabled(s, a) && (a == ButtonEdge(false) || a == TimeoutExpires)
    requires Run(Apply(s, a), acts, t) && Count(acts, WqStep) >= 41
    ensures RebootComing(t)
  {
    RunKeepsButton(s0, before, s);
    OffQueued(s, a);
    RunReleasing(Apply(s, a), acts, t, 41);
    ReleasedAtLast(t, 41 - Count(acts, WqStep));
  }

  lemma ReleasedAtLast(t: State, n: int)
    requires Releasing(t, n) && n <= 0
    ensures RebootComing(t)
  {}

  lemma OffQueued(s: State, a: Action)
    requires NoRepeats(s.queue) && Enabled(s, a) && (a == ButtonEdge(false) || a == TimeoutExpires)
    ensures Releasing(Apply(s, a), 41)
  {
    var w := if a == TimeoutExpires then TimeoutWork else ReleasedWork;
    SubmittedItem(s.queue, w);
    assert Apply(s, a).queue == Submit(s.queue, w);
    QueuedIn41(Apply(s, a), w);
  }

  // The delayed reboot asks main for it

  predicate Rebooting(s: State, n: int) {
    || s.rebootRequested
    || Queued(s, RebootWork, n - 3)
    || (s.wq == WqReboots(Test280) && 2 <= n) || (s.wq == WqReboots(Request332) && 1 <= n)
  }

  lemma WqKeepsRebooting(s: State, n: int)
    requires Rebooting(s, n) && WqEnabled(s) && FunnelInv(s)
    ensures Rebooting(WqNext(s), n - 1)
  {
    if Queued(s, RebootWork, n - 3) && !s.wq.WqReboots? {
      WqNearer(s, RebootWork, n - 3);
    }
  }

  lemma OthersKeepRebooting(s: State, a: Action, n: int)
    requires Rebooting(s, n) && Enabled(s, a) && a != WqStep
    ensures Rebooting(Apply(s, a), n)
  {
    OthersKeepBusiness(s, a);
    if s.rebootRequested {
      RequestStays(s, a);
    } else if Queued(s, RebootWork, n - 3) {
      OthersKeepQueued(s, a, RebootWork, n - 3);
    }
  }

  lemma RequestStays(s: State, a: Action)
    requires s.rebootRequested && Enabled(s, a)
    ensures Apply(s, a).rebootRequested
  {
    match a
    case MainStep => assert MainNext(s).rebootRequested;
    case WqStep => assert WqNext(s).rebootRequested;
    case BtStep => assert BtNext(s).rebootRequested;
    case _ =>
  }

  lemma {:induction false} RunRebooting(s: State, acts: seq<Action>, t: State, n: int)
    requires FunnelInv(s) && Rebooting(s, n) && Run(s, acts, t)
    ensures Rebooting(t, n - Count(acts, WqStep))
    decreases |acts|
  {
    RunFirst(s, acts, t);
    if acts != [] {
      StepFunnel(s, acts[0]);
      CountFirst(acts, WqStep);
      if acts[0] == WqStep {
        WqKeepsRebooting(s, n);
      } else {
        OthersKeepRebooting(s, acts[0], n);
      }
      RunRebooting(Apply(s, acts[0]), acts[1..], t, n - if acts[0] == WqStep then 1 else 0);
    }
  }

  /** When the delay of the reboot expires, main is asked to reboot within 44 steps of the work queue. */
  lemma ExpiryRequests(s0: State, before: seq<Action>, s: State, acts: seq<Action>, t: State)
    requires Init(s0) && Run(s0, before, s) && Enabled(s, RebootExpires)
    requires Run(Apply(s, RebootExpires), acts, t) && Count(acts, WqStep) >= 44
    ensures t.rebootRequested
  {
    RunKeepsButton(s0, before, s);
    RunKeepsFunnel(s0, before, s);
    var next := Apply(s, RebootExpires);
    StepQueue(s, RebootExpires);
    StepFunnel(s, RebootExpires);
    SubmittedItem(s.queue, RebootWork);
    QueuedIn41(next, RebootWork);
    RunRebooting(next, acts, t, 44);
  }

  // And back: what the latch and a reboot of the button follow

  /** No work of the button is under way. */
  predicate ButtonIdle(s: State) {
    && (s.wq == WqIdle || s.wq == Advertise) && s.timeoutDue == None && s.rebootDue == None
    && PressedWork !in s.queue && ReleasedWork !in s.queue && TimeoutWork !in s.queue && RebootWork !in s.queue
  }

  predicate HandlesPress(pc: WqPc) {
    pc == Resched40 || pc == Lock41 || pc == SetLatch42 || pc == GreenOn43 || pc == RedOn44 || pc == Unlock45
  }

  /** Since a moment without work of the button, with or without a press and a release from then on. */
  predicate Traced(s: State, since: nat, latched: bool, pressed: bool, released: bool) {
    && since <= s.now
    && EdgesTraced(s, latched, pressed, released)
    && TimeoutTraced(s, since, pressed)
    && RebootsTraced(s, since, pressed, released)
  }

  predicate EdgesTraced(s: State, latched: bool, pressed: bool, released: bool) {
    && (s.latch ==> latched || pressed)
    && (PressedWork in s.queue || HandlesPress(s.wq) ==> pressed)
    && (ReleasedWork in s.queue || HandlesRelease(s.wq) || s.wq == Cancel52 ==> released)
  }

  predicate TimeoutTraced(s: State, since: nat, pressed: bool) {
    && (HandlesPress(s.wq) ==> pressed)
    && (s.timeoutDue.Some? ==> pressed && s.timeoutDue.value >= since + BUTTON_DELAY_BEFORE_REBOOT)
    && (TimeoutWork in s.queue || HandlesTimeout(s.wq) ==> pressed && s.now >= since + BUTTON_DELAY_BEFORE_REBOOT)
  }

  predicate RebootsTraced(s: State, since: nat, pressed: bool, released: bool) {
    && (HandlesRelease(s.wq) ==> released)
    && (HandlesTimeout(s.wq) ==> pressed && s.now >= since + BUTTON_DELAY_BEFORE_REBOOT)
    && (s.rebootDue.Some? ==> RebootTraced(s.rebootDue.value, since, pressed, released))
    && (RebootWork in s.queue || s.wq.WqReboots? ==> RebootTraced(s.now, since, pressed, released))
  }

  predicate RebootTraced(at: nat, since: nat, pressed: bool, released: bool) {
    || (released && at >= since + BUTTON_DELAY_FLUSH_LOGS_MS)
    || (pressed && at >= since + BUTTON_DELAY_BEFORE_REBOOT + BUTTON_DELAY_FLUSH_LOGS_MS)
  }

  /** A step of the work queue adds no item. */
  lemma WqAddsNothing(s: State)
    requires NoRepeats(s.queue)
    ensures forall w | w in WqNext(s).queue :: w in s.queue
  {
    WithoutItem(s.queue, TimeoutWork);
    if s.queue != [] {
      PoppedItem(s.queue);
    }
  }

  lemma WqKeepsEdges(s: State, latched: bool, pressed: bool, released: bool)
    requires NoRepeats(s.queue) && EdgesTraced(s, latched, pressed, released)
    ensures EdgesTraced(WqNext(s), latched, pressed, released)
  {
    WqAddsNothing(s);
  }

  lemma WqKeepsTimeouts(s: State, since: nat, pressed: bool)
    requires NoRepeats(s.queue) && since <= s.now && TimeoutTraced(s, since, pressed)
    requires HeadIs(s, PressedWork) ==> pressed
    ensures TimeoutTraced(WqNext(s), since, pressed)
  {
    WqAddsNothing(s);
  }

  lemma WqKeepsReboots(s: State, since: nat, pressed: bool, released: bool)
    requires NoRepeats(s.queue) && since <= s.now && RebootsTraced(s, since, pressed, released)
    requires s.wq == Cancel52 ==> released
    requires HeadIs(s, TimeoutWork) ==> pressed && s.now >= since + BUTTON_DELAY_BEFORE_REBOOT
    ensures RebootsTraced(WqNext(s), since, pressed, released)
  {
    WqAddsNothing(s);
  }

  lemma WqKeepsTraced(s: State, since: nat, latched: bool, pressed: bool, released: bool)
    requires NoRepeats(s.queue) && Traced(s, since, latched, pressed, released)
    ensures Traced(WqNext(s), since, latched, pressed, released)
  {
    WqKeepsEdges(s, latched, pressed, released);
    WqKeepsTimeouts(s, since, pressed);
    WqKeepsReboots(s, since, pressed, released);
  }

  lemma MainKeepsTraced(s: State, since: nat, latched: bool, pressed: bool, released: bool)
    requires Traced(s, since, latched, pressed, released)
    ensures Traced(MainNext(s), since, latched, pressed, released)
  {}

  lemma BtKeepsTraced(s: State, since: nat, latched: bool, pressed: bool, released: bool)
    requires NoRepeats(s.queue) && Traced(s, since, latched, pressed, released)
    ensures Traced(BtNext(s), since, latched, pressed, released)
  {
    SubmittedItem(s.queue, AdvertiseWork);
  }

  lemma EdgeTraced(s: State, p: bool, since: nat, latched: bool, pressed: bool, released: bool)
    requires NoRepeats(s.queue) && Traced(s, since, latched, pressed, released) && Enabled(s, ButtonEdge(p))
    ensures Traced(Apply(s, ButtonEdge(p)), since, latched, pressed || p, released || !p)
  {
    SubmittedItem(s.queue, if p then PressedWork else ReleasedWork);
  }

  lemma ExpiryTraced(s: State, a: Action, since: nat, latched: bool, pressed: bool, released: bool)
    requires NoRepeats(s.queue) && Traced(s, since, latched, pressed, released) && Enabled(s, a)
    requires a == TimeoutExpires || a == RebootExpires
    ensures Traced(Apply(s, a), since, latched, pressed, released)
  {
    SubmittedItem(s.queue, if a == TimeoutExpires then TimeoutWork else RebootWork);
  }

  lemma OthersKeepTraced(s: State, a: Action, since: nat, latched: bool, pressed: bool, released: bool)
    requires NoRepeats(s.queue) && Traced(s, since, latched, pressed, released) && Enabled(s, a)
    requires a != MainStep && a != WqStep && a != BtStep
    ensures Traced(Apply(s, a), since, latched, pressed || a == ButtonEdge(true), released || a == ButtonEdge(false))
  {
    match a
    case ButtonEdge(p) => EdgeTraced(s, p, since, latched, pressed, released);
    case TimeoutExpires => ExpiryTraced(s, a, since, latched, pressed, released);
    case RebootExpires => ExpiryTraced(s, a, since, latched, pressed, released);
    case _ =>
  }

  lemma StepTraced(s: State, a: Action, since: nat, latched: bool, pressed: bool, released: bool)
    requires NoRepeats(s.queue) && Traced(s, since, latched, pressed, released) && Enabled(s, a)
    ensures Traced(Apply(s, a), since, latched, pressed || a == ButtonEdge(true), released || a == ButtonEdge(false))
  {
    match a
    case MainStep => MainKeepsTraced(s, since, latched, pressed, released);
    case WqStep => WqKeepsTraced(s, since, latched, pressed, released);
    case BtStep => BtKeepsTraced(s, since, latched, pressed, released);
    case _ => OthersKeepTraced(s, a, since, latched, pressed, released);
  }

  lemma {:induction false} RunTraced(
    s: State, acts: seq<Action>, t: State, since: nat, latched: bool, pressed: bool, released: bool)
    requires NoRepeats(s.queue) && Traced(s, since, latched, pressed, released) && Run(s, acts, t)
    ensures Traced(t, since, latched, pressed || ButtonEdge(true) in acts, released || ButtonEdge(false) in acts)
    decreases |acts|
  {
    RunFirst(s, acts, t);
    if acts != [] {
      var a := acts[0];
      StepTraced(s, a, since, latched, pressed, released);
      StepQueue(s, a);
      var pressed', released' := pressed || a == ButtonEdge(true), released || a == ButtonEdge(false);
      RunTraced(Apply(s, a), acts[1..], t, since, latched, pressed', released');
      InFirst(acts, ButtonEdge(true));
      InFirst(acts, ButtonEdge(false));
    }
  }

  /**
   * From any moment at which no work of the button is under way: the latch is set only by a press, and the
   * button's reboot comes only of a release, 100 ms from that moment or later, or of a press, 5100 ms or later.
   */
  lemma ButtonTraced(s0: State, before: seq<Action>, s: State, acts: seq<Action>, t: State)
    requires Init(s0) && Run(s0, before, s) && ButtonIdle(s) && Run(s, acts, t)
    ensures t.latch && !s.latch ==> ButtonEdge(true) in acts
    ensures t.wq.WqReboots? ==>
      || (ButtonEdge(false) in acts && t.now >= s.now + 100)
      || (ButtonEdge(true) in acts && t.now >= s.now + 5100)
  {
    RunKeepsButton(s0, before, s);
    RunTraced(s, acts, t, s.now, s.latch, false, false);
  }

  // The display while the button is left alone

  predicate Untouched(s: State) {
    ButtonIdle(s) && !s.history.button.handled
  }

  lemma MainKeepsUntouched(s: State)
    requires Untouched(s)
    ensures Untouched(MainNext(s))
  {}

  lemma WqKeepsUntouched(s: State)
    requires Untouched(s) && WqEnabled(s)
    ensures Untouched(WqNext(s))
  {
    if s.wq == WqIdle {
      assert s.queue[0] in s.queue;
      assert forall w | w in s.queue[1..] :: w in s.queue;
    }
  }

  lemma BtKeepsUntouched(s: State)
    requires Untouched(s)
    ensures Untouched(BtNext(s))
  {
    SubmittedElsewhere(s.queue, AdvertiseWork);
  }

  lemma SubmittedElsewhere(q: seq<Work>, w: Work)
    ensures forall x | x in Submit(q, w) :: x == w || x in q
  {}

  lemma StepUntouched(s: State, a: Action)
    requires Untouched(s) && Enabled(s, a) && !a.ButtonEdge?
    ensures Untouched(Apply(s, a))
  {
    match a
    case MainStep => MainKeepsUntouched(s);
    case WqStep => WqKeepsUntouched(s);
    case BtStep => BtKeepsUntouched(s);
    case _ =>
  }

  lemma {:induction false} RunUntouched(s: State, acts: seq<Action>, t: State)
    requires Untouched(s) && Run(s, acts, t) && forall k | 0 <= k < |acts| :: !acts[k].ButtonEdge?
    ensures Untouched(t)
    decreases |acts|
  {
    RunFirst(s, acts, t);
    if acts != [] {
      StepUntouched(s, acts[0]);
      RunUntouched(Apply(s, acts[0]), acts[1..], t);
    }
  }

  /**
   * In a run without an edge of the button, at rest and with main's LED section done: green shows whether the
   * run has left a connection standing, and red that it has not, unless main's section came after it.
   */
  lemma DisplayWithoutButton(s0: State, acts: seq<Action>, s: State)
    requires Init(s0) && Untouched(s0) && Run(s0, acts, s)
    requires forall k | 0 <= k < |acts| :: !acts[k].ButtonEdge?
    requires s.mutex == None && s.bt == BtIdle && MainPainted(s)
    ensures s.green <==> Linked(acts)
    ensures (s.red <==> !Linked(acts)) <==> !(Linked(acts) && s.history.display.mainShownLast)
  {
    RunUntouched(s0, acts, s);
    DisplayExactly(s0, acts, s);
  }

  // Advertising

  predicate AdvertiseStage(s: State) {
    match s.bt
    case ClearConn120 => true
    case Lock121 => true
    case Check122 => true
    case GreenOff124 => true
    case RedOn125 => true
    case Unlock127 => true
    case Submit128 => true
    case BtIdle => AdvertiseWork in s.queue
    case _ => false
  }

  lemma BtKeepsAdvertise(s: State)
    requires AdvertiseStage(s)
    ensures AdvertiseStage(BtNext(s))
  {
    SubmittedMember(s.queue, AdvertiseWork);
  }

  lemma OthersKeepBt(s: State, a: Action)
    requires Enabled(s, a) && a != WqStep && a != BtStep && !IsLink(a)
    ensures Apply(s, a).bt == s.bt && s.queue <= Apply(s, a).queue
  {
    OthersKeepBusiness(s, a);
    match a
    case MainStep => assert MainNext(s).bt == s.bt;
    case _ =>
  }

  lemma {:induction false} AdvertiseRun(s: State, acts: seq<Action>, t: State)
    requires AdvertiseStage(s) && Run(s, acts, t) && WqStep !in acts && !HasLink(acts)
    ensures AdvertiseStage(t)
    decreases |acts|
  {
    RunFirst(s, acts, t);
    if acts != [] {
      LinkFirst(acts);
      InFirst(acts, WqStep);
      if acts[0] == BtStep {
        BtKeepsAdvertise(s);
      } else {
        OthersKeepBt(s, acts[0]);
      }
      AdvertiseRun(Apply(s, acts[0]), acts[1..], t);
    }
  }

  /** When the callback of a disconnection is over, advertising is queued again. */
  lemma AdvertisesAgain(s: State, acts: seq<Action>, t: State)
    requires Enabled(s, Disconnected) && Run(Apply(s, Disconnected), acts, t)
    requires WqStep !in acts && !HasLink(acts) && t.bt == BtIdle
    ensures AdvertiseWork in t.queue
  {
    AdvertiseRun(Apply(s, Disconnected), acts, t);
  }
}
