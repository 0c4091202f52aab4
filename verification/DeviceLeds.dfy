/** LED safety over all interleavings: who writes the LEDs, and what they show. */
module DeviceLeds {
  import opened Bytes
  import opened IdleTimeout
  import opened Device

  // Critical sections

  predicate MainInside(s: State) {
    s.main == Check198 || s.main == RedOn200 || s.main == Unlock202
  }

  predicate WqInside(s: State) {
    || s.wq == SetLatch42 || s.wq == GreenOn43 || s.wq == RedOn44 || s.wq == Unlock45
    || s.wq == GreenOff55 || s.wq == RedOff56 || s.wq == Unlock57
    || s.wq == GreenOff66 || s.wq == RedOff67 || s.wq == Unlock68
  }

  predicate BtInside(s: State) {
    || s.bt == Check107 || s.bt == RedOff109 || s.bt == GreenOn110 || s.bt == Unlock112
    || s.bt == Check122 || s.bt == GreenOff124 || s.bt == RedOn125 || s.bt == Unlock127
  }

  /** A thread is in its critical section exactly when it holds the mutex. */
  predicate MutexInv(s: State) {
    && s.mutex != Some(Other)
    && (s.mutex == Some(Main) <==> MainInside(s))
    && (s.mutex == Some(WorkQ) <==> WqInside(s))
    && (s.mutex == Some(Bt) <==> BtInside(s))
  }

  /** Main or Bluetooth is past its test of the latch and about to write an LED. */
  predicate Painting(s: State) {
    s.main == RedOn200 || s.bt == RedOff109 || s.bt == GreenOn110 || s.bt == GreenOff124 || s.bt == RedOn125
  }

  /** The work queue is between its two LED writes, or about to begin them after setting the latch. */
  predicate Switching(s: State) {
    s.wq == GreenOn43 || s.wq == RedOn44 || s.wq == RedOff56 || s.wq == RedOff67
  }

  predicate LatchInv(s: State) {
    && (s.latch ==> !Painting(s))
    && (s.latch && !Switching(s) ==> s.red == s.green)
    && (s.wq == GreenOn43 || s.wq == RedOn44 || s.wq == Unlock45 ==> s.latch)
    && (s.wq == RedOn44 ==> s.green)
    && (s.wq == RedOff56 || s.wq == RedOff67 ==> !s.green)
  }

  // The connection display

  predicate MainPainted(s: State) {
    s.main != Hook195 && s.main != Lock197 && s.main != Check198 && s.main != RedOn200
  }

  /** Which state of g_bt_is_connected goes with each point of the callbacks. */
  predicate ConnectionInv(s: State) {
    match s.bt
    case BtIdle => s.history.display.shown == s.connected
    case SetConn105 => s.history.display.shown == s.connected
    case ClearConn120 => s.history.display.shown == s.connected
    case Lock106 => s.connected
    case Check107 => s.connected
    case RedOff109 => s.connected
    case GreenOn110 => s.connected
    case Unlock112 => s.connected
    case Submit128 => !s.connected && !s.history.display.shown
    case _ => !s.connected
  }

  /** The LEDs before any press or release has been handled. */
  predicate DisplayInv(s: State) {
    && (s.latch || Switching(s) ==> s.history.button.handled)
    && (s.history.display.mainShownLast ==> MainPainted(s))
    && (!s.history.button.handled ==>
          && (match s.bt
              case Unlock112 => s.green && !s.red
              case GreenOn110 => s.green == s.history.display.shown && !s.red
              case RedOn125 => !s.green
              case Unlock127 => !s.green && s.red
              case _ =>
                && s.green == s.history.display.shown
                && (MainPainted(s) ==>
                      s.red == (s.main == Unlock202 || s.history.display.mainShownLast || !s.history.display.shown))))
  }

  predicate LedInv(s: State) {
    MutexInv(s) && LatchInv(s) && ConnectionInv(s) && DisplayInv(s)
  }

  lemma InitLeds(s: State)
    requires Init(s)
    ensures LedInv(s)
  {}

  lemma StepMutex(s: State, a: Action)
    requires MutexInv(s) && Enabled(s, a)
    ensures MutexInv(Apply(s, a))
  {
    match a
    case MainStep => MainKeepsMutex(s);
    case WqStep => WqKeepsMutex(s);
    case BtStep => BtKeepsMutex(s);
    case _ =>
  }

  lemma MainKeepsMutex(s: State)
    requires MutexInv(s) && MainEnabled(s)
    ensures MutexInv(MainNext(s))
  {}

  lemma WqKeepsMutex(s: State)
    requires MutexInv(s) && WqEnabled(s)
    ensures MutexInv(WqNext(s))
  {}

  lemma BtKeepsMutex(s: State)
    requires MutexInv(s) && BtEnabled(s)
    ensures MutexInv(BtNext(s))
  {}

  lemma StepLatch(s: State, a: Action)
    requires MutexInv(s) && LatchInv(s) && Enabled(s, a)
    ensures LatchInv(Apply(s, a))
  {
    match a
    case MainStep => MainKeepsLatch(s);
    case WqStep => WqKeepsLatch(s);
    case BtStep => BtKeepsLatch(s);
    case _ =>
  }

  lemma MainKeepsLatch(s: State)
    requires MutexInv(s) && LatchInv(s) && MainEnabled(s)
    ensures LatchInv(MainNext(s))
  {}

  lemma WqKeepsLatch(s: State)
    requires MutexInv(s) && LatchInv(s) && WqEnabled(s)
    ensures LatchInv(WqNext(s))
  {}

  lemma BtKeepsLatch(s: State)
    requires MutexInv(s) && LatchInv(s) && BtEnabled(s)
    ensures LatchInv(BtNext(s))
  {}

  lemma StepConnection(s: State, a: Action)
    requires ConnectionInv(s) && Enabled(s, a)
    ensures ConnectionInv(Apply(s, a))
  {
    match a
    case BtStep => BtKeepsConnection(s);
    case _ =>
  }

  lemma BtKeepsConnection(s: State)
    requires ConnectionInv(s) && BtEnabled(s)
    ensures ConnectionInv(BtNext(s))
  {}

  lemma StepDisplay(s: State, a: Action)
    requires LedInv(s) && Enabled(s, a)
    ensures DisplayInv(Apply(s, a))
  {
    match a
    case MainStep => MainKeepsDisplay(s);
    case WqStep => WqKeepsDisplay(s);
    case BtStep => BtKeepsDisplay(s);
    case _ =>
  }

  lemma MainKeepsDisplay(s: State)
    requires LedInv(s) && MainEnabled(s)
    ensures DisplayInv(MainNext(s))
  {}

  lemma WqKeepsDisplay(s: State)
    requires LedInv(s) && WqEnabled(s)
    ensures DisplayInv(WqNext(s))
  {}

  lemma BtKeepsDisplay(s: State)
    requires LedInv(s) && BtEnabled(s)
    ensures DisplayInv(BtNext(s))
  {}

  lemma StepLeds(s: State, a: Action)
    requires LedInv(s) && Enabled(s, a)
    ensures LedInv(Apply(s, a))
  {
    StepMutex(s, a);
    StepLatch(s, a);
    StepConnection(s, a);
    StepDisplay(s, a);
  }

  lemma {:induction false} RunKeepsLeds(s: State, acts: seq<Action>, t: State)
    requires LedInv(s) && Run(s, acts, t)
    ensures LedInv(t)
    decreases |acts|
  {
    RunFirst(s, acts, t);
    if acts != [] {
      StepLeds(s, acts[0]);
      RunKeepsLeds(Apply(s, acts[0]), acts[1..], t);
    }
  }

  // Main results

  function ActorOf(a: Action): Tid {
    match a
    case MainStep => Main
    case WqStep => WorkQ
    case BtStep => Bt
    case _ => Other
  }

  /** The statement about to be executed is an LED write. */
  predicate WritesLed(s: State, a: Action) {
    match a
    case MainStep => s.main == RedOn200
    case WqStep =>
      || s.wq == GreenOn43 || s.wq == RedOn44 || s.wq == GreenOff55 || s.wq == RedOff56
      || s.wq == GreenOff66 || s.wq == RedOff67
    case BtStep => s.bt == RedOff109 || s.bt == GreenOn110 || s.bt == GreenOff124 || s.bt == RedOn125
    case _ => false
  }

  predicate SameLeds(s: State, t: State) {
    t.red == s.red && t.green == s.green
  }

  lemma WqWrites(s: State)
    requires !WritesLed(s, WqStep)
    ensures SameLeds(s, WqNext(s))
  {}

  lemma BtWrites(s: State)
    requires !WritesLed(s, BtStep)
    ensures SameLeds(s, BtNext(s))
  {}

  /** An LED changes only by an LED write. */
  lemma OnlyWritesChangeLeds(s: State, a: Action)
    requires Enabled(s, a) && !WritesLed(s, a)
    ensures SameLeds(s, Apply(s, a))
  {
    match a
    case WqStep => WqWrites(s);
    case BtStep => BtWrites(s);
    case _ =>
  }

  /** In every run, the thread about to write an LED holds the mutex, and no other thread is about to. */
  lemma WritesAreLocked(s0: State, acts: seq<Action>, s: State, a: Action)
    requires Init(s0) && Run(s0, acts, s) && WritesLed(s, a)
    ensures s.mutex == Some(ActorOf(a))
    ensures forall b | WritesLed(s, b) :: b == a
  {
    InitLeds(s0);
    RunKeepsLeds(s0, acts, s);
  }

  predicate SameLatch(s: State, t: State) {
    t.latch && t.history.button.latchTime == s.history.button.latchTime
  }

  lemma WqKeepsLatchTime(s: State)
    requires s.latch
    ensures SameLatch(s, WqNext(s))
  {}

  lemma OthersKeepLatchTime(s: State)
    requires s.latch
    ensures SameLatch(s, MainNext(s)) && SameLatch(s, BtNext(s))
  {}

  lemma LatchStaysStep(s: State, a: Action)
    requires s.latch && Enabled(s, a)
    ensures SameLatch(s, Apply(s, a))
  {
    WqKeepsLatchTime(s);
    OthersKeepLatchTime(s);
  }

  /** The latch is never cleared, and the instant it was set is never changed. */
  lemma {:induction false} LatchStays(s: State, acts: seq<Action>, t: State)
    requires s.latch && Run(s, acts, t)
    ensures SameLatch(s, t)
    decreases |acts|
  {
    RunFirst(s, acts, t);
    if acts != [] {
      LatchStaysStep(s, acts[0]);
      LatchStays(Apply(s, acts[0]), acts[1..], t);
    }
  }

  /** Once the press latch is set, now or earlier in the run, the LEDs agree whenever the mutex is free. */
  lemma LedsAgreeAfterPress(s0: State, before: seq<Action>, s: State, after: seq<Action>, t: State)
    requires Init(s0) && Run(s0, before, s) && s.latch && Run(s, after, t)
    ensures t.latch && !Painting(t)
    ensures t.mutex == None ==> t.red == t.green
  {
    InitLeds(s0);
    RunKeepsLeds(s0, before, s);
    RunKeepsLeds(s, after, t);
    LatchStays(s, after, t);
  }

  /** And no further statement of main, or of a connect or disconnect callback, changes them again. */
  lemma NoRepaintAfterPress(s0: State, before: seq<Action>, s: State, after: seq<Action>, t: State)
    requires Init(s0) && Run(s0, before, s) && s.latch && Run(s, after, t)
    ensures SameLeds(t, BtNext(t)) && SameLeds(t, MainNext(t))
  {
    LedsAgreeAfterPress(s0, before, s, after, t);
  }

  // The connection, from the actions of the run

  predicate IsLink(a: Action) {
    a == Connected(false) || a == Disconnected
  }

  ghost predicate HasLink(acts: seq<Action>) {
    exists k | 0 <= k < |acts| :: IsLink(acts[k])
  }

  /** The last connection or disconnection of the run is a connection. */
  ghost predicate Linked(acts: seq<Action>) {
    exists k | 0 <= k < |acts| :: acts[k] == Connected(false) && forall j | k < j < |acts| :: !IsLink(acts[j])
  }

  lemma LinkFirst(acts: seq<Action>)
    requires acts != []
    ensures HasLink(acts) <==> IsLink(acts[0]) || HasLink(acts[1..])
    ensures Linked(acts) <==> Linked(acts[1..]) || (acts[0] == Connected(false) && !HasLink(acts[1..]))
  {
    var rest := acts[1..];
    assert forall j | 0 < j < |acts| :: acts[j] == rest[j - 1];
    if Linked(rest) {
      var k :| 0 <= k < |rest| && rest[k] == Connected(false) && forall j | k < j < |rest| :: !IsLink(rest[j]);
      assert acts[k + 1] == Connected(false);
    }
    if HasLink(rest) {
      var k :| 0 <= k < |rest| && IsLink(rest[k]);
      assert IsLink(acts[k + 1]);
    }
    if k :| 0 <= k < |acts| && acts[k] == Connected(false) && (forall j | k < j < |acts| :: !IsLink(acts[j])) && k > 0 {
      assert rest[k - 1] == Connected(false);
    }
    if acts[0] == Connected(false) && !HasLink(rest) {
      assert forall j | 0 < j < |acts| :: !IsLink(acts[j]);
    }
  }

  /** What g_bt_is_connected is, or is about to become. */
  predicate LinkUp(s: State) {
    match s.bt
    case SetConn105 => true
    case ClearConn120 => false
    case _ => s.connected
  }

  lemma LinkStep(s: State, a: Action)
    requires Enabled(s, a)
    ensures LinkUp(Apply(s, a)) <==> a == Connected(false) || (a != Disconnected && LinkUp(s))
  {
    match a
    case MainStep => assert LinkUp(MainNext(s)) == LinkUp(s);
    case WqStep => assert LinkUp(WqNext(s)) == LinkUp(s);
    case BtStep => assert LinkUp(BtNext(s)) == LinkUp(s);
    case _ =>
  }

  lemma {:induction false} LinkRun(s: State, acts: seq<Action>, t: State)
    requires Run(s, acts, t)
    ensures LinkUp(t) <==> Linked(acts) || (LinkUp(s) && !HasLink(acts))
    decreases |acts|
  {
    RunFirst(s, acts, t);
    if acts != [] {
      LinkStep(s, acts[0]);
      LinkRun(Apply(s, acts[0]), acts[1..], t);
      LinkFirst(acts);
    }
  }

  /** Outside the callbacks, the flag says whether the last connection or disconnection was a connection. */
  lemma ConnectionExactly(s0: State, acts: seq<Action>, s: State)
    requires Init(s0) && Run(s0, acts, s) && s.bt == BtIdle
    ensures s.connected <==> Linked(acts)
  {
    LinkRun(s0, acts, s);
  }

  /**
   * Before a press or release is handled, with the mutex free, no callback running and main's LED section
   * done: green shows whether the run has left a connection standing, and red that it has not, exactly unless
   * main's LED section came last, after the callback of that connection.
   */
  lemma DisplayExactly(s0: State, acts: seq<Action>, s: State)
    requires Init(s0) && Run(s0, acts, s)
    requires !s.history.button.handled && s.mutex == None && s.bt == BtIdle && MainPainted(s)
    ensures s.connected <==> Linked(acts)
    ensures s.green <==> Linked(acts)
    ensures (s.red <==> !Linked(acts)) <==> !(Linked(acts) && s.history.display.mainShownLast)
  {
    InitLeds(s0);
    RunKeepsLeds(s0, acts, s);
    ConnectionExactly(s0, acts, s);
  }

  /** Until then the two LEDs are never on together, not even between two writes, but after main's section. */
  lemma NeverBothOn(s0: State, acts: seq<Action>, s: State)
    requires Init(s0) && Run(s0, acts, s)
    requires !s.history.button.handled && MainPainted(s) && s.red && s.green
    ensures s.main == Unlock202 || s.history.display.mainShownLast
  {
    InitLeds(s0);
    RunKeepsLeds(s0, acts, s);
    BothOn(s);
  }

  lemma BothOn(s: State)
    requires DisplayInv(s) && !s.history.button.handled && MainPainted(s) && s.red && s.green
    ensures s.main == Unlock202 || s.history.display.mainShownLast
  {}

  // The display does go wrong: Bluetooth is enabled before main's LED section, so a connection can come first

  lemma RunNowhere(s: State)
    ensures Run(s, [], s)
  {
    var trace, none: seq<Action> := [s], [];
    assert IsTrace(trace, none) && trace[0] == s && trace[|none|] == s;
  }

  /** Run on by one action. */
  lemma RunOn(s: State, acts: seq<Action>, t: State, a: Action)
    requires Run(s, acts, t) && Enabled(t, a)
    ensures Run(s, acts + [a], Apply(t, a))
  {
    var trace :| IsTrace(trace, acts) && trace[0] == s && trace[|acts|] == t;
    var longer, more := trace + [Apply(t, a)], acts + [a];
    forall i | 0 <= i < |more|
      ensures Enabled(longer[i], more[i]) && longer[i + 1] == Apply(longer[i], more[i])
    {
      if i < |acts| {
        assert more[i] == acts[i];
      }
    }
    assert IsTrace(longer, more) && longer[|more|] == Apply(t, a);
  }

  /** No thread has reached the reset. */
  predicate Running(s: State) {
    !s.isReset && !s.main.MainReboots? && !s.wq.WqReboots?
  }

  lemma RunOnBt(s: State, acts: seq<Action>, t: State)
    requires Run(s, acts, t) && Running(t) && BtEnabled(t)
    ensures Run(s, acts + [BtStep], BtNext(t)) && Running(BtNext(t))
  {
    RunOn(s, acts, t, BtStep);
  }

  lemma RunOnMain(s: State, acts: seq<Action>, t: State)
    requires Run(s, acts, t) && Running(t) && MainEnabled(t) && BeforeLoop(t.main)
    ensures Run(s, acts + [MainStep], MainNext(t)) && Running(MainNext(t))
  {
    RunOn(s, acts, t, MainStep);
  }

  /** The connection callback, from the connection to its end. */
  lemma Connecting(s: State) returns (acts: seq<Action>, t: State)
    requires Running(s) && s.bt == BtIdle && s.mutex == None && !s.latch
    ensures Run(s, acts, t) && Running(t) && acts != [] && acts[0] == Connected(false)
    ensures forall k | 0 < k < |acts| :: acts[k] == BtStep
    ensures t == s.(bt := BtIdle, connected := true, red := false, green := true, history := t.history)
    ensures t.history.button == s.history.button
  {
    RunNowhere(s);
    RunOn(s, [], s, Connected(false));
    acts, t := [Connected(false)], Apply(s, Connected(false));
    assert [] + acts == acts;
    while t.bt != BtIdle
      invariant Run(s, acts, t) && Running(t) && acts != [] && acts[0] == Connected(false)
      invariant forall k | 0 < k < |acts| :: acts[k] == BtStep
      invariant Callback(s, t)
      decreases StepsOfCallback(t.bt)
    {
      CallbackGoesOn(s, t);
      RunOnBt(s, acts, t);
      acts, t := acts + [BtStep], BtNext(t);
    }
  }

  /** How far a connection callback has come. */
  predicate Callback(s: State, t: State) {
    && t == s.(bt := t.bt, connected := t.connected, mutex := t.mutex, red := t.red, green := t.green,
               history := t.history)
    && t.history.button == s.history.button
    && match t.bt
       case SetConn105 => t.mutex == None
       case Lock106 => t.mutex == None && t.connected
       case Check107 => t.mutex == Some(Bt) && t.connected
       case RedOff109 => t.mutex == Some(Bt) && t.connected
       case GreenOn110 => t.mutex == Some(Bt) && t.connected && !t.red
       case Unlock112 => t.mutex == Some(Bt) && t.connected && !t.red && t.green
       case BtIdle => t.mutex == None && t.connected && !t.red && t.green
       case _ => false
  }

  lemma CallbackGoesOn(s: State, t: State)
    requires Callback(s, t) && !s.latch && t.bt != BtIdle
    ensures BtEnabled(t)
    ensures Callback(s, BtNext(t)) && StepsOfCallback(BtGoto(t)) < StepsOfCallback(t.bt)
  {}

  function StepsOfCallback(pc: BtPc): nat {
    match pc
    case SetConn105 => 6
    case Lock106 => 5
    case Check107 => 4
    case RedOff109 => 3
    case GreenOn110 => 2
    case Unlock112 => 1
    case _ => 0
  }

  /** Main's LED section, from the registration of the hook to its end. */
  lemma LateSection(s0: State, before: seq<Action>, s: State) returns (acts: seq<Action>, t: State)
    requires Run(s0, before, s) && Running(s) && s.main == Hook195 && s.mutex == None && !s.latch
    ensures Run(s0, acts, t) && before <= acts && forall k | |before| <= k < |acts| :: acts[k] == MainStep
    ensures t == s.(main := Top208, red := true, history := t.history) && t.history.button == s.history.button
  {
    acts, t := before, s;
    while t.main != Top208
      invariant Run(s0, acts, t) && Running(t)
      invariant before <= acts && forall k | |before| <= k < |acts| :: acts[k] == MainStep
      invariant Section(s, t)
      decreases StepsOfSection(t.main)
    {
      SectionGoesOn(s, t);
      RunOnMain(s0, acts, t);
      acts, t := acts + [MainStep], MainNext(t);
    }
  }

  /** How far main's LED section has come. */
  predicate Section(s: State, t: State) {
    && t == s.(main := t.main, mutex := t.mutex, red := t.red, history := t.history)
    && t.history.button == s.history.button
    && match t.main
       case Hook195 => t.mutex == None
       case Lock197 => t.mutex == None
       case Check198 => t.mutex == Some(Main)
       case RedOn200 => t.mutex == Some(Main)
       case Unlock202 => t.mutex == Some(Main) && t.red
       case Top208 => t.mutex == None && t.red
       case _ => false
  }

  lemma SectionGoesOn(s: State, t: State)
    requires Section(s, t) && !s.latch && t.main != Top208
    ensures MainEnabled(t) && BeforeLoop(t.main)
    ensures Section(s, MainNext(t)) && StepsOfSection(MainGoto(t)) < StepsOfSection(t.main)
  {}

  function StepsOfSection(pc: MainPc): nat {
    match pc
    case Hook195 => 5
    case Lock197 => 4
    case Check198 => 3
    case RedOn200 => 2
    case Unlock202 => 1
    case _ => 0
  }

  /** A run after which the device is connected and at rest, with red and green both on. */
  lemma BothLedsOn(s0: State) returns (acts: seq<Action>, s: State)
    requires Init(s0) && !s0.history.button.handled
    ensures Run(s0, acts, s)
    ensures !s.history.button.handled && s.mutex == None && s.bt == BtIdle && MainPainted(s)
    ensures s.connected && s.green && s.red
    ensures acts != [] && acts[0] == Connected(false) && forall k | 0 < k < |acts| :: !IsLink(acts[k])
  {
    var first, s1 := Connecting(s0);
    acts, s := LateSection(s0, first, s1);
  }

  /** The device may start there, with the button untouched. */
  lemma InitialState() returns (s: State)
    ensures Init(s) && !s.history.button.handled
  {
    var history := History(
      IdleLog([], 0), FeedLog(0, 0), ButtonLog(None, None, false, None, false), DisplayLog(false, false), {});
    s := State(
      Hook195, WqIdle, BtIdle, None, false, false, false, false, false, [], None, None,
      0, BUTTON_DELAY_BEFORE_REBOOT, INITIAL, false, false, history);
  }
}
