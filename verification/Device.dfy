/**
 * The running device as a transition system: the main thread from the moment Bluetooth is up (main.c:195),
 * the system work queue with the button handlers, the Bluetooth thread with the connection callbacks, the
 * button interrupt, the delayable work timers, the watchdog and the clock. Every lock, unlock, flag write
 * and LED write is a step of its own; program counters carry the source line of the statement they are at.
 */
module Device {
  import opened Bytes
  import opened IdleTimeout

  const BUTTON_DELAY_BEFORE_REBOOT := 5000
  const BUTTON_DELAY_FLUSH_LOGS_MS := 100
  const RGB_LED_BLINK_INTERVAL_MS := 1000
  const RGB_LED_BLINK_DURATION_MS := 50
  const REBOOT_LOG_DELAY_MS := 25

  datatype Tid = Main | WorkQ | Bt | Other

  datatype Work = PressedWork | ReleasedWork | TimeoutWork | RebootWork | AdvertiseWork

  /** Inside __wrap_sys_reboot, for whichever thread has called it. */
  datatype RebootPc =
    | Test280 | Files291(k: nat) | Pause320 | Pausing320(wake: nat) | Trigger326 | Spinning
    | Request332 | Parked

  /** main.c */
  datatype MainPc =
    | Hook195 | Lock197 | Check198 | RedOn200 | Unlock202
    | Top208 | Check210 | Feed212 | Test215 | Count217(wasConnected: bool)
    | Idle232 | Blink238 | Asleep(wake: nat, again: bool)
    | MainReboots(r: RebootPc)

  /** fwloader_button_cb.c, and the other items of the system work queue. */
  datatype WqPc =
    | WqIdle
    | Resched40 | Lock41 | SetLatch42 | GreenOn43 | RedOn44 | Unlock45
    | Cancel52 | Lock54 | GreenOff55 | RedOff56 | Unlock57 | Resched58
    | Lock65 | GreenOff66 | RedOff67 | Unlock68 | Resched69
    | Advertise
    | WqReboots(r: RebootPc)

  /** fwloader_bluetooth.c */
  datatype BtPc =
    | BtIdle
    | SetConn105 | Lock106 | Check107 | RedOff109 | GreenOn110 | Unlock112
    | ClearConn120 | Lock121 | Check122 | GreenOff124 | RedOn125 | Unlock127 | Submit128

  // What has happened so far; nothing in the device reads it

  datatype IdleLog = IdleLog(
    events: seq<Event>,       // FS commands and iterations of main's loop
    lastPoll: nat)            // the index among the events of the last iteration

  datatype FeedLog = FeedLog(
    lastFeed: nat,            // when the watchdog was last fed
    feedsAfterLatch: nat)

  datatype ButtonLog = ButtonLog(
    latchTime: Option<nat>,   // when the press latch was set
    firstPress: Option<nat>,  // when the timeout of a press was first started
    released: bool,           // a release has been handled
    firstOff: Option<nat>,    // when the delayed reboot was first started
    handled: bool)            // the handling of a press or release has reached the latch or the LEDs

  datatype DisplayLog = DisplayLog(
    shown: bool,              // the connection state that the last Bluetooth LED section was for
    mainShownLast: bool)      // main's LED section came after every Bluetooth LED section

  datatype History = History(
    idle: IdleLog, feed: FeedLog, button: ButtonLog, display: DisplayLog,
    triggeredBy: set<Tid>)    // the threads that have executed the reset primitive

  datatype State = State(
    main: MainPc, wq: WqPc, bt: BtPc,
    mutex: Option<Tid>,            // holder of g_fwloader_led_mutex
    latch: bool,                   // g_flag_button_pressed
    connected: bool,               // g_bt_is_connected
    rebootRequested: bool,         // g_flag_reboot_requested
    red: bool, green: bool,
    queue: seq<Work>,
    timeoutDue: Option<nat>, rebootDue: Option<nat>,
    now: nat, deadline: nat,
    monitor: Monitor,
    rgbReady: bool,                // fwloader_rgb_led_is_lp5810_ready
    isReset: bool,
    history: History)

  datatype Action =
    | MainStep | WqStep | BtStep
    | Connected(err: bool) | Disconnected
    | ButtonEdge(pressed: bool)
    | TimeoutExpires | RebootExpires
    | FsCmd
    | OtherReboots
    | Tick
    | WatchdogExpires

  /**
   * Bluetooth has just been enabled and the watchdog runs. The button may have been used before, and a reboot
   * requested: the work queue, the latch and the request are arbitrary, and with the latch set the LEDs are
   * both lit or both off again. A latch set before this moment counts as set at it.
   */
  predicate Init(s: State) {
    && s.main == Hook195 && WqOutside(s) && s.bt == BtIdle && s.mutex == None
    && !s.connected
    && (if s.latch then s.red == s.green else !s.red && !s.green)
    && NoRepeats(s.queue)
    && s.now <= s.deadline == s.history.feed.lastFeed + BUTTON_DELAY_BEFORE_REBOOT && s.history.feed.lastFeed <= s.now
    && s.monitor == INITIAL && !s.isReset
    && s.history.idle == IdleLog([], 0)
    && s.history.feed.feedsAfterLatch == 0
    && s.history.button.latchTime == (if s.latch then Some(s.now) else None)
    && (s.latch || s.wq.WqReboots? || s.wq == Resched58 || s.wq == Resched69 ==> s.history.button.handled)
    && s.history.display == DisplayLog(false, false)
    && s.history.triggeredBy == {}
    && TimeoutExplained(s) && RebootExplained(s) && OffExplained(s)
  }

  /** The work queue is anywhere outside the critical sections; parked, it has left its request. */
  predicate WqOutside(s: State) {
    match s.wq
    case WqIdle => true
    case Resched40 => true
    case Lock41 => true
    case Cancel52 => true
    case Lock54 => true
    case Resched58 => true
    case Lock65 => true
    case Resched69 => true
    case Advertise => true
    case WqReboots(r) => r == Test280 || r == Request332 || (r == Parked && s.rebootRequested)
    case _ => false
  }

  /** The timeout of a press, running, due or handled, comes its delay after a press. */
  predicate TimeoutExplained(s: State) {
    var b := s.history.button;
    && (b.firstPress.Some? ==> b.firstPress.value <= s.now)
    && (s.timeoutDue.Some? ==>
          b.firstPress.Some? && s.timeoutDue.value >= b.firstPress.value + BUTTON_DELAY_BEFORE_REBOOT)
    && (TimeoutWork in s.queue || HandlesTimeout(s.wq) ==>
          b.firstPress.Some? && s.now >= b.firstPress.value + BUTTON_DELAY_BEFORE_REBOOT)
  }

  /** The delayed reboot, running, due or handled, comes its delay after the LEDs were switched off for it. */
  predicate RebootExplained(s: State) {
    var b := s.history.button;
    && (b.firstOff.Some? ==> b.firstOff.value <= s.now)
    && (s.rebootDue.Some? ==> b.firstOff.Some? && s.rebootDue.value >= b.firstOff.value + BUTTON_DELAY_FLUSH_LOGS_MS)
    && (RebootWork in s.queue || s.wq.WqReboots? ==>
          b.firstOff.Some? && s.now >= b.firstOff.value + BUTTON_DELAY_FLUSH_LOGS_MS)
  }

  /** The LEDs are switched off for a reboot by a release, or by the timeout of a press. */
  predicate OffExplained(s: State) {
    var b := s.history.button;
    && (HandlesRelease(s.wq) ==> b.released)
    && (b.firstOff.Some? ==>
          b.released || (b.firstPress.Some? && b.firstOff.value >= b.firstPress.value + BUTTON_DELAY_BEFORE_REBOOT))
  }

  predicate HandlesTimeout(pc: WqPc) {
    pc == Lock65 || pc == GreenOff66 || pc == RedOff67 || pc == Unlock68 || pc == Resched69
  }

  /** button_workq_cb_released, once it has cancelled the timeout. */
  predicate HandlesRelease(pc: WqPc) {
    pc == Lock54 || pc == GreenOff55 || pc == RedOff56 || pc == Unlock57 || pc == Resched58
  }

  predicate NoRepeats(q: seq<Work>) {
    forall i, j | 0 <= i < j < |q| :: q[i] != q[j]
  }

  // Work queue operations

  /** k_work_submit: an item already queued stays where it is. */
  function Submit(q: seq<Work>, w: Work): seq<Work> {
    if w in q then q else q + [w]
  }

  /** The queue part of k_work_cancel_delayable. */
  function Without(q: seq<Work>, w: Work): seq<Work> {
    if q == [] then [] else (if q[0] == w then [] else [q[0]]) + Without(q[1..], w)
  }

  // Threads

  function Handler(w: Work): WqPc {
    match w
    case PressedWork => Resched40
    case ReleasedWork => Cancel52
    case TimeoutWork => Lock65
    case RebootWork => WqReboots(Test280)
    case AdvertiseWork => Advertise
  }

  predicate RebootEnabled(s: State, r: RebootPc) {
    match r
    case Pausing320(wake) => s.now >= wake
    case Spinning => false
    case Parked => false
    case _ => true
  }

  /** Where a thread that has called __wrap_sys_reboot goes next. */
  function RebootNext(s: State, t: Tid, r: RebootPc): RebootPc {
    match r
    case Test280 => if t == Main then Files291(0) else Request332
    case Files291(k) => if k < 3 then Files291(k + 1) else Pause320
    case Pause320 => Pausing320(s.now + REBOOT_LOG_DELAY_MS)
    case Pausing320(_) => Trigger326
    case Trigger326 => Spinning
    case Spinning => Spinning
    case Request332 => Parked
    case Parked => Parked
  }

  // A thread's step is its control flow and, variable by variable, the effect of the statement it is at.

  /** Main has not reached its loop. */
  predicate BeforeLoop(pc: MainPc) {
    pc == Hook195 || pc == Lock197 || pc == Check198 || pc == RedOn200 || pc == Unlock202
  }

  predicate MainEnabled(s: State) {
    match s.main
    case Lock197 => s.mutex == None
    case Asleep(wake, _) => s.now >= wake
    case MainReboots(r) => RebootEnabled(s, r)
    case _ => true
  }

  function MainGoto(s: State): MainPc {
    match s.main
    case Hook195 => Lock197
    case Lock197 => Check198
    case Check198 => if !s.latch then RedOn200 else Unlock202
    case RedOn200 => Unlock202
    case Unlock202 => Top208
    case Top208 => if s.rebootRequested then MainReboots(Test280) else Check210
    case Check210 => if !s.latch then Feed212 else Test215
    case Feed212 => Test215
    case Test215 => Count217(s.connected)
    case Count217(_) => Idle232
    case Idle232 => if TimedOut(s.monitor) then MainReboots(Test280) else Blink238
    case Blink238 =>
      if s.rgbReady then Asleep(s.now + RGB_LED_BLINK_DURATION_MS, true)
      else Asleep(s.now + RGB_LED_BLINK_INTERVAL_MS, false)
    case Asleep(_, again) =>
      if again then Asleep(s.now + RGB_LED_BLINK_INTERVAL_MS - RGB_LED_BLINK_DURATION_MS, false) else Top208
    case MainReboots(r) => MainReboots(RebootNext(s, Main, r))
  }

  function MainHistory(s: State): History {
    var h := s.history;
    h.(display := if s.main == Unlock202 then h.display.(mainShownLast := true) else h.display,
       feed := if s.main == Feed212 then FeedLog(s.now, h.feed.feedsAfterLatch + if s.latch then 1 else 0) else h.feed,
       idle := if s.main.Count217? then
                 IdleLog(h.idle.events + [Iteration(s.main.wasConnected)], |h.idle.events|)
               else h.idle,
       triggeredBy := h.triggeredBy + if s.main == MainReboots(Trigger326) then {Main} else {})
  }

  function MainNext(s: State): State {
    s.(main := MainGoto(s),
       mutex := if s.main == Lock197 then Some(Main) else if s.main == Unlock202 then None else s.mutex,
       red := s.red || s.main == RedOn200,
       deadline := if s.main == Feed212 then s.now + BUTTON_DELAY_BEFORE_REBOOT else s.deadline,
       monitor := if s.main.Count217? then AfterIteration(s.monitor, s.main.wasConnected) else s.monitor,
       rebootRequested := s.rebootRequested || s.main == MainReboots(Request332),
       history := MainHistory(s))
  }

  predicate WqEnabled(s: State) {
    match s.wq
    case WqIdle => s.queue != []
    case Lock41 => s.mutex == None
    case Lock54 => s.mutex == None
    case Lock65 => s.mutex == None
    case WqReboots(r) => RebootEnabled(s, r)
    case _ => true
  }

  function WqGoto(s: State): WqPc {
    match s.wq
    case WqIdle => if s.queue == [] then WqIdle else Handler(s.queue[0])
    case Resched40 => Lock41
    case Lock41 => SetLatch42
    case SetLatch42 => GreenOn43
    case GreenOn43 => RedOn44
    case RedOn44 => Unlock45
    case Unlock45 => WqIdle
    case Cancel52 => Lock54
    case Lock54 => GreenOff55
    case GreenOff55 => RedOff56
    case RedOff56 => Unlock57
    case Unlock57 => Resched58
    case Resched58 => WqIdle
    case Lock65 => GreenOff66
    case GreenOff66 => RedOff67
    case RedOff67 => Unlock68
    case Unlock68 => Resched69
    case Resched69 => WqIdle
    case Advertise => WqIdle
    case WqReboots(r) => WqReboots(RebootNext(s, WorkQ, r))
  }

  function WqMutex(s: State): Option<Tid> {
    match s.wq
    case Lock41 => Some(WorkQ)
    case Lock54 => Some(WorkQ)
    case Lock65 => Some(WorkQ)
    case Unlock45 => None
    case Unlock57 => None
    case Unlock68 => None
    case _ => s.mutex
  }

  function WqHistory(s: State): History {
    var h := s.history;
    h.(button := WqButtonLog(s, h.button),
       triggeredBy := h.triggeredBy + if s.wq == WqReboots(Trigger326) then {WorkQ} else {})
  }

  function WqButtonLog(s: State, b: ButtonLog): ButtonLog {
    match s.wq
    case Resched40 => if b.firstPress.None? then b.(firstPress := Some(s.now)) else b
    case SetLatch42 => b.(handled := true, latchTime := if s.latch then b.latchTime else Some(s.now))
    case Cancel52 => b.(released := true)
    case GreenOff55 => b.(handled := true)
    case GreenOff66 => b.(handled := true)
    case Resched58 => if b.firstOff.None? then b.(firstOff := Some(s.now)) else b
    case Resched69 => if b.firstOff.None? then b.(firstOff := Some(s.now)) else b
    case _ => b
  }

  function WqNext(s: State): State {
    s.(wq := WqGoto(s),
       mutex := WqMutex(s),
       latch := s.latch || s.wq == SetLatch42,
       green := if s.wq == GreenOn43 then true else if s.wq == GreenOff55 || s.wq == GreenOff66 then false else s.green,
       red := if s.wq == RedOn44 then true else if s.wq == RedOff56 || s.wq == RedOff67 then false else s.red,
       queue := if s.wq == WqIdle && s.queue != [] then s.queue[1..]
                else if s.wq == Cancel52 then Without(s.queue, TimeoutWork)
                else s.queue,
       timeoutDue := if s.wq == Resched40 then Some(s.now + BUTTON_DELAY_BEFORE_REBOOT)
                     else if s.wq == Cancel52 then None
                     else s.timeoutDue,
       rebootDue := if s.wq == Resched58 || s.wq == Resched69 then Some(s.now + BUTTON_DELAY_FLUSH_LOGS_MS)
                    else s.rebootDue,
       rebootRequested := s.rebootRequested || s.wq == WqReboots(Request332),
       history := WqHistory(s))
  }

  predicate BtEnabled(s: State) {
    match s.bt
    case BtIdle => false
    case Lock106 => s.mutex == None
    case Lock121 => s.mutex == None
    case _ => true
  }

  function BtGoto(s: State): BtPc {
    match s.bt
    case BtIdle => BtIdle
    case SetConn105 => Lock106
    case Lock106 => Check107
    case Check107 => if !s.latch then RedOff109 else Unlock112
    case RedOff109 => GreenOn110
    case GreenOn110 => Unlock112
    case Unlock112 => BtIdle
    case ClearConn120 => Lock121
    case Lock121 => Check122
    case Check122 => if !s.latch then GreenOff124 else Unlock127
    case GreenOff124 => RedOn125
    case RedOn125 => Unlock127
    case Unlock127 => Submit128
    case Submit128 => BtIdle
  }

  function BtHistory(s: State): History {
    if s.bt == Unlock112 || s.bt == Unlock127 then s.history.(display := DisplayLog(s.bt == Unlock112, false))
    else s.history
  }

  function BtNext(s: State): State {
    s.(bt := BtGoto(s),
       connected := if s.bt == SetConn105 then true else if s.bt == ClearConn120 then false else s.connected,
       mutex := if s.bt == Lock106 || s.bt == Lock121 then Some(Bt)
                else if s.bt == Unlock112 || s.bt == Unlock127 then None
                else s.mutex,
       red := if s.bt == RedOff109 then false else if s.bt == RedOn125 then true else s.red,
       green := if s.bt == GreenOn110 then true else if s.bt == GreenOff124 then false else s.green,
       queue := if s.bt == Submit128 then Submit(s.queue, AdvertiseWork) else s.queue,
       history := BtHistory(s))
  }

  // The whole device

  /** fwloader_watchdog_force_trigger has locked interrupts: no thread and no handler runs any more. */
  predicate IrqLocked(s: State) {
    s.main == MainReboots(Spinning) || s.wq == WqReboots(Spinning)
  }

  predicate Enabled(s: State, a: Action) {
    && !s.isReset
    && (IrqLocked(s) ==> a == Tick || a == WatchdogExpires)
    && match a
       case MainStep => MainEnabled(s)
       case WqStep => WqEnabled(s)
       case BtStep => BtEnabled(s)
       case Connected(_) => s.bt == BtIdle
       case Disconnected => s.bt == BtIdle
       case ButtonEdge(_) => true
       case TimeoutExpires => s.timeoutDue.Some? && s.now >= s.timeoutDue.value
       case RebootExpires => s.rebootDue.Some? && s.now >= s.rebootDue.value
       case FsCmd => true
       case OtherReboots => true
       case Tick => s.now < s.deadline  // the hardware resets the device at the deadline
       case WatchdogExpires => s.now == s.deadline
  }

  function CommandLog(log: IdleLog): IdleLog {
    log.(events := log.events + [FsCommand])
  }

  function Apply(s: State, a: Action): State
    requires Enabled(s, a)
  {
    match a
    case MainStep => MainNext(s)
    case WqStep => WqNext(s)
    case BtStep => BtNext(s)
    case Connected(err) => if err then s else s.(bt := SetConn105)
    case Disconnected => s.(bt := ClearConn120)
    case ButtonEdge(pressed) => s.(queue := Submit(s.queue, if pressed then PressedWork else ReleasedWork))
    case TimeoutExpires => s.(timeoutDue := None, queue := Submit(s.queue, TimeoutWork))
    case RebootExpires => s.(rebootDue := None, queue := Submit(s.queue, RebootWork))
    case FsCmd =>
      if s.main == Hook195 then s  // the hook is not registered yet
      else s.(monitor := AfterCommand(s.monitor), history := s.history.(idle := CommandLog(s.history.idle)))
    case OtherReboots => s.(rebootRequested := true)
    case Tick => s.(now := s.now + 1)
    case WatchdogExpires => s.(isReset := true)
  }

  // Runs

  /** States with the enabled actions that lead from each to the next. */
  ghost predicate IsTrace(trace: seq<State>, acts: seq<Action>) {
    && |trace| == |acts| + 1
    && forall i {:trigger acts[i]} | 0 <= i < |acts| ::
         Enabled(trace[i], acts[i]) && trace[i + 1] == Apply(trace[i], acts[i])
  }

  /** These actions, one after another, take the device from s to t. */
  ghost predicate Run(s: State, acts: seq<Action>, t: State) {
    exists trace :: IsTrace(trace, acts) && trace[0] == s && trace[|acts|] == t
  }

  /** A run is empty, or a first step and a run. */
  lemma RunFirst(s: State, acts: seq<Action>, t: State)
    requires Run(s, acts, t)
    ensures acts == [] ==> s == t
    ensures acts != [] ==> Enabled(s, acts[0]) && Run(Apply(s, acts[0]), acts[1..], t)
  {
    var trace :| IsTrace(trace, acts) && trace[0] == s && trace[|acts|] == t;
    if acts != [] {
      TraceTail(trace, acts);
      assert trace[1..][|acts[1..]|] == t;
    }
  }

  lemma TraceTail(trace: seq<State>, acts: seq<Action>)
    requires acts != [] && IsTrace(trace, acts)
    ensures Enabled(trace[0], acts[0]) && trace[1] == Apply(trace[0], acts[0])
    ensures IsTrace(trace[1..], acts[1..])
  {
    var rest := acts[1..];
    assert acts[0] == acts[0];
    forall i | 0 <= i < |rest|
      ensures Enabled(trace[1..][i], rest[i]) && trace[1..][i + 1] == Apply(trace[1..][i], rest[i])
    {
      assert rest[i] == acts[i + 1];
    }
  }

  lemma InFirst(acts: seq<Action>, a: Action)
    requires acts != []
    ensures a in acts <==> acts[0] == a || a in acts[1..]
  {
    assert acts == [acts[0]] + acts[1..];
  }

  /** How often an action is taken in a run. */
  function Count(acts: seq<Action>, a: Action): nat {
    multiset(acts)[a]
  }

  lemma CountFirst(acts: seq<Action>, a: Action)
    requires acts != []
    ensures Count(acts, a) == Count(acts[1..], a) + if acts[0] == a then 1 else 0
  {
    assert acts == [acts[0]] + acts[1..];
  }
}
