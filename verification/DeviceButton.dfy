/** The button work over all runs: the queue, the cancelled timeout, and what a button reboot follows. */
module DeviceButton {
  import opened Bytes
  import opened Device

  lemma {:induction false} WithoutItem(q: seq<Work>, w: Work)
    requires NoRepeats(q)
    ensures NoRepeats(Without(q, w))
    ensures forall x :: x in Without(q, w) <==> x in q && x != w
  {
    if q != [] {
      var tail := q[1..];
      assert forall i, j | 0 <= i < j < |tail| :: tail[i] == q[i + 1] && tail[j] == q[j + 1];
      WithoutItem(tail, w);
      assert q == [q[0]] + tail;
      assert q[0] !in tail;
    }
  }

  lemma SubmittedItem(q: seq<Work>, w: Work)
    requires NoRepeats(q)
    ensures NoRepeats(Submit(q, w))
    ensures forall x :: x in Submit(q, w) <==> x in q || x == w
    ensures q <= Submit(q, w)
  {}

  lemma PoppedItem(q: seq<Work>)
    requires NoRepeats(q) && q != []
    ensures NoRepeats(q[1..])
    ensures forall x :: x in q[1..] <==> x in q && x != q[0]
  {
    assert q == [q[0]] + q[1..];
  }

  /** What a step may do to the queue: keep each item single, and add these two only when their timer expires. */
  predicate QueueStep(s: State, a: Action, q: seq<Work>) {
    && NoRepeats(q)
    && (TimeoutWork in q ==> TimeoutWork in s.queue || a == TimeoutExpires)
    && (RebootWork in q ==> RebootWork in s.queue || a == RebootExpires)
  }

  lemma SubmitStep(s: State, a: Action, w: Work)
    requires NoRepeats(s.queue)
    requires w == TimeoutWork ==> a == TimeoutExpires
    requires w == RebootWork ==> a == RebootExpires
    ensures QueueStep(s, a, Submit(s.queue, w))
  {
    SubmittedItem(s.queue, w);
  }

  lemma WqQueueStep(s: State)
    requires NoRepeats(s.queue) && WqEnabled(s)
    ensures QueueStep(s, WqStep, WqNext(s).queue)
  {
    WithoutItem(s.queue, TimeoutWork);
    if s.queue != [] {
      PoppedItem(s.queue);
    }
  }

  lemma StepQueue(s: State, a: Action)
    requires NoRepeats(s.queue) && Enabled(s, a)
    ensures QueueStep(s, a, Apply(s, a).queue)
  {
    match a
    case WqStep => WqQueueStep(s);
    case BtStep => SubmitStep(s, a, AdvertiseWork);
    case ButtonEdge(pressed) => SubmitStep(s, a, if pressed then PressedWork else ReleasedWork);
    case TimeoutExpires => SubmitStep(s, a, TimeoutWork);
    case RebootExpires => SubmitStep(s, a, RebootWork);
    case _ =>
  }

  predicate ButtonInv(s: State) {
    NoRepeats(s.queue) && TimeoutExplained(s) && RebootExplained(s) && OffExplained(s)
  }

  lemma StepButton(s: State, a: Action)
    requires ButtonInv(s) && Enabled(s, a)
    ensures ButtonInv(Apply(s, a))
  {
    match a
    case WqStep =>
      StepQueue(s, a);
      WqKeepsTimeout(s);
      WqKeepsReboot(s);
      WqKeepsOff(s);
    case MainStep => MainKeepsButton(s);
    case BtStep =>
      StepQueue(s, a);
      BtKeepsButton(s);
    case _ =>
      StepQueue(s, a);
      OthersKeepButton(s, a);
  }

  lemma MainKeepsButton(s: State)
    requires ButtonInv(s)
    ensures ButtonInv(MainNext(s))
  {}

  lemma BtKeepsButton(s: State)
    requires ButtonInv(s) && QueueStep(s, BtStep, BtNext(s).queue)
    ensures ButtonInv(BtNext(s))
  {}

  lemma OthersKeepButton(s: State, a: Action)
    requires ButtonInv(s) && Enabled(s, a) && a != MainStep && a != WqStep && a != BtStep
    requires QueueStep(s, a, Apply(s, a).queue)
    ensures ButtonInv(Apply(s, a))
  {}

  lemma WqKeepsTimeout(s: State)
    requires NoRepeats(s.queue) && TimeoutExplained(s) && WqEnabled(s)
    ensures TimeoutExplained(WqNext(s))
  {
    WqQueueStep(s);
  }

  lemma WqKeepsReboot(s: State)
    requires NoRepeats(s.queue) && RebootExplained(s) && WqEnabled(s)
    ensures RebootExplained(WqNext(s))
  {
    WqQueueStep(s);
  }

  lemma WqKeepsOff(s: State)
    requires TimeoutExplained(s) && OffExplained(s) && WqEnabled(s)
    ensures OffExplained(WqNext(s))
  {}

  lemma {:induction false} RunKeepsButton(s: State, acts: seq<Action>, t: State)
    requires ButtonInv(s) && Run(s, acts, t)
    ensures ButtonInv(t)
    decreases |acts|
  {
    RunFirst(s, acts, t);
    if acts != [] {
      StepButton(s, acts[0]);
      RunKeepsButton(Apply(s, acts[0]), acts[1..], t);
    }
  }

  /**
   * In every run, the work queue asks for a reboot only 100 ms or more after LEDs were switched off for it,
   * and that followed a handled release or came 5000 ms or more after a handled press.
   */
  lemma ButtonRebootExplained(s0: State, acts: seq<Action>, s: State)
    requires Init(s0) && Run(s0, acts, s) && s.wq.WqReboots?
    ensures var h := s.history.button;
      && h.firstOff.Some? && s.now >= h.firstOff.value + BUTTON_DELAY_FLUSH_LOGS_MS
      && (h.released || (h.firstPress.Some? && h.firstOff.value >= h.firstPress.value + BUTTON_DELAY_BEFORE_REBOOT))
  {
    RunKeepsButton(s0, acts, s);
  }

  /** A release withdraws the timeout, in the timer and in the queue, and nothing else. */
  lemma ReleaseCancelsTimeout(s0: State, acts: seq<Action>, s: State)
    requires Init(s0) && Run(s0, acts, s) && s.wq == Cancel52
    ensures var t := WqNext(s);
      && t.timeoutDue == None && TimeoutWork !in t.queue
      && (forall w :: w != TimeoutWork ==> (w in t.queue <==> w in s.queue))
      && t.rebootDue == s.rebootDue && NoRepeats(t.queue)
  {
    RunKeepsButton(s0, acts, s);
    WithoutItem(s.queue, TimeoutWork);
  }
}
