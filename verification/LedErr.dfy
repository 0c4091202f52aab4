/** fwloader_led_err.c: the error blink, which waits for the button to be released and then pressed. */
module LedErr {
  const SLEEP_INTERVAL_MS := 10
  const NUM_BLINKS_PREFIX := 2
  const DELAY_BETWEEN_BLINKS_MS := 100
  const DELAY_AFTER_PREFIX_MS := 500
  const DELAY_AFTER_ERR_CODE_MS := 1000

  // Specification

  /** The button is pressed at sample j and was released at the sample before. */
  predicate EdgeAt(samples: seq<bool>, j: nat) {
    1 <= j < |samples| && samples[j] && !samples[j - 1]
  }

  ghost predicate NoEdgeBefore(samples: seq<bool>, n: nat) {
    forall j | 0 <= j < n :: !EdgeAt(samples, j)
  }

  function Steady(on: bool, n: nat): (s: seq<bool>)
    ensures |s| == n
  {
    seq(n, _ => on)
  }

  /** One blink of the red LED, one element a sample. */
  function Pulse(onSamples: nat, offSamples: nat): seq<bool> {
    Steady(true, onSamples) + Steady(false, offSamples)
  }

  function BlinkTrace(blinks: nat, onSamples: nat, offSamples: nat): seq<bool> {
    if blinks == 0 then []
    else BlinkTrace(blinks - 1, onSamples, offSamples) + Pulse(onSamples, offSamples)
  }

  /** One round of the error display: the prefix blinks, then the error code. */
  function CodeTrace(numRedBlinks: nat): seq<bool> {
    BlinkTrace(NUM_BLINKS_PREFIX, 10, 50) + BlinkTrace(numRedBlinks, 10, 100)
  }

  /** The times the LED comes on: from off, or as the first thing. */
  function TurnsOn(s: seq<bool>): nat {
    if s == [] then 0
    else TurnsOn(s[..|s| - 1]) + if s[|s| - 1] && (|s| == 1 || !s[|s| - 2]) then 1 else 0
  }

  function SamplesOn(s: seq<bool>): nat {
    if s == [] then 0 else SamplesOn(s[..|s| - 1]) + if s[|s| - 1] then 1 else 0
  }

  lemma {:induction false} AddSteady(s: seq<bool>, on: bool, n: nat)
    ensures SamplesOn(s + Steady(on, n)) == SamplesOn(s) + if on then n else 0
    ensures TurnsOn(s + Steady(on, n))
         == TurnsOn(s) + if on && n > 0 && (s == [] || !s[|s| - 1]) then 1 else 0
  {
    var t := s + Steady(on, n);
    if n == 0 {
      assert t == s;
    } else {
      AddSteady(s, on, n - 1);
      assert t[..|t| - 1] == s + Steady(on, n - 1);
      assert n >= 2 ==> t[|t| - 2] == on;
      assert n == 1 && s != [] ==> t[|t| - 2] == s[|s| - 1];
    }
  }

  lemma AddPulse(s: seq<bool>, on: nat, off: nat)
    requires on > 0 && off > 0 && (s == [] || !s[|s| - 1])
    ensures var t := s + Pulse(on, off);
      && SamplesOn(t) == SamplesOn(s) + on && TurnsOn(t) == TurnsOn(s) + 1 && !t[|t| - 1]
  {
    assert s + Pulse(on, off) == (s + Steady(true, on)) + Steady(false, off);
    AddSteady(s, true, on);
    AddSteady(s + Steady(true, on), false, off);
  }

  /** How often the LED comes on, for how many samples it is on, and how long the trace is; it ends dark. */
  predicate Shows(s: seq<bool>, blinks: nat, on: nat, length: nat) {
    TurnsOn(s) == blinks && SamplesOn(s) == on && |s| == length && (s == [] || !s[|s| - 1])
  }

  lemma PulseShows(
    s: seq<bool>, t: seq<bool>, blinks: nat, on: nat, length: nat, pulseOn: nat, pulseOff: nat,
    on': nat, length': nat)
    requires Shows(s, blinks, on, length) && pulseOn > 0 && pulseOff > 0 && t == s + Pulse(pulseOn, pulseOff)
    requires on' == on + pulseOn && length' == length + pulseOn + pulseOff
    ensures Shows(t, blinks + 1, on', length')
  {
    AddPulse(s, pulseOn, pulseOff);
  }

  function Times(n: nat, x: nat): nat {
    if n == 0 then 0 else Times(n - 1, x) + x
  }

  lemma {:induction false} TimesIs(n: nat, x: nat)
    ensures Times(n, x) == n * x
  {
    if n > 0 {
      TimesIs(n - 1, x);
      assert n * x == (n - 1) * x + x;
    }
  }

  lemma {:induction false} BlinksShow(
    s: seq<bool>, blinks: nat, on: nat, length: nat, n: nat, pulseOn: nat, pulseOff: nat)
    requires Shows(s, blinks, on, length) && pulseOn > 0 && pulseOff > 0
    ensures Shows(s + BlinkTrace(n, pulseOn, pulseOff),
                  blinks + n, on + Times(n, pulseOn), length + Times(n, pulseOn + pulseOff))
  {
    if n == 0 {
      assert s + [] == s;
    } else {
      var m := n - 1;
      BlinksShow(s, blinks, on, length, m, pulseOn, pulseOff);
      var before, after := s + BlinkTrace(m, pulseOn, pulseOff), s + BlinkTrace(n, pulseOn, pulseOff);
      var lit, lit' := on + Times(m, pulseOn), on + Times(n, pulseOn);
      var long, long' := length + Times(m, pulseOn + pulseOff), length + Times(n, pulseOn + pulseOff);
      OneMoreBlink(s, m, pulseOn, pulseOff);
      PulseShows(before, after, blinks + m, lit, long, pulseOn, pulseOff, lit', long');
    }
  }

  /**
   * A round shows the two blinks of the prefix and the blinks of the code, each of 10 samples, with 50 samples
   * of darkness after a blink of the prefix and 100 after one of the code.
   */
  lemma CodeBlinks(numRedBlinks: nat)
    ensures TurnsOn(CodeTrace(numRedBlinks)) == 2 + numRedBlinks
    ensures SamplesOn(CodeTrace(numRedBlinks)) == 10 * (2 + numRedBlinks)
    ensures |CodeTrace(numRedBlinks)| == 2 * 60 + numRedBlinks * 110
  {
    var none: seq<bool>, prefix := [], BlinkTrace(NUM_BLINKS_PREFIX, 10, 50);
    BlinksShow(none, 0, 0, 0, NUM_BLINKS_PREFIX, 10, 50);
    assert none + prefix == prefix;
    var on, length := Times(NUM_BLINKS_PREFIX, 10), Times(NUM_BLINKS_PREFIX, 60);
    BlinksShow(prefix, NUM_BLINKS_PREFIX, on, length, numRedBlinks, 10, 100);
    TimesIs(NUM_BLINKS_PREFIX, 10);
    TimesIs(NUM_BLINKS_PREFIX, 60);
    TimesIs(numRedBlinks, 10);
    TimesIs(numRedBlinks, 110);
  }

  function Rounds(numRedBlinks: nat, n: nat): seq<bool> {
    if n == 0 then [] else Rounds(numRedBlinks, n - 1) + CodeTrace(numRedBlinks)
  }

  // The code

  /** How a step ends: normally, in sys_reboot, or because the observed stream of samples is over. */
  datatype Status = Running | Rebooted | StreamOver

  class ErrorBlink {
    const samples: seq<bool>  // what successive calls of fwloader_button_get return
    var next: nat             // the number of calls so far
    var isButtonReleased: bool
    var red: bool
    var green: bool
    var shown: seq<bool>      // the red LED at every sample but the initial one

    constructor (samples: seq<bool>)
      ensures this.samples == samples && next == 0 && shown == []
    {
      this.samples, next, shown := samples, 0, [];
      isButtonReleased, red, green := false, false, false;
    }

    /** Samples 0..next have been read, without an edge among them. */
    ghost predicate Waiting()
      reads this
    {
      && 1 <= next <= |samples| && |shown| == next - 1
      && NoEdgeBefore(samples, next)
      && isButtonReleased == !samples[next - 1]
    }

    /** The last sample read completes the first edge of the stream. */
    ghost predicate AtFirstEdge()
      reads this
    {
      && 2 <= next <= |samples| && |shown| == next - 1
      && EdgeAt(samples, next - 1) && NoEdgeBefore(samples, next - 1)
    }

    ghost predicate Ended(st: Status)
      reads this
    {
      match st
      case Running => Waiting()
      case Rebooted => AtFirstEdge()
      case StreamOver => Waiting() && next == |samples|
    }

    /** check_if_button_released_and_pressed, and the sys_reboot that follows it when it returns true. */
    method CheckIfButtonReleasedAndPressed() returns (st: Status)
      requires Waiting()
      modifies this`next, this`isButtonReleased, this`shown
      ensures Ended(st)
      ensures shown == if st == StreamOver then old(shown) else old(shown) + [red]
      ensures next == if st == StreamOver then old(next) else old(next) + 1
    {
      if next == |samples| {
        return StreamOver;
      }
      var pressed := samples[next];
      next := next + 1;
      shown := shown + [red];
      if !isButtonReleased {
        if !pressed {
          isButtonReleased := true;
        }
      } else {
        if pressed {
          return Rebooted;
        }
      }
      return Running;
    }

    /** An inner loop of fwloader_led_err_blink. */
    method SampleFor(delayMs: nat) returns (st: Status)
      requires Waiting()
      modifies this`next, this`isButtonReleased, this`shown
      ensures Ended(st)
      ensures shown <= old(shown) + Steady(red, delayMs / SLEEP_INTERVAL_MS)
      ensures st == Running ==> shown == old(shown) + Steady(red, delayMs / SLEEP_INTERVAL_MS)
      ensures st == Running ==> next == old(next) + delayMs / SLEEP_INTERVAL_MS
    {
      st := Running;
      var n := delayMs / SLEEP_INTERVAL_MS;
      for j := 0 to n
        invariant st == Running && Waiting()
        invariant next == old(next) + j && shown == old(shown) + Steady(red, j)
      {
        st := CheckIfButtonReleasedAndPressed();
        assert Steady(red, j) + [red] == Steady(red, j + 1) <= Steady(red, n);
        assert Steady(red, j) <= Steady(red, n);
        if st != Running {
          return;
        }
      }
    }

    /** The body of the outer loop of fwloader_led_err_blink. */
    method BlinkOnce(onMs: nat, offMs: nat) returns (st: Status)
      requires Waiting()
      modifies this`next, this`isButtonReleased, this`shown, this`red
      ensures Ended(st)
      ensures shown <= old(shown) + Pulse(onMs / SLEEP_INTERVAL_MS, offMs / SLEEP_INTERVAL_MS)
      ensures st == Running ==> shown == old(shown) + Pulse(onMs / SLEEP_INTERVAL_MS, offMs / SLEEP_INTERVAL_MS)
      ensures old(next) <= next
      ensures st == Running ==> next == old(next) + onMs / SLEEP_INTERVAL_MS + offMs / SLEEP_INTERVAL_MS
    {
      ghost var base := shown;
      ghost var on, off := Steady(true, onMs / SLEEP_INTERVAL_MS), Steady(false, offMs / SLEEP_INTERVAL_MS);
      red := true;
      st := SampleFor(onMs);
      if st != Running {
        PrefixChain(shown, base, on, off, base + (on + off));
        return;
      }
      red := false;
      st := SampleFor(offMs);
      PrefixFull(shown, base, on, off);
    }

    /** fwloader_led_err_blink */
    method Blink(numBlinks: nat, delayBetweenBlinksMs: nat, delayAfterBlinksMs: nat) returns (st: Status)
      requires Waiting()
      modifies this`next, this`isButtonReleased, this`shown, this`red
      ensures Ended(st)
      ensures var on, off := delayBetweenBlinksMs / SLEEP_INTERVAL_MS, delayAfterBlinksMs / SLEEP_INTERVAL_MS;
        && shown <= old(shown) + BlinkTrace(numBlinks, on, off)
        && (st == Running ==> shown == old(shown) + BlinkTrace(numBlinks, on, off))
      ensures old(next) <= next
      ensures st == Running && numBlinks > 0 && delayBetweenBlinksMs >= SLEEP_INTERVAL_MS ==> old(next) < next
    {
      st := Running;
      var on, off := delayBetweenBlinksMs / SLEEP_INTERVAL_MS, delayAfterBlinksMs / SLEEP_INTERVAL_MS;
      for i := 0 to numBlinks
        invariant st == Running && Waiting()
        invariant shown == old(shown) + BlinkTrace(i, on, off)
        invariant old(next) <= next && (i > 0 && on > 0 ==> old(next) < next)
      {
        PartOfTrace(old(shown), i, numBlinks, on, off);
        st := BlinkOnce(delayBetweenBlinksMs, delayAfterBlinksMs);
        if st != Running {
          return;
        }
        OneMoreBlink(old(shown), i, on, off);
      }
    }

    /** The body of the endless loop. */
    method ShowCode(numRedBlinks: nat) returns (st: Status)
      requires Waiting()
      modifies this`next, this`isButtonReleased, this`shown, this`red
      ensures Ended(st)
      ensures shown <= old(shown) + CodeTrace(numRedBlinks)
      ensures st == Running ==> shown == old(shown) + CodeTrace(numRedBlinks) && old(next) < next
    {
      ghost var base, first, second := shown, BlinkTrace(NUM_BLINKS_PREFIX, 10, 50), BlinkTrace(numRedBlinks, 10, 100);
      st := Blink(NUM_BLINKS_PREFIX, DELAY_BETWEEN_BLINKS_MS, DELAY_AFTER_PREFIX_MS);
      if st != Running {
        PrefixChain(shown, base, first, second, base + (first + second));
        return;
      }
      st := Blink(numRedBlinks, DELAY_BETWEEN_BLINKS_MS, DELAY_AFTER_ERR_CODE_MS);
      PrefixFull(shown, base, first, second);
    }

    /**
     * fwloader_led_err_blink_red_led on a finite observation of the button: a reboot is requested at the
     * first edge and only there, and the red LED shows the error code all the while.
     */
    method BlinkRedLed(numRedBlinks: nat) returns (rebootAt: int)
      requires next == 0 && shown == [] && samples != []
      modifies this
      ensures rebootAt >= 0 ==> EdgeAt(samples, rebootAt) && NoEdgeBefore(samples, rebootAt) && next == rebootAt + 1
      ensures rebootAt < 0 ==> NoEdgeBefore(samples, |samples|)
      ensures exists n :: shown <= Rounds(numRedBlinks, n)
      ensures |shown| == next - 1 && !green
    {
      isButtonReleased := !samples[0];
      next := 1;
      green := false;
      ghost var n := 0;
      while true
        invariant Waiting() && !green
        invariant shown == Rounds(numRedBlinks, n)
        decreases |samples| - next
      {
        var st := ShowCode(numRedBlinks);
        n := n + 1;
        assert shown <= Rounds(numRedBlinks, n);
        if st == Rebooted {
          return next - 1;
        }
        if st == StreamOver {
          return -1;
        }
      }
    }
  }

  // Prefixes of the trace

  lemma PrefixChain(s: seq<bool>, base: seq<bool>, a: seq<bool>, b: seq<bool>, whole: seq<bool>)
    requires s <= base + a && base + (a + b) <= whole
    ensures s <= whole
  {
    assert base + a <= base + (a + b);
  }

  lemma PrefixFull(s: seq<bool>, base: seq<bool>, a: seq<bool>, b: seq<bool>)
    ensures s <= base + a + b <==> s <= base + (a + b)
    ensures s == base + a + b <==> s == base + (a + b)
  {
    assert base + a + b == base + (a + b);
  }

  lemma OneMoreBlink(base: seq<bool>, i: nat, on: nat, off: nat)
    ensures base + BlinkTrace(i + 1, on, off) == base + BlinkTrace(i, on, off) + Pulse(on, off)
  {}

  lemma {:induction false} PartOfTrace(base: seq<bool>, i: nat, n: nat, on: nat, off: nat)
    requires i < n
    ensures base + BlinkTrace(i, on, off) + Pulse(on, off) <= base + BlinkTrace(n, on, off)
    decreases n
  {
    OneMoreBlink(base, n - 1, on, off);
    if i < n - 1 {
      PartOfTrace(base, i, n - 1, on, off);
    }
  }
}
