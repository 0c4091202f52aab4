/**
 * The inactivity timeout: the FS command counter of fwloader_mcumgr_mgmt_callbacks.c, its poll, and the
 * counter of inactive iterations in main's loop.
 */
module IdleTimeout {
  import opened Bytes
  import opened Mgmt

  const UPLOADING_TIMEOUT_SEC := 180

  /** g_upload_cnt, the poll's static g_last_upload_cnt, and main's uploading_timeout_cnt. */
  datatype Monitor = Monitor(uploadCnt: u32, lastUploadCnt: u32, timeoutCnt: u32)

  const INITIAL := Monitor(0, 0, 0)

  function AfterCommand(m: Monitor): Monitor {
    m.(uploadCnt := Add32(m.uploadCnt, 1))
  }

  /** main.c:215-231; the poll of the counters is one step. */
  function AfterIteration(m: Monitor, connected: bool): Monitor {
    if connected then
      m.(lastUploadCnt := m.uploadCnt,
         timeoutCnt := if m.uploadCnt != m.lastUploadCnt then 0 else Add32(m.timeoutCnt, 1))
    else m.(timeoutCnt := Add32(m.timeoutCnt, 1))
  }

  /** main.c:232 */
  predicate TimedOut(m: Monitor) {
    m.timeoutCnt >= UPLOADING_TIMEOUT_SEC
  }

  // Histories

  datatype Event = FsCommand | Iteration(connected: bool)

  function Replay(evs: seq<Event>): Monitor {
    if evs == [] then INITIAL
    else
      var m := Replay(evs[..|evs| - 1]);
      match evs[|evs| - 1]
      case FsCommand => AfterCommand(m)
      case Iteration(connected) => AfterIteration(m, connected)
  }

  /** FS commands since the last poll of the counters. */
  function Pending(evs: seq<Event>): nat {
    if evs == [] then 0
    else
      match evs[|evs| - 1]
      case FsCommand => Pending(evs[..|evs| - 1]) + 1
      case Iteration(connected) => if connected then 0 else Pending(evs[..|evs| - 1])
  }

  /** Among the first n events, an FS command comes after the last connected iteration. */
  ghost predicate UnpolledAt(evs: seq<Event>, n: nat)
    requires n <= |evs|
  {
    exists q :: 0 <= q < n && evs[q] == FsCommand && forall k | q < k < n :: evs[k] != Iteration(true)
  }

  /** Connected at the poll, with an FS command since the last connected poll. */
  ghost predicate ActiveAt(evs: seq<Event>, p: nat)
    requires p < |evs|
  {
    evs[p] == Iteration(true) && UnpolledAt(evs, p)
  }

  /** The length of the current run of inactive iterations. */
  ghost function InactiveRun(evs: seq<Event>): nat {
    if evs == [] then 0
    else
      match evs[|evs| - 1]
      case FsCommand => InactiveRun(evs[..|evs| - 1])
      case Iteration(_) => if ActiveAt(evs, |evs| - 1) then 0 else InactiveRun(evs[..|evs| - 1]) + 1
  }

  /** Connected at the poll, and the commands it finds are not a multiple of 2^32: what the 32-bit counters show. */
  predicate CreditedAt(evs: seq<Event>, p: nat)
    requires p < |evs|
  {
    evs[p] == Iteration(true) && Pending(evs[..p]) % U32_MOD != 0
  }

  /** An active iteration that the counters do not show: they have gone once or more all the way round. */
  predicate MissedAt(evs: seq<Event>, p: nat)
    requires p < |evs|
  {
    evs[p] == Iteration(true) && Pending(evs[..p]) > 0 && Pending(evs[..p]) % U32_MOD == 0
  }

  ghost predicate NothingMissed(evs: seq<Event>) {
    forall p | 0 <= p < |evs| :: !MissedAt(evs, p)
  }

  /** The length of the current run of iterations without credit. */
  function CountedRun(evs: seq<Event>): nat {
    if evs == [] then 0
    else
      match evs[|evs| - 1]
      case FsCommand => CountedRun(evs[..|evs| - 1])
      case Iteration(_) => if CreditedAt(evs, |evs| - 1) then 0 else CountedRun(evs[..|evs| - 1]) + 1
  }

  /** Main is still in its loop after all of these events. */
  ghost predicate StillLooping(evs: seq<Event>) {
    forall n | 0 <= n <= |evs| :: CountedRun(evs[..n]) < UPLOADING_TIMEOUT_SEC
  }

  lemma LoopingFront(evs: seq<Event>)
    requires evs != [] && StillLooping(evs)
    ensures StillLooping(evs[..|evs| - 1])
  {
    var front := evs[..|evs| - 1];
    assert forall n | 0 <= n <= |front| :: front[..n] == evs[..n];
  }

  /** The counters differ by the commands not yet polled, modulo 2^32, on every history. */
  lemma {:induction false} CountersDiffer(evs: seq<Event>)
    ensures Replay(evs).uploadCnt == (Replay(evs).lastUploadCnt + Pending(evs)) % U32_MOD
  {
    if evs != [] {
      CountersDiffer(evs[..|evs| - 1]);
    }
  }

  /** The poll reports activity exactly when the pending commands are not a multiple of 2^32. */
  lemma PollExactly(evs: seq<Event>)
    ensures Replay(evs).uploadCnt != Replay(evs).lastUploadCnt <==> Pending(evs) % U32_MOD != 0
  {
    CountersDiffer(evs);
  }

  lemma UnpolledInPrefix(evs: seq<Event>, all: seq<Event>)
    requires evs <= all
    ensures UnpolledAt(evs, |evs|) <==> UnpolledAt(all, |evs|)
  {
    assert forall k | 0 <= k < |evs| :: all[k] == evs[k];
  }

  lemma UnpolledStep(evs: seq<Event>, n: nat)
    requires n < |evs|
    ensures UnpolledAt(evs, n + 1) <==> evs[n] == FsCommand || (evs[n] != Iteration(true) && UnpolledAt(evs, n))
  {
    if UnpolledAt(evs, n + 1) && evs[n] != FsCommand {
      var q :| 0 <= q < n + 1 && evs[q] == FsCommand && forall k | q < k < n + 1 :: evs[k] != Iteration(true);
      assert evs[q] == FsCommand && q < n;
    }
  }

  /** Commands are pending exactly when one came after the last connected iteration. */
  lemma {:induction false} PendingExactly(evs: seq<Event>)
    ensures Pending(evs) > 0 <==> UnpolledAt(evs, |evs|)
  {
    if evs != [] {
      var front := evs[..|evs| - 1];
      PendingExactly(front);
      UnpolledInPrefix(front, evs);
      UnpolledStep(evs, |front|);
    }
  }

  /** The poll answers whether the iteration that makes it gets credit. */
  lemma PollCredits(evs: seq<Event>, connected: bool)
    ensures CreditedAt(evs + [Iteration(connected)], |evs|)
       <==> connected && Replay(evs).uploadCnt != Replay(evs).lastUploadCnt
  {
    PollExactly(evs);
    assert (evs + [Iteration(connected)])[..|evs|] == evs;
  }

  /** Credit goes to the active iterations, unless one is missed. */
  lemma CreditExactly(evs: seq<Event>, p: nat)
    requires p < |evs|
    ensures (CreditedAt(evs, p) <==> ActiveAt(evs, p)) <==> !MissedAt(evs, p)
  {
    PendingExactly(evs[..p]);
    UnpolledInPrefix(evs[..p], evs);
  }

  /** The poll answers the question it stands for, is the iteration an active one, unless it is missed. */
  lemma ActiveExactly(evs: seq<Event>, connected: bool)
    ensures var all, answer := evs + [Iteration(connected)], Replay(evs).uploadCnt != Replay(evs).lastUploadCnt;
      (ActiveAt(all, |evs|) <==> connected && answer) <==> !MissedAt(all, |evs|)
  {
    PollCredits(evs, connected);
    CreditExactly(evs + [Iteration(connected)], |evs|);
  }

  /** The counter refines the history: it is the length of the current run of iterations without credit. */
  lemma {:induction false} CounterIsRun(evs: seq<Event>)
    requires evs == [] || StillLooping(evs[..|evs| - 1])
    ensures Replay(evs).timeoutCnt == CountedRun(evs) <= UPLOADING_TIMEOUT_SEC
  {
    if evs != [] {
      var front := evs[..|evs| - 1];
      if front != [] {
        LoopingFront(front);
      }
      CounterIsRun(front);
      assert front[..|front|] == front;
      assert front + [evs[|front|]] == evs;
      CounterStep(front, evs[|front|]);
    }
  }

  lemma CounterStep(front: seq<Event>, last: Event)
    requires Replay(front).timeoutCnt == CountedRun(front) < UPLOADING_TIMEOUT_SEC
    ensures Replay(front + [last]).timeoutCnt == CountedRun(front + [last]) <= UPLOADING_TIMEOUT_SEC
  {
    var evs := front + [last];
    assert evs[..|evs| - 1] == front;
    if last.Iteration? {
      PollCredits(front, last.connected);
    }
  }

  lemma MissedInPrefix(evs: seq<Event>, n: nat, p: nat)
    requires p < n <= |evs|
    ensures MissedAt(evs[..n], p) <==> MissedAt(evs, p)
  {
    assert evs[..n][..p] == evs[..p];
  }

  /** Where nothing is missed, the run that is counted is the run of inactive iterations. */
  lemma {:induction false} RunsAgree(evs: seq<Event>)
    requires NothingMissed(evs)
    ensures CountedRun(evs) == InactiveRun(evs)
  {
    if evs != [] {
      var front := evs[..|evs| - 1];
      forall p | 0 <= p < |front|
        ensures !MissedAt(front, p)
      {
        MissedInPrefix(evs, |front|, p);
      }
      RunsAgree(front);
      CreditExactly(evs, |front|);
    }
  }

  /** The counted run is the run of inactive iterations at every moment if and only if nothing is missed. */
  lemma RunsAgreeExactly(evs: seq<Event>)
    ensures (forall n | 0 <= n <= |evs| :: CountedRun(evs[..n]) == InactiveRun(evs[..n])) <==> NothingMissed(evs)
  {
    if NothingMissed(evs) {
      forall n | 0 <= n <= |evs|
        ensures CountedRun(evs[..n]) == InactiveRun(evs[..n])
      {
        PrefixMissesNothing(evs, n);
        RunsAgree(evs[..n]);
      }
    } else {
      var p :| 0 <= p < |evs| && MissedAt(evs, p);
      var upTo := evs[..p + 1];
      MissedInPrefix(evs, p + 1, p);
      CreditExactly(upTo, p);
      assert CountedRun(upTo) > 0 == InactiveRun(upTo);
    }
  }

  lemma PrefixMissesNothing(evs: seq<Event>, n: nat)
    requires n <= |evs| && NothingMissed(evs)
    ensures NothingMissed(evs[..n])
  {
    forall p | 0 <= p < n
      ensures !MissedAt(evs[..n], p)
    {
      MissedInPrefix(evs, n, p);
    }
  }

  /** Fewer than 2^32 FS commands between polls are enough. */
  lemma FewCommandsMissNothing(evs: seq<Event>)
    requires forall n | 0 <= n <= |evs| :: Pending(evs[..n]) < U32_MOD
    ensures NothingMissed(evs)
  {}

  lemma {:induction false} PendingCommands(n: nat)
    ensures Pending(seq(n, _ => FsCommand)) == n
  {
    var evs := seq(n, _ => FsCommand);
    if n > 0 {
      PendingCommands(n - 1);
      assert evs[..n - 1] == seq(n - 1, _ => FsCommand);
    }
  }

  /** And 2^32 of them are not: a poll that finds this many reports no activity. */
  lemma FullRoundIsMissed()
    ensures var evs := seq(U32_MOD, _ => FsCommand) + [Iteration(true)];
      ActiveAt(evs, U32_MOD) && !CreditedAt(evs, U32_MOD)
  {
    var commands := seq(U32_MOD, _ => FsCommand);
    var evs := commands + [Iteration(true)];
    PendingCommands(U32_MOD);
    assert evs[..U32_MOD] == commands;
    CreditExactly(evs, U32_MOD);
  }

  function Iterations(evs: seq<Event>): nat {
    if evs == [] then 0
    else Iterations(evs[..|evs| - 1]) + if evs[|evs| - 1].Iteration? then 1 else 0
  }

  /** The run counts the iterations after the last active one, all of which are inactive. */
  lemma {:induction false} RunMeaning(evs: seq<Event>) returns (from: nat)
    ensures from <= |evs| && (from == 0 || ActiveAt(evs, from - 1))
    ensures forall p | from <= p < |evs| :: !ActiveAt(evs, p)
    ensures InactiveRun(evs) == Iterations(evs[from..])
  {
    if evs == [] {
      from := 0;
    } else {
      var front, last := evs[..|evs| - 1], |evs| - 1;
      from := RunMeaning(front);
      forall p | 0 <= p < last
        ensures ActiveAt(front, p) <==> ActiveAt(evs, p)
      {
        UnpolledInPrefix(evs[..p], front);
        UnpolledInPrefix(evs[..p], evs);
      }
      if ActiveAt(evs, last) {
        from := |evs|;
      } else {
        assert evs[from..][..|evs[from..]| - 1] == front[from..];
      }
    }
  }

  /** Main leaves its loop for inactivity at the end of evs[..p + 1] and not before. */
  ghost predicate TimesOutAt(evs: seq<Event>, p: nat)
    requires p < |evs|
  {
    && evs[p].Iteration?
    && CountedRun(evs[..p + 1]) == 180
    && StillLooping(evs[..p])
  }

  /** Iteration p is the first to end 180 consecutive inactive ones. */
  ghost predicate InactivityEndsAt(evs: seq<Event>, p: nat)
    requires p < |evs|
  {
    && evs[p].Iteration?
    && InactiveRun(evs[..p + 1]) == 180
    && forall n | 0 <= n <= p :: InactiveRun(evs[..n]) < 180
  }

  /** None of the iterations that make up the counted run is a missed one. */
  ghost predicate RunClean(evs: seq<Event>) {
    forall q | 0 <= q < |evs| && Iterations(evs[q..]) <= CountedRun(evs) :: !MissedAt(evs, q)
  }

  lemma IterationsFront(evs: seq<Event>, q: nat)
    requires q < |evs|
    ensures Iterations(evs[q..])
         == Iterations(evs[..|evs| - 1][q..]) + if evs[|evs| - 1].Iteration? then 1 else 0
  {
    assert evs[q..][..|evs[q..]| - 1] == evs[..|evs| - 1][q..];
    assert evs[q..][|evs[q..]| - 1] == evs[|evs| - 1];
  }

  /** An iteration without credit that is not missed itself leaves the run as clean as it was. */
  lemma CleanFront(evs: seq<Event>)
    requires evs != []
    requires evs[|evs| - 1] == FsCommand || !CreditedAt(evs, |evs| - 1)
    ensures RunClean(evs) <==> RunClean(evs[..|evs| - 1]) && !MissedAt(evs, |evs| - 1)
  {
    var front, last := evs[..|evs| - 1], |evs| - 1;
    forall q | 0 <= q < last
      ensures MissedAt(front, q) <==> MissedAt(evs, q)
      ensures Iterations(evs[q..]) <= CountedRun(evs) <==> Iterations(front[q..]) <= CountedRun(front)
    {
      MissedInPrefix(evs, last, q);
      IterationsFront(evs, q);
    }
    IterationsFront(evs, last);
    assert front[last..] == [];
  }

  /** Main never counts too little, and counts right if and only if nothing in the counted run is missed. */
  lemma {:induction false} RunExactly(evs: seq<Event>)
    ensures InactiveRun(evs) <= CountedRun(evs)
    ensures InactiveRun(evs) == CountedRun(evs) <==> RunClean(evs)
  {
    if evs != [] {
      var front, last := evs[..|evs| - 1], |evs| - 1;
      RunExactly(front);
      CreditExactly(evs, last);
      if evs[last].FsCommand? || !CreditedAt(evs, last) {
        CleanFront(evs);
      } else {
        forall q | 0 <= q < |evs|
          ensures Iterations(evs[q..]) > CountedRun(evs)
        {
          IterationsFront(evs, q);
        }
      }
    }
  }

  /**
   * While main loops: iteration p is the first to end 180 inactive ones if and only if main leaves its loop
   * there and none of the last 180 iterations is missed. So main is never late, and early exactly if one is.
   */
  lemma TimeoutsExactly(evs: seq<Event>, p: nat)
    requires p < |evs| && StillLooping(evs[..p])
    ensures InactivityEndsAt(evs, p) <==> TimesOutAt(evs, p) && RunClean(evs[..p + 1])
  {
    forall n | 0 <= n <= p
      ensures InactiveRun(evs[..n]) < UPLOADING_TIMEOUT_SEC
    {
      assert evs[..p][..n] == evs[..n];
      RunExactly(evs[..n]);
    }
    RunExactly(evs[..p + 1]);
    assert evs[..p + 1][..p] == evs[..p];
    RunStep(evs, p);
  }

  lemma RunStep(evs: seq<Event>, p: nat)
    requires p < |evs| && StillLooping(evs[..p])
    ensures CountedRun(evs[..p + 1]) <= UPLOADING_TIMEOUT_SEC
  {
    assert evs[..p][..p] == evs[..p] == evs[..p + 1][..p];
  }

  /** Inactivity never ends while main goes on looping. */
  lemma NeverLate(evs: seq<Event>, p: nat)
    requires p < |evs| && InactivityEndsAt(evs, p)
    ensures !StillLooping(evs[..p + 1])
  {
    RunExactly(evs[..p + 1]);
    assert evs[..p + 1][..p + 1] == evs[..p + 1];
  }

  /** Where nothing is missed, main leaves its loop when it should. */
  lemma TimeoutsAgree(evs: seq<Event>, p: nat)
    requires p < |evs| && NothingMissed(evs)
    ensures TimesOutAt(evs, p) <==> InactivityEndsAt(evs, p)
  {
    RunsAgreeExactly(evs);
    assert forall n | 0 <= n <= p :: evs[..p][..n] == evs[..n];
  }

  lemma LoopingPrefix(evs: seq<Event>, n: nat)
    requires n < |evs| && StillLooping(evs[..n]) && CountedRun(evs[..n + 1]) < UPLOADING_TIMEOUT_SEC
    ensures StillLooping(evs[..n + 1])
  {
    var longer := evs[..n + 1];
    forall m | 0 <= m <= |longer|
      ensures CountedRun(longer[..m]) < UPLOADING_TIMEOUT_SEC
    {
      if m <= n {
        assert longer[..m] == evs[..n][..m];
      } else {
        assert longer[..m] == longer;
      }
    }
  }

  lemma ReplayStep(evs: seq<Event>, n: nat)
    requires n < |evs|
    ensures Replay(evs[..n + 1]) ==
      match evs[n]
      case FsCommand => AfterCommand(Replay(evs[..n]))
      case Iteration(connected) => AfterIteration(Replay(evs[..n]), connected)
  {
    assert evs[..n + 1][..n] == evs[..n];
  }

  // The code

  class UploadMonitor {
    var uploadCnt: u32
    var lastUploadCnt: u32
    var timeoutCnt: u32

    constructor ()
      ensures State() == INITIAL
    {
      uploadCnt, lastUploadCnt, timeoutCnt := 0, 0, 0;
    }

    function State(): Monitor
      reads this
    {
      Monitor(uploadCnt, lastUploadCnt, timeoutCnt)
    }

    /** mgmt_cb_cmd_recv; `group` is None when the event carries no data. */
    method MgmtCbCmdRecv(event: MgmtEvent, group: Option<u16>)
      modifies this
      ensures State() == if event == OpCmdRecv && group == Some(MGMT_GROUP_ID_FS)
                         then AfterCommand(old(State())) else old(State())
    {
      if event != OpCmdRecv {
        return;
      }
      if group.None? {
        return;
      }
      if group.value == MGMT_GROUP_ID_FS {
        uploadCnt := Add32(uploadCnt, 1);
      }
    }

    /** fwloader_mcumgr_mgmt_callbacks_is_uploading_in_progress */
    method IsUploadingInProgress() returns (isUploading: bool)
      modifies this`lastUploadCnt
      ensures isUploading <==> uploadCnt != old(lastUploadCnt)
      ensures lastUploadCnt == uploadCnt
    {
      isUploading := uploadCnt != lastUploadCnt;
      lastUploadCnt := uploadCnt;
    }

    /** The part of an iteration of main's loop that counts inactivity. */
    method CountIteration(connected: bool) returns (timedOut: bool)
      modifies this
      ensures State() == AfterIteration(old(State()), connected)
      ensures timedOut <==> TimedOut(State())
    {
      if connected {
        var isUploading := IsUploadingInProgress();
        if isUploading {
          timeoutCnt := 0;
        } else {
          timeoutCnt := Add32(timeoutCnt, 1);
        }
      } else {
        timeoutCnt := Add32(timeoutCnt, 1);
      }
      timedOut := timeoutCnt >= UPLOADING_TIMEOUT_SEC;
    }

    /**
     * The loop over a history of commands and iterations: it is left at the first iteration that ends 180
     * consecutive ones without credit, and at no other; TimeoutsAgree and RunsAgreeExactly say when these are
     * the inactive ones.
     */
    method RunLoop(evs: seq<Event>) returns (leftAt: Option<nat>)
      requires State() == INITIAL
      modifies this
      ensures leftAt.Some? ==> leftAt.value < |evs| && TimesOutAt(evs, leftAt.value)
      ensures leftAt.None? ==> StillLooping(evs)
    {
      assert evs[..0] == [];
      for n := 0 to |evs|
        invariant State() == Replay(evs[..n]) && StillLooping(evs[..n])
      {
        ReplayStep(evs, n);
        assert evs[..n + 1][..|evs[..n + 1]| - 1] == evs[..n];
        CounterIsRun(evs[..n + 1]);
        match evs[n] {
          case FsCommand =>
            MgmtCbCmdRecv(OpCmdRecv, Some(MGMT_GROUP_ID_FS));
            RunKeptByCommand(evs, n);
          case Iteration(connected) =>
            var timedOut := CountIteration(connected);
            if timedOut {
              return Some(n);
            }
        }
        LoopingPrefix(evs, n);
      }
      assert evs[..|evs|] == evs;
      return None;
    }
  }

  lemma RunKeptByCommand(evs: seq<Event>, n: nat)
    requires n < |evs| && evs[n] == FsCommand && StillLooping(evs[..n])
    ensures CountedRun(evs[..n + 1]) < UPLOADING_TIMEOUT_SEC
  {
    assert evs[..n + 1][..n] == evs[..n] == evs[..n][..n];
  }
}
