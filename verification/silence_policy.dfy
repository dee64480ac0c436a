/** The state guarded by `condition_mutex`, the producer's write report,
    and the consumer's silence decision, stated as functions of that state
    and of what the rest of the system does while the consumer waits. */
module SilencePolicy {

  /** The fields guarded by the mutex: bytes produced but not yet consumed
      (`gAvailableBytes`), the warm-up flag (`gSoundMixingStarted`), the
      one-shot starvation latch (`gWaitingForMixerToRestart`), and how
      often the condition variable has been signalled. */
  datatype Shared = Shared(available: nat, mixingStarted: bool, waitingForRestart: bool, signals: nat)

  /** What the rest of the system does during one pass of the wait loop. */
  datatype Round =
    | ClockFails                  // gettimeofday reports an error
    | WaitTimesOut(writes: seq<nat>) // the timed wait returns ETIMEDOUT, after the mixer reported these writes
    | WaitWakes(writes: seq<nat>)    // the wait returns after the mixer reported these writes (none: a spurious wake-up)

  /** What the rest of the system does during the waits still to come. Once
      the rounds run out the clock keeps working, nobody writes, and every
      wait runs to its deadline. */
  type Rounds = seq<Round>

  datatype Decision = Decision(silence: bool, shared: Shared, rounds: Rounds)

  function Sum(ws: seq<nat>): nat {
    if ws == [] then 0 else ws[0] + Sum(ws[1..])
  }

  /** Bytes the mixer reports during the given rounds. */
  function Reported(rounds: seq<Round>): nat {
    if rounds == [] then 0
    else (if rounds[0].ClockFails? then 0 else Sum(rounds[0].writes)) + Reported(rounds[1..])
  }

  /** One `SNDDMA_ReportWrite(n)`, as one step under the mutex. */
  function ReportOne(s: Shared, n: nat): (r: Shared)
    ensures r.available == s.available + n
    ensures r.mixingStarted
    ensures r.waitingForRestart == s.waitingForRestart
    ensures r.signals == if s.available == 0 then s.signals + 1 else s.signals
  {
    Shared(s.available + n, true, s.waitingForRestart, if s.available == 0 then s.signals + 1 else s.signals)
  }

  /** Several write reports in a row. */
  function ReportAll(s: Shared, ws: seq<nat>): (r: Shared)
    ensures r.available == s.available + Sum(ws)
    ensures r.mixingStarted == (s.mixingStarted || ws != [])
    ensures r.waitingForRestart == s.waitingForRestart
    ensures r.signals >= s.signals
    ensures s.available == 0 && ws != [] ==> r.signals > s.signals
    decreases |ws|
  {
    if ws == [] then s else ReportAll(ReportOne(s, ws[0]), ws[1..])
  }

  /** `shouldMixSilence`: silence before mixing has started; otherwise, while
      no bytes are available, silence at once if the latch is set, silence
      if the clock fails, latch and silence if the wait times out, and look
      again after a wake-up; once bytes are available, clear the latch and
      mix. */
  function Decide(s: Shared, rs: Rounds): (d: Decision)
    ensures !d.silence ==> d.shared.available > 0
    decreases |rs|
  {
    if !s.mixingStarted then Decision(true, s, rs)
    else if s.available > 0 then Decision(false, s.(waitingForRestart := false), rs)
    else if s.waitingForRestart then Decision(true, s, rs)
    else if rs == [] then Decision(true, s.(waitingForRestart := true), [])
    else if rs[0].ClockFails? then Decision(true, s, rs[1..])
    else if rs[0].WaitTimesOut? then Decision(true, ReportAll(s, rs[0].writes).(waitingForRestart := true), rs[1..])
    else Decide(ReportAll(s, rs[0].writes), rs[1..])
  }

  /** The decisions taken without waiting: silence, with nothing touched,
      before mixing has started and when the latch is already set with no
      bytes available; mixing, with the latch cleared, when bytes are
      already available. */
  lemma DecideWithoutWaiting(s: Shared, rs: Rounds)
    ensures !s.mixingStarted ==> Decide(s, rs) == Decision(true, s, rs)
    ensures s.mixingStarted && s.available == 0 && s.waitingForRestart ==> Decide(s, rs) == Decision(true, s, rs)
    ensures s.mixingStarted && s.available > 0 ==> Decide(s, rs) == Decision(false, s.(waitingForRestart := false), rs)
  {
  }

  /** A wait that times out, including any wait once the rounds have run
      out, sets the latch and decides silence, even when the mixer reported
      bytes before the waiter got the mutex back; a failing clock decides
      silence and leaves the latch clear. */
  lemma DecideOnTimeoutOrClockFailure(s: Shared, rs: Rounds)
    requires s.mixingStarted && s.available == 0 && !s.waitingForRestart
    ensures rs == [] ==> Decide(s, rs) == Decision(true, s.(waitingForRestart := true), [])
    ensures rs != [] && rs[0].WaitTimesOut? ==>
              Decide(s, rs) == Decision(true, ReportAll(s, rs[0].writes).(waitingForRestart := true), rs[1..])
    ensures rs != [] && rs[0].ClockFails? ==> Decide(s, rs) == Decision(true, s, rs[1..])
  {
  }

  /** The latch: it is set only on the way to silence and stays set through
      silence; a silence decision after mixing has started means that no
      bytes are available or that the latch is set (a wait timed out, and
      the mixer may have reported bytes just before); and a latch that was
      clear becomes set only through a wait that timed out, which is the
      last round used (or the rounds ran out). */
  lemma {:induction false} DecideLatch(s: Shared, rs: Rounds)
    ensures var d := Decide(s, rs);
            && (d.shared.waitingForRestart ==> d.silence)
            && (s.waitingForRestart && d.silence ==> d.shared.waitingForRestart)
            && (d.silence && s.mixingStarted ==> d.shared.available == 0 || d.shared.waitingForRestart)
            && (d.shared.waitingForRestart && !s.waitingForRestart ==>
                  d.rounds == [] || exists k :: 0 <= k < |rs| && rs[k].WaitTimesOut? && d.rounds == rs[k + 1..])
    decreases |rs|
  {
    if s.mixingStarted && s.available == 0 && !s.waitingForRestart && rs != [] && rs[0].WaitWakes? {
      var d := Decide(s, rs);
      DecideLatch(ReportAll(s, rs[0].writes), rs[1..]);
      if d.shared.waitingForRestart && d.rounds != [] {
        var k :| 0 <= k < |rs[1..]| && rs[1..][k].WaitTimesOut? && d.rounds == rs[1..][k + 1..];
        assert rs[k + 1].WaitTimesOut? && d.rounds == rs[k + 2..];
      }
    } else if s.mixingStarted && s.available == 0 && !s.waitingForRestart && rs != [] && rs[0].WaitTimesOut? {
      assert rs[0].WaitTimesOut? && Decide(s, rs).rounds == rs[1..];
    }
  }

  /** Bytes are conserved across the decision: what was available plus what
      the mixer reported in the rounds used up is what is available after,
      and the rounds left are a suffix of the rounds before. */
  lemma {:induction false} DecideConserves(s: Shared, rs: Rounds)
    ensures var d := Decide(s, rs);
            && s.available + Reported(rs) == d.shared.available + Reported(d.rounds)
            && |d.rounds| <= |rs|
            && d.rounds == rs[|rs| - |d.rounds|..]
            && d.shared.mixingStarted == s.mixingStarted
            && d.shared.signals >= s.signals
    decreases |rs|
  {
    if s.mixingStarted && s.available == 0 && !s.waitingForRestart && rs != [] && rs[0].WaitWakes? {
      DecideConserves(ReportAll(s, rs[0].writes), rs[1..]);
    }
  }

  /** A write report of at least one byte, after the latch was set, makes
      the next decision mix at once, clear the latch and use no rounds; the
      signal is sent exactly when nothing was available before. */
  lemma ReportClearsLatch(s: Shared, n: nat, rs: Rounds)
    requires n > 0
    ensures var r := ReportOne(s, n);
            && r.signals == (if s.available == 0 then s.signals + 1 else s.signals)
            && Decide(r, rs) == Decision(false, r.(waitingForRestart := false), rs)
  {
  }

  /** A timed-out wait whose deadline passed while the mixer reported bytes
      still sets the latch and decides silence, with those bytes left
      available. */
  lemma TimeoutDespiteReport(s: Shared, ws: seq<nat>, rs: Rounds)
    requires s.mixingStarted && s.available == 0 && !s.waitingForRestart && Sum(ws) > 0
    ensures var d := Decide(s, [WaitTimesOut(ws)] + rs);
            && d.silence && d.shared.waitingForRestart
            && d.shared.available == Sum(ws) > 0
            && d.rounds == rs
  {
    assert ([WaitTimesOut(ws)] + rs)[1..] == rs;
  }

  /** `n` wake-ups in a row that bring no bytes: spurious ones, or the
      signal `SNDDMA_ReportWrite(0)` sends while nothing is available. */
  function EmptyWakeUps(n: nat): (rs: Rounds)
    ensures |rs| == n && Reported(rs) == 0
  {
    if n == 0 then [] else [WaitWakes([])] + EmptyWakeUps(n - 1)
  }

  /** A wake-up that leaves nothing available starts another wait, with a
      fresh deadline: after `n` such wake-ups the decision is the one the
      rounds after them give, so the 40 ms bound holds for each wait, not
      for the whole decision. */
  lemma {:induction false} WakeUpsWithoutDataWaitAgain(s: Shared, n: nat, rs: Rounds)
    requires s.mixingStarted && s.available == 0 && !s.waitingForRestart
    ensures Decide(s, EmptyWakeUps(n) + rs) == Decide(s, rs)
    decreases n
  {
    if n > 0 {
      var rest := EmptyWakeUps(n - 1) + rs;
      assert EmptyWakeUps(n) + rs == [WaitWakes([])] + rest;
      assert ReportAll(s, []) == s;
      assert Decide(s, [WaitWakes([])] + rest) == Decide(s, rest);
      WakeUpsWithoutDataWaitAgain(s, n - 1, rs);
    } else {
      assert EmptyWakeUps(n) + rs == rs;
    }
  }
}
