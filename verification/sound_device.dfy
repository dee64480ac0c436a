/** The Android sound back end as a stateful device: the state shared
    between the mixer thread and the audio thread, and its entry points
    `SNDDMA_Init`, `SNDDMA_ReportWrite`, `SNDDMA_GetDMAPos`,
    `shouldMixSilence` and the audio callback. The rest of the system (the
    wall clock, the condition variable and the mixer writing while the
    audio thread waits) is the `Environment`. */
module AndroidSound {
  import opened RingIndex
  import opened Deadline
  import opened SilencePolicy
  import opened Callback

  datatype Option<T> = None | Some(value: T)

  /** The events an AudioTrack callback receives; only `MoreData` asks for
      bytes. */
  datatype TrackEvent = MoreData | Underrun | LoopEnd | Marker | NewPos | BufferEnd

  /** `memcpy(dest + at, src + from, n)`. */
  method CopyBytes(dest: array<bv8>, at: nat, src: array<bv8>, from: nat, n: nat)
    requires at + n <= dest.Length && from + n <= src.Length && dest != src
    modifies dest
    ensures dest[..] == old(dest[..at]) + src[from..from + n] + old(dest[at + n..])
  {
    forall i | 0 <= i < n {
      dest[at + i] := src[from + i];
    }
    assert dest[..] == old(dest[..at]) + src[from..from + n] + old(dest[at + n..]);
  }

  /** `memset(dest + at, 0, dest.Length - at)`. */
  method ZeroBytes(dest: array<bv8>, at: nat)
    requires at <= dest.Length
    modifies dest
    ensures dest[..] == old(dest[..at]) + Zeros(dest.Length - at)
  {
    forall i | at <= i < dest.Length {
      dest[i] := 0;
    }
    assert dest[..] == old(dest[..at]) + Zeros(dest.Length - at);
  }

  class SoundDevice {
    /** `shm->buffer`: the ring the mixer writes and the callback drains;
        null while `shm` is unset. */
    var ring: array?<bv8>
    /** `gDMAByteIndex`: the read cursor published to the mixer. */
    var dmaByteIndex: nat
    /** `gAvailableBytes`. */
    var availableBytes: nat
    /** `gSoundMixingStarted`. */
    var mixingStarted: bool
    /** `gWaitingForMixerToRestart`. */
    var waitingForMixerToRestart: bool
    /** How often `condition_cond` has been signalled. */
    var signals: nat

    /** The ring has its fixed capacity and the published cursor lies
        inside it. */
    ghost predicate Valid()
      reads this
    {
      && (ring != null ==> ring.Length == TotalBufferSize)
      && dmaByteIndex < TotalBufferSize
    }

    /** The fields guarded by `condition_mutex`. */
    function SharedState(): Shared
      reads this
    {
      Shared(availableBytes, mixingStarted, waitingForMixerToRestart, signals)
    }

    /** The statics before anything runs: all zero, `shm` unset. */
    constructor()
      ensures Valid()
      ensures ring == null && dmaByteIndex == 0
      ensures SharedState() == Shared(0, false, false, 0)
    {
      ring := null;
      dmaByteIndex := 0;
      availableBytes := 0;
      mixingStarted := false;
      waitingForMixerToRestart := false;
      signals := 0;
    }

    /** `SNDDMA_Init`. `soundEnabled` is false when `-nosound` was given;
        `trackReady` is whether the AudioTrack accepted its configuration.
        With sound enabled the published cursor goes back to 0, and a ready
        track gets a fresh, zeroed ring. */
    method Init(soundEnabled: bool, trackReady: bool) returns (ok: bool)
      requires Valid()
      modifies this
      ensures Valid()
      ensures ok == (soundEnabled && trackReady)
      ensures !soundEnabled ==> unchanged(this)
      ensures soundEnabled ==> dmaByteIndex == 0
      ensures soundEnabled && trackReady ==> ring != null && fresh(ring) && ring[..] == Zeros(TotalBufferSize)
      ensures !(soundEnabled && trackReady) ==> ring == old(ring)
      ensures SharedState() == old(SharedState())
    {
      if !soundEnabled {
        return false;
      }
      dmaByteIndex := 0;
      if trackReady {
        var buffer := new bv8[TotalBufferSize](_ => 0);
        assert buffer[..] == Zeros(TotalBufferSize);
        ring := buffer;
      }
      ok := trackReady;
    }

    /** `SNDDMA_GetDMAPos`: the published cursor in mono samples. */
    function GetDMAPos(): (pos: int)
      reads this
      requires Valid()
      ensures 0 <= pos < Samples
      ensures pos * BytesPerSample <= dmaByteIndex < (pos + 1) * BytesPerSample
    {
      dmaByteIndex / BytesPerSample
    }

    /** `SNDDMA_ReportWrite`: under the mutex, mark mixing as started, signal
        the waiting callback if nothing was available, and add the bytes. */
    method ReportWrite(lengthBytes: nat)
      requires Valid()
      modifies this
      ensures Valid()
      ensures mixingStarted
      ensures availableBytes == old(availableBytes) + lengthBytes
      ensures signals == if old(availableBytes) == 0 then old(signals) + 1 else old(signals)
      ensures waitingForMixerToRestart == old(waitingForMixerToRestart)
      ensures SharedState() == ReportOne(old(SharedState()), lengthBytes)
      ensures ring == old(ring) && dmaByteIndex == old(dmaByteIndex)
    {
      mixingStarted := true;
      if availableBytes == 0 {
        signals := signals + 1;
      }
      availableBytes := availableBytes + lengthBytes;
    }

    /** `shouldMixSilence`, called with the mutex held: the decision and the
        new shared state are those of `Decide`, and the rounds it used up
        are gone from the environment. */
    method ShouldMixSilence(env: Environment) returns (silence: bool)
      requires Valid() && env.Valid()
      modifies this, env
      ensures Valid() && env.Valid()
      ensures var d := Decide(old(SharedState()), old(env.script));
              && silence == d.silence
              && SharedState() == d.shared
              && env.script == d.rounds
      ensures !silence ==> availableBytes > 0
      ensures ring == old(ring) && dmaByteIndex == old(dmaByteIndex)
    {
      if !mixingStarted {
        return true;
      }
      while availableBytes == 0
        invariant Valid() && env.Valid() && mixingStarted
        invariant Decide(old(SharedState()), old(env.script)) == Decide(SharedState(), env.script)
        invariant ring == old(ring) && dmaByteIndex == old(dmaByteIndex)
        decreases |env.script|
      {
        if waitingForMixerToRestart {
          return true;
        }
        var tp := env.GetTimeOfDay();
        if tp.None? {
          return true;
        }
        var ts := DeadlineAfter(tp.value);
        var timedOut := env.TimedWait(this, ts);
        if timedOut {
          waitingForMixerToRestart := true;
          return true;
        }
      }
      waitingForMixerToRestart := false;
      return false;
    }

    /** One pass of the callback's copy loop, with `pos` bytes of `dest`
        written (`pDestBuffer`), `size` still wanted, the loop's read cursor
        at `dmaIndex`, and shared state `s` and rounds `rs` before the pass:
        decide under the mutex, then either fill the rest of `dest` with
        silence, or take a chunk off the available bytes, copy it from the
        ring, and advance the offset, the wanted size and the read cursor,
        which wraps at the end of the ring. */
    method Pass(dest: array<bv8>, pos: nat, size: nat, src: array<bv8>, ghost R: seq<bv8>, dmaIndex: nat,
                env: Environment, ghost s: Shared, ghost rs: Rounds)
      returns (silence: bool, pos': nat, size': nat, dmaIndex': nat, ghost s': Shared, ghost rs': Rounds)
      requires Valid() && env.Valid() && ring == src && dest != src && src[..] == R
      requires SharedState() == s && env.script == rs
      requires pos + size == dest.Length && 0 < size && dmaIndex < TotalBufferSize
      modifies this, env, dest
      ensures Valid() && env.Valid() && ring == old(ring) && dmaByteIndex == old(dmaByteIndex) && src[..] == R
      ensures SharedState() == s' && env.script == rs'
      ensures var d := Decide(s, rs);
              && silence == d.silence && rs' == d.rounds
              && (silence ==>
                    && s' == d.shared && dest[..] == old(dest[..pos]) + Zeros(size)
                    && pos' == pos && size' == size && dmaIndex' == dmaIndex)
              && (!silence ==>
                    var chunk := ChunkSize(d.shared.available, dmaIndex, size);
                    && s' == d.shared.(available := d.shared.available - chunk)
                    && pos' == pos + chunk && size' == size - chunk && dmaIndex' == Advance(dmaIndex, chunk)
                    && dest[..pos'] == old(dest[..pos]) + R[dmaIndex..dmaIndex + chunk]
                    && dest[pos'..] == old(dest[pos'..]))
    {
      ghost var pre := dest[..pos];
      silence := ShouldMixSilence(env);
      s', rs' := SharedState(), env.script;
      if silence {
        ZeroBytes(dest, pos);
        return true, pos, size, dmaIndex, s', rs';
      }
      var chunk := Min(availableBytes, Min(TotalBufferSize - dmaIndex, size));
      availableBytes := availableBytes - chunk;
      s' := SharedState();
      CopyBytes(dest, pos, src, dmaIndex, chunk);
      assert dest[..pos + chunk] == pre + R[dmaIndex..dmaIndex + chunk];
      size' := size - chunk;
      pos' := pos + chunk;
      dmaIndex' := dmaIndex + chunk;
      if dmaIndex' >= TotalBufferSize {
        dmaIndex' := 0;
      }
    }

    /** The `NORMAL_SOUND` `AndroidQuakeSoundCallback`, filling `dest`
        (`buffer->raw`, of `buffer->size` bytes). A request it ignores
        changes nothing, and without a ring the destination is silence;
        otherwise it is `Fill`. */
    method Callback(event: TrackEvent, dest: array<bv8>, env: Environment)
      requires Valid() && env.Valid() && dest != ring
      modifies this, env, dest
      ensures Valid() && env.Valid()
      ensures ring == old(ring)
      ensures event != MoreData || dest.Length == 0 ==> unchanged(this, env, dest)
      ensures event == MoreData && dest.Length > 0 && ring == null ==>
                dest[..] == Zeros(dest.Length) && unchanged(this, env)
      ensures event == MoreData && dest.Length > 0 && ring != null ==>
                var r := Drain(old(ring[..]), old(dmaByteIndex), dest.Length, old(SharedState()), old(env.script));
                && dest[..] == r.out
                && SharedState() == r.shared
                && env.script == r.rounds
                && dmaByteIndex == (if r.aborted then old(dmaByteIndex) else r.cursor)
    {
      if event != MoreData {
        return;
      }
      if dest.Length == 0 {
        return;
      }
      if ring == null {
        ZeroBytes(dest, 0);
        return;
      }
      Fill(dest, env);
    }

    /** The callback from the copy loop on: the destination, the shared
        state and the rounds used are those of `Drain` from the published
        cursor; the published cursor moves to the loop's cursor only when
        the loop runs to its end, and stays put when a silence decision
        cuts it short. */
    method Fill(dest: array<bv8>, env: Environment)
      requires Valid() && env.Valid() && ring != null && dest != ring
      modifies this, env, dest
      ensures Valid() && env.Valid()
      ensures ring == old(ring)
      ensures var r := Drain(ring[..], old(dmaByteIndex), dest.Length, old(SharedState()), old(env.script));
              && dest[..] == r.out
              && SharedState() == r.shared
              && env.script == r.rounds
              && dmaByteIndex == (if r.aborted then old(dmaByteIndex) else r.cursor)
    {
      ghost var R := ring[..];
      var aborted, dmaIndex := CopyLoop(dest, ring, R, dmaByteIndex, env, SharedState(), env.script);
      if !aborted {
        dmaByteIndex := dmaIndex;
      }
    }

    /** The `while (size > 0)` loop of the callback, reading `src` (whose
        contents are `R`) from cursor `start`, with shared state `s` and
        rounds `rs` before it: the destination, the shared state and the
        rounds used are those of `Drain`, and so are whether a silence
        decision cut the loop short and the loop's final cursor. */
    method CopyLoop(dest: array<bv8>, src: array<bv8>, ghost R: seq<bv8>, start: nat, env: Environment,
                    ghost s: Shared, ghost rs: Rounds)
      returns (aborted: bool, dmaIndex: nat)
      requires Valid() && env.Valid() && ring == src && dest != src && src[..] == R
      requires SharedState() == s && env.script == rs && start < TotalBufferSize
      modifies this, env, dest
      ensures Valid() && env.Valid() && ring == old(ring) && dmaByteIndex == old(dmaByteIndex) && src[..] == R
      ensures var r := Drain(R, start, dest.Length, s, rs);
              && dest[..] == r.out && SharedState() == r.shared && env.script == r.rounds
              && aborted == r.aborted && dmaIndex == r.cursor
    {
      var size: nat := dest.Length;
      var pos: nat := 0;
      dmaIndex := start;
      ghost var s', rs' := s, rs;
      ghost var whole := Drain(R, start, size, s, rs);
      assert whole == Prepend(dest[..0], whole);
      while size > 0
        invariant pos + size == dest.Length && dmaIndex < TotalBufferSize
        invariant Valid() && env.Valid()
        invariant ring == src && src[..] == R && dmaByteIndex == old(dmaByteIndex)
        invariant SharedState() == s' && env.script == rs'
        invariant whole == Prepend(dest[..pos], Drain(R, dmaIndex, size, s', rs'))
        decreases size
      {
        var cursor := dmaIndex;
        ghost var pre, wanted, s0, rs0 := dest[..pos], size, s', rs';
        var silence;
        silence, pos, size, dmaIndex, s', rs' := Pass(dest, pos, size, src, R, dmaIndex, env, s', rs');
        if silence {
          SilentPassEnds(R, cursor, wanted, s0, rs0, pre, whole);
          return true, cursor;
        }
        CopyingPassContinues(R, cursor, wanted, s0, rs0, pre, whole);
      }
      assert dest[..pos] == dest[..];
      aborted := false;
    }
  }

  /** Everything outside the back end that the callback meets while it
      waits: the wall clock, read by `gettimeofday`, and the rounds that
      decide how each timed wait on `condition_cond` ends. */
  class Environment {
    const now: TimeVal
    var script: Rounds

    ghost predicate Valid()
      reads this
    {
      ValidTimeVal(now)
    }

    constructor(clock: TimeVal, rounds: Rounds)
      requires ValidTimeVal(clock)
      ensures Valid() && now == clock && script == rounds
    {
      now := clock;
      script := rounds;
    }

    /** `gettimeofday`: fails when the next round says so, and otherwise
        reads the clock without using up a round. */
    method GetTimeOfDay() returns (tp: Option<TimeVal>)
      modifies this
      ensures old(script) != [] && old(script)[0].ClockFails? ==> tp.None? && script == old(script)[1..]
      ensures !(old(script) != [] && old(script)[0].ClockFails?) ==> tp == Some(now) && script == old(script)
    {
      if script != [] && script[0].ClockFails? {
        script := script[1..];
        return None;
      }
      return Some(now);
    }

    /** `pthread_cond_timedwait` up to `deadline`: the next round's writes
        are reported by the mixer through `snd` while the waiter is off the
        mutex; the wait returns without timing out after a wake-up round,
        and reaches the deadline after any other round and once the rounds
        have run out. */
    method TimedWait(snd: SoundDevice, deadline: TimeSpec) returns (timedOut: bool)
      requires ValidTimeSpec(deadline) && snd.Valid()
      modifies this, snd
      ensures snd.Valid()
      ensures timedOut == (old(script) == [] || !old(script)[0].WaitWakes?)
      ensures script == if old(script) == [] then [] else old(script)[1..]
      ensures snd.SharedState() == if old(script) == [] || old(script)[0].ClockFails? then old(snd.SharedState())
                                   else ReportAll(old(snd.SharedState()), old(script)[0].writes)
      ensures snd.ring == old(snd.ring) && snd.dmaByteIndex == old(snd.dmaByteIndex)
    {
      if script == [] || script[0].ClockFails? {
        script := if script == [] then [] else script[1..];
        return true;
      }
      var round := script[0];
      var writes := round.writes;
      script := script[1..];
      var i := 0;
      while i < |writes|
        invariant 0 <= i <= |writes|
        invariant snd.Valid() && script == old(script)[1..]
        invariant ReportAll(old(snd.SharedState()), writes) == ReportAll(snd.SharedState(), writes[i..])
        invariant snd.ring == old(snd.ring) && snd.dmaByteIndex == old(snd.dmaByteIndex)
      {
        assert writes[i..][1..] == writes[i + 1..];
        snd.ReportWrite(writes[i]);
        i := i + 1;
      }
      return !round.WaitWakes?;
    }
  }
}
