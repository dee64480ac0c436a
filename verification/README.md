# Android sound back end of Quake, modelled in Dafny

The Android port of Quake feeds its software mixer's output to the platform
`AudioTrack` through a 16 KiB ring buffer (`quake/src/WinQuake/snd_android.cpp`).
The mixer thread writes samples into the ring and reports each write with
`SNDDMA_ReportWrite`. An audio callback running on a real-time thread drains the
ring into the buffers the `AudioTrack` asks for, in chunks that stop at the
ring's wrap point. When nothing is available the callback waits up to 40 ms on
a condition variable. After a timeout it emits silence and sets a one-shot
latch, so later callbacks stay silent without waiting until the mixer reports
again. The mixer learns how far playback has got from `SNDDMA_GetDMAPos`, which
converts the published read cursor from bytes to samples.

The model has five modules:

- `RingIndex` (`ring_index.dfy`): the constants and the `size_t` helpers `min`,
  `mod`, `next` and `prev`, with `size_t` taken as 32 bits.
- `Deadline` (`deadline.dfy`): the wait deadline, 40 ms after a `gettimeofday`
  reading, normalised into seconds and nanoseconds.
- `SilencePolicy` (`silence_policy.dfy`): the fields guarded by the mutex as a
  value `Shared`, the write report as `ReportOne` and `ReportAll`, and
  `shouldMixSilence` as the function `Decide`.
  - What happens while the callback waits is a sequence of `Round`s: the clock
    fails, the wait times out, or the wait wakes up. The mixer may report
    writes during a wait that wakes up and during one that times out; in the
    latter case the reports land after the deadline but before the waiter gets
    the mutex back.
  - Once the rounds run out, every further wait times out.
- `Callback` (`callback.dfy`): the callback's copy loop as the function
  `Drain`, and the lemmas about it:
  - the chunk bounds;
  - the ring read with wrap-around;
  - conservation of bytes;
  - warm-up silence;
  - the starvation latch;
  - the worked example of a wrap followed by starvation.
- `AndroidSound` (`sound_device.dfy`): the imperative model.
  - The class `SoundDevice` holds the globals `shm->buffer` (an array of
    bytes), `gDMAByteIndex`, `gAvailableBytes`, `gSoundMixingStarted`,
    `gWaitingForMixerToRestart` and a count of signals.
  - Its methods are `SNDDMA_Init`, `SNDDMA_ReportWrite`, `shouldMixSilence`
    and the `NORMAL_SOUND` callback; `SNDDMA_GetDMAPos` is a function. The callback has a loop
    that writes a destination array.
  - The class `Environment` stands for the wall clock and the condition
    variable. Its `TimedWait` plays the mixer's reports by calling
    `SoundDevice.ReportWrite`.
  - Each method is proved against the functions above. `ShouldMixSilence`
    agrees with `Decide`, and the callback with `Drain`.

Each region the source runs with `condition_mutex` held is one step of the model.

## Model

| member | source | states |
|---|---|---|
| RingIndex.Min | quake/src/WinQuake/snd_android.cpp:54-56 | the result is one of the two arguments and is at most either |
| RingIndex.Mod | quake/src/WinQuake/snd_android.cpp:58-60 | for a non-zero modulus the result lies below the modulus |
| RingIndex.Next | quake/src/WinQuake/snd_android.cpp:62-68 | the successor is `value + 1` while that stays below the bound, else 0; an index inside the space stays inside |
| RingIndex.Prev | quake/src/WinQuake/snd_android.cpp:70-75 | the predecessor is `value - 1` above 0 and `m - 1` at 0; an index inside the space stays inside |
| RingIndex.NextPrevInverse | quake/src/WinQuake/snd_android.cpp:62-75 | inside the index space `next` and `prev` undo each other, in both orders |
| RingIndex.PrevOfEmptySpaceWraps | quake/src/WinQuake/snd_android.cpp:70-75 | `prev(0, 0)` wraps to the largest 32-bit `size_t` |
| Deadline.DeadlineAfter | quake/src/WinQuake/snd_android.cpp:165-173 | the deadline is the reading plus exactly 40 ms; for a valid reading the nanoseconds lie in [0, 1e9); the seconds grow by at most one carry |
| Deadline.NanosecondSumFitsLong | quake/src/WinQuake/snd_android.cpp:165-169 | for a valid reading the unnormalised nanosecond sum fits a 32-bit `long` |
| SilencePolicy.ReportAll | quake/src/WinQuake/snd_android.cpp:318-326 | a run of write reports adds their total to the available bytes, sets the started flag iff there was a report, keeps the latch, and signals when there was nothing available |
| SilencePolicy.ReportOne | quake/src/WinQuake/snd_android.cpp:318-326 | one write report adds exactly its bytes to the available count, sets the started flag, keeps the latch, and signals iff nothing was available |
| SilencePolicy.Decide | quake/src/WinQuake/snd_android.cpp:153-181 | a decision to mix implies bytes are available |
| SilencePolicy.DecideWithoutWaiting | quake/src/WinQuake/snd_android.cpp:153-160 | before mixing starts: silence with nothing changed. Latch set and nothing available: silence with no wait. Bytes available: mix and clear the latch |
| SilencePolicy.DecideOnTimeoutOrClockFailure | quake/src/WinQuake/snd_android.cpp:161-177 | a timed-out wait applies the reports made before the waiter got the mutex back, sets the latch and decides silence; a failing clock decides silence with the latch left clear |
| SilencePolicy.DecideLatch | quake/src/WinQuake/snd_android.cpp:157-180 | a set latch implies silence. A set latch stays set through silence. Silence after the start means nothing is available or the latch is set. A latch newly set means a wait timed out, and that was the last round used |
| SilencePolicy.DecideConserves | quake/src/WinQuake/snd_android.cpp:157-178 | available bytes plus those reported in the rounds used are conserved; the rounds left are a suffix; the started flag is kept and signals never decrease |
| SilencePolicy.TimeoutDespiteReport | quake/src/WinQuake/snd_android.cpp:174-177 | a wait that times out after the mixer reported bytes still sets the latch and decides silence, with those bytes left available |
| SilencePolicy.WakeUpsWithoutDataWaitAgain | quake/src/WinQuake/snd_android.cpp:157-178 | any number of wake-ups that bring no bytes (spurious ones, or a report of 0 bytes) leave the decision to the rounds after them: each starts a new wait with a fresh deadline |
| SilencePolicy.ReportClearsLatch | quake/src/WinQuake/snd_android.cpp:318-326 | a report signals exactly when nothing was available, and after a non-empty report the next decision mixes at once, clears the latch and does not wait |
| Callback.ChunkSize | quake/src/WinQuake/snd_android.cpp:211 | a chunk is bounded by the available bytes, the room before the wrap point and the bytes still wanted; it equals one of them and is positive when bytes are available and wanted |
| Callback.Advance | quake/src/WinQuake/snd_android.cpp:219-222 | the cursor after a chunk stays inside the ring and equals the old cursor plus the chunk, modulo the ring's capacity |
| Callback.Drain | quake/src/WinQuake/snd_android.cpp:202-223 | the loop writes every requested byte; copies at most the request; copies all of it unless cut short by silence; keeps the cursor inside the ring |
| Callback.DrainReadsRing | quake/src/WinQuake/snd_android.cpp:211-222 | destination byte i is ring byte (cursor + i) mod capacity for every copied byte, and zero after; the cursor moves on by exactly the bytes copied |
| Callback.DrainConserves | quake/src/WinQuake/snd_android.cpp:202-223 | available bytes plus bytes reported during the call equal available bytes after plus bytes copied |
| Callback.WarmUpIsSilent | quake/src/WinQuake/snd_android.cpp:153-156 | before the first write report every request is all zeros and changes nothing |
| Callback.CompletedDrainAdvancesCursor | quake/src/WinQuake/snd_android.cpp:216-225 | a request that runs to its end is the ring read from the cursor, wrapping, and leaves the cursor `size` bytes on, modulo the capacity |
| Callback.DrainAbortsOnlyWhenStarved | quake/src/WinQuake/snd_android.cpp:205-209 | silence cuts a request short only before mixing starts, with nothing available, or just after a wait timed out and set the latch |
| Callback.WrapThenStarve | quake/src/WinQuake/snd_android.cpp:202-223 | cursor 16000, 1000 bytes available, 2000 wanted and no mixer activity: 384 bytes to the ring's end, 616 from its start, then 1000 zeros with the latch set and the loop's cursor at 616 |
| Callback.StarvationLatch | quake/src/WinQuake/snd_android.cpp:157-177 | a starved request waits, times out with no report, sets the latch and is silent; the next is silent without waiting; after a write report the next starts with real ring data |
| AndroidSound.CopyBytes | quake/src/WinQuake/snd_android.cpp:216 | `memcpy` replaces exactly the chunk of the destination with the source bytes and keeps the rest |
| AndroidSound.ZeroBytes | quake/src/WinQuake/snd_android.cpp:206 | `memset` zeroes the destination from the offset to its end and keeps the bytes before |
| AndroidSound.SoundDevice.constructor | quake/src/WinQuake/snd_android.cpp:23-28 | the statics start at zero with no ring attached |
| AndroidSound.SoundDevice.Init | quake/src/WinQuake/snd_android.cpp:231-291 | with `-nosound` nothing changes and the result is false. Otherwise the published cursor is reset to 0, and a ready track gets a fresh zeroed ring. The shared fields are not reset. The result is success iff both hold |
| AndroidSound.SoundDevice.GetDMAPos | quake/src/WinQuake/snd_android.cpp:303-308 | the position is the cursor in whole samples and lies in [0, shm->samples) |
| AndroidSound.SoundDevice.ReportWrite | quake/src/WinQuake/snd_android.cpp:318-326 | sets the started flag, adds exactly the reported bytes, signals iff nothing was available, keeps the latch, the ring and the cursor |
| AndroidSound.SoundDevice.ShouldMixSilence | quake/src/WinQuake/snd_android.cpp:153-181 | the decision, the new shared state and the rounds used up are those of `Decide`; mixing implies bytes are available |
| AndroidSound.SoundDevice.Pass | quake/src/WinQuake/snd_android.cpp:203-222 | one loop pass: silence zero-fills the rest of the destination and leaves the offset, the wanted size and the cursor as they were; otherwise a chunk of the bounded size is copied from the ring at the cursor, the destination bytes after it are kept, the chunk is taken off the available bytes, and the cursor advances with wrap |
| AndroidSound.SoundDevice.Callback | quake/src/WinQuake/snd_android.cpp:184-198 | ignored events and empty requests change nothing; without a ring the destination is all zeros; otherwise the outcome is `Drain`'s and the cursor is published only when the loop runs to its end |
| AndroidSound.SoundDevice.CopyLoop | quake/src/WinQuake/snd_android.cpp:202-223 | the `while (size > 0)` loop on the arrays: the destination, the shared state, the rounds used, whether silence cut it short and the loop's final cursor are all `Drain`'s, and the ring and the published cursor are untouched |
| AndroidSound.SoundDevice.Fill | quake/src/WinQuake/snd_android.cpp:200-226 | the destination, the shared state and the rounds used are `Drain`'s; the cursor is published when the loop ends and left alone when silence cuts it short |
| AndroidSound.Environment.GetTimeOfDay | quake/src/WinQuake/snd_android.cpp:161-164 | the clock read fails exactly when the next round says so, using up that round |
| AndroidSound.Environment.TimedWait | quake/src/WinQuake/snd_android.cpp:174-177 | the wait times out unless the next round is a wake-up. Both a wake-up and a timeout apply that round's write reports to the device. The round, if one is left, is used up |

## Left out

- The pthread mutex and condition variable are not modelled as such.
  - Each locked region is one atomic step.
  - The mixer acts during a callback only while the callback waits, through the rounds of the `Environment`.
  - Other interleavings are separate calls on the device.
- The `asm volatile` memory fences have no sequential meaning and are not modelled.
- SilencePolicy.Decide: the wait loop ends, and a callback's latency is bounded, only because the rounds are finite and a wait after them times out. In the source the 40 ms bound holds for each wait, not for each callback. Every wake-up that leaves nothing available starts another wait with a fresh deadline (lines 157-173). Such wake-ups include spurious ones and `SNDDMA_ReportWrite(0)`, which signals while the count is 0. An endless run of them keeps the callback waiting; `WakeUpsWithoutDataWaitAgain` states the per-wait behaviour. The same holds for `AndroidSound.SoundDevice.ShouldMixSilence`, whose loop decreases the number of rounds left.
- Time does not pass in the model. The clock reading is fixed, and the computed deadline is handed to the wait, but the round alone decides whether the wait times out.
- The `GENERATE_SINE_WAVE` callback and `sinef` are left out. They are floating-point code compiled out by `NORMAL_SOUND`.
- Most of `SNDDMA_Init` is left out: the `AudioTrack` set-up, logging, and the `shm` fields other than the buffer.
  - `-nosound` and the `AudioTrack` status are parameters.
  - A failing `Hunk_AllocName`, which leaves `shm` set with a null buffer, is not modelled.
  - The `samples & 0x1ff` check always passes for 8192 samples, so it is not modelled.
- `SNDDMA_Init` resets only the published cursor, not the shared counter and flags.
- `SNDDMA_Submit` (empty) and `SNDDMA_Shutdown` (stops the `AudioTrack`) are not modelled.
- The mixer's writes into the ring's bytes happen outside this file and are not modelled. During a callback the ring's contents are fixed.
- `src/com/android/quake/QuakeActivity.java` is not part of this model.
- AndroidSound.SoundDevice.ReportWrite: `gAvailableBytes` is a `nat`, so the `size_t` wrap-around of a sum beyond 2^32 - 1 is not modelled.
- Deadline.DeadlineAfter: the seconds are unbounded, so the overflow of `tv_sec + 1` at the end of `time_t` is not modelled.
- RingIndex.Mod: states only that the result lies below the modulus. `mod` is used only by the sine-wave callback.
- AndroidSound.SoundDevice.Callback: the source takes a cursor copy at the top and writes `gDMAByteIndex` once at the end. Because the model is sequential, it gives no guarantee about a concurrent reader seeing a stale cursor.
