/** The `NORMAL_SOUND` audio callback as a function: how one request for
    `size` bytes is answered from the ring, chunk by chunk, and what it
    leaves behind in the shared state and the published read cursor. */
module Callback {
  import opened RingIndex
  import opened SilencePolicy

  /** `n` bytes of silence. */
  function Zeros(n: nat): (z: seq<bv8>)
    ensures |z| == n
  {
    seq(n, _ => 0)
  }

  /** The bytes one pass of the copy loop takes: as many as are available,
      fit before the wrap point, and are still wanted. */
  function ChunkSize(available: nat, cursor: nat, size: nat): (c: nat)
    requires cursor < TotalBufferSize
    ensures c <= available && c <= TotalBufferSize - cursor && c <= size
    ensures c == available || c == TotalBufferSize - cursor || c == size
    ensures available > 0 && size > 0 ==> c > 0
  {
    Min(available, Min(TotalBufferSize - cursor, size))
  }

  /** The read cursor after `chunk` bytes were read at `cursor`: it wraps to
      0 exactly when it reaches the end of the ring. */
  function Advance(cursor: nat, chunk: nat): (c: nat)
    requires cursor + chunk <= TotalBufferSize
    ensures c < TotalBufferSize
    ensures c == (cursor + chunk) % TotalBufferSize
  {
    if cursor + chunk >= TotalBufferSize then 0 else cursor + chunk
  }

  /** What the copy loop produces: the destination bytes, how many of them
      were copied from the ring, the loop's read cursor, whether it stopped
      on a silence decision, and the shared state and rounds it leaves. */
  datatype Drained = Drained(out: seq<bv8>, copied: nat, cursor: nat, aborted: bool, shared: Shared, rounds: Rounds)

  function Prepend(pre: seq<bv8>, r: Drained): Drained {
    r.(out := pre + r.out, copied := |pre| + r.copied)
  }

  /** The `while (size > 0)` loop of the callback, from read cursor `cursor`. */
  function Drain(ring: seq<bv8>, cursor: nat, size: nat, s: Shared, rs: Rounds): (r: Drained)
    requires |ring| == TotalBufferSize && cursor < TotalBufferSize
    ensures |r.out| == size
    ensures r.copied <= size
    ensures !r.aborted ==> r.copied == size
    ensures r.cursor < TotalBufferSize
    decreases size
  {
    if size == 0 then Drained([], 0, cursor, false, s, rs)
    else
      var d := Decide(s, rs);
      if d.silence then Drained(Zeros(size), 0, cursor, true, d.shared, d.rounds)
      else
        var chunk := ChunkSize(d.shared.available, cursor, size);
        Prepend(ring[cursor..cursor + chunk],
                Drain(ring, Advance(cursor, chunk), size - chunk,
                      d.shared.(available := d.shared.available - chunk), d.rounds))
  }

  /** Unfolds one silent pass of the loop. */
  lemma DrainSilent(ring: seq<bv8>, cursor: nat, size: nat, s: Shared, rs: Rounds)
    requires |ring| == TotalBufferSize && cursor < TotalBufferSize
    requires size > 0 && Decide(s, rs).silence
    ensures Drain(ring, cursor, size, s, rs)
            == Drained(Zeros(size), 0, cursor, true, Decide(s, rs).shared, Decide(s, rs).rounds)
  {
  }

  /** Unfolds one copying pass of the loop. */
  lemma DrainCopies(ring: seq<bv8>, cursor: nat, size: nat, s: Shared, rs: Rounds)
    requires |ring| == TotalBufferSize && cursor < TotalBufferSize
    requires size > 0 && !Decide(s, rs).silence
    ensures var d := Decide(s, rs);
            var chunk := ChunkSize(d.shared.available, cursor, size);
            Drain(ring, cursor, size, s, rs)
            == Prepend(ring[cursor..cursor + chunk],
                       Drain(ring, Advance(cursor, chunk), size - chunk,
                             d.shared.(available := d.shared.available - chunk), d.rounds))
  {
    var d := Decide(s, rs);
    var chunk := ChunkSize(d.shared.available, cursor, size);
    assert Drain(ring, cursor, size, s, rs)
           == Prepend(ring[cursor..cursor + chunk],
                      Drain(ring, Advance(cursor, chunk), size - chunk,
                            d.shared.(available := d.shared.available - chunk), d.rounds));
  }

  /** The loop's outcome `whole`, with `pre` written and `wanted` bytes
      still to go, after a silent pass: `pre` followed by silence. */
  lemma SilentPassEnds(ring: seq<bv8>, cursor: nat, wanted: nat, s: Shared, rs: Rounds, pre: seq<bv8>, whole: Drained)
    requires |ring| == TotalBufferSize && cursor < TotalBufferSize
    requires wanted > 0 && Decide(s, rs).silence
    requires whole == Prepend(pre, Drain(ring, cursor, wanted, s, rs))
    ensures whole == Drained(pre + Zeros(wanted), |pre|, cursor, true, Decide(s, rs).shared, Decide(s, rs).rounds)
  {
    DrainSilent(ring, cursor, wanted, s, rs);
  }

  /** The loop's outcome `whole`, with `pre` written and `wanted` bytes
      still to go, after a copying pass: `pre` and the chunk, followed by
      the rest of the loop from the advanced cursor. */
  lemma CopyingPassContinues(ring: seq<bv8>, cursor: nat, wanted: nat, s: Shared, rs: Rounds, pre: seq<bv8>, whole: Drained)
    requires |ring| == TotalBufferSize && cursor < TotalBufferSize
    requires wanted > 0 && !Decide(s, rs).silence
    requires whole == Prepend(pre, Drain(ring, cursor, wanted, s, rs))
    ensures var d := Decide(s, rs);
            var chunk := ChunkSize(d.shared.available, cursor, wanted);
            whole == Prepend(pre + ring[cursor..cursor + chunk],
                             Drain(ring, Advance(cursor, chunk), wanted - chunk,
                                   d.shared.(available := d.shared.available - chunk), d.rounds))
  {
    var d := Decide(s, rs);
    var chunk := ChunkSize(d.shared.available, cursor, wanted);
    DrainCopies(ring, cursor, wanted, s, rs);
    PrependTwice(pre, ring[cursor..cursor + chunk],
                 Drain(ring, Advance(cursor, chunk), wanted - chunk,
                       d.shared.(available := d.shared.available - chunk), d.rounds));
  }

  /** Two prefixes in a row are one. */
  lemma PrependTwice(a: seq<bv8>, b: seq<bv8>, r: Drained)
    ensures Prepend(a, Prepend(b, r)) == Prepend(a + b, r)
  {
    assert a + (b + r.out) == (a + b) + r.out;
  }

  lemma WrapShift(cursor: nat, chunk: nat, j: nat)
    requires cursor + chunk <= TotalBufferSize
    ensures (Advance(cursor, chunk) + j) % TotalBufferSize == (cursor + chunk + j) % TotalBufferSize
  {
    if cursor + chunk == TotalBufferSize {
      assert (cursor + chunk + j) % TotalBufferSize == (TotalBufferSize + j) % TotalBufferSize;
    }
  }

  /** `n` consecutive ring bytes from `cursor` on, wrapping at the end. */
  function RingRead(ring: seq<bv8>, cursor: nat, n: nat): (r: seq<bv8>)
    requires |ring| == TotalBufferSize
    ensures |r| == n
    ensures forall i :: 0 <= i < n ==> r[i] == ring[(cursor + i) % TotalBufferSize]
  {
    seq(n, i => ring[(cursor + i) % TotalBufferSize])
  }

  /** A chunk read before the wrap point followed by a ring read from where
      the chunk ends is one ring read from the chunk's start. */
  lemma ChunkThenRingRead(ring: seq<bv8>, cursor: nat, chunk: nat, k: nat)
    requires |ring| == TotalBufferSize && cursor + chunk <= TotalBufferSize
    ensures ring[cursor..cursor + chunk] + RingRead(ring, Advance(cursor, chunk), k)
            == RingRead(ring, cursor, chunk + k)
  {
    var a := ring[cursor..cursor + chunk];
    var b := RingRead(ring, Advance(cursor, chunk), k);
    var whole := RingRead(ring, cursor, chunk + k);
    forall i | 0 <= i < chunk + k
      ensures (a + b)[i] == whole[i]
    {
      if i < chunk {
        assert (cursor + i) % TotalBufferSize == cursor + i;
      } else {
        WrapShift(cursor, chunk, i - chunk);
      }
    }
  }

  lemma PrependRingRead(ring: seq<bv8>, cursor: nat, chunk: nat, k: nat, m: nat)
    requires |ring| == TotalBufferSize && cursor + chunk <= TotalBufferSize
    ensures ring[cursor..cursor + chunk] + (RingRead(ring, Advance(cursor, chunk), k) + Zeros(m))
            == RingRead(ring, cursor, chunk + k) + Zeros(m)
  {
    var a := ring[cursor..cursor + chunk];
    var b := RingRead(ring, Advance(cursor, chunk), k);
    ChunkThenRingRead(ring, cursor, chunk, k);
    assert a + (b + Zeros(m)) == (a + b) + Zeros(m);
  }

  /** A pass over `size` requested bytes that reads the ring from `cursor`:
      consecutive ring bytes, wrapping at the end of the ring, then silence
      for the bytes not copied, with the cursor moved on by exactly the
      bytes copied. */
  ghost predicate ReadsRing(ring: seq<bv8>, cursor: nat, size: nat, r: Drained)
    requires |ring| == TotalBufferSize
  {
    && r.copied <= size
    && r.out == RingRead(ring, cursor, r.copied) + Zeros(size - r.copied)
    && r.cursor == (cursor + r.copied) % TotalBufferSize
  }

  /** An outcome that copied nothing, wrote only silence and left the
      cursor where it was reads the ring (trivially). */
  lemma SilenceReadsRing(ring: seq<bv8>, cursor: nat, size: nat, r: Drained)
    requires |ring| == TotalBufferSize && cursor < TotalBufferSize
    requires r.copied == 0 && r.out == Zeros(size) && r.cursor == cursor
    ensures ReadsRing(ring, cursor, size, r)
  {
    assert RingRead(ring, cursor, 0) + Zeros(size) == Zeros(size);
  }

  /** One chunk read at `cursor` in front of a pass that reads the ring from
      where the chunk ends is a pass that reads the ring from `cursor`. */
  lemma PrependReadsRing(ring: seq<bv8>, cursor: nat, chunk: nat, size: nat, rest: Drained)
    requires |ring| == TotalBufferSize && cursor + chunk <= TotalBufferSize && chunk <= size
    requires ReadsRing(ring, Advance(cursor, chunk), size - chunk, rest)
    ensures ReadsRing(ring, cursor, size, Prepend(ring[cursor..cursor + chunk], rest))
  {
    PrependRingRead(ring, cursor, chunk, rest.copied, size - chunk - rest.copied);
    WrapShift(cursor, chunk, rest.copied);
  }

  /** Every request is answered by copying consecutive ring bytes from the
      cursor on, wrapping at the end of the ring, followed by silence for
      the bytes not copied; the loop's cursor moves on by exactly the bytes
      copied. */
  lemma {:induction false} DrainReadsRing(ring: seq<bv8>, cursor: nat, size: nat, s: Shared, rs: Rounds)
    requires |ring| == TotalBufferSize && cursor < TotalBufferSize
    ensures ReadsRing(ring, cursor, size, Drain(ring, cursor, size, s, rs))
    decreases size
  {
    if size == 0 {
      assert Zeros(0) == [];
      SilenceReadsRing(ring, cursor, 0, Drain(ring, cursor, size, s, rs));
    } else if Decide(s, rs).silence {
      DrainSilent(ring, cursor, size, s, rs);
      SilenceReadsRing(ring, cursor, size, Drain(ring, cursor, size, s, rs));
    } else {
      var d := Decide(s, rs);
      var chunk := ChunkSize(d.shared.available, cursor, size);
      DrainReadsRing(ring, Advance(cursor, chunk), size - chunk,
                     d.shared.(available := d.shared.available - chunk), d.rounds);
      CopyingPassReadsRing(ring, cursor, size, s, rs);
    }
  }

  /** A copying pass in front of a rest of the loop that reads the ring is
      a loop that reads the ring. */
  lemma CopyingPassReadsRing(ring: seq<bv8>, cursor: nat, size: nat, s: Shared, rs: Rounds)
    requires |ring| == TotalBufferSize && cursor < TotalBufferSize
    requires size > 0 && !Decide(s, rs).silence
    requires var d := Decide(s, rs);
             var chunk := ChunkSize(d.shared.available, cursor, size);
             ReadsRing(ring, Advance(cursor, chunk), size - chunk,
                       Drain(ring, Advance(cursor, chunk), size - chunk,
                             d.shared.(available := d.shared.available - chunk), d.rounds))
    ensures ReadsRing(ring, cursor, size, Drain(ring, cursor, size, s, rs))
  {
    var d := Decide(s, rs);
    var chunk := ChunkSize(d.shared.available, cursor, size);
    var rest := Drain(ring, Advance(cursor, chunk), size - chunk,
                      d.shared.(available := d.shared.available - chunk), d.rounds);
    DrainCopies(ring, cursor, size, s, rs);
    var whole := Drain(ring, cursor, size, s, rs);
    PrependReadsRing(ring, cursor, chunk, size, rest);
    assert whole == Prepend(ring[cursor..cursor + chunk], rest);
    assert ReadsRing(ring, cursor, size, whole);
  }

  /** Bytes are conserved: what was available plus what the mixer reported
      during the call equals what is left available plus what was copied. */
  lemma {:induction false} DrainConserves(ring: seq<bv8>, cursor: nat, size: nat, s: Shared, rs: Rounds)
    requires |ring| == TotalBufferSize && cursor < TotalBufferSize
    ensures var r := Drain(ring, cursor, size, s, rs);
            s.available + Reported(rs) == r.shared.available + r.copied + Reported(r.rounds)
    decreases size
  {
    if size > 0 && !Decide(s, rs).silence {
      var d := Decide(s, rs);
      var chunk := ChunkSize(d.shared.available, cursor, size);
      DecideConserves(s, rs);
      DrainConserves(ring, Advance(cursor, chunk), size - chunk,
                     d.shared.(available := d.shared.available - chunk), d.rounds);
    } else if size > 0 {
      DecideConserves(s, rs);
    }
  }

  /** Before the first write report every request is answered with silence
      and nothing changes. */
  lemma WarmUpIsSilent(ring: seq<bv8>, cursor: nat, size: nat, s: Shared, rs: Rounds)
    requires |ring| == TotalBufferSize && cursor < TotalBufferSize
    requires !s.mixingStarted && size > 0
    ensures Drain(ring, cursor, size, s, rs) == Drained(Zeros(size), 0, cursor, true, s, rs)
  {
  }

  /** A request that runs to its end copies the ring from the cursor on,
      wrapping at its end, and leaves the cursor `size` bytes further on,
      modulo the ring's capacity. */
  lemma CompletedDrainAdvancesCursor(ring: seq<bv8>, cursor: nat, size: nat, s: Shared, rs: Rounds)
    requires |ring| == TotalBufferSize && cursor < TotalBufferSize
    requires !Drain(ring, cursor, size, s, rs).aborted
    ensures var r := Drain(ring, cursor, size, s, rs);
            && r.out == RingRead(ring, cursor, size)
            && r.cursor == (cursor + size) % TotalBufferSize
  {
    DrainReadsRing(ring, cursor, size, s, rs);
    assert RingRead(ring, cursor, size) + Zeros(0) == RingRead(ring, cursor, size);
  }

  /** Silence cuts a request short only before mixing has started, when no
      bytes are left available, or when a wait has just timed out and set
      the latch (the mixer may have reported bytes before the waiter got the
      mutex back). */
  lemma {:induction false} DrainAbortsOnlyWhenStarved(ring: seq<bv8>, cursor: nat, size: nat, s: Shared, rs: Rounds)
    requires |ring| == TotalBufferSize && cursor < TotalBufferSize
    ensures var r := Drain(ring, cursor, size, s, rs);
            r.aborted ==> !r.shared.mixingStarted || r.shared.available == 0 || r.shared.waitingForRestart
    decreases size
  {
    if size > 0 {
      var d := Decide(s, rs);
      if d.silence {
        DecideLatch(s, rs);
        DecideWithoutWaiting(s, rs);
        DrainSilent(ring, cursor, size, s, rs);
      } else {
        var chunk := ChunkSize(d.shared.available, cursor, size);
        DrainCopies(ring, cursor, size, s, rs);
        DrainAbortsOnlyWhenStarved(ring, Advance(cursor, chunk), size - chunk,
                                   d.shared.(available := d.shared.available - chunk), d.rounds);
      }
    }
  }

  /** A request of 2000 bytes at cursor 16000 with 1000 bytes available and
      no mixer activity during the call: 384 bytes up to the end of the
      ring, 616 from its start, then the wait times out, the latch is set
      and the remaining 1000 bytes are silence, with the loop's cursor at
      616. */
  lemma WrapThenStarve(ring: seq<bv8>)
    requires |ring| == TotalBufferSize
    ensures Drain(ring, 16000, 2000, Shared(1000, true, false, 0), [])
            == Drained(ring[16000..] + ring[..616] + Zeros(1000), 1000, 616, true, Shared(0, true, true, 0), [])
  {
    var s := Shared(1000, true, false, 0);
    DecideWithoutWaiting(s, []);
    assert ChunkSize(1000, 16000, 2000) == 384 && Advance(16000, 384) == 0;
    assert ring[16000..16000 + 384] == ring[16000..];
    DrainCopies(ring, 16000, 2000, s, []);
    var rest := Drain(ring, 0, 1616, Shared(616, true, false, 0), []);
    assert Drain(ring, 16000, 2000, s, []) == Prepend(ring[16000..], rest);
    AfterWrapStarves(ring);
    assert ring[16000..] + (ring[..616] + Zeros(1000)) == ring[16000..] + ring[..616] + Zeros(1000);
  }

  /** The rest of that request once the cursor has wrapped to 0: the 616
      bytes left are copied, and the remaining 1000 are silence. */
  lemma AfterWrapStarves(ring: seq<bv8>)
    requires |ring| == TotalBufferSize
    ensures Drain(ring, 0, 1616, Shared(616, true, false, 0), [])
            == Drained(ring[..616] + Zeros(1000), 616, 616, true, Shared(0, true, true, 0), [])
  {
    var s := Shared(616, true, false, 0);
    DecideWithoutWaiting(s, []);
    DrainCopies(ring, 0, 1616, s, []);
    var starved := Shared(0, true, false, 0);
    DecideOnTimeoutOrClockFailure(starved, []);
    DrainSilent(ring, 616, 1000, starved, []);
  }

  /** Starvation: with mixing started and nothing available, a request
      whose wait times out with no report (or meets no further mixer
      activity) is all
      silence and sets the latch; the next request is all silence too, and
      uses up no round, so it does not wait; after a write report of at
      least one byte the request after that starts with real ring data. */
  lemma StarvationLatch(ring: seq<bv8>, cursor: nat, size: nat, s: Shared, rs: Rounds, n: nat)
    requires |ring| == TotalBufferSize && cursor < TotalBufferSize
    requires s.mixingStarted && s.available == 0 && !s.waitingForRestart
    requires size > 0 && n > 0 && (rs == [] || rs[0] == WaitTimesOut([]))
    ensures var first := Drain(ring, cursor, size, s, rs);
            && first == Drained(Zeros(size), 0, cursor, true, s.(waitingForRestart := true), if rs == [] then [] else rs[1..])
            && var second := Drain(ring, cursor, size, first.shared, first.rounds);
               && second == Drained(Zeros(size), 0, cursor, true, first.shared, first.rounds)
               && var third := Drain(ring, cursor, size, ReportOne(second.shared, n), second.rounds);
                  third.copied > 0 && third.out[0] == ring[cursor]
  {
    var latched := s.(waitingForRestart := true);
    var rest := if rs == [] then [] else rs[1..];
    DecideOnTimeoutOrClockFailure(s, rs);
    assert rs != [] ==> ReportAll(s, rs[0].writes) == s;
    DrainSilent(ring, cursor, size, s, rs);
    DecideWithoutWaiting(latched, rest);
    DrainSilent(ring, cursor, size, latched, rest);
    var r := ReportOne(latched, n);
    DecideWithoutWaiting(r, rest);
    DrainCopies(ring, cursor, size, r, rest);
  }
}
