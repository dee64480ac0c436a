/** Constants of the Android sound back end and its small size_t index
    helpers `min`, `mod`, `next` and `prev`. */
module RingIndex {

  /** `size_t` is taken to be 32 bits wide, as on the 32-bit ARM devices
      the port targets; only `Next` and `Prev` can wrap around. */
  const SizeModulus: int := 0x1_0000_0000
  type SizeT = x: int | 0 <= x < SizeModulus

  /** Bytes per sample of the 16-bit format. */
  const BytesPerSample: nat := 2

  /** Capacity in bytes of the ring the mixer writes and the callback drains. */
  const TotalBufferSize: nat := 16 * 1024

  /** `shm->samples` as set up at initialisation: mono samples in the ring. */
  const Samples: nat := TotalBufferSize / BytesPerSample

  /** The smaller of two sizes. */
  function Min(a: nat, b: nat): (r: nat)
    ensures r <= a && r <= b
    ensures r == a || r == b
  {
    if a < b then a else b
  }

  /** `value % mod`; a zero modulus is undefined behaviour in C. */
  function Mod(value: SizeT, m: SizeT): (r: SizeT)
    requires m > 0
    ensures r < m
  {
    value % m
  }

  /** Successor of `value` in a cyclic index space of size `m`; an index
      already outside the space resets to 0. */
  function Next(value: SizeT, m: SizeT): (r: SizeT)
    ensures value < m ==> r < m
    ensures value + 1 < m ==> r == value + 1
    ensures value + 1 >= m ==> r == 0
  {
    var v := (value + 1) % SizeModulus;
    if v >= m then 0 else v
  }

  /** Predecessor of `value` in a cyclic index space of size `m`. */
  function Prev(value: SizeT, m: SizeT): (r: SizeT)
    ensures value < m ==> r < m
    ensures value == 0 && 0 < m ==> r == m - 1
    ensures 0 < value ==> r == value - 1
  {
    var v := if value <= 0 then m else value;
    (v - 1) % SizeModulus
  }

  /** Within the index space, `Next` and `Prev` undo each other. */
  lemma NextPrevInverse(v: SizeT, m: SizeT)
    requires v < m
    ensures Prev(Next(v, m), m) == v
    ensures Next(Prev(v, m), m) == v
  {
  }

  /** With an empty index space the unsigned subtraction in `prev` wraps
      to the largest `size_t`. */
  lemma PrevOfEmptySpaceWraps()
    ensures Prev(0, 0) == SizeModulus - 1
  {
  }
}
