/** The consumer side of one device's ring buffer (scap_readbuf_local): each call retires the
    window served by the previous call by moving the tail past it, publishes the new tail,
    and serves as the next window everything from the tail up to the producer's head. */
module Ring {
  import opened Wire

  /** scap_readbuf_local's only return code. */
  const SCAP_SUCCESS: int := 0

  /** get_read_size, whose definition is not part of this model: the number of readable bytes
      from tail up to head around a ring of `size` bytes, that is (head - tail) mod size. */
  function ReadSize(head: nat, tail: nat, size: nat): (r: nat)
    requires head < size && tail < size
    ensures r < size && r == (head - tail) % size
    ensures (tail + r) % size == head
    ensures r == 0 <==> head == tail
  {
    var d := head - tail;
    if d >= 0 then
      assert d % size == d && (tail + d) % size == head by { ModSmall(d, size); ModSmall(head, size); }
      d
    else
      assert (d + size) % size == d % size by { ModShift(d, size); }
      assert (tail + d + size) % size == head by { ModShift(head, size); ModSmall(head, size); }
      d + size
  }

  /** The tail after retiring a window of n bytes, as the source computes it: the sum,
      reduced by a single conditional subtraction, which is the sum modulo the ring size. */
  function Retire(tail: nat, n: nat, size: nat): (t: nat)
    requires tail < size && n <= size
    ensures t < size && t == (tail + n) % size
  {
    if tail + n >= size then
      assert (tail + n - size + size) % size == (tail + n - size) % size by { ModShift(tail + n - size, size); }
      ModSmall(tail + n - size, size);
      tail + n - size
    else
      ModSmall(tail + n, size);
      tail + n
  }

  /** The remainder modulo s is the one r with a == q * s + r and 0 <= r < s. */
  lemma ModUnique(a: int, s: int, q: int, r: int)
    requires 0 < s && 0 <= r < s && a == q * s + r
    ensures a % s == r
  {
    var q0, r0 := a / s, a % s;
    assert a == q0 * s + r0;
    assert (q - q0) * s == r0 - r;
    if q > q0 {
      assert (q - q0) * s >= s by { MulAtLeast(q - q0, s); }
    } else if q < q0 {
      assert (q0 - q) * s >= s by { MulAtLeast(q0 - q, s); }
    }
  }

  lemma MulAtLeast(k: int, s: int)
    requires k >= 1 && s > 0
    ensures k * s >= s
  {
    assert k * s == (k - 1) * s + s;
  }

  lemma ModSmall(x: int, size: nat)
    requires 0 <= x < size
    ensures x % size == x
  {
    ModUnique(x, size, 0, x);
  }

  lemma ModShift(x: int, size: nat)
    requires 0 < size
    ensures (x + size) % size == x % size
  {
    ModUnique(x + size, size, x / size + 1, x % size);
  }

  /** Retiring n of the readable bytes leaves the rest readable: the window after the tail
      moves is shorter by exactly n. */
  lemma RetireReadSize(head: nat, tail: nat, n: nat, size: nat)
    requires head < size && tail < size && n <= ReadSize(head, tail, size)
    ensures ReadSize(head, Retire(tail, n, size), size) == ReadSize(head, tail, size) - n
  {
  }

  /** With head unchanged, a second call serves an empty window: the first call's window is
      everything readable, and retiring it leaves nothing. */
  lemma SecondReadEmpty(head: nat, tail: nat, size: nat)
    requires head < size && tail < size
    ensures ReadSize(head, Retire(tail, ReadSize(head, tail, size), size), size) == 0
  {
    RetireReadSize(head, tail, ReadSize(head, tail, size), size);
  }

  /** One device: its ring of ringSize bytes (m_buffer), the producer's head and the
      consumer's tail (m_bufinfo), and the size of the window last served (m_lastreadsize). */
  class Device {
    const ringSize: nat
    const buffer: array<u8>
    var head: u32
    var tail: u32
    var lastReadSize: u32

    /** The cursors lie in the ring, and the window last served is still readable: the
        producer has not moved the head back over it. The ring is at most 2^31 bytes, so the
        source's uint32_t sum of the tail and the window size cannot wrap. */
    predicate Valid()
      reads this
    {
      && 0 < ringSize <= 0x8000_0000 && buffer.Length == ringSize
      && head < ringSize && tail < ringSize
      && lastReadSize <= ReadSize(head, tail, ringSize)
    }

    /** A device whose ring is empty and which has served no window yet. */
    constructor (size: nat, ring: array<u8>)
      requires 0 < size <= 0x8000_0000 && ring.Length == size
      ensures Valid() && ringSize == size && buffer == ring
      ensures head == 0 && tail == 0 && lastReadSize == 0
    {
      ringSize, buffer := size, ring;
      head, tail, lastReadSize := 0, 0, 0;
    }

    /** scap_readbuf_local: retires the previous window, publishes the new tail, and serves as
        the next window (start, len) the bytes from the new tail up to the head. The memory
        fence between the retirement and the publication orders them against the producer on
        another CPU; sequentially it does nothing. The head and the ring are only read. */
    method ReadBuf() returns (rc: int, start: nat, len: nat)
      requires Valid()
      modifies this
      ensures Valid() && head == old(head)
      ensures tail == Retire(old(tail), old(lastReadSize), ringSize)
      ensures lastReadSize == ReadSize(head, tail, ringSize)
      ensures rc == SCAP_SUCCESS && start == tail && len == lastReadSize
      ensures len == old(ReadSize(head, tail, ringSize)) - old(lastReadSize)
    {
      var ttail: u32 := tail + lastReadSize;
      if ttail >= ringSize {
        ttail := ttail - ringSize;
      }
      // __sync_synchronize() would stand here
      tail := ttail;
      RetireReadSize(head, old(tail), old(lastReadSize), ringSize);
      var readSize: u32 := ReadSize(head, tail, ringSize);
      lastReadSize := readSize;
      len := readSize;
      start := ttail;
      rc := SCAP_SUCCESS;
    }
  }
}
