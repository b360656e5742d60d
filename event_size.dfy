/** The event size oracle (g_get_event_size): the on-wire size of one record, computed from
    its type's parameter count in the registry and the 16-bit lengths in its length table. */
module SizeOracle {
  import opened Wire

  /** Reference definition: the sum of a list of lengths, first element first. */
  function Sum(xs: seq<nat>): nat {
    if |xs| == 0 then 0 else xs[0] + Sum(xs[1..])
  }

  /** The length table of n entries that starts at byte p of s, decoded. */
  function Lengths(s: seq<u8>, p: nat, n: nat): (lens: seq<nat>)
    requires p + 2 * n <= |s|
    ensures |lens| == n
    ensures forall j :: 0 <= j < n ==> lens[j] == U16At(s, p + 2 * j)
  {
    if n == 0 then [] else Lengths(s, p, n - 1) + [U16At(s, p + 2 * (n - 1))]
  }

  /** The running sum the source's loop accumulates: after j rounds, the first j lengths. */
  function LengthSum(s: seq<u8>, p: nat, n: nat): nat
    requires p + 2 * n <= |s|
  {
    if n == 0 then 0 else LengthSum(s, p, n - 1) + U16At(s, p + 2 * (n - 1))
  }

  lemma {:induction false} SumAppend(xs: seq<nat>, x: nat)
    ensures Sum(xs + [x]) == Sum(xs) + x
  {
    if |xs| > 0 {
      assert (xs + [x])[1..] == xs[1..] + [x];
      SumAppend(xs[1..], x);
    }
  }

  /** The loop's running sum is the sum of the decoded length table. */
  lemma {:induction false} LengthSumIsSum(s: seq<u8>, p: nat, n: nat)
    requires p + 2 * n <= |s|
    ensures LengthSum(s, p, n) == Sum(Lengths(s, p, n))
  {
    if n > 0 {
      LengthSumIsSum(s, p, n - 1);
      SumAppend(Lengths(s, p, n - 1), U16At(s, p + 2 * (n - 1)));
    }
  }

  /** The size of a record of type t whose length table starts at byte p of s, as the source
      computes it: the loop's sum of the lengths, two bytes per length-table entry, the header,
      and the trailing sentinel when sentinels are enabled. */
  function EventSize(L: Layout, reg: Registry, t: nat, s: seq<u8>, p: nat): (size: nat)
    requires t < |reg| && p + 2 * reg[t] <= |s|
    ensures size >= L.hdrSize + 2 * reg[t] + L.TrailerSize()
  {
    LengthSum(s, p, reg[t]) + 2 * reg[t] + L.hdrSize + L.TrailerSize()
  }

  /** The size is the sum of the decoded length table plus the fixed overheads, with no
      entry counted twice or left out. */
  lemma EventSizeIsSumOfLengths(L: Layout, reg: Registry, t: nat, s: seq<u8>, p: nat)
    requires t < |reg| && p + 2 * reg[t] <= |s|
    ensures EventSize(L, reg, t, s, p) == Sum(Lengths(s, p, reg[t])) + 2 * reg[t] + L.hdrSize + L.TrailerSize()
  {
    LengthSumIsSum(s, p, reg[t]);
  }

  /** g_get_event_size: the loop over the length table at byte `lens` of buf. The type must
      be a registry index and the table must lie in buf: the source indexes both unchecked,
      so its callers bounds-check them first. */
  method GetEventSize(L: Layout, reg: Registry, t: nat, buf: array<u8>, lens: nat) returns (size: nat)
    requires t < |reg| && lens + 2 * reg[t] <= buf.Length
    ensures size == EventSize(L, reg, t, buf[..], lens)
  {
    var j := 0;
    var res := 0;
    while j < reg[t]
      invariant j <= reg[t]
      invariant res == LengthSum(buf[..], lens, j)
    {
      res := res + U16Of(buf[lens + 2 * j], buf[lens + 2 * j + 1]);
      j := j + 1;
    }
    size := res + j * 2 + L.hdrSize + L.TrailerSize();
  }

  /** No sum of n 16-bit lengths exceeds n times the largest uint16_t. */
  lemma {:induction false} LengthSumBound(s: seq<u8>, p: nat, n: nat)
    requires p + 2 * n <= |s|
    ensures LengthSum(s, p, n) <= 0xFFFF * n
  {
    if n > 0 {
      LengthSumBound(s, p, n - 1);
    }
  }

  /** The source accumulates into an int32_t; with at most 32768 parameters the sum never
      leaves its range, so the unbounded sum above is the value the source computes. */
  lemma AccumulatorFitsInt32(s: seq<u8>, p: nat, n: nat)
    requires p + 2 * n <= |s| && n <= 0x8000
    ensures LengthSum(s, p, n) <= 0x7FFF_FFFF
  {
    LengthSumBound(s, p, n);
  }

  /** LengthSum reads only the bytes of its table: any slice s[a..b] that holds the table
      gives the same sum, at the table's offset within the slice. */
  lemma {:induction false} LengthSumSlice(s: seq<u8>, a: nat, b: nat, p: nat, n: nat)
    requires a <= p && p + 2 * n <= b <= |s|
    ensures LengthSum(s[a..b], p - a, n) == LengthSum(s, p, n)
  {
    if n > 0 {
      LengthSumSlice(s, a, b, p, n - 1);
      assert U16At(s[a..b], p - a + 2 * (n - 1)) == U16At(s, p + 2 * (n - 1));
    }
  }

  /** EventSize reads only the record's length table. */
  lemma EventSizeSlice(L: Layout, reg: Registry, t: nat, s: seq<u8>, a: nat, b: nat, p: nat)
    requires t < |reg| && a <= p && p + 2 * reg[t] <= b <= |s|
    ensures EventSize(L, reg, t, s[a..b], p - a) == EventSize(L, reg, t, s, p)
  {
    LengthSumSlice(s, a, b, p, reg[t]);
  }
}
