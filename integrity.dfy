/** The integrity validator (g_check_integrity): walks a window of the ring buffer record by
    record, checking frame bounds, the declared size and the sentinels, and stops at the first
    record that fails.

    Two checks are added that the source does not make, each a failure of its own: the event
    type is checked against the registry before it is used as an index (UnknownType), and the
    event size is checked against the bytes that remain before the trailing sentinel is read
    (Overrun). Without them the source reads outside the registry or outside the window. */
module Integrity {
  import opened Wire
  import opened SizeOracle

  datatype Failure =
    | TruncatedHeader                         // fewer bytes remain than a header needs
    | UnknownType(eventType: u16)             // the type is not a registry index
    | TruncatedLengthTable                    // the length table does not fit in what remains
    | ImplausibleSize(size: nat)              // the size is below the structural minimum
    | Overrun(size: nat)                      // the record extends past the window
    | SentinelMismatch(begin: u32, end: u32)  // leading and trailing sentinel differ
    | SequenceGap(expected: u32, found: u32)  // the leading sentinel is not the running counter

  /** What the checks make of the record at the front of a window. */
  datatype Verdict = Accept(size: nat, next: u32) | Reject(failure: Failure, cur: u32)

  /** SCAP_SUCCESS, or SCAP_FAILURE at the offset of the failing record. */
  datatype Status = Ok | Fail(failure: Failure, offset: nat)

  /** The return code together with what the source leaves in *nevents and *cur_event. */
  datatype Outcome = Outcome(status: Status, nevents: nat, curEvent: u32)

  /** One round of the validator's loop: the checks on the record at byte `off` of window w,
      which holds at least one more byte, with cursor cur. First the header must fit. */
  function CheckRecord(L: Layout, reg: Registry, w: seq<u8>, off: nat, cur: u32): (v: Verdict)
    requires L.Valid() && off < |w|
    ensures v.Accept? ==> L.hdrSize <= v.size <= |w| - off
  {
    if |w| - off < L.hdrSize then Reject(TruncatedHeader, cur)
    else CheckType(L, reg, w, off, U16At(w, off + L.typeOffset), cur)
  }

  /** Then the type must be a registry index and its length table must fit. */
  function CheckType(L: Layout, reg: Registry, w: seq<u8>, off: nat, t: u16, cur: u32): (v: Verdict)
    requires L.Valid() && off + L.hdrSize <= |w|
    ensures v.Accept? ==> L.hdrSize <= v.size <= |w| - off
  {
    if t >= |reg| then Reject(UnknownType(t), cur)
    else if |w| - off < L.hdrSize + 2 * reg[t] then Reject(TruncatedLengthTable, cur)
    else CheckSize(L, w, off, EventSize(L, reg, t, w, off + L.hdrSize), L.hdrSize + 2 * reg[t], cur)
  }

  /** Then the size must reach the structural minimum and fit in the window. */
  function CheckSize(L: Layout, w: seq<u8>, off: nat, size: nat, minimum: nat, cur: u32): (v: Verdict)
    requires L.Valid() && off < |w| && L.hdrSize <= minimum
    ensures v.Accept? ==> v.size == size && L.hdrSize <= size <= |w| - off
  {
    if size < minimum then Reject(ImplausibleSize(size), cur)
    else if size > |w| - off then Reject(Overrun(size), cur)
    else if !L.sentinels then Accept(size, Inc(cur))
    else CheckSentinels(size, U32At(w, off + L.sentinelOffset), U32At(w, off + size - 4), cur)
  }

  /** Last, with sentinels, the leading sentinel must equal the trailing one and then the
      cursor, which the first record seeds. */
  function CheckSentinels(size: nat, begin: u32, end: u32, cur: u32): (v: Verdict)
    ensures v.Accept? ==> v.size == size
  {
    if begin != end then Reject(SentinelMismatch(begin, end), cur)
    else
      var c := if cur == NO_SEED then begin else cur;
      if begin != c then Reject(SequenceGap(c, begin), c)
      else Accept(size, Inc(c))
  }

  /** The walk over window w from byte `off` on, with n records already accepted and
      cursor cur: at the end of the window it succeeds, otherwise it acts on the verdict for
      the record at off. */
  function Walk(L: Layout, reg: Registry, w: seq<u8>, off: nat, cur: u32, n: nat): (o: Outcome)
    requires L.Valid() && off <= |w|
    ensures n <= o.nevents <= n + |w| - off
    ensures o.status.Fail? ==> off <= o.status.offset < |w|
    decreases |w| - off, 1
  {
    if off == |w| then Outcome(Ok, n, cur)
    else Resume(L, reg, w, off, n, CheckRecord(L, reg, w, off, cur))
  }

  /** What the walk does with the verdict v on the record at byte off: stop at a rejection,
      which leaves the cursor as the checks left it, or count the record and go on after it. */
  function Resume(L: Layout, reg: Registry, w: seq<u8>, off: nat, n: nat, v: Verdict): (o: Outcome)
    requires L.Valid() && off < |w|
    requires v.Accept? ==> L.hdrSize <= v.size <= |w| - off
    ensures n <= o.nevents <= n + |w| - off
    ensures o.status.Fail? ==> off <= o.status.offset < |w|
    decreases |w| - off, 0
  {
    match v
    case Reject(f, c) => Outcome(Fail(f, off), n, c)
    case Accept(size, next) => Walk(L, reg, w, off + size, next, n + 1)
  }

  /** The walk stops at a rejected record. */
  lemma WalkRejected(L: Layout, reg: Registry, w: seq<u8>, off: nat, cur: u32, n: nat, f: Failure, c: u32)
    requires L.Valid() && off < |w|
    requires CheckRecord(L, reg, w, off, cur) == Reject(f, c)
    ensures Walk(L, reg, w, off, cur, n) == Outcome(Fail(f, off), n, c)
  {
  }

  /** The walk goes on after an accepted record. */
  lemma WalkAccepted(L: Layout, reg: Registry, w: seq<u8>, off: nat, cur: u32, n: nat, size: nat, next: u32)
    requires L.Valid() && off < |w|
    requires CheckRecord(L, reg, w, off, cur) == Accept(size, next)
    ensures Walk(L, reg, w, off, cur, n) == Walk(L, reg, w, off + size, next, n + 1)
  {
  }

  /** One round of g_check_integrity's loop body: the checks on the record at byte `offset`
      of the first bufLen bytes of buf, in the source's order, with the cursor seeded from the
      record's leading sentinel when it still holds NO_SEED. */
  method CheckNext(L: Layout, reg: Registry, buf: array<u8>, bufLen: nat, offset: nat, cur: u32)
    returns (v: Verdict)
    requires L.Valid() && offset < bufLen <= buf.Length
    ensures v == CheckRecord(L, reg, buf[..bufLen], offset, cur)
  {
    ghost var w := buf[..bufLen];
    var remaining := bufLen - offset;
    if remaining < L.hdrSize {
      return Reject(TruncatedHeader, cur);
    }
    var t := U16Of(buf[offset + L.typeOffset], buf[offset + L.typeOffset + 1]);
    assert t == U16At(w, offset + L.typeOffset);
    assert CheckRecord(L, reg, w, offset, cur) == CheckType(L, reg, w, offset, t, cur);
    if t >= |reg| {
      return Reject(UnknownType(t), cur);
    }
    if remaining < L.hdrSize + 2 * reg[t] {
      return Reject(TruncatedLengthTable, cur);
    }
    var size := GetEventSize(L, reg, t, buf, offset + L.hdrSize);
    EventSizeSlice(L, reg, t, buf[..], 0, bufLen, offset + L.hdrSize);
    assert buf[..][0..bufLen] == w;
    var minimum := L.hdrSize + 2 * reg[t];
    assert CheckType(L, reg, w, offset, t, cur) == CheckSize(L, w, offset, size, minimum, cur);
    if size < minimum {
      // the size formula never falls short of the structural minimum
      assert false;
    }
    if size > remaining {
      return Reject(Overrun(size), cur);
    }
    var c := cur;
    if L.sentinels {
      var p := offset + L.sentinelOffset;
      var begin := U32Of(buf[p], buf[p + 1], buf[p + 2], buf[p + 3]);
      var q := offset + size - 4;
      var end := U32Of(buf[q], buf[q + 1], buf[q + 2], buf[q + 3]);
      assert begin == U32At(w, p) && end == U32At(w, q);
      assert CheckSize(L, w, offset, size, minimum, cur) == CheckSentinels(size, begin, end, cur);
      if begin != end {
        return Reject(SentinelMismatch(begin, end), c);
      }
      if c == NO_SEED {
        c := begin;
      }
      if begin != c {
        return Reject(SequenceGap(c, begin), c);
      }
    }
    v := Accept(size, Inc(c));
  }

  /** g_check_integrity on the first bufLen bytes of buf: cur_event comes in as curEvent, and
      the return code, *nevents and *cur_event come out. buf is only read. */
  method CheckIntegrity(L: Layout, reg: Registry, curEvent: u32, buf: array<u8>, bufLen: nat)
    returns (status: Status, nevents: nat, cur: u32)
    requires L.Valid() && bufLen <= buf.Length
    ensures Outcome(status, nevents, cur) == Walk(L, reg, buf[..bufLen], 0, curEvent, 0)
  {
    ghost var w := buf[..bufLen];
    var offset: nat := 0;
    var remaining: nat := bufLen;
    nevents, cur := 0, curEvent;
    while remaining != 0
      invariant offset + remaining == bufLen
      invariant Walk(L, reg, w, 0, curEvent, 0) == Walk(L, reg, w, offset, cur, nevents)
      decreases remaining
    {
      var v := CheckNext(L, reg, buf, bufLen, offset, cur);
      match v
      case Reject(f, c) =>
        return Fail(f, offset), nevents, c;
      case Accept(size, next) =>
        remaining := remaining - size;
        offset := offset + size;
        nevents := nevents + 1;
        cur := next;
    }
    status := Ok;
  }
}
