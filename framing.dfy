/** What the integrity validator accepts, stated without reference to its loop: a window is
    accepted exactly when it is the concatenation of well-formed records whose leading
    sentinels follow the running event counter; and when it is rejected, the failure is
    reported at the first record that is not such a record, with the records before it
    counted. */
module Framing {
  import opened Wire
  import opened SizeOracle
  import opened Integrity

  /** The bytes of a list of records laid end to end. */
  function Concat(recs: seq<seq<u8>>): seq<u8>
    decreases |recs|
  {
    if |recs| == 0 then [] else recs[0] + Concat(recs[1..])
  }

  /** The type field of a record's header. */
  function TypeOf(L: Layout, r: seq<u8>): u16
    requires L.Valid() && L.hdrSize <= |r|
  {
    U16At(r, L.typeOffset)
  }

  /** The leading sentinel of a record's header. */
  function Sentinel(L: Layout, r: seq<u8>): u32
    requires L.Valid() && L.sentinels && L.hdrSize <= |r|
  {
    U32At(r, L.sentinelOffset)
  }

  /** A record on its own: a header of a registered type, its length table, exactly as many
      bytes as the event size formula gives, and, with sentinels, a trailing sentinel equal to
      the leading one. */
  predicate WellFormed(L: Layout, reg: Registry, r: seq<u8>)
    requires L.Valid()
  {
    && L.hdrSize <= |r|
    && TypeOf(L, r) < |reg|
    && L.hdrSize + 2 * reg[TypeOf(L, r)] <= |r|
    && |r| == EventSize(L, reg, TypeOf(L, r), r, L.hdrSize)
    && (L.sentinels ==> Sentinel(L, r) == U32At(r, |r| - 4))
  }

  /** A record continues the sequence of the counter cur: its leading sentinel is the counter,
      or the counter has not been seeded yet. Without sentinels there is nothing to match. */
  predicate Matches(L: Layout, cur: u32, r: seq<u8>)
    requires L.Valid() && L.hdrSize <= |r|
  {
    L.sentinels ==> cur == NO_SEED || Sentinel(L, r) == cur
  }

  /** The counter after a record: seeded from its sentinel if unseeded, then incremented. */
  function Step(L: Layout, cur: u32, r: seq<u8>): u32
    requires L.Valid() && L.hdrSize <= |r|
  {
    Inc(if L.sentinels && cur == NO_SEED then Sentinel(L, r) else cur)
  }

  /** recs is a run of well-formed records each of which continues the counter left by the
      ones before it, starting from cur. */
  predicate Framed(L: Layout, reg: Registry, cur: u32, recs: seq<seq<u8>>)
    requires L.Valid()
    decreases |recs|
  {
    |recs| == 0 ||
    (WellFormed(L, reg, recs[0]) && Matches(L, cur, recs[0]) &&
     Framed(L, reg, Step(L, cur, recs[0]), recs[1..]))
  }

  /** The counter after a framed run. */
  function Counter(L: Layout, reg: Registry, cur: u32, recs: seq<seq<u8>>): u32
    requires L.Valid() && Framed(L, reg, cur, recs)
    decreases |recs|
  {
    if |recs| == 0 then cur else Counter(L, reg, Step(L, cur, recs[0]), recs[1..])
  }

  /** Window w holds the bytes c from byte off on. */
  predicate Holds(w: seq<u8>, off: nat, c: seq<u8>)
    decreases |c|
  {
    |c| == 0 || (off < |w| && w[off] == c[0] && Holds(w, off + 1, c[1..]))
  }

  // ---- Windows and the bytes they hold ----

  lemma {:induction false} HoldsSlice(w: seq<u8>, off: nat, c: seq<u8>)
    requires off <= |w|
    ensures Holds(w, off, c) <==> off + |c| <= |w| && w[off..off + |c|] == c
    decreases |c|
  {
    if |c| > 0 && off < |w| {
      HoldsSlice(w, off + 1, c[1..]);
      if off + |c| <= |w| {
        var v := w[off..off + |c|];
        assert off + 1 + |c[1..]| == off + |c|;
        assert v[0] == w[off] && v[1..] == w[off + 1..off + 1 + |c[1..]|];
        if v == c {
          assert v[0] == c[0] && v[1..] == c[1..];
        }
        if w[off] == c[0] && w[off + 1..off + 1 + |c[1..]|] == c[1..] {
          assert v == [v[0]] + v[1..] && c == [c[0]] + c[1..];
        }
      }
    }
  }

  /** A window holds a + b at byte off exactly when it holds a there and b right after. */
  lemma {:induction false} HoldsConcat(w: seq<u8>, off: nat, a: seq<u8>, b: seq<u8>)
    ensures Holds(w, off, a + b) <==> Holds(w, off, a) && Holds(w, off + |a|, b)
    decreases |a|
  {
    if |a| > 0 {
      assert (a + b)[0] == a[0] && (a + b)[1..] == a[1..] + b;
      HoldsConcat(w, off + 1, a[1..], b);
    } else {
      assert a + b == b;
    }
  }

  /** A window holds c from its start and is no longer than c exactly when it is c. */
  lemma HoldsWhole(w: seq<u8>, c: seq<u8>)
    ensures Holds(w, 0, c) && |c| == |w| <==> c == w
  {
    HoldsSlice(w, 0, c);
    assert w[0..|w|] == w;
  }

  /** A window that holds c from its start begins with c. */
  lemma HoldsStart(w: seq<u8>, c: seq<u8>)
    requires Holds(w, 0, c)
    ensures |c| <= |w| && w[..|c|] == c
  {
    HoldsSlice(w, 0, c);
  }

  // ---- One record ----

  /** The header fields, the event size and the sentinels read at byte off of a window are
      those of the record the window holds there. */
  lemma RecordAt(L: Layout, reg: Registry, w: seq<u8>, off: nat, r: seq<u8>)
    requires L.Valid() && off <= |w| && Holds(w, off, r) && L.hdrSize <= |r|
    ensures off + |r| <= |w|
    ensures U16At(w, off + L.typeOffset) == TypeOf(L, r)
    ensures TypeOf(L, r) < |reg| && L.hdrSize + 2 * reg[TypeOf(L, r)] <= |r| ==>
              EventSize(L, reg, TypeOf(L, r), w, off + L.hdrSize) ==
              EventSize(L, reg, TypeOf(L, r), r, L.hdrSize)
    ensures L.sentinels ==> U32At(w, off + L.sentinelOffset) == Sentinel(L, r)
    ensures L.sentinels ==> U32At(w, off + |r| - 4) == U32At(r, |r| - 4)
  {
    HoldsSlice(w, off, r);
    U16Held(w, off, r, L.typeOffset);
    var t := TypeOf(L, r);
    if t < |reg| && L.hdrSize + 2 * reg[t] <= |r| {
      EventSizeSlice(L, reg, t, w, off, off + |r|, off + L.hdrSize);
    }
    if L.sentinels {
      U32Held(w, off, r, L.sentinelOffset);
      U32Held(w, off, r, |r| - 4);
    }
  }

  /** The uint16_t read at byte i of a record is the one read at byte off + i of a window
      holding that record at off. */
  lemma U16Held(w: seq<u8>, off: nat, r: seq<u8>, i: nat)
    requires off <= |w| && Holds(w, off, r) && i + 2 <= |r|
    ensures off + i + 2 <= |w| && U16At(w, off + i) == U16At(r, i)
  {
    HoldsSlice(w, off, r);
    assert w[off + i] == r[i] && w[off + i + 1] == r[i + 1];
  }

  /** The uint32_t read at byte i of a record is the one read at byte off + i of a window
      holding that record at off. */
  lemma U32Held(w: seq<u8>, off: nat, r: seq<u8>, i: nat)
    requires off <= |w| && Holds(w, off, r) && i + 4 <= |r|
    ensures off + i + 4 <= |w| && U32At(w, off + i) == U32At(r, i)
  {
    HoldsSlice(w, off, r);
    assert w[off + i] == r[i] && w[off + i + 1] == r[i + 1];
    assert w[off + i + 2] == r[i + 2] && w[off + i + 3] == r[i + 3];
  }

  /** The record at byte off of a window has a registered type t, and its length table and
      its size fit: what the checks decide is then up to the sentinels begin and end alone. */
  lemma ChecksPassed(L: Layout, reg: Registry, w: seq<u8>, off: nat, cur: u32, t: u16, size: nat,
                     begin: u32, end: u32)
    requires L.Valid() && off + L.hdrSize <= |w|
    requires t == U16At(w, off + L.typeOffset) && t < |reg| && off + L.hdrSize + 2 * reg[t] <= |w|
    requires size == EventSize(L, reg, t, w, off + L.hdrSize) && off + size <= |w|
    requires L.sentinels ==> begin == U32At(w, off + L.sentinelOffset) && end == U32At(w, off + size - 4)
    ensures CheckRecord(L, reg, w, off, cur) ==
            if L.sentinels then CheckSentinels(size, begin, end, cur) else Accept(size, Inc(cur))
  {
    var minimum := L.hdrSize + 2 * reg[t];
    assert minimum <= size && size <= |w| - off;
    assert CheckRecord(L, reg, w, off, cur) == CheckType(L, reg, w, off, t, cur);
    assert CheckType(L, reg, w, off, t, cur) == CheckSize(L, w, off, size, minimum, cur);
    if L.sentinels {
      assert CheckSize(L, w, off, size, minimum, cur) == CheckSentinels(size, begin, end, cur);
    } else {
      assert CheckSize(L, w, off, size, minimum, cur) == Accept(size, Inc(cur));
    }
  }

  /** A well-formed record lying at byte off of a window is accepted there, whole and with the
      counter stepped, exactly when it continues the counter; otherwise it is reported as a
      sequence gap. */
  lemma RecordChecked(L: Layout, reg: Registry, w: seq<u8>, off: nat, r: seq<u8>, cur: u32)
    requires L.Valid() && WellFormed(L, reg, r) && off <= |w| && Holds(w, off, r)
    ensures off + |r| <= |w|
    ensures Matches(L, cur, r) ==> CheckRecord(L, reg, w, off, cur) == Accept(|r|, Step(L, cur, r))
    ensures !Matches(L, cur, r) ==>
              CheckRecord(L, reg, w, off, cur) == Reject(SequenceGap(cur, Sentinel(L, r)), cur)
  {
    RecordAt(L, reg, w, off, r);
    var t := TypeOf(L, r);
    if L.sentinels {
      ChecksPassed(L, reg, w, off, cur, t, |r|, Sentinel(L, r), Sentinel(L, r));
    } else {
      ChecksPassed(L, reg, w, off, cur, t, |r|, 0, 0);
    }
  }

  /** Conversely, what the checks accept at byte off of a window is a well-formed record lying
      there that continues the counter. */
  lemma AcceptedRecord(L: Layout, reg: Registry, w: seq<u8>, off: nat, cur: u32, size: nat, next: u32)
    returns (r: seq<u8>)
    requires L.Valid() && off < |w|
    requires CheckRecord(L, reg, w, off, cur) == Accept(size, next)
    ensures |r| == size && Holds(w, off, r)
    ensures WellFormed(L, reg, r) && Matches(L, cur, r) && next == Step(L, cur, r)
  {
    var t := U16At(w, off + L.typeOffset);
    assert CheckRecord(L, reg, w, off, cur) == CheckType(L, reg, w, off, t, cur);
    assert t < |reg| && off + L.hdrSize + 2 * reg[t] <= |w|;
    assert CheckType(L, reg, w, off, t, cur) ==
           CheckSize(L, w, off, EventSize(L, reg, t, w, off + L.hdrSize), L.hdrSize + 2 * reg[t], cur);
    assert size == EventSize(L, reg, t, w, off + L.hdrSize) && off + size <= |w|;
    if L.sentinels {
      ChecksPassed(L, reg, w, off, cur, t, size, U32At(w, off + L.sentinelOffset), U32At(w, off + size - 4));
    } else {
      ChecksPassed(L, reg, w, off, cur, t, size, 0, 0);
    }
    r := w[off..off + size];
    HoldsSlice(w, off, r);
    RecordAt(L, reg, w, off, r);
    assert TypeOf(L, r) == t && |r| == size;
    assert WellFormed(L, reg, r);
  }

  // ---- Runs of records ----

  /** A record that continues the counter, followed by a run framed from the counter it
      leaves, is a framed run. */
  lemma ConsRun(L: Layout, reg: Registry, cur: u32, r: seq<u8>, tl: seq<seq<u8>>)
    requires L.Valid() && WellFormed(L, reg, r) && Matches(L, cur, r) && Framed(L, reg, Step(L, cur, r), tl)
    ensures Framed(L, reg, cur, [r] + tl)
    ensures Concat([r] + tl) == r + Concat(tl)
    ensures Counter(L, reg, cur, [r] + tl) == Counter(L, reg, Step(L, cur, r), tl)
  {
    var recs := [r] + tl;
    assert recs[0] == r && recs[1..] == tl;
  }

  /** Completeness: a framed run lying at byte off of a window is walked through; the walk
      goes on at byte end, past the run, with every record counted (total) and the counter
      stepped through all of them (last). */
  lemma {:induction false} AcceptPrefix(L: Layout, reg: Registry, w: seq<u8>, off: nat, cur: u32, n: nat,
                                        recs: seq<seq<u8>>, end: nat, last: u32, total: nat)
    requires L.Valid() && Framed(L, reg, cur, recs) && off <= |w| && Holds(w, off, Concat(recs))
    requires end == off + |Concat(recs)| && last == Counter(L, reg, cur, recs) && total == n + |recs|
    ensures end <= |w|
    ensures Walk(L, reg, w, off, cur, n) == Walk(L, reg, w, end, last, total)
    decreases |recs|
  {
    if |recs| == 0 {
      assert end == off && last == cur && total == n;
    } else {
      var r, tl := recs[0], recs[1..];
      HoldsConcat(w, off, r, Concat(tl));
      RecordChecked(L, reg, w, off, r, cur);
      var k := Step(L, cur, r);
      WalkAccepted(L, reg, w, off, cur, n, |r|, k);
      AcceptPrefix(L, reg, w, off + |r|, k, n + 1, tl, end, last, total);
    }
  }

  /** recs accounts for the outcome o of a walk from byte off with cursor cur and n records
      counted: they form a framed run lying at off and are the records o counts; on success
      they reach the end of the window and leave o's counter, and on failure they reach the
      failure offset, where the checks, given their counter, reject for o's reason. */
  predicate Explains(L: Layout, reg: Registry, w: seq<u8>, off: nat, cur: u32, n: nat,
                     recs: seq<seq<u8>>, o: Outcome)
    requires L.Valid()
  {
    && Framed(L, reg, cur, recs) && Holds(w, off, Concat(recs))
    && n + |recs| == o.nevents
    && (o.status.Ok? ==> off + |Concat(recs)| == |w| && Counter(L, reg, cur, recs) == o.curEvent)
    && (o.status.Fail? ==>
          && off + |Concat(recs)| == o.status.offset < |w|
          && CheckRecord(L, reg, w, o.status.offset, Counter(L, reg, cur, recs)) == Reject(o.status.failure, o.curEvent))
  }

  /** A record accepted at byte off, put in front of records that account for the rest of the
      walk, accounts for the walk from off. */
  lemma ExplainsCons(L: Layout, reg: Registry, w: seq<u8>, off: nat, cur: u32, n: nat,
                     r: seq<u8>, tl: seq<seq<u8>>, o: Outcome)
    requires L.Valid() && WellFormed(L, reg, r) && Matches(L, cur, r) && Holds(w, off, r)
    requires Explains(L, reg, w, off + |r|, Step(L, cur, r), n + 1, tl, o)
    ensures Explains(L, reg, w, off, cur, n, [r] + tl, o)
  {
    ConsRun(L, reg, cur, r, tl);
    HoldsConcat(w, off, r, Concat(tl));
  }

  /** Soundness: the walk from byte off is accounted for by a framed run lying there (see
      Explains). */
  lemma {:induction false} WalkRun(L: Layout, reg: Registry, w: seq<u8>, off: nat, cur: u32, n: nat)
    returns (recs: seq<seq<u8>>)
    requires L.Valid() && off <= |w|
    ensures Explains(L, reg, w, off, cur, n, recs, Walk(L, reg, w, off, cur, n))
    decreases |w| - off
  {
    if off == |w| {
      recs := [];
      assert Walk(L, reg, w, off, cur, n) == Outcome(Ok, n, cur);
    } else {
      match CheckRecord(L, reg, w, off, cur)
      case Reject(f, c) =>
        recs := [];
        WalkRejected(L, reg, w, off, cur, n, f, c);
      case Accept(size, next) =>
        var r := AcceptedRecord(L, reg, w, off, cur, size, next);
        WalkAccepted(L, reg, w, off, cur, n, size, next);
        var tl := WalkRun(L, reg, w, off + size, next, n + 1);
        ExplainsCons(L, reg, w, off, cur, n, r, tl, Walk(L, reg, w, off + size, next, n + 1));
        recs := [r] + tl;
    }
  }

  /** What g_check_integrity reports on a window, in terms of records: the records it counts
      form a framed run; on success they make up the whole window and leave the counter in
      cur_event; on failure they make up the window up to the failure offset, and the record
      there is rejected, with the counter they leave, for the reported reason. */
  lemma WalkDecomposes(L: Layout, reg: Registry, w: seq<u8>, cur: u32) returns (recs: seq<seq<u8>>)
    requires L.Valid()
    ensures Framed(L, reg, cur, recs) && |recs| == Walk(L, reg, w, 0, cur, 0).nevents
    ensures Walk(L, reg, w, 0, cur, 0).status.Ok? ==>
              Concat(recs) == w && Counter(L, reg, cur, recs) == Walk(L, reg, w, 0, cur, 0).curEvent
    ensures Walk(L, reg, w, 0, cur, 0).status.Fail? ==>
              Concat(recs) == w[..Walk(L, reg, w, 0, cur, 0).status.offset] &&
              CheckRecord(L, reg, w, Walk(L, reg, w, 0, cur, 0).status.offset, Counter(L, reg, cur, recs)) ==
                Reject(Walk(L, reg, w, 0, cur, 0).status.failure, Walk(L, reg, w, 0, cur, 0).curEvent)
  {
    recs := WalkRun(L, reg, w, 0, cur, 0);
    HoldsWhole(w, Concat(recs));
    HoldsStart(w, Concat(recs));
  }

  /** A framed run on its own is accepted, with every record counted and the run's counter
      left in cur_event. */
  lemma AcceptsFramed(L: Layout, reg: Registry, cur: u32, recs: seq<seq<u8>>)
    requires L.Valid() && Framed(L, reg, cur, recs)
    ensures Walk(L, reg, Concat(recs), 0, cur, 0) == Outcome(Ok, |recs|, Counter(L, reg, cur, recs))
  {
    var w := Concat(recs);
    HoldsWhole(w, w);
    AcceptPrefix(L, reg, w, 0, cur, 0, recs, |w|, Counter(L, reg, cur, recs), |recs|);
  }

  /** The validator accepts a window exactly when the window is a framed run of records. */
  lemma AcceptsExactlyFramed(L: Layout, reg: Registry, w: seq<u8>, cur: u32)
    requires L.Valid()
    ensures Walk(L, reg, w, 0, cur, 0).status.Ok? <==>
            exists recs :: Framed(L, reg, cur, recs) && Concat(recs) == w
  {
    if Walk(L, reg, w, 0, cur, 0).status.Ok? {
      var recs := WalkDecomposes(L, reg, w, cur);
    }
    if exists recs :: Framed(L, reg, cur, recs) && Concat(recs) == w {
      var recs :| Framed(L, reg, cur, recs) && Concat(recs) == w;
      AcceptsFramed(L, reg, cur, recs);
    }
  }

  // ---- Where and why a window is rejected ----

  /** The first record that fails is the one reported: after a framed run at the start of a
      window, a record the checks reject makes the walk fail at the run's end, with the run's
      records counted. */
  lemma FirstRejection(L: Layout, reg: Registry, w: seq<u8>, cur: u32, recs: seq<seq<u8>>, f: Failure, c: u32)
    requires L.Valid() && Framed(L, reg, cur, recs) && Holds(w, 0, Concat(recs)) && |Concat(recs)| < |w|
    requires CheckRecord(L, reg, w, |Concat(recs)|, Counter(L, reg, cur, recs)) == Reject(f, c)
    ensures Walk(L, reg, w, 0, cur, 0) == Outcome(Fail(f, |Concat(recs)|), |recs|, c)
  {
    var k := Counter(L, reg, cur, recs);
    AcceptPrefix(L, reg, w, 0, cur, 0, recs, |Concat(recs)|, k, |recs|);
    WalkRejected(L, reg, w, |Concat(recs)|, k, |recs|, f, c);
  }

  /** Fewer bytes than a header remain after a framed run: the validator fails at the run's
      end k. */
  lemma TruncatedHeaderReported(L: Layout, reg: Registry, w: seq<u8>, cur: u32, recs: seq<seq<u8>>, k: nat)
    requires L.Valid() && Framed(L, reg, cur, recs) && Holds(w, 0, Concat(recs))
    requires k == |Concat(recs)| && k < |w| < k + L.hdrSize
    ensures Walk(L, reg, w, 0, cur, 0) == Outcome(Fail(TruncatedHeader, k), |recs|, Counter(L, reg, cur, recs))
  {
    FirstRejection(L, reg, w, cur, recs, TruncatedHeader, Counter(L, reg, cur, recs));
  }

  /** The header after a framed run has a type t that is not registered: the validator fails
      at the run's end k. */
  lemma UnknownTypeReported(L: Layout, reg: Registry, w: seq<u8>, cur: u32, recs: seq<seq<u8>>, k: nat, t: u16)
    requires L.Valid() && Framed(L, reg, cur, recs) && Holds(w, 0, Concat(recs))
    requires k == |Concat(recs)| && k + L.hdrSize <= |w|
    requires t == U16At(w, k + L.typeOffset) && t >= |reg|
    ensures Walk(L, reg, w, 0, cur, 0) == Outcome(Fail(UnknownType(t), k), |recs|, Counter(L, reg, cur, recs))
  {
    FirstRejection(L, reg, w, cur, recs, UnknownType(t), Counter(L, reg, cur, recs));
  }

  /** The length table of the header after a framed run runs past the window: the validator
      fails at the run's end k. */
  lemma TruncatedLengthTableReported(L: Layout, reg: Registry, w: seq<u8>, cur: u32, recs: seq<seq<u8>>,
                                     k: nat, t: u16)
    requires L.Valid() && Framed(L, reg, cur, recs) && Holds(w, 0, Concat(recs))
    requires k == |Concat(recs)| && k + L.hdrSize <= |w|
    requires t == U16At(w, k + L.typeOffset) && t < |reg| && |w| < k + L.hdrSize + 2 * reg[t]
    ensures Walk(L, reg, w, 0, cur, 0) == Outcome(Fail(TruncatedLengthTable, k), |recs|, Counter(L, reg, cur, recs))
  {
    FirstRejection(L, reg, w, cur, recs, TruncatedLengthTable, Counter(L, reg, cur, recs));
  }

  /** The record after a framed run is larger than what remains of the window: the validator
      fails at the run's end k instead of reading a trailing sentinel outside the window. */
  lemma OverrunReported(L: Layout, reg: Registry, w: seq<u8>, cur: u32, recs: seq<seq<u8>>,
                        k: nat, t: u16, size: nat)
    requires L.Valid() && Framed(L, reg, cur, recs) && Holds(w, 0, Concat(recs))
    requires k == |Concat(recs)| && k + L.hdrSize <= |w|
    requires t == U16At(w, k + L.typeOffset) && t < |reg| && k + L.hdrSize + 2 * reg[t] <= |w|
    requires size == EventSize(L, reg, t, w, k + L.hdrSize) && k + size > |w|
    ensures Walk(L, reg, w, 0, cur, 0) == Outcome(Fail(Overrun(size), k), |recs|, Counter(L, reg, cur, recs))
  {
    var c := Counter(L, reg, cur, recs);
    assert CheckRecord(L, reg, w, k, c) == CheckType(L, reg, w, k, t, c);
    assert CheckType(L, reg, w, k, t, c) == CheckSize(L, w, k, size, L.hdrSize + 2 * reg[t], c);
    FirstRejection(L, reg, w, cur, recs, Overrun(size), c);
  }

  /** The size-too-short failure never fires: the size formula always reaches the structural
      minimum. */
  lemma ImplausibleSizeUnreachable(L: Layout, reg: Registry, w: seq<u8>, off: nat, cur: u32)
    requires L.Valid() && off < |w|
    ensures !(CheckRecord(L, reg, w, off, cur).Reject? && CheckRecord(L, reg, w, off, cur).failure.ImplausibleSize?)
  {
  }

  /** The record at byte k of a window fits, but its trailing u32 differs from its leading
      sentinel: the checks reject it for that, whatever the counter. */
  lemma SentinelMismatchAt(L: Layout, reg: Registry, w: seq<u8>, k: nat, c: u32, t: u16, size: nat)
    requires L.Valid() && L.sentinels && k + L.hdrSize <= |w|
    requires t == U16At(w, k + L.typeOffset) && t < |reg| && k + L.hdrSize + 2 * reg[t] <= |w|
    requires size == EventSize(L, reg, t, w, k + L.hdrSize) && k + size <= |w|
    requires U32At(w, k + L.sentinelOffset) != U32At(w, k + size - 4)
    ensures CheckRecord(L, reg, w, k, c) ==
            Reject(SentinelMismatch(U32At(w, k + L.sentinelOffset), U32At(w, k + size - 4)), c)
  {
    var begin, end := U32At(w, k + L.sentinelOffset), U32At(w, k + size - 4);
    ChecksPassed(L, reg, w, k, c, t, size, begin, end);
    assert CheckSentinels(size, begin, end, c) == Reject(SentinelMismatch(begin, end), c);
  }

  /** The record after a framed run has a trailing u32 that differs from its leading
      sentinel: the validator fails at that record's offset k, which is where the run ends. */
  lemma SentinelMismatchReported(L: Layout, reg: Registry, w: seq<u8>, cur: u32, recs: seq<seq<u8>>,
                                 k: nat, t: u16, size: nat)
    requires L.Valid() && L.sentinels && Framed(L, reg, cur, recs) && Holds(w, 0, Concat(recs))
    requires k == |Concat(recs)| && k + L.hdrSize <= |w|
    requires t == U16At(w, k + L.typeOffset) && t < |reg| && k + L.hdrSize + 2 * reg[t] <= |w|
    requires size == EventSize(L, reg, t, w, k + L.hdrSize) && k + size <= |w|
    requires U32At(w, k + L.sentinelOffset) != U32At(w, k + size - 4)
    ensures Walk(L, reg, w, 0, cur, 0) ==
            Outcome(Fail(SentinelMismatch(U32At(w, k + L.sentinelOffset), U32At(w, k + size - 4)), k),
                    |recs|, Counter(L, reg, cur, recs))
  {
    var c := Counter(L, reg, cur, recs);
    SentinelMismatchAt(L, reg, w, k, c, t, size);
    FirstRejection(L, reg, w, cur, recs, SentinelMismatch(U32At(w, k + L.sentinelOffset), U32At(w, k + size - 4)), c);
  }

  /** After a framed run, a well-formed record r whose sentinel is not the seeded counter: the
      validator fails at r, the run's end k, with a sequence gap. */
  lemma SequenceGapReported(L: Layout, reg: Registry, w: seq<u8>, cur: u32, recs: seq<seq<u8>>, k: nat, r: seq<u8>)
    requires L.Valid() && L.sentinels && Framed(L, reg, cur, recs) && Holds(w, 0, Concat(recs))
    requires k == |Concat(recs)| && WellFormed(L, reg, r) && Holds(w, k, r)
    requires Counter(L, reg, cur, recs) != NO_SEED && Sentinel(L, r) != Counter(L, reg, cur, recs)
    ensures Walk(L, reg, w, 0, cur, 0) ==
            Outcome(Fail(SequenceGap(Counter(L, reg, cur, recs), Sentinel(L, r)), k), |recs|, Counter(L, reg, cur, recs))
  {
    var c := Counter(L, reg, cur, recs);
    HoldsSlice(w, 0, Concat(recs));
    RecordChecked(L, reg, w, k, r, c);
    FirstRejection(L, reg, w, cur, recs, SequenceGap(c, Sentinel(L, r)), c);
  }

  /** Sentinels s, s+2: the second record is reported as a gap, with one record counted. The
      first sentinel must not be 0xFFFFFFFE (see CounterWrapReseeds). */
  lemma SkippedEventReported(L: Layout, reg: Registry, w: seq<u8>, cur: u32, r1: seq<u8>, r2: seq<u8>)
    requires L.Valid() && L.sentinels && WellFormed(L, reg, r1) && WellFormed(L, reg, r2)
    requires Holds(w, 0, r1) && Holds(w, |r1|, r2)
    requires cur == NO_SEED || cur == Sentinel(L, r1)
    requires Sentinel(L, r1) != 0xFFFF_FFFE
    requires Sentinel(L, r2) == Inc(Inc(Sentinel(L, r1)))
    ensures Walk(L, reg, w, 0, cur, 0) ==
            Outcome(Fail(SequenceGap(Inc(Sentinel(L, r1)), Sentinel(L, r2)), |r1|), 1, Inc(Sentinel(L, r1)))
  {
    var none: seq<seq<u8>> := [];
    var k := Step(L, cur, r1);
    var s1 := Sentinel(L, r1);
    assert k == Inc(s1);
    assert k != NO_SEED by { if s1 < 0xFFFF_FFFF { assert k == s1 + 1; } else { assert k == 0; } }
    assert Sentinel(L, r2) != k by { assert Inc(k) != k; }
    assert Framed(L, reg, k, none) && Counter(L, reg, k, none) == k && Concat(none) == [];
    ConsRun(L, reg, cur, r1, none);
    var recs := [r1] + none;
    assert Concat(recs) == r1 && |recs| == 1;
    SequenceGapReported(L, reg, w, cur, recs, |r1|, r2);
  }

  /** As written, a counter that wraps onto 0xFFFFFFFF reads as "unseeded": after a record with
      sentinel 0xFFFFFFFE, any well-formed record is accepted, whatever its sentinel. */
  lemma CounterWrapReseeds(L: Layout, reg: Registry, cur: u32, r1: seq<u8>, r2: seq<u8>)
    requires L.Valid() && L.sentinels && WellFormed(L, reg, r1) && WellFormed(L, reg, r2)
    requires cur == NO_SEED || cur == Sentinel(L, r1)
    requires Sentinel(L, r1) == 0xFFFF_FFFE
    ensures Framed(L, reg, cur, [r1, r2])
    ensures Counter(L, reg, cur, [r1, r2]) == Inc(Sentinel(L, r2))
  {
    assert Inc(0xFFFF_FFFE) == NO_SEED;
    assert Step(L, cur, r1) == NO_SEED;
    var none: seq<seq<u8>> := [];
    var k2 := Step(L, NO_SEED, r2);
    assert k2 == Inc(Sentinel(L, r2));
    assert Framed(L, reg, k2, none) && Counter(L, reg, k2, none) == k2;
    ConsRun(L, reg, NO_SEED, r2, none);
    assert [r2] + none == [r2];
    ConsRun(L, reg, cur, r1, [r2]);
    assert [r1] + [r2] == [r1, r2];
  }

  // ---- The event counter over a run ----

  /** A run of well-formed records whose sentinels count up by one (mod 2^32) from the seed
      cur, or from any first sentinel when cur is unseeded, is framed and leaves the counter
      one past its last sentinel. */
  lemma {:induction false} ContiguousRunFramed(L: Layout, reg: Registry, cur: u32, recs: seq<seq<u8>>)
    requires L.Valid() && L.sentinels && |recs| > 0
    requires forall i :: 0 <= i < |recs| ==> L.hdrSize <= |recs[i]| && WellFormed(L, reg, recs[i])
    requires forall i :: 0 < i < |recs| ==> Sentinel(L, recs[i]) == Inc(Sentinel(L, recs[i - 1]))
    requires cur == NO_SEED || cur == Sentinel(L, recs[0])
    ensures Framed(L, reg, cur, recs)
    ensures Counter(L, reg, cur, recs) == Inc(Sentinel(L, recs[|recs| - 1]))
    decreases |recs|
  {
    var tl := recs[1..];
    var k := Step(L, cur, recs[0]);
    if |tl| > 0 {
      assert forall i :: 0 <= i < |tl| ==> tl[i] == recs[i + 1];
      assert tl[0] == recs[1] && Sentinel(L, tl[0]) == k;
      ContiguousRunFramed(L, reg, k, tl);
      assert tl[|tl| - 1] == recs[|recs| - 1];
    }
  }

  /** Without sentinels a run is framed exactly when every record is well formed. */
  lemma {:induction false} UnsentinelledRun(L: Layout, reg: Registry, cur: u32, recs: seq<seq<u8>>)
    requires L.Valid() && !L.sentinels
    ensures Framed(L, reg, cur, recs) <==> forall i :: 0 <= i < |recs| ==> WellFormed(L, reg, recs[i])
    decreases |recs|
  {
    if |recs| > 0 {
      var tl := recs[1..];
      UnsentinelledRun(L, reg, Inc(cur), tl);
      if Framed(L, reg, cur, recs) {
        forall i | 0 <= i < |recs|
          ensures WellFormed(L, reg, recs[i])
        {
          if i > 0 {
            assert recs[i] == tl[i - 1];
          }
        }
      }
      if forall i :: 0 <= i < |recs| ==> WellFormed(L, reg, recs[i]) {
        forall i | 0 <= i < |tl|
          ensures WellFormed(L, reg, tl[i])
        {
          assert tl[i] == recs[i + 1];
        }
      }
    }
  }

  /** Without sentinels the counter advances by one (mod 2^32) per record. */
  lemma {:induction false} UnsentinelledCounter(L: Layout, reg: Registry, cur: u32, recs: seq<seq<u8>>)
    requires L.Valid() && !L.sentinels && Framed(L, reg, cur, recs)
    ensures Counter(L, reg, cur, recs) == (cur + |recs|) % 0x1_0000_0000
    decreases |recs|
  {
    if |recs| > 0 {
      UnsentinelledCounter(L, reg, Inc(cur), recs[1..]);
      IncAdd(cur, |recs| - 1);
    }
  }

  /** With sentinels, a framed run from the seed k whose counter does not reach 0xFFFFFFFF
      before its last record carries the sentinels k, k+1, ..., and leaves the counter at k
      plus the number of records. */
  lemma {:induction false} SeededRunCounts(L: Layout, reg: Registry, k: u32, recs: seq<seq<u8>>)
    requires L.Valid() && L.sentinels && k != NO_SEED && Framed(L, reg, k, recs)
    requires k + |recs| <= 0xFFFF_FFFF
    ensures forall i :: 0 <= i < |recs| ==> L.hdrSize <= |recs[i]| && Sentinel(L, recs[i]) == k + i
    ensures Counter(L, reg, k, recs) == k + |recs|
    decreases |recs|
  {
    if |recs| > 0 {
      var tl := recs[1..];
      assert Step(L, k, recs[0]) == k + 1;
      if |tl| > 0 {
        SeededRunCounts(L, reg, k + 1, tl);
        assert forall i :: 0 < i < |recs| ==> recs[i] == tl[i - 1];
      }
    }
  }

  /** From an unseeded counter, the first record seeds it; a run whose counter does not reach
      0xFFFFFFFF before its last record then carries consecutive sentinels and leaves the
      counter at the first sentinel plus the number of records. */
  lemma UnseededRunCounts(L: Layout, reg: Registry, recs: seq<seq<u8>>)
    requires L.Valid() && L.sentinels && Framed(L, reg, NO_SEED, recs) && |recs| > 0
    requires Sentinel(L, recs[0]) + |recs| <= 0xFFFF_FFFF
    ensures forall i :: 0 <= i < |recs| ==> L.hdrSize <= |recs[i]| && Sentinel(L, recs[i]) == Sentinel(L, recs[0]) + i
    ensures Counter(L, reg, NO_SEED, recs) == Sentinel(L, recs[0]) + |recs|
  {
    var k := Sentinel(L, recs[0]);
    assert Step(L, NO_SEED, recs[0]) == Step(L, k, recs[0]);
    assert Framed(L, reg, k, recs);
    SeededRunCounts(L, reg, k, recs);
  }

  /** A window accepted from the seed k: when the count does not carry the counter past
      0xFFFFFFFF, the counter ends at the seed plus the number of records counted. */
  lemma SeededWindowCounts(L: Layout, reg: Registry, w: seq<u8>, k: u32)
    requires L.Valid() && L.sentinels && k != NO_SEED && k + Walk(L, reg, w, 0, k, 0).nevents <= 0xFFFF_FFFF
    requires Walk(L, reg, w, 0, k, 0).status.Ok?
    ensures Walk(L, reg, w, 0, k, 0).curEvent == k + Walk(L, reg, w, 0, k, 0).nevents
  {
    var recs := WalkDecomposes(L, reg, w, k);
    SeededRunCounts(L, reg, k, recs);
  }

  /** A window accepted from an unseeded counter (as main validates every window): the first
      record's leading sentinel seeds it, and when the count does not carry the counter past
      0xFFFFFFFF the counter ends at that sentinel plus the number of records counted. */
  lemma UnseededWindowCounts(L: Layout, reg: Registry, w: seq<u8>)
    requires L.Valid() && L.sentinels && L.hdrSize <= |w|
    requires U32At(w, L.sentinelOffset) + Walk(L, reg, w, 0, NO_SEED, 0).nevents <= 0xFFFF_FFFF
    requires Walk(L, reg, w, 0, NO_SEED, 0).status.Ok?
    ensures Walk(L, reg, w, 0, NO_SEED, 0).curEvent == U32At(w, L.sentinelOffset) + Walk(L, reg, w, 0, NO_SEED, 0).nevents
  {
    var recs := WalkDecomposes(L, reg, w, NO_SEED);
    assert |recs| > 0;
    var r := recs[0];
    assert w == r + Concat(recs[1..]);
    var p := L.sentinelOffset;
    assert w[p] == r[p] && w[p + 1] == r[p + 1] && w[p + 2] == r[p + 2] && w[p + 3] == r[p + 3];
    UnseededRunCounts(L, reg, recs);
  }
}
