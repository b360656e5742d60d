# Validating sysdig ring-buffer windows

This project models the core of sysdig's buffer-validation example,
`userspace/libscap/examples/02-validatebuffer/test.c`, and proves properties about it.
The example drains each capture device's ring buffer and checks, record by record, that
every window it is served is a clean sequence of events.

- **Wire** (`wire.dfy`) holds the byte vocabulary: `uint8_t`/`uint16_t`/`uint32_t` as subset
  types, little-endian field decoding, and `++` on a `uint32_t` with its wrap-around. The
  layout of `struct ppm_evt_hdr` is a parameter (`Layout`): the header size, the offsets of
  the type and of the leading sentinel, and whether `PPM_ENABLE_SENTINEL` is compiled in.
  So is the table `g_event_info` (`Registry`: the parameter count of each event type). Both
  are defined in headers that are not part of this model.
- **SizeOracle** (`event_size.dfy`) models `g_get_event_size`. It has a recursive
  specification (`EventSize`) and the loop itself (`GetEventSize`), proved equal to it.
- **Integrity** (`integrity.dfy`) models `g_check_integrity`.
  - The checks on one record are a chain of functions in the source's order: `CheckRecord`
    → `CheckType` → `CheckSize` → `CheckSentinels`.
  - The walk over a window is a function (`Walk`/`Resume`).
  - `CheckNext` and `CheckIntegrity` are the imperative loop, proved to compute exactly what
    `Walk` gives: the return code, `*nevents` and `*cur_event`.
- **Framing** (`framing.dfy`) says what the validator accepts without reference to its loop.
  - A window is accepted exactly when it is the concatenation of well-formed records whose
    leading sentinels follow the running event counter (`Framed`).
  - A rejected window fails at the first record that is not such a record, with the records
    before it counted.
  - Each failure kind has its own lemma, as does the behaviour of the event counter.
- **Ring** (`ring.dfy`) models `scap_readbuf_local` on a `Device` class whose tail and
  last-read-size fields the method updates in place.

Two reads in the source are not guarded. The model makes each of them an explicit failure
of its own:

- The event type read from a header is used as an index into `g_event_info` without a
  bounds check. The model rejects an unregistered type with `UnknownType`.
- The trailing sentinel is read at `offset + event_size - 4` without checking that
  `event_size` fits in what remains of the window. The model rejects such a record with
  `Overrun` before that read.

All other checks, their order, and what each leaves in `*cur_event` follow the code. That
includes how a `uint32_t` counter wraps back onto the "unseeded" value `0xFFFFFFFF`: it is
modelled as written, and `CounterWrapReseeds` shows the consequence.

## Model

| member | source | states |
|---|---|---|
| SizeOracle.Lengths | userspace/libscap/examples/02-validatebuffer/test.c:82-85 | the length table decodes to one little-endian `uint16_t` per parameter, entry j at byte 2j |
| SizeOracle.LengthSumIsSum | userspace/libscap/examples/02-validatebuffer/test.c:82-85 | the loop's running sum after n rounds is the sum of the first n decoded lengths |
| SizeOracle.EventSize | userspace/libscap/examples/02-validatebuffer/test.c:77-92 | the event size is never below header + 2·nparams (+ 4 with sentinels), so it is never -1 |
| SizeOracle.EventSizeIsSumOfLengths | userspace/libscap/examples/02-validatebuffer/test.c:77-92 | size = sum of the nparams lengths + 2·nparams + header size (+ 4 with sentinels), with no entry left out or counted twice |
| SizeOracle.GetEventSize | userspace/libscap/examples/02-validatebuffer/test.c:77-92 | the accumulation loop returns exactly EventSize of the record's type and length table |
| SizeOracle.LengthSumBound | userspace/libscap/examples/02-validatebuffer/test.c:80-85 | n 16-bit lengths sum to at most 0xFFFF·n |
| SizeOracle.AccumulatorFitsInt32 | userspace/libscap/examples/02-validatebuffer/test.c:80-85 | with at most 32768 parameters the `int32_t` accumulator never overflows, so the unbounded sum is the source's value |
| SizeOracle.EventSizeSlice | userspace/libscap/examples/02-validatebuffer/test.c:127 | the size depends only on the record's own length table, wherever the record lies |
| Integrity.CheckRecord | userspace/libscap/examples/02-validatebuffer/test.c:108-125 | fewer bytes than a header: TruncatedHeader; an accepted record is at least a header long and fits in what remains |
| Integrity.CheckType | userspace/libscap/examples/02-validatebuffer/test.c:118-127 | unregistered type: UnknownType; length table past the window: TruncatedLengthTable; an accepted record fits in what remains |
| Integrity.CheckSize | userspace/libscap/examples/02-validatebuffer/test.c:138-150 | size below the minimum: ImplausibleSize; past the window: Overrun; otherwise accepted without sentinels, or decided by CheckSentinels with them; any acceptance has exactly that size |
| Integrity.CheckSentinels | userspace/libscap/examples/02-validatebuffer/test.c:151-185 | begin ≠ end: SentinelMismatch; an unseeded cursor takes the leading sentinel; begin ≠ cursor: SequenceGap; accepted with exactly that size |
| Integrity.Walk | userspace/libscap/examples/02-validatebuffer/test.c:94-189 | the walk counts at most one record per remaining byte, and fails only at an offset inside the window |
| Integrity.Resume | userspace/libscap/examples/02-validatebuffer/test.c:181-186 | a rejection stops at the record's offset; an accepted record is counted and the walk resumes past it |
| Integrity.CheckNext | userspace/libscap/examples/02-validatebuffer/test.c:99-186 | one loop round on the array computes exactly CheckRecord's verdict |
| Integrity.CheckIntegrity | userspace/libscap/examples/02-validatebuffer/test.c:94-189 | the return code, `*nevents` and `*cur_event` are exactly Walk's outcome; the buffer is only read |
| Framing.ChecksPassed | userspace/libscap/examples/02-validatebuffer/test.c:118-150 | once the type, the table and the size pass, the verdict depends on the two sentinels alone |
| Framing.RecordChecked | userspace/libscap/examples/02-validatebuffer/test.c:108-185 | a well-formed record in the window is accepted whole, with the counter stepped, iff it continues the counter; otherwise SequenceGap |
| Framing.AcceptedRecord | userspace/libscap/examples/02-validatebuffer/test.c:108-185 | whatever the checks accept is a well-formed record lying at that offset that continues the counter |
| Framing.AcceptPrefix | userspace/libscap/examples/02-validatebuffer/test.c:99-186 | a framed run of records is walked through, with every record counted and the counter stepped through all of them |
| Framing.WalkRun | userspace/libscap/examples/02-validatebuffer/test.c:99-186 | every walk is accounted for by a framed run, up to the window's end or up to the failing record |
| Framing.WalkDecomposes | userspace/libscap/examples/02-validatebuffer/test.c:94-189 | on success the counted records concatenate to the whole window and leave `*cur_event`; on failure, to the window up to the failure offset, where the check rejects for the reported reason |
| Framing.AcceptsFramed | userspace/libscap/examples/02-validatebuffer/test.c:96-188 | a framed run on its own is accepted, with `nevents` = the number of records and the run's counter |
| Framing.AcceptsExactlyFramed | userspace/libscap/examples/02-validatebuffer/test.c:94-189 | a window is accepted iff it is the concatenation of a framed run |
| Framing.FirstRejection | userspace/libscap/examples/02-validatebuffer/test.c:97-186 | after a framed run, a rejected record makes the walk fail at that record's offset, with the run's records counted |
| Framing.TruncatedHeaderReported | userspace/libscap/examples/02-validatebuffer/test.c:108-114 | fewer than a header's bytes after a framed run: failure there, the run counted |
| Framing.UnknownTypeReported | userspace/libscap/examples/02-validatebuffer/test.c:116-119 | an unregistered type after a framed run: failure there (a check the source lacks) |
| Framing.TruncatedLengthTableReported | userspace/libscap/examples/02-validatebuffer/test.c:119-125 | a length table past the window after a framed run: failure there, the run counted |
| Framing.OverrunReported | userspace/libscap/examples/02-validatebuffer/test.c:148-149 | a record longer than the rest of the window after a framed run: failure there, before any read past the window (a check the source lacks) |
| Framing.ImplausibleSizeUnreachable | userspace/libscap/examples/02-validatebuffer/test.c:129-145 | the "size too short" failure (and so the `-1` test) can never fire |
| Framing.SentinelMismatchReported | userspace/libscap/examples/02-validatebuffer/test.c:148-162 | a leading sentinel that differs from the record's last four bytes: failure at that record's offset, with both values reported |
| Framing.SequenceGapReported | userspace/libscap/examples/02-validatebuffer/test.c:164-178 | a well-formed record whose sentinel is not the seeded counter: failure there, with the counter and the sentinel reported |
| Framing.SkippedEventReported | userspace/libscap/examples/02-validatebuffer/test.c:164-185 | sentinels k, k+2 (mod 2^32) with k ≠ 0xFFFFFFFE (where the counter would read as unseeded): failure at the second record with `nevents` = 1 |
| Framing.CounterWrapReseeds | userspace/libscap/examples/02-validatebuffer/test.c:164-167 | as written, after sentinel 0xFFFFFFFE the counter reads as unseeded, and any next sentinel is accepted |
| Framing.ContiguousRunFramed | userspace/libscap/examples/02-validatebuffer/test.c:164-185 | well-formed records with consecutive sentinels are framed, and the counter ends one past the last sentinel |
| Framing.UnsentinelledRun | userspace/libscap/examples/02-validatebuffer/test.c:181-186 | without sentinels a run is framed iff every record is well formed |
| Framing.UnsentinelledCounter | userspace/libscap/examples/02-validatebuffer/test.c:184-185 | without sentinels the counter advances by one, mod 2^32, per record |
| Framing.SeededRunCounts | userspace/libscap/examples/02-validatebuffer/test.c:164-185 | from seed k, when k + nevents does not pass 0xFFFFFFFF, a framed run carries sentinels k, k+1, … and ends with the counter at k + nevents |
| Framing.UnseededRunCounts | userspace/libscap/examples/02-validatebuffer/test.c:164-185 | from -1, the first sentinel seeds the counter; when that seed + nevents does not pass 0xFFFFFFFF, the run carries consecutive sentinels and ends with the counter at that seed + nevents |
| Framing.SeededWindowCounts | userspace/libscap/examples/02-validatebuffer/test.c:184-188 | a window accepted from seed k leaves `*cur_event` = k + `*nevents` whenever k + `*nevents` does not pass 0xFFFFFFFF |
| Framing.UnseededWindowCounts | userspace/libscap/examples/02-validatebuffer/test.c:164-188 | a window accepted from -1 leaves `*cur_event` = the first record's leading sentinel + `*nevents` whenever that sum does not pass 0xFFFFFFFF |
| Ring.ReadSize | userspace/libscap/examples/02-validatebuffer/test.c:61 | the window runs from the tail forward to the head: (head − tail) mod size, empty iff head = tail |
| Ring.Retire | userspace/libscap/examples/02-validatebuffer/test.c:42-48 | the single conditional subtraction gives (tail + lastreadsize) mod size, below the ring size |
| Ring.RetireReadSize | userspace/libscap/examples/02-validatebuffer/test.c:42-66 | retiring n readable bytes shortens what is readable by exactly n |
| Ring.SecondReadEmpty | userspace/libscap/examples/02-validatebuffer/test.c:61-66 | with the head unchanged, the call after a call serves an empty window |
| Ring.Device.ReadBuf | userspace/libscap/examples/02-validatebuffer/test.c:32-75 | the tail becomes Retire(tail, lastreadsize); `len` = the new lastreadsize = ReadSize from the new tail; the window starts at the new tail; the head is unchanged; the result is SCAP_SUCCESS; `len` is what was readable less the window retired |

## Left out

- `main` is left out: it opens the capture session, loops over the devices, prints statistics
  and dumps a failing window to a file. Its one relevant act is to reset each device's
  counter to -1 before validating a window, which is why the lemmas start from an unseeded
  counter (`UnseededRunCounts`) as well as a seeded one.
- The memory fence in `scap_readbuf_local` is left out, and so is the kernel producer that
  advances `head` concurrently. The model is sequential and the head is read as found, under
  the assumption stated below for `Ring.Device.ReadBuf`.
- `get_read_size` is not part of this model. `Ring.ReadSize` takes it to be
  (head − tail) mod ring size.
- The real layout of `struct ppm_evt_hdr`, `RING_BUF_SIZE` and `g_event_info` are
  parameters, not the header files' values.
- A window that wraps past the physical end of the ring (`start + len` larger than the ring)
  is not modelled. The source treats every window as a flat span.
- The validator is modelled only on a window that already holds the bytes (`buf[..bufLen]`).
  The `char*` into the ring and the negative values an `int buf_len` could take are not
  modelled. `bufLen` is a `nat`.
- The source's `event_size == -1` branch (an "unrecognized event") has no counterpart. The
  size is a `nat` and is proved never to be -1 (`EventSize`). The unregistered-type failure
  (`UnknownType`) takes the place that the branch's message suggests.
- SizeOracle.GetEventSize: uses unbounded integers, not the `int32_t` accumulator and the
  `size_t` result. `AccumulatorFitsInt32` shows that these do not wrap when a type has at
  most 32768 parameters.
- Ring.Device.ReadBuf: requires a ring of at most 2^31 bytes (`Device.Valid`). This keeps
  the source's `uint32_t` sum of tail and last read size from wrapping.
- Ring.Device.ReadBuf: also requires (`Device.Valid`) that the producer has not lapped the
  consumer: the window served last time, `lastReadSize` bytes from the tail, is still within
  what is readable. The source checks nothing of the kind, and a producer that laps the ring
  overwrites unread data. Its last `ensures` (`len` is what was readable less the window
  retired) holds only under this assumption; a lapping producer is not modelled.
- The text of the `stderr` messages is left out. Each failure keeps the values that
  identify it; the others the messages print (for a sentinel mismatch, the event type, the
  event size and the bytes remaining) can be rebuilt from the window and the reported
  offset.
