/** Byte-level vocabulary shared by the event size oracle, the integrity validator and the
    ring-buffer reader: fixed-width unsigned integers, little-endian field decoding, and the
    layout of an event header (struct ppm_evt_hdr), whose definition is not part of this model
    and is therefore a parameter. */
module Wire {

  type u8 = x: int | 0 <= x < 0x100
  type u16 = x: int | 0 <= x < 0x1_0000
  type u32 = x: int | 0 <= x < 0x1_0000_0000

  /** The validator's "not yet seeded" cursor: a uint32_t holding -1. */
  const NO_SEED: u32 := 0xFFFF_FFFF

  /** ++ on a uint32_t: wraps from 0xFFFFFFFF to 0. */
  function Inc(x: u32): u32 {
    if x == 0xFFFF_FFFF then 0 else x + 1
  }

  /** Incrementing and then adding n is adding n + 1, modulo 2^32. */
  lemma IncAdd(x: u32, n: nat)
    ensures (Inc(x) + n) % 0x1_0000_0000 == (x + 1 + n) % 0x1_0000_0000
  {
    if x == 0xFFFF_FFFF {
      assert x + 1 + n == 0x1_0000_0000 + n;
    }
  }

  /** A little-endian uint16_t made of two bytes. */
  function U16Of(lo: u8, hi: u8): u16 {
    lo + 0x100 * hi
  }

  /** A little-endian uint32_t made of four bytes. */
  function U32Of(b0: u8, b1: u8, b2: u8, b3: u8): u32 {
    b0 + 0x100 * b1 + 0x1_0000 * b2 + 0x100_0000 * b3
  }

  /** The uint16_t stored at byte i of s. */
  function U16At(s: seq<u8>, i: nat): u16
    requires i + 2 <= |s|
  {
    U16Of(s[i], s[i + 1])
  }

  /** The uint32_t stored at byte i of s. */
  function U32At(s: seq<u8>, i: nat): u32
    requires i + 4 <= |s|
  {
    U32Of(s[i], s[i + 1], s[i + 2], s[i + 3])
  }

  /** Where a record header keeps its fields, and whether sentinel framing
      (PPM_ENABLE_SENTINEL) is compiled in. hdrSize is sizeof(struct ppm_evt_hdr);
      the header holds the event type as a uint16_t at typeOffset and, with sentinels,
      the leading sentinel as a uint32_t at sentinelOffset. */
  datatype Layout = Layout(hdrSize: nat, typeOffset: nat, sentinelOffset: nat, sentinels: bool)
  {
    predicate Valid() {
      && typeOffset + 2 <= hdrSize
      && (sentinels ==> sentinelOffset + 4 <= hdrSize)
    }

    /** Bytes after the parameters: the trailing sentinel, when sentinels are enabled. */
    function TrailerSize(): nat {
      if sentinels then 4 else 0
    }
  }

  /** The event-type registry (g_event_info): the number of parameters of each type. */
  type Registry = seq<nat>
}
