/** The log's framing `[payload length][checksum][chain hash][payload]`, for any hash, checksum and
    payload format. */
module Frames {
  import opened Prelude
  import opened LittleEndian
  import opened Keys

  /** What the framing is built on: the chain hash, the checksum, and how a write becomes a payload. */
  datatype Format = Format(
    hash: Hash,
    checksum: Bytes -> u32,
    payload: Write -> Bytes,
    parse: Bytes -> Option<Write>)

  const HEADER_LENGTH := 40

  const GENESIS: Digest := [
    0, 0, 0, 0, 0, 0, 0, 0, 0, 0, 0, 0, 0, 0, 0, 0,
    0, 0, 0, 0, 0, 0, 0, 0, 0, 0, 0, 0, 0, 0, 0, 0]

  /** What the chain hash of a record is computed over. */
  function LinkInput(prev: Digest, crc: u32, payload: Bytes): Bytes {
    prev + Le(crc, 4) + payload
  }

  /** `chain_i = hash(chain_{i-1} || crc || payload)`. */
  function Link(fmt: Format, payload: Bytes, prev: Digest): Digest {
    fmt.hash(LinkInput(prev, fmt.checksum(payload), payload))
  }

  function Frame(fmt: Format, payload: Bytes, prev: Digest): (f: Bytes)
    ensures |f| == HEADER_LENGTH + |payload|
  {
    Le(|payload|, 4) + Le(fmt.checksum(payload), 4) + Link(fmt, payload, prev) + payload
  }

  function Encode(fmt: Format, w: Write, prev: Digest): Bytes {
    Frame(fmt, fmt.payload(w), prev)
  }

  datatype Record = Record(total: nat, write: Write, chain: Digest)

  function FrameLength(buf: Bytes): nat
    requires |buf| >= HEADER_LENGTH
  {
    HEADER_LENGTH + FromLe(buf[..4])
  }

  predicate IsCompleteFrame(buf: Bytes) {
    |buf| >= HEADER_LENGTH && |buf| >= FrameLength(buf)
  }

  function StoredCrc(buf: Bytes): nat
    requires |buf| >= HEADER_LENGTH
  {
    FromLe(buf[4..8])
  }

  function StoredPayload(buf: Bytes): Bytes
    requires IsCompleteFrame(buf)
  {
    buf[HEADER_LENGTH..FrameLength(buf)]
  }

  /** The record `buf` begins with, if it begins with a complete one whose checksum matches. */
  function Decode(fmt: Format, buf: Bytes): (r: Option<Record>)
    ensures r.Some? ==> IsCompleteFrame(buf) && r.value.total == FrameLength(buf)
    ensures r.Some? ==> StoredCrc(buf) == fmt.checksum(StoredPayload(buf))
  {
    if !IsCompleteFrame(buf) || fmt.checksum(StoredPayload(buf)) != StoredCrc(buf) then None
    else
      var write :- fmt.parse(StoredPayload(buf));
      Some(Record(FrameLength(buf), write, buf[8..HEADER_LENGTH]))
  }

  // ---- Reading back ----

  /** A payload that fits its length field and parses. */
  predicate Valid(fmt: Format, payload: Bytes) {
    |payload| < 0x1_0000_0000 && fmt.parse(payload).Some?
  }

  /** A write whose record reads back as itself. */
  predicate Faithful(fmt: Format, w: Write) {
    |fmt.payload(w)| < 0x1_0000_0000 && fmt.parse(fmt.payload(w)) == Some(w)
  }

  lemma Slices(a: Bytes, b: Bytes, c: Bytes, d: Bytes, tail: Bytes)
    requires |a| == 4 && |b| == 4 && |c| == 32
    ensures var f := a + b + c + d + tail;
            && f[..4] == a && f[4..8] == b && f[8..HEADER_LENGTH] == c
            && f[HEADER_LENGTH..HEADER_LENGTH + |d|] == d && f[HEADER_LENGTH + |d|..] == tail
  {
  }

  lemma FrameFields(fmt: Format, payload: Bytes, prev: Digest, tail: Bytes)
    ensures var f := Frame(fmt, payload, prev) + tail;
            && f[8..HEADER_LENGTH] == Link(fmt, payload, prev)
            && f[HEADER_LENGTH..HEADER_LENGTH + |payload|] == payload
            && f[HEADER_LENGTH + |payload|..] == tail
            && StoredCrc(f) == fmt.checksum(payload)
            && (FrameLength(f) == HEADER_LENGTH + |payload| <==> |payload| < 0x1_0000_0000)
  {
    Slices(Le(|payload|, 4), Le(fmt.checksum(payload), 4), Link(fmt, payload, prev), payload, tail);
    Ranges();
    ReadsBack(|payload|, 4);
    ReadsBack(fmt.checksum(payload), 4);
  }

  /** Bytes that decode, with the chain hash they should carry, are the frame of their payload. */
  lemma DecodedIsFrame(fmt: Format, buf: Bytes, prev: Digest)
    requires Decode(fmt, buf).Some?
    requires Decode(fmt, buf).value.chain == Link(fmt, StoredPayload(buf), prev)
    ensures Valid(fmt, StoredPayload(buf))
    ensures buf[..FrameLength(buf)] == Frame(fmt, StoredPayload(buf), prev)
  {
    var total := FrameLength(buf);
    Ranges();
    FromLeBound(buf[..4]);
    WritesBack(buf[..4]);
    WritesBack(buf[4..8]);
    assert buf[..total] == buf[..4] + buf[4..8] + buf[8..HEADER_LENGTH] + buf[HEADER_LENGTH..total];
  }

  /** Every strict prefix of a frame is a torn tail: it neither decodes nor looks complete. */
  lemma StrictPrefixIsTorn(fmt: Format, payload: Bytes, prev: Digest, cut: nat)
    requires |payload| < 0x1_0000_0000
    requires cut < |Frame(fmt, payload, prev)|
    ensures !IsCompleteFrame(Frame(fmt, payload, prev)[..cut])
    ensures Decode(fmt, Frame(fmt, payload, prev)[..cut]) == None
  {
    var f := Frame(fmt, payload, prev);
    FrameFields(fmt, payload, prev, []);
    assert f + [] == f;
    if cut >= HEADER_LENGTH {
      assert f[..cut][..4] == f[..4];
    }
  }

  /** What follows a record cannot change how it decodes. */
  lemma DecodeIsLocal(fmt: Format, a: Bytes, b: Bytes)
    requires IsCompleteFrame(a)
    ensures IsCompleteFrame(a + b) && FrameLength(a + b) == FrameLength(a)
    ensures StoredPayload(a + b) == StoredPayload(a)
    ensures Decode(fmt, a + b) == Decode(fmt, a)
  {
    assert (a + b)[..4] == a[..4];
    assert (a + b)[4..8] == a[4..8];
    assert (a + b)[8..HEADER_LENGTH] == a[8..HEADER_LENGTH];
    assert (a + b)[HEADER_LENGTH..FrameLength(a)] == a[HEADER_LENGTH..FrameLength(a)];
  }
}
