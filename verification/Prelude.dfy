/** Vocabulary shared by every layer: bytes, bounded integers, failure-compatible results. */
module Prelude {

  datatype Option<+T> = None | Some(value: T) {
    predicate IsFailure() {
      None?
    }

    function PropagateFailure<U>(): Option<U>
      requires None?
    {
      None
    }

    function Extract(): T
      requires Some?
    {
      value
    }
  }

  type byte = b: int | 0 <= b < 256

  type Bytes = seq<byte>

  /** A string as the bytes of its UTF-8 encoding. */
  type Text = Bytes

  const U64_MAX: int := 0xFFFF_FFFF_FFFF_FFFF

  type u16 = n: int | 0 <= n < 0x1_0000

  type u32 = n: int | 0 <= n < 0x1_0000_0000

  type u64 = n: int | 0 <= n <= U64_MAX

  /** A 32-byte hash value or request fingerprint. */
  type Digest = s: Bytes | |s| == 32 witness seq(32, _ => 0)

  /** SHA-256 (section 6.2 of FIPS 180-4) seen from outside: some total function to 32 bytes. */
  type Hash = Bytes -> Digest

  function SatAdd(a: u64, b: u64): (r: u64)
    ensures r == U64_MAX || r == a + b
    ensures r >= a && r >= b
  {
    if a + b <= U64_MAX then a + b else U64_MAX
  }

  lemma Associate(a: Bytes, b: Bytes, c: Bytes)
    ensures (a + b) + c == a + (b + c)
  {
  }
}
