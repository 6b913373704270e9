/** Fixed-width little-endian integers, as `to_le_bytes` and `from_le_bytes` lay them out.
    Writing keeps the low bytes only, which is also what an `as u32` cast keeps. */
module LittleEndian {
  import opened Prelude

  function Le(n: nat, width: nat): (s: Bytes)
    ensures |s| == width
  {
    if width == 0 then [] else [n % 256] + Le(n / 256, width - 1)
  }

  function FromLe(s: Bytes): nat {
    if s == [] then 0 else s[0] + 256 * FromLe(s[1..])
  }

  /** How many values `width` bytes can hold. */
  function Range(width: nat): (r: nat)
    ensures r > 0
  {
    if width == 0 then 1 else 256 * Range(width - 1)
  }

  lemma Ranges()
    ensures Range(2) == 0x1_0000
    ensures Range(4) == 0x1_0000_0000
    ensures Range(8) == U64_MAX + 1
  {
    assert Range(0) == 1 && Range(1) == 256 && Range(2) == 0x1_0000;
    assert Range(3) == 0x100_0000 && Range(4) == 0x1_0000_0000;
    assert Range(5) == 0x100_0000_0000 && Range(6) == 0x1_0000_0000_0000;
    assert Range(7) == 0x100_0000_0000_0000;
  }

  lemma {:induction false} FromLeBound(s: Bytes)
    ensures FromLe(s) < Range(|s|)
  {
    if s != [] {
      FromLeBound(s[1..]);
    }
  }

  /** Reading undoes writing exactly on the values that fit. */
  lemma {:induction false} ReadsBack(n: nat, width: nat)
    ensures FromLe(Le(n, width)) == n <==> n < Range(width)
  {
    FromLeBound(Le(n, width));
    if n < Range(width) && width > 0 {
      ReadsBack(n / 256, width - 1);
      assert Le(n, width)[1..] == Le(n / 256, width - 1);
    }
  }

  /** Writing undoes reading on every byte string. */
  lemma {:induction false} WritesBack(s: Bytes)
    ensures Le(FromLe(s), |s|) == s
  {
    if s != [] {
      WritesBack(s[1..]);
      assert FromLe(s) % 256 == s[0] && FromLe(s) / 256 == FromLe(s[1..]);
    }
  }
}
