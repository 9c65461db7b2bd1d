/** Machine integers of the codec and the big-endian encoding of `u32`
    (`u32::to_be_bytes` / `u32::from_be_bytes`). */
module Bytes {

  /** An unsigned 8-bit value (`u8`). */
  type u8 = x: int | 0 <= x < 0x100

  /** An unsigned 32-bit value (`u32`). */
  type u32 = x: int | 0 <= x < 0x1_0000_0000

  /** Number of distinct `u32` values; `as u32` casts reduce modulo this. */
  const U32Modulus: int := 0x1_0000_0000

  /** `n.to_be_bytes()`: the most significant byte first. */
  function ToBE(n: u32): (r: seq<u8>)
    ensures |r| == 4
  {
    [n / 0x100 / 0x100 / 0x100, n / 0x100 / 0x100 % 0x100, n / 0x100 % 0x100, n % 0x100]
  }

  /** `u32::from_be_bytes` of a 4-byte array. */
  function FromBE(s: seq<u8>): (n: u32)
    requires |s| == 4
  {
    (((s[0] as int) * 0x100 + s[1]) * 0x100 + s[2]) * 0x100 + s[3]
  }

  /** A byte appended below a number is recovered by division and remainder. */
  lemma SplitLow(hi: nat, lo: u8)
    ensures (hi * 0x100 + lo) / 0x100 == hi
    ensures (hi * 0x100 + lo) % 0x100 == lo
  {
  }

  /** Decoding an encoded value gives the value back. */
  lemma FromBEToBE(n: u32)
    ensures FromBE(ToBE(n)) == n
  {
    var m1 := n / 0x100;
    var m2 := m1 / 0x100;
    assert n == m1 * 0x100 + n % 0x100;
    assert m1 == m2 * 0x100 + m1 % 0x100;
    assert m2 == (m2 / 0x100) * 0x100 + m2 % 0x100;
  }

  /** Encoding a decoded array gives the array back. */
  lemma ToBEFromBE(s: seq<u8>)
    requires |s| == 4
    ensures ToBE(FromBE(s)) == s
  {
    var m2 := (s[0] as int) * 0x100 + s[1];
    var m1 := m2 * 0x100 + s[2];
    SplitLow(m1, s[3]);
    SplitLow(m2, s[2]);
    SplitLow(s[0], s[1]);
  }

  /** Two 4-byte arrays decode to the same value only when they are equal. */
  lemma FromBEInjective(s: seq<u8>, t: seq<u8>)
    requires |s| == 4 && |t| == 4
    ensures FromBE(s) == FromBE(t) <==> s == t
  {
    if FromBE(s) == FromBE(t) {
      ToBEFromBE(s);
      ToBEFromBE(t);
    }
  }
}
