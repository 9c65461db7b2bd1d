/** CRC-32/ISO-HDLC as used by PNG (section 5.5 of ISO/IEC 15948:2003):
    reflected polynomial 0xEDB88320, register preset to all ones and
    complemented at the end. `Checksum` is the bitwise reference definition;
    `Compute` is the table-driven loop a CRC routine runs over a buffer. */
module Crc32 {
  import opened Bytes
  import opened Words

  /** The generator x^32 + x^26 + x^23 + x^22 + x^16 + x^12 + x^11 + x^10
      + x^8 + x^7 + x^5 + x^4 + x^2 + x + 1 in reflected form: bit `i` of
      the constant holds the coefficient of x^(31 - i), and x^32 is implicit. */
  const Generator: u32 := 0xEDB8_8320

  /** The generator as a register word. */
  function Polynomial(): Word {
    seq(Width, i requires 0 <= i < Width => Bit(Generator, i))
  }

  /** The reflected generator word denotes the constant 0xEDB88320, and its
      top bit (the coefficient of x^0) is set. */
  lemma PolynomialValue()
    ensures ToNat(Polynomial()) == Generator
    ensures Polynomial()[Width - 1]
  {
    forall i | 0 <= i < Width ensures Polynomial()[i] == Bits(Generator, Width)[i] {
      BitsAt(Generator, Width, i);
    }
    assert Polynomial() == Bits(Generator, Width);
    Pow2Width();
    ToNatBits(Generator, Width);
    BitsTop(Generator, Width);
  }

  const BitsPerByte: nat := 8

  /** One bit step of the reflected shift register. */
  function Shift(c: Word): Word {
    if c[0] then Xor(Half(c), Polynomial()) else Half(c)
  }

  function ShiftN(c: Word, n: nat): Word
    decreases n
  {
    if n == 0 then c else ShiftN(Shift(c), n - 1)
  }

  /** The byte as the low eight bits of a word. */
  function ByteWord(b: u8): Word {
    Bits(b, Width)
  }

  /** Feed one byte, least significant bit first. */
  function UpdateByte(reg: Word, b: u8): Word {
    ShiftN(Xor(reg, ByteWord(b)), BitsPerByte)
  }

  /** Feed a byte sequence, front to back. */
  function Update(reg: Word, s: seq<u8>): Word
    decreases |s|
  {
    if s == [] then reg else Update(UpdateByte(reg, s[0]), s[1..])
  }

  /** The CRC-32 of `s`. */
  function Checksum(s: seq<u8>): u32 {
    WordBound(Xor(Update(Ones(), s), Ones()));
    ToNat(Xor(Update(Ones(), s), Ones()))
  }

  /** The bits of the CRC, least significant first, are the complement of
      the register fed `s` from all ones. */
  lemma ChecksumBits(s: seq<u8>)
    ensures Bits(Checksum(s), Width) == Xor(Update(Ones(), s), Ones())
  {
    BitsToNat(Xor(Update(Ones(), s), Ones()));
  }

  // ---------------------------------------------------------------------------
  // Linearity of the shift register over GF(2).

  /** The top register bit after a step is the bit that left at the bottom:
      the polynomial's own top bit is set. */
  lemma ShiftTop(c: Word)
    ensures Shift(c)[31] == c[0]
  {
    PolynomialValue();
    XorAt(Half(c), Polynomial());
  }

  lemma ShiftLinear(a: Word, b: Word)
    ensures Shift(Xor(a, b)) == Xor(Shift(a), Shift(b))
  {
    HalfLinear(a, b);
    if a[0] && b[0] {
      XorCancel(Half(a), Half(b), Polynomial());
    } else if a[0] {
      XorAssociates(Half(a), Polynomial(), Half(b));
      XorAssociates(Half(a), Half(b), Polynomial());
      XorCommutes(Polynomial(), Half(b));
    } else if b[0] {
      XorAssociates(Half(a), Half(b), Polynomial());
    }
  }

  lemma ShiftKernel(a: Word)
    ensures Shift(a) == Zero() <==> a == Zero()
  {
    if Shift(a) == Zero() {
      ShiftTop(a);
      assert Shift(a) == Half(a);
      forall i | 0 <= i < Width ensures a[i] == Zero()[i] {
        if i > 0 {
          assert a[i] == Half(a)[i - 1];
        }
      }
    }
  }

  lemma {:induction false} ShiftNLinear(a: Word, b: Word, n: nat)
    ensures ShiftN(Xor(a, b), n) == Xor(ShiftN(a, n), ShiftN(b, n))
    decreases n
  {
    if n > 0 {
      ShiftLinear(a, b);
      ShiftNLinear(Shift(a), Shift(b), n - 1);
    }
  }

  /** A clear register stays clear. */
  lemma {:induction false} ShiftNZero(n: nat)
    ensures ShiftN(Zero(), n) == Zero()
    decreases n
  {
    if n > 0 {
      ShiftKernel(Zero());
      ShiftNZero(n - 1);
    }
  }

  /** A register holding any set bit never becomes clear. */
  lemma {:induction false} ShiftNNonZero(a: Word, n: nat)
    requires a != Zero()
    ensures ShiftN(a, n) != Zero()
    decreases n
  {
    if n > 0 {
      var b := Shift(a);
      ShiftKernel(a);
      ShiftNNonZero(b, n - 1);
      assert ShiftN(a, n) == ShiftN(b, n - 1);
    }
  }

  /** The register never loses a difference. */
  lemma ShiftNKernel(a: Word, n: nat)
    ensures ShiftN(a, n) == Zero() <==> a == Zero()
  {
    if a == Zero() {
      ShiftNZero(n);
    } else {
      ShiftNNonZero(a, n);
    }
  }

  lemma ShiftNInjective(a: Word, b: Word, n: nat)
    ensures ShiftN(a, n) == ShiftN(b, n) <==> a == b
  {
    ShiftNLinear(a, b, n);
    ShiftNKernel(Xor(a, b), n);
    XorSelf(a, b);
    XorSelf(ShiftN(a, n), ShiftN(b, n));
  }

  /** Register states that differ stay different after any common suffix. */
  lemma {:induction false} UpdateInjective(a: Word, b: Word, s: seq<u8>)
    ensures Update(a, s) == Update(b, s) <==> a == b
    decreases |s|
  {
    if s != [] {
      ShiftNInjective(Xor(a, ByteWord(s[0])), Xor(b, ByteWord(s[0])), BitsPerByte);
      XorCancel(a, b, ByteWord(s[0]));
      UpdateInjective(UpdateByte(a, s[0]), UpdateByte(b, s[0]), s[1..]);
    }
  }

  /** Different bytes fed into the same register state give different states. */
  lemma UpdateByteDistinguishes(reg: Word, x: u8, y: u8)
    requires x != y
    ensures UpdateByte(reg, x) != UpdateByte(reg, y)
  {
    Pow2Width();
    ToNatBits(x, 32);
    ToNatBits(y, 32);
    XorCancel(ByteWord(x), ByteWord(y), reg);
    XorCommutes(ByteWord(x), reg);
    XorCommutes(ByteWord(y), reg);
    ShiftNInjective(Xor(reg, ByteWord(x)), Xor(reg, ByteWord(y)), BitsPerByte);
  }

  // ---------------------------------------------------------------------------
  // Streaming and error detection.

  /** Feeding `p + q` is feeding `p`, then `q`. */
  lemma {:induction false} UpdateAppend(reg: Word, p: seq<u8>, q: seq<u8>)
    ensures Update(reg, p + q) == Update(Update(reg, p), q)
    decreases |p|
  {
    if p == [] {
      assert p + q == q;
    } else {
      assert (p + q)[0] == p[0];
      assert (p + q)[1..] == p[1..] + q;
      UpdateAppend(UpdateByte(reg, p[0]), p[1..], q);
    }
  }

  /** Feeding a one-byte sequence is one byte step. */
  lemma UpdateSingle(reg: Word, b: u8)
    ensures Update(reg, [b]) == UpdateByte(reg, b)
  {
    assert [b][1..] == [];
  }

  /** Extending a fed prefix by one byte is one more byte step. */
  lemma UpdatePrefix(reg: Word, s: seq<u8>, i: nat)
    requires i < |s|
    ensures Update(reg, s[..i + 1]) == UpdateByte(Update(reg, s[..i]), s[i])
  {
    UpdateAppend(reg, s[..i], [s[i]]);
    assert s[..i + 1] == s[..i] + [s[i]];
    UpdateSingle(Update(reg, s[..i]), s[i]);
  }

  /** Changing exactly one byte of the input always changes the CRC. */
  lemma SingleByteChangeDetected(s: seq<u8>, j: nat, v: u8)
    requires j < |s| && v != s[j]
    ensures Checksum(s[j := v]) != Checksum(s)
  {
    var p, q := s[..j], s[j + 1..];
    assert s == p + ([s[j]] + q);
    assert s[j := v] == p + ([v] + q);
    UpdateAppend(Ones(), p, [s[j]] + q);
    UpdateAppend(Ones(), p, [v] + q);
    var r := Update(Ones(), p);
    assert ([s[j]] + q)[1..] == q;
    assert ([v] + q)[1..] == q;
    UpdateByteDistinguishes(r, s[j], v);
    UpdateInjective(UpdateByte(r, s[j]), UpdateByte(r, v), q);
    var a, b := Update(Ones(), s[j := v]), Update(Ones(), s);
    assert a != b;
    XorCancel(a, b, Ones());
    ToNatInjective(Xor(a, Ones()), Xor(b, Ones()));
  }

  // ---------------------------------------------------------------------------
  // The table-driven routine: one lookup per byte instead of eight bit steps.

  lemma Pow2Byte()
    ensures Pow2(BitsPerByte) == 0x100
  {
    assert Pow2(2) == 4;
    Pow2Double(2);
    Pow2Double(4);
  }

  /** `reg & 0xFF`: the register's low eight bits as a table index. */
  function LowByte(w: Word): u8 {
    ToNatBound(w[..BitsPerByte]);
    Pow2Byte();
    ToNat(w[..BitsPerByte])
  }

  /** `reg >> 8`: the register moved down eight positions, zero-filled. */
  function ShiftOut(w: Word): Word {
    w[BitsPerByte..] + Repeat(false, BitsPerByte)
  }

  /** Entry `i` of the 256-entry lookup table: byte `i` after eight register
      steps from an all-zero register. */
  function TableEntry(i: u8): Word {
    ShiftN(ByteWord(i), BitsPerByte)
  }

  /** One byte step of the table-driven routine:
      `table[(reg ^ b) & 0xFF] ^ (reg >> 8)`. */
  function TableStep(reg: Word, b: u8): Word {
    Xor(TableEntry(LowByte(Xor(reg, ByteWord(b)))), ShiftOut(reg))
  }

  /** Steps over clear low bits only move the register down. */
  lemma {:induction false} ShiftNClearLow(c: Word, k: nat)
    requires k <= Width
    requires forall i | 0 <= i < k :: !c[i]
    ensures ShiftN(c, k) == c[k..] + Repeat(false, k)
    decreases k
  {
    if k > 0 {
      assert Shift(c) == Half(c);
      ShiftNClearLow(Half(c), k - 1);
      assert Half(c)[k - 1..] == c[k..] + [false];
      assert Repeat(false, k) == [false] + Repeat(false, k - 1);
    }
  }

  /** A byte sets none of the register bits above its own eight. */
  lemma ByteWordHigh(b: u8)
    ensures forall i | BitsPerByte <= i < Width :: !ByteWord(b)[i]
  {
    Pow2Byte();
    BitsHigh(b, Width, BitsPerByte);
  }

  /** The byte formed from a word's low eight bits, as a word, is those bits
      alone. */
  lemma LowByteWord(x: Word)
    ensures forall i | 0 <= i < BitsPerByte :: ByteWord(LowByte(x))[i] == x[i]
    ensures forall i | BitsPerByte <= i < Width :: !ByteWord(LowByte(x))[i]
  {
    var n := LowByte(x);
    BitsToNat(x[..BitsPerByte]);
    BitsPrefix(n, BitsPerByte, Width);
    ByteWordHigh(n);
    assert forall i | 0 <= i < BitsPerByte :: ByteWord(n)[i] == ByteWord(n)[..BitsPerByte][i];
  }

  /** A word is its low byte combined with its bits above the low byte. */
  lemma LowHighSplit(x: Word)
    ensures Xor(ByteWord(LowByte(x)), Repeat(false, BitsPerByte) + x[BitsPerByte..]) == x
  {
    var low := ByteWord(LowByte(x));
    var high: Word := Repeat(false, BitsPerByte) + x[BitsPerByte..];
    LowByteWord(x);
    forall i | 0 <= i < Width ensures Xor(low, high)[i] == x[i] {
      if i >= BitsPerByte {
        assert high[i] == x[i];
      }
    }
    Extensional(Xor(low, high), x);
  }

  /** The table-driven byte step is the byte step of the definition. */
  lemma TableStepAgrees(reg: Word, b: u8)
    ensures TableStep(reg, b) == UpdateByte(reg, b)
  {
    var x := Xor(reg, ByteWord(b));
    var high: Word := Repeat(false, BitsPerByte) + x[BitsPerByte..];
    LowHighSplit(x);
    ShiftNLinear(ByteWord(LowByte(x)), high, BitsPerByte);
    ShiftNClearLow(high, BitsPerByte);
    ByteWordHigh(b);
    XorAt(reg, ByteWord(b));
    assert x[BitsPerByte..] == reg[BitsPerByte..];
  }

  /** A table entry is the register after its byte is fed into an all-zero
      register. */
  lemma TableEntryFromZero(i: u8)
    ensures TableEntry(i) == UpdateByte(Zero(), i)
  {
    XorZero(ByteWord(i));
  }

  /** Fill the lookup table, entry by entry. */
  method BuildTable() returns (table: seq<Word>)
    ensures |table| == 0x100
    ensures forall i | 0 <= i < 0x100 :: table[i] == TableEntry(i)
  {
    table := [];
    while |table| < 0x100
      invariant |table| <= 0x100
      invariant forall i | 0 <= i < |table| :: table[i] == TableEntry(i)
    {
      table := table + [TableEntry(|table|)];
    }
  }

  /** The CRC-32 of `s` as a table-driven routine computes it: build the
      table, do one lookup per byte, then complement. */
  method Compute(s: seq<u8>) returns (crc: u32)
    ensures crc == Checksum(s)
  {
    var table := BuildTable();
    var reg := Ones();
    var i := 0;
    while i < |s|
      invariant 0 <= i <= |s|
      invariant reg == Update(Ones(), s[..i])
    {
      TableStepAgrees(reg, s[i]);
      UpdatePrefix(Ones(), s, i);
      reg := Xor(table[LowByte(Xor(reg, ByteWord(s[i])))], ShiftOut(reg));
      i := i + 1;
    }
    assert s[..i] == s;
    WordBound(Xor(reg, Ones()));
    crc := ToNat(Xor(reg, Ones()));
  }
}
