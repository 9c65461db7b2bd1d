/** A PNG chunk (section 5.3 of ISO/IEC 15948:2003) and its wire form
    `length:u32 BE | type:4 | data | crc:u32 BE`, where the CRC covers the
    type bytes followed by the data. */
module Chunks {
  import opened Bytes
  import opened Errors
  import opened ChunkTypes
  import Crc32
  import Words
  import Utf8

  const LengthSize: nat := 4
  const TypeSize: nat := 4
  const CrcSize: nat := 4

  /** The bytes a chunk adds around its data: the smallest chunk. */
  const Overhead: nat := LengthSize + TypeSize + CrcSize

  /** `length` is the declared data length as stored; a parsed chunk keeps
      whatever its length field said. */
  datatype Chunk = Chunk(length: u32, chunkType: ChunkType, data: seq<u8>, crc: u32)

  /** `calculate_crc`: the CRC-32 of the type bytes followed by the data. */
  function CalculateCrc(t: ChunkType, data: seq<u8>): u32 {
    Crc32.Checksum(t.bytes + data)
  }

  /** The invariant construction establishes and parsing checks. */
  predicate CrcHolds(c: Chunk) {
    c.crc == CalculateCrc(c.chunkType, c.data)
  }

  /** `Chunk::new`: the length is `data.len() as u32`, which keeps the low
      32 bits of the size; the CRC is always computed, never supplied. */
  function New(t: ChunkType, data: seq<u8>): (c: Chunk)
    ensures c.chunkType == t && c.data == data
    ensures c.length == |data| % U32Modulus
    ensures |data| < U32Modulus ==> c.length == |data|
    ensures CrcHolds(c)
  {
    Chunk(|data| % U32Modulus, t, data, CalculateCrc(t, data))
  }

  /** `as_bytes`: the wire form of a chunk. */
  function AsBytes(c: Chunk): (r: seq<u8>)
    ensures |r| == Overhead + |c.data|
  {
    ToBE(c.length) + c.chunkType.bytes + c.data + ToBE(c.crc)
  }

  /** The fields `TryFrom<&[u8]>` splits off a buffer of full size: the
      length field, the type, everything up to the last four bytes as the
      data, and the last four bytes as the CRC field. */
  function Fields(b: seq<u8>): (c: Chunk)
    requires |b| >= Overhead
    ensures c.chunkType.bytes == b[LengthSize..LengthSize + TypeSize]
    ensures |c.data| == |b| - Overhead
  {
    var typeEnd := LengthSize + TypeSize;
    var crcStart := |b| - CrcSize;
    Chunk(FromBE(b[..LengthSize]), FromBytes(b[LengthSize..typeEnd]).value,
          b[typeEnd..crcStart], FromBE(b[crcStart..]))
  }

  /** `TryFrom<&[u8]>`: a buffer shorter than the three fixed fields is
      rejected; otherwise the fields are split off and the chunk is accepted
      exactly when its CRC field matches the CRC of its type and data. The
      length field is read but never compared with the size of the data. */
  function Parse(b: seq<u8>): (r: Result<Chunk>)
    ensures |b| < Overhead ==> r == Err(TooShort(|b|))
    ensures r.Ok? ==> CrcHolds(r.value)
  {
    if |b| < Overhead then Err(TooShort(|b|))
    else
      var c := Fields(b);
      var calculated := CalculateCrc(c.chunkType, c.data);
      if c.crc != calculated then Err(CrcMismatch(c.crc, calculated))
      else Ok(c)
  }

  /** `data_as_string`: the data as text when it is well-formed UTF-8. */
  function DataAsString(c: Chunk): (r: Result<seq<u8>>)
    ensures r.Ok? <==> Utf8.Valid(c.data)
    ensures r.Ok? ==> r.value == c.data
    ensures r.Err? ==> r.error == InvalidUtf8
  {
    if Utf8.Valid(c.data) then Ok(c.data) else Err(InvalidUtf8)
  }

  // ---------------------------------------------------------------------------
  // Round trips.

  /** The chained type and data are one stream through the register: the
      CRC's bits are the complement of the register fed the type from all
      ones and then the data. */
  lemma CalculateCrcStreams(t: ChunkType, data: seq<u8>)
    ensures Words.Bits(CalculateCrc(t, data), Words.Width)
         == Words.Xor(Crc32.Update(Crc32.Update(Words.Ones(), t.bytes), data), Words.Ones())
  {
    Crc32.ChecksumBits(t.bytes + data);
    Crc32.UpdateAppend(Words.Ones(), t.bytes, data);
  }

  /** The fields sit where `Parse` looks for them. */
  lemma AsBytesLayout(c: Chunk)
    ensures var b := AsBytes(c);
      && b[..4] == ToBE(c.length)
      && b[4..8] == c.chunkType.bytes
      && b[8..|b| - 4] == c.data
      && b[|b| - 4..] == ToBE(c.crc)
  {
    var b := AsBytes(c);
    assert b == ToBE(c.length) + c.chunkType.bytes + c.data + ToBE(c.crc);
  }

  /** Parsing a serialised chunk gives the chunk back exactly when its CRC
      invariant holds, whatever its length field says; otherwise it reports
      the mismatch. */
  lemma ParseAsBytes(c: Chunk)
    ensures Parse(AsBytes(c)) ==
      if CrcHolds(c) then Ok(c)
      else Err(CrcMismatch(c.crc, CalculateCrc(c.chunkType, c.data)))
  {
    AsBytesLayout(c);
    FromBEToBE(c.length);
    FromBEToBE(c.crc);
  }

  /** A freshly built chunk survives serialisation and parsing unchanged. */
  lemma NewRoundTrip(t: ChunkType, data: seq<u8>)
    ensures Parse(AsBytes(New(t, data))) == Ok(New(t, data))
  {
    ParseAsBytes(New(t, data));
  }

  /** A message stored in a new chunk reads back, after serialisation and
      parsing, as the same text exactly when it is well-formed UTF-8. */
  lemma MessageRoundTrip(t: ChunkType, msg: seq<u8>)
    ensures Parse(AsBytes(New(t, msg))).Ok?
    ensures DataAsString(Parse(AsBytes(New(t, msg))).value).Ok? <==> Utf8.Valid(msg)
    ensures Utf8.Valid(msg) ==> DataAsString(Parse(AsBytes(New(t, msg))).value) == Ok(msg)
  {
    NewRoundTrip(t, msg);
  }

  /** Re-serialising the fields of a buffer gives the buffer back. */
  lemma AsBytesOfFields(b: seq<u8>)
    requires |b| >= Overhead
    ensures AsBytes(Fields(b)) == b
  {
    ToBEFromBE(b[..4]);
    ToBEFromBE(b[|b| - 4..]);
    assert b == b[..4] + b[4..8] + b[8..|b| - 4] + b[|b| - 4..];
  }

  /** Serialising a parsed chunk reproduces the buffer byte for byte. */
  lemma AsBytesOfParse(b: seq<u8>)
    requires Parse(b).Ok?
    ensures AsBytes(Parse(b).value) == b
  {
    AsBytesOfFields(b);
  }

  // ---------------------------------------------------------------------------
  // What the CRC protects and what it does not.

  /** Buffers that agree from position 4 on agree on every slice there. */
  lemma SameSlice(b: seq<u8>, b': seq<u8>, lo: nat, hi: nat)
    requires |b| == |b'| && 4 <= lo <= hi <= |b| && b[4..] == b'[4..]
    ensures b[lo..hi] == b'[lo..hi]
  {
    forall k | lo <= k < hi
      ensures b[k] == b'[k]
    {
      assert b[k] == b[4..][k - 4];
      assert b'[k] == b'[4..][k - 4];
    }
  }

  /** Two full-size buffers that differ only in their length fields split
      into the same fields apart from the length. */
  lemma FieldsBesideLength(b: seq<u8>, b': seq<u8>)
    requires |b| == |b'| >= Overhead && b[4..] == b'[4..]
    ensures Fields(b') == Fields(b).(length := FromBE(b'[..4]))
  {
    var n := |b|;
    SameSlice(b, b', 4, 8);
    SameSlice(b, b', 8, n - 4);
    SameSlice(b, b', n - 4, n);
  }

  /** The length field is not protected: any value in it is accepted and
      stored, and nothing else about the parsed chunk changes. */
  lemma DeclaredLengthIgnored(b: seq<u8>, n: u32)
    requires Parse(b).Ok?
    ensures |b| >= 4
    ensures Parse(ToBE(n) + b[4..]) == Ok(Parse(b).value.(length := n))
  {
    var b' := ToBE(n) + b[4..];
    assert b'[..4] == ToBE(n);
    assert b'[4..] == b[4..];
    FromBEToBE(n);
    FieldsBesideLength(b, b');
  }

  /** Parsing a buffer of full size succeeds exactly when the CRC field
      matches the CRC of everything between the length field and it. */
  lemma ParseChecksCoveredBytes(b: seq<u8>)
    requires |b| >= Overhead
    ensures Parse(b).Ok? <==> FromBE(b[|b| - 4..]) == Crc32.Checksum(b[4..|b| - 4])
    ensures Parse(b).Err? ==>
      Parse(b).error == CrcMismatch(FromBE(b[|b| - 4..]), Crc32.Checksum(b[4..|b| - 4]))
  {
    assert b[4..8] + b[8..|b| - 4] == b[4..|b| - 4];
  }

  /** A full-size buffer with its CRC field replaced splits into the same
      fields apart from the CRC. */
  lemma FieldsBesideCrc(b: seq<u8>, x: u32)
    requires |b| >= Overhead
    ensures Fields(b[..|b| - 4] + ToBE(x)) == Fields(b).(crc := x)
  {
    var n := |b|;
    var b' := b[..n - 4] + ToBE(x);
    assert b'[..4] == b[..4];
    assert b'[4..8] == b[4..8];
    assert b'[8..n - 4] == b[8..n - 4];
    assert b'[n - 4..] == ToBE(x);
    FromBEToBE(x);
  }

  /** An accepted chunk holds exactly what sits at the four positions of
      the wire layout: the length field, the type, the bytes between the
      type and the last four, and the CRC field. */
  lemma ParsedFields(b: seq<u8>)
    requires Parse(b).Ok?
    ensures var c := Parse(b).value;
      && |b| >= Overhead
      && c.length == FromBE(b[..4])
      && c.chunkType.bytes == b[4..8]
      && c.data == b[8..|b| - 4]
      && c.crc == FromBE(b[|b| - 4..])
  {
  }

  /** Replacing the CRC field of an accepted buffer by any other value gets
      the buffer rejected, and the error reports the new value against the
      CRC the chunk really has. */
  lemma OtherCrcRejected(b: seq<u8>, x: u32)
    requires Parse(b).Ok? && x != Parse(b).value.crc
    ensures Parse(b[..|b| - 4] + ToBE(x)) == Err(CrcMismatch(x, Parse(b).value.crc))
  {
    FieldsBesideCrc(b, x);
  }

  /** A full-size buffer whose CRC field does not match is rejected with a
      CRC mismatch. */
  lemma MismatchRejected(b: seq<u8>)
    requires |b| >= Overhead
    requires FromBE(b[|b| - 4..]) != Crc32.Checksum(b[4..|b| - 4])
    ensures Parse(b).Err? && Parse(b).error.CrcMismatch?
  {
    ParseChecksCoveredBytes(b);
  }

  /** Changing one byte between the length field and the CRC field changes
      the CRC of that stretch, so a CRC field that matched no longer does. */
  lemma CoveredChangeBreaksMatch(b: seq<u8>, i: nat, v: u8)
    requires 4 <= i < |b| - 4 && v != b[i]
    requires FromBE(b[|b| - 4..]) == Crc32.Checksum(b[4..|b| - 4])
    ensures FromBE(b[i := v][|b| - 4..]) != Crc32.Checksum(b[i := v][4..|b| - 4])
  {
    var covered := b[4..|b| - 4];
    assert b[i := v][4..|b| - 4] == covered[i - 4 := v];
    assert b[i := v][|b| - 4..] == b[|b| - 4..];
    Crc32.SingleByteChangeDetected(covered, i - 4, v);
  }

  /** Changing one byte of a CRC field that matched makes it mismatch. */
  lemma CrcFieldChangeBreaksMatch(b: seq<u8>, i: nat, v: u8)
    requires 8 <= |b| - 4 <= i < |b| && v != b[i]
    requires FromBE(b[|b| - 4..]) == Crc32.Checksum(b[4..|b| - 4])
    ensures FromBE(b[i := v][|b| - 4..]) != Crc32.Checksum(b[i := v][4..|b| - 4])
  {
    var n := |b|;
    assert b[i := v][4..n - 4] == b[4..n - 4];
    assert b[i := v][n - 4..] == b[n - 4..][i - (n - 4) := v];
    FromBEInjective(b[i := v][n - 4..], b[n - 4..]);
  }

  /** The type, the data and the CRC field are protected: changing any one
      of their bytes in an accepted buffer makes parsing fail with a CRC
      mismatch. */
  lemma CorruptionDetected(b: seq<u8>, i: nat, v: u8)
    requires Parse(b).Ok?
    requires 4 <= i < |b| && v != b[i]
    ensures Parse(b[i := v]).Err? && Parse(b[i := v]).error.CrcMismatch?
  {
    ParseChecksCoveredBytes(b);
    if i < |b| - 4 {
      CoveredChangeBreaksMatch(b, i, v);
    } else {
      CrcFieldChangeBreaksMatch(b, i, v);
    }
    MismatchRejected(b[i := v]);
  }
}
