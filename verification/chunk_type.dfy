/** A PNG chunk-type code: four bytes whose letter case carries the four
    property flags of the chunk naming convention (section 5.4 of
    ISO/IEC 15948:2003). Text is handled as its UTF-8 bytes. */
module ChunkTypes {
  import opened Bytes
  import opened Errors
  import Utf8

  type Bytes4 = s: seq<u8> | |s| == 4 witness [0, 0, 0, 0]

  /** `u8::is_ascii_uppercase`. */
  predicate IsUpper(b: u8) {
    'A' as int <= b <= 'Z' as int
  }

  /** `u8::is_ascii_lowercase`. */
  predicate IsLower(b: u8) {
    'a' as int <= b <= 'z' as int
  }

  /** `u8::is_ascii_alphabetic`. */
  predicate IsAlphabetic(b: u8) {
    IsUpper(b) || IsLower(b)
  }

  /** `iter().all(is_ascii_alphabetic)`, one byte after the other. */
  function AllAlphabetic(s: seq<u8>): (r: bool)
    ensures r <==> forall i | 0 <= i < |s| :: IsAlphabetic(s[i])
  {
    if s == [] then true else IsAlphabetic(s[0]) && AllAlphabetic(s[1..])
  }

  /** Bit 5 (value 32) of a byte, the property bit the naming convention
      assigns to each of the four bytes. */
  predicate PropertyBit(b: u8) {
    (b / 32) % 2 == 1
  }

  datatype ChunkType = ChunkType(bytes: Bytes4) {

    /** Ancillary bit clear: needed to display the image. */
    function IsCritical(): (r: bool)
      ensures r <==> IsAlphabetic(bytes[0]) && !PropertyBit(bytes[0])
    {
      IsUpper(bytes[0])
    }

    /** Private bit clear: a registered, public chunk type. */
    function IsPublic(): (r: bool)
      ensures r <==> IsAlphabetic(bytes[1]) && !PropertyBit(bytes[1])
    {
      IsUpper(bytes[1])
    }

    /** Reserved bit clear, as the current standard requires. */
    function IsReservedBitValid(): (r: bool)
      ensures r <==> IsAlphabetic(bytes[2]) && !PropertyBit(bytes[2])
    {
      IsUpper(bytes[2])
    }

    /** Safe-to-copy bit set: editors may copy the chunk unchanged. */
    function IsSafeToCopy(): (r: bool)
      ensures r <==> IsAlphabetic(bytes[3]) && PropertyBit(bytes[3])
    {
      IsLower(bytes[3])
    }

    /** Four letters whose reserved bit is clear. */
    function IsValid(): (r: bool)
      ensures r <==> (forall i | 0 <= i < 4 :: IsAlphabetic(bytes[i])) && !PropertyBit(bytes[2])
    {
      IsReservedBitValid() && AllAlphabetic(bytes)
    }

    /** `Display`: the lossy UTF-8 rendering of the four bytes. The result
        is always well-formed text, and it is the bytes themselves exactly
        when they already are well-formed. */
    function ToText(): (r: seq<u8>)
      ensures Utf8.Valid(r)
      ensures r == bytes <==> Utf8.Valid(bytes)
    {
      Utf8.LossyValid(bytes);
      Utf8.LossyIdentity(bytes);
      Utf8.Lossy(bytes)
    }
  }

  /** `TryFrom<[u8; 4]>`: never fails, keeps the array as it is. */
  function FromBytes(b: Bytes4): (r: Result<ChunkType>)
    ensures r.Ok? && r.value.bytes == b
  {
    Ok(ChunkType(b))
  }

  /** `FromStr`: the text must be exactly four bytes, all ASCII letters. */
  function FromStr(s: seq<u8>): (r: Result<ChunkType>)
    ensures |s| != 4 ==> r == Err(BadLength(|s|))
    ensures |s| == 4 && !(forall i | 0 <= i < 4 :: IsAlphabetic(s[i])) ==> r == Err(BadChars)
    ensures r.Ok? <==> |s| == 4 && forall i | 0 <= i < 4 :: IsAlphabetic(s[i])
    ensures r.Ok? ==> r.value.bytes == s && r == FromBytes(s)
  {
    if |s| != 4 then Err(BadLength(|s|))
    else if !AllAlphabetic(s) then Err(BadChars)
    else Ok(ChunkType([s[0], s[1], s[2], s[3]]))
  }

  // ---------------------------------------------------------------------------
  // Properties.

  /** On letters, each flag is the property bit of its byte, as the naming
      convention defines it: clear for critical, public and reserved-valid,
      set for safe-to-copy. */
  lemma FlagsFollowPropertyBits(t: ChunkType)
    requires AllAlphabetic(t.bytes)
    ensures t.IsCritical() <==> !PropertyBit(t.bytes[0])
    ensures t.IsPublic() <==> !PropertyBit(t.bytes[1])
    ensures t.IsReservedBitValid() <==> !PropertyBit(t.bytes[2])
    ensures t.IsSafeToCopy() <==> PropertyBit(t.bytes[3])
  {
  }

  /** Codes are equal exactly when their four bytes are. */
  lemma EqualityIsBytewise(a: ChunkType, b: ChunkType)
    ensures a == b <==> a.bytes == b.bytes
  {
  }

  /** A code built from text is valid exactly when its third letter is
      upper case. */
  lemma FromStrValidity(s: seq<u8>)
    requires FromStr(s).Ok?
    ensures FromStr(s).value.IsValid() <==> IsUpper(s[2])
  {
  }

  /** Text that `FromStr` accepts renders back unchanged. */
  lemma TextRoundTrip(s: seq<u8>)
    requires FromStr(s).Ok?
    ensures FromStr(s).value.ToText() == s
  {
    Utf8.AsciiValid(s);
  }

  /** A code of four letters renders to text that `FromStr` turns back
      into the same code. */
  lemma CodeRoundTrip(t: ChunkType)
    requires AllAlphabetic(t.bytes)
    ensures FromStr(t.ToText()) == Ok(t)
  {
    Utf8.AsciiValid(t.bytes);
  }

  /** "RuSt": critical, not public, reserved bit valid, safe to copy;
      valid; built from text it equals the code built from its bytes, and
      renders back to the same text. */
  lemma ExampleRuSt()
    ensures var t := FromStr([82, 117, 83, 116]);
      && t == FromBytes([82, 117, 83, 116])
      && t.value.IsCritical() && !t.value.IsPublic()
      && t.value.IsReservedBitValid() && t.value.IsSafeToCopy()
      && t.value.IsValid() && t.value.ToText() == [82, 117, 83, 116]
  {
    TextRoundTrip([82, 117, 83, 116]);
  }

  /** "ruSt" is not critical, "RUSt" is public, "RuST" is not safe to copy. */
  lemma ExampleFlagVariants()
    ensures !FromStr([114, 117, 83, 116]).value.IsCritical()
    ensures FromStr([82, 85, 83, 116]).value.IsPublic()
    ensures !FromStr([82, 117, 83, 84]).value.IsSafeToCopy()
  {
  }

  /** "Rust" is accepted as text but its reserved bit is set, so it is not
      valid; "Ru1t" is refused for its digit and "Ru" for its length. */
  lemma ExampleRejections()
    ensures var t := FromStr([82, 117, 115, 116]);
      t.Ok? && !t.value.IsReservedBitValid() && !t.value.IsValid()
    ensures FromStr([82, 117, 49, 116]) == Err(BadChars)
    ensures FromStr([82, 117]) == Err(BadLength(2))
  {
  }
}
