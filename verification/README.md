# pngme chunk codec in Dafny

This project models the chunk layer of `pngme`, a small tool that hides
messages in PNG files. The model covers two parts:

- **Chunk-type codes** (`src/chunk_type.rs`). A code is four bytes. The
  letter case of each byte carries one property flag of the PNG naming
  convention (section 5.4 of ISO/IEC 15948:2003).
- **Chunks** (`src/chunk.rs`). A chunk is a length, a type, a data payload
  and a CRC. On the wire it is `length:u32 BE | type:4 | data | crc:u32 BE`
  (section 5.3 of ISO/IEC 15948:2003). The CRC is CRC-32/ISO-HDLC over the
  type bytes followed by the data (section 5.5 of the same standard).

Everything is a pure function over byte sequences, and every failure is a
`Result`. The modules are:

- `Bytes` (`bytes.dfy`): `u8`/`u32` and the big-endian `to_be_bytes` /
  `from_be_bytes` pair.
- `Errors` (`errors.dfy`): one error case per failure cause, and the
  `Result` type.
- `Utf8` (`utf8.dfy`): well-formed UTF-8 and `String::from_utf8_lossy`,
  including its rule that each maximal ill-formed subpart becomes one
  U+FFFD.
- `ChunkTypes` (`chunk_type.dfy`): the code, its flags, and its
  conversions to and from bytes and text. Text is modelled as its UTF-8
  bytes.
- `Words` and `Crc32` (`words.dfy`, `crc32.dfy`): the CRC. `Words` holds
  32-bit registers as bit sequences, least significant bit first.
  `Crc32.Checksum` is the bitwise definition: reflected polynomial
  0xEDB88320, register preset to all ones, result complemented.
  `Crc32.Compute` is the table-driven loop: one lookup per byte in a
  256-entry table built from the same polynomial.
- `Chunks` (`chunk.dfy`): construction, serialisation and parsing, with
  their round trips and what the CRC does and does not protect.

The parser takes everything between the type and the last four bytes as
the data, and it never compares the length field with that size
(`src/chunk.rs:69-79`). `Chunks.Parse` does the same, and
`Chunks.DeclaredLengthIgnored` proves that any value in the length field is
accepted and stored unchanged.

## Model

| member | source | states |
|---|---|---|
| ChunkTypes.FromBytes | src/chunk_type.rs:37-43 | Building a code from a 4-byte array always succeeds and keeps the array as its bytes. |
| ChunkTypes.AllAlphabetic | src/chunk_type.rs:53 | The byte-by-byte check is true exactly when every byte is an ASCII letter. |
| ChunkTypes.FromStr | src/chunk_type.rs:48-59 | Text that is not 4 bytes long fails with `BadLength` and its length. Four bytes with a non-letter fail with `BadChars`. Parsing succeeds exactly for four letters, and then holds those bytes and equals `FromBytes` of them. |
| ChunkTypes.FlagsFollowPropertyBits | src/chunk_type.rs:20-34 | On letters, the critical, public and reserved-valid flags hold exactly when bit 5 of bytes 0, 1 and 2 is clear. Safe-to-copy holds exactly when bit 5 of byte 3 is set. |
| ChunkTypes.ChunkType.IsCritical | src/chunk_type.rs:20-22 | The critical flag holds exactly when byte 0 is a letter whose property bit (bit 5) is clear. |
| ChunkTypes.ChunkType.IsPublic | src/chunk_type.rs:24-26 | The public flag holds exactly when byte 1 is a letter whose property bit is clear. |
| ChunkTypes.ChunkType.IsReservedBitValid | src/chunk_type.rs:28-30 | The reserved-bit flag holds exactly when byte 2 is a letter whose property bit is clear. |
| ChunkTypes.ChunkType.IsSafeToCopy | src/chunk_type.rs:32-34 | The safe-to-copy flag holds exactly when byte 3 is a letter whose property bit is set. |
| ChunkTypes.ChunkType.IsValid | src/chunk_type.rs:16-18 | A code is valid exactly when all four bytes are letters and the property bit of byte 2 is clear. |
| ChunkTypes.EqualityIsBytewise | src/chunk_type.rs:6-9 | Two codes are equal exactly when their byte arrays are equal. |
| ChunkTypes.FromStrValidity | src/chunk_type.rs:16-18 | A code parsed from text is valid exactly when its third byte is upper case. |
| ChunkTypes.ChunkType.ToText | src/chunk_type.rs:62-66 | Rendering always yields well-formed UTF-8. It returns the bytes unchanged exactly when they are already well-formed. |
| ChunkTypes.TextRoundTrip | src/chunk_type.rs:151-155 | Text that parses renders back to the same text. |
| ChunkTypes.CodeRoundTrip | src/chunk_type.rs:45-66 | A code of four letters renders to text that parses back to the same code. |
| ChunkTypes.ExampleRuSt | src/chunk_type.rs:74-140 | "RuSt" parses to the code built from [82, 117, 83, 116]. It is critical, not public, reserved-valid, safe to copy and valid, and it renders as "RuSt". |
| ChunkTypes.ExampleFlagVariants | src/chunk_type.rs:94-134 | "ruSt" is not critical, "RUSt" is public, and "RuST" is not safe to copy. |
| ChunkTypes.ExampleRejections | src/chunk_type.rs:118-149 | "Rust" parses but is neither reserved-valid nor valid. "Ru1t" fails with `BadChars`, and "Ru" fails with `BadLength(2)`. |
| Utf8.LossyValid | src/chunk_type.rs:64 | Lossy decoding always produces well-formed UTF-8. |
| Utf8.LossyIdentity | src/chunk_type.rs:64 | Lossy decoding returns its input exactly when the input is well-formed. |
| Utf8.AsciiValid | src/chunk_type.rs:64 | ASCII bytes are well-formed UTF-8, so letters render unchanged. |
| Bytes.FromBEToBE | src/chunk.rs:71 | Decoding the big-endian bytes of a `u32` gives the number back. |
| Bytes.ToBEFromBE | src/chunk.rs:50-51 | Encoding the value of four bytes gives the same four bytes. |
| Bytes.FromBEInjective | src/chunk.rs:81 | Two 4-byte arrays decode to the same `u32` exactly when they are equal. |
| Crc32.PolynomialValue | src/chunk.rs:117 | The register's feedback word is the reflected generator 0xEDB88320, and its top bit is set. |
| Crc32.ChecksumBits | src/chunk.rs:117 | The 32 bits of the CRC, least significant first, are the complement of the register fed the input from all ones. |
| Crc32.TableStepAgrees | src/chunk.rs:117 | One table-driven byte step, `table[(reg ^ b) & 0xFF] ^ (reg >> 8)`, equals eight single-bit register steps. |
| Crc32.TableEntryFromZero | src/chunk.rs:117 | Table entry `i` is the register after byte `i` is fed into an all-zero register. |
| Crc32.Compute | src/chunk.rs:117 | Building the table and doing one lookup per byte, then complementing, yields the bitwise CRC-32 of the whole input. |
| Crc32.UpdateAppend | src/chunk.rs:111-116 | The CRC register over `p + q` is the register over `p`, then fed `q`. This is why the CRC over the type followed by the data is a CRC over one stream. |
| Crc32.UpdateInjective | src/chunk.rs:117 | Two different register states stay different after any common suffix of input. |
| Crc32.SingleByteChangeDetected | src/chunk.rs:110-118 | Changing any one byte of the input always changes the CRC. |
| Chunks.CalculateCrcStreams | src/chunk.rs:110-118 | The CRC of the type chained with the data is the complemented register fed the type from all ones and then the data. |
| Chunks.New | src/chunk.rs:17-27 | A new chunk keeps the type and data. Its length is the data size modulo 2^32, which is the size itself below 2^32. Its CRC is the CRC of type and data. |
| Chunks.AsBytes | src/chunk.rs:49-58 | The wire form is 12 bytes longer than the data. |
| Chunks.AsBytesLayout | src/chunk.rs:49-58 | The wire form is the big-endian length, then the type, then the data, then the big-endian CRC. |
| Chunks.Fields | src/chunk.rs:69-82 | The type is bytes 4 to 8 of the buffer, and the data is 12 bytes shorter than the buffer. |
| Chunks.Parse | src/chunk.rs:64-95 | Buffers under 12 bytes fail with `TooShort` and their size. Every accepted chunk satisfies the same CRC invariant as a new one. |
| Chunks.ParseChecksCoveredBytes | src/chunk.rs:79-87 | A full-size buffer is accepted exactly when its last four bytes, read big-endian, equal the CRC of bytes 4 to size-4. Otherwise the error is `CrcMismatch` with both values. |
| Chunks.ParsedFields | src/chunk.rs:69-94 | An accepted chunk's length, type, data and CRC are exactly the four fields at their wire positions. |
| Chunks.ParseAsBytes | src/chunk.rs:64-95 | Parsing a serialised chunk gives it back exactly when its CRC invariant holds. Otherwise the error is a mismatch of its stored and true CRC. |
| Chunks.NewRoundTrip | src/chunk.rs:17-27 | Parsing the wire form of a new chunk gives that chunk back. |
| Chunks.MessageRoundTrip | src/chunk.rs:45-47 | A message put in a new chunk always parses back after serialisation. Reading its data as text succeeds exactly when the message is well-formed UTF-8, and then gives the message. |
| Chunks.AsBytesOfFields | src/chunk.rs:49-58 | Serialising the fields split off a full-size buffer reproduces the buffer. |
| Chunks.AsBytesOfParse | src/chunk.rs:64-95 | Serialising an accepted chunk reproduces the parsed buffer byte for byte. |
| Chunks.DeclaredLengthIgnored | src/chunk.rs:69-71 | Replacing the length field of an accepted buffer by any value still parses, to the same chunk with that length. |
| Chunks.OtherCrcRejected | src/chunk.rs:209-227 | Putting any other value in the CRC field of an accepted buffer makes it fail with `CrcMismatch` of that value against the true CRC. |
| Chunks.CoveredChangeBreaksMatch | src/chunk.rs:84-87 | Changing one byte of the type or data breaks a CRC field that matched. |
| Chunks.CrcFieldChangeBreaksMatch | src/chunk.rs:84-87 | Changing one byte of the CRC field breaks a CRC field that matched. |
| Chunks.CorruptionDetected | src/chunk.rs:84-87 | Changing any single byte of the type, data or CRC field of an accepted buffer makes parsing fail with `CrcMismatch`. |
| Chunks.DataAsString | src/chunk.rs:45-47 | The data is returned as text exactly when it is well-formed UTF-8, and unchanged. Otherwise the error is `InvalidUtf8`. |

## Left out

- The PNG container (`src/png.rs`) is not part of this model. Its signature check, chunk list, append, remove and lookup are not modelled.
- `src/commands.rs`, `src/args.rs` and `src/main.rs` are file I/O, printing and command-line declarations, so they are not modelled.
- `Display for Chunk` (`src/chunk.rs:98-108`) is human-readable text with no logic to prove.
- The accessors `length`, `chunk_type`, `data`, `crc` and `bytes` are the datatype's fields. Equality of codes and chunks is datatype equality, which compares the bytes.
- The error messages of `eyre` are replaced by the cases of `Errors.Error`. The parser's internal `try_into` failures cannot happen, because slices of the split lengths always have four bytes, and `ChunkType::try_from` never fails.
- The `crc` crate's own code is not part of this model. `Crc32.Compute` follows the standard byte-at-a-time table algorithm for this CRC, and `Crc32.TableStepAgrees` proves it equal to the bitwise definition. Slicing variants that read several bytes per lookup are not modelled.
- The test vector 2882656334 for "RuSt" plus the test message is not evaluated. Unrolling the bitwise CRC over 46 concrete bytes is beyond what the verifier does cheaply.
- Chunks.New: it takes no `|data| < 2^32` precondition. `data.len() as u32` is modelled as truncation modulo 2^32, and the length equals the size only below that bound.
- Chunks.DataAsString: the `String` it returns is modelled as its UTF-8 bytes, the same bytes as the data.
- Chunks.Parse: its own contract states only the short-buffer error and the CRC invariant. The full outcome is stated by `Chunks.ParseChecksCoveredBytes`, `Chunks.ParsedFields` and `Chunks.AsBytesOfParse`.
