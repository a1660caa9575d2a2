# serde-generate binary runtimes, modelled in Dafny

This project models the binary codec runtimes that serde-generate ships with the code it
generates, plus three small pieces of the generator itself.

The runtimes serialize values into a byte buffer and read them back, in three wire formats:
- BCS, the Binary Canonical Serialization;
- LCS, the older Libra Canonical Serialization that BCS replaced;
- bincode.

They exist in C++, Go, Java and Python. The generator pieces are:
- the dependency map and best-effort topological sort of `analyzer.rs`;
- the `IndentedWriter` of `indent.rs`;
- `mangle_type` of `common.rs`.

Shared specification modules:
- `Wire` (`wire.dfy`): bytes, the error outcomes, little-endian and two's-complement images of fixed-width integers, and the three ways the runtimes read a bool byte.
- `Uleb128` (`uleb128.dfy`): the ULEB128 encoding of section 7.6 of the DWARF Debugging Information Format, version 4. The decoder is parametrised by dialect:
  - `Wide(ceiling)` accumulates at full width and refuses values above the ceiling;
  - `Int32Shift(rejectNegative)` shifts each digit as a 32-bit `int`, as the Java runtimes (and the C++ LCS decoder as written) do.
- `LexOrder` (`lexorder.dfy`): lexicographic order on byte strings, the sort of map entries, and `SortLastEntries`, the specification of `sort_last_entries` / `SortMapEntries` / `sort_map_entries`.
- `Utf8` (`utf8.dfy`): UTF-8 encoding of code points, and its decoder.
- `PyTypes` (`py_types.dfy`): the Python values and types the pure Python codecs walk, with `int.to_bytes` / `int.from_bytes`.

Every runtime file is a module:
- A serializer is a class whose `bytes` (or `output`) field the methods extend.
- A deserializer is a class with a constant `input` and a `pos` cursor.
- Thrown exceptions, Go `error` results and panics are `Err` outcomes of a `Result`.
- Where a source class inherits from or embeds a base class, the model holds the base as a `const base` field, and the methods modify it.

The Python `lcs` and `bincode` modules thread the remaining input through recursion, so they are functions. Their round trips are lemmas in the `*RoundTrip` modules. The dict vectors of the LCS map test are worked through in `PyLcsVectors`. `serde_binary` mutates its output, cursor and depth budget, so it is a pair of classes whose methods are proved against reference functions (`Written`, `Parsed`).

The Rust `Format` and `ContainerFormat` types come from the serde-reflection crate, which is not part of this model. `rust_formats.dfy` restates them as datatypes.

Every method and function is checked by the verifier only; nothing here is compiled or executed.

## Model

| member | source | states |
|---|---|---|
| CppBcs.BcsSerializer.SerializeU32AsUleb128 | serde-generate/runtime/cpp/bcs.hpp:50-56 | appends the ULEB128 encoding of the value; Uleb128.DecodeEncode reads it back |
| CppBcs.BcsSerializer.SerializeLen | serde-generate/runtime/cpp/bcs.hpp:58-63 | fails with LengthTooLarge and appends nothing when the length exceeds 2^31 - 1; otherwise appends its ULEB128 encoding |
| CppBcs.BcsSerializer.SerializeVariantIndex | serde-generate/runtime/cpp/bcs.hpp:65-67 | appends the ULEB128 encoding of the variant index |
| CppBcs.BcsSerializer.SortLastEntries | serde-generate/runtime/cpp/bcs.hpp:69-92 | replaces the buffer with SortLastEntries of it: unchanged for at most one offset, otherwise the prefix is kept and the entries between offsets are sorted by bytes (LexOrder.SortLastEntriesShape) |
| CppBcs.BcsDeserializer.DeserializeUleb128AsU32 | serde-generate/runtime/cpp/bcs.hpp:94-114 | returns the wide ULEB128 decoding with ceiling 2^32 - 1 and moves past it; the decoder accepts exactly canonical encodings (Uleb128.AcceptsExactlyEncodings) |
| CppBcs.BcsDeserializer.DeserializeLen | serde-generate/runtime/cpp/bcs.hpp:116-122 | decodes the wide ULEB128 length with ceiling 2^32 - 1, fails with LengthTooLarge above 2^31 - 1, and on success leaves the position just past the varint |
| CppBcs.BcsDeserializer.DeserializeVariantIndex | serde-generate/runtime/cpp/bcs.hpp:124-126 | decodes the wide ULEB128 index with ceiling 2^32 - 1 and no lower one, and on success leaves the position just past the varint |
| CppBcs.BcsDeserializer.CheckThatKeySlicesAreIncreasing | serde-generate/runtime/cpp/bcs.hpp:128-138 | succeeds iff the first key's bytes are strictly less than the second's in byte order; equal or decreasing keys fail with KeysOutOfOrder |
| CppBincode.PrefixedOfWritten | serde-generate/runtime/cpp/bincode.hpp:172-180 | a string written after its 8-byte length is read back whole by deserialize_str: the partner of SerializeStr |
| CppBincode.BincodeSerializer.SerializeStr | serde-generate/runtime/cpp/bincode.hpp:84-89 | appends the length as 8 bytes, low byte first, then the bytes; read back by DeserializeStr (CppBincode.PrefixedOfWritten) |
| CppBincode.BincodeSerializer.SerializeUnsupported | serde-generate/runtime/cpp/bincode.hpp:93-101 | f32, f64 and char always fail with a not-implemented error |
| CppBincode.BincodeSerializer.SerializeBool | serde-generate/runtime/cpp/bincode.hpp:103-105 | appends one byte: 1 for true, 0 for false |
| CppBincode.BincodeSerializer.SerializeU8 | serde-generate/runtime/cpp/bincode.hpp:107-109 | appends the unsigned value as 1 byte(s), low byte first; the matching reader returns it (Wire.FixedOfLE) |
| CppBincode.BincodeSerializer.SerializeU16 | serde-generate/runtime/cpp/bincode.hpp:111-114 | appends the unsigned value as 2 byte(s), low byte first; the matching reader returns it (Wire.FixedOfLE) |
| CppBincode.BincodeSerializer.SerializeU32 | serde-generate/runtime/cpp/bincode.hpp:116-121 | appends the unsigned value as 4 byte(s), low byte first; the matching reader returns it (Wire.FixedOfLE) |
| CppBincode.BincodeSerializer.SerializeU64 | serde-generate/runtime/cpp/bincode.hpp:123-132 | appends the unsigned value as 8 byte(s), low byte first; the matching reader returns it (Wire.FixedOfLE) |
| CppBincode.BincodeSerializer.SerializeU128 | serde-generate/runtime/cpp/bincode.hpp:134-137 | appends the low 64-bit word then the high word, which is the 128-bit value as 16 bytes low first (Wire.Uint128Image); read back by Wire.Fixed128OfLE |
| CppBincode.BincodeSerializer.SerializeI8 | serde-generate/runtime/cpp/bincode.hpp:139-141 | appends the 8-bit two's-complement image of the value as 1 byte(s), low byte first; the signed reader returns it (Wire.SignedFixedOfLE) |
| CppBincode.BincodeSerializer.SerializeI16 | serde-generate/runtime/cpp/bincode.hpp:143-145 | appends the 16-bit two's-complement image of the value as 2 byte(s), low byte first; the signed reader returns it (Wire.SignedFixedOfLE) |
| CppBincode.BincodeSerializer.SerializeI32 | serde-generate/runtime/cpp/bincode.hpp:147-149 | appends the 32-bit two's-complement image of the value as 4 byte(s), low byte first; the signed reader returns it (Wire.SignedFixedOfLE) |
| CppBincode.BincodeSerializer.SerializeI64 | serde-generate/runtime/cpp/bincode.hpp:151-153 | appends the 64-bit two's-complement image of the value as 8 byte(s), low byte first; the signed reader returns it (Wire.SignedFixedOfLE) |
| CppBincode.BincodeSerializer.SerializeI128 | serde-generate/runtime/cpp/bincode.hpp:155-158 | appends the unsigned low word then the signed high word, which is the 128-bit two's-complement image as 16 bytes (Wire.Int128Image); read back by Wire.SignedFixed128OfLE |
| CppBincode.BincodeSerializer.SerializeLen | serde-generate/runtime/cpp/bincode.hpp:160-162 | appends the length as an 8-byte u64, low byte first, with no ceiling |
| CppBincode.BincodeSerializer.SerializeVariantIndex | serde-generate/runtime/cpp/bincode.hpp:164-166 | appends the variant index as a 4-byte u32, low byte first |
| CppBincode.BincodeSerializer.SerializeOptionTag | serde-generate/runtime/cpp/bincode.hpp:168-170 | writes the option tag as a bool byte: 1 for Some, 0 for None |
| CppBincode.BincodeDeserializer.ReadByte | serde-generate/runtime/cpp/bincode.hpp:182 | returns the byte at the position and advances; a read past the end fails with TruncatedInput instead of reading out of bounds |
| CppBincode.BincodeDeserializer.DeserializeStr | serde-generate/runtime/cpp/bincode.hpp:172-180 | reads an 8-byte length and then exactly that many bytes; TruncatedInput when the input is shorter |
| CppBincode.BincodeDeserializer.DeserializeUnsupported | serde-generate/runtime/cpp/bincode.hpp:186-194 | f32, f64 and char always fail with a not-implemented error |
| CppBincode.BincodeDeserializer.DeserializeBool | serde-generate/runtime/cpp/bincode.hpp:196-198 | reads one byte: any nonzero byte is true, 0 is false (bytes 2..255 are not rejected); TruncatedInput at the end |
| CppBincode.BincodeDeserializer.DeserializeU8 | serde-generate/runtime/cpp/bincode.hpp:200-200 | returns the unsigned value of the next 1 byte(s), low byte first, and advances past them; TruncatedInput when fewer remain; inverse of the writer (Wire.FixedOfLE) |
| CppBincode.BincodeDeserializer.DeserializeU16 | serde-generate/runtime/cpp/bincode.hpp:202-207 | returns the unsigned value of the next 2 byte(s), low byte first, and advances past them; TruncatedInput when fewer remain; inverse of the writer (Wire.FixedOfLE) |
| CppBincode.BincodeDeserializer.DeserializeU32 | serde-generate/runtime/cpp/bincode.hpp:209-216 | returns the unsigned value of the next 4 byte(s), low byte first, and advances past them; TruncatedInput when fewer remain; inverse of the writer (Wire.FixedOfLE) |
| CppBincode.BincodeDeserializer.DeserializeU64 | serde-generate/runtime/cpp/bincode.hpp:218-229 | returns the unsigned value of the next 8 byte(s), low byte first, and advances past them; TruncatedInput when fewer remain; inverse of the writer (Wire.FixedOfLE) |
| CppBincode.BincodeDeserializer.DeserializeU128 | serde-generate/runtime/cpp/bincode.hpp:231-236 | reads the low 64-bit word then the high word and advances 16 bytes; TruncatedInput when fewer remain; inverse of the writer (Wire.Fixed128OfLE) |
| CppBincode.BincodeDeserializer.DeserializeI8 | serde-generate/runtime/cpp/bincode.hpp:238-240 | returns the next 1 byte(s) read as a 8-bit two's-complement integer and advances; TruncatedInput when fewer remain; inverse of the writer (Wire.SignedFixedOfLE) |
| CppBincode.BincodeDeserializer.DeserializeI16 | serde-generate/runtime/cpp/bincode.hpp:242-244 | returns the next 2 byte(s) read as a 16-bit two's-complement integer and advances; TruncatedInput when fewer remain; inverse of the writer (Wire.SignedFixedOfLE) |
| CppBincode.BincodeDeserializer.DeserializeI32 | serde-generate/runtime/cpp/bincode.hpp:246-248 | returns the next 4 byte(s) read as a 32-bit two's-complement integer and advances; TruncatedInput when fewer remain; inverse of the writer (Wire.SignedFixedOfLE) |
| CppBincode.BincodeDeserializer.DeserializeI64 | serde-generate/runtime/cpp/bincode.hpp:250-252 | returns the next 8 byte(s) read as a 64-bit two's-complement integer and advances; TruncatedInput when fewer remain; inverse of the writer (Wire.SignedFixedOfLE) |
| CppBincode.BincodeDeserializer.DeserializeI128 | serde-generate/runtime/cpp/bincode.hpp:254-259 | reads the unsigned low word then the signed high word and advances 16 bytes; TruncatedInput when fewer remain; inverse of the writer (Wire.SignedFixed128OfLE) |
| CppBincode.BincodeDeserializer.DeserializeLen | serde-generate/runtime/cpp/bincode.hpp:261-263 | reads the length as an 8-byte u64 with no upper bound; inverse of SerializeLen (Wire.FixedOfLE) |
| CppBincode.BincodeDeserializer.DeserializeVariantIndex | serde-generate/runtime/cpp/bincode.hpp:265-267 | reads the variant index as a 4-byte u32; inverse of SerializeVariantIndex (Wire.FixedOfLE) |
| CppBincode.BincodeDeserializer.DeserializeOptionTag | serde-generate/runtime/cpp/bincode.hpp:269-271 | reads the option tag as a bool: any nonzero byte means Some |
| CppLcs.Unflagged | serde-generate/runtime/cpp/lcs.hpp:95-101 | the as-written encoder output: the digits of the ULEB128 encoding with the 0x80 flag left off |
| CppLcs.UnflaggedReadsOneDigit | serde-generate/runtime/cpp/lcs.hpp:228-233 | the decoder stops after the first byte of an unflagged encoding and returns only the low 7 bits: the round trip holds only below 0x80 |
| CppLcs.UnflaggedLoses128 | serde-generate/runtime/cpp/lcs.hpp:95-101 | 0x80 is written as [0x00, 0x01] and reads back as 0, whereas the flagged [0x80, 0x01] reads back as 0x80 |
| CppLcs.AsWrittenBelow2To31 | serde-generate/runtime/cpp/lcs.hpp:224-227 | every value the as-written decoder accepts is at most 2^31 - 1, because the int shift sign-extends larger values past the u32 ceiling |
| CppLcs.AsWrittenRefuses2To31 | serde-generate/runtime/cpp/lcs.hpp:219-236 | the canonical encoding of 2^31 fails with VarintOverflow as written, while the corrected decoder returns 2^31 |
| CppLcs.LcsSerializer.SerializeU32AsUleb128AsWritten | serde-generate/runtime/cpp/lcs.hpp:95-101 | as written: appends the 7-bit digits of the value without the continuation flag |
| CppLcs.LcsSerializer.SerializeU32AsUleb128 | serde-generate/runtime/cpp/lcs.hpp:95-101 | corrected: appends the ULEB128 encoding of the value, with the continuation flag; Uleb128.DecodeEncode reads it back |
| CppLcs.LcsSerializer.SerializeLen | serde-generate/runtime/cpp/lcs.hpp:175-180 | corrected: the same ceiling, but the length goes through the flagged encoder, so it appends the ULEB128 encoding (128 gives 80 01); line 179 as written calls the unflagged encoder (SerializeLenAsWritten) |
| CppLcs.LcsSerializer.SerializeStr | serde-generate/runtime/cpp/lcs.hpp:103-108 | corrected: fails with LengthTooLarge above 2^31 bytes; otherwise appends the flagged ULEB128 length and then the bytes, which DeserializeStr reads back (Uleb128.LengthPrefixedOfEncode); as written the prefix is unflagged (SerializeStrAsWritten) |
| CppLcs.LcsSerializer.SerializeLenAsWritten | serde-generate/runtime/cpp/lcs.hpp:175-180 | as written: fails with LengthTooLarge and appends nothing above 2^31; otherwise appends Unflagged(length), the digits without the continuation flag (128 gives 00 01, which a reader takes as 0: CppLcs.UnflaggedReadsOneDigit) |
| CppLcs.LcsSerializer.SerializeStrAsWritten | serde-generate/runtime/cpp/lcs.hpp:103-108 | as written: fails with LengthTooLarge above 2^31 bytes; otherwise appends the unflagged length digits and then the bytes |
| CppLcs.LcsSerializer.SerializeVariantIndexAsWritten | serde-generate/runtime/cpp/lcs.hpp:182-184 | as written: appends Unflagged of the index cut to 32 bits, the digits without the continuation flag |
| CppLcs.LcsSerializer.SerializeUnsupported | serde-generate/runtime/cpp/lcs.hpp:112-116 | f32, f64 and char always fail with a not-implemented error |
| CppLcs.LcsSerializer.SerializeBool | serde-generate/runtime/cpp/lcs.hpp:118-120 | appends one byte: 1 for true, 0 for false |
| CppLcs.LcsSerializer.SerializeU8 | serde-generate/runtime/cpp/lcs.hpp:122-124 | appends the unsigned value as 1 byte(s), low byte first; the matching reader returns it (Wire.FixedOfLE) |
| CppLcs.LcsSerializer.SerializeU16 | serde-generate/runtime/cpp/lcs.hpp:126-129 | appends the unsigned value as 2 byte(s), low byte first; the matching reader returns it (Wire.FixedOfLE) |
| CppLcs.LcsSerializer.SerializeU32 | serde-generate/runtime/cpp/lcs.hpp:131-136 | appends the unsigned value as 4 byte(s), low byte first; the matching reader returns it (Wire.FixedOfLE) |
| CppLcs.LcsSerializer.SerializeU64 | serde-generate/runtime/cpp/lcs.hpp:138-147 | appends the unsigned value as 8 byte(s), low byte first; the matching reader returns it (Wire.FixedOfLE) |
| CppLcs.LcsSerializer.SerializeU128 | serde-generate/runtime/cpp/lcs.hpp:149-152 | appends the low 64-bit word then the high word, which is the 128-bit value as 16 bytes low first (Wire.Uint128Image); read back by Wire.Fixed128OfLE |
| CppLcs.LcsSerializer.SerializeI8 | serde-generate/runtime/cpp/lcs.hpp:154-156 | appends the 8-bit two's-complement image of the value as 1 byte(s), low byte first; the signed reader returns it (Wire.SignedFixedOfLE) |
| CppLcs.LcsSerializer.SerializeI16 | serde-generate/runtime/cpp/lcs.hpp:158-160 | appends the 16-bit two's-complement image of the value as 2 byte(s), low byte first; the signed reader returns it (Wire.SignedFixedOfLE) |
| CppLcs.LcsSerializer.SerializeI32 | serde-generate/runtime/cpp/lcs.hpp:162-164 | appends the 32-bit two's-complement image of the value as 4 byte(s), low byte first; the signed reader returns it (Wire.SignedFixedOfLE) |
| CppLcs.LcsSerializer.SerializeI64 | serde-generate/runtime/cpp/lcs.hpp:166-168 | appends the 64-bit two's-complement image of the value as 8 byte(s), low byte first; the signed reader returns it (Wire.SignedFixedOfLE) |
| CppLcs.LcsSerializer.SerializeI128 | serde-generate/runtime/cpp/lcs.hpp:170-173 | appends the unsigned low word then the signed high word, which is the 128-bit two's-complement image as 16 bytes (Wire.Int128Image); read back by Wire.SignedFixed128OfLE |
| CppLcs.LcsSerializer.SerializeVariantIndex | serde-generate/runtime/cpp/lcs.hpp:182-184 | corrected: appends the flagged ULEB128 encoding of the index cut to 32 bits; line 183 as written calls the unflagged encoder (SerializeVariantIndexAsWritten) |
| CppLcs.LcsSerializer.SerializeOptionTag | serde-generate/runtime/cpp/lcs.hpp:186-188 | writes the option tag as a bool byte: 1 for Some, 0 for None |
| CppLcs.LcsSerializer.GetBufferOffset | serde-generate/runtime/cpp/lcs.hpp:190 | returns the number of bytes written so far |
| CppLcs.LcsSerializer.SortLastEntries | serde-generate/runtime/cpp/lcs.hpp:192-215 | replaces the buffer with SortLastEntries of it: prefix and length kept, entries sorted by bytes (LexOrder.SortLastEntriesShape) |
| CppLcs.LcsDeserializer.ReadByte | serde-generate/runtime/cpp/lcs.hpp:217 | returns the byte at the position and advances; a read past the end fails with TruncatedInput instead of reading out of bounds |
| CppLcs.LcsDeserializer.DeserializeUleb128AsU32AsWritten | serde-generate/runtime/cpp/lcs.hpp:219-236 | as written: the ULEB128 decoding in which each digit is shifted as a 32-bit int (Int32Shift dialect) |
| CppLcs.LcsDeserializer.DeserializeUleb128AsU32 | serde-generate/runtime/cpp/lcs.hpp:219-236 | corrected: the wide ULEB128 decoding with ceiling 2^32 - 1; inverse of SerializeU32AsUleb128 (Uleb128.DecodeEncode) |
| CppLcs.LcsDeserializer.DeserializeLen | serde-generate/runtime/cpp/lcs.hpp:319-325 | corrected: decodes the length with the wide decoder (DeserializeUleb128AsU32, the digit shift of lcs.hpp:224 taken at unbounded width, not DeserializeUleb128AsU32AsWritten) and fails with LengthTooLarge above 2^31 |
| CppLcs.LcsDeserializer.DeserializeStr | serde-generate/runtime/cpp/lcs.hpp:238-246 | corrected: reads the length as DeserializeLen does, with the wide decoder, then exactly that many bytes; inverse of the corrected SerializeStr (Uleb128.LengthPrefixedOfEncode) |
| CppLcs.LcsDeserializer.DeserializeUnsupported | serde-generate/runtime/cpp/lcs.hpp:250-254 | f32, f64 and char always fail with a not-implemented error |
| CppLcs.LcsDeserializer.DeserializeBool | serde-generate/runtime/cpp/lcs.hpp:256-256 | reads one byte: any nonzero byte is true, 0 is false (bytes 2..255 are not rejected); TruncatedInput at the end |
| CppLcs.LcsDeserializer.DeserializeU8 | serde-generate/runtime/cpp/lcs.hpp:258-258 | returns the unsigned value of the next 1 byte(s), low byte first, and advances past them; TruncatedInput when fewer remain; inverse of the writer (Wire.FixedOfLE) |
| CppLcs.LcsDeserializer.DeserializeU16 | serde-generate/runtime/cpp/lcs.hpp:260-265 | returns the unsigned value of the next 2 byte(s), low byte first, and advances past them; TruncatedInput when fewer remain; inverse of the writer (Wire.FixedOfLE) |
| CppLcs.LcsDeserializer.DeserializeU32 | serde-generate/runtime/cpp/lcs.hpp:267-274 | returns the unsigned value of the next 4 byte(s), low byte first, and advances past them; TruncatedInput when fewer remain; inverse of the writer (Wire.FixedOfLE) |
| CppLcs.LcsDeserializer.DeserializeU64 | serde-generate/runtime/cpp/lcs.hpp:276-287 | returns the unsigned value of the next 8 byte(s), low byte first, and advances past them; TruncatedInput when fewer remain; inverse of the writer (Wire.FixedOfLE) |
| CppLcs.LcsDeserializer.DeserializeU128 | serde-generate/runtime/cpp/lcs.hpp:289-294 | reads the low 64-bit word then the high word and advances 16 bytes; TruncatedInput when fewer remain; inverse of the writer (Wire.Fixed128OfLE) |
| CppLcs.LcsDeserializer.DeserializeI8 | serde-generate/runtime/cpp/lcs.hpp:296-298 | returns the next 1 byte(s) read as a 8-bit two's-complement integer and advances; TruncatedInput when fewer remain; inverse of the writer (Wire.SignedFixedOfLE) |
| CppLcs.LcsDeserializer.DeserializeI16 | serde-generate/runtime/cpp/lcs.hpp:300-302 | returns the next 2 byte(s) read as a 16-bit two's-complement integer and advances; TruncatedInput when fewer remain; inverse of the writer (Wire.SignedFixedOfLE) |
| CppLcs.LcsDeserializer.DeserializeI32 | serde-generate/runtime/cpp/lcs.hpp:304-306 | returns the next 4 byte(s) read as a 32-bit two's-complement integer and advances; TruncatedInput when fewer remain; inverse of the writer (Wire.SignedFixedOfLE) |
| CppLcs.LcsDeserializer.DeserializeI64 | serde-generate/runtime/cpp/lcs.hpp:308-310 | returns the next 8 byte(s) read as a 64-bit two's-complement integer and advances; TruncatedInput when fewer remain; inverse of the writer (Wire.SignedFixedOfLE) |
| CppLcs.LcsDeserializer.DeserializeI128 | serde-generate/runtime/cpp/lcs.hpp:312-317 | reads the unsigned low word then the signed high word and advances 16 bytes; TruncatedInput when fewer remain; inverse of the writer (Wire.SignedFixed128OfLE) |
| CppLcs.LcsDeserializer.DeserializeVariantIndex | serde-generate/runtime/cpp/lcs.hpp:327-329 | corrected: decodes the index with the wide decoder (the shift of lcs.hpp:224 taken at unbounded width), not DeserializeUleb128AsU32AsWritten |
| CppLcs.LcsDeserializer.DeserializeOptionTag | serde-generate/runtime/cpp/lcs.hpp:331-333 | reads the option tag as a bool: any nonzero byte means Some |
| CppLcs.LcsDeserializer.GetBufferOffset | serde-generate/runtime/cpp/lcs.hpp:335 | returns the number of bytes consumed so far |
| CppLcs.LcsDeserializer.CheckThatKeySlicesAreIncreasing | serde-generate/runtime/cpp/lcs.hpp:337-346 | succeeds iff the first key's bytes are strictly less than the second's; otherwise KeysOutOfOrder |
| GoBcs.BytesOfWritten | serde-generate/runtime/golang/bcs/deserializer.go:44-50 | bytes written after their ULEB128 length (within 2^31 - 1) are read back whole by DeserializeBytes and DeserializeStr |
| GoBcs.BcsDeserializer.DeserializeUleb128AsU32 | serde-generate/runtime/golang/bcs/deserializer.go:71-92 | returns the wide ULEB128 decoding with ceiling 2^32 - 1 and moves past it; canonical encodings only (Uleb128.AcceptsExactlyEncodings) |
| GoBcs.BcsDeserializer.DeserializeLen | serde-generate/runtime/golang/bcs/deserializer.go:52-58 | decodes a ULEB128 length and fails with LengthTooLarge above 2^31 - 1 |
| GoBcs.BcsDeserializer.DeserializeVariantIndex | serde-generate/runtime/golang/bcs/deserializer.go:60-62 | decodes the index as a ULEB128 u32 and on success leaves base.pos just past the varint |
| GoBcs.BcsDeserializer.DeserializeBytes | serde-generate/runtime/golang/bcs/deserializer.go:44-46 | reads a ULEB128 length of at most 2^31 - 1, then n bytes through bytes.Buffer.Read (GoSerde.ReadPadded): a short input is zero-padded to n, and only an empty one fails; inverse of the writer (GoBcs.BytesOfWritten) |
| GoBcs.BcsDeserializer.DeserializeStr | serde-generate/runtime/golang/bcs/deserializer.go:48-50 | the same read as DeserializeBytes, its bytes taken as the string |
| GoBcs.BcsDeserializer.CheckThatKeySlicesAreIncreasing | serde-generate/runtime/golang/bcs/deserializer.go:64-69 | succeeds iff the first key's bytes are strictly less than the second's; otherwise KeysOutOfOrder |
| GoBincode.BytesOfWritten | serde-generate/runtime/golang/bincode/deserializer.go:25-39 | bytes written after their 8-byte length (within 2^31 - 1) are read back whole |
| GoBincode.LongBytesRefused | serde-generate/runtime/golang/bincode/deserializer.go:33-39 | a written length above 2^31 - 1 is refused with LengthTooLarge on reading, although the writer accepts it |
| GoBincode.BincodeSerializer.SerializeLen | serde-generate/runtime/golang/bincode/serializer.go:27-29 | appends the length as an 8-byte u64, low byte first, and succeeds |
| GoBincode.BincodeSerializer.SerializeVariantIndex | serde-generate/runtime/golang/bincode/serializer.go:31-33 | appends the index as a 4-byte u32, low byte first, and succeeds |
| GoBincode.BincodeSerializer.SerializeBytes | serde-generate/runtime/golang/bincode/serializer.go:23-25 | appends the 8-byte length and then the bytes |
| GoBincode.BincodeSerializer.SerializeStr | serde-generate/runtime/golang/bincode/serializer.go:19-21 | appends the 8-byte length and then the string's bytes |
| GoBincode.BincodeSerializer.SortMapEntries | serde-generate/runtime/golang/bincode/serializer.go:35-37 | changes nothing: bincode keeps map entries in insertion order |
| GoBincode.BincodeDeserializer.DeserializeLen | serde-generate/runtime/golang/bincode/deserializer.go:33-39 | reads an 8-byte u64 length and fails with LengthTooLarge above 2^31 - 1 |
| GoBincode.BincodeDeserializer.DeserializeVariantIndex | serde-generate/runtime/golang/bincode/deserializer.go:41-43 | reads the index as a 4-byte u32; inverse of SerializeVariantIndex |
| GoBincode.BincodeDeserializer.DeserializeBytes | serde-generate/runtime/golang/bincode/deserializer.go:25-27 | reads an 8-byte length within the ceiling, then n bytes through bytes.Buffer.Read (GoSerde.ReadPadded): a short input is zero-padded to n, and only an empty one fails; inverse of SerializeBytes (GoBincode.BytesOfWritten) |
| GoBincode.BincodeDeserializer.DeserializeStr | serde-generate/runtime/golang/bincode/deserializer.go:29-31 | the same read as DeserializeBytes, its bytes taken as the string |
| GoBincode.BincodeDeserializer.CheckThatKeySlicesAreIncreasing | serde-generate/runtime/golang/bincode/deserializer.go:45-48 | accepts every pair of keys: bincode does not check key order |
| GoLcs.BytesOfWritten | serde-generate/runtime/golang/lcs/deserializer.go:33-41 | bytes written after their ULEB128 length (within 2^31 - 1) are read back whole |
| GoLcs.Serializer.SerializeU32AsUleb128 | serde-generate/runtime/golang/lcs/serializer.go:173-180 | appends the ULEB128 encoding of the value |
| GoLcs.Serializer.SerializeLen | serde-generate/runtime/golang/lcs/serializer.go:28-34 | fails with LengthTooLarge and appends nothing above 2^31 - 1; otherwise appends the ULEB128 encoding |
| GoLcs.Serializer.SerializeBytes | serde-generate/runtime/golang/lcs/serializer.go:36-40 | appends the ULEB128 length and the bytes and reports success; above 2^31 - 1 the length error is dropped, so the bytes go out with no prefix |
| GoLcs.Serializer.SerializeStr | serde-generate/runtime/golang/lcs/serializer.go:42-44 | the same as SerializeBytes on the string's bytes |
| GoLcs.Serializer.SerializeUnsupported | serde-generate/runtime/golang/lcs/serializer.go:57-70 | char, f32 and f64 always return an "unimplemented" error |
| GoLcs.Serializer.SerializeBool | serde-generate/runtime/golang/lcs/serializer.go:46-51 | appends one byte: 1 for true, 0 for false |
| GoLcs.Serializer.SerializeU8 | serde-generate/runtime/golang/lcs/serializer.go:72-75 | appends the unsigned value as 1 byte(s), low byte first; the matching reader returns it (Wire.FixedOfLE) |
| GoLcs.Serializer.SerializeU16 | serde-generate/runtime/golang/lcs/serializer.go:77-81 | appends the unsigned value as 2 byte(s), low byte first; the matching reader returns it (Wire.FixedOfLE) |
| GoLcs.Serializer.SerializeU32 | serde-generate/runtime/golang/lcs/serializer.go:83-89 | appends the unsigned value as 4 byte(s), low byte first; the matching reader returns it (Wire.FixedOfLE) |
| GoLcs.Serializer.SerializeU64 | serde-generate/runtime/golang/lcs/serializer.go:91-101 | appends the unsigned value as 8 byte(s), low byte first; the matching reader returns it (Wire.FixedOfLE) |
| GoLcs.Serializer.SerializeU128 | serde-generate/runtime/golang/lcs/serializer.go:103-107 | appends the low 64-bit word then the high word, which is the 128-bit value as 16 bytes low first (Wire.Uint128Image); read back by Wire.Fixed128OfLE |
| GoLcs.Serializer.SerializeI8 | serde-generate/runtime/golang/lcs/serializer.go:109-112 | appends the 8-bit two's-complement image of the value as 1 byte(s), low byte first; the signed reader returns it (Wire.SignedFixedOfLE) |
| GoLcs.Serializer.SerializeI16 | serde-generate/runtime/golang/lcs/serializer.go:114-117 | appends the 16-bit two's-complement image of the value as 2 byte(s), low byte first; the signed reader returns it (Wire.SignedFixedOfLE) |
| GoLcs.Serializer.SerializeI32 | serde-generate/runtime/golang/lcs/serializer.go:119-122 | appends the 32-bit two's-complement image of the value as 4 byte(s), low byte first; the signed reader returns it (Wire.SignedFixedOfLE) |
| GoLcs.Serializer.SerializeI64 | serde-generate/runtime/golang/lcs/serializer.go:124-127 | appends the 64-bit two's-complement image of the value as 8 byte(s), low byte first; the signed reader returns it (Wire.SignedFixedOfLE) |
| GoLcs.Serializer.SerializeI128 | serde-generate/runtime/golang/lcs/serializer.go:129-133 | appends the unsigned low word then the signed high word, which is the 128-bit two's-complement image as 16 bytes (Wire.Int128Image); read back by Wire.SignedFixed128OfLE |
| GoLcs.Serializer.SerializeVariantIndex | serde-generate/runtime/golang/lcs/serializer.go:135-138 | appends the ULEB128 encoding of the index |
| GoLcs.Serializer.SerializeOptionTag | serde-generate/runtime/golang/lcs/serializer.go:140-142 | writes the option tag as a bool byte: 1 for Some, 0 for None |
| GoLcs.Serializer.GetBufferOffset | serde-generate/runtime/golang/lcs/serializer.go:144-146 | returns the number of bytes written so far |
| GoLcs.Serializer.SortMapEntries | serde-generate/runtime/golang/lcs/serializer.go:148-171 | replaces the buffer with SortLastEntries of it (map_entries.Less is the byte order; LexOrder.SortLastEntriesShape) |
| GoLcs.Deserializer.DeserializeBytes | serde-generate/runtime/golang/lcs/deserializer.go:33-41 | reads a ULEB128 length of at most 2^31 - 1, then n bytes through bytes.Buffer.Read (GoSerde.ReadPadded): a short input is zero-padded to n, and only an empty one fails; inverse of SerializeBytes (GoLcs.BytesOfWritten) |
| GoLcs.Deserializer.DeserializeStr | serde-generate/runtime/golang/lcs/deserializer.go:51-54 | the same read as DeserializeBytes, its bytes taken as the string |
| GoLcs.Deserializer.DeserializeUleb128AsU32 | serde-generate/runtime/golang/lcs/deserializer.go:192-213 | returns the wide ULEB128 decoding with ceiling 2^32 - 1 and moves past it |
| GoLcs.Deserializer.DeserializeLen | serde-generate/runtime/golang/lcs/deserializer.go:43-49 | decodes a ULEB128 length and fails with LengthTooLarge above 2^31 - 1 |
| GoLcs.Deserializer.DeserializeBool | serde-generate/runtime/golang/lcs/deserializer.go:56-69 | reads one byte: 0 is false, 1 is true, any other byte fails with InvalidBool; TruncatedInput at the end |
| GoLcs.Deserializer.DeserializeUnsupported | serde-generate/runtime/golang/lcs/deserializer.go:75-88 | char, f32 and f64 always return an "unimplemented" error |
| GoLcs.Deserializer.DeserializeU8 | serde-generate/runtime/golang/lcs/deserializer.go:90-93 | returns the unsigned value of the next 1 byte(s), low byte first, and advances past them; TruncatedInput when fewer remain; inverse of the writer (Wire.FixedOfLE) |
| GoLcs.Deserializer.DeserializeU16 | serde-generate/runtime/golang/lcs/deserializer.go:95-105 | returns the unsigned value of the next 2 byte(s), low byte first, and advances past them; TruncatedInput when fewer remain; inverse of the writer (Wire.FixedOfLE) |
| GoLcs.Deserializer.DeserializeU32 | serde-generate/runtime/golang/lcs/deserializer.go:107-117 | returns the unsigned value of the next 4 byte(s), low byte first, and advances past them; TruncatedInput when fewer remain; inverse of the writer (Wire.FixedOfLE) |
| GoLcs.Deserializer.DeserializeU64 | serde-generate/runtime/golang/lcs/deserializer.go:119-129 | returns the unsigned value of the next 8 byte(s), low byte first, and advances past them; TruncatedInput when fewer remain; inverse of the writer (Wire.FixedOfLE) |
| GoLcs.Deserializer.DeserializeU128 | serde-generate/runtime/golang/lcs/deserializer.go:131-141 | reads the low 64-bit word then the high word and advances 16 bytes; TruncatedInput when fewer remain; inverse of the writer (Wire.Fixed128OfLE) |
| GoLcs.Deserializer.DeserializeI8 | serde-generate/runtime/golang/lcs/deserializer.go:143-146 | returns the next 1 byte(s) read as a 8-bit two's-complement integer and advances; TruncatedInput when fewer remain; inverse of the writer (Wire.SignedFixedOfLE) |
| GoLcs.Deserializer.DeserializeI16 | serde-generate/runtime/golang/lcs/deserializer.go:148-151 | returns the next 2 byte(s) read as a 16-bit two's-complement integer and advances; TruncatedInput when fewer remain; inverse of the writer (Wire.SignedFixedOfLE) |
| GoLcs.Deserializer.DeserializeI32 | serde-generate/runtime/golang/lcs/deserializer.go:153-156 | returns the next 4 byte(s) read as a 32-bit two's-complement integer and advances; TruncatedInput when fewer remain; inverse of the writer (Wire.SignedFixedOfLE) |
| GoLcs.Deserializer.DeserializeI64 | serde-generate/runtime/golang/lcs/deserializer.go:158-161 | returns the next 8 byte(s) read as a 64-bit two's-complement integer and advances; TruncatedInput when fewer remain; inverse of the writer (Wire.SignedFixedOfLE) |
| GoLcs.Deserializer.DeserializeI128 | serde-generate/runtime/golang/lcs/deserializer.go:163-173 | reads the unsigned low word then the signed high word and advances 16 bytes; TruncatedInput when fewer remain; inverse of the writer (Wire.SignedFixed128OfLE) |
| GoLcs.Deserializer.DeserializeVariantIndex | serde-generate/runtime/golang/lcs/deserializer.go:175-177 | decodes the index as a ULEB128 u32 and on success leaves the position just past the varint |
| GoLcs.Deserializer.DeserializeOptionTag | serde-generate/runtime/golang/lcs/deserializer.go:179-181 | reads the option tag as a strict bool |
| GoLcs.Deserializer.GetBufferOffset | serde-generate/runtime/golang/lcs/deserializer.go:183-185 | returns the number of bytes consumed so far |
| GoLcs.Deserializer.CheckThatKeySlicesAreIncreasing | serde-generate/runtime/golang/lcs/deserializer.go:187-190 | panics ("unimplemented"), modelled as a not-implemented error |
| GoSerde.ReadPadded | serde-generate/runtime/golang/serde/binary_deserializer.go:32-34 | bytes.Buffer.Read into make([]byte, n), its count ignored: fails iff nothing is left and n > 0; otherwise returns exactly n bytes and does not move past the input |
| GoSerde.ReadPaddedExact | serde-generate/runtime/golang/serde/binary_deserializer.go:27-35 | with enough input left, the zero-padded bytes.Buffer read is the exact read of n bytes |
| GoSerde.ReadPaddedShort | serde-generate/runtime/golang/serde/binary_deserializer.go:27-35 | when fewer than n bytes remain the read still succeeds unless nothing remains: it returns the remaining bytes padded with zeros to length n and consumes all input |
| GoSerde.ReadPaddedExample | serde-generate/runtime/golang/serde/binary_deserializer.go:32-34 | a declared length of 2 over the single byte 7 returns [7, 0] without an error |
| GoSerde.BinarySerializer.SerializeBytes | serde-generate/runtime/golang/serde/binary_serializer.go:22-26 | appends the bytes themselves (the length prefix is the format's part) and succeeds |
| GoSerde.BinarySerializer.SerializeStr | serde-generate/runtime/golang/serde/binary_serializer.go:29-31 | appends the string's bytes and succeeds |
| GoSerde.BinarySerializer.SerializeUnsupported | serde-generate/runtime/golang/serde/binary_serializer.go:44-57 | char, f32 and f64 always return an "unimplemented" error |
| GoSerde.BinarySerializer.SerializeBool | serde-generate/runtime/golang/serde/binary_serializer.go:33-38 | appends one byte: 1 for true, 0 for false |
| GoSerde.BinarySerializer.SerializeU8 | serde-generate/runtime/golang/serde/binary_serializer.go:59-62 | appends the unsigned value as 1 byte(s), low byte first; the matching reader returns it (Wire.FixedOfLE) |
| GoSerde.BinarySerializer.SerializeU16 | serde-generate/runtime/golang/serde/binary_serializer.go:64-68 | appends the unsigned value as 2 byte(s), low byte first; the matching reader returns it (Wire.FixedOfLE) |
| GoSerde.BinarySerializer.SerializeU32 | serde-generate/runtime/golang/serde/binary_serializer.go:70-76 | appends the unsigned value as 4 byte(s), low byte first; the matching reader returns it (Wire.FixedOfLE) |
| GoSerde.BinarySerializer.SerializeU64 | serde-generate/runtime/golang/serde/binary_serializer.go:78-88 | appends the unsigned value as 8 byte(s), low byte first; the matching reader returns it (Wire.FixedOfLE) |
| GoSerde.BinarySerializer.SerializeU128 | serde-generate/runtime/golang/serde/binary_serializer.go:90-94 | appends the low 64-bit word then the high word, which is the 128-bit value as 16 bytes low first (Wire.Uint128Image); read back by Wire.Fixed128OfLE |
| GoSerde.BinarySerializer.SerializeI8 | serde-generate/runtime/golang/serde/binary_serializer.go:96-99 | appends the 8-bit two's-complement image of the value as 1 byte(s), low byte first; the signed reader returns it (Wire.SignedFixedOfLE) |
| GoSerde.BinarySerializer.SerializeI16 | serde-generate/runtime/golang/serde/binary_serializer.go:101-104 | appends the 16-bit two's-complement image of the value as 2 byte(s), low byte first; the signed reader returns it (Wire.SignedFixedOfLE) |
| GoSerde.BinarySerializer.SerializeI32 | serde-generate/runtime/golang/serde/binary_serializer.go:106-109 | appends the 32-bit two's-complement image of the value as 4 byte(s), low byte first; the signed reader returns it (Wire.SignedFixedOfLE) |
| GoSerde.BinarySerializer.SerializeI64 | serde-generate/runtime/golang/serde/binary_serializer.go:111-114 | appends the 64-bit two's-complement image of the value as 8 byte(s), low byte first; the signed reader returns it (Wire.SignedFixedOfLE) |
| GoSerde.BinarySerializer.SerializeI128 | serde-generate/runtime/golang/serde/binary_serializer.go:116-120 | appends the unsigned low word then the signed high word, which is the 128-bit two's-complement image as 16 bytes (Wire.Int128Image); read back by Wire.SignedFixed128OfLE |
| GoSerde.BinarySerializer.SerializeOptionTag | serde-generate/runtime/golang/serde/binary_serializer.go:122-124 | writes the option tag as a bool byte: 1 for Some, 0 for None |
| GoSerde.BinarySerializer.GetBufferOffset | serde-generate/runtime/golang/serde/binary_serializer.go:126-128 | returns the number of bytes written so far |
| GoSerde.BinaryDeserializer.DeserializeBytes | serde-generate/runtime/golang/serde/binary_deserializer.go:27-35 | a length error is passed on with nothing consumed; otherwise the bytes.Buffer read of that many bytes, zero-padded when the input is short (ReadPadded) |
| GoSerde.BinaryDeserializer.DeserializeStr | serde-generate/runtime/golang/serde/binary_deserializer.go:38-41 | the same read as DeserializeBytes, its bytes taken as the string |
| GoSerde.BinaryDeserializer.DeserializeBool | serde-generate/runtime/golang/serde/binary_deserializer.go:43-56 | reads one byte: 0 is false, 1 is true, any other byte fails with InvalidBool; TruncatedInput at the end |
| GoSerde.BinaryDeserializer.DeserializeUnsupported | serde-generate/runtime/golang/serde/binary_deserializer.go:62-75 | char, f32 and f64 always return an "unimplemented" error |
| GoSerde.BinaryDeserializer.DeserializeU8 | serde-generate/runtime/golang/serde/binary_deserializer.go:77-80 | returns the unsigned value of the next 1 byte(s), low byte first, and advances past them; TruncatedInput when fewer remain; inverse of the writer (Wire.FixedOfLE) |
| GoSerde.BinaryDeserializer.DeserializeU16 | serde-generate/runtime/golang/serde/binary_deserializer.go:82-92 | returns the unsigned value of the next 2 byte(s), low byte first, and advances past them; TruncatedInput when fewer remain; inverse of the writer (Wire.FixedOfLE) |
| GoSerde.BinaryDeserializer.DeserializeU32 | serde-generate/runtime/golang/serde/binary_deserializer.go:94-104 | returns the unsigned value of the next 4 byte(s), low byte first, and advances past them; TruncatedInput when fewer remain; inverse of the writer (Wire.FixedOfLE) |
| GoSerde.BinaryDeserializer.DeserializeU64 | serde-generate/runtime/golang/serde/binary_deserializer.go:106-116 | returns the unsigned value of the next 8 byte(s), low byte first, and advances past them; TruncatedInput when fewer remain; inverse of the writer (Wire.FixedOfLE) |
| GoSerde.BinaryDeserializer.DeserializeU128 | serde-generate/runtime/golang/serde/binary_deserializer.go:118-128 | reads the low 64-bit word then the high word and advances 16 bytes; TruncatedInput when fewer remain; inverse of the writer (Wire.Fixed128OfLE) |
| GoSerde.BinaryDeserializer.DeserializeI8 | serde-generate/runtime/golang/serde/binary_deserializer.go:130-133 | returns the next 1 byte(s) read as a 8-bit two's-complement integer and advances; TruncatedInput when fewer remain; inverse of the writer (Wire.SignedFixedOfLE) |
| GoSerde.BinaryDeserializer.DeserializeI16 | serde-generate/runtime/golang/serde/binary_deserializer.go:135-138 | returns the next 2 byte(s) read as a 16-bit two's-complement integer and advances; TruncatedInput when fewer remain; inverse of the writer (Wire.SignedFixedOfLE) |
| GoSerde.BinaryDeserializer.DeserializeI32 | serde-generate/runtime/golang/serde/binary_deserializer.go:140-143 | returns the next 4 byte(s) read as a 32-bit two's-complement integer and advances; TruncatedInput when fewer remain; inverse of the writer (Wire.SignedFixedOfLE) |
| GoSerde.BinaryDeserializer.DeserializeI64 | serde-generate/runtime/golang/serde/binary_deserializer.go:145-148 | returns the next 8 byte(s) read as a 64-bit two's-complement integer and advances; TruncatedInput when fewer remain; inverse of the writer (Wire.SignedFixedOfLE) |
| GoSerde.BinaryDeserializer.DeserializeI128 | serde-generate/runtime/golang/serde/binary_deserializer.go:150-160 | reads the unsigned low word then the signed high word and advances 16 bytes; TruncatedInput when fewer remain; inverse of the writer (Wire.SignedFixed128OfLE) |
| GoSerde.BinaryDeserializer.DeserializeOptionTag | serde-generate/runtime/golang/serde/binary_deserializer.go:162-164 | reads the option tag as a strict bool: 0 or 1, anything else is an error |
| GoSerde.BinaryDeserializer.GetBufferOffset | serde-generate/runtime/golang/serde/binary_deserializer.go:166-168 | returns the number of bytes consumed so far |
| GoSrcLcs.BytesOfWritten | serde-generate/runtime/golang/src/lcs/deserializer.go:28-36 | bytes written after their ULEB128 length (within 2^31 - 1) are read back whole |
| GoSrcLcs.UlebVectors | serde-generate/runtime/golang/src/lcs/lcs_test.go:539-547 | the ULEB128 encoder writes 9487 as [143, 74], and the lengths 3 and 0 of the bytes test (lines 16-28) as one byte each |
| GoSrcLcs.U16Vector | serde-generate/runtime/golang/src/lcs/lcs_test.go:185-188 | the u16 827 is written as [59, 3] |
| GoSrcLcs.I16Vector | serde-generate/runtime/golang/src/lcs/lcs_test.go:394-397 | -2 as an i16 is written as [254, 255] |
| GoSrcLcs.I32Vector | serde-generate/runtime/golang/src/lcs/lcs_test.go:430-433 | -232 as an i32 is written as [24, 255, 255, 255] |
| GoSrcLcs.ReaderVectors | serde-generate/runtime/golang/src/lcs/lcs_test.go:566-591 | a length of 2^32 - 1 is refused as too large, and eight 0xff bytes overflow the varint |
| GoSrcLcs.Serializer.SerializeU32AsUleb128 | serde-generate/runtime/golang/src/lcs/serializer.go:152-159 | appends the ULEB128 encoding of the value |
| GoSrcLcs.Serializer.SerializeLen | serde-generate/runtime/golang/src/lcs/serializer.go:27-33 | a negative length fails with IncorrectLength and appends nothing; otherwise appends the ULEB128 of its 32-bit truncation |
| GoSrcLcs.Serializer.SerializeBytes | serde-generate/runtime/golang/src/lcs/serializer.go:35-39 | appends the ULEB128 of the 32-bit truncated length and then the bytes, and succeeds |
| GoSrcLcs.Serializer.SerializeStr | serde-generate/runtime/golang/src/lcs/serializer.go:41-43 | the same as SerializeBytes on the string's bytes |
| GoSrcLcs.Serializer.SerializeUnsupported | serde-generate/runtime/golang/src/lcs/serializer.go:56-69 | char, f32 and f64 panic, modelled as a not-implemented error |
| GoSrcLcs.Serializer.SerializeBool | serde-generate/runtime/golang/src/lcs/serializer.go:45-50 | appends one byte: 1 for true, 0 for false |
| GoSrcLcs.Serializer.SerializeU8 | serde-generate/runtime/golang/src/lcs/serializer.go:71-74 | appends the unsigned value as 1 byte(s), low byte first; the matching reader returns it (Wire.FixedOfLE) |
| GoSrcLcs.Serializer.SerializeU16 | serde-generate/runtime/golang/src/lcs/serializer.go:76-80 | appends the unsigned value as 2 byte(s), low byte first; the matching reader returns it (Wire.FixedOfLE) |
| GoSrcLcs.Serializer.SerializeU32 | serde-generate/runtime/golang/src/lcs/serializer.go:82-88 | appends the unsigned value as 4 byte(s), low byte first; the matching reader returns it (Wire.FixedOfLE) |
| GoSrcLcs.Serializer.SerializeU64 | serde-generate/runtime/golang/src/lcs/serializer.go:90-100 | appends the unsigned value as 8 byte(s), low byte first; the matching reader returns it (Wire.FixedOfLE) |
| GoSrcLcs.Serializer.SerializeU128 | serde-generate/runtime/golang/src/lcs/serializer.go:102-106 | appends the low 64-bit word then the high word, which is the 128-bit value as 16 bytes low first (Wire.Uint128Image); read back by Wire.Fixed128OfLE |
| GoSrcLcs.Serializer.SerializeI8 | serde-generate/runtime/golang/src/lcs/serializer.go:108-111 | appends the 8-bit two's-complement image of the value as 1 byte(s), low byte first; the signed reader returns it (Wire.SignedFixedOfLE) |
| GoSrcLcs.Serializer.SerializeI16 | serde-generate/runtime/golang/src/lcs/serializer.go:113-116 | appends the 16-bit two's-complement image of the value as 2 byte(s), low byte first; the signed reader returns it (Wire.SignedFixedOfLE) |
| GoSrcLcs.Serializer.SerializeI32 | serde-generate/runtime/golang/src/lcs/serializer.go:118-121 | appends the 32-bit two's-complement image of the value as 4 byte(s), low byte first; the signed reader returns it (Wire.SignedFixedOfLE) |
| GoSrcLcs.Serializer.SerializeI64 | serde-generate/runtime/golang/src/lcs/serializer.go:123-126 | appends the 64-bit two's-complement image of the value as 8 byte(s), low byte first; the signed reader returns it (Wire.SignedFixedOfLE) |
| GoSrcLcs.Serializer.SerializeI128 | serde-generate/runtime/golang/src/lcs/serializer.go:128-132 | appends the unsigned low word then the signed high word, which is the 128-bit two's-complement image as 16 bytes (Wire.Int128Image); read back by Wire.SignedFixed128OfLE |
| GoSrcLcs.Serializer.SerializeVariantIndex | serde-generate/runtime/golang/src/lcs/serializer.go:134-137 | appends the ULEB128 encoding of the index |
| GoSrcLcs.Serializer.SerializeOptionTag | serde-generate/runtime/golang/src/lcs/serializer.go:139-141 | writes the option tag as a bool byte: 1 for Some, 0 for None |
| GoSrcLcs.Serializer.GetBufferOffset | serde-generate/runtime/golang/src/lcs/serializer.go:143-145 | returns the number of bytes written so far |
| GoSrcLcs.Serializer.SortMapEntries | serde-generate/runtime/golang/src/lcs/serializer.go:147-150 | panics ("unimplemented"), modelled as a not-implemented error |
| GoSrcLcs.Deserializer.DeserializeBytes | serde-generate/runtime/golang/src/lcs/deserializer.go:28-36 | reads a ULEB128 length of at most 2^31 - 1, then n bytes through bytes.Buffer.Read (GoSerde.ReadPadded): a short input is zero-padded to n, and only an empty one fails; inverse of the writer (GoSrcLcs.BytesOfWritten) |
| GoSrcLcs.Deserializer.DeserializeStr | serde-generate/runtime/golang/src/lcs/deserializer.go:46-49 | the same read as DeserializeBytes, its bytes taken as the string |
| GoSrcLcs.Deserializer.DeserializeUleb128AsU32 | serde-generate/runtime/golang/src/lcs/deserializer.go:177-198 | returns the wide ULEB128 decoding with ceiling 2^32 - 1 and moves past it |
| GoSrcLcs.Deserializer.DeserializeLen | serde-generate/runtime/golang/src/lcs/deserializer.go:38-44 | decodes a ULEB128 length and fails with LengthTooLarge above 2^31 - 1 |
| GoSrcLcs.Deserializer.DeserializeBool | serde-generate/runtime/golang/src/lcs/deserializer.go:51-54 | reads one byte: only 1 is true, every other byte (2..255 included) is false; TruncatedInput at the end |
| GoSrcLcs.Deserializer.DeserializeUnsupported | serde-generate/runtime/golang/src/lcs/deserializer.go:60-73 | char, f32 and f64 panic, modelled as a not-implemented error |
| GoSrcLcs.Deserializer.DeserializeU8 | serde-generate/runtime/golang/src/lcs/deserializer.go:75-78 | returns the unsigned value of the next 1 byte(s), low byte first, and advances past them; TruncatedInput when fewer remain; inverse of the writer (Wire.FixedOfLE) |
| GoSrcLcs.Deserializer.DeserializeU16 | serde-generate/runtime/golang/src/lcs/deserializer.go:80-90 | returns the unsigned value of the next 2 byte(s), low byte first, and advances past them; TruncatedInput when fewer remain; inverse of the writer (Wire.FixedOfLE) |
| GoSrcLcs.Deserializer.DeserializeU32 | serde-generate/runtime/golang/src/lcs/deserializer.go:92-102 | returns the unsigned value of the next 4 byte(s), low byte first, and advances past them; TruncatedInput when fewer remain; inverse of the writer (Wire.FixedOfLE) |
| GoSrcLcs.Deserializer.DeserializeU64 | serde-generate/runtime/golang/src/lcs/deserializer.go:104-114 | returns the unsigned value of the next 8 byte(s), low byte first, and advances past them; TruncatedInput when fewer remain; inverse of the writer (Wire.FixedOfLE) |
| GoSrcLcs.Deserializer.DeserializeU128 | serde-generate/runtime/golang/src/lcs/deserializer.go:116-126 | reads the low 64-bit word then the high word and advances 16 bytes; TruncatedInput when fewer remain; inverse of the writer (Wire.Fixed128OfLE) |
| GoSrcLcs.Deserializer.DeserializeI8 | serde-generate/runtime/golang/src/lcs/deserializer.go:128-131 | returns the next 1 byte(s) read as a 8-bit two's-complement integer and advances; TruncatedInput when fewer remain; inverse of the writer (Wire.SignedFixedOfLE) |
| GoSrcLcs.Deserializer.DeserializeI16 | serde-generate/runtime/golang/src/lcs/deserializer.go:133-136 | returns the next 2 byte(s) read as a 16-bit two's-complement integer and advances; TruncatedInput when fewer remain; inverse of the writer (Wire.SignedFixedOfLE) |
| GoSrcLcs.Deserializer.DeserializeI32 | serde-generate/runtime/golang/src/lcs/deserializer.go:138-141 | returns the next 4 byte(s) read as a 32-bit two's-complement integer and advances; TruncatedInput when fewer remain; inverse of the writer (Wire.SignedFixedOfLE) |
| GoSrcLcs.Deserializer.DeserializeI64 | serde-generate/runtime/golang/src/lcs/deserializer.go:143-146 | returns the next 8 byte(s) read as a 64-bit two's-complement integer and advances; TruncatedInput when fewer remain; inverse of the writer (Wire.SignedFixedOfLE) |
| GoSrcLcs.Deserializer.DeserializeI128 | serde-generate/runtime/golang/src/lcs/deserializer.go:148-158 | reads the unsigned low word then the signed high word and advances 16 bytes; TruncatedInput when fewer remain; inverse of the writer (Wire.SignedFixed128OfLE) |
| GoSrcLcs.Deserializer.DeserializeVariantIndex | serde-generate/runtime/golang/src/lcs/deserializer.go:160-162 | decodes the index as a ULEB128 u32 and on success leaves the position just past the varint |
| GoSrcLcs.Deserializer.DeserializeOptionTag | serde-generate/runtime/golang/src/lcs/deserializer.go:164-166 | reads the option tag as DeserializeBool does: byte 1 means Some, any other byte None |
| GoSrcLcs.Deserializer.GetBufferOffset | serde-generate/runtime/golang/src/lcs/deserializer.go:168-170 | returns the number of UNREAD bytes (the bytes.Buffer length), not the number consumed |
| GoSrcLcs.Deserializer.CheckThatKeySlicesAreIncreasing | serde-generate/runtime/golang/src/lcs/deserializer.go:172-175 | panics ("unimplemented"), modelled as a not-implemented error |
| JavaBincode.BincodeSerializer.SerializeBytes | serde-generate/runtime/java/bincode/BincodeSerializer.java:27-31 | appends the length as an 8-byte u64 and then the bytes |
| JavaBincode.BincodeSerializer.SerializeStr | serde-generate/runtime/java/bincode/BincodeSerializer.java:23-25 | appends the 8-byte length and then the string's bytes |
| JavaBincode.BincodeSerializer.SerializeBool | serde-generate/runtime/java/bincode/BincodeSerializer.java:33-35 | appends one byte: 1 for true, 0 for false |
| JavaBincode.BincodeSerializer.SerializeUnsupported | serde-generate/runtime/java/bincode/BincodeSerializer.java:40-50 | char, f32 and f64 always throw "Not implemented" |
| JavaBincode.BincodeSerializer.SerializeU8 | serde-generate/runtime/java/bincode/BincodeSerializer.java:52-54 | appends the 8-bit image of the Java carrier (a negative carrier stands for value + 2^8) as 1 byte(s), low byte first |
| JavaBincode.BincodeSerializer.SerializeU16 | serde-generate/runtime/java/bincode/BincodeSerializer.java:56-60 | appends the 16-bit image of the Java carrier (a negative carrier stands for value + 2^16) as 2 byte(s), low byte first |
| JavaBincode.BincodeSerializer.SerializeU32 | serde-generate/runtime/java/bincode/BincodeSerializer.java:62-68 | appends the 32-bit image of the Java carrier (a negative carrier stands for value + 2^32) as 4 byte(s), low byte first |
| JavaBincode.BincodeSerializer.SerializeU64 | serde-generate/runtime/java/bincode/BincodeSerializer.java:70-80 | appends the 64-bit image of the Java carrier (a negative carrier stands for value + 2^64) as 8 byte(s), low byte first |
| JavaBincode.BincodeSerializer.SerializeU128 | serde-generate/runtime/java/bincode/BincodeSerializer.java:82-98 | appends the 16 little-endian bytes of the value: the low bytes of toByteArray reversed, then zeros up to 16 |
| JavaBincode.BincodeSerializer.SerializeI8 | serde-generate/runtime/java/bincode/BincodeSerializer.java:100-102 | appends the 8-bit two's-complement image of the value as 1 byte(s), low byte first; the signed reader returns it (Wire.SignedFixedOfLE) |
| JavaBincode.BincodeSerializer.SerializeI16 | serde-generate/runtime/java/bincode/BincodeSerializer.java:104-106 | appends the 16-bit two's-complement image of the value as 2 byte(s), low byte first; the signed reader returns it (Wire.SignedFixedOfLE) |
| JavaBincode.BincodeSerializer.SerializeI32 | serde-generate/runtime/java/bincode/BincodeSerializer.java:108-110 | appends the 32-bit two's-complement image of the value as 4 byte(s), low byte first; the signed reader returns it (Wire.SignedFixedOfLE) |
| JavaBincode.BincodeSerializer.SerializeI64 | serde-generate/runtime/java/bincode/BincodeSerializer.java:112-114 | appends the 64-bit two's-complement image of the value as 8 byte(s), low byte first; the signed reader returns it (Wire.SignedFixedOfLE) |
| JavaBincode.BincodeSerializer.SerializeI128 | serde-generate/runtime/java/bincode/BincodeSerializer.java:116-122 | appends the 16-byte two's complement of the value, by adding 2^128 to a negative value and writing it as a u128 |
| JavaBincode.BincodeSerializer.SerializeLen | serde-generate/runtime/java/bincode/BincodeSerializer.java:124-126 | appends the long length as 8 bytes, two's complement, low byte first |
| JavaBincode.BincodeSerializer.SerializeVariantIndex | serde-generate/runtime/java/bincode/BincodeSerializer.java:128-130 | appends the int index as 4 bytes, two's complement, low byte first |
| JavaBincode.BincodeSerializer.SerializeOptionTag | serde-generate/runtime/java/bincode/BincodeSerializer.java:132-134 | appends one byte: 1 for Some, 0 for None |
| JavaBincode.BincodeSerializer.GetBufferOffset | serde-generate/runtime/java/bincode/BincodeSerializer.java:136-138 | returns the number of bytes written so far |
| JavaBincode.BincodeSerializer.SortMapEntries | serde-generate/runtime/java/bincode/BincodeSerializer.java:140-142 | leaves the buffer unchanged: bincode keeps insertion order |
| JavaBincode.BincodeSerializer.GetBytes | serde-generate/runtime/java/bincode/BincodeSerializer.java:144-146 | returns every byte written, in order |
| JavaBincode.SignedRoundTrip | serde-generate/runtime/java/bincode/BincodeSerializer.java:100-122 | what an i8 to i128 writer puts down, the little-endian signed reader of the same width returns unchanged |
| JavaBincode.UnsignedRoundTrip | serde-generate/runtime/java/bincode/BincodeSerializer.java:52-80 | a u* writer given the signed carrier of an unsigned value writes bytes whose unsigned reading is that value |
| JavaBincode.BytesRoundTrip | serde-generate/runtime/java/bincode/BincodeSerializer.java:27-31 | the 8-byte length written by serialize_bytes reads back as the length and is followed by exactly the bytes |
| JavaCommon.FromBE | serde-generate/runtime/java/com/facebook/serde/BinaryDeserializer.java:102-110 | big-endian reading of a byte array (the order BigInteger takes) |
| JavaCommon.ToByteArray | serde-generate/runtime/java/bincode/BincodeSerializer.java:82-98 | BigInteger.toByteArray of a non-negative value: its minimal big-endian two's complement bytes, most significant first |
| JavaCommon.BigIntegerOfToByteArray | serde-generate/runtime/java/bincode/BincodeSerializer.java:85 | new BigInteger(v.toByteArray()) gives v back for every non-negative v |
| JavaCommon.ToByteArrayOf128 | serde-generate/runtime/java/bincode/BincodeSerializer.java:85-89 | for a u128 the array has at most 17 bytes and a 17th is a leading zero sign byte, as the writer's assertion expects; a shorter array leaves the high bytes zero |
| JavaCommon.SignedCarrier | serde-generate/runtime/java/com/facebook/serde/BinaryDeserializer.java:61-75 | the signed reading of n bytes wraps to the unsigned reading of the same bytes and ends at the same position |
| JavaCommon.UnsignedOfSigned128 | serde-generate/runtime/java/com/facebook/serde/BinaryDeserializer.java:77-84 | adding 2^128 to a negative i128 reading gives the unsigned reading of the same 16 bytes: deserialize_u128 is the unsigned 128-bit reader |
| JavaCommon.UnsignedOfSigned | serde-generate/runtime/java/com/facebook/serde/BinaryDeserializer.java:61-75 | adding 2^(8n) to a negative signed carrier gives the unsigned reading of the same n bytes |
| JavaCommon.Int32ShiftRange | serde-generate/runtime/java/com/facebook/lcs/LcsDeserializer.java:15-32 | every value the 32-bit-shift decoder returns is a Java int, and a non-negative one when negative accumulators are refused |
| JavaCommon.Int32ShiftRoundTrip | serde-generate/runtime/java/com/facebook/lcs/LcsDeserializer.java:15-32 | reading the ULEB128 image of any Java int written unsigned gives the int back; a negative int is refused with VarintOverflow when negative accumulators are refused |
| JavaCommon.NegativeRoundTrip | serde-generate/runtime/java/com/facebook/lcs/LcsDeserializer.java:17-23 | a negative int is written in five bytes whose last digit shifted by 28 sets the sign bit, so the unguarded decoder returns the negative int itself |
| JavaCommon.LcsBytes | serde-generate/runtime/java/lcs/LcsDeserializer.java:28-36 | reads a ULEB128 length, refuses one outside [0, 2^31 - 1] with LengthTooLarge before taking bytes, then takes exactly that many bytes or fails with TruncatedInput |
| JavaCommon.LcsBytesOfWritten | serde-generate/runtime/java/lcs/LcsDeserializer.java:28-36 | bytes written behind their ULEB128 length of at most 2^31 - 1 read back whole, ending right after them |
| JavaFacebookLcs.LcsDeserializer.DeserializeUleb128AsU32 | serde-generate/runtime/java/com/facebook/lcs/LcsDeserializer.java:15-32 | the ULEB128 digits are shifted in 32-bit int arithmetic and only an accumulator above 2^31 - 1 is refused (VarintOverflow); a zero last digit after the first byte is NonCanonicalVarint and a fifth continuation byte VarintOverflow; the result (a Java int) and the new position are those of Decode(Unguarded) |
| JavaFacebookLcs.LcsDeserializer.DeserializeLen | serde-generate/runtime/java/com/facebook/lcs/LcsDeserializer.java:34-36 | the ULEB128 value itself, no further ceiling |
| JavaFacebookLcs.LcsDeserializer.DeserializeVariantIndex | serde-generate/runtime/java/com/facebook/lcs/LcsDeserializer.java:38-40 | the ULEB128 value itself, no further ceiling |
| JavaFacebookLcs.LcsDeserializer.DeserializeBytes | serde-generate/runtime/java/com/facebook/serde/BinaryDeserializer.java:24-32 | the inherited byte read over the LCS length: LcsBytes(Unguarded), the inverse of the writer (JavaCommon.LcsBytesOfWritten) |
| JavaFacebookLcs.LcsDeserializer.DeserializeStr | serde-generate/runtime/java/com/facebook/serde/BinaryDeserializer.java:19-22 | the same read as DeserializeBytes, its bytes taken as the string |
| JavaFacebookLcs.LcsDeserializer.CheckThatKeySlicesAreIncreasing | serde-generate/runtime/java/com/facebook/lcs/LcsDeserializer.java:42-46 | succeeds iff the first key's bytes are strictly less than the second's; otherwise KeysOutOfOrder |
| JavaFacebookSerde.BinaryDeserializer.DeserializeBytes | serde-generate/runtime/java/com/facebook/serde/BinaryDeserializer.java:24-32 | a failing length read is passed on; a length below 0 or above 2^31 - 1 is refused with LengthTooLarge before any byte is taken; otherwise exactly that many bytes, or TruncatedInput with nothing consumed |
| JavaFacebookSerde.BinaryDeserializer.DeserializeStr | serde-generate/runtime/java/com/facebook/serde/BinaryDeserializer.java:19-22 | the same read as DeserializeBytes, its bytes taken as the string |
| JavaFacebookSerde.BinaryDeserializer.DeserializeBool | serde-generate/runtime/java/com/facebook/serde/BinaryDeserializer.java:34-43 | reads one byte: 0 is false, 1 is true, any other byte fails with InvalidBool; TruncatedInput at the end |
| JavaFacebookSerde.BinaryDeserializer.DeserializeUnsupported | serde-generate/runtime/java/com/facebook/serde/BinaryDeserializer.java:49-59 | char, f32 and f64 always throw "Not implemented" |
| JavaFacebookSerde.BinaryDeserializer.DeserializeU8 | serde-generate/runtime/java/com/facebook/serde/BinaryDeserializer.java:61-63 | returns the next 1 byte(s) as a signed Java carrier of 8 bits (JavaCommon.UnsignedOfSigned gives the unsigned value) and advances; TruncatedInput when fewer remain |
| JavaFacebookSerde.BinaryDeserializer.DeserializeU16 | serde-generate/runtime/java/com/facebook/serde/BinaryDeserializer.java:65-67 | returns the next 2 byte(s) as a signed Java carrier of 16 bits (JavaCommon.UnsignedOfSigned gives the unsigned value) and advances; TruncatedInput when fewer remain |
| JavaFacebookSerde.BinaryDeserializer.DeserializeU32 | serde-generate/runtime/java/com/facebook/serde/BinaryDeserializer.java:69-71 | returns the next 4 byte(s) as a signed Java carrier of 32 bits (JavaCommon.UnsignedOfSigned gives the unsigned value) and advances; TruncatedInput when fewer remain |
| JavaFacebookSerde.BinaryDeserializer.DeserializeU64 | serde-generate/runtime/java/com/facebook/serde/BinaryDeserializer.java:73-75 | returns the next 8 byte(s) as a signed Java carrier of 64 bits (JavaCommon.UnsignedOfSigned gives the unsigned value) and advances; TruncatedInput when fewer remain |
| JavaFacebookSerde.BinaryDeserializer.DeserializeU128 | serde-generate/runtime/java/com/facebook/serde/BinaryDeserializer.java:77-84 | reads 16 bytes as an unsigned little-endian number in [0, 2^128), by adding 2^128 to a negative i128 reading (JavaCommon.UnsignedOfSigned128) |
| JavaFacebookSerde.BinaryDeserializer.DeserializeI8 | serde-generate/runtime/java/com/facebook/serde/BinaryDeserializer.java:86-88 | returns the next 1 byte(s) read as a 8-bit two's-complement integer and advances; TruncatedInput when fewer remain; inverse of the writer (Wire.SignedFixedOfLE) |
| JavaFacebookSerde.BinaryDeserializer.DeserializeI16 | serde-generate/runtime/java/com/facebook/serde/BinaryDeserializer.java:90-92 | returns the next 2 byte(s) read as a 16-bit two's-complement integer and advances; TruncatedInput when fewer remain; inverse of the writer (Wire.SignedFixedOfLE) |
| JavaFacebookSerde.BinaryDeserializer.DeserializeI32 | serde-generate/runtime/java/com/facebook/serde/BinaryDeserializer.java:94-96 | returns the next 4 byte(s) read as a 32-bit two's-complement integer and advances; TruncatedInput when fewer remain; inverse of the writer (Wire.SignedFixedOfLE) |
| JavaFacebookSerde.BinaryDeserializer.DeserializeI64 | serde-generate/runtime/java/com/facebook/serde/BinaryDeserializer.java:98-100 | returns the next 8 byte(s) read as a 64-bit two's-complement integer and advances; TruncatedInput when fewer remain; inverse of the writer (Wire.SignedFixedOfLE) |
| JavaFacebookSerde.BinaryDeserializer.DeserializeI128 | serde-generate/runtime/java/com/facebook/serde/BinaryDeserializer.java:102-110 | reads 16 bytes as a little-endian two's complement number, via the reversed array given to BigInteger |
| JavaFacebookSerde.BinaryDeserializer.DeserializeOptionTag | serde-generate/runtime/java/com/facebook/serde/BinaryDeserializer.java:112-114 | reads the option tag as deserialize_bool: 0 or 1, anything else is an error |
| JavaFacebookSerde.BinaryDeserializer.GetBufferOffset | serde-generate/runtime/java/com/facebook/serde/BinaryDeserializer.java:116-118 | returns the number of bytes consumed so far |
| JavaLcs.LcsSerializer.SerializeU32AsUleb128 | serde-generate/runtime/java/lcs/LcsSerializer.java:11-17 | appends the ULEB128 encoding of the int taken as unsigned (>>>), so a negative int takes five bytes |
| JavaLcs.LcsSerializer.SerializeLen | serde-generate/runtime/java/lcs/LcsSerializer.java:19-21 | appends the ULEB128 of the length cast to int with no range check; a length up to 2^32 - 1 is written exactly |
| JavaLcs.LcsSerializer.SerializeVariantIndex | serde-generate/runtime/java/lcs/LcsSerializer.java:23-25 | appends the ULEB128 of the int index taken as unsigned |
| JavaLcs.LcsSerializer.SortMapEntries | serde-generate/runtime/java/lcs/LcsSerializer.java:27-56 | replaces the buffer with SortLastEntries of it: prefix kept, entries rewritten in compare_bytes order (LexOrder.SortLastEntriesShape) |
| JavaLcs.LenTruncates | serde-generate/runtime/java/lcs/LcsSerializer.java:19-21 | a length of 2^32 is cast to the int 0 and written as the single byte 0 |
| JavaLcs.LcsDeserializer.DeserializeUleb128AsU32 | serde-generate/runtime/java/lcs/LcsDeserializer.java:116-133 | the ULEB128 digits are shifted in 32-bit int arithmetic and only an accumulator above 2^31 - 1 is refused (VarintOverflow); a zero last digit after the first byte is NonCanonicalVarint and a fifth continuation byte VarintOverflow; the result (a Java int) and the new position are those of Decode(Unguarded) |
| JavaLcs.LcsDeserializer.DeserializeLen | serde-generate/runtime/java/lcs/LcsDeserializer.java:135-137 | the ULEB128 value itself, no further ceiling |
| JavaLcs.LcsDeserializer.DeserializeVariantIndex | serde-generate/runtime/java/lcs/LcsDeserializer.java:139-141 | the ULEB128 value itself, no further ceiling |
| JavaLcs.LcsDeserializer.DeserializeBytes | serde-generate/runtime/java/lcs/LcsDeserializer.java:28-36 | LcsBytes(Unguarded): length outside [0, 2^31 - 1] refused before reading, then exactly that many bytes |
| JavaLcs.LcsDeserializer.DeserializeStr | serde-generate/runtime/java/lcs/LcsDeserializer.java:23-26 | the same read as DeserializeBytes, its bytes taken as the string |
| JavaLcs.LcsDeserializer.DeserializeBool | serde-generate/runtime/java/lcs/LcsDeserializer.java:38-47 | reads one byte: 0 is false, 1 is true, any other byte fails with InvalidBool; TruncatedInput at the end |
| JavaLcs.LcsDeserializer.DeserializeUnsupported | serde-generate/runtime/java/lcs/LcsDeserializer.java:53-63 | char, f32 and f64 always throw "Not implemented" |
| JavaLcs.LcsDeserializer.DeserializeU8 | serde-generate/runtime/java/lcs/LcsDeserializer.java:65-67 | returns the next 1 byte(s) as a signed Java carrier of 8 bits (JavaCommon.UnsignedOfSigned gives the unsigned value) and advances; TruncatedInput when fewer remain |
| JavaLcs.LcsDeserializer.DeserializeU16 | serde-generate/runtime/java/lcs/LcsDeserializer.java:69-71 | returns the next 2 byte(s) as a signed Java carrier of 16 bits (JavaCommon.UnsignedOfSigned gives the unsigned value) and advances; TruncatedInput when fewer remain |
| JavaLcs.LcsDeserializer.DeserializeU32 | serde-generate/runtime/java/lcs/LcsDeserializer.java:73-75 | returns the next 4 byte(s) as a signed Java carrier of 32 bits (JavaCommon.UnsignedOfSigned gives the unsigned value) and advances; TruncatedInput when fewer remain |
| JavaLcs.LcsDeserializer.DeserializeU64 | serde-generate/runtime/java/lcs/LcsDeserializer.java:77-79 | returns the next 8 byte(s) as a signed Java carrier of 64 bits (JavaCommon.UnsignedOfSigned gives the unsigned value) and advances; TruncatedInput when fewer remain |
| JavaLcs.LcsDeserializer.DeserializeU128 | serde-generate/runtime/java/lcs/LcsDeserializer.java:81-88 | reads 16 bytes as an unsigned little-endian number in [0, 2^128) |
| JavaLcs.LcsDeserializer.DeserializeI8 | serde-generate/runtime/java/lcs/LcsDeserializer.java:90-92 | returns the next 1 byte(s) read as a 8-bit two's-complement integer and advances; TruncatedInput when fewer remain; inverse of the writer (Wire.SignedFixedOfLE) |
| JavaLcs.LcsDeserializer.DeserializeI16 | serde-generate/runtime/java/lcs/LcsDeserializer.java:94-96 | returns the next 2 byte(s) read as a 16-bit two's-complement integer and advances; TruncatedInput when fewer remain; inverse of the writer (Wire.SignedFixedOfLE) |
| JavaLcs.LcsDeserializer.DeserializeI32 | serde-generate/runtime/java/lcs/LcsDeserializer.java:98-100 | returns the next 4 byte(s) read as a 32-bit two's-complement integer and advances; TruncatedInput when fewer remain; inverse of the writer (Wire.SignedFixedOfLE) |
| JavaLcs.LcsDeserializer.DeserializeI64 | serde-generate/runtime/java/lcs/LcsDeserializer.java:102-104 | returns the next 8 byte(s) read as a 64-bit two's-complement integer and advances; TruncatedInput when fewer remain; inverse of the writer (Wire.SignedFixedOfLE) |
| JavaLcs.LcsDeserializer.DeserializeI128 | serde-generate/runtime/java/lcs/LcsDeserializer.java:106-114 | reads 16 bytes as a little-endian two's complement number |
| JavaLcs.LcsDeserializer.DeserializeOptionTag | serde-generate/runtime/java/lcs/LcsDeserializer.java:143-145 | reads the option tag as deserialize_bool: 0 or 1, anything else is an error |
| JavaLcs.LcsDeserializer.GetBufferOffset | serde-generate/runtime/java/lcs/LcsDeserializer.java:149 | returns the number of bytes consumed so far |
| JavaLcs.LcsDeserializer.CheckThatKeySlicesAreIncreasing | serde-generate/runtime/java/lcs/LcsDeserializer.java:151-155 | succeeds iff the first key's bytes are strictly less than the second's; otherwise KeysOutOfOrder |
| JavaLcs.BytesRoundTrip | serde-generate/runtime/java/lcs/LcsDeserializer.java:28-36 | bytes written behind their ULEB128 length of at most 2^31 - 1 read back whole |
| JavaNoviLcs.LcsSerializer.SerializeUnsupported | serde-generate/runtime/java/com/novi/lcs/LcsSerializer.java:18-24 | f32 and f64 always throw SerializationError |
| JavaNoviLcs.LcsSerializer.SerializeU32AsUleb128 | serde-generate/runtime/java/com/novi/lcs/LcsSerializer.java:26-32 | appends the ULEB128 encoding of the int taken as unsigned (>>>), so a negative int takes five bytes |
| JavaNoviLcs.LcsSerializer.SerializeLen | serde-generate/runtime/java/com/novi/lcs/LcsSerializer.java:34-39 | a length below 0 or above 2^31 - 1 fails with IncorrectLength and writes nothing; otherwise appends its ULEB128 encoding |
| JavaNoviLcs.LcsSerializer.SerializeVariantIndex | serde-generate/runtime/java/com/novi/lcs/LcsSerializer.java:41-43 | appends the ULEB128 of the int index taken as unsigned, with no range check |
| JavaNoviLcs.LcsSerializer.SortMapEntries | serde-generate/runtime/java/com/novi/lcs/LcsSerializer.java:45-74 | replaces the buffer with SortLastEntries of it: prefix kept, entries rewritten in compare_bytes order (LexOrder.SortLastEntriesShape) |
| JavaNoviLcs.LcsDeserializer.DeserializeUleb128AsU32 | serde-generate/runtime/java/com/novi/lcs/LcsDeserializer.java:15-32 | the same loop as the unguarded decoder but a negative accumulator is refused too, so every accepted value lies in [0, 2^31 - 1]; the result and new position are those of Decode(Guarded) |
| JavaNoviLcs.LcsDeserializer.DeserializeLen | serde-generate/runtime/java/com/novi/lcs/LcsDeserializer.java:34-36 | the guarded ULEB128 value, within [0, 2^31 - 1] |
| JavaNoviLcs.LcsDeserializer.DeserializeVariantIndex | serde-generate/runtime/java/com/novi/lcs/LcsDeserializer.java:38-40 | the guarded ULEB128 value, within [0, 2^31 - 1] |
| JavaNoviLcs.LcsDeserializer.CheckThatKeySlicesAreIncreasing | serde-generate/runtime/java/com/novi/lcs/LcsDeserializer.java:42-46 | succeeds iff the first key's bytes are strictly less than the second's; otherwise KeysOutOfOrder |
| JavaNoviLcs.LenRoundTrip | serde-generate/runtime/java/com/novi/lcs/LcsDeserializer.java:34-36 | every length serialize_len accepts (at most 2^31 - 1) is read back by deserialize_len with the position just past it |
| JavaNoviLcs.VariantIndexRoundTrip | serde-generate/runtime/java/com/novi/lcs/LcsDeserializer.java:38-40 | a non-negative variant index reads back; a negative one, which the writer emits in five bytes, is refused with VarintOverflow |
| LexOrder.LessIsLessAt | serde-generate/runtime/cpp/bcs.hpp:128-138 | the byte order used for keys is the first-difference order: a proper prefix is smaller, otherwise the first differing byte decides |
| LexOrder.LessIrreflexive | serde-generate/runtime/cpp/bcs.hpp:128-138 | no key is less than itself, so equal keys fail the key order test |
| LexOrder.LessAsymmetric | serde-generate/runtime/cpp/bcs.hpp:128-138 | two keys are never each less than the other |
| LexOrder.LessTransitive | serde-generate/runtime/cpp/bcs.hpp:128-138 | the key order is transitive |
| LexOrder.LessTotal | serde-generate/runtime/cpp/bcs.hpp:128-138 | any two different keys are ordered one way or the other |
| LexOrder.LessPrefixFree | serde-generate/runtime/cpp/bcs.hpp:69-92 | for keys neither of which is a prefix of the other, comparing whole entries (key followed by value) is comparing keys |
| LexOrder.AdjacentIsStrict | serde-generate/runtime/cpp/bcs.hpp:128-138 | checking each pair of neighbouring keys is the same as checking that all keys are strictly increasing |
| LexOrder.SortSorted | serde-generate/runtime/cpp/bcs.hpp:69-92 | the sort returns a sorted permutation of the entries |
| LexOrder.SortedUnique | serde-generate/runtime/cpp/bcs.hpp:69-92 | two sorted permutations of the same entries are equal, so any sorting algorithm yields the same bytes |
| LexOrder.SortCanonical | serde-generate/runtime/cpp/bcs.hpp:69-92 | any sorted permutation of the entries is the result of the model's sort |
| LexOrder.ConcatSlices | serde-generate/runtime/cpp/bcs.hpp:74-80 | the slices between consecutive offsets put back together give the bytes from the first offset to the last |
| LexOrder.SortLength | serde-generate/runtime/cpp/bcs.hpp:69-92 | sorting keeps the total length of the entries |
| LexOrder.SortLastEntriesShape | serde-generate/runtime/cpp/bcs.hpp:69-92 | sorting the last entries keeps the length and every byte before the first offset, and the tail is a sorted permutation of the entry slices |
| LexOrder.SortLastEntriesOrderFree | serde-generate/runtime/cpp/bcs.hpp:69-92 | two buffers with the same prefix and the same multiset of entries sort to the same bytes |
| LexOrder.RewriteSorted | serde-generate/runtime/cpp/bcs.hpp:69-92 | the loop that slices, sorts and rewrites the tail computes SortLastEntries |
| PyBincode.DecodeLength | serde-generate/runtime/python/bincode/__init__.py:12-13 | a length is read from at most eight little-endian bytes, so it is below 2^64, and the rest is no longer than the input |
| PyBincode.DecodeVariantIndex | serde-generate/runtime/python/bincode/__init__.py:16-17 | a variant index is read from at most four little-endian bytes, so it is below 2^32 |
| PyBincode.DecodeStr | serde-generate/runtime/python/bincode/__init__.py:20-23 | decoding a string never grows the input; invalid UTF-8 is an error |
| PyBincode.DecodeBytes | serde-generate/runtime/python/bincode/__init__.py:26-29 | decoding bytes never grows the input, even when fewer bytes remain than the length says |
| PyBincode.EncodeLength | serde-generate/runtime/python/bincode/__init__.py:32-33 | int.to_bytes(8) succeeds iff the length is below 2^64 |
| PyBincode.EncodeVariantIndex | serde-generate/runtime/python/bincode/__init__.py:36-37 | int.to_bytes(4) succeeds iff the index is below 2^32 |
| PyBincode.EncodeStrAsWritten | serde-generate/runtime/python/bincode/__init__.py:40-41 | as written: the code-point count as an 8-byte length, then the UTF-8 bytes; equal to EncodeStr iff the string is ASCII (PyBincodeFindings.EncodeStrAsWrittenAgrees) |
| PyBincode.EncodeStr | serde-generate/runtime/python/bincode/__init__.py:40-41 | corrected: the UTF-8 byte count as an 8-byte length, then the bytes; decode_str reads it back (PyBincodeRoundTrip.StrRoundTrip) |
| PyBincode.EncodeBytes | serde-generate/runtime/python/bincode/__init__.py:44-45 | the byte count as an 8-byte length, then the bytes; decode_bytes reads it back (PyBincodeRoundTrip.BytesRoundTrip) |
| PyBincode.Serialize | serde-generate/runtime/python/bincode/__init__.py:126-186 | corrected: serialize with EncodeStr for strings, keeping dict insertion order; refuses a value that does not fit its type; its partner is PyBincodeRoundTrip.RoundTrip |
| PyBincode.Deserialize | serde-generate/runtime/python/bincode/__init__.py:189-261 | deserialize by type: on success the remaining content is no longer than the input |
| PyBincode.ReadSeq | serde-generate/runtime/python/bincode/__init__.py:196-205 | a sequence reads its eight-byte length then that many items |
| PyBincode.ReadOption | serde-generate/runtime/python/bincode/__init__.py:214-223 | an option reads one tag byte: 0 none, 1 some, anything else an error |
| PyBincode.ReadMap | serde-generate/runtime/python/bincode/__init__.py:225-234 | a map reads its length then its entries, with no order check |
| PyBincode.ReadEnum | serde-generate/runtime/python/bincode/__init__.py:253-258 | an enum reads its four-byte variant index then that variant's fields |
| PyBincode.ReadItems | serde-generate/runtime/python/bincode/__init__.py:201-203 | reading n items yields exactly n values |
| PyBincode.ReadFields | serde-generate/runtime/python/bincode/__init__.py:245-248 | reading the fields of a struct or tuple yields one value per field type |
| PyBincode.ReadEntries | serde-generate/runtime/python/bincode/__init__.py:230-232 | each entry reads a key then a value and stores it in the dict; the rest is no longer than the input |
| PyBincodeFindings.AsWrittenImage | serde-generate/runtime/python/bincode/__init__.py:40-41 | for "é" encode_str as written writes length 1 before the two UTF-8 bytes |
| PyBincodeFindings.AsWrittenRejected | serde-generate/runtime/python/bincode/__init__.py:20-23 | decode_str refuses that image: it decodes the single byte 0xC3, which is not valid UTF-8 |
| PyBincodeFindings.CorrectedReads | serde-generate/runtime/python/bincode/__init__.py:40-41 | the byte-length prefix 2 makes the image of "é" read back |
| PyBincodeFindings.EncodeStrAsWrittenBreaks | serde-generate/runtime/python/bincode/__init__.py:40-41 | the as-written image of "é" does not read back, while the corrected one does |
| PyBincodeFindings.EncodeStrAsWrittenAgrees | serde-generate/runtime/python/bincode/__init__.py:40-41 | encode_str as written equals the byte-length encoding iff every code point is ASCII |
| PyBincodeRoundTrip.LengthIsLaxInt | serde-generate/runtime/python/bincode/__init__.py:12-13 | decode_length is int.from_bytes over the first eight bytes |
| PyBincodeRoundTrip.IndexIsLaxInt | serde-generate/runtime/python/bincode/__init__.py:16-17 | decode_variant_index is int.from_bytes over the first four bytes |
| PyBincodeRoundTrip.LengthRoundTrip | serde-generate/runtime/python/bincode/__init__.py:12-13 | every length below 2^64 encodes and reads back with the following bytes untouched |
| PyBincodeRoundTrip.IndexRoundTrip | serde-generate/runtime/python/bincode/__init__.py:16-17 | every index below 2^32 encodes and reads back with the following bytes untouched |
| PyBincodeRoundTrip.ShortLength | serde-generate/runtime/python/bincode/__init__.py:12-13 | a length field cut short does not fail: empty input reads as 0, a single byte as its value |
| PyBincodeRoundTrip.StrRoundTrip | serde-generate/runtime/python/bincode/__init__.py:20-23 | a string whose UTF-8 image fits reads back from its byte-length encoding |
| PyBincodeRoundTrip.BytesRoundTrip | serde-generate/runtime/python/bincode/__init__.py:26-29 | decode_bytes reads back what encode_bytes wrote |
| PyBincodeRoundTrip.BoolRoundTrip | serde-generate/runtime/python/bincode/__init__.py:190-192 | the byte written for a bool reads back as that bool |
| PyBincodeRoundTrip.RoundTrip | serde-generate/runtime/python/bincode/__init__.py:126-261 | with the corrected encode_str (PyBincode.Serialize): every well-typed value within the limits serializes and reads back with the following bytes untouched; the code as written fails on "é" (Findings) |
| PyBincodeRoundTrip.SeqRoundTrip | serde-generate/runtime/python/bincode/__init__.py:135-139 | a sequence serializes and reads back item by item |
| PyBincodeRoundTrip.ItemsRoundTrip | serde-generate/runtime/python/bincode/__init__.py:201-203 | the concatenated images of n items read back as those n items |
| PyBincodeRoundTrip.FieldsRoundTrip | serde-generate/runtime/python/bincode/__init__.py:240-251 | the images of a struct's fields, in order, read back as those fields |
| PyBincodeRoundTrip.OptionRoundTrip | serde-generate/runtime/python/bincode/__init__.py:145-151 | None and Some(x) serialize with tags 0 and 1 and read back |
| PyBincodeRoundTrip.ReadNone | serde-generate/runtime/python/bincode/__init__.py:218-219 | tag 0 reads as None and consumes only the tag |
| PyBincodeRoundTrip.ReadSome | serde-generate/runtime/python/bincode/__init__.py:220-221 | tag 1 reads as whatever the inner type reads from the next byte |
| PyBincodeRoundTrip.EnumRoundTrip | serde-generate/runtime/python/bincode/__init__.py:163-183 | a variant serializes as its four-byte index then its fields and reads back as the same variant |
| PyBincodeRoundTrip.EntriesRoundTrip | serde-generate/runtime/python/bincode/__init__.py:230-232 | the images of a dict's entries, in iteration order, read back into the same entries |
| PyBincodeRoundTrip.MapRoundTrip | serde-generate/runtime/python/bincode/__init__.py:153-157 | a dict with distinct keys serializes in iteration order and reads back as the same dict |
| PyLcs.EncodeU32AsUleb128 | serde-generate/runtime/python/lcs/__init__.py:54-60 | the loop emits the canonical ULEB128 encoding of the value: seven bits per byte, low group first, continuation bit on every byte but the last |
| PyLcs.LaxDecode | serde-generate/runtime/python/lcs/__init__.py:14-28 | decode_uleb128_as_u32 never reads past its input: on success the rest it returns is no longer than the input |
| PyLcs.DecodeUleb128AsU32 | serde-generate/runtime/python/lcs/__init__.py:14-28 | the loop over shifts 0, 7, ..., 28 returns exactly the lax decoder's answer, errors included |
| PyLcs.DecodeLength | serde-generate/runtime/python/lcs/__init__.py:31-35 | a decoded length is at most 2^31 (only values above 2^31 are refused) and the rest is a suffix-sized slice of the input |
| PyLcs.DecodeStr | serde-generate/runtime/python/lcs/__init__.py:42-45 | decoding a string never grows the input; invalid UTF-8 is an error |
| PyLcs.DecodeBytes | serde-generate/runtime/python/lcs/__init__.py:48-51 | decoding bytes never grows the input |
| PyLcs.EncodeStrAsWritten | serde-generate/runtime/python/lcs/__init__.py:71-72 | as written: the code-point count as ULEB128, then the UTF-8 bytes; equal to EncodeStr iff the string is ASCII (PyLcsFindings.EncodeStrAsWrittenAgrees) |
| PyLcs.EncodeStr | serde-generate/runtime/python/lcs/__init__.py:71-72 | corrected: the UTF-8 byte count as ULEB128, then the bytes; decode_str reads it back (PyLcsRoundTrip.StrRoundTrip) |
| PyLcs.EncodeBytes | serde-generate/runtime/python/lcs/__init__.py:75-76 | the byte count as ULEB128, then the bytes; decode_bytes reads it back (PyLcsRoundTrip.BytesRoundTrip) |
| PyLcs.Serialize | serde-generate/runtime/python/lcs/__init__.py:157-222 | corrected: serialize with EncodeStr for strings; refuses a value that does not fit its type; its partner is PyLcsRoundTrip.RoundTrip, and PyLcsOrder.MapOrderIrrelevant shows dict order does not matter |
| PyLcs.KeySlice | serde-generate/runtime/python/lcs/__init__.py:268-269 | the key bytes cut from the input: as written (NegativeIndex) empty when nothing follows the key, corrected (Counted) the bytes the key was read from (PyLcsFindings.SmallMapRefused) |
| PyLcs.Read | serde-generate/runtime/python/lcs/__init__.py:225-308 | deserialize by type: on success the remaining content is no longer than the input |
| PyLcs.ReadSeq | serde-generate/runtime/python/lcs/__init__.py:232-241 | a sequence reads its length then that many items; the rest is no longer than the input |
| PyLcs.ReadOption | serde-generate/runtime/python/lcs/__init__.py:250-259 | an option reads one tag byte (0 none, 1 some, otherwise an error); the rest is no longer than the input |
| PyLcs.ReadMap | serde-generate/runtime/python/lcs/__init__.py:261-281 | a map reads its length then its entries; the rest is no longer than the input (the refusal of keys out of order is PyLcsRoundTrip.KeysOutOfOrderRefused) |
| PyLcs.ReadEnum | serde-generate/runtime/python/lcs/__init__.py:300-305 | an enum reads its variant index then that variant's fields; the rest is no longer than the input |
| PyLcs.ReadItems | serde-generate/runtime/python/lcs/__init__.py:237-239 | reading n items yields exactly n values |
| PyLcs.ReadFields | serde-generate/runtime/python/lcs/__init__.py:292-295 | reading the fields of a struct or tuple yields one value per field type |
| PyLcs.ReadEntries | serde-generate/runtime/python/lcs/__init__.py:266-279 | the rest after the entries is no longer than the input; the refusal of a key whose bytes are not strictly above the previous key's is stated by PyLcsRoundTrip.KeysOutOfOrderRefused and SecondKeyRefused |
| PyLcs.Deserialize | serde-generate/runtime/python/lcs/__init__.py:225-308 | corrected: deserialize with the Counted key slice; PyLcsRoundTrip.RoundTrip shows it reads back what Serialize writes, and PyLcsRoundTrip.KeysOutOfOrderRefused that it raises on keys out of order |
| PyLcs.DeserializeAsWritten | serde-generate/runtime/python/lcs/__init__.py:225-308 | as written: deserialize with the negative-index key slice; PyLcsFindings.SmallMapRefused shows it refuses 02 00 01, the image of {0: None, 1: None} |
| PyLcs.LaxAgreesWithStrict | serde-generate/runtime/python/lcs/__init__.py:14-28 | wherever the strict ULEB128 decoder accepts an input, the Python decoder returns the same value and the same rest |
| PyLcs.Uleb128RoundTrip | serde-generate/runtime/python/lcs/__init__.py:14-28 | decoding the encoding of any u32 gives it back with the following bytes untouched |
| PyLcs.LaxDecodeAccepts | serde-generate/runtime/python/lcs/__init__.py:14-28 | the Python decoder accepts empty input as 0 and five continuation bytes of zero as 0, both of which the strict decoder refuses |
| PyLcs.LaxDecodeRejects | serde-generate/runtime/python/lcs/__init__.py:21-27 | a zero last digit after the first byte is refused as non-canonical and a value of 2^32 or more as an overflow |
| PyLcs.LengthAtLimit | serde-generate/runtime/python/lcs/__init__.py:33-34 | a length of exactly 2^31 is accepted |
| PyLcs.LengthAboveLimit | serde-generate/runtime/python/lcs/__init__.py:33-34 | a length of 2^31 + 1 is refused |
| PyLcsFindings.EncodeStrAsWrittenBreaks | serde-generate/runtime/python/lcs/__init__.py:71-72 | for "é" encode_str writes length 1 before two UTF-8 bytes and decode_str then fails, while the byte-length prefix reads back |
| PyLcsFindings.EncodeStrAsWrittenAgrees | serde-generate/runtime/python/lcs/__init__.py:71-72 | encode_str as written equals the byte-length encoding iff every code point is ASCII |
| PyLcsFindings.SmallMapReads | serde-generate/runtime/python/lcs/__init__.py:261-281 | with the key slice taken as the bytes the key read, the dict {0: None, 1: None} of u8 to unit reads back from its image 02 00 01 |
| PyLcsFindings.SmallMapRefused | serde-generate/runtime/python/lcs/__init__.py:268-269 | with the key slice previous_content[:-len(content)] as written, the same bytes 02 00 01 are refused: the last key ends the input, so its slice [:-0] is empty |
| PyLcsFindings.KeySliceAsWrittenRejects | serde-generate/runtime/python/lcs/__init__.py:268-273 | the bytes serialize writes for {0: None, 1: None} are rejected by deserialize as written and read back with the corrected slice |
| PyLcsOrder.PermutedImages | serde-generate/runtime/python/lcs/__init__.py:189-191 | permuting the entries of a dict permutes their images |
| PyLcsOrder.MapOrderIrrelevant | serde-generate/runtime/python/lcs/__init__.py:184-193 | two dicts with the same entries in any order serialize to the same bytes, or both fail |
| PyLcsRoundTrip.StrRoundTrip | serde-generate/runtime/python/lcs/__init__.py:42-45 | decode_str reads back a string whose UTF-8 image fits the length limit, leaving the following bytes |
| PyLcsRoundTrip.BytesRoundTrip | serde-generate/runtime/python/lcs/__init__.py:48-51 | decode_bytes reads back what encode_bytes wrote, leaving the following bytes |
| PyLcsRoundTrip.BoolRoundTrip | serde-generate/runtime/python/lcs/__init__.py:104-107 | the byte written for a bool reads back as that bool |
| PyLcsRoundTrip.RoundTrip | serde-generate/runtime/python/lcs/__init__.py:157-308 | with the corrected encode_str and key slice (PyLcs.Serialize, PyLcs.Deserialize): every well-typed value within the limits serializes and reads back with the following bytes untouched; the code as written fails on "é" and on {0: None, 1: None} (Findings) |
| PyLcsRoundTrip.SeqRoundTrip | serde-generate/runtime/python/lcs/__init__.py:166-170 | a sequence serializes and reads back item by item |
| PyLcsRoundTrip.ItemsRoundTrip | serde-generate/runtime/python/lcs/__init__.py:237-239 | the concatenated images of n items read back as those n items |
| PyLcsRoundTrip.FieldsRoundTrip | serde-generate/runtime/python/lcs/__init__.py:288-298 | the images of a struct's fields, in order, read back as those fields |
| PyLcsRoundTrip.OptionRoundTrip | serde-generate/runtime/python/lcs/__init__.py:176-182 | None and Some(x) serialize with tags 0 and 1 and read back |
| PyLcsRoundTrip.ReadNone | serde-generate/runtime/python/lcs/__init__.py:254-255 | tag 0 reads as None and consumes only the tag |
| PyLcsRoundTrip.ReadSome | serde-generate/runtime/python/lcs/__init__.py:256-257 | tag 1 reads as whatever the inner type reads from the next byte |
| PyLcsRoundTrip.EnumRoundTrip | serde-generate/runtime/python/lcs/__init__.py:199-219 | a variant serializes as its index then its fields and reads back as the same variant |
| PyLcsRoundTrip.PrefixFree | serde-generate/runtime/python/lcs/__init__.py:188-191 | the image of one key is never a proper prefix of another key's image, so ordering entries by bytes orders them by key |
| PyLcsRoundTrip.EntriesSorted | serde-generate/runtime/python/lcs/__init__.py:189-193 | the entry images a map writes are in lexicographic order |
| PyLcsRoundTrip.LengthRoundTrip | serde-generate/runtime/python/lcs/__init__.py:31-35 | decode_length reads back any encoded length up to 2^31 |
| PyLcsRoundTrip.SerializeMap | serde-generate/runtime/python/lcs/__init__.py:184-193 | a map is its encoded entry count followed by the entry images sorted by bytes |
| PyLcsRoundTrip.MapRoundTrip | serde-generate/runtime/python/lcs/__init__.py:261-281 | a serialized map passes the key order check and reads back with its entries in sorted order |
| PyLcsRoundTrip.SecondKeyRefused | serde-generate/runtime/python/lcs/__init__.py:270-276 | when the second key's bytes are not strictly above the first key's, reading the entries fails with KeysOutOfOrder |
| PyLcsRoundTrip.RefusedBytes | serde-generate/runtime/python/lcs/__init__.py:266-279 | two entries read from their bytes, the second key not above the first, make deserialize raise KeysOutOfOrder |
| PyLcsRoundTrip.KeysOutOfOrderRefused | serde-generate/runtime/python/lcs/__init__.py:270-276 | deserialize raises on a dict of two entries whose second key image is not strictly above the first (equal keys included), whatever the values and the bytes after them |
| PyLcsVectors.WriteU16 | serde-generate/runtime/python/lcs/__init__.py:86 | to_bytes writes a uint16 as two bytes, low byte first |
| PyLcsVectors.ReadU16 | serde-generate/runtime/python/lcs/__init__.py:112-115 | from_bytes reads two bytes, low first, as a uint16 and leaves the rest |
| PyLcsVectors.EntryOf | serde-generate/runtime/python/lcs/__init__.py:184-193 | one dict item of type Dict[uint16, uint8] writes its key's two bytes then the value byte |
| PyLcsVectors.TestMapEntries | serde-generate/runtime/python/lcs/__init__.py:184-193 | the items of {256: 3, 1: 5} serialize to 00 01 03 and 01 00 05, in insertion order |
| PyLcsVectors.TestMapBody | serde-generate/runtime/python/lcs/__init__.py:184-193 | those two item images are already in byte order, so sorting keeps them |
| PyLcsVectors.TestMapSerializes | serde-generate/runtime/python/lcs/test_lcs.py:138-142 | serialize({256: 3, 1: 5}, Dict[uint16, uint8]) is 02 00 01 03 01 00 05 |
| PyLcsVectors.TestMapSecondEntry | serde-generate/runtime/python/lcs/__init__.py:266-279 | in the accepted vector the key 1 (01 00) is above the key 256 (00 01), so the second item is read |
| PyLcsVectors.TestMapReads | serde-generate/runtime/python/lcs/test_lcs.py:143-145 | deserialize returns {256: 3, 1: 5} from 02 00 01 03 01 00 05, with either key cut |
| PyLcsVectors.TestMapSecondKeyBelow | serde-generate/runtime/python/lcs/__init__.py:270-276 | in the refused vector the second key 00 01 is below the first 01 00, so reading the entries fails with KeysOutOfOrder |
| PyLcsVectors.TestMapRefused | serde-generate/runtime/python/lcs/test_lcs.py:146-148 | deserialize raises KeysOutOfOrder on 02 01 00 05 00 01 03, with either key cut |
| PyLcsVectors.TestMapVectors | serde-generate/runtime/python/lcs/test_lcs.py:138-148 | the map test: the dict serializes to the expected bytes, reads back, and the swapped bytes are refused, both by the corrected deserialize and as written |
| PySerdeBinary.Enter | serde-generate/runtime/python/serde_binary/__init__.py:110-114 | entering a container fails with ContainerTooDeep iff the budget is 0; otherwise leaving again restores the budget |
| PySerdeBinary.BinarySerializer.GetBufferOffset | serde-generate/runtime/python/serde_binary/__init__.py:104-105 | the offset is the number of bytes written so far |
| PySerdeBinary.BinarySerializer.IncreaseContainerDepth | serde-generate/runtime/python/serde_binary/__init__.py:110-114 | fails iff the budget is 0, leaving it; otherwise takes one from a set budget; no budget means no limit; output unchanged |
| PySerdeBinary.BinarySerializer.DecreaseContainerDepth | serde-generate/runtime/python/serde_binary/__init__.py:116-118 | gives one back to a set budget and nothing else changes |
| PySerdeBinary.BinarySerializer.SerializeLen | serde-generate/runtime/python/serde_binary/__init__.py:120-121 | appends what the format's length hook writes, or fails with the hook's error leaving the output |
| PySerdeBinary.BinarySerializer.SerializeBytes | serde-generate/runtime/python/serde_binary/__init__.py:52-54 | appends the length prefix then the bytes, or fails as the length hook does |
| PySerdeBinary.BinarySerializer.SerializeStr | serde-generate/runtime/python/serde_binary/__init__.py:56-57 | writes the UTF-8 encoding of the string as bytes |
| PySerdeBinary.BinarySerializer.SerializeBool | serde-generate/runtime/python/serde_binary/__init__.py:62-63 | appends one byte, 1 for true and 0 for false |
| PySerdeBinary.BinarySerializer.SerializeInt | serde-generate/runtime/python/serde_binary/__init__.py:65-93 | appends the little-endian image of the integer iff it fits the width and signedness; otherwise fails and writes nothing |
| PySerdeBinary.BinarySerializer.SerializeAny | serde-generate/runtime/python/serde_binary/__init__.py:130-195 | writes exactly the reference image of the value for its type, or fails where it does; on success the depth budget is back where it was |
| PySerdeBinary.BinarySerializer.SerializeSeq | serde-generate/runtime/python/serde_binary/__init__.py:137-142 | a sequence writes its length through the hook, then each item |
| PySerdeBinary.BinarySerializer.SerializeFields | serde-generate/runtime/python/serde_binary/__init__.py:191-194 | the fields of a struct or tuple are written in order, each by serialize_any |
| PySerdeBinary.BinarySerializer.SerializeStruct | serde-generate/runtime/python/serde_binary/__init__.py:187-195 | a struct spends one level of depth budget around its fields and gives it back |
| PySerdeBinary.BinarySerializer.SerializeMap | serde-generate/runtime/python/serde_binary/__init__.py:156-164 | a map writes its length, then each key and value recording the entry offsets, then lets the format reorder the entries |
| PySerdeBinary.BinarySerializer.SerializeEnum | serde-generate/runtime/python/serde_binary/__init__.py:170-195 | an enum writes its variant index through the hook, then the variant's fields as a struct |
| PySerdeBinary.ReadExactly | serde-generate/runtime/python/serde_binary/__init__.py:231-235 | read(n) succeeds iff n bytes remain and then returns exactly those bytes and moves past them; otherwise the input is too short |
| PySerdeBinary.ReadWith | serde-generate/runtime/python/serde_binary/__init__.py:319-323 | a format hook that reads a length or index only moves the position forward, within the input |
| PySerdeBinary.ParsedBytes | serde-generate/runtime/python/serde_binary/__init__.py:237-239 | reading bytes moves the position forward within the input |
| PySerdeBinary.ParsedStr | serde-generate/runtime/python/serde_binary/__init__.py:241-246 | reading a string moves the position forward within the input; invalid UTF-8 is an error |
| PySerdeBinary.ParsedInt | serde-generate/runtime/python/serde_binary/__init__.py:260-290 | reading an integer moves the position forward within the input |
| PySerdeBinary.Parsed | serde-generate/runtime/python/serde_binary/__init__.py:331-415 | deserialize_any moves the position forward within the input |
| PySerdeBinary.ParsedStruct | serde-generate/runtime/python/serde_binary/__init__.py:392-402 | reading a struct moves the position forward within the input |
| PySerdeBinary.ParsedFields | serde-generate/runtime/python/serde_binary/__init__.py:397-400 | reading fields moves the position forward within the input |
| PySerdeBinary.ParsedItems | serde-generate/runtime/python/serde_binary/__init__.py:342-344 | reading items moves the position forward within the input |
| PySerdeBinary.ParsedEntry | serde-generate/runtime/python/serde_binary/__init__.py:371-383 | reading one entry moves the position forward within the input |
| PySerdeBinary.ParsedEntries | serde-generate/runtime/python/serde_binary/__init__.py:370-383 | reading the entries of a map moves the position forward within the input |
| PySerdeBinary.BinaryDeserializer.GetBufferOffset | serde-generate/runtime/python/serde_binary/__init__.py:301-302 | the offset is the current read position |
| PySerdeBinary.BinaryDeserializer.GetRemainingBuffer | serde-generate/runtime/python/serde_binary/__init__.py:304-307 | the remaining buffer is the whole input after the bytes already read |
| PySerdeBinary.BinaryDeserializer.Read | serde-generate/runtime/python/serde_binary/__init__.py:231-235 | returns the next n bytes and moves past them iff that many remain; otherwise fails with TruncatedInput |
| PySerdeBinary.BinaryDeserializer.IncreaseContainerDepth | serde-generate/runtime/python/serde_binary/__init__.py:309-313 | fails iff the budget is 0, leaving it; otherwise takes one from a set budget; no budget means no limit; position unchanged |
| PySerdeBinary.BinaryDeserializer.DecreaseContainerDepth | serde-generate/runtime/python/serde_binary/__init__.py:315-317 | gives one back to a set budget and nothing else changes |
| PySerdeBinary.BinaryDeserializer.DeserializeLen | serde-generate/runtime/python/serde_binary/__init__.py:319-320 | returns what the format's length hook reads at the position, and moves past it |
| PySerdeBinary.BinaryDeserializer.DeserializeVariantIndex | serde-generate/runtime/python/serde_binary/__init__.py:322-323 | returns what the format's index hook reads at the position, and moves past it |
| PySerdeBinary.BinaryDeserializer.DeserializeBytes | serde-generate/runtime/python/serde_binary/__init__.py:237-239 | reads a length through the hook, then exactly that many bytes |
| PySerdeBinary.BinaryDeserializer.DeserializeStr | serde-generate/runtime/python/serde_binary/__init__.py:241-246 | reads bytes and decodes them as UTF-8; invalid UTF-8 is an error |
| PySerdeBinary.BinaryDeserializer.DeserializeBool | serde-generate/runtime/python/serde_binary/__init__.py:251-258 | byte 0 is false, 1 is true, any other byte is an error, and a missing byte is a short input |
| PySerdeBinary.BinaryDeserializer.DeserializeInt | serde-generate/runtime/python/serde_binary/__init__.py:260-290 | reads the width in bytes as a little-endian integer, signed or not, or fails if too few remain |
| PySerdeBinary.BinaryDeserializer.DeserializeAny | serde-generate/runtime/python/serde_binary/__init__.py:331-415 | reads exactly the reference parse of the type at the position and moves past it; on success the depth budget is back where it was |
| PySerdeBinary.BinaryDeserializer.DeserializeScalar | serde-generate/runtime/python/serde_binary/__init__.py:331-333 | a primitive type is read by its own reader, matching the reference parse; floats and char are refused as not implemented |
| PySerdeBinary.BinaryDeserializer.DeserializeOption | serde-generate/runtime/python/serde_binary/__init__.py:355-363 | tag 0 gives None, tag 1 the inner value, any other tag is an error, as the reference parse says |
| PySerdeBinary.BinaryDeserializer.DeserializeSeq | serde-generate/runtime/python/serde_binary/__init__.py:337-346 | a sequence reads its length through the hook, then that many items |
| PySerdeBinary.BinaryDeserializer.DeserializeFields | serde-generate/runtime/python/serde_binary/__init__.py:397-400 | the fields of a struct or tuple are read in order |
| PySerdeBinary.BinaryDeserializer.DeserializeStruct | serde-generate/runtime/python/serde_binary/__init__.py:392-402 | a struct spends one level of depth budget around its fields and gives it back |
| PySerdeBinary.BinaryDeserializer.DeserializeMap | serde-generate/runtime/python/serde_binary/__init__.py:365-385 | a map reads its length, then its entries, checking each key slice against the previous one |
| PySerdeBinary.BinaryDeserializer.DeserializeEntry | serde-generate/runtime/python/serde_binary/__init__.py:371-383 | one entry reads key and value, records the key's byte slice and, from the second entry on, calls the format's key check |
| PySerdeBinary.BinaryDeserializer.DeserializeEnum | serde-generate/runtime/python/serde_binary/__init__.py:405-412 | an enum reads its variant index, refuses one outside the variants, then reads that variant |
| PySerdeBinaryProps.OneField | serde-generate/runtime/python/serde_binary/__init__.py:191-194 | a struct of one field writes exactly what that field writes |
| PySerdeBinaryProps.OneFieldRead | serde-generate/runtime/python/serde_binary/__init__.py:397-400 | a struct of one field reads exactly what that field reads |
| PySerdeBinaryProps.NestedWrite | serde-generate/runtime/python/serde_binary/__init__.py:187-195 | a value nested d structs deep serializes iff the budget is unset or at least d; otherwise ContainerTooDeep |
| PySerdeBinaryProps.NestedRead | serde-generate/runtime/python/serde_binary/__init__.py:392-402 | a value nested d structs deep deserializes iff the budget is unset or at least d; otherwise ContainerTooDeep |
| PySerdeBinaryProps.SiblingsShareBudget | serde-generate/runtime/python/serde_binary/__init__.py:144-146 | two sibling structs each n deep both fit a budget of n: the budget is given back after each one |
| PySerdeBinaryProps.ContainersSpendNoDepth | serde-generate/runtime/python/serde_binary/__init__.py:137-154 | sequences and options spend no depth budget; only structs and variants do |
| PySerdeBinaryProps.BoolRoundTrip | serde-generate/runtime/python/serde_binary/__init__.py:62-63 | a bool writes one byte that reads back as the same bool |
| PySerdeBinaryProps.BoolBytes | serde-generate/runtime/python/serde_binary/__init__.py:251-258 | a bool reads iff the next byte is 0 or 1; a larger byte is an error and a missing byte a short input |
| PySerdeBinaryProps.IntRoundTrip | serde-generate/runtime/python/serde_binary/__init__.py:65-93 | an integer serializes iff it fits its width and signedness, and then reads back |
| PySerdeBinaryProps.IntTooShort | serde-generate/runtime/python/serde_binary/__init__.py:231-235 | an integer with fewer bytes left than its width fails with a short input |
| PySerdeBinaryProps.BytesRoundTrip | serde-generate/runtime/python/serde_binary/__init__.py:52-54 | bytes read back whenever the format's length hooks read back the length they write |
| PySerdeBinaryProps.StrRoundTrip | serde-generate/runtime/python/serde_binary/__init__.py:56-57 | a string reads back whenever the length hooks read back the length of its UTF-8 image |
| PySerdeBinaryProps.BytesTooShort | serde-generate/runtime/python/serde_binary/__init__.py:237-239 | a length larger than what remains makes the read fail with a short input |
| PySerdeBinaryProps.OptionTags | serde-generate/runtime/python/serde_binary/__init__.py:148-154 | None writes tag 0 and Some writes tag 1 before the value; tag 0 reads None, 1 reads the value and any other tag is an error |
| PySerdeBinaryProps.VariantIndexOutOfRange | serde-generate/runtime/python/serde_binary/__init__.py:405-410 | a variant index beyond the enum's variants is refused on reading, and on writing |
| PySerdeBinaryProps.EntryOffsets | serde-generate/runtime/python/serde_binary/__init__.py:159-163 | the offsets a map records are the output lengths at which each entry starts, increasing, one per entry |
| PySerdeBinaryProps.MapParsed | serde-generate/runtime/python/serde_binary/__init__.py:365-385 | a map reads as its length followed by its entries, errors included |
| PySerdeBinaryProps.CheckFromSecondEntry | serde-generate/runtime/python/serde_binary/__init__.py:377-380 | the key check is not called for a single entry and is called for the second one |
| PySerdeBinaryProps.CheckAnswerDropped | serde-generate/runtime/python/serde_binary/__init__.py:377-380 | the answer of the key check is ignored: with hooks that answer instead of raising, decreasing keys are accepted |
| PyTypes.PutLookup | serde-generate/runtime/python/lcs/__init__.py:261-287 | after storing a key in a dict it maps to the new value and every other key keeps its value |
| PyTypes.LookupAbsent | serde-generate/runtime/python/lcs/__init__.py:261-287 | a key that no entry holds is absent |
| PyTypes.ToBytes | serde-generate/runtime/python/lcs/__init__.py:83-95 | int.to_bytes succeeds iff the value fits the width and signedness, and otherwise raises |
| PyTypes.LaxIntOfToBytes | serde-generate/runtime/python/lcs/__init__.py:102-141 | int.from_bytes of the first n bytes returns the value int.to_bytes wrote, with the rest of the input |
| PyTypes.LaxIntShort | serde-generate/runtime/python/lcs/__init__.py:102-141 | reading past the end does not fail: empty input reads as 0 and a short slice is read as it is |
| Analyzer.Dependencies | serde-generate/src/analyzer.rs:7-16 | get_dependencies: fails on a placeholder, else the names of the TypeName formats a visit meets; Analyzer.DependenciesAreMentions shows these are exactly the names the container mentions |
| Analyzer.VisitedMentions | serde-generate/src/analyzer.rs:7-16 | a type name is among the visited formats iff the format mentions it anywhere |
| Analyzer.DependenciesAreMentions | serde-generate/src/analyzer.rs:7-16 | get_dependencies fails iff a placeholder is left, and otherwise returns exactly the type names the container mentions |
| Analyzer.GetDependencyMap | serde-generate/src/analyzer.rs:23-29 | succeeds iff every container is resolved, and then maps each registry name to exactly the type names its container mentions |
| Analyzer.RankedNoCycle | serde-generate/src/analyzer.rs:31-32 | a graph whose children all rank lower has no cycle |
| Analyzer.InsertByCount | serde-generate/src/analyzer.rs:40 | inserting a node into a queue sorted by child count keeps it sorted and adds exactly that node |
| Analyzer.SortByCount | serde-generate/src/analyzer.rs:40 | the stable sort by child count gives a permutation sorted by count |
| Analyzer.InitialQueue | serde-generate/src/analyzer.rs:39-40 | the initial queue holds exactly the keys |
| Analyzer.Unseen | serde-generate/src/analyzer.rs:70-74 | the children pushed are exactly those not seen yet |
| Analyzer.PushUnseen | serde-generate/src/analyzer.rs:70-74 | the loop appends exactly the unseen children, in order |
| Analyzer.BestEffortTopologicalSort | serde-generate/src/analyzer.rs:32-77 | lists every node exactly once; when the graph has no cycle every node comes after all its children |
| Analyzer.Drain | serde-generate/src/analyzer.rs:48-75 | the worklist loop emits each node once, and children first when the graph is acyclic |
| Analyzer.PairExample | serde-generate/tests/analyzer.rs:11-17 | sorting the two nodes 1 -> 2 gives [2, 1] |
| Analyzer.PairOrder | serde-generate/tests/analyzer.rs:11-17 | children-first forces [2, 1] as the only order for two nodes where 1 has the child 2 |
| Analyzer.ChainExample | serde-generate/tests/analyzer.rs:27-34 | sorting the chain 1 -> 2 -> 3 with 1 -> 3 gives [3, 2, 1] |
| Analyzer.ChainOrder | serde-generate/tests/analyzer.rs:27-34 | children-first forces [3, 2, 1] as the only order for that chain |
| Analyzer.DependenciesExample | serde-generate/src/analyzer.rs:7-16 | a struct mentioning Foo through an option and Bar through a map value depends on exactly Foo and Bar |
| Common.Decimal | serde-generate/src/common.rs:31-33 | the decimal rendering of a count is a non-empty string of digits |
| Common.Mangle | serde-generate/src/common.rs:6-43 | mangle_type: type names as they are, containers and tuples spelled out with underscores; Common.MangleIsJoin, Common.DemangleMangle and Common.MangleInjective state what it means |
| Common.MangleIsJoin | serde-generate/src/common.rs:6-43 | every mangled name is its tokens joined by underscores |
| Common.MangleMap | serde-generate/src/common.rs:30 | a map mangles as map_<key>_to_<value> |
| Common.MangleTuple | serde-generate/src/common.rs:31-39 | a tuple mangles as tuple<n>_ followed by its formats joined by underscores |
| Common.MangleArray | serde-generate/src/common.rs:40 | an array mangles as array<size>_<content>_array |
| Common.SplitJoin | serde-generate/src/common.rs:6-43 | splitting at underscores undoes the join when no token holds an underscore |
| Common.TokensPlain | serde-generate/src/common.rs:9-40 | when no type name holds an underscore, no token does either |
| Common.DemangleMangle | serde-generate/src/common.rs:6-43 | a mangled name can be parsed back into the format it came from when type names are plain |
| Common.MangleInjective | serde-generate/src/common.rs:6-43 | with plain type names two formats mangle to the same name iff they are equal |
| Common.MapExample | serde-generate/src/common.rs:28-30 | a map from str to an option of Foo mangles to map_str_to_option_Foo |
| Common.TupleExample | serde-generate/src/common.rs:31-39 | a pair of u8 and bool mangles to tuple2_u8_bool |
| Common.ArrayExample | serde-generate/src/common.rs:29-40 | an array of 8 vectors of u64 mangles to array8_vector_u64_array |
| Common.UnderscoreCollision | serde-generate/src/common.rs:30 | type names holding "_to_" make two different maps share one mangled name |
| Indent.Level | serde-generate/src/indent.rs:29-38 | one level of indentation is one tab, or n spaces |
| Indent.Unindented | serde-generate/src/indent.rs:40-50 | unindenting keeps all but the last level's width of bytes, and empties an indentation shorter than that |
| Indent.UnindentUndoesIndent | serde-generate/src/indent.rs:29-50 | unindent after indent restores the indentation |
| Indent.IndentedAppend | serde-generate/src/indent.rs:54-83 | writing two buffers one after the other gives the same output and line state as writing them joined |
| Indent.IndentedText | serde-generate/src/indent.rs:65-71 | text without newline gets the indentation only when it starts a line and is not empty |
| Indent.LineIndented | serde-generate/src/indent.rs:65-77 | a line followed by a newline is written with the indentation in front, and the writer is back at the start of a line |
| Indent.StrippedIndented | serde-generate/src/indent.rs:54-83 | removing the inserted indentation from the output gives back exactly the bytes written |
| Indent.IndentedWriter.Indent | serde-generate/src/indent.rs:29-38 | adds one level to the indentation and changes nothing else |
| Indent.IndentedWriter.Unindent | serde-generate/src/indent.rs:40-50 | removes one level, saturating at empty, and changes nothing else |
| Indent.IndentedWriter.Write | serde-generate/src/indent.rs:54-83 | reports every byte of the buffer as written and appends the buffer with the indentation inserted at each non-empty line start |
| Indent.WriteLine | serde-generate/src/indent.rs:100-111 | writeln! of a line appends the indentation (unless the line is empty), the line and a newline |
| Indent.Stanza | serde-generate/src/indent.rs:101-108 | indent, a line, a blank line and the line again: the blank line gets no indentation |
| Indent.BasicExample | serde-generate/src/indent.rs:95-126 | the writer produces exactly the expected text of the basic test |
| Uleb128.Encode | serde-generate/runtime/cpp/bcs.hpp:50-56 | the encoding of any value has at least one byte |
| Uleb128.Int32ShiftWraps | serde-generate/runtime/cpp/lcs.hpp:224 | in the 32-bit-shift dialect a shifted digit is the 32-bit signed image of digit * 2^shift |
| Uleb128.Decode | serde-generate/runtime/cpp/bcs.hpp:94-114 | the ULEB128 reader of every runtime, by dialect (wide with a ceiling, or 32-bit int shift); Uleb128.AcceptsExactlyEncodings and Uleb128.DecodeEncode state what it accepts and returns |
| Uleb128.RejectedAbove | serde-generate/runtime/cpp/bcs.hpp:100-103 | the overflow test rejects exactly the accumulators above the ceiling |
| Uleb128.DecodeEncode | serde-generate/runtime/cpp/bcs.hpp:94-114 | decoding the encoding of a value within the dialect's ceiling returns the value and consumes exactly the encoding, for every dialect |
| Uleb128.LengthPrefixedOfEncode | serde-generate/runtime/cpp/lcs.hpp:238-246 | a string written after its ULEB128 length is read back whole when the length is within the ceiling |
| Uleb128.DecodeCanonical | serde-generate/runtime/cpp/bcs.hpp:94-114 | whatever the wide decoder accepts is the encoding of its result, which lies within the ceiling |
| Uleb128.AcceptsExactlyEncodings | serde-generate/runtime/cpp/bcs.hpp:94-114 | the wide decoder succeeds iff the input at the position begins with the encoding of some value within the ceiling |
| Uleb128.EncodeShape | serde-generate/runtime/cpp/bcs.hpp:50-56 | every byte but the last carries the 0x80 flag, the last is below 0x80, and a value below 2^(7k) needs at most k bytes |
| Uleb128.EncodeU32Shape | serde-generate/runtime/cpp/bcs.hpp:50-56 | a u32 encodes to 1 to 5 bytes |
| Uleb128.RejectsZeroTerminator | serde-generate/runtime/cpp/bcs.hpp:104-108 | [0x80, 0x00] fails with NonCanonicalVarint |
| Uleb128.RejectsOverflow | serde-generate/runtime/cpp/bcs.hpp:100-103 | [0xff, 0xff, 0xff, 0xff, 0x10] (above 2^32 - 1) fails with VarintOverflow |
| Uleb128.RejectsSixthByte | serde-generate/runtime/cpp/bcs.hpp:96-113 | a sixth byte is never read: five flagged bytes fail with VarintOverflow |
| Uleb128.RejectsTruncated | serde-generate/runtime/cpp/bcs.hpp:94-114 | input ending inside a varint fails with TruncatedInput |
| Uleb128.Int32ShiftAcceptsOverlongZero | serde-generate/runtime/cpp/lcs.hpp:219-236 | the 32-bit-shift dialect reads [0x80, 0x80, 0x80, 0x80, 0x10] as 0 (the digit 0x10 shifted by 28 wraps to 0), which the wide dialect refuses |
| Uleb128.Int32ShiftAcceptsWrappedDigit | serde-generate/runtime/java/com/facebook/lcs/LcsDeserializer.java:15-32 | the 32-bit-shift dialect reads [0xff, 0xff, 0xff, 0xff, 0x10] as 0xfff_ffff: the top digit wraps |
| Uleb128.Int32ShiftAcceptsNegative | serde-generate/runtime/java/com/novi/lcs/LcsDeserializer.java:15-32 | [0xff, 0xff, 0xff, 0xff, 0x0f] is refused when negative accumulators are rejected and reads as -1 otherwise |
| Utf8.EncodeChar | serde-generate/runtime/python/serde_binary/__init__.py:56-57 | a code point encodes to 1 to 4 bytes, one byte exactly for ASCII |
| Utf8.DecodeEncodeChar | serde-generate/runtime/python/serde_binary/__init__.py:241-246 | decoding the encoding of a code point returns it and consumes its bytes |
| Utf8.DecodeEncode | serde-generate/runtime/python/serde_binary/__init__.py:241-246 | decoding the UTF-8 encoding of a string gives the string back |
| Utf8.EncodeLength | serde-generate/runtime/python/lcs/__init__.py:71-72 | the encoding is never shorter than the string, and has the same length iff every code point is ASCII |
| Wire.Wrap | serde-generate/runtime/cpp/bincode.hpp:139-153 | the unsigned image of a signed value modulo 2^bits is below 2^bits (the static_cast to the unsigned type of the same width) |
| Wire.SignedWrap | serde-generate/runtime/cpp/bincode.hpp:139-153 | the signed value is recovered from its unsigned image; non-negative values are unchanged and negative ones gain 2^bits |
| Wire.WrapSigned | serde-generate/runtime/cpp/bincode.hpp:238-252 | reading an unsigned image back as signed gives a value in range whose image is the original |
| Wire.LE | serde-generate/runtime/cpp/bincode.hpp:111-132 | the little-endian image of a value has exactly n bytes |
| Wire.FromLEBound | serde-generate/runtime/cpp/bincode.hpp:202-229 | n bytes read low first give a value below 2^(8n) |
| Wire.FromLEOfLE | serde-generate/runtime/cpp/bincode.hpp:202-229 | reading back the n-byte little-endian image of a value below 2^(8n) gives the value |
| Wire.LEOfFromLE | serde-generate/runtime/cpp/bincode.hpp:202-229 | writing the value of n bytes as n little-endian bytes gives the same bytes: every byte string is an image |
| Wire.LEConcat | serde-generate/runtime/cpp/bincode.hpp:134-137 | the image of a low part followed by the image of a high part is the image of the combined value |
| Wire.Uint128Image | serde-generate/runtime/cpp/bincode.hpp:134-137 | writing the low word then the high word of a u128 gives its 16-byte little-endian image, and the value is below 2^128 |
| Wire.Int128Image | serde-generate/runtime/cpp/bincode.hpp:155-158 | writing the unsigned low word then the signed high word of an i128 gives its 16-byte two's-complement image |
| Wire.FixedBound | serde-generate/runtime/cpp/bincode.hpp:202-229 | every value read from n bytes is below 2^(8n) |
| Wire.FixedOfLE | serde-generate/runtime/cpp/bincode.hpp:202-229 | reading n bytes at the end of any prefix returns the value whose image was written there, and the position after it |
| Wire.SignedFixedOfLE | serde-generate/runtime/cpp/bincode.hpp:238-252 | reading the two's-complement image of a signed value returns that value |
| Wire.Fixed128OfLE | serde-generate/runtime/cpp/bincode.hpp:231-236 | reading a written u128 (low word, high word) returns it |
| Wire.SignedFixed128OfLE | serde-generate/runtime/cpp/bincode.hpp:254-259 | reading a written i128 (low word, signed high word) returns it |
| Wire.Take | serde-generate/runtime/cpp/bincode.hpp:172-180 | taking n bytes succeeds iff n bytes remain, returns exactly n bytes and the position after them; TruncatedInput otherwise |
| Wire.TakeOf | serde-generate/runtime/cpp/bincode.hpp:172-180 | taking |s| bytes where s was written returns s |
| Wire.ReadBoolOf | serde-generate/runtime/cpp/lcs.hpp:118-120 | a written bool byte reads back as the same bool under every reading rule |
| Wire.ReadBoolRules | serde-generate/runtime/golang/lcs/deserializer.go:56-69 | the strict rule accepts exactly bytes 0 and 1, where all three rules agree; on bytes above 1 the nonzero rule says true and the equals-one rule says false |

## Left out

- serde-reflection: `Format`, `ContainerFormat`, `Registry` and `visit` are restated in `rust_formats.dfy` and `Analyzer.Visited`, not modelled from that crate's source; tracing is not part of this model.
- Output streams and flushing (`io.BytesIO`, `ByteArrayOutputStream`, `bytes.Buffer`, `std::io::Write::flush`): each is a byte sequence the methods append to; write failures of the underlying stream are not modelled.
- Floating point and `char`: every runtime refuses them, and the model keeps only that error outcome (`SerializeUnsupported`, `DeserializeUnsupported`, `NotImplemented`).
- `serialize_unit` / `deserialize_unit` write and read nothing, and are not given members of their own.
- `BTreeMap` / `BTreeSet` in `analyzer.rs`: the keys and each node's children are sequences of distinct elements in any order (`Analyzer.Graph`), so what is proved about `best_effort_topological_sort` holds for every iteration order, the increasing order of the B-tree collections included; the model does not pin that order down.
- Acyclicity in `best_effort_topological_sort` is stated through a ranking of the nodes (`Analyzer.Ranked`); the method's children-first guarantee is proved for graphs that have such a ranking.
- Analyzer.BestEffortTopologicalSort: its contract fixes the result only up to children first. The two-node test (tests/analyzer.rs lines 11-17) and the chain (lines 27-34) have one children-first order, proved as `Analyzer.PairOrder` and `Analyzer.ChainOrder`. The expected [2, 3, 1] of lines 19-26 is one of two children-first orders; which one the code returns is decided by the key tie-break among nodes of equal child count in the initial queue and by the order in which children are pushed, which the contract does not fix. The two cyclic tests (lines 35-57) depend on how cycles are broken; for them the model proves only that every node appears once.
- The test on the larger registry (tests/analyzer.rs lines 60-77) needs the test registry of `test_utils.rs`, which is not part of this model; `Analyzer.DependenciesExample` checks a small struct instead.
- `mangle_type` with type names that hold underscores is not injective (`Common.UnderscoreCollision`); `Common.MangleInjective` and `Common.DemangleMangle` assume plain names.
- `Common.Mangle`: a `Variable` placeholder makes the source panic; the model requires resolved formats instead.
- CppLcs.LcsSerializer.SerializeLen: corrected writer; the source's `serialize_len` goes through the unflagged encoder of `lcs.hpp:95-101`, which `CppLcs.LcsSerializer.SerializeLenAsWritten` models.
- CppLcs.LcsSerializer.SerializeStr: corrected writer, with a flagged length prefix; the code as written is `CppLcs.LcsSerializer.SerializeStrAsWritten`.
- CppLcs.LcsSerializer.SerializeVariantIndex: corrected writer; the code as written is `CppLcs.LcsSerializer.SerializeVariantIndexAsWritten`.
- CppLcs.LcsDeserializer.DeserializeLen, CppLcs.LcsDeserializer.DeserializeStr, CppLcs.LcsDeserializer.DeserializeVariantIndex: read through the corrected wide decoder, not `DeserializeUleb128AsU32AsWritten`, so they accept values of 2^31 and more that the source refuses (`CppLcs.AsWrittenRefuses2To31`).
- PyLcs.Serialize: uses the corrected `encode_str` (`PyLcs.EncodeStr`); the code as written (`PyLcs.EncodeStrAsWritten`) differs on non-ASCII strings, so `PyLcsRoundTrip.RoundTrip` does not hold of it.
- PyLcs.Deserialize: uses the corrected key slice (`Counted`); the code as written is `PyLcs.DeserializeAsWritten`, which refuses a map whose last key ends the input.
- PyBincode.Serialize: uses the corrected `encode_str` (`PyBincode.EncodeStr`); `PyBincodeRoundTrip.RoundTrip` does not hold of the code as written on non-ASCII strings.
- JavaLcs.LcsDeserializer.DeserializeStr: `new String(bytes)` decodes with the platform's default charset; the model takes the bytes themselves as the string, so charset decoding and replacement of malformed input are not modelled.
- JavaFacebookSerde.BinaryDeserializer.DeserializeStr: the same `new String(bytes)` in the platform charset, taken as the bytes themselves.
- JavaFacebookLcs.LcsDeserializer.DeserializeStr: inherits that read; the same simplification.
- JavaBincode.BincodeSerializer.SerializeU128: the range checks of `serialize_u128` (BincodeSerializer.java lines 83-84) are Java `assert`s, which the JVM skips unless run with `-ea`; the model makes them a precondition and does not model what an out-of-range value writes without them (its `toByteArray()` cut to 16 bytes).
- JavaLcs.LcsSerializer.SortMapEntries, JavaNoviLcs.LcsSerializer.SortMapEntries and the Java `CheckThatKeySlicesAreIncreasing` members (JavaLcs, JavaFacebookLcs, JavaNoviLcs): they compare keys with `Slice.compare_bytes`, whose body is not part of this model; it is taken to be unsigned lexicographic order on bytes (`LexOrder.Less`), the order the C++, Go and Python runtimes use.
- JavaBincode.BincodeSerializer.SerializeStr: `String.getBytes()` encodes in the platform charset; the model takes the string as its bytes.
- Python duck typing: `typing` and `dataclasses` introspection is reduced to the `PyTypes.Type` datatype; `serde_types` wrappers, nested `Optional` and the range checks of `st.uint8(...)` and friends are not modelled.
- Python strings are sequences of code points without surrogates; invalid UTF-8 is the one decoding error.
- The abstract hooks of `serde_binary` (`serialize_len`, `serialize_variant_index`, `sort_map_entries`, `deserialize_len`, `deserialize_variant_index`, `check_that_key_slices_are_increasing`) are parameters of the classes, as the format modules would supply them.
- `serde_binary.BinarySerializer.SerializeMap`: the format's `sort_map_entries` hook is applied to the recorded offsets but what it does to the buffer is left to the hook.
- The position of a reader after a failed read is not specified; a reader that failed is not used again.
- `binary.hpp` (the C++ base behind `bcs.hpp`), Java `serde.BinarySerializer` / `serde.BinaryDeserializer` and the novi serde base classes are not part of this model; the members they provide are modelled abstractly inside the classes that use them.
- `com/novi/bincode` and `java/bincode/BincodeDeserializer.java` only delegate to base classes that are not part of this model.
- The Go container-depth argument of `NewBinaryDeserializer(input, depth)` is an abstract parameter; the base shown takes no depth.
- `std::string::reserve` of a huge length in `bincode.hpp` and other allocation failures are not modelled.
- Integer widths: values are unbounded integers with explicit ranges in the contracts; Java and C++ wrap-around is written out where the source depends on it (`Wrap`, `Int32Shift`).
- PyLcs.Read: its contract states only that the remaining input shrinks; what it reads is stated by the round-trip lemmas of `PyLcsRoundTrip`.
- PyLcs.ReadSeq, PyLcs.ReadOption, PyLcs.ReadMap, PyLcs.ReadEnum, PyLcs.ReadItems, PyLcs.ReadFields, PyLcs.ReadEntries: the same, bounds and counts only.
- PyLcs.LaxDecode: bounds only; its agreement with the strict decoder is `PyLcs.LaxAgreesWithStrict`.
- PyLcs.DecodeStr, PyLcs.DecodeBytes, PyBincode.DecodeStr, PyBincode.DecodeBytes: bounds only; the round trips are in the `*RoundTrip` modules.
- PyBincode.Deserialize: bounds only; what it reads is stated by `PyBincodeRoundTrip.RoundTrip`.
- PyBincode.ReadSeq, PyBincode.ReadOption, PyBincode.ReadMap, PyBincode.ReadEnum, PyBincode.ReadItems, PyBincode.ReadFields, PyBincode.ReadEntries: bounds and counts only.
- PySerdeBinary.Parsed: its own contract states only that the position moves forward within the input; the deserializer methods are tied to it exactly, and `PySerdeBinaryProps` states what it reads.
- PySerdeBinary.ParsedBytes, PySerdeBinary.ParsedStr, PySerdeBinary.ParsedInt, PySerdeBinary.ParsedStruct, PySerdeBinary.ParsedFields, PySerdeBinary.ParsedItems, PySerdeBinary.ParsedEntry, PySerdeBinary.ParsedEntries, PySerdeBinary.ReadWith: position bounds only, as for `Parsed`.

## Findings

| source | as written | input that shows it | evidently intended | confidence | as-written member | corrected member |
|---|---|---|---|---|---|---|
| serde-generate/runtime/cpp/lcs.hpp:95-101 | `serialize_u32_as_uleb128` writes each 7-bit digit without the 0x80 continuation flag | 128 is written as `00 01`, which any ULEB128 reader takes as 0 | set the flag on every byte but the last, as `bcs.hpp` does | not executed | CppLcs.UnflaggedLoses128 | CppLcs.LcsSerializer.SerializeU32AsUleb128 |
| serde-generate/runtime/cpp/lcs.hpp:219-236 | `deserialize_uleb128_as_u32` shifts each digit as a 32-bit `int` (undefined behaviour once it overflows; common compilers sign-extend), so values of 2^31 or more cannot be read | the canonical encoding `80 80 80 80 08` of 2^31, a length the writer allows, fails with an overflow | widen the digit to 64 bits before the shift, as `bcs.hpp:99` does | not executed | CppLcs.AsWrittenRefuses2To31 | CppLcs.LcsDeserializer.DeserializeUleb128AsU32 |
| serde-generate/runtime/python/lcs/__init__.py:268-269 | the key slice is `previous_content[:-len(content)]`, which is empty when nothing follows the key in the input | the dict `{0: None, 1: None}` of type `Dict[uint8, unit]` is serialized as `02 00 01`; reading it back, the second key ends the input, its slice `[:-0]` is empty and the map is refused as out of order | take the slice up to the end of the key, `previous_content[:len(previous_content) - len(content)]` | not executed | PyLcsFindings.SmallMapRefused | PyLcsRoundTrip.MapRoundTrip |
| serde-generate/runtime/python/lcs/__init__.py:71-72 | `encode_str` writes `len(value)`, the number of code points, before the UTF-8 bytes | `"é"` is written as `01 C3 A9`; `decode_str` reads the single byte `C3` and fails | prefix the number of UTF-8 bytes | not executed | PyLcsFindings.EncodeStrAsWrittenBreaks | PyLcsRoundTrip.StrRoundTrip |
| serde-generate/runtime/python/bincode/__init__.py:40-41 | `encode_str` writes `len(value)`, the number of code points, as the eight-byte length | `"é"` is written as `01 00 00 00 00 00 00 00 C3 A9`; `decode_str` reads the single byte `C3` and fails | prefix the number of UTF-8 bytes | not executed | PyBincodeFindings.EncodeStrAsWrittenBreaks | PyBincodeRoundTrip.StrRoundTrip |
