# banjo-keyring keyblock codec, in Dafny

This project models the binary codec of banjo-keyring. A keyblock file holds:

- a header: the magic number "banjo", a format specifier, flags, a 32-byte block secret, a uid, a name and a description, and the number of keyfiles;
- that many keyfile records: flags, a 32-byte key secret, a uid, path, name and description, a length, and `length / 8` content bytes;
- a signature.

`KeyBlock::load` reads such a file into a block whose keyfiles sit in a map keyed by path. `KeyBlock::serialize` writes a block back out. `KeyFile::load` and `KeyFile::serialize` do the same for one record. The two helpers they use come from `src/utils.rs`: `compare_buffers` and `read_null_string`.

Modules:

- `Wrappers`: `Option` and `Result`.
- `Bytes`: the `u16`/`u64` ranges, little-endian encoding (the `byteorder` crate), and the two text conversions. Writing uses UTF-8 (`String::as_bytes`). Reading maps each byte to a char (`char::from`).
- `Io`: the `BufReader` over a file, modelled as the file's bytes and a position. It provides `read`, `read_exact`, `read_u16`, `read_u64` and byte iteration. Each method is specified by a function of the bytes and the start position.
- `Utils`: `compare_buffers` and `read_null_string`.
- `Keyblock`: `ParseErrors`, the `From<io::Error>` conversion, `KeyFile` and `KeyBlock` with their `load` and `serialize`, and the decoding functions the methods are proved equal to.
- `KeyblockLemmas`: what those functions guarantee:
  - round trips, including trailing bytes and a short signature;
  - which error a malformed file yields;
  - duplicate paths.
- `KeyblockTruncation`: a read that succeeds on a prefix of a file gives the same result on the whole file. It follows that a serialized block cut short anywhere fails to load.

How the methods are tied to the functions:

- Each `load` method advances a `Reader` object field by field, as the source does. Its postcondition equates the result and the final position with a function such as `KeyFileAt(data, pos)`.
- Each `serialize` appends to a buffer step by step. Its postcondition gives the bytes written.

The keyfile map is a Rust `HashMap`, so `KeyBlock::serialize` visits the records in an unspecified order. The model picks each next path arbitrarily. Its postcondition says the output is the encoding for some order that lists every path once. The round-trip lemmas hold for every such order.

Where the code and the format description differ, the model follows the code:

- **Signature size.** The signature is `SIGNATURE_SIZE / 8` = 6 bytes, which is what `load` reads. It is not 50 bits, as the grammar comment at `src/keyblock.rs:23` says. It is not 50 bytes either.
- **Short files.** A file shorter than five bytes fails with `InvalidMagicNumber`, not end of input: the magic number is checked before anything else is read.
- **Text encoding.** Text is written as UTF-8 but read one byte per character. Names therefore round trip only when they are ASCII without NUL (`Bytes.IsCString`). `Bytes.NonAsciiDoesNotRoundTrip` shows a character that does not.

## Model

| member | source | states |
|---|---|---|
| Bytes.LittleEndian | src/keyblock.rs:206 | `write_u16`/`write_u64::<LittleEndian>` write exactly n bytes; `FromToLittleEndian` shows they read back |
| Bytes.FromLittleEndian | src/keyblock.rs:147 | the value `read_u16`/`read_u64::<LittleEndian>` decode from n bytes is below 256^n, so it fits the integer read |
| Bytes.FromToLittleEndian | src/keyblock.rs:278 | reading back an n-byte little-endian write of a value below 256^n gives the value |
| Bytes.ToFromLittleEndian | src/keyblock.rs:241 | every byte string is the little-endian image of the number read from it |
| Bytes.Utf8 | src/keyblock.rs:287 | `as_bytes` of an ASCII string is one byte per character; the bytes contain NUL exactly when the text does |
| Bytes.Utf8Char | src/keyblock.rs:287 | one char takes one to four UTF-8 bytes; exactly one when it is ASCII, with its code point as the byte, and otherwise only bytes at or above 0x80 |
| Bytes.Latin1 | src/utils.rs:20 | `char::from` per byte: one character per byte, with the byte's value as its code point |
| Bytes.CStringBytes | src/utils.rs:18-21 | ASCII text without NUL, written with `as_bytes` and read back byte by byte, is unchanged and contains no NUL byte |
| Bytes.NonAsciiDoesNotRoundTrip | src/utils.rs:20 | U+00E9 is written as two bytes and read back as two different characters |
| Io.ReadAt | src/keyblock.rs:137 | `read` on a file returns the next n bytes, or all that remain when fewer are left |
| Io.ExactAt | src/keyblock.rs:156 | `read_exact` succeeds exactly when n bytes remain, returns them and advances by n; otherwise end of input |
| Io.U16At | src/keyblock.rs:147 | `read_u16` succeeds exactly when two bytes remain and returns the value whose little-endian image they are |
| Io.U64At | src/keyblock.rs:152 | `read_u64` succeeds exactly when eight bytes remain and returns the value whose little-endian image they are |
| Io.ExactFrom | src/keyblock.rs:245 | bytes that lie at the position are what `read_exact` of their length returns, and the rest follows |
| Io.ExactOf | src/keyblock.rs:259-260 | `read_exact` of n bytes returns the first n remaining bytes, or end of input when fewer remain |
| Io.U16From | src/keyblock.rs:248 | a `u16` written little-endian reads back as itself, two bytes further on |
| Io.U64From | src/keyblock.rs:241 | a `u64` written little-endian reads back as itself, eight bytes further on |
| Io.Reader.constructor | src/keyblock.rs:133 | `BufReader::new` starts at position 0 over the whole file |
| Io.Reader.Read | src/keyblock.rs:137 | the reader returns and consumes what `ReadAt` says |
| Io.Reader.ReadExact | src/keyblock.rs:156 | the reader returns and consumes what `ExactAt` says; on failure it has consumed the rest of the input |
| Io.Reader.ReadU16 | src/keyblock.rs:147 | the reader returns and consumes what `U16At` says |
| Io.Reader.ReadU64 | src/keyblock.rs:152 | the reader returns and consumes what `U64At` says |
| Io.Reader.NextByte | src/utils.rs:18 | the next byte and one step forward, or nothing at the end of the input |
| Utils.MatchCount | src/utils.rs:6 | the number of equal zipped pairs is at most either length, and equals both lengths exactly when the buffers are equal |
| Utils.CompareBuffers | src/utils.rs:5-8 | `compare_buffers(a, b)` holds if and only if `a == b`, so it is reflexive and symmetric |
| Utils.NulIndex | src/utils.rs:18-19 | the first NUL at or after the position, or the end of the input; no NUL before it |
| Utils.NullStringAt | src/utils.rs:14-25 | `read_null_string` never fails and never moves the reader past the end of the input |
| Utils.NullStringShape | src/utils.rs:18-21 | the string read has one character per consumed byte and contains no NUL; the reader stops just past a NUL, or at the end of the input |
| Utils.ReadNullString | src/utils.rs:14-25 | the loop returns the string and leaves the reader where `NullStringAt` says |
| Utils.NullStringTerminated | src/utils.rs:18-19 | on `s ++ [0] ++ rest` with no NUL in `s`, the string read is `s` and exactly `s` and its NUL are consumed |
| Utils.NullStringUnterminated | src/utils.rs:18-21 | with no NUL left, the whole remaining input is read and consumed, without error |
| Utils.NullStringFraming | src/utils.rs:18-21 | writing ASCII text without NUL, then a NUL, and reading it back gives the text and leaves the reader after the NUL |
| Keyblock.FromIoError | src/keyblock.rs:121-128 | an end-of-input I/O error becomes `UnexpectedEof` and every other I/O error is wrapped in `IOError` |
| Keyblock.Lift | src/keyblock.rs:147 | the `?` operator on an I/O result: values pass through and errors are converted by `From<io::Error>` |
| Keyblock.KeyFileAt | src/keyblock.rs:239-248 | a keyfile read from a position ends after it, has a 32-byte secret and `length / 8` content bytes, and every failure is `UnexpectedEof` |
| Keyblock.KeyFileTextsAt | src/keyblock.rs:250-253 | the keyfile read after the uid keeps the secret and has `length / 8` content bytes; failures are `UnexpectedEof` |
| Keyblock.KeyFileContentAt | src/keyblock.rs:255-271 | the content is exactly `length / 8` bytes; a short input fails with `UnexpectedEof` |
| Keyblock.KeyFile.Load | src/keyblock.rs:239-272 | the method's result and final reader position are those of `KeyFileAt` |
| Keyblock.KeyFile.Serialize | src/keyblock.rs:274-303 | the buffer is the fields in wire order, with the content carrying no length prefix |
| Keyblock.KeyFile.HeadEncoding | src/keyblock.rs:276-297 | the bytes before the content hold at least the fixed-size fields, the secret and three terminators |
| Keyblock.KeyFile.Encoding | src/keyblock.rs:274-303 | a record's bytes hold at least the fixed-size fields, the secret, three terminators and the content |
| KeyblockLemmas.KeyFileEncodingSize | src/keyblock.rs:274-303 | for every record, the serialized size is 8 + secret + 2 + (UTF-8 path + 1) + (UTF-8 name + 1) + (UTF-8 description + 1) + 8 + content bytes, so the content has no length prefix |
| Keyblock.HeaderAt | src/keyblock.rs:135-149 | a header reads only when the file opens with "banjo" followed by the bytes LE(1) of format specifier 1, and has a 32-byte secret; its only errors are `InvalidMagicNumber`, `UnknownFormatSpecifier` and `UnexpectedEof` |
| Keyblock.HeaderFieldsAt | src/keyblock.rs:151-159 | flags, secret and uid, then the rest of the header; failures are `UnexpectedEof` |
| Keyblock.HeaderTextsAt | src/keyblock.rs:161-166 | name, description and count; failures are `UnexpectedEof` |
| Keyblock.ReadHeader | src/keyblock.rs:133-166 | the method's result and reader position are those of `HeaderAt` |
| Keyblock.RecordsAt | src/keyblock.rs:169-177 | reading n keyfiles yields n records, or `KeyfileParseError` with an index below n and end of input as its cause |
| Keyblock.RecordsErrorPersists | src/keyblock.rs:175 | once a keyfile fails, reading more keyfiles fails with the same error |
| Keyblock.RecordsStep | src/keyblock.rs:171-175 | one more keyfile read is appended, or its failure is reported with its zero-based index |
| Keyblock.KeysOf | src/keyblock.rs:174 | every record's path is a key, each key maps to a record with that path, and every value is one of the records |
| Keyblock.KeysOfStep | src/keyblock.rs:174 | inserting a record adds or replaces the entry for its path |
| Keyblock.KeyfilesAt | src/keyblock.rs:167-177 | the map is built from the records exactly when they all read; otherwise the records' error is returned |
| Keyblock.ReadKeyfiles | src/keyblock.rs:167-177 | the loop's map and final reader position are those of `KeyfilesAt` |
| Keyblock.KeyBlockAt | src/keyblock.rs:132-196 | a loaded block keeps the caller's root key, has format specifier 1, a 32-byte secret and a 6-byte signature, and maps each path to a record with that path; its errors are a wrong magic number or format specifier, end of input, or a keyfile error caused by end of input, never `IOError` |
| Keyblock.RecordsWellFormed | src/keyblock.rs:259-260 | every record read carries `length / 8` content bytes |
| Keyblock.KeyBlock.Load | src/keyblock.rs:132-196 | the method's result is `KeyBlockAt` of the file's bytes |
| Keyblock.Enumerated | src/keyblock.rs:227 | the records of the map visited in a given order of paths |
| Keyblock.EnumeratedSnoc | src/keyblock.rs:227-229 | visiting one more path appends that path's record's encoding |
| Keyblock.EnumerationSnoc | src/keyblock.rs:227 | appending a path not yet visited extends the visiting order |
| Keyblock.RecordsEncoding | src/keyblock.rs:227-229 | the keyfiles written back to back take at least 21 bytes each, and nothing is written exactly when there are no keyfiles |
| Keyblock.KeyBlock.HeaderEncoding | src/keyblock.rs:199-224 | the header opens with the magic number, then LE(1) as format specifier, and holds at least the fixed-size fields and the secret |
| Keyblock.KeyBlock.SerializeHeader | src/keyblock.rs:199-224 | the appends before the keyfile loop produce exactly the header bytes |
| Keyblock.KeyBlock.Encoding | src/keyblock.rs:199-235 | the file opens with the magic number, ends with the signature, and holds at least 21 bytes per keyfile in between |
| Keyblock.KeyBlock.Serialize | src/keyblock.rs:199-235 | the buffer is the header, then every record in some order that lists each path once, then the signature |
| KeyblockLemmas.NumbersFrom | src/keyblock.rs:241-248 | flags, secret and uid written for a record read back as written |
| KeyblockLemmas.TextsFrom | src/keyblock.rs:250-253 | path, name and description written for a record read back as written |
| KeyblockLemmas.ContentFrom | src/keyblock.rs:255-260 | the length reads back; the content is the next `length / 8` bytes, or `UnexpectedEof` when fewer remain |
| KeyblockLemmas.KeyFileFrom | src/keyblock.rs:239-272 | a written record head reads back; `length` not a multiple of 8 is truncated to `length / 8` content bytes; too few bytes give `UnexpectedEof` |
| KeyblockLemmas.KeyFileRoundTrip | src/keyblock.rs:239-303 | `KeyFile::load` on `serialize(k) ++ rest` returns `k` and stops where `rest` begins |
| KeyblockLemmas.KeyFileEncodingLength | src/keyblock.rs:274-303 | for ASCII texts, a serialized record is 8 + secret + 2 + (path + 1) + (name + 1) + (description + 1) + 8 + content bytes long; the byte-count form for any text is `KeyFileEncodingSize` |
| KeyblockLemmas.RecordsRoundTrip | src/keyblock.rs:169-177 | records written back to back read back as the same records, in order |
| KeyblockLemmas.RecordsFailure | src/keyblock.rs:169-177 | reading n keyfiles fails with `KeyfileParseError(i, e)` if and only if i < n, the first i read, and the next fails with `e` |
| KeyblockLemmas.HeaderTextsFrom | src/keyblock.rs:161-166 | name, description and count written for a block read back as written |
| KeyblockLemmas.HeaderFieldsFrom | src/keyblock.rs:151-159 | flags, secret and uid written for a block read back as written |
| KeyblockLemmas.PreambleFrom | src/keyblock.rs:135-149 | the magic number and format specifier `serialize` writes pass both checks of `load` |
| KeyblockLemmas.HeaderFrom | src/keyblock.rs:133-166 | the header `serialize` writes reads back, with format specifier 1 and the map's size modulo 2^64 as count |
| KeyblockLemmas.HeaderMagic | src/keyblock.rs:136-144 | `InvalidMagicNumber` if and only if fewer than five bytes are there or they are not "banjo" |
| KeyblockLemmas.HeaderFormat | src/keyblock.rs:146-149 | after a valid magic number, `UnknownFormatSpecifier` if and only if the next two bytes are not 1 in little-endian; an input ending inside them gives `UnexpectedEof` |
| KeyblockLemmas.KeysOfLatest | src/keyblock.rs:169-177 | after inserting the records in order, each path maps to the last record with that path, and the keys are exactly the records' paths |
| KeyblockLemmas.EnumerationLength | src/keyblock.rs:224-229 | an order that lists each key once has as many entries as the map has keys, so the count written is the number of records written |
| KeyblockLemmas.KeysOfEnumerated | src/keyblock.rs:174 | inserting the records of a self-keyed map in a given order yields the visited paths, each mapped to its own record |
| KeyblockLemmas.KeysOfEnumeration | src/keyblock.rs:174 | inserting all the records of a self-keyed map, in any order, rebuilds the map |
| KeyblockLemmas.EnumeratedRecords | src/keyblock.rs:224-229 | the records written number as many as the map's keys, are each encodable, and rebuild the map |
| KeyblockLemmas.KeyBlockAtStages | src/keyblock.rs:179-195 | after the header and records, the signature is the next 6 bytes, or `UnexpectedEof` |
| KeyblockLemmas.HeaderRecordsFrom | src/keyblock.rs:133-177 | the header and records `serialize` wrote read back: specifier 1, the number of records as count, the records in order, and the reader stops where the signature begins |
| KeyblockLemmas.KeyBlockFrom | src/keyblock.rs:179-181 | after a written header and records, the signature is the next 6 bytes and later bytes are ignored; fewer than 6 give `UnexpectedEof` |
| KeyblockLemmas.KeyBlockRoundTrip | src/keyblock.rs:199-235 | `load(serialize(b) ++ trailing)` returns `b` with format specifier 1, for every record order |
| KeyblockLemmas.SerializedLoads | src/keyblock.rs:199-235 | whatever `KeyBlock::serialize` returns for an encodable block loads back as that block with format specifier 1 |
| KeyblockLemmas.KeyBlockHeaderError | src/keyblock.rs:135-149 | `InvalidMagicNumber` and `UnknownFormatSpecifier` come from the header alone |
| KeyblockLemmas.KeyBlockKeyfileError | src/keyblock.rs:169-177 | `load` fails with `KeyfileParseError(i, e)` if and only if the header reads, i is below the count, the first i keyfiles read, and the next fails with `e` |
| KeyblockTruncation.ExactPrefix | src/keyblock.rs:156 | `read_exact` that succeeds within a prefix of the input reads the same bytes from the whole input |
| KeyblockTruncation.U16Prefix | src/keyblock.rs:147 | `read_u16` within a prefix reads the same value from the whole input |
| KeyblockTruncation.U64Prefix | src/keyblock.rs:152 | `read_u64` within a prefix reads the same value from the whole input |
| KeyblockTruncation.NulIndexPrefix | src/utils.rs:18-19 | a NUL found inside a prefix is the first NUL of the whole input too |
| KeyblockTruncation.NullStringPrefix | src/utils.rs:14-25 | `read_null_string` that stops before the end of a prefix reads the same string, and stops at the same place, in the whole input |
| KeyblockTruncation.ContentPrefix | src/keyblock.rs:255-260 | length and content that read from a prefix read the same from the whole input |
| KeyblockTruncation.TextsPrefix | src/keyblock.rs:250-260 | the rest of a keyfile after its uid, read from a prefix, reads the same from the whole input |
| KeyblockTruncation.KeyFilePrefix | src/keyblock.rs:239-272 | a keyfile that reads from a prefix reads the same from the whole input |
| KeyblockTruncation.RecordsPrefix | src/keyblock.rs:169-177 | keyfiles that read from a prefix read the same from the whole input |
| KeyblockTruncation.HeaderTextsPrefix | src/keyblock.rs:161-166 | name, description and count that read from a prefix read the same from the whole input |
| KeyblockTruncation.HeaderFieldsPrefix | src/keyblock.rs:151-166 | the header fields after the format specifier, read from a prefix, read the same from the whole input |
| KeyblockTruncation.HeaderPrefix | src/keyblock.rs:135-166 | a header that reads from a prefix reads the same from the whole input |
| KeyblockTruncation.EncodingLayout | src/keyblock.rs:199-235 | a serialized block opens with "banjo" and format specifier 1, its header and records read back, and the signature fills the rest |
| KeyblockTruncation.NotLoaded | src/keyblock.rs:132-196 | a prefix that ends before the signature does cannot load |
| KeyblockTruncation.TruncatedFails | src/keyblock.rs:132-235 | a serialized block cut short anywhere fails to load: with `InvalidMagicNumber` below five bytes, and otherwise with `UnexpectedEof` or a `KeyfileParseError` caused by it |
| KeyblockLemmas.KeyBlockPreamble | src/keyblock.rs:136-149 | `load` fails with `InvalidMagicNumber` iff the magic is short or wrong, with `UnknownFormatSpecifier` iff the next two bytes are not 1, and with `UnexpectedEof` when the input ends inside them |

## Left out

- Signature verification is not implemented in the source (the TODO at `src/keyblock.rs:183`), so it is not modelled. The CRC named in the format grammar is neither read nor written, so it is not modelled either.
- The root public key, an OpenSSL handle, is only stored. It is the type parameter `K` of `KeyBlock`.
- I/O errors other than end of input are not modelled: the file's bytes are a sequence and the reader a position. One consequence is left out: `read_null_string` stops silently on such an error.
- `Read::read` may in general return fewer bytes than asked. It is modelled as returning the next five bytes, or all that remain, which is what a `BufReader` over a regular file does; a pipe or a device may return fewer.
- `debug!` logging and `buffer_to_string` are diagnostics only.
- `src/main.rs` (argument parsing) and `src/debug.rs` (random test fixture) are not part of this model.
- Write failures are not modelled. Appending to a `Vec` cannot fail in practice, so both `serialize` methods return the buffer rather than a `Result`.
- Allocating `length / 8` content bytes is assumed to succeed; `usize` is taken to be 64 bits wide.
- Keyblock.KeyBlock.Serialize: the record order is whatever `HashMap::values` yields. The contract states only that some order listing every path once was used, because that order is unspecified.
- KeyblockLemmas.KeyBlockRoundTrip: stated for blocks whose map keys equal their records' paths. Load files each record under its own path, so a map that breaks this cannot round trip.
- The round trips hold only for ASCII text without NUL, and only when the signature is 6 bytes long. `serialize` writes the signature whatever its length, while `load` reads exactly 6 bytes.
- `Bytes.Utf8` encodes Dafny characters, which are Unicode scalar values, as Rust's `String::as_bytes` does.
