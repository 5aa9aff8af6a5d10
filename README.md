# LF2 data-file codec, modelled in Dafny

Little Fighter 2 stores its character data files in a simple obfuscated format: a fixed,
unciphered 123-byte header (`DATA_HEADER`) followed by the content, where content byte `i`
has had the key byte `CAESAR_CIPHER[i mod 37]` added to it modulo 256. `DataEncoder::encode`
writes that format from a byte stream; `DataDecoder::decode` skips the first 123 stream items
and subtracts the same cycling key. Both consume a `Read` stream item by item with
`try_fold`, stop at the first read error, and return either the whole buffer or that error.

The model (module `Lf2Codec`, file `lf2_codec.dfy`):

- `byte` is Rust's `u8`; `WrappingAdd` and `WrappingSub` are `u8::wrapping_add` and
  `u8::wrapping_sub`, written out modulo 256.
- A stream is the finite sequence of items `Read::bytes()` yields: `Byte(b)` or
  `ReadErr(e)`, with `e` an opaque `IoError`. A result is `Ok(buffer)` or `Err(e)`. An error
  carries no partial buffer.
- `CipherFold` is the `try_fold` over the stream zipped with the key cycle. `EncodeSpec` starts
  it from the header. `DecodeSpec` runs it over what `skip(123)` leaves, from an empty buffer.
- The methods `Encode` and `Decode` are the imperative loops. They copy the header or skip
  the prefix, keep the cycle position in a counter that wraps at the key's end, push one byte
  per item and return at the first error. Each is proved equal to its specification function.
- `Keyed` is the reference definition of the file format: byte `i` combined with key byte
  `(k + i) mod 37`. `CipherFoldOk` and `CipherFoldErr` connect the fold to it. All the
  per-operation properties and the round trip follow from those two lemmas.

Module `DocExamples` (file `doc_examples.dfy`) proves that the crate's documented example
holds of the model: the text `<bmp_begin>name: Azriel<bmp_end>` encodes to the 123-byte header
plus 32 ciphertext bytes, and that buffer decodes back to the text.

Facts about the constants and the decoder's skip, as the code has them:

- The key literal `odBearBecauseHeIsVeryGoodSiuHungIsAGo` (src/lib.rs:60) has 37 bytes.
- The example ciphertext (src/lib.rs:17-19) has 32 bytes, one per text byte.
- `skip(123)` (src/lib.rs:117-118) discards the first 123 items whatever they are, read errors
  included. So a read error inside the header region does not make `decode` fail
  (`DecodeIgnoresHeader`, `DecodeErr`).

## Model

| member | source | states |
|---|---|---|
| `Lf2Codec.ConstantsWellFormed` | src/lib.rs:59-64 | the header is exactly 123 bytes, as its type `[u8; 123]` requires; the key has 37 bytes and is not empty |
| `Lf2Codec.CycleStep` | src/lib.rs:87 | advancing the cycle position by one, and wrapping to 0 at the key's end, moves from key step i to key step i + 1 |
| `Lf2Codec.FirstErrorIndex` | src/lib.rs:87-97 | the index returned holds a read error, and every item before it is a byte |
| `Lf2Codec.CipherFoldOk` | src/lib.rs:87-97 | on an error-free stream, the fold appends exactly the reference bytes, each input byte combined with key byte k + i |
| `Lf2Codec.CipherFoldErr` | src/lib.rs:87-97 | on a stream with an error, the fold returns the first error and no buffer |
| `Lf2Codec.EncodeOk` | src/lib.rs:79-98 | encode succeeds if and only if the stream yields no error; the buffer is then the header followed by the keyed input, with the key starting at index 0 for the first content byte |
| `Lf2Codec.EncodeErr` | src/lib.rs:87-97 | encode fails if and only if the stream yields an error; it then returns the first error |
| `Lf2Codec.EncodeHeader` | src/lib.rs:83-84 | every successful encode begins with the 123 header bytes, verbatim |
| `Lf2Codec.EncodeLength` | src/lib.rs:84-92 | a successful encode of n items returns 123 + n bytes |
| `Lf2Codec.EncodeByteAt` | src/lib.rs:87-92 | output byte 123 + i is input byte i plus key byte i mod 37, modulo 256 |
| `Lf2Codec.EncodeKeyPeriod` | src/lib.rs:60-91 | the key repeats with period 37: equal input bytes 37 positions apart encode to equal bytes |
| `Lf2Codec.Encode` | src/lib.rs:79-98 | the loop (header copy, cycle counter, push, early return on error) returns exactly `EncodeSpec` of the stream |
| `Lf2Codec.DecodeOk` | src/lib.rs:111-131 | decode succeeds if and only if the items after the first 123 are all bytes; the buffer is then those bytes minus the key, which starts at index 0 for the first byte after the header |
| `Lf2Codec.DecodeErr` | src/lib.rs:117-130 | decode fails if and only if an error comes after item 123; it then returns the first such error |
| `Lf2Codec.DecodeShort` | src/lib.rs:117-121 | a stream of at most 123 items decodes to an empty buffer, whatever the items are |
| `Lf2Codec.DecodeLength` | src/lib.rs:117-125 | a successful decode of m items returns max(0, m - 123) bytes |
| `Lf2Codec.DecodeByteAt` | src/lib.rs:119-125 | output byte i is input byte 123 + i minus key byte i mod 37, modulo 256 |
| `Lf2Codec.DecodeIgnoresHeader` | src/lib.rs:117-118 | the first 123 items, bytes or errors, can be replaced by any 123 items without changing the decode |
| `Lf2Codec.Decode` | src/lib.rs:111-131 | the loop (bounded skip, cycle counter, push, early return on error) returns exactly `DecodeSpec` of the stream |
| `Lf2Codec.WrappingSubAdd` | src/lib.rs:91-124 | subtracting a key byte with wrap-around undoes adding it |
| `Lf2Codec.WrapAround` | src/lib.rs:91-124 | 255 + 1 wraps to 0 and 0 - 1 wraps to 255 |
| `Lf2Codec.StreamPayload` | src/lib.rs:22-24 | reading a byte slice yields each of its bytes and no error |
| `Lf2Codec.RoundTrip` | src/lib.rs:79-131 | for every byte sequence x, including the empty one, encoding succeeds and decoding its output gives back `Ok(x)` |
| `DocExamples.SampleCiphertext` | src/lib.rs:14-19 | keying the example text gives the 32 documented ciphertext bytes |
| `DocExamples.EncodeExample` | src/lib.rs:14-26 | the example text encodes to the documented 155-byte buffer |
| `DocExamples.DecodeExample` | src/lib.rs:39-51 | the documented buffer decodes back to the example text |

## Left out

- Streams are finite sequences. An unbounded reader, and the blocking of a real read, are not modelled.
- `Read`, `Bytes`, `BufReader` and `io::Error` are abstracted. A stream is the items it yields, and an error is an opaque value.
- `DATA_CAPACITY_DEFAULT` (src/lib.rs:67) is only a capacity hint for the output buffer. It has no effect on the result.
- src/main.rs (argument handling, opening files, UTF-8 conversion, printing) is I/O around `decode`. It is not part of this model.
- src/error.rs, src/decode_error.rs and src/encode_error.rs are `From` and `Display` wrappers around `io::Error` with no logic. They are not part of this model.
- The constants are written as their ASCII byte values, each with its text in a comment, rather than derived from the literal strings.
- The example's final `String::from_utf8_lossy` comparison (src/lib.rs:51) is stated on bytes. Text decoding is not modelled.
