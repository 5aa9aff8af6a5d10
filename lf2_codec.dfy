/** The LF2 data-file transform: a fixed, unciphered 123-byte header followed by the
    content, each content byte combined with a cycling key byte (added when encoding,
    subtracted when decoding, both modulo 256). Mirrors src/lib.rs. */
module Lf2Codec {

  /** Rust's `u8`. */
  newtype byte = x: int | 0 <= x < 256

  /** `u8::wrapping_add`: the sum modulo 256. */
  function WrappingAdd(a: byte, b: byte): byte {
    ((a as int + b as int) % 256) as byte
  }

  /** `u8::wrapping_sub`: the difference modulo 256 (Dafny's `%` never yields a negative). */
  function WrappingSub(a: byte, b: byte): byte {
    ((a as int - b as int) % 256) as byte
  }

  /** `CAESAR_CIPHER`, the key reused cyclically over the content bytes: the ASCII codes of
      "odBearBecauseHeIsVeryGoodSiuHungIsAGo" (37 bytes). */
  const CAESAR_CIPHER: seq<byte> := [
    0x6F, 0x64, 0x42, 0x65, 0x61, 0x72, 0x42, 0x65, 0x63, 0x61, 0x75, 0x73,
    0x65, 0x48, 0x65, 0x49, 0x73, 0x56, 0x65, 0x72, 0x79, 0x47, 0x6F, 0x6F,
    0x64, 0x53, 0x69, 0x75, 0x48, 0x75, 0x6E, 0x67, 0x49, 0x73, 0x41, 0x47,
    0x6F]

  /** `DATA_HEADER`, written verbatim by the encoder and skipped by the decoder: the ASCII codes
      of "This is sample data as bytes. The first 123 bytes are ignored during decoding, the rest
      are decoded using a caesar cipher. ", read as one line with single spaces and a trailing
      space. */
  const DATA_HEADER: seq<byte> := [
    0x54, 0x68, 0x69, 0x73, 0x20, 0x69, 0x73, 0x20, 0x73, 0x61, 0x6D, 0x70,
    0x6C, 0x65, 0x20, 0x64, 0x61, 0x74, 0x61, 0x20, 0x61, 0x73, 0x20, 0x62,
    0x79, 0x74, 0x65, 0x73, 0x2E, 0x20, 0x54, 0x68, 0x65, 0x20, 0x66, 0x69,
    0x72, 0x73, 0x74, 0x20, 0x31, 0x32, 0x33, 0x20, 0x62, 0x79, 0x74, 0x65,
    0x73, 0x20, 0x61, 0x72, 0x65, 0x20, 0x69, 0x67, 0x6E, 0x6F, 0x72, 0x65,
    0x64, 0x20, 0x64, 0x75, 0x72, 0x69, 0x6E, 0x67, 0x20, 0x64, 0x65, 0x63,
    0x6F, 0x64, 0x69, 0x6E, 0x67, 0x2C, 0x20, 0x74, 0x68, 0x65, 0x20, 0x72,
    0x65, 0x73, 0x74, 0x20, 0x61, 0x72, 0x65, 0x20, 0x64, 0x65, 0x63, 0x6F,
    0x64, 0x65, 0x64, 0x20, 0x75, 0x73, 0x69, 0x6E, 0x67, 0x20, 0x61, 0x20,
    0x63, 0x61, 0x65, 0x73, 0x61, 0x72, 0x20, 0x63, 0x69, 0x70, 0x68, 0x65,
    0x72, 0x2E, 0x20]

  /** The number of stream items the decoder skips, and the length of `DATA_HEADER`'s type. */
  const HEADER_LEN: nat := 123

  /** The header has the length its Rust type `[u8; 123]` fixes, and the key is not empty,
      so cycling through it is always defined. */
  lemma ConstantsWellFormed()
    ensures |DATA_HEADER| == HEADER_LEN
    ensures |CAESAR_CIPHER| == 37 && |CAESAR_CIPHER| > 0
  {
  }

  /** The key byte that `CAESAR_CIPHER.iter().cycle()` yields at its k-th step. */
  function KeyAt(k: nat): byte {
    CAESAR_CIPHER[k % |CAESAR_CIPHER|]
  }

  /** Within the first pass over the key, the cycle yields the key's own bytes. */
  lemma KeyAtFirstPass(k: nat)
    requires k < |CAESAR_CIPHER|
    ensures KeyAt(k) == CAESAR_CIPHER[k]
  {
    var n := |CAESAR_CIPHER|;
    assert k / n == 0;
    assert k % n == k;
  }

  /** One step of the key cycle: position `pos` of the key is step i, the next position is
      step i + 1. */
  lemma CycleStep(i: nat, pos: nat)
    requires pos == i % |CAESAR_CIPHER|
    ensures pos < |CAESAR_CIPHER| && CAESAR_CIPHER[pos] == KeyAt(i)
    ensures (if pos + 1 == |CAESAR_CIPHER| then 0 else pos + 1) == (i + 1) % |CAESAR_CIPHER|
  {
  }

  /** An I/O error reported by the underlying reader; the transform never inspects it. */
  datatype IoError = IoError(code: int)

  /** One item of `Read::bytes()`: a byte read, or the error a read reported. */
  datatype Item = Byte(value: byte) | ReadErr(error: IoError)

  /** `Result<Vec<u8>, io::Error>`: an error carries no partial buffer. */
  datatype Result = Ok(buffer: seq<byte>) | Err(error: IoError)

  /** The stream yielded no error. */
  predicate AllBytes(items: seq<Item>) {
    forall i :: 0 <= i < |items| ==> items[i].Byte?
  }

  /** The bytes of an error-free stream. */
  function Payload(items: seq<Item>): seq<byte>
    requires AllBytes(items)
  {
    seq(|items|, i requires 0 <= i < |items| => items[i].value)
  }

  /** The stream a `&[u8]` reader yields: its bytes, never an error. */
  function Stream(data: seq<byte>): seq<Item> {
    seq(|data|, i requires 0 <= i < |data| => Byte(data[i]))
  }

  /** The position of the first error in a stream that has one. */
  function FirstErrorIndex(items: seq<Item>): (k: nat)
    requires !AllBytes(items)
    ensures k < |items| && items[k].ReadErr?
    ensures forall j :: 0 <= j < k ==> items[j].Byte?
    decreases |items|
  {
    if items[0].ReadErr? then 0
    else
      assert !AllBytes(items[1..]) by {
        var i :| 0 <= i < |items| && !items[i].Byte?;
        assert items[1..][i - 1] == items[i];
      }
      1 + FirstErrorIndex(items[1..])
  }

  /** The error `try_fold` returns: the first one the stream yields. */
  function FirstError(items: seq<Item>): IoError
    requires !AllBytes(items)
  {
    items[FirstErrorIndex(items)].error
  }

  /** `skip(n)`: drops the first n items, bytes or errors alike, and tolerates a shorter stream. */
  function SkipItems(items: seq<Item>, n: nat): seq<Item> {
    if |items| <= n then [] else items[n..]
  }

  /** The `try_fold` of lib.rs: `items` zipped with the key cycle, which stands at step k; each
      byte is combined with its key byte and pushed onto `acc`; the first error ends the fold. */
  function CipherFold(items: seq<Item>, k: nat, acc: seq<byte>, combine: (byte, byte) -> byte): Result
    decreases |items|
  {
    if items == [] then Ok(acc)
    else
      match items[0]
      case ReadErr(e) => Err(e)
      case Byte(b) => CipherFold(items[1..], k + 1, acc + [combine(b, KeyAt(k))], combine)
  }

  /** `DataEncoder::encode`: the fold starts from the header and from the key's first byte. */
  function EncodeSpec(stream: seq<Item>): Result {
    CipherFold(stream, 0, DATA_HEADER, WrappingAdd)
  }

  /** `DataDecoder::decode`: the fold runs over what `skip(123)` leaves, from an empty buffer. */
  function DecodeSpec(stream: seq<Item>): Result {
    CipherFold(SkipItems(stream, HEADER_LEN), 0, [], WrappingSub)
  }

  /** The file format's reference definition: byte i of `data` combined with key byte k + i. */
  function Keyed(data: seq<byte>, k: nat, combine: (byte, byte) -> byte): seq<byte> {
    seq(|data|, i requires 0 <= i < |data| => combine(data[i], KeyAt(k + i)))
  }

  // ---------------------------------------------------------------------------------------
  // The fold against the reference definition

  lemma {:induction false} CipherFoldOk(items: seq<Item>, k: nat, acc: seq<byte>, combine: (byte, byte) -> byte)
    requires AllBytes(items)
    ensures CipherFold(items, k, acc, combine) == Ok(acc + Keyed(Payload(items), k, combine))
    decreases |items|
  {
    if items != [] {
      var b := items[0].value;
      assert AllBytes(items[1..]) by {
        forall i | 0 <= i < |items[1..]| ensures items[1..][i].Byte? {
          assert items[1..][i] == items[i + 1];
        }
      }
      CipherFoldOk(items[1..], k + 1, acc + [combine(b, KeyAt(k))], combine);
      var tail := Keyed(Payload(items[1..]), k + 1, combine);
      assert [combine(b, KeyAt(k))] + tail == Keyed(Payload(items), k, combine) by {
        forall i | 0 <= i < |items| ensures ([combine(b, KeyAt(k))] + tail)[i] == Keyed(Payload(items), k, combine)[i] {
          if i > 0 {
            assert items[1..][i - 1] == items[i];
            assert k + 1 + (i - 1) == k + i;
          }
        }
      }
      assert acc + [combine(b, KeyAt(k))] + tail == acc + ([combine(b, KeyAt(k))] + tail);
    }
  }

  lemma {:induction false} CipherFoldErr(items: seq<Item>, k: nat, acc: seq<byte>, combine: (byte, byte) -> byte)
    requires !AllBytes(items)
    ensures CipherFold(items, k, acc, combine) == Err(FirstError(items))
    decreases |items|
  {
    if items[0].Byte? {
      var b := items[0].value;
      assert !AllBytes(items[1..]) by {
        var i := FirstErrorIndex(items);
        assert items[1..][i - 1] == items[i];
      }
      CipherFoldErr(items[1..], k + 1, acc + [combine(b, KeyAt(k))], combine);
      FirstErrorTail(items);
    }
  }

  /** Removing a leading byte does not change which error comes first. */
  lemma FirstErrorTail(items: seq<Item>)
    requires !AllBytes(items) && items[0].Byte?
    ensures !AllBytes(items[1..]) && FirstError(items[1..]) == FirstError(items)
  {
  }

  // ---------------------------------------------------------------------------------------
  // Encoder

  /** Succeeds exactly when the stream yields no error; the buffer is then the header
      followed by each input byte plus its key byte, the key starting afresh at content byte 0. */
  lemma EncodeOk(stream: seq<Item>)
    ensures EncodeSpec(stream).Ok? <==> AllBytes(stream)
    ensures AllBytes(stream) ==> EncodeSpec(stream) == Ok(DATA_HEADER + Keyed(Payload(stream), 0, WrappingAdd))
  {
    if AllBytes(stream) {
      CipherFoldOk(stream, 0, DATA_HEADER, WrappingAdd);
    } else {
      CipherFoldErr(stream, 0, DATA_HEADER, WrappingAdd);
    }
  }

  /** A failed encode returns the stream's first error and no buffer. */
  lemma EncodeErr(stream: seq<Item>)
    ensures EncodeSpec(stream).Err? <==> !AllBytes(stream)
    ensures !AllBytes(stream) ==> EncodeSpec(stream) == Err(FirstError(stream))
  {
    EncodeOk(stream);
    if !AllBytes(stream) {
      CipherFoldErr(stream, 0, DATA_HEADER, WrappingAdd);
    }
  }

  /** Every successful encode begins with the header, verbatim. */
  lemma EncodeHeader(stream: seq<Item>)
    requires EncodeSpec(stream).Ok?
    ensures |EncodeSpec(stream).buffer| >= HEADER_LEN
    ensures EncodeSpec(stream).buffer[..HEADER_LEN] == DATA_HEADER
  {
    EncodeOk(stream);
    var body := Keyed(Payload(stream), 0, WrappingAdd);
    assert (DATA_HEADER + body)[..|DATA_HEADER|] == DATA_HEADER;
  }

  /** One output byte per input byte, after the header. */
  lemma EncodeLength(stream: seq<Item>)
    requires EncodeSpec(stream).Ok?
    ensures |EncodeSpec(stream).buffer| == HEADER_LEN + |stream|
  {
    EncodeOk(stream);
  }

  /** Output byte 123 + i is input byte i plus key byte i mod |key|, modulo 256. */
  lemma EncodeByteAt(stream: seq<Item>, i: nat)
    requires EncodeSpec(stream).Ok? && i < |stream|
    ensures stream[i].Byte? && |EncodeSpec(stream).buffer| == HEADER_LEN + |stream|
    ensures EncodeSpec(stream).buffer[HEADER_LEN + i] == WrappingAdd(stream[i].value, CAESAR_CIPHER[i % |CAESAR_CIPHER|])
  {
    EncodeOk(stream);
  }

  /** The key repeats with period |key|: equal input bytes |key| positions apart encode equally. */
  lemma EncodeKeyPeriod(stream: seq<Item>, i: nat)
    requires EncodeSpec(stream).Ok? && i + |CAESAR_CIPHER| < |stream|
    requires stream[i] == stream[i + |CAESAR_CIPHER|]
    ensures |EncodeSpec(stream).buffer| == HEADER_LEN + |stream|
    ensures EncodeSpec(stream).buffer[HEADER_LEN + i] == EncodeSpec(stream).buffer[HEADER_LEN + i + |CAESAR_CIPHER|]
  {
    ConstantsWellFormed();
    EncodeByteAt(stream, i);
    EncodeByteAt(stream, i + 37);
    var q := i / 37;
    assert i + 37 == 37 * (q + 1) + i % 37;
  }

  /** `DataEncoder::encode`: the header is copied into a fresh buffer, then each item of the
      stream, paired with the next byte of the key cycle, is either pushed (input plus key)
      or, if it is an error, returned at once. */
  method Encode(stream: seq<Item>) returns (r: Result)
    ensures r == EncodeSpec(stream)
  {
    var encoded := DATA_HEADER;
    var keyPos := 0;
    var i := 0;
    while i < |stream|
      invariant 0 <= i <= |stream|
      invariant keyPos == i % |CAESAR_CIPHER|
      invariant CipherFold(stream[i..], i, encoded, WrappingAdd) == EncodeSpec(stream)
    {
      assert stream[i..][1..] == stream[i + 1..];
      CycleStep(i, keyPos);
      match stream[i] {
        case ReadErr(e) =>
          return Err(e);
        case Byte(b) =>
          encoded := encoded + [WrappingAdd(b, CAESAR_CIPHER[keyPos])];
      }
      keyPos := if keyPos + 1 == |CAESAR_CIPHER| then 0 else keyPos + 1;
      i := i + 1;
    }
    return Ok(encoded);
  }

  // ---------------------------------------------------------------------------------------
  // Decoder

  /** Success depends only on the items after the first 123; the buffer is then those bytes
      minus their key bytes, the key starting afresh at the first byte after the header. */
  lemma DecodeOk(stream: seq<Item>)
    ensures DecodeSpec(stream).Ok? <==> AllBytes(SkipItems(stream, HEADER_LEN))
    ensures AllBytes(SkipItems(stream, HEADER_LEN)) ==>
      DecodeSpec(stream) == Ok(Keyed(Payload(SkipItems(stream, HEADER_LEN)), 0, WrappingSub))
  {
    var rest := SkipItems(stream, HEADER_LEN);
    if AllBytes(rest) {
      CipherFoldOk(rest, 0, [], WrappingSub);
      assert [] + Keyed(Payload(rest), 0, WrappingSub) == Keyed(Payload(rest), 0, WrappingSub);
    } else {
      CipherFoldErr(rest, 0, [], WrappingSub);
    }
  }

  /** A decode fails exactly when an error comes after the first 123 items, and it returns the
      first such error; errors among the skipped items do not count. */
  lemma DecodeErr(stream: seq<Item>)
    ensures DecodeSpec(stream).Err? <==> |stream| > HEADER_LEN && !AllBytes(stream[HEADER_LEN..])
    ensures |stream| > HEADER_LEN && !AllBytes(stream[HEADER_LEN..]) ==>
      DecodeSpec(stream) == Err(FirstError(stream[HEADER_LEN..]))
  {
    DecodeOk(stream);
    if |stream| > HEADER_LEN && !AllBytes(stream[HEADER_LEN..]) {
      CipherFoldErr(stream[HEADER_LEN..], 0, [], WrappingSub);
    }
  }

  /** A stream of at most 123 items decodes to an empty buffer, whatever those items are. */
  lemma DecodeShort(stream: seq<Item>)
    requires |stream| <= HEADER_LEN
    ensures DecodeSpec(stream) == Ok([])
  {
  }

  /** A successful decode of m items yields max(0, m - 123) bytes. */
  lemma DecodeLength(stream: seq<Item>)
    requires DecodeSpec(stream).Ok?
    ensures |DecodeSpec(stream).buffer| == if |stream| <= HEADER_LEN then 0 else |stream| - HEADER_LEN
  {
    DecodeOk(stream);
  }

  /** Output byte i is input byte 123 + i minus key byte i mod |key|, modulo 256. */
  lemma DecodeByteAt(stream: seq<Item>, i: nat)
    requires DecodeSpec(stream).Ok? && HEADER_LEN + i < |stream|
    ensures stream[HEADER_LEN + i].Byte? && |DecodeSpec(stream).buffer| == |stream| - HEADER_LEN
    ensures DecodeSpec(stream).buffer[i] == WrappingSub(stream[HEADER_LEN + i].value, CAESAR_CIPHER[i % |CAESAR_CIPHER|])
  {
    DecodeOk(stream);
    assert SkipItems(stream, HEADER_LEN)[i] == stream[HEADER_LEN + i];
  }

  /** Whatever the first 123 items are, bytes or errors, the decode is the same. */
  lemma DecodeIgnoresHeader(header1: seq<Item>, header2: seq<Item>, body: seq<Item>)
    requires |header1| == HEADER_LEN && |header2| == HEADER_LEN
    ensures DecodeSpec(header1 + body) == DecodeSpec(header2 + body)
  {
    assert SkipItems(header1 + body, HEADER_LEN) == body;
    assert SkipItems(header2 + body, HEADER_LEN) == body;
  }

  /** `DataDecoder::decode`: `skip(123)` discards up to 123 items, then each remaining item,
      paired with the next byte of the key cycle, is either pushed (input minus key) or,
      if it is an error, returned at once. */
  method Decode(stream: seq<Item>) returns (r: Result)
    ensures r == DecodeSpec(stream)
  {
    var start := if |stream| < HEADER_LEN then |stream| else HEADER_LEN;
    var decoded := [];
    var keyPos := 0;
    var i := start;
    assert stream[start..] == SkipItems(stream, HEADER_LEN);
    while i < |stream|
      invariant start <= i <= |stream|
      invariant keyPos == (i - start) % |CAESAR_CIPHER|
      invariant CipherFold(stream[i..], i - start, decoded, WrappingSub) == DecodeSpec(stream)
    {
      assert stream[i..][1..] == stream[i + 1..];
      CycleStep(i - start, keyPos);
      match stream[i] {
        case ReadErr(e) =>
          return Err(e);
        case Byte(b) =>
          decoded := decoded + [WrappingSub(b, CAESAR_CIPHER[keyPos])];
      }
      keyPos := if keyPos + 1 == |CAESAR_CIPHER| then 0 else keyPos + 1;
      i := i + 1;
    }
    return Ok(decoded);
  }

  // ---------------------------------------------------------------------------------------
  // Round trip

  /** Subtracting a key byte undoes adding it, modulo 256. */
  lemma WrappingSubAdd(a: byte, k: byte)
    ensures WrappingSub(WrappingAdd(a, k), k) == a
  {
  }

  /** Wrap-around at both ends: 255 + 1 is 0 and 0 - 1 is 255. */
  lemma WrapAround()
    ensures WrappingAdd(255, 1) == 0
    ensures WrappingSub(0, 1) == 255
  {
  }

  /** A `&[u8]` reader yields exactly its bytes. */
  lemma StreamPayload(data: seq<byte>)
    ensures AllBytes(Stream(data)) && Payload(Stream(data)) == data
  {
  }

  /** Decoding what encoding an error-free stream produces gives back its bytes, for every
      byte sequence including the empty one. */
  lemma RoundTrip(data: seq<byte>)
    ensures EncodeSpec(Stream(data)).Ok?
    ensures DecodeSpec(Stream(EncodeSpec(Stream(data)).buffer)) == Ok(data)
  {
    StreamPayload(data);
    EncodeOk(Stream(data));
    ConstantsWellFormed();
    var encoded := DATA_HEADER + Keyed(data, 0, WrappingAdd);
    StreamPayload(encoded);
    DecodeOk(Stream(encoded));
    var rest := SkipItems(Stream(encoded), HEADER_LEN);
    assert Payload(rest) == Keyed(data, 0, WrappingAdd) by {
      if |encoded| > HEADER_LEN {
        forall i | 0 <= i < |rest| ensures Payload(rest)[i] == Keyed(data, 0, WrappingAdd)[i] {
          assert rest[i] == Stream(encoded)[HEADER_LEN + i];
        }
      }
    }
    forall i | 0 <= i < |data| ensures Keyed(Keyed(data, 0, WrappingAdd), 0, WrappingSub)[i] == data[i] {
      WrappingSubAdd(data[i], KeyAt(i));
    }
  }
}
