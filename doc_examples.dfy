/** The encode and decode examples from the crate's documentation, as lemmas about the model. */
module DocExamples {
  import opened Lf2Codec

  /** The text both examples use, "<bmp_begin>name: Azriel<bmp_end>", as ASCII codes. */
  const SAMPLE_TEXT: seq<byte> := [
    0x3C, 0x62, 0x6D, 0x70, 0x5F, 0x62, 0x65, 0x67, 0x69, 0x6E, 0x3E, 0x6E,
    0x61, 0x6D, 0x65, 0x3A, 0x20, 0x41, 0x7A, 0x72, 0x69, 0x65, 0x6C, 0x3C,
    0x62, 0x6D, 0x70, 0x5F, 0x65, 0x6E, 0x64, 0x3E]

  /** The 32 ciphertext bytes that follow the header in the example file. */
  const SAMPLE_CIPHERTEXT: seq<byte> := [
    0xAB, 0xC6, 0xAF, 0xD5, 0xC0, 0xD4, 0xA7, 0xCC, 0xCC, 0xCF, 0xB3,
    0xE1, 0xC6, 0xB5, 0xCA, 0x83, 0x93, 0x97, 0xDF, 0xE4, 0xE2, 0xAC,
    0xDB, 0xAB, 0xC6, 0xC0, 0xD9, 0xD4, 0xAD, 0xE3, 0xD2, 0xA5]

  /** `CHARACTER_DAT_ENCODED`: the header followed by the ciphertext. */
  const CHARACTER_DAT_ENCODED: seq<byte> := DATA_HEADER + SAMPLE_CIPHERTEXT

  /** Eight consecutive example bytes: text byte plus key byte, computed from the literals. */
  lemma SampleBlock(lo: nat)
    requires lo + 8 <= 32
    ensures |SAMPLE_TEXT| == 32 && |SAMPLE_CIPHERTEXT| == 32
    ensures forall i :: lo <= i < lo + 8 ==> Keyed(SAMPLE_TEXT, 0, WrappingAdd)[i] == SAMPLE_CIPHERTEXT[i]
  {
    forall i | lo <= i < lo + 8 ensures Keyed(SAMPLE_TEXT, 0, WrappingAdd)[i] == SAMPLE_CIPHERTEXT[i] {
      KeyAtFirstPass(i);
    }
  }

  lemma SampleCiphertext()
    ensures Keyed(SAMPLE_TEXT, 0, WrappingAdd) == SAMPLE_CIPHERTEXT
  {
    SampleBlock(0);
    SampleBlock(8);
    SampleBlock(16);
    SampleBlock(24);
  }

  /** The encode example: the text encodes to `CHARACTER_DAT_ENCODED`, all 155 bytes. */
  lemma EncodeExample()
    ensures EncodeSpec(Stream(SAMPLE_TEXT)) == Ok(CHARACTER_DAT_ENCODED)
    ensures |CHARACTER_DAT_ENCODED| == HEADER_LEN + 32
  {
    StreamPayload(SAMPLE_TEXT);
    EncodeOk(Stream(SAMPLE_TEXT));
    SampleCiphertext();
    ConstantsWellFormed();
  }

  /** The decode example: `CHARACTER_DAT_ENCODED` decodes back to the text. */
  lemma DecodeExample()
    ensures DecodeSpec(Stream(CHARACTER_DAT_ENCODED)) == Ok(SAMPLE_TEXT)
  {
    EncodeExample();
    RoundTrip(SAMPLE_TEXT);
  }
}
