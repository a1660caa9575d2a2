/**
  * `encode_str` in the Python bincode runtime, as written, prefixes the
  * number of code points where the format (and the runtime's own
  * `decode_str`) expects the number of UTF-8 bytes. Shown on an input, next
  * to the corrected behaviour the rest of the model uses.
  */
module PyBincodeFindings {
  import opened Wire
  import Utf8
  import opened PyTypes
  import opened PyBincode
  import opened PyBincodeRoundTrip

  /** The UTF-8 bytes of `é` (U+00E9). */
  lemma EncodeAcute()
    ensures Utf8.Encode([0xE9 as char]) == [0xC3, 0xA9]
  {
    assert [0xE9 as char][1..] == [];
  }

  /** A length below 256 is its own byte followed by seven zero bytes. */
  lemma SmallLength(b: byte)
    ensures EncodeLength(b) == Ok([b, 0, 0, 0, 0, 0, 0, 0])
  {
    Pow2Values();
    assert Wrap(b, 64) == b;
    forall i | 1 <= i < 8
      ensures ByteAt(b, i) == 0
    {
      Pow2Monotone(8, 8 * i);
      DivModUnique(b, Pow2(8 * i), 0, b);
    }
    ByteAtByte(b);
    assert LE(b, 8) == [b, 0, 0, 0, 0, 0, 0, 0];
  }

  /** `encode_str` as written prefixes `é` with its one code point. */
  lemma AsWrittenImage()
    ensures EncodeStrAsWritten([0xE9 as char]) == Ok([1, 0, 0, 0, 0, 0, 0, 0, 0xC3, 0xA9])
  {
    var e := [0xE9 as char];
    EncodeAcute();
    SmallLength(1);
    assert |e| == 1;
    var prefix: seq<byte> := [1, 0, 0, 0, 0, 0, 0, 0];
    var acute: seq<byte> := [0xC3, 0xA9];
    assert EncodeStrAsWritten(e) == Ok(prefix + acute);
    assert prefix + acute == [1, 0, 0, 0, 0, 0, 0, 0, 0xC3, 0xA9];
  }

  /** Reading that image back cuts `é` after its first byte. */
  lemma AsWrittenRejected()
    ensures DecodeStr([1, 0, 0, 0, 0, 0, 0, 0, 0xC3, 0xA9]) == Err(InvalidUtf8)
  {
    SmallLength(1);
    var acute: seq<byte> := [0xC3, 0xA9];
    LengthRoundTrip(1, acute);
    assert [1, 0, 0, 0, 0, 0, 0, 0] + acute == [1, 0, 0, 0, 0, 0, 0, 0, 0xC3, 0xA9];
    var head: seq<byte> := [0xC3];
    var tail: seq<byte> := [0xA9];
    assert acute[..1] == head && acute[1..] == tail;
    assert Split(acute, 1) == (head, tail);
    assert Utf8.Decode(head) == Err(InvalidUtf8);
  }

  /** The corrected prefix counts both bytes of `é` and reads back. */
  lemma CorrectedReads()
    ensures EncodeStr([0xE9 as char]) == Ok([2, 0, 0, 0, 0, 0, 0, 0, 0xC3, 0xA9])
    ensures DecodeStr([2, 0, 0, 0, 0, 0, 0, 0, 0xC3, 0xA9]) == Ok(([0xE9 as char], []))
  {
    var e := [0xE9 as char];
    EncodeAcute();
    SmallLength(2);
    var prefix: seq<byte> := [2, 0, 0, 0, 0, 0, 0, 0];
    var acute: seq<byte> := [0xC3, 0xA9];
    assert |acute| == 2;
    assert EncodeStr(e) == Ok(prefix + acute);
    assert prefix + acute == [2, 0, 0, 0, 0, 0, 0, 0, 0xC3, 0xA9];
    var none: seq<byte> := [];
    StrRoundTrip(e, none);
    assert EncodeStr(e).value + none == EncodeStr(e).value;
  }

  /** `encode_str` as written prefixes `é` with its one code point, not its
    * two UTF-8 bytes, so `decode_str` cuts the character in half; the
    * corrected prefix reads back. */
  lemma EncodeStrAsWrittenBreaks()
    ensures EncodeStrAsWritten([0xE9 as char]) == Ok([1, 0, 0, 0, 0, 0, 0, 0, 0xC3, 0xA9])
    ensures DecodeStr([1, 0, 0, 0, 0, 0, 0, 0, 0xC3, 0xA9]) == Err(InvalidUtf8)
    ensures EncodeStr([0xE9 as char]) == Ok([2, 0, 0, 0, 0, 0, 0, 0, 0xC3, 0xA9])
    ensures DecodeStr([2, 0, 0, 0, 0, 0, 0, 0, 0xC3, 0xA9]) == Ok(([0xE9 as char], []))
  {
    AsWrittenImage();
    AsWrittenRejected();
    CorrectedReads();
  }

  /** The two prefixes agree exactly on ASCII strings. */
  lemma EncodeStrAsWrittenAgrees(s: string)
    requires |Utf8.Encode(s)| <= MaxLength
    ensures EncodeStrAsWritten(s) == EncodeStr(s) <==> forall i :: 0 <= i < |s| ==> s[i] as int < 0x80
  {
    var bytes := Utf8.Encode(s);
    Utf8.EncodeLength(s);
    if EncodeStrAsWritten(s) == EncodeStr(s) {
      LengthRoundTrip(|s|, bytes);
      LengthRoundTrip(|bytes|, bytes);
    }
  }
}
