/**
 * The byte-buffer factory `Document::make(std::span<std::byte>)`: detect the
 * encoding, then strip the mark (utf8), transcode (euckr) or pass the bytes
 * through (unknown). The factory always yields a document, so it is a
 * total function here.
 */
module Documents {

  import opened TextEncoding
  import opened Conversion
  import opened Utf8Layout

  /** A document: the canonical text it stores. */
  datatype Document = Document(text: seq<Byte>)

  /**
   * `make(span)`. Outside the euckr case the stored text is the input with at
   * most a leading mark removed, and nothing else changed.
   */
  function Make(binary: seq<Byte>, tryConvert: Transcoder): (doc: Document)
    ensures Detect(binary) != EucKr ==> binary == (if CheckBOM(binary) then BOM else []) + doc.text
    ensures Detect(binary) == EucKr ==> doc.text == Convert(binary, tryConvert)
  {
    var encoding := Detect(binary);
    if encoding == Utf8 then
      var offset := if CheckBOM(binary) then 3 else 0;
      Document(binary[offset..])
    else if encoding == EucKr then
      Document(Convert(binary, tryConvert))
    else
      Document(binary)
  }

  /** An empty buffer is classified unknown and gives an empty text. */
  lemma MakeEmpty(tryConvert: Transcoder)
    ensures Detect([]) == Unknown
    ensures Make([], tryConvert).text == []
  {
  }

  /** The text is empty exactly for the empty buffer and for a buffer that is only the mark. */
  lemma MakeTextEmptyIff(binary: seq<Byte>, tryConvert: Transcoder)
    ensures Make(binary, tryConvert).text == [] <==> binary == [] || binary == BOM
  {
    if Detect(binary) == EucKr {
      ConvertNeverEmpty(binary, tryConvert);
    }
  }

  /** Unknown input is stored byte for byte, with no transcoding or substitution. */
  lemma MakeUnknownVerbatim(binary: seq<Byte>, tryConvert: Transcoder)
    requires Detect(binary) == Unknown
    ensures Make(binary, tryConvert).text == binary
  {
  }

  /** Text written in ASCII only is stored unchanged. */
  lemma MakeAsciiUnchanged(binary: seq<Byte>, tryConvert: Transcoder)
    requires forall k :: 0 <= k < |binary| ==> binary[k] <= 0x7F
    ensures Make(binary, tryConvert).text == binary
  {
    DetectAscii(binary);
  }

  /**
   * Round trip through the RFC 3629 bit-layout encoder: the document built from an
   * encoded text holds that encoding, less a leading U+FEFF mark.
   */
  lemma MakeEncodedText(cps: seq<CodePoint>, tryConvert: Transcoder)
    ensures Make(EncodeText(cps), tryConvert).text
         == EncodeText(if |cps| > 0 && cps[0] == 0xFEFF then cps[1..] else cps)
  {
    var bytes := EncodeText(cps);
    EncodedTextBom(cps);
    if |cps| > 0 {
      DetectEncodedText(cps);
      if cps[0] == 0xFEFF {
        assert EncodeCodePoint(cps[0]) == BOM;
        assert bytes == BOM + EncodeText(cps[1..]);
        assert bytes[3..] == EncodeText(cps[1..]);
      }
    }
  }

  /**
   * Without a mark, a utf8 text is UTF-8 shaped. With the mark nothing after
   * it is examined, so the stored text need not be: 0xEF 0xBB 0xBF 0xFF is
   * classified utf8 and stores the lone byte 0xFF.
   */
  lemma MakeUtf8Shape(binary: seq<Byte>, tryConvert: Transcoder)
    ensures Detect(binary) == Utf8 && !CheckBOM(binary) ==> Utf8Shaped(Make(binary, tryConvert).text)
    ensures Detect([0xEF, 0xBB, 0xBF, 0xFF]) == Utf8
    ensures Make([0xEF, 0xBB, 0xBF, 0xFF], tryConvert).text == [0xFF]
    ensures !Utf8Shaped([0xFF])
  {
    var lone: seq<Byte> := [0xFF];
    assert !SequenceAt(lone, 0);
  }
}
