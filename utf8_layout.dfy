/**
 * The byte layout of section 3 of RFC 3629 and what the classifier makes
 * of it: every text encoded with that layout is UTF-8 shaped, so a
 * non-empty one is classified utf8.
 */
module Utf8Layout {

  import opened TextEncoding

  /**
   * A Unicode code point, as a 32-bit value. The surrogates
   * U+D800..U+DFFF are included: they have the same bit layout, and the
   * classifier accepts them, so the lemmas below hold for them too.
   */
  type CodePoint = c: bv32 | c < 0x11_0000

  /**
   * The 1 to 4 byte encoding of a code point, by the bit layout of the table
   * in section 3 of RFC 3629 (surrogates included, which that section forbids).
   */
  function EncodeCodePoint(c: CodePoint): (s: seq<Byte>)
  {
    if c < 0x80 then
      [c as bv8]
    else if c < 0x800 then
      [(0xC0 | (c >> 6)) as bv8, (0x80 | (c & 0x3F)) as bv8]
    else if c < 0x1_0000 then
      [(0xE0 | (c >> 12)) as bv8, (0x80 | ((c >> 6) & 0x3F)) as bv8, (0x80 | (c & 0x3F)) as bv8]
    else
      [(0xF0 | (c >> 18)) as bv8, (0x80 | ((c >> 12) & 0x3F)) as bv8,
       (0x80 | ((c >> 6) & 0x3F)) as bv8, (0x80 | (c & 0x3F)) as bv8]
  }

  /** The encoding of a whole text: the code points' encodings in order. */
  function EncodeText(cps: seq<CodePoint>): (s: seq<Byte>)
    ensures |cps| > 0 ==> |s| > 0
  {
    if cps == [] then [] else EncodeCodePoint(cps[0]) + EncodeText(cps[1..])
  }

  /** One encoded code point is one complete sequence. */
  lemma EncodedCodePointShaped(c: CodePoint)
    ensures Utf8Shaped(EncodeCodePoint(c))
  {
    var s := EncodeCodePoint(c);
    assert SequenceAt(s, 0);
    assert SequenceLength(s[0]) == |s|;
    assert ScanEnd(s, |s|) == |s|;
  }

  /** The scan of `prefix + s` past the prefix is the scan of `s`, shifted. */
  lemma {:induction false} ScanShift(prefix: seq<Byte>, s: seq<Byte>, j: nat)
    requires j <= |s|
    ensures ScanEnd(prefix + s, |prefix| + j) == |prefix| + ScanEnd(s, j)
    decreases |s| - j
  {
    var t := prefix + s;
    if j < |s| {
      assert t[|prefix| + j] == s[j];
      var n := SequenceLength(s[j]);
      if j + 1 < |s| { assert t[|prefix| + j + 1] == s[j + 1]; }
      if j + 2 < |s| { assert t[|prefix| + j + 2] == s[j + 2]; }
      if j + 3 < |s| { assert t[|prefix| + j + 3] == s[j + 3]; }
      assert SequenceAt(t, |prefix| + j) == SequenceAt(s, j);
      if SequenceAt(s, j) {
        ScanShift(prefix, s, j + n);
      }
    }
  }

  /** A well-shaped prefix is scanned the same way whatever follows it. */
  lemma {:induction false} ScanThroughPrefix(a: seq<Byte>, b: seq<Byte>, i: nat)
    requires i <= |a| && ScanEnd(a, i) == |a|
    ensures ScanEnd(a + b, i) == ScanEnd(a + b, |a|)
    decreases |a| - i
  {
    var t := a + b;
    if i < |a| {
      assert SequenceAt(a, i);
      var n := SequenceLength(a[i]);
      assert t[i] == a[i];
      if n >= 2 { assert t[i + 1] == a[i + 1]; }
      if n >= 3 { assert t[i + 2] == a[i + 2]; }
      if n >= 4 { assert t[i + 3] == a[i + 3]; }
      assert SequenceAt(t, i);
      ScanThroughPrefix(a, b, i + n);
    }
  }

  /** Concatenating two well-shaped buffers gives a well-shaped buffer. */
  lemma ShapedConcat(a: seq<Byte>, b: seq<Byte>)
    requires Utf8Shaped(a) && Utf8Shaped(b)
    ensures Utf8Shaped(a + b)
  {
    ScanThroughPrefix(a, b, 0);
    ScanShift(a, b, 0);
  }

  /** Every encoded text is well shaped. */
  lemma {:induction false} EncodedTextShaped(cps: seq<CodePoint>)
    ensures Utf8Shaped(EncodeText(cps))
  {
    if cps != [] {
      EncodedCodePointShaped(cps[0]);
      EncodedTextShaped(cps[1..]);
      ShapedConcat(EncodeCodePoint(cps[0]), EncodeText(cps[1..]));
    }
  }

  /** Any non-empty text encoded with the RFC 3629 bit layout is classified utf8, with or without a mark. */
  lemma DetectEncodedText(cps: seq<CodePoint>)
    requires |cps| > 0
    ensures Detect(EncodeText(cps)) == Utf8
  {
    EncodedTextShaped(cps);
  }

  /** An encoded text starts with the mark exactly when its first code point is U+FEFF. */
  lemma EncodedTextBom(cps: seq<CodePoint>)
    ensures CheckBOM(EncodeText(cps)) <==> |cps| > 0 && cps[0] == 0xFEFF
  {
    if cps != [] {
      var head := EncodeCodePoint(cps[0]);
      var s := EncodeText(cps);
      assert s == head + EncodeText(cps[1..]);
      if |head| == 3 {
        assert s[..3] == head;
      }
    }
  }
}
