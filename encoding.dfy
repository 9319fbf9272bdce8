/**
 * Encoding detection: the `Encoding` enumeration, the byte order mark test
 * (`checkBOM`) and the one-pass classifier (`detectEncoding`).
 *
 * The classifier's UTF-8 test looks only at the lead/continuation bit
 * layout of section 3 of RFC 3629; it is not the full syntax of section 4
 * (overlong leads, surrogates and leads above 0xF4 are accepted), so the
 * predicate it decides is called `Utf8Shaped` here, never "valid UTF-8".
 */
module TextEncoding {

  /** One byte of a raw buffer. */
  type Byte = bv8

  /** The three classifications a detection pass can produce. */
  datatype Encoding = Utf8 | EucKr | Unknown

  /** The UTF-8 byte order mark (section 6 of RFC 3629). */
  const BOM: seq<Byte> := [0xEF, 0xBB, 0xBF]

  /** `checkBOM`: the buffer starts with the byte order mark. */
  predicate CheckBOM(data: seq<Byte>)
    ensures CheckBOM(data) <==> |data| >= 3 && data[..3] == BOM
  {
    |data| >= 3 && data[0] == 0xEF && data[1] == 0xBB && data[2] == 0xBF
  }

  /** Extra bytes after the mark do not change the answer. */
  lemma BomPrefixKept(a: seq<Byte>, b: seq<Byte>)
    requires CheckBOM(a)
    ensures CheckBOM(a + b)
  {
    assert (a + b)[..3] == a[..3];
  }

  // ---------------------------------------------------------------------
  // The lead/continuation layout the classifier checks

  /**
   * Length of the sequence the classifier expects after a lead byte, by the
   * masks it applies: 1 for ASCII, 2 for 110xxxxx, 3 for 1110xxxx, 4 for
   * 11110xxx, and 0 when no sequence may start with this byte.
   */
  function SequenceLength(lead: Byte): (n: nat)
  {
    if lead <= 0x7F then 1
    else if (lead & 0xE0) == 0xC0 then 2
    else if (lead & 0xF0) == 0xE0 then 3
    else if (lead & 0xF8) == 0xF0 then 4
    else 0
  }

  /** A continuation byte, 10xxxxxx. */
  predicate IsContinuation(b: Byte)
  {
    (b & 0xC0) == 0x80
  }

  /** A complete sequence of the expected length starts at `i`. */
  predicate SequenceAt(data: seq<Byte>, i: nat)
    requires i < |data|
  {
    var n := SequenceLength(data[i]);
    && 0 < n
    && i + n <= |data|
    && (n < 2 || IsContinuation(data[i + 1]))
    && (n < 3 || IsContinuation(data[i + 2]))
    && (n < 4 || IsContinuation(data[i + 3]))
  }

  /**
   * Where the layout scan started at `i` stops: `|data|` when every sequence
   * from `i` on is complete, otherwise the start of the first one that is not.
   */
  function ScanEnd(data: seq<Byte>, i: nat): (p: nat)
    requires i <= |data|
    ensures i <= p <= |data|
    ensures p < |data| ==> !SequenceAt(data, p)
    decreases |data| - i
  {
    if i == |data| then i
    else if SequenceAt(data, i) then ScanEnd(data, i + SequenceLength(data[i]))
    else i
  }

  /** The whole buffer splits into complete lead/continuation sequences. */
  predicate Utf8Shaped(data: seq<Byte>)
  {
    ScanEnd(data, 0) == |data|
  }

  /**
   * The scan reads no byte past where it stops, and it stops at the first
   * failure: cut the buffer anywhere from that point on, and the scan from
   * `i` still passes every sequence before it and stops at the same place.
   */
  lemma {:induction false} ScanEndPrefix(data: seq<Byte>, i: nat, q: nat)
    requires i <= |data|
    requires ScanEnd(data, i) <= q <= |data|
    ensures ScanEnd(data[..q], i) == ScanEnd(data, i)
    decreases |data| - i
  {
    var t := data[..q];
    if i < |data| {
      if SequenceAt(data, i) {
        assert SequenceAt(t, i);
        ScanEndPrefix(data, i + SequenceLength(data[i]), q);
      } else if i < q {
        assert !SequenceAt(t, i);
      }
    }
  }

  /** Everything before the first layout failure is UTF-8 shaped. */
  lemma ShapedUpToFailure(data: seq<Byte>)
    ensures Utf8Shaped(data[..ScanEnd(data, 0)])
  {
    ScanEndPrefix(data, 0, ScanEnd(data, 0));
  }

  // ---------------------------------------------------------------------
  // The legacy double-byte pattern

  /**
   * A KS X 1001 Hangul pair (lead 0xB0..0xC8, trail 0xA1..0xFE) or a CP949
   * double-byte pair (lead 0x81..0xFE, trail 0x41..0xFE other than 0x7F).
   */
  predicate KoreanPair(curr: Byte, next: Byte)
  {
    || (0xB0 <= curr <= 0xC8 && 0xA1 <= next <= 0xFE)
    || (0x81 <= curr <= 0xFE && 0x41 <= next <= 0xFE && next != 0x7F)
  }

  predicate PairAt(data: seq<Byte>, j: nat)
    requires j + 1 < |data|
  {
    KoreanPair(data[j], data[j + 1])
  }

  /** Some adjacent pair starting at or after `p` is a Korean pair. */
  predicate HasPairFrom(data: seq<Byte>, p: nat)
  {
    exists j: nat :: p <= j < |data| - 1 && PairAt(data, j)
  }

  /** Some Korean pair starts in `lo..hi` (exclusive). */
  predicate PairBetween(data: seq<Byte>, lo: nat, hi: nat)
  {
    exists j: nat :: lo <= j < hi && j < |data| - 1 && PairAt(data, j)
  }

  /** Widening the search window by one start position. */
  lemma PairBetweenStep(data: seq<Byte>, lo: nat, hi: nat)
    requires lo <= hi < |data|
    ensures PairBetween(data, lo, hi + 1)
        <==> PairBetween(data, lo, hi) || (hi + 1 < |data| && PairAt(data, hi))
  {
    if PairBetween(data, lo, hi + 1) && !PairBetween(data, lo, hi) {
      var j: nat :| lo <= j < hi + 1 && j < |data| - 1 && PairAt(data, j);
      assert j == hi;
    }
  }

  // ---------------------------------------------------------------------
  // Classification

  /**
   * What `detectEncoding` answers: unknown for an empty buffer, utf8 when the
   * mark is present or the whole buffer is UTF-8 shaped, otherwise euckr
   * exactly when a Korean pair starts at or after the first position where
   * the UTF-8 layout broke, and unknown if none does.
   */
  function Detect(data: seq<Byte>): (e: Encoding)
  {
    if |data| == 0 then Unknown
    else if CheckBOM(data) then Utf8
    else if Utf8Shaped(data) then Utf8
    else if HasPairFrom(data, ScanEnd(data, 0)) then EucKr
    else Unknown
  }

  /**
   * `detectEncoding`: one pass with index `i` and the flags `isValidUtf8`
   * (only ever switched off), `hasUtf8Korean` (set, never read) and
   * `hasEucKrPattern` (first pattern found wins).
   */
  method DetectEncoding(data: seq<Byte>) returns (e: Encoding)
    ensures e == Detect(data)
  {
    if |data| == 0 {
      return Unknown;
    }
    if CheckBOM(data) {
      return Utf8;
    }
    var isValidUtf8 := true;
    var hasUtf8Korean := false;
    var hasEucKrPattern := false;
    ghost var p := ScanEnd(data, 0);
    var i := 0;
    while i < |data|
      invariant 0 <= i <= |data|
      invariant isValidUtf8 ==> ScanEnd(data, i) == p
      invariant !isValidUtf8 ==> p < i
      invariant !isValidUtf8 ==> (hasEucKrPattern <==> PairBetween(data, p, i))
      invariant isValidUtf8 ==> !hasEucKrPattern
    {
      var b := data[i];
      if b <= 0x7F {
        if !isValidUtf8 {
          PairBetweenStep(data, p, i);
        }
        i := i + 1;
        continue;
      }
      if isValidUtf8 {
        if (b & 0xE0) == 0xC0 {
          if i + 1 >= |data| || (data[i + 1] & 0xC0) != 0x80 {
            isValidUtf8 := false;
          } else {
            i := i + 2;
            continue;
          }
        } else if (b & 0xF0) == 0xE0 {
          if i + 2 >= |data| || (data[i + 1] & 0xC0) != 0x80 || (data[i + 2] & 0xC0) != 0x80 {
            isValidUtf8 := false;
          } else {
            if 0xEA <= b <= 0xED {
              hasUtf8Korean := true;
            }
            i := i + 3;
            continue;
          }
        } else if (b & 0xF8) == 0xF0 {
          if i + 3 >= |data| || (data[i + 1] & 0xC0) != 0x80 || (data[i + 2] & 0xC0) != 0x80
            || (data[i + 3] & 0xC0) != 0x80
          {
            isValidUtf8 := false;
          } else {
            i := i + 4;
            continue;
          }
        } else {
          isValidUtf8 := false;
        }
      }
      if !isValidUtf8 && !hasEucKrPattern && i + 1 < |data| {
        var curr := data[i];
        var next := data[i + 1];
        var isEucKrHangul := 0xB0 <= curr <= 0xC8 && 0xA1 <= next <= 0xFE;
        var isCp949Dbcs := 0x81 <= curr <= 0xFE && 0x41 <= next <= 0xFE && next != 0x7F;
        if isEucKrHangul || isCp949Dbcs {
          hasEucKrPattern := true;
        }
      }
      PairBetweenStep(data, p, i);
      i := i + 1;
    }
    if isValidUtf8 {
      return Utf8;
    }
    assert PairBetween(data, p, i) == HasPairFrom(data, p);
    if hasEucKrPattern {
      return EucKr;
    }
    return Unknown;
  }

  // ---------------------------------------------------------------------
  // Properties of the classification

  lemma {:induction false} AsciiScan(data: seq<Byte>, i: nat)
    requires i <= |data|
    requires forall k :: 0 <= k < |data| ==> data[k] <= 0x7F
    ensures ScanEnd(data, i) == |data|
    decreases |data| - i
  {
    if i < |data| {
      assert SequenceAt(data, i);
      AsciiScan(data, i + 1);
    }
  }

  /** A non-empty buffer of ASCII bytes is classified utf8 (the empty one is unknown). */
  lemma DetectAscii(data: seq<Byte>)
    requires forall k :: 0 <= k < |data| ==> data[k] <= 0x7F
    ensures Detect(data) == if |data| == 0 then Unknown else Utf8
  {
    AsciiScan(data, 0);
  }

  /** The mark decides on its own, whatever follows it. */
  lemma DetectBom(rest: seq<Byte>)
    ensures Detect(BOM + rest) == Utf8
  {
    BomPrefixKept(BOM, rest);
  }

  /**
   * The classifier checks layout only: an overlong lead (0xC0), an encoded
   * surrogate (0xED 0xA0 ..) and a lead above 0xF4 all pass as utf8.
   */
  lemma LayoutNotFullSyntax()
    ensures Detect([0xC0, 0x80]) == Utf8
    ensures Detect([0xED, 0xA0, 0x80]) == Utf8
    ensures Detect([0xF5, 0x80, 0x80, 0x80]) == Utf8
  {
    assert SequenceAt([0xC0, 0x80], 0);
    assert SequenceAt([0xED, 0xA0, 0x80], 0);
    assert SequenceAt([0xF5, 0x80, 0x80, 0x80], 0);
  }

  /**
   * utf8 wins over euckr: the UTF-8 encoding of U+D55C holds a CP949 pair,
   * but it is well shaped, so it is classified utf8.
   */
  lemma Utf8BeatsPairs()
    ensures PairAt([0xED, 0x95, 0x9C], 0)
    ensures Detect([0xED, 0x95, 0x9C]) == Utf8
  {
    assert SequenceAt([0xED, 0x95, 0x9C], 0);
  }

  /**
   * Pairs are searched for only from the first layout failure on: a pair
   * inside the well-shaped prefix does not make the buffer euckr.
   */
  lemma PairBeforeFailureIgnored()
    ensures PairAt([0xED, 0x95, 0x9C, 0x80], 0)
    ensures Detect([0xED, 0x95, 0x9C, 0x80]) == Unknown
  {
    var d: seq<Byte> := [0xED, 0x95, 0x9C, 0x80];
    assert SequenceAt(d, 0);
    assert !SequenceAt(d, 3);
    assert ScanEnd(d, 0) == 3;
  }

  /** A truncated sequence at the end falls through to the pair test on the same bytes. */
  lemma TruncatedTailTestedForPairs()
    ensures Detect([0x41, 0xEA, 0xB0]) == EucKr
  {
    var d: seq<Byte> := [0x41, 0xEA, 0xB0];
    assert SequenceAt(d, 0);
    assert !SequenceAt(d, 1);
    assert ScanEnd(d, 0) == 1;
    assert PairAt(d, 1);
  }

  /** The EUC-KR encoding of U+AC00 (0xB0 0xA1) is classified euckr. */
  lemma HangulPairDetected()
    ensures Detect([0xB0, 0xA1]) == EucKr
  {
    var d: seq<Byte> := [0xB0, 0xA1];
    assert !SequenceAt(d, 0);
    assert PairAt(d, 0);
  }
}
