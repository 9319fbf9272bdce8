/**
 * EUC-KR/CP949 to UTF-8 conversion (`convertEucKrToUtf8`).
 *
 * The operating system's code-page conversion is not part of this model: it
 * is the parameter `tryConvert`, any function from a code page, a mode and
 * the input bytes to UTF-8 bytes, where an empty result means the attempt
 * failed. What the model fixes is the order of the attempts, that the first
 * non-empty result wins, and the total ASCII-or-'?' fallback.
 */
module Conversion {

  import opened Wrappers
  import opened TextEncoding

  /** Strict rejects the whole buffer on any invalid sequence (MB_ERR_INVALID_CHARS); Lenient substitutes. */
  datatype Mode = Strict | Lenient

  /** Code page 51949 (EUC-KR) and code page 949 (the Windows extension of it). */
  const CP_EUCKR: nat := 51949
  const CP_UHC: nat := 949

  /** The conversion service: code page, mode, input; an empty result is a failure. */
  type Transcoder = (nat, Mode, seq<Byte>) -> seq<Byte>

  /** The attempts in the order they are made: both code pages strictly, then both leniently. */
  const ATTEMPTS: seq<(nat, Mode)> :=
    [(CP_EUCKR, Strict), (CP_UHC, Strict), (CP_EUCKR, Lenient), (CP_UHC, Lenient)]

  const QUESTION_MARK: Byte := 0x3F

  /** The fallback replacement of one byte: ASCII kept, anything else '?'. */
  function Substitute(b: Byte): (r: Byte)
  {
    if b < 0x80 then b else QUESTION_MARK
  }

  /** The fallback output for a whole buffer. */
  function Fallback(data: seq<Byte>): (r: seq<Byte>)
    ensures |r| == |data|
    ensures forall k :: 0 <= k < |data| ==> r[k] == Substitute(data[k])
  {
    if data == [] then [] else [Substitute(data[0])] + Fallback(data[1..])
  }

  /** The fallback never fails, yields only ASCII, and leaves ASCII input untouched. */
  lemma FallbackIsAscii(data: seq<Byte>)
    ensures |Fallback(data)| == |data|
    ensures forall k :: 0 <= k < |data| ==> Fallback(data)[k] < 0x80
    ensures forall k :: 0 <= k < |data| && data[k] >= 0x80 ==> Fallback(data)[k] == QUESTION_MARK
    ensures (forall k :: 0 <= k < |data| ==> data[k] < 0x80) ==> Fallback(data) == data
  {
  }

  /** The first attempt, in order, whose result is non-empty; None if all fail. */
  function FirstNonEmpty(attempts: seq<(nat, Mode)>, data: seq<Byte>, tryConvert: Transcoder): (r: Option<seq<Byte>>)
    ensures r.Some? ==> r.value != []
    ensures r.None? <==> forall k :: 0 <= k < |attempts| ==> tryConvert(attempts[k].0, attempts[k].1, data) == []
  {
    if attempts == [] then None
    else
      var out := tryConvert(attempts[0].0, attempts[0].1, data);
      if out != [] then Some(out) else FirstNonEmpty(attempts[1..], data, tryConvert)
  }

  /** If attempt k succeeds and every earlier one failed, attempt k's output is the answer. */
  lemma {:induction false} FirstNonEmptyAt(attempts: seq<(nat, Mode)>, data: seq<Byte>, tryConvert: Transcoder, k: nat)
    requires k < |attempts|
    requires tryConvert(attempts[k].0, attempts[k].1, data) != []
    requires forall j :: 0 <= j < k ==> tryConvert(attempts[j].0, attempts[j].1, data) == []
    ensures FirstNonEmpty(attempts, data, tryConvert) == Some(tryConvert(attempts[k].0, attempts[k].1, data))
  {
    if k > 0 {
      assert tryConvert(attempts[0].0, attempts[0].1, data) == [];
      var rest := attempts[1..];
      assert forall j :: 0 <= j < k - 1 ==> rest[j] == attempts[j + 1];
      FirstNonEmptyAt(rest, data, tryConvert, k - 1);
    }
  }

  /** What `convertEucKrToUtf8` returns. */
  function Convert(data: seq<Byte>, tryConvert: Transcoder): (out: seq<Byte>)
  {
    if |data| == 0 then []
    else
      match FirstNonEmpty(ATTEMPTS, data, tryConvert)
      case Some(out) => out
      case None => Fallback(data)
  }

  /** Conversion never fails: a non-empty input never gives an empty output. */
  lemma ConvertNeverEmpty(data: seq<Byte>, tryConvert: Transcoder)
    ensures Convert(data, tryConvert) == [] <==> data == []
  {
  }

  /**
   * The attempt order: for a non-empty input, either some attempt k is the
   * first to produce output and that output is the result, or every attempt
   * failed and the result is the fallback.
   */
  lemma {:induction false} ConvertAttemptOrder(data: seq<Byte>, tryConvert: Transcoder)
    requires |data| > 0
    ensures || (exists k :: (0 <= k < |ATTEMPTS| && FirstSucceeds(data, tryConvert, k)
                             && Convert(data, tryConvert) == tryConvert(ATTEMPTS[k].0, ATTEMPTS[k].1, data)))
            || ((forall k :: 0 <= k < |ATTEMPTS| ==> tryConvert(ATTEMPTS[k].0, ATTEMPTS[k].1, data) == [])
                && Convert(data, tryConvert) == Fallback(data))
  {
    var k := 0;
    while k < |ATTEMPTS| && tryConvert(ATTEMPTS[k].0, ATTEMPTS[k].1, data) == []
      invariant 0 <= k <= |ATTEMPTS|
      invariant forall j :: 0 <= j < k ==> tryConvert(ATTEMPTS[j].0, ATTEMPTS[j].1, data) == []
    {
      k := k + 1;
    }
    if k < |ATTEMPTS| {
      FirstNonEmptyAt(ATTEMPTS, data, tryConvert, k);
      assert FirstSucceeds(data, tryConvert, k);
    }
  }

  /** Attempt k is the first whose output is non-empty. */
  ghost predicate FirstSucceeds(data: seq<Byte>, tryConvert: Transcoder, k: nat)
    requires k < |ATTEMPTS|
  {
    && tryConvert(ATTEMPTS[k].0, ATTEMPTS[k].1, data) != []
    && forall j :: 0 <= j < k ==> tryConvert(ATTEMPTS[j].0, ATTEMPTS[j].1, data) == []
  }

  /** A conversion service that fails on everything leaves the ASCII-or-'?' fallback. */
  lemma UnmappableInputFallsBack(data: seq<Byte>, tryConvert: Transcoder)
    requires forall cp, mode :: tryConvert(cp, mode, data) == []
    ensures Convert(data, tryConvert) == Fallback(data)
  {
  }

  /**
   * `convertEucKrToUtf8`: strict attempts over the two code pages, lenient
   * attempts over the same two, returning the first non-empty output; if none,
   * build the fallback byte by byte.
   */
  method ConvertEucKrToUtf8(data: seq<Byte>, tryConvert: Transcoder) returns (out: seq<Byte>)
    ensures out == Convert(data, tryConvert)
  {
    if |data| == 0 {
      return [];
    }
    var pages := [CP_EUCKR, CP_UHC];
    var k := 0;
    while k < |pages|
      invariant 0 <= k <= |pages|
      invariant forall j :: 0 <= j < k ==> tryConvert(ATTEMPTS[j].0, ATTEMPTS[j].1, data) == []
    {
      out := tryConvert(pages[k], Strict, data);
      if out != [] {
        FirstNonEmptyAt(ATTEMPTS, data, tryConvert, k);
        return;
      }
      k := k + 1;
    }
    k := 0;
    while k < |pages|
      invariant 0 <= k <= |pages|
      invariant forall j :: 0 <= j < 2 + k ==> tryConvert(ATTEMPTS[j].0, ATTEMPTS[j].1, data) == []
    {
      out := tryConvert(pages[k], Lenient, data);
      if out != [] {
        FirstNonEmptyAt(ATTEMPTS, data, tryConvert, 2 + k);
        return;
      }
      k := k + 1;
    }
    var fallback: seq<Byte> := [];
    for n := 0 to |data|
      invariant |fallback| == n
      invariant forall j :: 0 <= j < n ==> fallback[j] == Substitute(data[j])
    {
      var c := data[n];
      fallback := fallback + [if c < 0x80 then c else QUESTION_MARK];
    }
    return fallback;
  }
}
