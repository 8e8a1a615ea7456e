/** The parts of UTF-8 (RFC 3629, section 3) that the validator relies on:
    decoding one scalar value from the front of a byte string, with the
    one-byte U+FFFD substitution for malformed input, counting the scalar
    values of a byte string, and encoding a sequence of runes back into bytes
    (Go's string([]rune) conversion). */
module Utf8 {

  type Byte = b: int | 0 <= b < 256
  type Bytes = seq<Byte>

  /** U+FFFD, the value a malformed sequence decodes to. */
  const RuneError := 0xFFFD
  const MaxRune := 0x10FFFF

  /** A Unicode scalar value: a code point that is not a surrogate. */
  predicate IsScalar(r: int) {
    0 <= r <= MaxRune && !(0xD800 <= r <= 0xDFFF)
  }

  predicate IsContinuation(b: Byte) {
    0x80 <= b <= 0xBF
  }

  function Min(x: int, y: int): (m: int) {
    if x <= y then x else y
  }

  /** A rune together with the number of bytes it was decoded from. */
  datatype Decoded = Decoded(rune: int, width: nat)

  /** The range the second byte of a multi-byte sequence must lie in, given
      its lead byte: RFC 3629 excludes overlong forms (after E0 and F0),
      surrogates (after ED) and values above U+10FFFF (after F4). */
  function SecondByteLow(lead: Byte): (lo: Byte) {
    if lead == 0xE0 then 0xA0 else if lead == 0xF0 then 0x90 else 0x80
  }

  function SecondByteHigh(lead: Byte): (hi: Byte) {
    if lead == 0xED then 0x9F else if lead == 0xF4 then 0x8F else 0xBF
  }

  /** Decodes the first UTF-8 sequence of p. An empty p gives (U+FFFD, 0);
      an invalid or truncated sequence gives (U+FFFD, 1). */
  function DecodeRune(p: Bytes): (d: Decoded)
    ensures |p| == 0 ==> d == Decoded(RuneError, 0)
    ensures |p| > 0 ==> 1 <= d.width <= Min(4, |p|)
    ensures |p| > 0 && p[0] < 0x80 ==> d == Decoded(p[0], 1)
    ensures |p| > 0 && p[0] >= 0x80 ==> d.rune >= 0x80
    ensures IsScalar(d.rune)
  {
    if |p| == 0 then Decoded(RuneError, 0)
    else
      var b0: int := p[0];
      var b1: int := if |p| > 1 then p[1] else 0;
      var b2: int := if |p| > 2 then p[2] else 0;
      var b3: int := if |p| > 3 then p[3] else 0;
      if b0 < 0x80 then Decoded(b0, 1)
      else if b0 < 0xC2 || b0 > 0xF4 then Decoded(RuneError, 1)
      else if b0 < 0xE0 then
        if |p| < 2 || !IsContinuation(p[1]) then Decoded(RuneError, 1)
        else Decoded((b0 - 0xC0) * 64 + (b1 - 0x80), 2)
      else if b0 < 0xF0 then
        if |p| < 3 || !(SecondByteLow(b0) <= p[1] <= SecondByteHigh(b0)) || !IsContinuation(p[2])
        then Decoded(RuneError, 1)
        else Decoded((b0 - 0xE0) * 4096 + (b1 - 0x80) * 64 + (b2 - 0x80), 3)
      else
        if |p| < 4 || !(SecondByteLow(b0) <= p[1] <= SecondByteHigh(b0))
           || !IsContinuation(p[2]) || !IsContinuation(p[3])
        then Decoded(RuneError, 1)
        else Decoded((b0 - 0xF0) * 262144 + (b1 - 0x80) * 4096 + (b2 - 0x80) * 64 + (b3 - 0x80), 4)
  }

  /** The runes of p, decoded front to back, one DecodeRune step each. */
  function Decode(p: Bytes): (rs: seq<int>)
    ensures |rs| <= |p|
    ensures |p| > 0 ==> |rs| > 0
    ensures forall i :: 0 <= i < |rs| ==> IsScalar(rs[i])
    decreases |p|
  {
    if |p| == 0 then [] else [DecodeRune(p).rune] + Decode(p[DecodeRune(p).width..])
  }

  /** The number of runes in p (Go's utf8.RuneCount); a malformed byte counts
      as one rune. */
  function RuneCount(p: Bytes): (n: nat)
    ensures n <= |p|
    ensures |p| > 0 ==> n > 0
    decreases |p|
  {
    if |p| == 0 then 0 else 1 + RuneCount(p[DecodeRune(p).width..])
  }

  lemma {:induction false} RuneCountIsDecodedLength(p: Bytes)
    ensures RuneCount(p) == |Decode(p)|
    decreases |p|
  {
    if |p| > 0 {
      RuneCountIsDecodedLength(p[DecodeRune(p).width..]);
    }
  }

  /** A byte string of ASCII bytes decodes to itself, byte by byte. */
  lemma {:induction false} DecodeAscii(p: Bytes)
    requires forall i :: 0 <= i < |p| ==> p[i] < 0x80
    ensures Decode(p) == p
    decreases |p|
  {
    if |p| > 0 {
      DecodeAscii(p[1..]);
    }
  }

  /** The UTF-8 encoding of r; a value that is not a scalar value is encoded
      as U+FFFD, as Go's string([]rune) conversion does. */
  function EncodeRune(r: int): (e: Bytes)
    ensures 1 <= |e| <= 4
    ensures 0 <= r < 0x80 <==> |e| == 1
    ensures |e| == 1 ==> e == [r]
    ensures |e| > 1 ==> 0xC2 <= e[0] <= 0xF4 && forall i :: 1 <= i < |e| ==> IsContinuation(e[i])
  {
    if 0 <= r < 0x80 then [r]
    else if 0x80 <= r < 0x800 then [0xC0 + r / 64, 0x80 + r % 64]
    else if 0x800 <= r < 0x10000 && !(0xD800 <= r <= 0xDFFF) then
      [0xE0 + r / 4096, 0x80 + (r / 64) % 64, 0x80 + r % 64]
    else if 0x10000 <= r <= MaxRune then
      [0xF0 + r / 262144, 0x80 + (r / 4096) % 64, 0x80 + (r / 64) % 64, 0x80 + r % 64]
    else [0xEF, 0xBF, 0xBD]
  }

  /** Go's string(runes): the concatenated encodings of the runes. */
  function EncodeRunes(rs: seq<int>): (s: Bytes)
    ensures |rs| <= |s| <= 4 * |rs|
  {
    if rs == [] then [] else EncodeRune(rs[0]) + EncodeRunes(rs[1..])
  }

  /** Decoding undoes encoding, one scalar value at a time, whatever follows. */
  lemma DecodeEncodeRune(r: int, rest: Bytes)
    requires IsScalar(r)
    ensures DecodeRune(EncodeRune(r) + rest) == Decoded(r, |EncodeRune(r)|)
  {
    if r < 0x80 {
      assert (EncodeRune(r) + rest)[0] == r;
    } else if r < 0x800 {
      DecodeEncodeTwo(r, rest);
    } else if r < 0x10000 {
      DecodeEncodeThree(r, rest);
    } else {
      DecodeEncodeFour(r, rest);
    }
  }

  /** The three multi-byte widths, each a proof obligation of its own. */
  lemma DecodeEncodeTwo(r: int, rest: Bytes)
    requires 0x80 <= r < 0x800
    ensures DecodeRune(EncodeRune(r) + rest) == Decoded(r, 2)
  {}

  lemma DecodeEncodeThree(r: int, rest: Bytes)
    requires 0x800 <= r < 0x10000 && IsScalar(r)
    ensures DecodeRune(EncodeRune(r) + rest) == Decoded(r, 3)
  {}

  lemma DecodeEncodeFour(r: int, rest: Bytes)
    requires 0x10000 <= r <= MaxRune
    ensures DecodeRune(EncodeRune(r) + rest) == Decoded(r, 4)
  {}

  /** Round trip: the runes of a sequence of scalar values survive encoding
      and decoding. */
  lemma {:induction false} DecodeEncodeRunes(rs: seq<int>)
    requires forall i :: 0 <= i < |rs| ==> IsScalar(rs[i])
    ensures Decode(EncodeRunes(rs)) == rs
  {
    if rs != [] {
      var e, tail := EncodeRune(rs[0]), EncodeRunes(rs[1..]);
      DecodeEncodeRune(rs[0], tail);
      assert (e + tail)[|e|..] == tail;
      DecodeEncodeRunes(rs[1..]);
    }
  }

  /** Runes below 0x80 encode as the single byte of the same value. */
  lemma {:induction false} EncodeAsciiRunes(rs: seq<int>)
    requires forall i :: 0 <= i < |rs| ==> 0 <= rs[i] < 0x80
    ensures EncodeRunes(rs) == rs
  {
    if rs != [] {
      EncodeAsciiRunes(rs[1..]);
    }
  }
}
