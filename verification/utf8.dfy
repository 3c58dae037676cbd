/**
 * The byte string of the fallback token: `unescape(encodeURIComponent(s))`
 * is the UTF-8 encoding of `s`, one character per byte, and
 * `decodeURIComponent(escape(b))` decodes such bytes back, failing (URIError)
 * on anything that is not well-formed UTF-8.
 */
module Utf8 {
  import opened Wrappers

  /** The UTF-8 bytes of one Unicode scalar value. */
  function EncodeChar(c: char): (b: seq<int>)
    ensures 1 <= |b| <= 4
    ensures forall i :: 0 <= i < |b| ==> 0 <= b[i] < 256
  {
    var cp := c as int;
    if cp < 0x80 then [cp]
    else if cp < 0x800 then [0xC0 + cp / 64, 0x80 + cp % 64]
    else if cp < 0x10000 then [0xE0 + cp / 4096, 0x80 + (cp / 64) % 64, 0x80 + cp % 64]
    else [0xF0 + cp / 262144, 0x80 + (cp / 4096) % 64, 0x80 + (cp / 64) % 64, 0x80 + cp % 64]
  }

  function Encode(s: string): (b: seq<int>)
    ensures |s| <= |b| <= 4 * |s|
    ensures forall i :: 0 <= i < |b| ==> 0 <= b[i] < 256
  {
    if |s| == 0 then [] else EncodeChar(s[0]) + Encode(s[1..])
  }

  /** The length of the sequence a leading byte announces, or 0 for a byte that cannot lead one. */
  function SequenceLength(b0: int): nat {
    if 0 <= b0 < 0x80 then 1
    else if 0xC0 <= b0 < 0xE0 then 2
    else if 0xE0 <= b0 < 0xF0 then 3
    else if 0xF0 <= b0 < 0xF8 then 4
    else 0
  }

  predicate IsContinuation(b: int) {
    0x80 <= b < 0xC0
  }

  /** The smallest code point a sequence of `n` bytes may carry (shorter forms are overlong). */
  function MinCodePoint(n: nat): int {
    if n == 2 then 0x80 else if n == 3 then 0x800 else if n == 4 then 0x10000 else 0
  }

  /** The code point carried by the first `n` bytes of `b`. */
  function CodePoint(b: seq<int>, n: nat): int
    requires 1 <= n <= 4 && n <= |b|
  {
    if n == 1 then b[0]
    else if n == 2 then (b[0] - 0xC0) * 64 + (b[1] - 0x80)
    else if n == 3 then (b[0] - 0xE0) * 4096 + (b[1] - 0x80) * 64 + (b[2] - 0x80)
    else (b[0] - 0xF0) * 262144 + (b[1] - 0x80) * 4096 + (b[2] - 0x80) * 64 + (b[3] - 0x80)
  }

  /** The character the first sequence of `b` encodes, with its length; `None` when it is malformed. */
  function DecodeFirst(b: seq<int>): (r: Option<(char, nat)>)
    requires |b| > 0
    ensures r.Some? ==> 1 <= r.value.1 <= |b|
  {
    var n := SequenceLength(b[0]);
    if n == 0 || |b| < n then None
    else if exists i :: 1 <= i < n && !IsContinuation(b[i]) then None
    else
      var cp := CodePoint(b, n);
      if cp < MinCodePoint(n) || cp > 0x10FFFF || (0xD800 <= cp < 0xE000) then None
      else Some((cp as char, n))
  }

  /** Strict UTF-8 decoding. */
  function Decode(b: seq<int>): (r: Option<string>)
    decreases |b|
  {
    if |b| == 0 then Some("")
    else
      match DecodeFirst(b)
      case None => None
      case Some(p) =>
        match Decode(b[p.1..])
        case None => None
        case Some(rest) => Some([p.0] + rest)
  }

  lemma DecodeTwoBytes(cp: int)
    requires 0x80 <= cp < 0x800
    ensures var b := [0xC0 + cp / 64, 0x80 + cp % 64];
            SequenceLength(b[0]) == 2 && IsContinuation(b[1]) && CodePoint(b, 2) == cp
  {
  }

  lemma DecodeThreeBytes(cp: int)
    requires 0x800 <= cp < 0x10000
    ensures var b := [0xE0 + cp / 4096, 0x80 + (cp / 64) % 64, 0x80 + cp % 64];
            SequenceLength(b[0]) == 3 && IsContinuation(b[1]) && IsContinuation(b[2])
            && CodePoint(b, 3) == cp
  {
    var q := cp / 64;
    assert cp == q * 64 + cp % 64;
    assert q == q / 64 * 64 + q % 64;
    assert q / 64 == cp / 4096;
  }

  lemma DecodeFourBytes(cp: int)
    requires 0x10000 <= cp < 0x110000
    ensures var b := [0xF0 + cp / 262144, 0x80 + (cp / 4096) % 64, 0x80 + (cp / 64) % 64, 0x80 + cp % 64];
            SequenceLength(b[0]) == 4 && IsContinuation(b[1]) && IsContinuation(b[2]) && IsContinuation(b[3])
            && CodePoint(b, 4) == cp
  {
    var q := cp / 64;
    var r := q / 64;
    assert cp == q * 64 + cp % 64;
    assert q == r * 64 + q % 64;
    assert r == r / 64 * 64 + r % 64;
    assert r == cp / 4096;
    assert r / 64 == cp / 262144;
  }

  /** The first sequence of an encoded character decodes to that character, whatever follows. */
  lemma DecodeFirstEncoded(c: char, rest: seq<int>)
    ensures DecodeFirst(EncodeChar(c) + rest) == Some((c, |EncodeChar(c)|))
  {
    var cp := c as int;
    var e := EncodeChar(c);
    var b := e + rest;
    assert b[..|e|] == e;
    if cp < 0x80 {
    } else if cp < 0x800 {
      DecodeTwoBytes(cp);
      assert CodePoint(b, 2) == CodePoint(e, 2);
    } else if cp < 0x10000 {
      DecodeThreeBytes(cp);
      assert CodePoint(b, 3) == CodePoint(e, 3);
    } else {
      DecodeFourBytes(cp);
      assert CodePoint(b, 4) == CodePoint(e, 4);
    }
  }

  /** Decoding undoes encoding: the fallback path is lossless for every string. */
  lemma {:induction false} DecodeEncode(s: string)
    ensures Decode(Encode(s)) == Some(s)
    decreases |s|
  {
    if |s| > 0 {
      var e := EncodeChar(s[0]);
      DecodeFirstEncoded(s[0], Encode(s[1..]));
      DecodeEncode(s[1..]);
      assert (e + Encode(s[1..]))[|e|..] == Encode(s[1..]);
      assert s == [s[0]] + s[1..];
    }
  }
}
