/**
 * `btoa` / `atob` (the base64 encoding of section 4 of RFC 4648, with `atob`
 * following the forgiving-base64 decode of the WHATWG Infra standard) and
 * the URL-safe token derived from it: `+` and `/` swapped for `-` and `_` as
 * in section 5 of RFC 4648, and the trailing `=` padding dropped as section
 * 3.2 allows.
 *
 * A binary string is given by its UTF-16 code units, as integers.
 */
module Base64 {
  import opened Wrappers

  predicate IsBytes(b: seq<int>) {
    forall i :: 0 <= i < |b| ==> 0 <= b[i] < 256
  }

  /** The value of a base64 digit, or -1 for a character outside the alphabet. */
  function Value(c: char): int {
    if 'A' <= c <= 'Z' then (c - 'A') as int
    else if 'a' <= c <= 'z' then (c - 'a') as int + 26
    else if '0' <= c <= '9' then (c - '0') as int + 52
    else if c == '+' then 62
    else if c == '/' then 63
    else -1
  }

  /** The base64 digit of a 6-bit value. */
  function Digit(v: int): (c: char)
    requires 0 <= v < 64
    ensures Value(c) == v
  {
    if v < 26 then 'A' + v as char
    else if v < 52 then 'a' + (v - 26) as char
    else if v < 62 then '0' + (v - 52) as char
    else if v == 62 then '+'
    else '/'
  }

  predicate AllDigits(s: string) {
    forall i :: 0 <= i < |s| ==> 0 <= Value(s[i])
  }

  /** The digits of `b` without padding: 4 per full group of 3 bytes, then 2 or 3 for a partial one. */
  function EncodeDigits(b: seq<int>): (r: string)
    requires IsBytes(b)
    ensures AllDigits(r)
    ensures |r| % 4 == (if |b| % 3 == 0 then 0 else |b| % 3 + 1)
    ensures |r| == 0 <==> |b| == 0
  {
    if |b| == 0 then ""
    else if |b| == 1 then [Digit(b[0] / 4), Digit(b[0] % 4 * 16)]
    else if |b| == 2 then [Digit(b[0] / 4), Digit(b[0] % 4 * 16 + b[1] / 16), Digit(b[1] % 16 * 4)]
    else
      [Digit(b[0] / 4), Digit(b[0] % 4 * 16 + b[1] / 16), Digit(b[1] % 16 * 4 + b[2] / 64), Digit(b[2] % 64)]
      + EncodeDigits(b[3..])
  }

  /** The `=` padding that completes the last group of 4 characters. */
  function Padding(n: nat): (pad: string)
    ensures |pad| == (if n % 3 == 1 then 2 else if n % 3 == 2 then 1 else 0)
    ensures forall i :: 0 <= i < |pad| ==> pad[i] == '='
  {
    if n % 3 == 1 then "==" else if n % 3 == 2 then "=" else ""
  }

  /**
   * `btoa`: fails (InvalidCharacterError) when a code unit exceeds 255,
   * otherwise yields the padded base64 text.
   */
  function Btoa(units: seq<int>): (r: Option<string>)
    ensures r.Some? <==> IsBytes(units)
    ensures r.Some? ==> |r.value| % 4 == 0
  {
    if IsBytes(units) then Some(EncodeDigits(units) + Padding(|units|)) else None
  }

  /** ASCII whitespace as the Infra standard defines it: TAB, LF, FF, CR and SPACE. */
  predicate IsAsciiWhitespace(c: char) {
    c == '\t' || c == '\n' || c == '\U{000C}' || c == '\r' || c == ' '
  }

  function RemoveAsciiWhitespace(s: string): (r: string)
    ensures forall i :: 0 <= i < |r| ==> !IsAsciiWhitespace(r[i])
  {
    if |s| == 0 then ""
    else (if IsAsciiWhitespace(s[0]) then "" else [s[0]]) + RemoveAsciiWhitespace(s[1..])
  }

  /** When the length is a multiple of 4, one or two trailing `=` are dropped. */
  function StripPadding(s: string): string {
    if |s| % 4 != 0 then s
    else if |s| >= 2 && s[|s| - 2..] == "==" then s[..|s| - 2]
    else if |s| >= 1 && s[|s| - 1] == '=' then s[..|s| - 1]
    else s
  }

  /** The bytes of a digit string; leftover bits of a partial group are discarded. */
  function DecodeDigits(s: string): (r: seq<int>)
    requires AllDigits(s) && |s| % 4 != 1
    ensures IsBytes(r)
  {
    if |s| == 0 then []
    else if |s| == 2 then [Value(s[0]) * 4 + Value(s[1]) / 16]
    else if |s| == 3 then [Value(s[0]) * 4 + Value(s[1]) / 16, Value(s[1]) % 16 * 16 + Value(s[2]) / 4]
    else
      [Value(s[0]) * 4 + Value(s[1]) / 16, Value(s[1]) % 16 * 16 + Value(s[2]) / 4, Value(s[2]) % 4 * 64 + Value(s[3])]
      + DecodeDigits(s[4..])
  }

  /**
   * `atob`: whitespace is ignored, a length of 1 modulo 4 or a character
   * outside the alphabet fails (InvalidCharacterError).
   */
  function Atob(s: string): (r: Option<seq<int>>)
    ensures r.Some? ==> IsBytes(r.value)
  {
    var t := StripPadding(RemoveAsciiWhitespace(s));
    if |t| % 4 == 1 || !AllDigits(t) then None else Some(DecodeDigits(t))
  }

  // ---------------------------------------------------------------------------
  // Round trip
  // ---------------------------------------------------------------------------

  lemma {:induction false} NoWhitespaceKept(s: string)
    requires forall i :: 0 <= i < |s| ==> !IsAsciiWhitespace(s[i])
    ensures RemoveAsciiWhitespace(s) == s
    decreases |s|
  {
    if |s| > 0 {
      NoWhitespaceKept(s[1..]);
      assert s == [s[0]] + s[1..];
    }
  }

  lemma DecodeOne(b0: int)
    requires 0 <= b0 < 256
    ensures Value(Digit(b0 / 4)) * 4 + Value(Digit(b0 % 4 * 16)) / 16 == b0
  {
  }

  lemma DecodeTwo(b0: int, b1: int, v0: int, v1: int, v2: int)
    requires 0 <= b0 < 256 && 0 <= b1 < 256
    requires v0 == b0 / 4 && v1 == b0 % 4 * 16 + b1 / 16 && v2 == b1 % 16 * 4
    ensures v0 * 4 + v1 / 16 == b0 && v1 % 16 * 16 + v2 / 4 == b1
  {
  }

  lemma DecodeThree(b0: int, b1: int, b2: int)
    requires 0 <= b0 < 256 && 0 <= b1 < 256 && 0 <= b2 < 256
    ensures var v0, v1, v2, v3 := b0 / 4, b0 % 4 * 16 + b1 / 16, b1 % 16 * 4 + b2 / 64, b2 % 64;
            v0 * 4 + v1 / 16 == b0 && v1 % 16 * 16 + v2 / 4 == b1 && v2 % 4 * 64 + v3 == b2
  {
  }

  lemma DecodeEncodeOne(b: seq<int>)
    requires IsBytes(b) && |b| == 1
    ensures DecodeDigits(EncodeDigits(b)) == b
  {
    var e := EncodeDigits(b);
    assert Value(e[0]) == b[0] / 4 && Value(e[1]) == b[0] % 4 * 16;
    DecodeOne(b[0]);
  }

  lemma EncodeTwoDigits(b: seq<int>)
    requires IsBytes(b) && |b| == 2
    ensures EncodeDigits(b) == [Digit(b[0] / 4), Digit(b[0] % 4 * 16 + b[1] / 16), Digit(b[1] % 16 * 4)]
  {
  }

  lemma DecodeThreeDigits(e: string)
    requires AllDigits(e) && |e| == 3
    ensures DecodeDigits(e) == [Value(e[0]) * 4 + Value(e[1]) / 16, Value(e[1]) % 16 * 16 + Value(e[2]) / 4]
  {
  }

  lemma DecodeEncodeTwo(b: seq<int>)
    requires IsBytes(b) && |b| == 2
    ensures DecodeDigits(EncodeDigits(b)) == b
  {
    var e := EncodeDigits(b);
    EncodeTwoDigits(b);
    DecodeThreeDigits(e);
    var v0, v1, v2 := Value(e[0]), Value(e[1]), Value(e[2]);
    DecodeTwo(b[0], b[1], v0, v1, v2);
  }

  /** A full group of three bytes decodes back, whatever follows it. */
  lemma DecodeEncodeGroup(b: seq<int>)
    requires IsBytes(b) && |b| >= 3
    ensures |EncodeDigits(b)| >= 4 && EncodeDigits(b)[4..] == EncodeDigits(b[3..])
    ensures DecodeDigits(EncodeDigits(b)) == b[..3] + DecodeDigits(EncodeDigits(b[3..]))
  {
    var e := EncodeDigits(b);
    var rest := EncodeDigits(b[3..]);
    assert e[4..] == rest;
    assert Value(e[0]) == b[0] / 4;
    assert Value(e[1]) == b[0] % 4 * 16 + b[1] / 16;
    assert Value(e[2]) == b[1] % 16 * 4 + b[2] / 64;
    assert Value(e[3]) == b[2] % 64;
    DecodeThree(b[0], b[1], b[2]);
  }

  /** Decoding the digits gives back the bytes. */
  lemma {:induction false} DecodeEncodeDigits(b: seq<int>)
    requires IsBytes(b)
    ensures |EncodeDigits(b)| % 4 != 1
    ensures DecodeDigits(EncodeDigits(b)) == b
    decreases |b|
  {
    if |b| == 1 {
      DecodeEncodeOne(b);
    } else if |b| == 2 {
      DecodeEncodeTwo(b);
    } else if |b| >= 3 {
      DecodeEncodeGroup(b);
      assert IsBytes(b[3..]);
      DecodeEncodeDigits(b[3..]);
      assert b == b[..3] + b[3..];
    }
  }

  /** Digits and padding hold no whitespace. */
  lemma EncodedHasNoWhitespace(d: string, pad: string)
    requires AllDigits(d)
    requires forall i :: 0 <= i < |pad| ==> pad[i] == '='
    ensures RemoveAsciiWhitespace(d + pad) == d + pad
  {
    var e := d + pad;
    forall i | 0 <= i < |e| ensures !IsAsciiWhitespace(e[i]) {
      if i < |d| { assert 0 <= Value(d[i]); } else { assert e[i] == pad[i - |d|]; }
    }
    NoWhitespaceKept(e);
  }

  /** Padding removal takes off one or two `=` after a non-empty digit string, and nothing else. */
  lemma StripDigitsPadding(d: string, pad: string)
    requires AllDigits(d)
    requires |pad| <= 2 && forall i :: 0 <= i < |pad| ==> pad[i] == '='
    requires (|d| + |pad|) % 4 == 0 && (|pad| > 0 ==> |d| > 0)
    ensures StripPadding(d + pad) == d
  {
    var e := d + pad;
    if |d| > 0 {
      assert 0 <= Value(d[|d| - 1]);
      assert e[|d| - 1] == d[|d| - 1];
    }
    if |pad| == 2 {
      assert e[|e| - 2..] == "==";
      assert e[..|e| - 2] == d;
    } else if |pad| == 1 {
      assert e[|e| - 2..][0] == d[|d| - 1];
      assert e[..|e| - 1] == d;
    } else {
      assert e == d;
      if |e| >= 2 { assert e[|e| - 2..][1] == d[|d| - 1]; }
    }
  }

  lemma PadLengthSum(a: nat, p: nat, m: nat)
    requires m < 3
    requires a % 4 == (if m == 0 then 0 else m + 1)
    requires p == (if m == 1 then 2 else if m == 2 then 1 else 0)
    ensures (a + p) % 4 == 0
  {
  }

  /** `atob`'s padding removal takes off exactly the padding `btoa` added. */
  lemma StripPaddingOfEncoded(b: seq<int>)
    requires IsBytes(b)
    ensures StripPadding(EncodeDigits(b) + Padding(|b|)) == EncodeDigits(b)
  {
    var d := EncodeDigits(b);
    var pad := Padding(|b|);
    PadLengthSum(|d|, |pad|, |b| % 3);
    StripDigitsPadding(d, pad);
  }

  /** `atob(btoa(b)) == b` for every byte string. */
  lemma AtobBtoa(b: seq<int>)
    requires IsBytes(b)
    ensures Btoa(b).Some? && Atob(Btoa(b).value) == Some(b)
  {
    var d := EncodeDigits(b);
    var e := d + Padding(|b|);
    assert Btoa(b) == Some(e);
    EncodedHasNoWhitespace(d, Padding(|b|));
    StripPaddingOfEncoded(b);
    DecodeEncodeDigits(b);
  }

  // ---------------------------------------------------------------------------
  // The URL-safe token
  // ---------------------------------------------------------------------------

  /** `replace(/\+/g, '-').replace(/\//g, '_')`. */
  function ToUrlAlphabet(s: string): (r: string)
    ensures |r| == |s|
  {
    seq(|s|, i requires 0 <= i < |s| => if s[i] == '+' then '-' else if s[i] == '/' then '_' else s[i])
  }

  /** `replace(/-/g, '+').replace(/_/g, '/')`. */
  function FromUrlAlphabet(s: string): (r: string)
    ensures |r| == |s|
  {
    seq(|s|, i requires 0 <= i < |s| => if s[i] == '-' then '+' else if s[i] == '_' then '/' else s[i])
  }

  /** `replace(/=+$/, '')`: the maximal run of trailing `=` is removed. */
  function StripTrailingEquals(s: string): (r: string)
    ensures |r| <= |s| && r == s[..|r|]
    ensures |r| == 0 || r[|r| - 1] != '='
    ensures forall i :: |r| <= i < |s| ==> s[i] == '='
  {
    if |s| > 0 && s[|s| - 1] == '=' then StripTrailingEquals(s[..|s| - 1]) else s
  }

  /** `while (base64.length % 4) base64 += '='`. */
  function PadToQuad(s: string): (r: string)
    ensures |r| % 4 == 0 && |s| <= |r| < |s| + 4 && r[..|s|] == s
    ensures forall i :: |s| <= i < |r| ==> r[i] == '='
    decreases (4 - |s| % 4) % 4
  {
    if |s| % 4 == 0 then s else PadToQuad(s + "=")
  }

  /** The URL-safe form of base64 text: alphabet swapped, padding dropped. */
  function ToToken(b64: string): (t: string)
    ensures |t| <= |b64|
    ensures |t| == 0 || t[|t| - 1] != '='
  {
    StripTrailingEquals(ToUrlAlphabet(b64))
  }

  /** The base64 text of a URL-safe token: alphabet swapped back, padding restored. */
  function FromToken(t: string): (b64: string)
    ensures |b64| % 4 == 0
  {
    PadToQuad(FromUrlAlphabet(t))
  }

  /** The token of `btoa` output holds none of `+`, `/` and `=`. */
  lemma TokenAlphabet(b: seq<int>)
    requires IsBytes(b)
    ensures var t := ToToken(Btoa(b).value);
            forall i :: 0 <= i < |t| ==> t[i] != '+' && t[i] != '/' && t[i] != '='
  {
    var e := Btoa(b).value;
    var u := ToUrlAlphabet(e);
    var t := ToToken(e);
    assert t == u[..|t|];
  }

  /** Restoring a token of `btoa` output gives that output back. */
  lemma TokenRoundTrip(b: seq<int>)
    requires IsBytes(b)
    ensures FromToken(ToToken(Btoa(b).value)) == Btoa(b).value
  {
    var d := EncodeDigits(b);
    var e := Btoa(b).value;
    assert e == d + Padding(|b|);
    var u := ToUrlAlphabet(e);
    var t := ToToken(e);
    // The token is the swapped digits: the padding is exactly the trailing run of `=`.
    assert |d| > 0 ==> u[|d| - 1] != '=' by {
      if |d| > 0 { assert 0 <= Value(d[|d| - 1]); }
    }
    assert |t| == |d|;
    var f := FromUrlAlphabet(t);
    assert forall i :: 0 <= i < |d| ==> f[i] == d[i] by {
      forall i | 0 <= i < |d| ensures f[i] == d[i] {
        assert 0 <= Value(d[i]);
        assert t[i] == u[i];
      }
    }
    assert f == d;
    var p := FromToken(t);
    assert |p| == |e|;
    assert p == e;
  }

  /** A token made from `btoa` output decodes, through `atob`, to the original bytes. */
  lemma TokenDecodes(b: seq<int>)
    requires IsBytes(b)
    ensures Atob(FromToken(ToToken(Btoa(b).value))) == Some(b)
  {
    TokenRoundTrip(b);
    AtobBtoa(b);
  }
}
