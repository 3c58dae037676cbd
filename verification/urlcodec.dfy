/**
 * The share token (`compressForUrl` / `decompressFromUrl`).
 *
 * The main path is LZW, then the variable-length byte packing, then
 * `String.fromCharCode`, `btoa` and the URL-safe alphabet. When `btoa`
 * throws (a packed value above 255) the text is instead UTF-8 encoded,
 * base64'd and marked with a leading `b`. The decoder takes the fallback
 * branch for every token that starts with `b`, and turns every exception
 * into the empty string.
 */
module UrlCodec {
  import opened Wrappers
  import opened Lzw
  import opened Packing
  import opened Base64
  import JsString
  import Utf8

  /** `String.fromCharCode(...values)`: each value becomes a UTF-16 code unit. */
  function CodeUnits(vals: seq<int>): seq<int> {
    seq(|vals|, i requires 0 <= i < |vals| => vals[i] % 65536)
  }

  /** `numbersToBase64`; `None` where `btoa` throws. */
  function NumbersToToken(codes: seq<Code>): Option<string> {
    match Btoa(CodeUnits(Pack(codes)))
    case None => None
    case Some(b64) => Some(ToToken(b64))
  }

  /** `base64ToNumbers`; `None` where `atob` throws. */
  function TokenToNumbers(t: string): Option<seq<int>> {
    match Atob(FromToken(t))
    case None => None
    case Some(bytes) => Some(Unpack(bytes))
  }

  /** The token of the LZW path, or `None` when that path throws. */
  function LzwToken(s: string): Option<string> {
    NumbersToToken(LzwCompress(s))
  }

  /** The fallback token: `'b'` and the URL-safe base64 of the UTF-8 bytes. */
  function FallbackToken(s: string): (t: string)
    ensures |t| > 0 && t[0] == 'b'
  {
    "b" + ToToken(Btoa(Utf8.Encode(s)).value)
  }

  /**
   * `compressForUrl`. The innermost `catch` (returning `''`) cannot be reached:
   * `btoa` accepts every UTF-8 byte string. Every token is URL-safe.
   */
  function CompressForUrl(s: string): (t: string)
    ensures forall i :: 0 <= i < |t| ==> t[i] != '+' && t[i] != '/' && t[i] != '='
    ensures LzwToken(s).None? ==> |t| > 0 && t[0] == 'b'
  {
    match LzwToken(s)
    case Some(t) =>
      assert Btoa(CodeUnits(Pack(LzwCompress(s)))).Some?;
      TokenAlphabet(CodeUnits(Pack(LzwCompress(s))));
      t
    case None =>
      TokenAlphabet(Utf8.Encode(s));
      FallbackToken(s)
  }

  /** The fallback branch of `decompressFromUrl`, on the token without its `b`. */
  function DecodeFallback(rest: string): string {
    match Atob(FromToken(rest))
    case None => ""
    case Some(bytes) =>
      match Utf8.Decode(bytes)
      case None => ""
      case Some(s) => s
  }

  /** `decompressFromUrl`: every exception becomes `''`. */
  function DecompressFromUrl(t: string): (r: string)
    ensures JsString.StartsWith(t, "b") ==> r == DecodeFallback(t[1..])
    ensures !JsString.StartsWith(t, "b") && TokenToNumbers(t).None? ==> r == ""
    ensures !JsString.StartsWith(t, "b") && TokenToNumbers(t).Some? && LzwDecompress(TokenToNumbers(t).value).Err? ==> r == ""
  {
    if JsString.StartsWith(t, "b") then DecodeFallback(t[1..])
    else
      match TokenToNumbers(t)
      case None => ""
      case Some(nums) =>
        match LzwDecompress(nums)
        case Err(_) => ""
        case Ok(s) => s
  }

  // ---------------------------------------------------------------------------
  // The first character of a token
  // ---------------------------------------------------------------------------

  /** The token of `btoa` output starts with `b` exactly when the first byte is 108 to 111. */
  lemma TokenFirstChar(b: seq<int>)
    requires IsBytes(b) && |b| > 0
    ensures var t := ToToken(Btoa(b).value);
            |t| > 0 && (t[0] == 'b' <==> 108 <= b[0] < 112)
  {
    var d := EncodeDigits(b);
    var e := Btoa(b).value;
    assert e == d + Padding(|b|);
    assert d[0] == Digit(b[0] / 4);
    var u := ToUrlAlphabet(e);
    assert u[0] == (if d[0] == '+' then '-' else if d[0] == '/' then '_' else d[0]);
    assert u[0] != '=' by { assert 0 <= Value(d[0]); }
    var t := StripTrailingEquals(u);
    assert |t| > 0;
    assert t[0] == u[0];
    assert Value('b') == 27;
    assert d[0] == 'b' <==> b[0] / 4 == 27;
  }

  /** A code below 2^21, or `undefined`, packs into bytes. */
  lemma PackOneIsBytes(c: Code)
    requires c.Num? ==> c.n < 0x20_0000
    ensures IsBytes(PackOne(c))
  {
    if c.Num? {
      PackOneGroups(c.n);
      PackOneBytesBelow256(c.n);
    } else {
      PackUndefined();
    }
  }

  /** `String.fromCharCode` keeps byte values as they are. */
  lemma CodeUnitsOfBytes(b: seq<int>)
    requires IsBytes(b)
    ensures CodeUnits(b) == b
  {
  }

  /** The packed bytes of any code list whose numbers are below 2^21 are bytes. */
  lemma {:induction false} PackIsBytes(codes: seq<Code>)
    requires forall i :: 0 <= i < |codes| && codes[i].Num? ==> codes[i].n < 0x20_0000
    ensures IsBytes(Pack(codes))
    decreases |codes|
  {
    if |codes| > 0 {
      PackIsBytes(codes[1..]);
      PackOneIsBytes(codes[0]);
      var head, tail := PackOne(codes[0]), Pack(codes[1..]);
      assert Pack(codes) == head + tail;
      assert forall i :: 0 <= i < |head + tail| ==> (head + tail)[i] == if i < |head| then head[i] else tail[i - |head|];
    }
  }

  /** The first packed byte of a non-empty Latin-1 string's codes. */
  lemma FirstPackedByte(s: string)
    requires |s| > 0 && s[0] as int < 256
    ensures var bytes := Pack(LzwCompress(s));
            |bytes| > 0 && bytes[0] == (if s[0] as int < 128 then s[0] as int else 129)
  {
    var codes := LzwCompress(s);
    FirstCode(s);
    PackOneForm(s[0] as int);
    assert Pack(codes) == PackOne(codes[0]) + Pack(codes[1..]);
  }

  /** The first byte the LZW path packs for a non-empty text. */
  function FirstByte(s: string): int
    requires |s| > 0
  {
    if s[0] as int >= 256 then 128 else if s[0] as int < 128 then s[0] as int else 129
  }

  lemma FirstUnit(s: string)
    requires |s| > 0
    ensures |CodeUnits(Pack(LzwCompress(s)))| > 0
    ensures CodeUnits(Pack(LzwCompress(s)))[0] == FirstByte(s)
  {
    var codes := LzwCompress(s);
    if s[0] as int < 256 {
      FirstPackedByte(s);
    } else {
      PackUndefined();
      assert Pack(codes) == PackOne(codes[0]) + Pack(codes[1..]);
    }
  }

  /**
   * A non-empty text gets a token starting with `b` exactly when the LZW path
   * throws, or when its first character is one of `l`, `m`, `n`, `o` (whose
   * LZW token starts with the marker too).
   */
  lemma MarkerIff(s: string)
    requires |s| > 0
    ensures JsString.StartsWith(CompressForUrl(s), "b") <==> (LzwToken(s).None? || 'l' <= s[0] <= 'o')
  {
    if LzwToken(s).Some? {
      var units := CodeUnits(Pack(LzwCompress(s)));
      assert Btoa(units).Some?;
      var t := ToToken(Btoa(units).value);
      assert CompressForUrl(s) == t;
      FirstUnit(s);
      TokenStartsWithMarker(units);
      FirstByteMarker(s);
    }
  }

  lemma TokenStartsWithMarker(units: seq<int>)
    requires IsBytes(units) && |units| > 0
    ensures JsString.StartsWith(ToToken(Btoa(units).value), "b") <==> 108 <= units[0] < 112
  {
    TokenFirstChar(units);
  }

  lemma FirstByteMarker(s: string)
    requires |s| > 0
    ensures 108 <= FirstByte(s) < 112 <==> 'l' <= s[0] <= 'o'
  {
  }

  // ---------------------------------------------------------------------------
  // Round trips as written
  // ---------------------------------------------------------------------------

  /** The fallback branch decodes every fallback token back to its text. */
  lemma FallbackDecodes(s: string)
    ensures DecodeFallback(FallbackToken(s)[1..]) == s
    ensures DecompressFromUrl(FallbackToken(s)) == s
  {
    var e := Utf8.Encode(s);
    var t := FallbackToken(s);
    assert JsString.StartsWith(t, "b");
    assert t[1..] == ToToken(Btoa(e).value);
    TokenDecodes(e);
    Utf8.DecodeEncode(s);
  }

  /** When the LZW path throws, the share token round-trips. */
  lemma FallbackRoundTrip(s: string)
    requires LzwToken(s).None?
    ensures DecompressFromUrl(CompressForUrl(s)) == s
  {
    FallbackDecodes(s);
  }

  /** The bytes the decoder recovers from an LZW token are the packed bytes. */
  lemma LzwTokenBytes(s: string)
    requires forall i :: 0 <= i < |LzwCompress(s)| && LzwCompress(s)[i].Num? ==> LzwCompress(s)[i].n < 0x20_0000
    ensures LzwToken(s).Some?
    ensures Atob(FromToken(LzwToken(s).value)) == Some(Pack(LzwCompress(s)))
  {
    PackIsBytes(LzwCompress(s));
    CodeUnitsOfBytes(Pack(LzwCompress(s)));
    TokenDecodes(Pack(LzwCompress(s)));
  }

  /**
   * The round trip the codec promises holds when every LZW code is below 128
   * (no phrase was ever reused) and the token does not begin with the marker.
   */
  lemma SmallCodeRoundTrip(s: string)
    requires |s| > 0 && Latin1(s) && !('l' <= s[0] <= 'o')
    requires forall i :: 0 <= i < |LzwCompress(s)| ==> LzwCompress(s)[i].Num? && LzwCompress(s)[i].n < 128
    ensures DecompressFromUrl(CompressForUrl(s)) == s
  {
    var codes := LzwCompress(s);
    RoundTrip(s);
    LzwTokenBytes(s);
    MarkerIff(s);
    PackRoundTripSmall(codes);
  }

  /** The LZW codes of `"aaa"`: the phrase `aa` is entered as 256 and then reused. */
  lemma CompressTripleA()
    ensures LzwCompress("aaa") == [Num(97), Num(256)]
  {
    SeedCodesLookup('a');
    assert "aa" !in SeedCodes() by {
      if "aa" in SeedCodes() { SeedCodesKeys("aa"); }
    }
    var init := EncodeInit();
    var st1 := EncodeChar(init, 'a');
    assert init.w + ['a'] == "a";
    assert st1 == init.(w := "a");
    assert Encode("a") == st1 by { assert "a"[..0] == ""; }
    var st2 := EncodeChar(st1, 'a');
    assert st1.w + ['a'] == "aa";
    assert st2 == EncState(SeedCodes()["aa" := 256], 257, "a", [Num(97)]);
    assert Encode("aa") == st2 by { assert "aa"[..1] == "a"; }
    var st3 := EncodeChar(st2, 'a');
    assert st2.w + ['a'] == "aa";
    assert st3 == st2.(w := "aa");
    assert Encode("aaa") == st3 by { assert "aaa"[..2] == "aa"; }
  }

  /** The decoder reads the codes 97, 2 as `a` followed by U+0002. */
  lemma DecompressSwapped()
    ensures LzwDecompress([97, 2]) == Ok("a\U{2}")
  {
    var d0 := DecodeFirst(97);
    assert d0.w == "a" && d0.out == "a";
    assert SeedStrings()[2] == OneChar(2);
    assert d0.dict[2] == "\U{2}";
    assert [97, 2][..1] == [97];
    assert Decode([97, 2]) == DecodeStep(d0, 2);
    assert d0.out + "\U{2}" == "a\U{2}";
  }

  /**
   * As written, a text that reuses a dictionary phrase does not come back:
   * `"aaa"` compresses to the codes 97, 256, whose groups are read back in
   * the wrong order as 97, 2.
   */
  lemma PairCounterexample()
    ensures Unpack(Pack(LzwCompress("aaa"))) == [97, 2]
    ensures DecompressFromUrl(CompressForUrl("aaa")) == "a\U{2}"
  {
    var s := "aaa";
    CompressTripleA();
    var codes := LzwCompress(s);
    UnpackPack(codes);
    assert Swapped(Num(256)) == 2;
    assert Unpack(Pack(codes)) == [97, 2];
    LzwTokenBytes(s);
    MarkerIff(s);
    DecompressSwapped();
  }

  lemma PackOfL()
    ensures CodeUnits(Pack(LzwCompress("l"))) == [108]
  {
    CompressOfL();
    PackOf108();
  }

  lemma CompressOfL()
    ensures LzwCompress("l") == [Num(108)]
  {
    FirstCode("l");
  }

  lemma PackOf108()
    ensures CodeUnits(Pack([Num(108)])) == [108]
  {
    PackOneForm(108);
    assert Pack([Num(108)]) == [108];
  }

  lemma BtoaOfL()
    ensures Btoa([108]) == Some("bA==")
  {
    assert IsBytes([108]);
    assert Digit(27) == 'b' && Digit(0) == 'A';
    assert EncodeDigits([108]) == "bA";
    assert Padding(|[108]|) == "==";
    assert "bA" + "==" == "bA==";
  }

  lemma TokenOfL()
    ensures CompressForUrl("l") == "bA"
  {
    PackOfL();
    BtoaOfL();
    assert ToUrlAlphabet("bA==") == "bA==";
    assert StripTrailingEquals("bA==") == "bA";
    assert LzwToken("l") == Some("bA");
  }

  lemma DecodeBA()
    ensures DecompressFromUrl("bA") == ""
  {
    assert JsString.StartsWith("bA", "b");
    assert "bA"[1..] == "A";
    assert FromUrlAlphabet("A") == "A";
    assert FromToken("A") == "A===";
    assert RemoveAsciiWhitespace("A===") == "A===";
    assert StripPadding("A===") == "A=";
    assert Value('=') < 0;
    assert Atob("A===") == None;
  }

  /** A text starting with `l` comes back empty: its token takes the fallback branch. */
  lemma MarkerCounterexample()
    ensures CompressForUrl("l") == "bA"
    ensures DecompressFromUrl(CompressForUrl("l")) == ""
  {
    TokenOfL();
    DecodeBA();
  }

  /** The empty text compresses to the empty token, which decodes to one NUL character. */
  lemma EmptyText()
    ensures CompressForUrl("") == ""
    ensures DecompressFromUrl("") == "\0"
  {
    assert LzwCompress("") == [];
    assert Btoa([]) == Some("");
    assert FromToken("") == "";
    assert Atob("") == Some([]);
  }

  /** The codes of a text starting with U+0100: `dict.get('')` is `undefined`. */
  lemma CompressWideChar()
    ensures LzwCompress("\U{100}") == [Undefined, Num(256)]
  {
    var c := '\U{100}';
    assert [c] !in SeedCodes() by {
      if [c] in SeedCodes() { SeedCodesKeys([c]); }
    }
    assert "" !in SeedCodes() by {
      if "" in SeedCodes() { SeedCodesKeys(""); }
    }
    var init := EncodeInit();
    assert init.w + [c] == [c];
    var st := EncodeChar(init, c);
    assert st == EncState(SeedCodes()[[c] := 256], 257, [c], [Undefined]);
    assert Encode([c]) == st by { assert [c][..0] == ""; }
  }

  /**
   * As written, a character above U+00FF does not make the LZW path throw:
   * `dict.get` yields `undefined`, which packs and decodes as 0, so the text
   * U+0100 comes back as U+0000 U+0002.
   */
  lemma WideCharCounterexample()
    ensures LzwToken("\U{100}").Some?
    ensures DecompressFromUrl(CompressForUrl("\U{100}")) == "\0\U{2}"
  {
    var s := "\U{100}";
    UnpackWideChar();
    LzwTokenBytes(s);
    var t := LzwToken(s).value;
    assert !JsString.StartsWith(CompressForUrl(s), "b") by { MarkerIff(s); }
    assert CompressForUrl(s) == t;
    assert TokenToNumbers(t) == Some([0, 2]);
    DecompressZeroTwo();
  }

  lemma UnpackWideChar()
    ensures forall j :: 0 <= j < |LzwCompress("\U{100}")| && LzwCompress("\U{100}")[j].Num? ==> LzwCompress("\U{100}")[j].n < 0x20_0000
    ensures Unpack(Pack(LzwCompress("\U{100}"))) == [0, 2]
  {
    CompressWideChar();
    var codes: seq<Code> := [Undefined, Num(256)];
    UnpackPack(codes);
    assert Swapped(codes[0]) == 0 && Swapped(codes[1]) == 2;
  }

  /** The decoder reads the codes 0, 2 as U+0000 U+0002. */
  lemma DecompressZeroTwo()
    ensures LzwDecompress([0, 2]) == Ok("\0\U{2}")
  {
    var d0 := DecodeFirst(0);
    assert d0.w == "\0" && d0.out == "\0";
    assert SeedStrings()[2] == OneChar(2);
    assert d0.dict[2] == "\U{2}";
    assert [0, 2][..1] == [0];
    assert Decode([0, 2]) == DecodeStep(d0, 2);
    assert d0.out + "\U{2}" == "\0\U{2}";
  }

  // ---------------------------------------------------------------------------
  // The corrected codec
  // ---------------------------------------------------------------------------

  /** `compressForUrl` with the fallback also taken for text outside Latin-1. */
  function CompressForUrlFixed(s: string): (t: string)
    ensures !Latin1(s) ==> |t| > 0 && t[0] == 'b'
  {
    if Latin1(s) && LzwToken(s).Some? then LzwToken(s).value else FallbackToken(s)
  }

  /** `decompressFromUrl` reading each code's 7-bit groups most significant first. */
  function DecompressFromUrlFixed(t: string): string {
    if JsString.StartsWith(t, "b") then DecodeFallback(t[1..])
    else
      match Atob(FromToken(t))
      case None => ""
      case Some(bytes) =>
        match LzwDecompress(UnpackMsbFirst(bytes))
        case Err(_) => ""
        case Ok(s) => s
  }

  /** The empty token still decodes to one NUL character. */
  lemma EmptyFixed()
    ensures DecompressFromUrlFixed("") == "\0"
  {
    assert FromToken("") == "";
    assert Atob("") == Some([]);
    assert UnpackMsbFirst([]) == [];
  }

  /** Every LZW code of a Latin-1 text of fewer than 2^21 - 257 characters is below 2^21. */
  lemma CodesBelow(s: string)
    requires |s| > 0 && Latin1(s) && |s| + 257 <= 0x20_0000
    ensures forall j :: 0 <= j < |LzwCompress(s)| ==> LzwCompress(s)[j].Num? && LzwCompress(s)[j].n < 0x20_0000
  {
    RoundTrip(s);
  }

  /**
   * The corrected codec round-trips every non-empty text of fewer than
   * 2^21 - 257 characters that does not start with `l`, `m`, `n` or `o`
   * (a share payload is JSON text and starts with `{`).
   */
  lemma FixedRoundTrip(s: string)
    requires |s| > 0 && !('l' <= s[0] <= 'o') && |s| + 257 <= 0x20_0000
    ensures DecompressFromUrlFixed(CompressForUrlFixed(s)) == s
  {
    if Latin1(s) {
      var codes := LzwCompress(s);
      CodesBelow(s);
      RoundTrip(s);
      LzwTokenBytes(s);
      var t := LzwToken(s).value;
      assert CompressForUrlFixed(s) == t;
      MarkerIff(s);
      assert CompressForUrl(s) == t;
      UnpackMsbFirstPack(codes);
    } else {
      FallbackDecodes(s);
    }
  }
}
