/**
 * The LZW codec of the share token (`lzwCompress` / `lzwDecompress`).
 *
 * Both sides start from a dictionary seeded with the 256 one-character
 * strings of code point 0..255 and grow it by one entry per emitted
 * (respectively consumed) code; the dictionary lives for one call only.
 */
module Lzw {
  import opened Wrappers

  /**
   * One value the encoder pushes: a dictionary code, or `Undefined` when the
   * current phrase was never entered into the dictionary (`dict.get(w)` of a
   * missing key, which happens for characters above 255).
   */
  datatype Code = Num(n: nat) | Undefined

  /** The encoder's seed: the one-character string of code point `i` has code `i`. */
  function SeedCodes(): map<string, nat> {
    map i: nat | i in SeedStrings() :: SeedStrings()[i] := i
  }

  /** The one-character string of code point `i`. */
  function OneChar(i: int): string
    requires 0 <= i < 256
  {
    [i as char]
  }

  /** The decoder's seed: code `i` stands for the one-character string of code point `i`. */
  function SeedStrings(): map<int, string> {
    map i: int | 0 <= i < 256 :: OneChar(i)
  }

  lemma SeedCodesLookup(c: char)
    requires c as int < 256
    ensures [c] in SeedCodes() && SeedCodes()[[c]] == c as int
  {
    var i: nat := c as int;
    assert [i as char] == [c];
  }

  lemma SeedCodesKeys(x: string)
    requires x in SeedCodes()
    ensures |x| == 1 && x[0] as int < 256 && SeedCodes()[x] == x[0] as int
  {
  }

  // ---------------------------------------------------------------------------
  // Encoder
  // ---------------------------------------------------------------------------

  /** The encoder's loop state: dictionary, next free code, current phrase `w`, codes pushed so far. */
  datatype EncState = EncState(dict: map<string, nat>, size: nat, w: string, out: seq<Code>)

  function EncodeInit(): EncState {
    EncState(SeedCodes(), 256, "", [])
  }

  /** `dict.get(w)`. */
  function Lookup(dict: map<string, nat>, w: string): Code {
    if w in dict then Num(dict[w]) else Undefined
  }

  /** One iteration of the encoder's `for (const c of str)` loop. */
  function EncodeChar(st: EncState, c: char): EncState {
    var wc := st.w + [c];
    if wc in st.dict then st.(w := wc)
    else EncState(st.dict[wc := st.size], st.size + 1, [c], st.out + [Lookup(st.dict, st.w)])
  }

  /**
   * The encoder state after consuming `s`. Every code pushed is below the
   * dictionary size at the moment it was pushed: the `j`-th code is below `256 + j`.
   */
  function Encode(s: string): (st: EncState)
    ensures st.size == 256 + |st.out|
    ensures forall x :: x in st.dict ==> st.dict[x] < st.size
    ensures forall j :: 0 <= j < |st.out| && st.out[j].Num? ==> st.out[j].n < 256 + j
    ensures (st.w == []) <==> (s == [])
    ensures |s| > 0 && s[0] as int >= 256 ==> |st.out| > 0 && st.out[0] == Undefined
    ensures |st.out| <= |s|
    decreases |s|
  {
    if |s| == 0 then EncodeInit()
    else
      var prev := Encode(s[..|s| - 1]);
      assert |s| > 1 ==> s[..|s| - 1][0] == s[0];
      assert |s| == 1 ==> prev == EncodeInit() by {
        if |s| == 1 { assert s[..|s| - 1] == []; }
      }
      assert [s[0]] in SeedCodes() ==> s[0] as int < 256 by {
        if [s[0]] in SeedCodes() { SeedCodesKeys([s[0]]); }
      }
      assert "" !in SeedCodes() by {
        if "" in SeedCodes() { SeedCodesKeys(""); }
      }
      var st := EncodeChar(prev, s[|s| - 1]);
      assert s[0] as int >= 256 ==> |st.out| > 0 && st.out[0] == Undefined by {
        if s[0] as int >= 256 {
          if |s| == 1 {
            assert [s[|s| - 1]] !in SeedCodes();
            assert prev.w + [s[|s| - 1]] == [s[|s| - 1]];
            assert st.out == [Lookup(SeedCodes(), "")];
          } else {
            assert prev.out[0] == Undefined;
            assert st.out[..|prev.out|] == prev.out;
          }
        }
      }
      st
  }

  /** `lzwCompress`: the loop, then the final flush of a non-empty `w`. */
  function LzwCompress(s: string): (codes: seq<Code>)
    ensures s == [] <==> codes == []
    ensures forall j :: 0 <= j < |codes| && codes[j].Num? ==> codes[j].n < 256 + j
    ensures |codes| > 0 && codes[0].Num? ==> codes[0].n < 256
    ensures |s| > 0 && s[0] as int >= 256 ==> codes[0] == Undefined
    ensures |codes| <= |s| + 1
  {
    var st := Encode(s);
    if st.w != [] then st.out + [Lookup(st.dict, st.w)] else st.out
  }

  /**
   * Before the first code is pushed the dictionary is still the seed; once
   * it is pushed, the first code of a string starting with a character
   * below 256 is that character's code point.
   */
  lemma {:induction false} EncodeFirst(s: string)
    ensures |Encode(s).out| == 0 ==> Encode(s).dict == SeedCodes() && Encode(s).w == s
    ensures |s| > 0 && s[0] as int < 256 && |Encode(s).out| > 0 ==> Encode(s).out[0] == Num(s[0] as int)
    decreases |s|
  {
    if |s| > 0 {
      var init := s[..|s| - 1];
      var c := s[|s| - 1];
      EncodeFirst(init);
      var prev := Encode(init);
      assert Encode(s) == EncodeChar(prev, c);
      if |init| > 0 {
        assert init[0] == s[0];
        if |prev.out| == 0 {
          var wc := prev.w + [c];
          assert |wc| == 2;
          assert wc !in SeedCodes() by {
            if wc in SeedCodes() { SeedCodesKeys(wc); }
          }
          if init[0] as int < 256 {
            SeedCodesLookup(init[0]);
            assert prev.w == [init[0]];
          }
        }
      } else {
        assert prev == EncodeInit();
        assert prev.w + [c] == [c];
        if c as int < 256 { SeedCodesLookup(c); }
      }
    }
  }

  /** The first code of a non-empty string starting with a character below 256 is that character's code point. */
  lemma FirstCode(s: string)
    requires |s| > 0 && s[0] as int < 256
    ensures LzwCompress(s)[0] == Num(s[0] as int)
  {
    EncodeFirst(s);
    var st := Encode(s);
    if |st.out| == 0 {
      assert |s| == 1 by {
        if st.w in SeedCodes() { SeedCodesKeys(st.w); }
      }
      assert s == [s[0]];
      SeedCodesLookup(s[0]);
    }
  }

  // ---------------------------------------------------------------------------
  // Decoder
  // ---------------------------------------------------------------------------

  /**
   * `String.fromCharCode(k)`: the UTF-16 code unit `k mod 65536`. A lone
   * surrogate unit is not a Unicode scalar value; the model yields U+FFFD there.
   */
  function FromCharCode(k: int): char {
    var u := k % 65536;
    if 0xD800 <= u < 0xE000 then '\U{FFFD}' else u as char
  }

  /** The decoder's loop state: dictionary, next free code, previous entry `w`, text so far. */
  datatype DecState = DecState(dict: map<int, string>, size: nat, w: string, out: string)

  /** The shape every reachable decoder state has. */
  ghost predicate ValidDec(st: DecState) {
    && (forall k :: k in st.dict <==> 0 <= k < st.size)
    && (forall k :: k in st.dict ==> |st.dict[k]| > 0)
    && |st.w| > 0
  }

  /** Before the loop: `w` and the result are `String.fromCharCode(compressed[0])`. */
  function DecodeFirst(k: int): (st: DecState)
    ensures ValidDec(st) && st.size == 256
  {
    var w := [FromCharCode(k)];
    DecState(SeedStrings(), 256, w, w)
  }

  /**
   * One iteration of the decoder's loop. It throws exactly when the code is
   * neither in the dictionary nor the next free code.
   */
  function DecodeStep(st: DecState, k: int): (r: Result<DecState>)
    requires ValidDec(st)
    ensures r.Err? <==> !(k in st.dict || k == st.size)
    ensures r.Err? <==> !(0 <= k <= st.size)
    ensures r.Ok? ==> ValidDec(r.value) && r.value.size == st.size + 1
    ensures r.Ok? ==> |r.value.out| > |st.out| && r.value.out[..|st.out|] == st.out
  {
    var entry :=
      if k in st.dict then st.dict[k]
      else if k == st.size then st.w + [st.w[0]]
      else "";
    if entry == "" then Err("Invalid compressed data")
    else
      var nst := DecState(st.dict[st.size := st.w + [entry[0]]], st.size + 1, entry, st.out + entry);
      assert nst.out[..|st.out|] == st.out;
      Ok(nst)
  }

  /** The decoder state after consuming the non-empty code sequence `codes`. */
  function Decode(codes: seq<int>): (r: Result<DecState>)
    requires |codes| > 0
    ensures r.Ok? ==> ValidDec(r.value) && r.value.size == 255 + |codes|
    decreases |codes|
  {
    if |codes| == 1 then Ok(DecodeFirst(codes[0]))
    else
      match Decode(codes[..|codes| - 1])
      case Err(e) => Err(e)
      case Ok(st) => DecodeStep(st, codes[|codes| - 1])
  }

  /**
   * `lzwDecompress`. On an empty array `compressed[0]` is `undefined` and
   * `String.fromCharCode(undefined)` is U+0000, so the result is that one character.
   */
  function LzwDecompress(codes: seq<int>): (r: Result<string>)
    ensures codes == [] ==> r == Ok("\0")
  {
    if |codes| == 0 then Ok([FromCharCode(0)])
    else
      match Decode(codes)
      case Err(e) => Err(e)
      case Ok(st) => Ok(st.out)
  }

  /**
   * The decoder fails exactly when some code after the first is negative or
   * above the next free code at its position (`255 + i` for the `i`-th code).
   */
  lemma {:induction false} DecodeSucceedsIff(codes: seq<int>)
    requires |codes| > 0
    ensures Decode(codes).Ok? <==> forall i :: 1 <= i < |codes| ==> 0 <= codes[i] <= 255 + i
    decreases |codes|
  {
    if |codes| > 1 {
      var init := codes[..|codes| - 1];
      DecodeSucceedsIff(init);
      assert forall i :: 1 <= i < |init| ==> init[i] == codes[i];
    }
  }

  // ---------------------------------------------------------------------------
  // Round trip
  // ---------------------------------------------------------------------------

  /** The code values of a code sequence that holds no `Undefined`. */
  function Numbers(codes: seq<Code>): (r: seq<int>)
    requires forall j :: 0 <= j < |codes| ==> codes[j].Num?
    ensures |r| == |codes| && forall j :: 0 <= j < |codes| ==> r[j] == codes[j].n
  {
    seq(|codes|, j requires 0 <= j < |codes| => codes[j].n)
  }

  predicate Latin1(s: string) {
    forall i :: 0 <= i < |s| ==> s[i] as int < 256
  }

  ghost predicate Injective(d: map<string, nat>) {
    forall x, y :: x in d && y in d && d[x] == d[y] ==> x == y
  }

  ghost predicate SeedIn(d: map<string, nat>) {
    forall c: char :: c as int < 256 ==> [c] in d && d[[c]] == c as int
  }

  /**
   * How the encoder state after `s` relates to the decoder state after the
   * codes emitted so far: the decoder lags one dictionary entry behind, and
   * that pending entry is its previous phrase plus the first character of
   * the encoder's current phrase.
   */
  ghost predicate Agrees(st: EncState, dec: DecState, s: string)
    requires |st.w| > 0
  {
    && ValidDec(dec)
    && dec.size + 1 == st.size
    && dec.out + st.w == s
    && (forall k :: k in dec.dict ==> dec.dict[k] in st.dict && st.dict[dec.dict[k]] == k)
    && dec.w + [st.w[0]] in st.dict
    && st.dict[dec.w + [st.w[0]]] == dec.size
  }

  /** The encoder invariant behind the round trip. */
  ghost predicate Inv(s: string, st: EncState) {
    && st.size == 256 + |st.out|
    && (forall x :: x in st.dict ==> st.dict[x] < st.size)
    && Injective(st.dict)
    && SeedIn(st.dict)
    && |st.w| > 0 && st.w in st.dict
    && (forall j :: 0 <= j < |st.out| ==> st.out[j].Num?)
    && (|st.out| == 0 ==> st.dict == SeedCodes() && st.w == s)
    && (|st.out| > 0 ==>
          Decode(Numbers(st.out)).Ok? && Agrees(st, Decode(Numbers(st.out)).value, s))
  }

  lemma SeedInSeed()
    ensures SeedIn(SeedCodes())
    ensures Injective(SeedCodes())
  {
    forall c: char | c as int < 256
      ensures [c] in SeedCodes() && SeedCodes()[[c]] == c as int
    {
      SeedCodesLookup(c);
    }
  }

  lemma NumbersAppend(out: seq<Code>, n: nat)
    requires forall j :: 0 <= j < |out| ==> out[j].Num?
    ensures forall j :: 0 <= j < |out + [Num(n)]| ==> (out + [Num(n)])[j].Num?
    ensures Numbers(out + [Num(n)]) == Numbers(out) + [n]
    ensures Numbers(out + [Num(n)])[..|out|] == Numbers(out)
  {
  }

  /** The first code: the decoder reproduces the encoder's one-character phrase. */
  lemma DecodeFirstOfPhrase(w: string)
    requires w in SeedCodes()
    ensures DecodeFirst(SeedCodes()[w]) == DecState(SeedStrings(), 256, w, w)
  {
    SeedCodesKeys(w);
    assert [FromCharCode(SeedCodes()[w])] == w;
  }

  /**
   * A later code: the decoder reads back exactly the phrase `st.w` the
   * encoder emitted, and enters the pending entry.
   */
  lemma DecodeEmitted(st: EncState, dec: DecState, s: string)
    requires |st.w| > 0 && st.w in st.dict
    requires (forall x :: x in st.dict ==> st.dict[x] < st.size)
    requires Injective(st.dict)
    requires Agrees(st, dec, s)
    ensures DecodeStep(dec, st.dict[st.w])
         == Ok(DecState(dec.dict[dec.size := dec.w + [st.w[0]]], dec.size + 1, st.w, dec.out + st.w))
  {
    var k := st.dict[st.w];
    var pending := dec.w + [st.w[0]];
    if k < dec.size {
      assert k in dec.dict;
      assert st.dict[dec.dict[k]] == k;
    } else {
      assert k == dec.size;
      assert st.dict[pending] == st.dict[st.w];
      assert st.w == pending;
      assert st.w[0] == dec.w[0];
    }
  }

  /** The encoder's loop step preserves the invariant when the phrase grows. */
  lemma StepExtends(s: string, st: EncState, c: char)
    requires Inv(s, st) && c as int < 256
    requires st.w + [c] in st.dict
    ensures Inv(s + [c], EncodeChar(st, c))
  {
    var wc := st.w + [c];
    assert |st.out| == 0 ==> wc !in st.dict by {
      if |st.out| == 0 && wc in st.dict { SeedCodesKeys(wc); }
    }
    var st' := EncodeChar(st, c);
    assert st' == st.(w := wc);
    var dec := Decode(Numbers(st.out)).value;
    assert dec.out + wc == s + [c];
    assert wc[0] == st.w[0];
  }

  /** The encoder's loop step preserves the invariant when it emits a code. */
  lemma StepEmits(s: string, st: EncState, c: char)
    requires Inv(s, st) && c as int < 256
    requires st.w + [c] !in st.dict
    ensures Inv(s + [c], EncodeChar(st, c))
  {
    var wc := st.w + [c];
    var k := st.dict[st.w];
    var d' := st.dict[wc := st.size];
    var st' := EncodeChar(st, c);
    assert st' == EncState(d', st.size + 1, [c], st.out + [Num(k)]);
    NumbersAppend(st.out, k);
    var codes' := Numbers(st.out) + [k];
    assert Injective(d');
    assert SeedIn(d') by {
      forall ch: char | ch as int < 256 ensures [ch] in d' && d'[[ch]] == ch as int {
        assert [ch] in st.dict;
      }
    }
    if |st.out| == 0 {
      DecodeFirstOfPhrase(st.w);
      assert codes' == [k];
      var dec' := DecState(SeedStrings(), 256, st.w, st.w);
      assert Decode(codes') == Ok(dec');
      forall j | j in dec'.dict
        ensures dec'.dict[j] in d' && d'[dec'.dict[j]] == j
      {
        SeedCodesLookup(j as char);
        assert dec'.dict[j] == [j as char];
      }
      assert Agrees(st', dec', s + [c]);
    } else {
      var dec := Decode(Numbers(st.out)).value;
      DecodeEmitted(st, dec, s);
      assert codes'[..|codes'| - 1] == Numbers(st.out);
      var dec' := DecState(dec.dict[dec.size := dec.w + [st.w[0]]], dec.size + 1, st.w, dec.out + st.w);
      assert Decode(codes') == Ok(dec');
      assert dec'.w + [st'.w[0]] == wc;
      forall j | j in dec'.dict
        ensures dec'.dict[j] in d' && d'[dec'.dict[j]] == j
      {
        if j < dec.size {
          assert dec'.dict[j] == dec.dict[j];
        }
      }
      assert Agrees(st', dec', s + [c]);
    }
  }

  /** The invariant holds after every non-empty Latin-1 prefix. */
  lemma {:induction false} EncodeInv(s: string)
    requires |s| > 0 && Latin1(s)
    ensures Inv(s, Encode(s))
    decreases |s|
  {
    var init := s[..|s| - 1];
    var c := s[|s| - 1];
    assert s == init + [c];
    if |init| == 0 {
      SeedInSeed();
      SeedCodesLookup(c);
      assert Encode(s) == EncState(SeedCodes(), 256, [c], []);
    } else {
      assert Latin1(init);
      EncodeInv(init);
      var st := Encode(init);
      if st.w + [c] in st.dict {
        StepExtends(init, st, c);
      } else {
        StepEmits(init, st, c);
      }
    }
  }

  /**
   * `lzwDecompress(lzwCompress(s)) == s` for every non-empty string whose
   * characters are all below 256; every code emitted is then a number.
   */
  lemma RoundTrip(s: string)
    requires |s| > 0 && Latin1(s)
    ensures forall j :: 0 <= j < |LzwCompress(s)| ==> LzwCompress(s)[j].Num?
    ensures LzwDecompress(Numbers(LzwCompress(s))) == Ok(s)
  {
    EncodeInv(s);
    var st := Encode(s);
    var k := st.dict[st.w];
    var codes := LzwCompress(s);
    assert codes == st.out + [Num(k)];
    NumbersAppend(st.out, k);
    if |st.out| == 0 {
      DecodeFirstOfPhrase(st.w);
      assert Numbers(codes) == [k];
    } else {
      var dec := Decode(Numbers(st.out)).value;
      DecodeEmitted(st, dec, s);
      assert Numbers(codes)[..|Numbers(codes)| - 1] == Numbers(st.out);
    }
  }
}
