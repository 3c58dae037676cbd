/**
 * The variable-length packing of LZW codes into bytes (`numbersToBase64`
 * before `btoa`, and `base64ToNumbers` after `atob`).
 *
 * The encoder writes a code's 7-bit groups most significant first, setting
 * bit 7 on every group but the last. The decoder ORs the first group it reads
 * in at shift 0, the little-endian reading, so the groups of a multi-byte
 * code come back in reverse order.
 *
 * JavaScript's bitwise operators work on 32-bit integers; the model spells
 * that out: `ToInt32`, shifts that wrap modulo 2^32, and OR on the unsigned
 * 32-bit representation.
 */
module Packing {
  import opened Lzw

  const Two32: int := 0x1_0000_0000
  const Two31: int := 0x8000_0000

  function Pow2(k: nat): (r: nat)
    ensures r >= 1
  {
    if k == 0 then 1 else 2 * Pow2(k - 1)
  }

  /** ECMAScript `ToInt32` on an integral number. */
  function ToInt32(x: int): (r: int)
    ensures -Two31 <= r < Two31
    ensures (r - x) % Two32 == 0
  {
    var u := x % Two32;
    if u >= Two31 then u - Two32 else u
  }

  /** `x >> k` (sign-propagating) for `0 <= k < 32`. */
  function Sar(x: int, k: nat): int {
    ToInt32(x) / Pow2(k)
  }

  /** `x & 0x7f`. */
  function Low7(x: int): (r: nat)
    ensures r < 128
  {
    x % 128
  }

  /** `(x & 0x80) != 0`. */
  predicate HighBit(x: int) {
    x % 256 >= 128
  }

  /** `x | 0x80`, as an int32 value. */
  function Or80(x: int): (r: int)
    ensures HighBit(r)
  {
    var v := ToInt32(x);
    if HighBit(v) then v else v + 128
  }

  /**
   * The bytes one pushed value becomes. `undefined` fails both `< 128` and
   * `< 16384`, and every bitwise operator reads it as 0, so it packs as the
   * three-byte form of 0. Every byte but the last has bit 7 set and the last
   * has it clear, which is where a reader stops.
   */
  function PackOne(c: Code): (r: seq<int>)
    ensures 1 <= |r| <= 3
    ensures forall i :: 0 <= i < |r| - 1 ==> HighBit(r[i])
    ensures 0 <= r[|r| - 1] < 128
  {
    match c
    case Undefined => [Or80(Sar(0, 14)), Or80(Low7(Sar(0, 7))), Low7(0)]
    case Num(n) =>
      if n < 128 then [n]
      else if n < 16384 then [Or80(Sar(n, 7)), Low7(n)]
      else [Or80(Sar(n, 14)), Or80(Low7(Sar(n, 7))), Low7(n)]
  }

  /** The byte sequence of `numbersToBase64`, before `String.fromCharCode` and `btoa`. */
  function Pack(codes: seq<Code>): (bytes: seq<int>)
    ensures |codes| <= |bytes| <= 3 * |codes|
  {
    if |codes| == 0 then [] else PackOne(codes[0]) + Pack(codes[1..])
  }

  // ---------------------------------------------------------------------------
  // Packing: the shape of the bytes
  // ---------------------------------------------------------------------------

  lemma Pow2Facts()
    ensures Pow2(0) == 1 && Pow2(7) == 128 && Pow2(14) == 16384
  {
  }

  lemma Int32Small(x: int)
    requires 0 <= x < Two31
    ensures ToInt32(x) == x
  {
  }

  /** `x | 0x80` for a non-negative int32 `x`: it adds 128 below 128, keeps 128..255, and never shrinks. */
  lemma Or80Facts(x: int)
    requires 0 <= x < Two31
    ensures x < 128 ==> Or80(x) == x + 128
    ensures 128 <= x < 256 ==> Or80(x) == x
    ensures x <= Or80(x) <= x + 128
  {
    Int32Small(x);
  }

  lemma SarFacts(n: nat)
    requires n < Two31
    ensures Sar(n, 7) == n / 128 && Sar(n, 14) == n / 16384
  {
    Pow2Facts();
    Int32Small(n);
  }

  lemma PackOneTwoBytes(n: nat)
    requires 128 <= n < 16384
    ensures PackOne(Num(n)) == [n / 128 + 128, n % 128]
  {
    SarFacts(n);
    Or80Facts(n / 128);
  }

  lemma PackOneThreeBytes(n: nat)
    requires 16384 <= n < Two31
    ensures PackOne(Num(n)) == [Or80(n / 16384), (n / 128) % 128 + 128, n % 128]
  {
    SarFacts(n);
    Or80Facts((n / 128) % 128);
  }

  /** `HighBit` on a value in 0..255 is the comparison with 128. */
  lemma HighBitByte(x: int)
    requires 0 <= x < 256
    ensures HighBit(x) <==> x >= 128
  {
  }

  /**
   * A packed code below 2^31: one byte below 128, two bytes `[(n>>7)|0x80,
   * n&0x7f]` below 16384, else three bytes, high group first.
   */
  lemma PackOneForm(n: nat)
    requires n < Two31
    ensures n < 128 ==> PackOne(Num(n)) == [n]
    ensures 128 <= n < 16384 ==> PackOne(Num(n)) == [n / 128 + 128, n % 128]
    ensures 16384 <= n ==>
              PackOne(Num(n)) == [Or80(n / 16384), (n / 128) % 128 + 128, n % 128]
  {
    if 16384 <= n {
      PackOneThreeBytes(n);
    } else if 128 <= n {
      PackOneTwoBytes(n);
    }
  }

  /** Below 2^21 the leading group of a three-byte code is below 128, so `| 0x80` adds 128. */
  lemma PackOneThreeBytesSmall(n: nat)
    requires 16384 <= n < 0x20_0000
    ensures PackOne(Num(n)) == [n / 16384 + 128, (n / 128) % 128 + 128, n % 128]
  {
    PackOneThreeBytes(n);
    Or80Facts(n / 16384);
  }

  /** Bit 7 is set on every byte but the last, which has it clear; no byte is negative. */
  ghost predicate GroupShaped(b: seq<int>) {
    && |b| > 0
    && (forall i :: 0 <= i < |b| - 1 ==> HighBit(b[i]))
    && !HighBit(b[|b| - 1])
    && (forall i :: 0 <= i < |b| ==> 0 <= b[i])
  }

  lemma ShapedThree(x: int, y: int, z: int)
    requires 0 <= x && HighBit(x) && 128 <= y < 256 && 0 <= z < 128
    ensures GroupShaped([x, y, z])
  {
    HighBitByte(y);
    HighBitByte(z);
  }

  /** Every byte of a packed code but the last has bit 7 set, and the last has it clear. */
  lemma PackOneGroups(n: nat)
    requires n < Two31
    ensures GroupShaped(PackOne(Num(n)))
  {
    var b := PackOne(Num(n));
    var g0 := n % 128;
    HighBitByte(g0);
    if 16384 <= n {
      var hi := n / 16384;
      var g1 := (n / 128) % 128;
      PackOneThreeBytes(n);
      assert HighBit(Or80(hi)) && Or80(hi) >= 0 by {
        Or80Facts(hi);
        Int32Small(hi);
      }
      ShapedThree(Or80(hi), g1 + 128, g0);
    } else if 128 <= n {
      var g1 := n / 128;
      PackOneTwoBytes(n);
      HighBitByte(g1 + 128);
    }
  }

  /** Every byte of a packed code is below 256 exactly when the code is below 2^22. */
  lemma PackOneBytesBelow256(n: nat)
    requires n < Two31
    ensures (forall i :: 0 <= i < |PackOne(Num(n))| ==> PackOne(Num(n))[i] < 256) <==> n < 0x40_0000
  {
    var b := PackOne(Num(n));
    if 16384 <= n {
      var hi := n / 16384;
      var g1 := (n / 128) % 128;
      PackOneThreeBytes(n);
      assert b == [Or80(hi), g1 + 128, n % 128];
      Or80Facts(hi);
      assert hi < 256 <==> n < 0x40_0000;
      assert b[0] < 256 <==> hi < 256;
    } else if 128 <= n {
      PackOneTwoBytes(n);
    }
  }

  lemma PackUndefined()
    ensures PackOne(Undefined) == [128, 128, 0]
  {
    Pow2Facts();
  }

  // ---------------------------------------------------------------------------
  // Unpacking as written
  // ---------------------------------------------------------------------------

  /** Bitwise OR of two non-negative integers. */
  function BitOr(a: nat, b: nat): (r: nat)
    decreases a + b
  {
    if a == 0 then b
    else if b == 0 then a
    else 2 * BitOr(a / 2, b / 2) + (if a % 2 == 1 || b % 2 == 1 then 1 else 0)
  }

  /** `x << s` as an unsigned 32-bit pattern (the shift count is taken modulo 32). */
  function Shl(x: int, s: nat): (r: nat)
    ensures r < Two32
  {
    (x * Pow2(s % 32)) % Two32
  }

  /** `bytes[i]`, where reading past the end yields `undefined`, which the operators read as 0. */
  function ByteAt(bytes: seq<int>, i: nat): int {
    if i < |bytes| then bytes[i] else 0
  }

  /**
   * The inner loop of `base64ToNumbers` from index `i`, with `shift` groups
   * read into `acc`: it returns the OR of every group and the index after
   * the terminating byte.
   */
  function ReadGroup(bytes: seq<int>, i: nat, shift: nat, acc: nat): (r: (nat, nat))
    ensures r.1 > i
    decreases |bytes| - i
  {
    if i < |bytes| && HighBit(bytes[i]) then
      ReadGroup(bytes, i + 1, shift + 1, BitOr(acc, Shl(Low7(bytes[i]), 7 * shift)))
    else (BitOr(acc, Shl(ByteAt(bytes, i), 7 * shift)), i + 1)
  }

  /** The outer loop of `base64ToNumbers` from index `i`. */
  function UnpackFrom(bytes: seq<int>, i: nat): (r: seq<int>)
    ensures i <= |bytes| ==> |r| <= |bytes| - i
    ensures i < |bytes| ==> |r| > 0
    ensures forall k :: 0 <= k < |r| ==> -Two31 <= r[k] < Two31
    decreases |bytes| - i
  {
    if i >= |bytes| then []
    else
      var g := ReadGroup(bytes, i, 0, 0);
      [ToInt32(g.0)] + UnpackFrom(bytes, g.1)
  }

  /**
   * `base64ToNumbers` after `atob`: at most one number per byte, at least one
   * for a non-empty input, and each an int32 value, as `|=` and `<<` leave it.
   */
  function Unpack(bytes: seq<int>): (r: seq<int>)
    ensures |r| <= |bytes|
    ensures |bytes| > 0 ==> |r| > 0
    ensures forall k :: 0 <= k < |r| ==> -Two31 <= r[k] < Two31
  {
    UnpackFrom(bytes, 0)
  }

  /** What `Unpack` gives back for one packed code: its 7-bit groups in reverse order. */
  function Swapped(c: Code): nat {
    match c
    case Undefined => 0
    case Num(n) =>
      if n < 128 then n
      else if n < 16384 then n / 128 + 128 * (n % 128)
      else (n / 16384) % 128 + 128 * ((n / 128) % 128) + 16384 * (n % 128)
  }

  lemma {:induction false} OrDisjoint(a: nat, b: nat, k: nat)
    requires a < Pow2(k)
    ensures BitOr(a, b * Pow2(k)) == a + b * Pow2(k)
    decreases k
  {
    if k > 0 && a != 0 && b != 0 {
      var B := b * Pow2(k);
      assert B == 2 * (b * Pow2(k - 1));
      assert B / 2 == b * Pow2(k - 1) && B % 2 == 0;
      OrDisjoint(a / 2, b, k - 1);
    }
  }

  lemma OrZero(b: nat)
    ensures BitOr(0, b) == b
  {
  }

  /** `x << 0`, `x << 7` and `x << 14` of a 7-bit group do not wrap. */
  lemma ShlGroup(x: nat, k: nat)
    requires k == 0 || k == 7 || k == 14
    requires x < 128
    ensures Shl(x, k) == x * Pow2(k)
  {
    Pow2Facts();
  }

  /** One step of the inner loop on a byte with bit 7 set. */
  lemma ReadMore(bytes: seq<int>, i: nat, shift: nat, acc: nat)
    requires i < |bytes| && HighBit(bytes[i])
    ensures ReadGroup(bytes, i, shift, acc)
         == ReadGroup(bytes, i + 1, shift + 1, BitOr(acc, Shl(Low7(bytes[i]), 7 * shift)))
  {
  }

  /** The last step of the inner loop, on a byte with bit 7 clear. */
  lemma ReadLast(bytes: seq<int>, i: nat, shift: nat, acc: nat)
    requires i < |bytes| && !HighBit(bytes[i])
    ensures ReadGroup(bytes, i, shift, acc) == (BitOr(acc, Shl(bytes[i], 7 * shift)), i + 1)
  {
  }

  lemma OneGroup(bs: seq<int>, g0: nat)
    requires g0 < 128 && bs == [g0]
    ensures ReadGroup(bs, 0, 0, 0) == (g0, 1)
  {
    HighBitByte(g0);
    ReadLast(bs, 0, 0, 0);
    ShlGroup(g0, 0);
    Pow2Facts();
    OrZero(g0);
  }

  /** Two bytes `[hi | 0x80, lo]` read back as `hi + 128 * lo`. */
  lemma TwoGroups(bs: seq<int>, hi: nat, lo: nat)
    requires hi < 128 && lo < 128
    requires bs == [hi + 128, lo]
    ensures ReadGroup(bs, 0, 0, 0) == (hi + 128 * lo, 2)
  {
    HighBitByte(hi + 128);
    assert Low7(hi + 128) == hi;
    ShlGroup(hi, 0);
    Pow2Facts();
    OrZero(hi);
    ReadMore(bs, 0, 0, 0);
    assert ReadGroup(bs, 0, 0, 0) == ReadGroup(bs, 1, 1, hi);
    HighBitByte(lo);
    ReadLast(bs, 1, 1, hi);
    ShlGroup(lo, 7);
    OrDisjoint(hi, lo, 7);
  }

  /** The first two of three groups: `g2` at shift 0, then `g1` at shift 7. */
  lemma ThreeGroupsPrefix(bs: seq<int>, g2: nat, g1: nat, g0: nat)
    requires g2 < 128 && g1 < 128 && g0 < 128
    requires bs == [g2 + 128, g1 + 128, g0]
    ensures ReadGroup(bs, 0, 0, 0) == ReadGroup(bs, 2, 2, g2 + g1 * 128)
  {
    HighBitByte(g2 + 128);
    assert Low7(g2 + 128) == g2;
    ShlGroup(g2, 0);
    Pow2Facts();
    OrZero(g2);
    ReadMore(bs, 0, 0, 0);
    HighBitByte(g1 + 128);
    assert Low7(g1 + 128) == g1;
    ShlGroup(g1, 7);
    OrDisjoint(g2, g1, 7);
    ReadMore(bs, 1, 1, g2);
  }

  /** Three bytes `[g2 | 0x80, g1 | 0x80, g0]` read back as `g2 + 128 * g1 + 16384 * g0`. */
  lemma ThreeGroups(bs: seq<int>, g2: nat, g1: nat, g0: nat)
    requires g2 < 128 && g1 < 128 && g0 < 128
    requires bs == [g2 + 128, g1 + 128, g0]
    ensures ReadGroup(bs, 0, 0, 0) == (g2 + 128 * g1 + 16384 * g0, 3)
  {
    ThreeGroupsPrefix(bs, g2, g1, g0);
    var acc := g2 + g1 * 128;
    assert acc < 16384;
    HighBitByte(g0);
    ReadLast(bs, 2, 2, acc);
    assert ReadGroup(bs, 0, 0, 0) == (BitOr(acc, Shl(g0, 14)), 3);
    assert BitOr(acc, Shl(g0, 14)) == acc + g0 * 16384 by {
      ShlGroup(g0, 14);
      Pow2Facts();
      OrDisjoint(acc, g0, 14);
    }
  }

  /** Reading a group ignores everything after its terminating byte. */
  lemma {:induction false} ReadGroupAppend(a: seq<int>, b: seq<int>, i: nat, shift: nat, acc: nat)
    requires i < |a| && !HighBit(a[|a| - 1])
    ensures ReadGroup(a + b, i, shift, acc) == ReadGroup(a, i, shift, acc)
    ensures ReadGroup(a, i, shift, acc).1 <= |a|
    decreases |a| - i
  {
    assert (a + b)[i] == a[i];
    if HighBit(a[i]) {
      ReadGroupAppend(a, b, i + 1, shift + 1, BitOr(acc, Shl(Low7(a[i]), 7 * shift)));
    }
  }

  /** Reading a group at an offset into `a + b` is reading it in `b`. */
  lemma {:induction false} ReadGroupShift(a: seq<int>, b: seq<int>, i: nat, shift: nat, acc: nat)
    ensures ReadGroup(a + b, |a| + i, shift, acc).0 == ReadGroup(b, i, shift, acc).0
    ensures ReadGroup(a + b, |a| + i, shift, acc).1 == |a| + ReadGroup(b, i, shift, acc).1
    decreases |b| - i
  {
    if i < |b| {
      assert (a + b)[|a| + i] == b[i];
      if HighBit(b[i]) {
        ReadGroupShift(a, b, i + 1, shift + 1, BitOr(acc, Shl(Low7(b[i]), 7 * shift)));
      }
    }
  }

  lemma {:induction false} UnpackFromShift(a: seq<int>, b: seq<int>, i: nat)
    ensures UnpackFrom(a + b, |a| + i) == UnpackFrom(b, i)
    decreases |b| - i
  {
    if i < |b| {
      ReadGroupShift(a, b, i, 0, 0);
      UnpackFromShift(a, b, ReadGroup(b, i, 0, 0).1);
    }
  }

  lemma ReadPackedTwo(n: nat)
    requires 128 <= n < 16384
    ensures ReadGroup(PackOne(Num(n)), 0, 0, 0) == (n / 128 + 128 * (n % 128), 2)
  {
    PackOneTwoBytes(n);
    TwoGroups(PackOne(Num(n)), n / 128, n % 128);
  }

  lemma ReadPackedThree(n: nat)
    requires 16384 <= n < 0x20_0000
    ensures ReadGroup(PackOne(Num(n)), 0, 0, 0)
         == ((n / 16384) % 128 + 128 * ((n / 128) % 128) + 16384 * (n % 128), 3)
  {
    PackOneThreeBytesSmall(n);
    var g2 := n / 16384;
    assert g2 % 128 == g2;
    ThreeGroups(PackOne(Num(n)), g2, (n / 128) % 128, n % 128);
  }

  /** The inner loop reads one packed code back as its groups in reverse order. */
  lemma ReadPacked(c: Code)
    requires c.Num? ==> c.n < 0x20_0000
    ensures GroupShaped(PackOne(c))
    ensures ReadGroup(PackOne(c), 0, 0, 0) == (Swapped(c), |PackOne(c)|)
  {
    match c {
      case Undefined =>
        PackUndefined();
        ShapedThree(128, 128, 0);
        ThreeGroups(PackOne(c), 0, 0, 0);
      case Num(n) =>
        PackOneGroups(n);
        if n < 128 {
          OneGroup(PackOne(c), n);
        } else if n < 16384 {
          ReadPackedTwo(n);
        } else {
          ReadPackedThree(n);
        }
    }
  }

  /** Unpacking one packed code, whatever follows it. */
  lemma UnpackOne(c: Code, rest: seq<int>)
    requires c.Num? ==> c.n < 0x20_0000
    ensures UnpackFrom(PackOne(c) + rest, 0) == [Swapped(c)] + Unpack(rest)
  {
    var a := PackOne(c);
    ReadPacked(c);
    assert !HighBit(a[|a| - 1]);
    ReadGroupAppend(a, rest, 0, 0, 0);
    assert Swapped(c) < Two31;
    Int32Small(Swapped(c));
    UnpackFromShift(a, rest, 0);
    assert a + rest == (a + rest)[..];
  }

  /**
   * `base64ToNumbers` after `numbersToBase64`, at the byte level: every code
   * below 2^21 comes back with its 7-bit groups in reverse order, and
   * `undefined` comes back as 0. So a code of two or three groups survives
   * only when its first and last groups are equal: 129 (`0x81, 0x01`) does,
   * 128 does not.
   */
  lemma {:induction false} UnpackPack(codes: seq<Code>)
    requires forall i :: 0 <= i < |codes| && codes[i].Num? ==> codes[i].n < 0x20_0000
    ensures Unpack(Pack(codes)) == seq(|codes|, i requires 0 <= i < |codes| => Swapped(codes[i]))
    decreases |codes|
  {
    if |codes| > 0 {
      UnpackOne(codes[0], Pack(codes[1..]));
      UnpackPack(codes[1..]);
    }
  }

  /** The round trip holds when every code is a number below 128. */
  lemma PackRoundTripSmall(codes: seq<Code>)
    requires forall i :: 0 <= i < |codes| ==> codes[i].Num? && codes[i].n < 128
    ensures Unpack(Pack(codes)) == Numbers(codes)
  {
    UnpackPack(codes);
  }

  /** `128` packs as `[0x81, 0x00]` and unpacks as `1`. */
  lemma PackSwapExample()
    ensures Pack([Num(128)]) == [129, 0]
    ensures Unpack(Pack([Num(128)])) == [1]
  {
    PackOneForm(128);
    UnpackPack([Num(128)]);
  }

  // ---------------------------------------------------------------------------
  // Unpacking most significant group first
  // ---------------------------------------------------------------------------

  /** The inner loop read in the encoder's order: each group shifts the earlier ones up by 7 bits. */
  function ReadGroupMsbFirst(bytes: seq<int>, i: nat, acc: nat): (r: (nat, nat))
    ensures r.1 > i
    decreases |bytes| - i
  {
    if i < |bytes| && HighBit(bytes[i]) then ReadGroupMsbFirst(bytes, i + 1, acc * 128 + Low7(bytes[i]))
    else (acc * 128 + Low7(ByteAt(bytes, i)), i + 1)
  }

  function UnpackMsbFirstFrom(bytes: seq<int>, i: nat): seq<int>
    decreases |bytes| - i
  {
    if i >= |bytes| then []
    else
      var g := ReadGroupMsbFirst(bytes, i, 0);
      [g.0] + UnpackMsbFirstFrom(bytes, g.1)
  }

  /** The decoder that matches the encoder's group order. */
  function UnpackMsbFirst(bytes: seq<int>): seq<int> {
    UnpackMsbFirstFrom(bytes, 0)
  }

  lemma {:induction false} ReadGroupMsbFirstAppend(a: seq<int>, b: seq<int>, i: nat, acc: nat)
    requires i < |a| && !HighBit(a[|a| - 1])
    ensures ReadGroupMsbFirst(a + b, i, acc) == ReadGroupMsbFirst(a, i, acc)
    decreases |a| - i
  {
    assert (a + b)[i] == a[i];
    if HighBit(a[i]) {
      ReadGroupMsbFirstAppend(a, b, i + 1, acc * 128 + Low7(a[i]));
    }
  }

  lemma {:induction false} ReadGroupMsbFirstShift(a: seq<int>, b: seq<int>, i: nat, acc: nat)
    ensures ReadGroupMsbFirst(a + b, |a| + i, acc).0 == ReadGroupMsbFirst(b, i, acc).0
    ensures ReadGroupMsbFirst(a + b, |a| + i, acc).1 == |a| + ReadGroupMsbFirst(b, i, acc).1
    decreases |b| - i
  {
    if i < |b| {
      assert (a + b)[|a| + i] == b[i];
      if HighBit(b[i]) {
        ReadGroupMsbFirstShift(a, b, i + 1, acc * 128 + Low7(b[i]));
      }
    }
  }

  lemma {:induction false} UnpackMsbFirstFromShift(a: seq<int>, b: seq<int>, i: nat)
    ensures UnpackMsbFirstFrom(a + b, |a| + i) == UnpackMsbFirstFrom(b, i)
    decreases |b| - i
  {
    if i < |b| {
      ReadGroupMsbFirstShift(a, b, i, 0);
      UnpackMsbFirstFromShift(a, b, ReadGroupMsbFirst(b, i, 0).1);
    }
  }

  lemma MsbMore(bytes: seq<int>, i: nat, acc: nat)
    requires i < |bytes| && HighBit(bytes[i])
    ensures ReadGroupMsbFirst(bytes, i, acc) == ReadGroupMsbFirst(bytes, i + 1, acc * 128 + Low7(bytes[i]))
  {
  }

  lemma MsbLast(bytes: seq<int>, i: nat, acc: nat)
    requires i < |bytes| && !HighBit(bytes[i])
    ensures ReadGroupMsbFirst(bytes, i, acc) == (acc * 128 + Low7(bytes[i]), i + 1)
  {
  }

  lemma MsbTwo(bs: seq<int>, hi: nat, lo: nat)
    requires hi < 128 && lo < 128 && bs == [hi + 128, lo]
    ensures ReadGroupMsbFirst(bs, 0, 0) == (hi * 128 + lo, 2)
  {
    HighBitByte(hi + 128);
    HighBitByte(lo);
    MsbMore(bs, 0, 0);
    assert Low7(hi + 128) == hi;
    MsbLast(bs, 1, hi);
  }

  lemma MsbThree(bs: seq<int>, g2: nat, g1: nat, g0: nat)
    requires g2 < 128 && g1 < 128 && g0 < 128 && bs == [g2 + 128, g1 + 128, g0]
    ensures ReadGroupMsbFirst(bs, 0, 0) == ((g2 * 128 + g1) * 128 + g0, 3)
  {
    HighBitByte(g2 + 128);
    HighBitByte(g1 + 128);
    HighBitByte(g0);
    MsbMore(bs, 0, 0);
    assert Low7(g2 + 128) == g2;
    MsbMore(bs, 1, g2);
    assert Low7(g1 + 128) == g1;
    MsbLast(bs, 2, g2 * 128 + g1);
  }

  lemma MsbPackedTwo(n: nat)
    requires 128 <= n < 16384
    ensures ReadGroupMsbFirst(PackOne(Num(n)), 0, 0) == (n, 2)
  {
    PackOneTwoBytes(n);
    MsbTwo(PackOne(Num(n)), n / 128, n % 128);
  }

  lemma MsbPackedThree(n: nat)
    requires 16384 <= n < 0x20_0000
    ensures ReadGroupMsbFirst(PackOne(Num(n)), 0, 0) == (n, 3)
  {
    var g2, g1, g0 := n / 16384, (n / 128) % 128, n % 128;
    PackOneThreeBytesSmall(n);
    MsbThree(PackOne(Num(n)), g2, g1, g0);
    ThreeGroupDigits(n);
  }

  /** The three 7-bit groups of `n` put back together. */
  lemma ThreeGroupDigits(n: nat)
    ensures n == (n / 16384 * 128 + (n / 128) % 128) * 128 + n % 128
  {
    var q := n / 128;
    assert n == q * 128 + n % 128;
    assert q == q / 128 * 128 + q % 128;
    assert q / 128 == n / 16384;
  }

  /** Read most significant first, a packed code below 2^21 comes back whole. */
  lemma ReadPackedMsbFirst(n: nat)
    requires n < 0x20_0000
    ensures GroupShaped(PackOne(Num(n)))
    ensures ReadGroupMsbFirst(PackOne(Num(n)), 0, 0) == (n, |PackOne(Num(n))|)
  {
    var a := PackOne(Num(n));
    PackOneGroups(n);
    if n < 128 {
      HighBitByte(n);
      MsbLast(a, 0, 0);
    } else if n < 16384 {
      MsbPackedTwo(n);
    } else {
      MsbPackedThree(n);
    }
  }

  lemma UnpackMsbFirstOne(n: nat, rest: seq<int>)
    requires n < 0x20_0000
    ensures UnpackMsbFirstFrom(PackOne(Num(n)) + rest, 0) == [n] + UnpackMsbFirst(rest)
  {
    var a := PackOne(Num(n));
    ReadPackedMsbFirst(n);
    assert !HighBit(a[|a| - 1]);
    ReadGroupMsbFirstAppend(a, rest, 0, 0);
    UnpackMsbFirstFromShift(a, rest, 0);
  }

  /** Reading the groups most significant first undoes `Pack` for every code below 2^21. */
  lemma {:induction false} UnpackMsbFirstPack(codes: seq<Code>)
    requires forall i :: 0 <= i < |codes| ==> codes[i].Num? && codes[i].n < 0x20_0000
    ensures UnpackMsbFirst(Pack(codes)) == Numbers(codes)
    decreases |codes|
  {
    if |codes| > 0 {
      UnpackMsbFirstOne(codes[0].n, Pack(codes[1..]));
      UnpackMsbFirstPack(codes[1..]);
    }
  }
}
