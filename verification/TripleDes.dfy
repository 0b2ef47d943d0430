/**
  DES and triple DES over 64-bit blocks.  Nothing here depends on the S-boxes
  or on the key permutations: the round function and the key schedule are
  arbitrary functions.
 */
module TripleDes {

  datatype Block = Block(x: bv32, y: bv32)

  datatype Pair = Pair(first: bv32, second: bv32)

  /** What a round adds to the other half: the S-boxes applied to two subkey words and a half. */
  type Round = (Pair, bv32) -> bv32

  type Key = k: seq<bv8> | |k| == 8 witness [0, 0, 0, 0, 0, 0, 0, 0]
  type Subkeys = k: seq<bv32> | |k| == 32 witness seq(32, i => 0)

  /** `des_main_ks` */
  type Schedule = Key -> Subkeys

  // ----- the initial and the final permutation -----

  /** Exchanges the bits `mask` of `b.y` with the bits `k` higher of `b.x`. */
  function SwapHigh(b: Block, k: bv32, mask: bv32): Block
    requires k < 32
  {
    var t := ((b.x >> k) ^ b.y) & mask;
    Block(b.x ^ (t << k), b.y ^ t)
  }

  /** Exchanges the bits `mask` of `b.x` with the bits `k` higher of `b.y`. */
  function SwapLow(b: Block, k: bv32, mask: bv32): Block
    requires k < 32
  {
    var t := ((b.y >> k) ^ b.x) & mask;
    Block(b.x ^ t, b.y ^ (t << k))
  }

  function SwapOdd(b: Block): Block {
    var t := (b.x ^ b.y) & 0xAAAAAAAA;
    Block(b.x ^ t, b.y ^ t)
  }

  function RotateUp(w: bv32): bv32 {
    (w << 1) | (w >> 31)
  }

  function RotateDown(w: bv32): bv32 {
    (w << 31) | (w >> 1)
  }

  lemma Swap4(b: Block)
    ensures SwapHigh(SwapHigh(b, 4, 0x0F0F0F0F), 4, 0x0F0F0F0F) == b
  {
  }

  lemma Swap16(b: Block)
    ensures SwapHigh(SwapHigh(b, 16, 0x0000FFFF), 16, 0x0000FFFF) == b
  {
  }

  lemma Swap2(b: Block)
    ensures SwapLow(SwapLow(b, 2, 0x33333333), 2, 0x33333333) == b
  {
  }

  lemma Swap8(b: Block)
    ensures SwapLow(SwapLow(b, 8, 0x00FF00FF), 8, 0x00FF00FF) == b
  {
  }

  lemma Swap1(b: Block)
    ensures SwapOdd(SwapOdd(b)) == b
  {
  }

  lemma Rotates(w: bv32)
    ensures RotateDown(RotateUp(w)) == w && RotateUp(RotateDown(w)) == w
  {
  }

  /** `DES_IP` */
  function Ip(b: Block): Block {
    var c := SwapLow(SwapLow(SwapHigh(SwapHigh(b, 4, 0x0F0F0F0F), 16, 0x0000FFFF), 2, 0x33333333), 8, 0x00FF00FF);
    var d := SwapOdd(c.(y := RotateUp(c.y)));
    d.(x := RotateUp(d.x))
  }

  /** `DES_FP` */
  function Fp(b: Block): Block {
    var c := SwapOdd(b.(x := RotateDown(b.x)));
    var d := c.(y := RotateDown(c.y));
    SwapHigh(SwapHigh(SwapLow(SwapLow(d, 8, 0x00FF00FF), 2, 0x33333333), 16, 0x0000FFFF), 4, 0x0F0F0F0F)
  }

  /** The final permutation undoes the initial one. */
  lemma FpAfterIp(b: Block)
    ensures Fp(Ip(b)) == b
  {
    hide SwapHigh, SwapLow, SwapOdd, RotateUp, RotateDown;
    var b1 := SwapHigh(b, 4, 0x0F0F0F0F);
    var b2 := SwapHigh(b1, 16, 0x0000FFFF);
    var b3 := SwapLow(b2, 2, 0x33333333);
    var c := SwapLow(b3, 8, 0x00FF00FF);
    Rotates(c.y);
    Rotates(SwapOdd(c.(y := RotateUp(c.y))).x);
    Swap1(c.(y := RotateUp(c.y)));
    Swap8(b3);
    Swap2(b2);
    Swap16(b1);
    Swap4(b);
  }

  /** And the other way round. */
  lemma IpAfterFp(b: Block)
    ensures Ip(Fp(b)) == b
  {
    hide SwapHigh, SwapLow, SwapOdd, RotateUp, RotateDown;
    var c := SwapOdd(b.(x := RotateDown(b.x)));
    var d := c.(y := RotateDown(c.y));
    var d1 := SwapLow(d, 8, 0x00FF00FF);
    var d2 := SwapLow(d1, 2, 0x33333333);
    var d3 := SwapHigh(d2, 16, 0x0000FFFF);
    Swap4(d3);
    Swap16(d2);
    Swap2(d1);
    Swap8(d);
    Rotates(c.y);
    Swap1(b.(x := RotateDown(b.x)));
    Rotates(b.x);
  }

  // What the initial permutation is.  Both halves of the macro's result are kept rotated by
  // one place, which is how the S-boxes are laid out.

  /** Bit `i` of a block, counted from 1 at the top. */
  function Bit(b: Block, i: bv32): bv32
    requires 1 <= i <= 64
  {
    if i <= 32 then (b.x >> (32 - i)) & 1 else (b.y >> (64 - i)) & 1
  }

  function Unrotated(b: Block): Block {
    Block(RotateDown(b.x), RotateDown(b.y))
  }

  function Column(c: bv32, e0: bv32, e1: bv32, e2: bv32, e3: bv32, e4: bv32, e5: bv32, e6: bv32, e7: bv32): bv32
    requires c < 8
  {
    match c
    case 0 => e0 case 1 => e1 case 2 => e2 case 3 => e3
    case 4 => e4 case 5 => e5 case 6 => e6 case _ => e7
  }

  /** The table of the initial permutation in FIPS 46-3: place `8 * r + c + 1` takes this bit of the input. */
  function IpTable(r: bv32, c: bv32): bv32
    requires r < 8 && c < 8
  {
    match r
    case 0 => Column(c, 58, 50, 42, 34, 26, 18, 10, 2)
    case 1 => Column(c, 60, 52, 44, 36, 28, 20, 12, 4)
    case 2 => Column(c, 62, 54, 46, 38, 30, 22, 14, 6)
    case 3 => Column(c, 64, 56, 48, 40, 32, 24, 16, 8)
    case 4 => Column(c, 57, 49, 41, 33, 25, 17, 9, 1)
    case 5 => Column(c, 59, 51, 43, 35, 27, 19, 11, 3)
    case 6 => Column(c, 61, 53, 45, 37, 29, 21, 13, 5)
    case _ => Column(c, 63, 55, 47, 39, 31, 23, 15, 7)
  }

  /** The even bits go to the upper half. */
  lemma IpEven(b: Block, r: bv32, c: bv32)
    requires r < 4 && c < 8
    ensures Bit(Unrotated(Ip(b)), 8 * r + c + 1) == Bit(b, 58 + 2 * r - 8 * c)
  {
  }

  /** The odd bits go to the lower half. */
  lemma IpOdd(b: Block, r: bv32, c: bv32)
    requires 4 <= r < 8 && c < 8
    ensures Bit(Unrotated(Ip(b)), 8 * r + c + 1) == Bit(b, 49 + 2 * r - 8 * c)
  {
  }

  /** The rows begin with 58, 60, 62, 64, 57, 59, 61 and 63, and go down by 8. */
  lemma IpTableRows(r: bv32, c: bv32)
    requires r < 8 && c < 8
    ensures IpTable(r, c) == (if r < 4 then 58 + 2 * r else 49 + 2 * r) - 8 * c
  {
  }

  /** The initial permutation brings to every place the bit that its table says. */
  lemma IpIsTable(b: Block, r: bv32, c: bv32)
    requires r < 8 && c < 8
    ensures 1 <= IpTable(r, c) <= 64 && Bit(Unrotated(Ip(b)), 8 * r + c + 1) == Bit(b, IpTable(r, c))
    // Bits are counted from 1 at the top, and the rotation by one place is undone.
    ensures var x, y, place, from := (Ip(b).x >> 1) | (Ip(b).x << 31), (Ip(b).y >> 1) | (Ip(b).y << 31), 8 * r + c + 1, IpTable(r, c);
      (if place <= 32 then (x >> (32 - place)) & 1 else (y >> (64 - place)) & 1) ==
      (if from <= 32 then (b.x >> (32 - from)) & 1 else (b.y >> (64 - from)) & 1)
  {
    hide Ip, IpTable;
    IpTableRows(r, c);
    IpRows(b, r, c);
  }

  lemma IpRows(b: Block, r: bv32, c: bv32)
    requires r < 8 && c < 8
    ensures 1 <= IpTable(r, c) <= 64 && Bit(Unrotated(Ip(b)), 8 * r + c + 1) == Bit(b, IpTable(r, c))
  {
    hide Bit, Ip, Unrotated, IpTable;
    IpTableRows(r, c);
    if r < 4 {
      IpEven(b, r, c);
    } else {
      IpOdd(b, r, c);
    }
  }

  // ----- the rounds -----

  function PairAt(sk: seq<bv32>, i: nat): Pair
    requires 2 * i + 1 < |sk|
  {
    Pair(sk[2 * i], sk[2 * i + 1])
  }

  /** A round adds to `b.y` what the round function makes of `b.x`, and the halves change roles. */
  function OneRound(f: Round, pair: Pair, b: Block): Block {
    Block(b.y ^ f(pair, b.x), b.x)
  }

  function Swapped(b: Block): Block {
    Block(b.y, b.x)
  }

  /** The same round undoes a round, whatever the round function is. */
  lemma RoundTwice(f: Round, pair: Pair, b: Block)
    ensures OneRound(f, pair, Swapped(OneRound(f, pair, b))) == Swapped(b)
  {
    AddTwice(b.y, f(pair, b.x));
  }

  lemma AddTwice(a: bv32, t: bv32)
    ensures (a ^ t) ^ t == a
  {
  }

  /** `n` rounds with the subkey pairs from `i` on. */
  ghost function Feistel(f: Round, sk: seq<bv32>, i: nat, n: nat, b: Block): Block
    requires 2 * (i + n) <= |sk|
    decreases n
  {
    if n == 0 then b else Feistel(f, sk, i + 1, n - 1, OneRound(f, PairAt(sk, i), b))
  }

  lemma {:induction false} FeistelLast(f: Round, sk: seq<bv32>, i: nat, n: nat, b: Block)
    requires n > 0 && 2 * (i + n) <= |sk|
    ensures Feistel(f, sk, i, n, b) == OneRound(f, PairAt(sk, i + n - 1), Feistel(f, sk, i, n - 1, b))
    decreases n
  {
    hide OneRound, PairAt;
    if n > 1 {
      FeistelLast(f, sk, i + 1, n - 1, OneRound(f, PairAt(sk, i), b));
    }
  }

  /** The pairs of `to` from `j` on are the `n` pairs of `from` from `i` on, in reverse. */
  ghost predicate Mirrored(from: seq<bv32>, i: nat, to: seq<bv32>, j: nat, n: nat)
    requires 2 * (i + n) <= |from| && 2 * (j + n) <= |to|
  {
    forall k :: j <= k < j + n ==> PairAt(to, k) == PairAt(from, i + n - 1 - (k - j))
  }

  /** The same rounds with the subkeys in reverse undo the rounds. */
  lemma {:induction false} FeistelInverse(f: Round, from: seq<bv32>, i: nat, to: seq<bv32>, j: nat, n: nat, b: Block)
    requires 2 * (i + n) <= |from| && 2 * (j + n) <= |to| && Mirrored(from, i, to, j, n)
    ensures Feistel(f, to, j, n, Swapped(Feistel(f, from, i, n, b))) == Swapped(b)
    decreases n
  {
    hide OneRound, PairAt, Swapped;
    if n > 0 {
      var c := OneRound(f, PairAt(from, i), b);
      FeistelInverse(f, from, i + 1, to, j, n - 1, c);
      FeistelLast(f, to, j, n, Swapped(Feistel(f, from, i, n, b)));
      assert PairAt(to, j + n - 1) == PairAt(from, i);
      RoundTwice(f, PairAt(from, i), b);
    }
  }

  // ----- one block -----

  /** Single DES on a block, with the sixteen subkey pairs from `i` on. */
  ghost function Des(f: Round, sk: seq<bv32>, i: nat, b: Block): Block
    requires 2 * (i + 16) <= |sk|
  {
    Fp(Feistel(f, sk, i, 16, Swapped(Ip(b))))
  }

  /** Single DES as FIPS 46-3 defines it: the two halves of the permuted block, sixteen times a new
      right half from the old halves and a subkey, and the permuted halves of the last round,
      exchanged.  The subkeys of round `n` are two words. */
  lemma DesIs(f: Round, sk: seq<bv32>, i: nat, b: Block, l: seq<bv32>, r: seq<bv32>)
    requires 2 * (i + 16) <= |sk| && |l| == |r| == 17 && Ip(b) == Block(l[0], r[0])
    requires forall n :: 0 <= n < 16 ==>
      l[n + 1] == r[n] && r[n + 1] == l[n] ^ f(Pair(sk[2 * (i + n)], sk[2 * (i + n) + 1]), r[n])
    ensures Des(f, sk, i, b) == Fp(Block(r[16], l[16]))
  {
    hide Ip, Fp, Feistel;
    FeistelIs(f, sk, i, l, r, 0);
  }

  lemma {:induction false} FeistelIs(f: Round, sk: seq<bv32>, i: nat, l: seq<bv32>, r: seq<bv32>, n: nat)
    requires 2 * (i + 16) <= |sk| && |l| == |r| == 17 && n <= 16
    requires forall k :: n <= k < 16 ==>
      l[k + 1] == r[k] && r[k + 1] == l[k] ^ f(Pair(sk[2 * (i + k)], sk[2 * (i + k) + 1]), r[k])
    ensures Feistel(f, sk, i + n, 16 - n, Block(r[n], l[n])) == Block(r[16], l[16])
    decreases 16 - n
  {
    if n < 16 {
      FeistelIs(f, sk, i, l, r, n + 1);
      assert OneRound(f, PairAt(sk, i + n), Block(r[n], l[n])) == Block(r[n + 1], l[n + 1]);
    }
  }

  lemma DesInverse(f: Round, from: seq<bv32>, i: nat, to: seq<bv32>, j: nat, b: Block)
    requires 2 * (i + 16) <= |from| && 2 * (j + 16) <= |to| && Mirrored(from, i, to, j, 16)
    ensures Des(f, to, j, Des(f, from, i, b)) == b
  {
    hide Ip, Fp, Feistel;
    FeistelInverse(f, from, i, to, j, 16, Swapped(Ip(b)));
    IpAfterFp(Feistel(f, from, i, 16, Swapped(Ip(b))));
    FpAfterIp(b);
  }

  /** Three passes of single DES. */
  ghost function Des3(f: Round, sk: seq<bv32>, b: Block): Block
    requires |sk| == 96
  {
    Des(f, sk, 32, Des(f, sk, 16, Des(f, sk, 0, b)))
  }

  /** The three passes without the permutations between them: the halves are exchanged there instead. */
  ghost function Fused(f: Round, sk: seq<bv32>, b: Block): Block
    requires |sk| == 96
  {
    var b1 := Feistel(f, sk, 0, 16, Swapped(Ip(b)));
    var b2 := Feistel(f, sk, 16, 16, Swapped(b1));
    Fp(Feistel(f, sk, 32, 16, Swapped(b2)))
  }

  lemma FusedIsDes3(f: Round, sk: seq<bv32>, b: Block)
    requires |sk| == 96
    ensures Fused(f, sk, b) == Des3(f, sk, b)
  {
    hide Ip, Fp, Feistel;
    var b1 := Feistel(f, sk, 0, 16, Swapped(Ip(b)));
    IpAfterFp(b1);
    IpAfterFp(Feistel(f, sk, 16, 16, Swapped(b1)));
  }

  lemma Des3Inverse(f: Round, from: seq<bv32>, to: seq<bv32>, b: Block)
    requires |from| == |to| == 96 && Mirrored(from, 0, to, 0, 48)
    ensures Des3(f, to, Des3(f, from, b)) == b
  {
    hide Des, Mirrored;
    MirroredPart(from, to, 0);
    MirroredPart(from, to, 16);
    MirroredPart(from, to, 32);
    var b1 := Des(f, from, 0, b);
    var b2 := Des(f, from, 16, b1);
    DesInverse(f, from, 32, to, 0, b2);
    DesInverse(f, from, 16, to, 16, b1);
    DesInverse(f, from, 0, to, 32, b);
  }

  lemma MirroredPart(from: seq<bv32>, to: seq<bv32>, i: nat)
    requires |from| == |to| == 96 && Mirrored(from, 0, to, 0, 48) && i <= 32
    ensures Mirrored(from, i, to, 32 - i, 16)
  {
    hide PairAt;
  }

  lemma {:induction false} FeistelSplit(f: Round, sk: seq<bv32>, i: nat, m: nat, n: nat, b: Block)
    requires 2 * (i + m + n) <= |sk|
    ensures Feistel(f, sk, i, m + n, b) == Feistel(f, sk, i + m, n, Feistel(f, sk, i, m, b))
    decreases m
  {
    hide OneRound, PairAt;
    if m > 0 {
      FeistelSplit(f, sk, i + 1, m - 1, n, OneRound(f, PairAt(sk, i), b));
    }
  }

  // ----- bytes -----

  /** `GET_UINT32` */
  function Word(a: bv8, b: bv8, c: bv8, d: bv8): bv32 {
    (a as bv32 << 24) | (b as bv32 << 16) | (c as bv32 << 8) | d as bv32
  }

  /** Octet 0 is the highest. */
  lemma WordIs(a: bv8, b: bv8, c: bv8, d: bv8)
    ensures Word(a, b, c, d) == 0x100_0000 * (a as bv32) + 0x1_0000 * (b as bv32) + 0x100 * (c as bv32) + d as bv32
  {
  }

  /** A byte of `PUT_UINT32`: the bits of `w` from `k` on. */
  function ByteAt(w: bv32, k: bv32): bv8
    requires k < 32
  {
    ((w >> k) & 0xFF) as bv8
  }

  function Bytes(w: bv32): seq<bv8> {
    [ByteAt(w, 24), ByteAt(w, 16), ByteAt(w, 8), ByteAt(w, 0)]
  }

  lemma WordOfBytes(w: bv32)
    ensures Word(ByteAt(w, 24), ByteAt(w, 16), ByteAt(w, 8), ByteAt(w, 0)) == w
  {
  }

  lemma BytesOfWord(a: bv8, b: bv8, c: bv8, d: bv8)
    ensures Bytes(Word(a, b, c, d)) == [a, b, c, d]
  {
  }

  type Octets = s: seq<bv8> | |s| == 8 witness [0, 0, 0, 0, 0, 0, 0, 0]

  function Decode(s: Octets): Block {
    Block(Word(s[0], s[1], s[2], s[3]), Word(s[4], s[5], s[6], s[7]))
  }

  function Encode(b: Block): Octets {
    Bytes(b.x) + Bytes(b.y)
  }

  lemma EncodeDecode(s: Octets, b: Block)
    ensures Encode(Decode(s)) == s && Decode(Encode(b)) == b
  {
    hide Word, ByteAt;
    BytesOfWord(s[0], s[1], s[2], s[3]);
    BytesOfWord(s[4], s[5], s[6], s[7]);
    WordOfBytes(b.x);
    WordOfBytes(b.y);
  }

  // ----- many blocks -----

  ghost function Des3Octets(f: Round, sk: seq<bv32>, s: Octets): Octets
    requires |sk| == 96
  {
    Encode(Des3(f, sk, Decode(s)))
  }

  /** Each eight octets on their own. */
  ghost function Ecb(f: Round, sk: seq<bv32>, s: seq<bv8>): (r: seq<bv8>)
    requires |sk| == 96 && |s| % 8 == 0
    ensures |r| == |s|
    decreases |s|
  {
    if s == [] then [] else Des3Octets(f, sk, s[..8]) + Ecb(f, sk, s[8..])
  }

  /** Block `k` of the result is block `k` of the input in triple DES, high octet first. */
  lemma EcbIs(f: Round, sk: seq<bv32>, s: seq<bv8>, k: nat)
    requires |sk| == 96 && |s| % 8 == 0 && 8 * k + 8 <= |s|
    ensures |Ecb(f, sk, s)| == |s|
    ensures var from, to := s[8 * k..8 * k + 8], Ecb(f, sk, s)[8 * k..8 * k + 8];
      Block(Word(to[0], to[1], to[2], to[3]), Word(to[4], to[5], to[6], to[7])) ==
      Des3(f, sk, Block(Word(from[0], from[1], from[2], from[3]), Word(from[4], from[5], from[6], from[7])))
  {
    hide Des3, Word, Encode, Ecb;
    var from := s[8 * k..8 * k + 8];
    EcbSlice(f, sk, s, k);
    EncodeDecode(from, Des3(f, sk, Decode(from)));
  }

  lemma {:induction false} EcbSlice(f: Round, sk: seq<bv32>, s: seq<bv8>, k: nat)
    requires |sk| == 96 && |s| % 8 == 0 && 8 * k + 8 <= |s|
    ensures Ecb(f, sk, s)[8 * k..8 * k + 8] == Des3Octets(f, sk, s[8 * k..8 * k + 8])
    decreases |s|
  {
    hide Des3Octets;
    var head: seq<bv8>, rest: seq<bv8> := Des3Octets(f, sk, s[..8]), Ecb(f, sk, s[8..]);
    EcbFirst(f, sk, s[..8], s[8..]);
    assert s[..8] + s[8..] == s;
    Windows(head, rest, k);
    if k > 0 {
      EcbSlice(f, sk, s[8..], k - 1);
      Windows(s[..8], s[8..], k);
    }
  }

  lemma Windows(head: seq<bv8>, rest: seq<bv8>, k: nat)
    requires |head| == 8 && 8 * k <= |rest|
    ensures (head + rest)[8 * k..8 * k + 8] == if k == 0 then head else rest[8 * (k - 1)..8 * (k - 1) + 8]
  {
  }

  lemma {:induction false} EcbInverse(f: Round, from: seq<bv32>, to: seq<bv32>, s: seq<bv8>)
    requires |from| == |to| == 96 && Mirrored(from, 0, to, 0, 48) && |s| % 8 == 0
    ensures Ecb(f, to, Ecb(f, from, s)) == s
    decreases |s|
  {
    hide Des3Octets, Mirrored;
    if s != [] {
      OctetsInverse(f, from, to, s[..8]);
      EcbInverse(f, from, to, s[8..]);
      EcbFirst(f, to, Des3Octets(f, from, s[..8]), Ecb(f, from, s[8..]));
    }
  }

  lemma OctetsInverse(f: Round, from: seq<bv32>, to: seq<bv32>, s: Octets)
    requires |from| == |to| == 96 && Mirrored(from, 0, to, 0, 48)
    ensures Des3Octets(f, to, Des3Octets(f, from, s)) == s
  {
    hide Des3, Mirrored, Decode, Encode;
    EncodeDecode(s, Des3(f, from, Decode(s)));
    EncodeDecode(s, Decode(s));
    Des3Inverse(f, from, to, Decode(s));
  }

  lemma EcbFirst(f: Round, sk: seq<bv32>, head: Octets, rest: seq<bv8>)
    requires |sk| == 96 && |rest| % 8 == 0
    ensures Ecb(f, sk, head + rest) == Des3Octets(f, sk, head) + Ecb(f, sk, rest)
  {
    assert (head + rest)[..8] == head && (head + rest)[8..] == rest;
  }

  lemma {:induction false} EcbLast(f: Round, sk: seq<bv32>, s: seq<bv8>, last: Octets)
    requires |sk| == 96 && |s| % 8 == 0
    ensures Ecb(f, sk, s + last) == Ecb(f, sk, s) + Des3Octets(f, sk, last)
    decreases |s|
  {
    hide Des3Octets;
    if s == [] {
      EcbFirst(f, sk, last, []);
      assert s + last == last + [];
    } else {
      EcbFirst(f, sk, s[..8], s[8..] + last);
      assert s + last == s[..8] + (s[8..] + last);
      EcbLast(f, sk, s[8..], last);
    }
  }

  // ----- the calls -----

  /** One line of the round listings: `DES_ROUND(Y, X); DES_ROUND(X, Y);` */
  method TwoRounds(f: Round, sk: array<bv32>, i: nat, x: bv32, y: bv32) returns (x': bv32, y': bv32)
    requires 2 * (i + 2) <= sk.Length
    ensures Block(y', x') == Feistel(f, sk[..], i, 2, Block(y, x))
  {
    hide Feistel, OneRound;
    x' := DesRound(f, sk, i, y, x);
    y' := DesRound(f, sk, i + 1, x', y);
    FeistelTwo(f, sk[..], i, Block(y, x));
  }

  /** `DES_ROUND(X, Y)` changes `Y`. */
  method DesRound(f: Round, sk: array<bv32>, i: nat, x: bv32, y: bv32) returns (y': bv32)
    requires 2 * (i + 1) <= sk.Length
    ensures y' == y ^ f(Pair(sk[2 * i], sk[2 * i + 1]), x)
    ensures Block(y', x) == OneRound(f, PairAt(sk[..], i), Block(x, y))
  {
    var pair := Pair(sk[2 * i], sk[2 * i + 1]);
    assert pair == PairAt(sk[..], i);
    y' := OneRound(f, pair, Block(x, y)).x;
  }

  lemma FeistelTwo(f: Round, sk: seq<bv32>, i: nat, b: Block)
    requires 2 * (i + 2) <= |sk|
    ensures Feistel(f, sk, i, 2, b) == OneRound(f, PairAt(sk, i + 1), OneRound(f, PairAt(sk, i), b))
  {
    hide OneRound, PairAt;
  }

  /** Eight such lines. */
  method SixteenRounds(f: Round, sk: array<bv32>, i: nat, x0: bv32, y0: bv32) returns (x: bv32, y: bv32)
    requires 2 * (i + 16) <= sk.Length
    ensures Block(y, x) == Feistel(f, sk[..], i, 16, Block(y0, x0))
  {
    hide Feistel;
    ghost var b, k := Block(y0, x0), sk[..];
    x, y := TwoRounds(f, sk, i, x0, y0);
    x, y := TwoRounds(f, sk, i + 2, x, y);
    FeistelSplit(f, k, i, 2, 2, b);
    x, y := TwoRounds(f, sk, i + 4, x, y);
    FeistelSplit(f, k, i, 4, 2, b);
    x, y := TwoRounds(f, sk, i + 6, x, y);
    FeistelSplit(f, k, i, 6, 2, b);
    x, y := TwoRounds(f, sk, i + 8, x, y);
    FeistelSplit(f, k, i, 8, 2, b);
    x, y := TwoRounds(f, sk, i + 10, x, y);
    FeistelSplit(f, k, i, 10, 2, b);
    x, y := TwoRounds(f, sk, i + 12, x, y);
    FeistelSplit(f, k, i, 12, 2, b);
    x, y := TwoRounds(f, sk, i + 14, x, y);
    FeistelSplit(f, k, i, 14, 2, b);
  }

  /** `GET_UINT32` at two places. */
  method GetBlock(input: array<bv8>, at: nat) returns (x: bv32, y: bv32)
    requires at + 8 <= input.Length
    ensures Block(x, y) == Decode(input[at..at + 8])
  {
    x := Word(input[at], input[at + 1], input[at + 2], input[at + 3]);
    y := Word(input[at + 4], input[at + 5], input[at + 6], input[at + 7]);
  }

  /** `PUT_UINT32` */
  method PutWord(w: bv32, output: array<bv8>, at: nat)
    requires at + 4 <= output.Length
    modifies output
    ensures output[..] == old(output[..at]) + Bytes(w) + old(output[at + 4..])
  {
    output[at] := ByteAt(w, 24);
    output[at + 1] := ByteAt(w, 16);
    output[at + 2] := ByteAt(w, 8);
    output[at + 3] := ByteAt(w, 0);
  }

  /** `s` with the eight octets at `at` replaced by those of `b`. */
  ghost function Patched(s: seq<bv8>, at: nat, b: Block): seq<bv8>
    requires at + 8 <= |s|
  {
    s[..at] + Encode(b) + s[at + 8..]
  }

  method PutBlock(x: bv32, y: bv32, output: array<bv8>, at: nat)
    requires at + 8 <= output.Length
    modifies output
    ensures output[..] == Patched(old(output[..]), at, Block(x, y))
  {
    hide Bytes;
    ghost var s := output[..];
    PutWord(x, output, at);
    PutWord(y, output, at + 4);
    PatchTwice(s, at, x, y);
  }

  lemma PatchTwice(s: seq<bv8>, at: nat, x: bv32, y: bv32)
    requires at + 8 <= |s|
    ensures |Bytes(x)| == 4
    ensures var t := s[..at] + Bytes(x) + s[at + 4..];
      |t| == |s| && t[..at + 4] + Bytes(y) + t[at + 8..] == Patched(s, at, Block(x, y))
  {
    var t := s[..at] + Bytes(x) + s[at + 4..];
    assert t[..at + 4] == s[..at] + Bytes(x);
    assert t[at + 8..] == s[at + 8..];
  }

  /** `des_crypt` */
  method DesCrypt(f: Round, sk: array<bv32>, input: array<bv8>, i: nat, output: array<bv8>, o: nat)
    requires sk.Length == 32 && i + 8 <= input.Length && o + 8 <= output.Length
    modifies output
    ensures output[..] == Patched(old(output[..]), o, Des(f, sk[..], 0, old(Decode(input[i..i + 8]))))
  {
    hide Feistel, Ip, Fp, Decode, Patched;
    var x, y := GetBlock(input, i);
    var b := Ip(Block(x, y));
    x, y := b.x, b.y;
    x, y := SixteenRounds(f, sk, 0, x, y);
    b := Fp(Block(y, x));
    PutBlock(b.x, b.y, output, o);
  }

  /** `des3_crypt`: the permutations between the passes are left out, and `X` and `Y` exchanged. */
  method Des3Crypt(f: Round, sk: array<bv32>, input: array<bv8>, i: nat, output: array<bv8>, o: nat)
    requires sk.Length == 96 && i + 8 <= input.Length && o + 8 <= output.Length
    modifies output
    ensures output[..] == Patched(old(output[..]), o, Des3(f, sk[..], old(Decode(input[i..i + 8]))))
  {
    hide Feistel, Ip, Fp, Decode, Patched, Des3;
    var x, y := GetBlock(input, i);
    FusedIsDes3(f, sk[..], Block(x, y));
    var b := Ip(Block(x, y));
    x, y := b.x, b.y;
    x, y := SixteenRounds(f, sk, 0, x, y);
    y, x := SixteenRounds(f, sk, 16, y, x);
    x, y := SixteenRounds(f, sk, 32, x, y);
    b := Fp(Block(y, x));
    PutBlock(b.x, b.y, output, o);
  }

  // ----- subkeys -----

  /** The subkeys with their pairs in reverse. */
  function Reversed(k: Subkeys): Subkeys {
    seq(32, i requires 0 <= i < 32 => if i % 2 == 0 then k[30 - i] else k[32 - i])
  }

  /** The encryption subkeys for three keys: encrypt, decrypt, encrypt. */
  function EncryptKeys(k1: Subkeys, k2: Subkeys, k3: Subkeys): seq<bv32> {
    k1 + Reversed(k2) + k3
  }

  function DecryptKeys(k1: Subkeys, k2: Subkeys, k3: Subkeys): seq<bv32> {
    Reversed(k3) + k2 + Reversed(k1)
  }

  lemma ReversedMirrors(k: Subkeys)
    ensures Mirrored(k, 0, Reversed(k), 0, 16) && Mirrored(Reversed(k), 0, k, 0, 16)
  {
  }

  /** The decryption subkeys are the encryption subkeys in reverse, and the other way round. */
  lemma KeysMirrored(k1: Subkeys, k2: Subkeys, k3: Subkeys)
    ensures Mirrored(EncryptKeys(k1, k2, k3), 0, DecryptKeys(k1, k2, k3), 0, 48)
    ensures Mirrored(DecryptKeys(k1, k2, k3), 0, EncryptKeys(k1, k2, k3), 0, 48)
  {
    var from, to := EncryptKeys(k1, k2, k3), DecryptKeys(k1, k2, k3);
    forall k | 0 <= k < 48 ensures PairAt(to, k) == PairAt(from, 47 - k) {
      assert k < 16 ==> to[2 * k] == Reversed(k3)[2 * k] && to[2 * k + 1] == Reversed(k3)[2 * k + 1];
      assert k >= 32 ==> to[2 * k] == Reversed(k1)[2 * k - 64] && to[2 * k + 1] == Reversed(k1)[2 * k - 63];
    }
    MirroredBack(from, to, 48);
  }

  lemma MirroredBack(from: seq<bv32>, to: seq<bv32>, n: nat)
    requires 2 * n <= |from| && 2 * n <= |to| && Mirrored(from, 0, to, 0, n)
    ensures Mirrored(to, 0, from, 0, n)
  {
    hide PairAt;
    forall k | 0 <= k < n ensures PairAt(from, k) == PairAt(to, n - 1 - k) {
      assert PairAt(to, n - 1 - k) == PairAt(from, k);
    }
  }

  lemma {:induction false} FeistelWindow(f: Round, sk: seq<bv32>, i: nat, k: seq<bv32>, j: nat, n: nat, b: Block)
    requires 2 * (i + n) <= |sk| && 2 * (j + n) <= |k|
    requires sk[2 * i..2 * (i + n)] == k[2 * j..2 * (j + n)]
    ensures Feistel(f, sk, i, n, b) == Feistel(f, k, j, n, b)
    decreases n
  {
    hide OneRound;
    if n > 0 {
      var s, t := sk[2 * i..2 * (i + n)], k[2 * j..2 * (j + n)];
      assert s[0] == sk[2 * i] && s[1] == sk[2 * i + 1] && t[0] == k[2 * j] && t[1] == k[2 * j + 1];
      assert sk[2 * (i + 1)..2 * (i + n)] == s[2..] && k[2 * (j + 1)..2 * (j + n)] == t[2..];
      FeistelWindow(f, sk, i + 1, k, j + 1, n - 1, OneRound(f, PairAt(sk, i), b));
    }
  }

  /** What triple DES is: an encryption, a decryption with the second key, an encryption. */
  lemma EncryptDecryptEncrypt(f: Round, k1: Subkeys, k2: Subkeys, k3: Subkeys, b: Block)
    ensures Des3(f, EncryptKeys(k1, k2, k3), b) == Des(f, k3, 0, Des(f, Reversed(k2), 0, Des(f, k1, 0, b)))
  {
    hide Feistel, Ip, Fp, Reversed;
    var sk := EncryptKeys(k1, k2, k3);
    var b1 := Des(f, k1, 0, b);
    var b2 := Des(f, Reversed(k2), 0, b1);
    FeistelWindow(f, sk, 0, k1, 0, 16, Swapped(Ip(b)));
    FeistelWindow(f, sk, 16, Reversed(k2), 0, 16, Swapped(Ip(b1)));
    FeistelWindow(f, sk, 32, k3, 0, 16, Swapped(Ip(b2)));
  }

  // ----- contexts -----

  /** `des_main_ks` into the subkey words from `at` on. */
  method MainKs(schedule: Schedule, key: Key, sk: array<bv32>, at: nat)
    requires at + 32 <= sk.Length
    modifies sk
    ensures Part(sk[..], at, 32, schedule(key))
    ensures forall k :: 0 <= k < at || at + 32 <= k < sk.Length ==> sk[..][k] == old(sk[..])[k]
  {
    var words := schedule(key);
    var i := 0;
    while i < 16
      invariant 0 <= i <= 16
      invariant forall k :: 0 <= k < sk.Length ==> sk[k] == if at <= k < at + 2 * i then words[k - at] else old(sk[k])
    {
      sk[at + 2 * i] := words[2 * i];
      sk[at + 2 * i + 1] := words[2 * i + 1];
      i := i + 1;
    }
  }

  class DesContext {
    const schedule: Schedule
    const round: Round
    const esk: array<bv32>
    const dsk: array<bv32>

    constructor (schedule: Schedule, round: Round)
      ensures Valid() && fresh(esk) && fresh(dsk)
      ensures this.schedule == schedule && this.round == round
    {
      this.schedule, this.round := schedule, round;
      esk, dsk := new bv32[32](i => 0), new bv32[32](i => 0);
    }

    ghost predicate Valid() {
      esk.Length == dsk.Length == 32 && esk != dsk
    }

    /** One turn of the loop of `des_set_key`. */
    method Turn(i: nat)
      requires Valid() && i < 32 && i % 2 == 0
      modifies dsk
      ensures dsk[i] == esk[30 - i] && dsk[i + 1] == esk[31 - i]
      ensures forall k :: 0 <= k < i ==> dsk[..][k] == old(dsk[..])[k]
    {
      dsk[i] := esk[30 - i];
      dsk[i + 1] := esk[31 - i];
    }

    /** `des_set_key` */
    method SetKey(key: Key)
      requires Valid()
      modifies esk, dsk
      ensures esk[..] == schedule(key) && dsk[..] == Reversed(schedule(key))
    {
      hide Reversed, Part;
      ghost var keys: Subkeys := schedule(key);
      MainKs(schedule, key, esk, 0);
      NoPart(dsk[..], 0, Reversed(keys));
      var i := 0;
      while i < 32
        invariant 0 <= i <= 32 && i % 2 == 0
        invariant Part(esk[..], 0, 32, keys) && Part(dsk[..], 0, i, Reversed(keys))
      {
        ghost var d := dsk[..];
        ReversedPart(esk[..], 0, keys, 30 - i);
        Turn(i);
        PartGrows(d, dsk[..], 0, i, Reversed(keys));
        i := i + 2;
      }
      WholePart(esk[..], keys);
      WholePart(dsk[..], Reversed(keys));
    }

    /** `des_encrypt` and `des_decrypt` undo each other. */
    lemma DecryptsEncrypted(key: Key, b: Block)
      requires Valid() && esk[..] == schedule(key) && dsk[..] == Reversed(schedule(key))
      ensures Des(round, dsk[..], 0, Des(round, esk[..], 0, b)) == b
      ensures Des(round, esk[..], 0, Des(round, dsk[..], 0, b)) == b
    {
      hide Mirrored, Des, Reversed;
      ReversedMirrors(schedule(key));
      DesInverse(round, esk[..], 0, dsk[..], 0, b);
      DesInverse(round, dsk[..], 0, esk[..], 0, b);
    }
  }

  class Des3Context {
    const schedule: Schedule
    const round: Round
    const esk: array<bv32>
    const dsk: array<bv32>

    constructor (schedule: Schedule, round: Round)
      ensures Valid() && fresh(esk) && fresh(dsk)
      ensures this.schedule == schedule && this.round == round
    {
      this.schedule, this.round := schedule, round;
      esk, dsk := new bv32[96](i => 0), new bv32[96](i => 0);
    }

    ghost predicate Valid() {
      esk.Length == dsk.Length == 96 && esk != dsk
    }

    /** The context is keyed with the subkeys of three keys. */
    ghost predicate Keyed(key1: Key, key2: Key, key3: Key)
      reads esk, dsk
    {
      && esk[..] == EncryptKeys(schedule(key1), schedule(key2), schedule(key3))
      && dsk[..] == DecryptKeys(schedule(key1), schedule(key2), schedule(key3))
    }

    /** One turn of the loop of `des3_set_2keys`. */
    method Turn2(i: nat)
      requires Valid() && i < 32 && i % 2 == 0
      modifies esk, dsk
      ensures esk[i + 32] == old(dsk[62 - i]) && esk[i + 33] == old(dsk[63 - i])
      ensures esk[i + 64] == old(esk[i]) && esk[i + 65] == old(esk[i + 1])
      ensures forall k :: 0 <= k < 32 + i || 34 + i <= k < 64 + i ==> esk[..][k] == old(esk[..])[k]
      ensures dsk[i] == dsk[i + 64] == old(esk[30 - i]) && dsk[i + 1] == dsk[i + 65] == old(esk[31 - i])
      ensures forall k :: 0 <= k < i || i + 2 <= k < 64 + i ==> dsk[..][k] == old(dsk[..])[k]
    {
      dsk[i] := esk[30 - i];
      dsk[i + 1] := esk[31 - i];
      esk[i + 32] := dsk[62 - i];
      esk[i + 33] := dsk[63 - i];
      esk[i + 64] := esk[i];
      esk[i + 65] := esk[1 + i];
      dsk[i + 64] := dsk[i];
      dsk[i + 65] := dsk[1 + i];
    }

    /** One turn of the loop of `des3_set_3keys`. */
    method Turn3(i: nat)
      requires Valid() && i < 32 && i % 2 == 0
      modifies esk, dsk
      ensures esk[i + 32] == old(dsk[62 - i]) && esk[i + 33] == old(dsk[63 - i])
      ensures forall k :: 0 <= k < 32 + i || 34 + i <= k < 96 ==> esk[..][k] == old(esk[..])[k]
      ensures dsk[i] == old(esk[94 - i]) && dsk[i + 1] == old(esk[95 - i])
      ensures dsk[i + 64] == old(esk[30 - i]) && dsk[i + 65] == old(esk[31 - i])
      ensures forall k :: 0 <= k < i || i + 2 <= k < 64 + i ==> dsk[..][k] == old(dsk[..])[k]
    {
      dsk[i] := esk[94 - i];
      dsk[i + 1] := esk[95 - i];
      esk[i + 32] := dsk[62 - i];
      esk[i + 33] := dsk[63 - i];
      dsk[i + 64] := esk[30 - i];
      dsk[i + 65] := esk[31 - i];
    }

    /** Where the loop of `des3_set_2keys` is after the words below `i`. */
    ghost predicate Set2(i: nat, k1: Subkeys, k2: Subkeys)
      requires Valid() && i <= 32
      reads esk, dsk
    {
      && Part(esk[..], 0, 32, k1) && Part(esk[..], 32, i, Reversed(k2)) && Part(esk[..], 64, i, k1)
      && Part(dsk[..], 0, i, Reversed(k1)) && Part(dsk[..], 32, 32, k2) && Part(dsk[..], 64, i, Reversed(k1))
    }

    method Step2(i: nat, ghost k1: Subkeys, ghost k2: Subkeys)
      requires Valid() && i < 32 && i % 2 == 0 && Set2(i, k1, k2)
      modifies esk, dsk
      ensures Set2(i + 2, k1, k2)
    {
      hide Reversed, Part;
      ghost var e, d := esk[..], dsk[..];
      ReversedPart(e, 0, k1, 30 - i);
      ReversedPart(d, 32, k2, 30 - i);
      PartAt(e, 0, 32, k1, i);
      Turn2(i);
      PartStays(e, esk[..], 0, 32, k1);
      PartGrows(e, esk[..], 32, i, Reversed(k2));
      PartGrows(e, esk[..], 64, i, k1);
      PartGrows(d, dsk[..], 0, i, Reversed(k1));
      PartStays(d, dsk[..], 32, 32, k2);
      PartGrows(d, dsk[..], 64, i, Reversed(k1));
    }

    /** `des3_set_2keys`: the loop reads words that it has written in the same turn. */
    method Set2Keys(key1: Key, key2: Key)
      requires Valid()
      modifies esk, dsk
      ensures Keyed(key1, key2, key1)
    {
      hide Reversed, Part, Set2;
      ghost var k1, k2: Subkeys := schedule(key1), schedule(key2);
      MainKs(schedule, key1, esk, 0);
      MainKs(schedule, key2, dsk, 32);
      Start2(k1, k2);
      var i := 0;
      while i < 32
        invariant 0 <= i <= 32 && i % 2 == 0 && Set2(i, k1, k2)
      {
        Step2(i, k1, k2);
        i := i + 2;
      }
      End2(k1, k2);
    }

    lemma Start2(k1: Subkeys, k2: Subkeys)
      requires Valid() && Part(esk[..], 0, 32, k1) && Part(dsk[..], 32, 32, k2)
      ensures Set2(0, k1, k2)
    {
      hide Reversed;
    }

    lemma End2(k1: Subkeys, k2: Subkeys)
      requires Valid() && Set2(32, k1, k2)
      ensures esk[..] == k1 + Reversed(k2) + k1 && dsk[..] == Reversed(k1) + k2 + Reversed(k1)
    {
      hide Reversed, Part;
      ThreeParts(esk[..], k1, Reversed(k2), k1);
      ThreeParts(dsk[..], Reversed(k1), k2, Reversed(k1));
    }

    /** The three key schedules of `des3_set_3keys`. */
    method Load3(key1: Key, key2: Key, key3: Key)
      requires Valid()
      modifies esk, dsk
      ensures Part(esk[..], 0, 32, schedule(key1)) && Part(dsk[..], 32, 32, schedule(key2))
      ensures Part(esk[..], 64, 32, schedule(key3))
    {
      hide Part;
      MainKs(schedule, key1, esk, 0);
      MainKs(schedule, key2, dsk, 32);
      ghost var e := esk[..];
      MainKs(schedule, key3, esk, 64);
      PartStays(e, esk[..], 0, 32, schedule(key1));
    }

    /** Where the loop of `des3_set_3keys` is after the words below `i`. */
    ghost predicate Set3(i: nat, k1: Subkeys, k2: Subkeys, k3: Subkeys)
      requires Valid() && i <= 32
      reads esk, dsk
    {
      && Part(esk[..], 0, 32, k1) && Part(esk[..], 32, i, Reversed(k2)) && Part(esk[..], 64, 32, k3)
      && Part(dsk[..], 0, i, Reversed(k3)) && Part(dsk[..], 32, 32, k2) && Part(dsk[..], 64, i, Reversed(k1))
    }

    method Step3(i: nat, ghost k1: Subkeys, ghost k2: Subkeys, ghost k3: Subkeys)
      requires Valid() && i < 32 && i % 2 == 0 && Set3(i, k1, k2, k3)
      modifies esk, dsk
      ensures Set3(i + 2, k1, k2, k3)
    {
      hide Reversed, Part;
      ghost var e, d := esk[..], dsk[..];
      ReversedPart(e, 0, k1, 30 - i);
      ReversedPart(d, 32, k2, 30 - i);
      ReversedPart(e, 64, k3, 30 - i);
      Turn3(i);
      PartStays(e, esk[..], 0, 32, k1);
      PartGrows(e, esk[..], 32, i, Reversed(k2));
      PartStays(e, esk[..], 64, 32, k3);
      PartGrows(d, dsk[..], 0, i, Reversed(k3));
      PartStays(d, dsk[..], 32, 32, k2);
      PartGrows(d, dsk[..], 64, i, Reversed(k1));
    }

    /** `des3_set_3keys` */
    method Set3Keys(key1: Key, key2: Key, key3: Key)
      requires Valid()
      modifies esk, dsk
      ensures Keyed(key1, key2, key3)
    {
      hide Reversed, Part, Set3;
      ghost var k1, k2, k3: Subkeys := schedule(key1), schedule(key2), schedule(key3);
      Load3(key1, key2, key3);
      Start3(k1, k2, k3);
      var i := 0;
      while i < 32
        invariant 0 <= i <= 32 && i % 2 == 0 && Set3(i, k1, k2, k3)
      {
        Step3(i, k1, k2, k3);
        i := i + 2;
      }
      End3(k1, k2, k3);
    }

    lemma Start3(k1: Subkeys, k2: Subkeys, k3: Subkeys)
      requires Valid() && Part(esk[..], 0, 32, k1) && Part(dsk[..], 32, 32, k2) && Part(esk[..], 64, 32, k3)
      ensures Set3(0, k1, k2, k3)
    {
      hide Reversed;
    }

    lemma End3(k1: Subkeys, k2: Subkeys, k3: Subkeys)
      requires Valid() && Set3(32, k1, k2, k3)
      ensures esk[..] == k1 + Reversed(k2) + k3 && dsk[..] == Reversed(k3) + k2 + Reversed(k1)
    {
      hide Reversed, Part;
      ThreeParts(esk[..], k1, Reversed(k2), k3);
      ThreeParts(dsk[..], Reversed(k3), k2, Reversed(k1));
    }

    /** `des3_setkey_ex`: 16 and 24 octets are two and three keys; other lengths set nothing. */
    method SetKeyEx(key: seq<bv8>)
      requires Valid()
      modifies esk, dsk
      ensures |key| == 16 ==> Keyed(key[..8], key[8..16], key[..8])
      ensures |key| == 24 ==> Keyed(key[..8], key[8..16], key[16..24])
      ensures |key| != 16 && |key| != 24 ==> esk[..] == old(esk[..]) && dsk[..] == old(dsk[..])
    {
      if |key| == 16 {
        Set2Keys(key[..8], key[8..16]);
      } else if |key| == 24 {
        Set3Keys(key[..8], key[8..16], key[16..24]);
      }
    }

    /** `des3_encrypt_ex` */
    method EncryptEx(input: array<bv8>, output: array<bv8>, len: int)
      requires Valid() && RoundUp(len) <= input.Length && RoundUp(len) <= output.Length
      modifies output
      ensures output[..RoundUp(len)] == Ecb(round, esk[..], old(input[..RoundUp(len)]))
      ensures output[RoundUp(len)..] == old(output[RoundUp(len)..])
    {
      Des3Blocks(round, esk, input, output, len);
    }

    /** `des3_decrypt_ex` */
    method DecryptEx(input: array<bv8>, output: array<bv8>, len: int)
      requires Valid() && RoundUp(len) <= input.Length && RoundUp(len) <= output.Length
      modifies output
      ensures output[..RoundUp(len)] == Ecb(round, dsk[..], old(input[..RoundUp(len)]))
      ensures output[RoundUp(len)..] == old(output[RoundUp(len)..])
    {
      Des3Blocks(round, dsk, input, output, len);
    }

    /** What a keyed context encrypts to: with the first key, backwards with the second, with the third. */
    lemma Encrypts(key1: Key, key2: Key, key3: Key, b: Block)
      requires Valid() && Keyed(key1, key2, key3)
      ensures Des3(round, esk[..], b) ==
        Des(round, schedule(key3), 0, Des(round, Reversed(schedule(key2)), 0, Des(round, schedule(key1), 0, b)))
    {
      hide Des, Reversed, EncryptKeys, Des3;
      EncryptDecryptEncrypt(round, schedule(key1), schedule(key2), schedule(key3), b);
    }

    /** With any keys, decryption undoes encryption and encryption undoes decryption. */
    lemma DecryptsEncrypted(key1: Key, key2: Key, key3: Key, s: seq<bv8>)
      requires Valid() && Keyed(key1, key2, key3) && |s| % 8 == 0
      ensures Ecb(round, dsk[..], Ecb(round, esk[..], s)) == s
      ensures Ecb(round, esk[..], Ecb(round, dsk[..], s)) == s
    {
      hide Mirrored, Ecb, EncryptKeys, DecryptKeys;
      KeysMirrored(schedule(key1), schedule(key2), schedule(key3));
      EcbInverse(round, esk[..], dsk[..], s);
      EcbInverse(round, dsk[..], esk[..], s);
    }
  }

  /** `n` words of `k` are in `s` from `at` on. */
  ghost predicate Part(s: seq<bv32>, at: nat, n: nat, k: Subkeys)
    requires at + n <= |s| && n <= 32
  {
    forall j :: at <= j < at + n ==> s[j] == k[j - at]
  }

  lemma NoPart(s: seq<bv32>, at: nat, k: Subkeys)
    requires at <= |s|
    ensures Part(s, at, 0, k)
  {
  }

  lemma PartStays(s: seq<bv32>, s': seq<bv32>, at: nat, n: nat, k: Subkeys)
    requires at + n <= |s| == |s'| && n <= 32 && Part(s, at, n, k)
    requires forall j :: at <= j < at + n ==> s'[j] == s[j]
    ensures Part(s', at, n, k)
  {
  }

  lemma PartGrows(s: seq<bv32>, s': seq<bv32>, at: nat, n: nat, k: Subkeys)
    requires at + n + 2 <= |s| == |s'| && n + 2 <= 32 && Part(s, at, n, k)
    requires forall j :: at <= j < at + n ==> s'[j] == s[j]
    requires s'[at + n] == k[n] && s'[at + n + 1] == k[n + 1]
    ensures Part(s', at, n + 2, k)
  {
  }

  lemma PartAt(s: seq<bv32>, at: nat, n: nat, k: Subkeys, i: nat)
    requires at + n <= |s| && i + 1 < n <= 32 && Part(s, at, n, k)
    ensures s[at + i] == k[i] && s[at + i + 1] == k[i + 1]
  {
  }

  lemma ReversedPart(s: seq<bv32>, at: nat, k: Subkeys, i: nat)
    requires at + 32 <= |s| && Part(s, at, 32, k) && i % 2 == 0 && i < 32
    ensures s[at + i] == Reversed(k)[30 - i] && s[at + i + 1] == Reversed(k)[31 - i]
  {
    hide Reversed, Part;
    PartAt(s, at, 32, k, i);
    ReversedAt(k, 30 - i);
  }

  lemma ReversedAt(k: Subkeys, i: nat)
    requires i % 2 == 0 && i < 32
    ensures Reversed(k)[i] == k[30 - i] && Reversed(k)[i + 1] == k[31 - i]
  {
  }

  lemma WholePart(s: seq<bv32>, k: Subkeys)
    requires |s| == 32 && Part(s, 0, 32, k)
    ensures s == k
  {
  }

  lemma ThreeParts(s: seq<bv32>, a: Subkeys, b: Subkeys, c: Subkeys)
    requires |s| == 96 && Part(s, 0, 32, a) && Part(s, 32, 32, b) && Part(s, 64, 32, c)
    ensures s == a + b + c
  {
  }

  // ----- buffers -----

  /** The octets that the loops of `des3_encrypt_ex` and `des3_decrypt_ex` touch. */
  function RoundUp(len: int): nat {
    if len <= 0 then 0 else (len + 7) / 8 * 8
  }

  /** Block after block; the input may be the output. */
  method Des3Blocks(f: Round, sk: array<bv32>, input: array<bv8>, output: array<bv8>, len: int)
    requires sk.Length == 96 && RoundUp(len) <= input.Length && RoundUp(len) <= output.Length
    modifies output
    ensures output[..RoundUp(len)] == Ecb(f, sk[..], old(input[..RoundUp(len)]))
    ensures output[RoundUp(len)..] == old(output[RoundUp(len)..])
  {
    hide Ecb, Des3, Decode, Encode, Patched, RoundUp;
    ghost var from, k := input[..], sk[..];
    EcbNone(f, k);
    var i := 0;
    while i < len
      invariant 0 <= i <= RoundUp(len) && i % 8 == 0
      invariant output[..i] == Ecb(f, k, from[..i])
      invariant output[i..] == old(output[i..])
      invariant input[i..] == from[i..]
    {
      RoundUpNext(len, i);
      ghost var s := output[..];
      NextEight(input[..], from, i);
      ghost var b := Des3(f, k, Decode(from[i..i + 8]));
      Des3Crypt(f, sk, input, i, output, i);
      PatchedParts(s, i, b);
      EcbNext(f, k, from, i);
      i := i + 8;
    }
    RoundUpReached(len, i);
  }

  lemma RoundUpNext(len: int, i: nat)
    requires i < len && i % 8 == 0
    ensures i + 8 <= RoundUp(len) && (i + 8) % 8 == 0
  {
  }

  lemma RoundUpReached(len: int, i: nat)
    requires len <= i <= RoundUp(len) && i % 8 == 0
    ensures i == RoundUp(len)
  {
  }

  lemma NextEight(s: seq<bv8>, from: seq<bv8>, i: nat)
    requires i + 8 <= |s| == |from| && s[i..] == from[i..]
    ensures s[i..i + 8] == from[i..i + 8] && s[i + 8..] == from[i + 8..]
  {
    assert s[i..][..8] == s[i..i + 8] && from[i..][..8] == from[i..i + 8];
    assert s[i..][8..] == s[i + 8..] && from[i..][8..] == from[i + 8..];
  }

  lemma EcbNone(f: Round, sk: seq<bv32>)
    requires |sk| == 96
    ensures Ecb(f, sk, []) == []
  {
  }

  lemma EcbNext(f: Round, sk: seq<bv32>, s: seq<bv8>, i: nat)
    requires |sk| == 96 && i + 8 <= |s| && i % 8 == 0
    ensures Ecb(f, sk, s[..i + 8]) == Ecb(f, sk, s[..i]) + Encode(Des3(f, sk, Decode(s[i..i + 8])))
  {
    hide Ecb, Des3, Decode, Encode;
    assert s[..i + 8] == s[..i] + s[i..i + 8];
    EcbLast(f, sk, s[..i], s[i..i + 8]);
  }

  lemma PatchedParts(s: seq<bv8>, at: nat, b: Block)
    requires at + 8 <= |s|
    ensures Patched(s, at, b)[..at + 8] == s[..at] + Encode(b) && Patched(s, at, b)[at + 8..] == s[at + 8..]
    ensures |Patched(s, at, b)| == |s|
  {
  }
}
