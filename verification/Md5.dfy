/**
  Streaming MD5.  The compression of one block is an arbitrary function; what
  is modelled is how the message reaches it: buffer, offset, length, padding.
 */
module Md5 {

  type Byte = b: int | 0 <= b < 256
  type Word = w: int | 0 <= w < WORD_RANGE
  const WORD_RANGE := 0x1_0000_0000

  datatype Words = Words(a: Word, b: Word, c: Word, d: Word)

  type Block = s: seq<Byte> | |s| == 64 witness seq(64, i => 0)

  /** `md5_process` as a function of the four words and the block. */
  type Compression = (Words, Block) -> Words

  // ----- the digest of a message: RFC 1321 -----

  /** Section 3.3. */
  const INITIAL := Words(0x67452301, 0xefcdab89, 0x98badcfe, 0x10325476)

  /** Section 3.4: the words after all complete blocks of `s`. */
  ghost function Fold(compress: Compression, w: Words, s: seq<Byte>): Words
    decreases |s|
  {
    if |s| < 64 then w else Fold(compress, compress(w, s[..64]), s[64..])
  }

  function Zeros(n: nat): seq<Byte> {
    seq(n, i => 0)
  }

  /** The low `n` bytes of a number, low byte first. */
  function LittleEndian(value: nat, n: nat): (s: seq<Byte>)
    ensures |s| == n
  {
    if n == 0 then [] else [value % 256] + LittleEndian(value / 256, n - 1)
  }

  /** Section 3.1: `p` is `m`, a one bit, and as few zero bits as bring the length to 448 mod 512. */
  ghost predicate IsPadded(m: seq<Byte>, p: seq<Byte>) {
    exists k: nat :: p == m + [0x80] + Zeros(k) && |p| % 64 == 56 && k < 64
  }

  ghost function Padding(m: seq<Byte>): nat {
    (55 - |m|) % 64
  }

  /** Sections 3.1 and 3.2: the padded message and its length in bits modulo 2^64. */
  ghost function Padded(m: seq<Byte>): seq<Byte> {
    m + [0x80] + Zeros(Padding(m)) + LittleEndian(8 * |m|, 8)
  }

  /** Sections 3.4 and 3.5. */
  ghost function Digest(compress: Compression, m: seq<Byte>): seq<Byte> {
    Output(Fold(compress, INITIAL, Padded(m)))
  }

  function Output(w: Words): seq<Byte> {
    LittleEndian(w.a, 4) + LittleEndian(w.b, 4) + LittleEndian(w.c, 4) + LittleEndian(w.d, 4)
  }

  /** The padding is the one that section 3.1 asks for, and there is no other. */
  lemma PaddedIs(m: seq<Byte>, p: seq<Byte>)
    ensures IsPadded(m, p) <==> p == m + [0x80] + Zeros(Padding(m))
  {
    PadLength(|m|, Padding(m));
    if p == m + [0x80] + Zeros(Padding(m)) {
      assert |p| == |m| + 1 + Padding(m);
    }
    if IsPadded(m, p) {
      var k: nat :| p == m + [0x80] + Zeros(k) && |p| % 64 == 56 && k < 64;
      PadLength(|m|, k);
    }
  }

  /** A piece of data in two parts. */
  lemma Split(data: seq<Byte>, p: nat, n: nat, k: nat)
    requires k <= n && p + n <= |data|
    ensures data[p..p + n] == data[p..p + k] + data[p + k..p + n]
  {
    var s := data[p..p + n];
    assert s == s[..k] + s[k..];
  }

  lemma PaddedParts(m: seq<Byte>, pad: seq<Byte>, length: seq<Byte>)
    requires pad == [0x80] + Zeros(Padding(m)) && length == LittleEndian(8 * |m|, 8)
    ensures m + pad + length == Padded(m)
  {
    hide LittleEndian;
    assert m + pad == m + [0x80] + Zeros(Padding(m));
  }

  lemma PadBytes(m: seq<Byte>, pad: seq<Byte>)
    requires |pad| == 64 && forall i :: 0 <= i < 64 ==> pad[i] == if i == 0 then 0x80 else 0
    ensures pad[..Padding(m) + 1] == [0x80] + Zeros(Padding(m))
  {
  }

  /** The padded message is a whole number of blocks. */
  lemma PaddedWhole(m: seq<Byte>)
    ensures |Padded(m)| % 64 == 0
  {
    hide LittleEndian, Padding;
    PaddingBound(m);
    PadLength(|m|, Padding(m));
    assert |Padded(m)| == |m| + 1 + Padding(m) + 8;
    EightMore(|m| + 1 + Padding(m));
  }

  lemma PaddingBound(m: seq<Byte>)
    ensures Padding(m) < 64 && Padding(m) == (55 - |m|) % 64
  {
  }

  lemma EightMore(n: nat)
    requires n % 64 == 56
    ensures (n + 8) % 64 == 0
  {
  }

  lemma SameRest(a: nat, b: nat)
    requires a % 64 == b % 64
    ensures (55 - a) % 64 == (55 - b) % 64
  {
    var k := b / 64 - a / 64;
    assert 55 - a == 55 - b + 64 * k;
    WholeBlocks(55 - b, k);
  }

  lemma WholeBlocks(n: int, k: int)
    ensures (n + 64 * k) % 64 == n % 64
  {
  }

  lemma PadLength(n: nat, k: nat)
    requires k < 64
    ensures (n + 1 + k) % 64 == 56 <==> k == (55 - n) % 64
  {
  }

  lemma {:induction false} FoldAppend(compress: Compression, w: Words, s: seq<Byte>, t: seq<Byte>)
    requires |s| % 64 == 0
    ensures Fold(compress, w, s + t) == Fold(compress, Fold(compress, w, s), t)
    decreases |s|
  {
    if s == [] {
      assert s + t == t;
    } else {
      assert (s + t)[..64] == s[..64] && (s + t)[64..] == s[64..] + t;
      FoldAppend(compress, compress(w, s[..64]), s[64..], t);
    }
  }

  /** One more block. */
  lemma FoldNext(compress: Compression, w: Words, s: seq<Byte>, b: Block)
    requires |s| % 64 == 0
    ensures Fold(compress, w, s + b) == compress(Fold(compress, w, s), b)
  {
    FoldAppend(compress, w, s, b);
    assert b[..64] == b;
  }

  /** An incomplete last block is not used. */
  lemma FoldWhole(compress: Compression, w: Words, s: seq<Byte>, t: seq<Byte>)
    requires |s| % 64 == 0 && |t| < 64
    ensures Fold(compress, w, s + t) == Fold(compress, w, s)
  {
    FoldAppend(compress, w, s, t);
  }

  // ----- what a digest is, without recursion -----

  /** The sections of RFC 1321 in turn: a one bit and zeros (3.1), the length in bits modulo 2^64 with
      its low byte first (3.2), the initial words (3.3), one compression for each block of 64 bytes
      (3.4), and the bytes of the last words, low byte first (3.5).  Whatever satisfies them gives the
      digest. */
  lemma DigestIs(compress: Compression, m: seq<Byte>, zeros: seq<Byte>, length: seq<Byte>, p: seq<Byte>, w: seq<Words>)
    requires |length| == 8
    requires
      length[0] as int + 0x100 * (length[1] as int) + 0x1_0000 * (length[2] as int) + 0x100_0000 * (length[3] as int) +
      0x1_0000_0000 * (length[4] as int) + 0x100_0000_0000 * (length[5] as int) +
      0x1_0000_0000_0000 * (length[6] as int) + 0x100_0000_0000_0000 * (length[7] as int)
        == 8 * |m| % 0x1_0000_0000_0000_0000
    requires p == m + [0x80] + zeros + length && |zeros| < 64 && |p| % 64 == 0 && forall i :: 0 <= i < |zeros| ==> zeros[i] == 0
    requires |w| == |p| / 64 + 1 && w[0] == Words(0x67452301, 0xefcdab89, 0x98badcfe, 0x10325476)
    requires forall k :: 0 <= k < |p| / 64 ==> w[k + 1] == compress(w[k], p[64 * k..64 * k + 64])
    ensures var v := w[|p| / 64];
      Digest(compress, m) == [
        v.a % 0x100, v.a / 0x100 % 0x100, v.a / 0x1_0000 % 0x100, v.a / 0x100_0000 % 0x100,
        v.b % 0x100, v.b / 0x100 % 0x100, v.b / 0x1_0000 % 0x100, v.b / 0x100_0000 % 0x100,
        v.c % 0x100, v.c / 0x100 % 0x100, v.c / 0x1_0000 % 0x100, v.c / 0x100_0000 % 0x100,
        v.d % 0x100, v.d / 0x100 % 0x100, v.d / 0x1_0000 % 0x100, v.d / 0x100_0000 % 0x100]
  {
    hide Fold, LittleEndian, Padding, ByteOf, Zeros, Padded;
    LengthIs8(8 * |m|, length);
    PaddedAs(m, zeros, length, p);
    assert p[64 * 0..] == p;
    FoldIs(compress, w, p, 0);
    OutputIs(w[|p| / 64]);
  }

  lemma PaddedAs(m: seq<Byte>, zeros: seq<Byte>, length: seq<Byte>, p: seq<Byte>)
    requires length == LittleEndian(8 * |m|, 8)
    requires p == m + [0x80] + zeros + length && |zeros| < 64 && |p| % 64 == 0 && forall i :: 0 <= i < |zeros| ==> zeros[i] == 0
    ensures p == Padded(m)
  {
    hide LittleEndian, Padding, Zeros;
    PaddingBound(m);
    assert |p| == |m| + 1 + |zeros| + 8;
    EightLess(|m| + 1 + |zeros|);
    PadLength(|m|, |zeros|);
    ZerosAre(zeros);
  }

  lemma ZerosAre(s: seq<Byte>)
    requires forall i :: 0 <= i < |s| ==> s[i] == 0
    ensures Zeros(|s|) == s
  {
  }

  lemma EightLess(n: nat)
    requires (n + 8) % 64 == 0
    ensures n % 64 == 56
  {
  }

  lemma {:induction false} FoldIs(compress: Compression, w: seq<Words>, p: seq<Byte>, k: nat)
    requires |p| % 64 == 0 && k <= |p| / 64 && |w| == |p| / 64 + 1
    requires forall j :: 0 <= j < |p| / 64 ==> w[j + 1] == compress(w[j], p[64 * j..64 * j + 64])
    ensures Fold(compress, w[k], p[64 * k..]) == w[|p| / 64]
    decreases |p| / 64 - k
  {
    var s := p[64 * k..];
    if k < |p| / 64 {
      FoldIs(compress, w, p, k + 1);
      assert s[..64] == p[64 * k..64 * k + 64] && s[64..] == p[64 * (k + 1)..];
    }
  }

  lemma OutputIs(v: Words)
    ensures Output(v) == [
      v.a % 0x100, v.a / 0x100 % 0x100, v.a / 0x1_0000 % 0x100, v.a / 0x100_0000 % 0x100,
      v.b % 0x100, v.b / 0x100 % 0x100, v.b / 0x1_0000 % 0x100, v.b / 0x100_0000 % 0x100,
      v.c % 0x100, v.c / 0x100 % 0x100, v.c / 0x1_0000 % 0x100, v.c / 0x100_0000 % 0x100,
      v.d % 0x100, v.d / 0x100 % 0x100, v.d / 0x1_0000 % 0x100, v.d / 0x100_0000 % 0x100]
  {
    hide LittleEndian;
    WordBytes(v.a);
    WordBytes(v.b);
    WordBytes(v.c);
    WordBytes(v.d);
  }

  /** The initial words as section 3.3 lists their bytes, low byte first. */
  lemma InitialBytes()
    ensures Output(INITIAL) ==
      [0x01, 0x23, 0x45, 0x67, 0x89, 0xab, 0xcd, 0xef, 0xfe, 0xdc, 0xba, 0x98, 0x76, 0x54, 0x32, 0x10]
  {
    hide Output;
    OutputIs(INITIAL);
  }

  /** With a compression that leaves the words alone every message has the same digest. */
  lemma {:induction false} FoldSame(compress: Compression, w: Words, s: seq<Byte>)
    requires forall v: Words, b: Block :: compress(v, b) == v
    ensures Fold(compress, w, s) == w
    decreases |s|
  {
    if |s| >= 64 {
      FoldSame(compress, compress(w, s[..64]), s[64..]);
    }
  }

  ghost function ValueOf(s: seq<Byte>): nat {
    if s == [] then 0 else s[0] as int + 256 * ValueOf(s[1..])
  }

  lemma {:induction false} BytesOfValue(s: seq<Byte>)
    ensures LittleEndian(ValueOf(s), |s|) == s && ValueOf(s) < Power256(|s|)
  {
    if s != [] {
      BytesOfValue(s[1..]);
      assert s == [s[0]] + s[1..];
    }
  }

  lemma EightBytes(s: seq<Byte>)
    requires |s| == 8
    ensures ValueOf(s) ==
      s[0] as int + 0x100 * (s[1] as int) + 0x1_0000 * (s[2] as int) + 0x100_0000 * (s[3] as int) +
      0x1_0000_0000 * (s[4] as int) + 0x100_0000_0000 * (s[5] as int) +
      0x1_0000_0000_0000 * (s[6] as int) + 0x100_0000_0000_0000 * (s[7] as int)
  {
    FourOf(s);
    FourOf(s[4..]);
    assert s[4..][4..] == [];
  }

  lemma FourOf(s: seq<Byte>)
    requires |s| >= 4
    ensures ValueOf(s) ==
      s[0] as int + 0x100 * (s[1] as int) + 0x1_0000 * (s[2] as int) + 0x100_0000 * (s[3] as int) +
      0x1_0000_0000 * ValueOf(s[4..])
  {
    assert s[1..][1..] == s[2..] && s[2..][1..] == s[3..] && s[3..][1..] == s[4..];
  }

  lemma LengthIs8(value: nat, length: seq<Byte>)
    requires |length| == 8
    requires
      length[0] as int + 0x100 * (length[1] as int) + 0x1_0000 * (length[2] as int) + 0x100_0000 * (length[3] as int) +
      0x1_0000_0000 * (length[4] as int) + 0x100_0000_0000 * (length[5] as int) +
      0x1_0000_0000_0000 * (length[6] as int) + 0x100_0000_0000_0000 * (length[7] as int)
        == value % 0x1_0000_0000_0000_0000
    ensures length == LittleEndian(value, 8)
  {
    hide LittleEndian, Power256, ValueOf;
    EightBytes(length);
    BytesOfValue(length);
    Powers();
    LittleEndianParts(ValueOf(length), value / 0x1_0000_0000_0000_0000, 8, 0);
    LowFirst(value / 0x1_0000_0000_0000_0000, 0);
  }

  lemma Powers()
    ensures Power256(8) == 0x1_0000_0000_0000_0000
  {
    assert Power256(4) == 0x1_0000_0000;
  }

  // ----- the state -----

  class State {
    const compress: Compression
    var count0: Word
    var count1: Word
    var abcd: Words
    const buf: array<Byte>

    /** All that has been appended, and its complete blocks. */
    ghost var message: seq<Byte>
    ghost var whole: seq<Byte>

    /** `md5_init` */
    constructor (compress: Compression)
      ensures Valid() && message == [] && this.compress == compress && fresh(buf)
    {
      this.compress := compress;
      count0, count1 := 0, 0;
      abcd := INITIAL;
      buf := new Byte[64](i => 0);
      message, whole := [], [];
    }

    ghost predicate Counted(n: nat)
      reads this`count0, this`count1
    {
      count0 + WORD_RANGE * count1 == 8 * n % (WORD_RANGE * WORD_RANGE)
    }

    /** The words hold the complete blocks, the buffer the rest, the counters the length in bits. */
    ghost predicate Valid()
      reads this, buf
    {
      && Counted(|message|)
      && Holds(|message| % 64)
      && message == whole + buf[..|message| % 64]
    }

    ghost predicate Holds(n: nat)
      reads this`whole, this`abcd
    {
      buf.Length == 64 && n < 64 && |whole| % 64 == 0 && abcd == Fold(compress, INITIAL, whole)
    }

    /** However a message was cut into pieces, the state that counts is the same. */
    lemma Determined(other: State)
      requires Valid() && other.Valid() && compress == other.compress && message == other.message
      ensures abcd == other.abcd == Fold(compress, INITIAL, message)
      ensures count0 == other.count0 && count1 == other.count1
      ensures buf[..|message| % 64] == other.buf[..|message| % 64]
    {
      FoldWhole(compress, INITIAL, whole, buf[..|message| % 64]);
      FoldWhole(compress, INITIAL, other.whole, other.buf[..|message| % 64]);
      assert buf[..|message| % 64] == message[|whole|..];
      assert other.buf[..|message| % 64] == message[|whole|..];
    }

    /** The counters give the number of bytes waiting in the buffer. */
    lemma Offset(n: nat)
      requires Counted(n)
      ensures count0 / 8 % 64 == n % 64
    {
      LowBits(n, count0, count1, 8 * n / (WORD_RANGE * WORD_RANGE));
    }

    /** The two-word addition of `md5_append`. */
    method Count(nbytes: int, ghost n: nat)
      requires 0 < nbytes <= 0x7fff_ffff && Counted(n)
      modifies this`count0, this`count1
      ensures Counted(n + nbytes)
    {
      ghost var c0, c1 := count0, count1;
      var nbits := nbytes * 8 % WORD_RANGE;
      count1 := (count1 + nbytes / 0x2000_0000) % WORD_RANGE;
      count0 := (count0 + nbits) % WORD_RANGE;
      if count0 < nbits {
        count1 := (count1 + 1) % WORD_RANGE;
      }
      CountsAdd(n, nbytes, c0, c1, nbits, nbytes / 0x2000_0000, count0, count1);
    }

    /** `memcpy` into the buffer. */
    method Fill(data: array<Byte>, p: nat, at: nat, n: nat)
      requires buf.Length == 64 && data != buf && at + n <= 64 && p + n <= data.Length
      modifies buf
      ensures buf[..at + n] == old(buf[..at]) + data[p..p + n]
    {
      var i := 0;
      while i < n
        invariant 0 <= i <= n && buf[..at + i] == old(buf[..at]) + data[p..p + i]
      {
        buf[at + i] := data[p + i];
        i := i + 1;
      }
    }

    /** Processes the block at `p`. */
    method Process(data: array<Byte>, p: nat, ghost n: nat)
      requires p + 64 <= data.Length && Holds(n)
      modifies this`abcd, this`whole
      ensures Holds(n) && whole == old(whole) + data[p..p + 64]
    {
      var block: Block := data[p..p + 64];
      FoldNext(compress, INITIAL, whole, block);
      abcd := compress(abcd, block);
      whole := whole + block;
    }

    /** The initial partial block: `copy` bytes of the data go into the buffer. */
    method Begin(data: array<Byte>, nbytes: nat, offset: nat) returns (copy: nat)
      requires Holds(offset) && data != buf && 0 < nbytes <= data.Length && 0 < offset
      modifies this`abcd, this`whole, buf
      ensures 0 < copy <= nbytes && offset + copy <= 64 && (offset + copy < 64 ==> copy == nbytes)
      ensures Holds(0)
      ensures offset + copy < 64 ==> whole == old(whole) && buf[..offset + copy] == old(buf[..offset]) + data[..copy]
      ensures offset + copy == 64 ==> whole == old(whole) + (old(buf[..offset]) + data[..copy])
    {
      hide Fold;
      copy := if offset + nbytes > 64 then 64 - offset else nbytes;
      Fill(data, 0, offset, copy);
      if offset + copy < 64 {
        return;
      }
      Process(buf, 0, 0);
    }

    /** `md5_append` */
    method Append(data: array<Byte>, nbytes: int)
      requires Valid() && data != buf && nbytes <= data.Length && nbytes <= 0x7fff_ffff - 63
      modifies this`count0, this`count1, this`abcd, this`message, this`whole, buf
      ensures Valid()
      ensures message == if nbytes <= 0 then old(message) else old(message) + data[..nbytes]
    {
      hide Fold, Counted;
      var offset := count0 / 8 % 64;
      if nbytes <= 0 {
        return;
      }
      ghost var n := |message|;
      Offset(n);
      Count(nbytes, n);
      Appended(whole, buf[..offset], data[..nbytes]);
      message := message + data[..nbytes];
      Absorb(data, nbytes, offset);
    }

    /** What `md5_append` does after it has counted. */
    method Absorb(data: array<Byte>, nbytes: nat, offset: nat)
      requires Holds(offset) && data != buf && 0 < nbytes <= data.Length
      requires message == whole + (buf[..offset] + data[..nbytes])
      modifies this`abcd, this`whole, buf
      ensures Holds(|message| % 64) && message == whole + buf[..|message| % 64]
    {
      hide Fold;
      var p, left := 0, nbytes;
      if offset != 0 {
        ghost var s, w := buf[..offset], whole;
        var copy := Begin(data, nbytes, offset);
        if offset + copy < 64 {
          Remaining(|whole|, |message|, offset + copy);
          return;
        }
        Split(data[..], 0, nbytes, copy);
        Appended(s, data[..copy], data[copy..nbytes]);
        Appended(w, s + data[..copy], data[copy..nbytes]);
        p := p + copy;
        left := left - copy;
      }
      Continue(data, p, left);
    }

    lemma Appended(a: seq<Byte>, b: seq<Byte>, c: seq<Byte>)
      ensures a + b + c == a + (b + c)
    {
    }

    lemma Remaining(whole: nat, n: nat, left: nat)
      requires whole % 64 == 0 && n == whole + left && left < 64
      ensures n % 64 == left
    {
    }

    /** The full blocks of `md5_append` and the final partial block. */
    method Continue(data: array<Byte>, p0: nat, left0: nat)
      requires Holds(0) && data != buf && p0 + left0 <= data.Length && message == whole + data[p0..p0 + left0]
      modifies this`abcd, this`whole, buf
      ensures Holds(|message| % 64) && message == whole + buf[..|message| % 64]
    {
      hide Fold, Holds;
      ghost var end := p0 + left0;
      var p, left := p0, left0;
      while left >= 64
        invariant 0 <= left && p + left == end && p >= p0
        invariant Holds(0) && message == whole + data[p..end]
        modifies this`abcd, this`whole
      {
        NextBlock(whole, data[..], p, end);
        Process(data, p, 0);
        p := p + 64;
        left := left - 64;
      }
      Keep(data, p, left);
    }

    /** The final partial block goes into the buffer. */
    method Keep(data: array<Byte>, p: nat, left: nat)
      requires Holds(0) && data != buf && p + left <= data.Length && left < 64 && message == whole + data[p..p + left]
      modifies buf
      ensures Holds(|message| % 64) && message == whole + buf[..|message| % 64]
    {
      hide Fold;
      Remaining(|whole|, |message|, left);
      if left != 0 {
        Fill(data, p, 0, left);
      }
    }

    lemma NextBlock(w: seq<Byte>, data: seq<Byte>, p: nat, end: nat)
      requires p + 64 <= end <= |data|
      ensures w + data[p..end] == w + data[p..p + 64] + data[p + 64..end]
    {
      Split(data, p, end - p, 64);
      Appended(w, data[p..p + 64], data[p + 64..end]);
    }

    /** The bytes of some words, low byte first. */
    method PutWords(words: seq<Word>, output: array<Byte>)
      requires output.Length == 4 * |words|
      modifies output
      ensures output[..] == WordsBytes(words)
    {
      var i := 0;
      while i < 4 * |words|
        invariant 0 <= i <= 4 * |words|
        invariant forall j :: 0 <= j < i ==> output[j] == ByteOf(words[j / 4], j % 4)
      {
        output[i] := ByteOf(words[i / 4], i % 4);
        i := i + 1;
      }
      WordsBytesAre(words, output[..]);
    }

    /** The padding and the length, appended by `md5_finish`. */
    method Pad()
      requires Valid()
      modifies this`count0, this`count1, this`abcd, this`message, this`whole, buf
      ensures Valid() && message == Padded(old(message))
    {
      hide Fold, LittleEndian, Counted, WordsBytes, Padded, Padding, Zeros, Valid, IsPadded;
      ghost var m := message;
      var data := new Byte[8];
      PutWords([count0, count1], data);
      LengthOf();
      var pad := PadData(m);
      PaddingBound(m);
      Append(pad, (55 - count0 / 8) % 64 + 1);
      Append(data, 8);
      PaddedParts(m, pad[..Padding(m) + 1], data[..]);
    }

    /** The 64 bytes that every padding is the beginning of. */
    method PadData(ghost m: seq<Byte>) returns (pad: array<Byte>)
      ensures fresh(pad) && pad.Length == 64
      ensures Padding(m) < 64 && pad[..Padding(m) + 1] == [0x80] + Zeros(Padding(m))
    {
      pad := new Byte[64](i => if i == 0 then 0x80 else 0);
      PadBytes(m, pad[..]);
    }

    lemma LengthOf()
      requires Valid()
      ensures WordsBytes([count0, count1]) == LittleEndian(8 * |message|, 8)
      ensures (55 - count0 / 8) % 64 == (55 - |message|) % 64
    {
      hide Fold, LittleEndian, Counted, WordsBytes;
      LengthIs(|message|);
    }

    /** `md5_finish` */
    method Finish() returns (digest: array<Byte>)
      requires Valid()
      modifies this`count0, this`count1, this`abcd, this`message, this`whole, buf
      ensures fresh(digest) && digest[..] == Digest(compress, old(message))
      ensures (forall w: Words, b: Block :: compress(w, b) == w) ==>
        digest[..] == [0x01, 0x23, 0x45, 0x67, 0x89, 0xab, 0xcd, 0xef, 0xfe, 0xdc, 0xba, 0x98, 0x76, 0x54, 0x32, 0x10]
    {
      hide Fold, LittleEndian, Counted, WordsBytes, Output, Padded;
      Pad();
      PaddedWhole(old(message));
      FoldWhole(compress, INITIAL, whole, buf[..|message| % 64]);
      digest := new Byte[16];
      PutWords([abcd.a, abcd.b, abcd.c, abcd.d], digest);
      FourWords(abcd);
      if forall w: Words, b: Block :: compress(w, b) == w {
        FoldSame(compress, INITIAL, Padded(old(message)));
        InitialBytes();
      }
    }

    /** What the counters say of the length. */
    lemma LengthIs(n: nat)
      requires Counted(n)
      ensures WordsBytes([count0, count1]) == LittleEndian(8 * n, 8)
      ensures (55 - count0 / 8) % 64 == (55 - n) % 64
    {
      hide WordsBytes, LittleEndian;
      TwoWords(count0, count1);
      LengthBytes(8 * n, count0, count1);
      Offset(n);
      SameRest(count0 / 8, n);
    }
  }

  lemma LowBits(n: nat, c0: Word, c1: Word, q: nat)
    requires 8 * n == q * (WORD_RANGE * WORD_RANGE) + (c0 + WORD_RANGE * c1)
    ensures c0 / 8 % 64 == n % 64
  {
    var k := c1 + WORD_RANGE * q;
    assert c0 == 8 * n - WORD_RANGE * k;
    assert c0 == 8 * (n - 0x2000_0000 * k);
    assert c0 / 8 == n - 64 * (0x80_0000 * k);
    Shifted(n, 0x80_0000 * k);
  }

  lemma Shifted(n: nat, k: nat)
    requires n - 64 * k >= 0
    ensures (n - 64 * k) % 64 == n % 64
  {
  }

  lemma CountsAdd(n: nat, nbytes: nat, c0: Word, c1: Word, lo: Word, hi: nat, d0: Word, d1: Word)
    requires c0 + WORD_RANGE * c1 == 8 * n % (WORD_RANGE * WORD_RANGE)
    requires lo == nbytes * 8 % WORD_RANGE && hi == nbytes / 0x2000_0000
    requires d0 == (c0 + lo) % WORD_RANGE
    requires d1 == if d0 < lo then ((c1 + hi) % WORD_RANGE + 1) % WORD_RANGE else (c1 + hi) % WORD_RANGE
    ensures d0 + WORD_RANGE * d1 == 8 * (n + nbytes) % (WORD_RANGE * WORD_RANGE)
  {
    var q := AddWords(c0, c1, lo, hi, d0, d1);
    BitsOf(nbytes);
    Remainder(8 * n, 8 * nbytes, c0 + WORD_RANGE * c1, d0 + WORD_RANGE * d1, q);
  }

  lemma BitsOf(nbytes: nat)
    ensures nbytes * 8 % WORD_RANGE + WORD_RANGE * (nbytes / 0x2000_0000) == 8 * nbytes
  {
  }

  /** Adding two-word numbers with a carry. */
  lemma AddWords(c0: Word, c1: Word, lo: Word, hi: nat, d0: Word, d1: Word) returns (q: int)
    requires d0 == (c0 + lo) % WORD_RANGE
    requires d1 == if d0 < lo then ((c1 + hi) % WORD_RANGE + 1) % WORD_RANGE else (c1 + hi) % WORD_RANGE
    ensures d0 + WORD_RANGE * d1 == c0 + WORD_RANGE * c1 + lo + WORD_RANGE * hi - q * (WORD_RANGE * WORD_RANGE)
  {
    var carry := if d0 < lo then 1 else 0;
    assert c0 + lo == carry * WORD_RANGE + d0;
    q := HighWord(c1, hi, carry, d1);
  }

  lemma HighWord(c1: Word, hi: nat, carry: nat, d1: Word) returns (q: int)
    requires carry <= 1 && d1 == if carry == 1 then ((c1 + hi) % WORD_RANGE + 1) % WORD_RANGE else (c1 + hi) % WORD_RANGE
    ensures c1 + hi + carry == q * WORD_RANGE + d1
  {
    var t := (c1 + hi) % WORD_RANGE + carry;
    q := (c1 + hi) / WORD_RANGE + t / WORD_RANGE;
  }

  lemma Remainder(a: nat, b: nat, x: int, y: int, q: int)
    requires x == a % (WORD_RANGE * WORD_RANGE) && 0 <= y < WORD_RANGE * WORD_RANGE
    requires y == x + b - q * (WORD_RANGE * WORD_RANGE)
    ensures y == (a + b) % (WORD_RANGE * WORD_RANGE)
  {
  }

  /** Byte `k` of a word, low byte first. */
  function ByteOf(w: Word, k: nat): Byte
    requires k < 4
  {
    match k
    case 0 => w % 256
    case 1 => w / 0x100 % 256
    case 2 => w / 0x1_0000 % 256
    case 3 => w / 0x100_0000 % 256
  }

  ghost function WordsBytes(words: seq<Word>): seq<Byte> {
    if words == [] then [] else LittleEndian(words[0], 4) + WordsBytes(words[1..])
  }

  lemma TwoWords(a: Word, b: Word)
    ensures WordsBytes([a, b]) == LittleEndian(a, 4) + LittleEndian(b, 4)
  {
    assert [a, b][1..] == [b] && [b][1..] == [];
    assert WordsBytes([b]) == LittleEndian(b, 4);
  }

  lemma FourWords(w: Words)
    ensures WordsBytes([w.a, w.b, w.c, w.d]) == Output(w)
  {
    assert [w.a, w.b, w.c, w.d][1..] == [w.b, w.c, w.d] && [w.b, w.c, w.d][1..] == [w.c, w.d];
    TwoWords(w.c, w.d);
  }

  lemma {:induction false} WordsBytesAre(words: seq<Word>, s: seq<Byte>)
    requires |s| == 4 * |words|
    requires forall j :: 0 <= j < |s| ==> s[j] == ByteOf(words[j / 4], j % 4)
    ensures s == WordsBytes(words)
  {
    hide LittleEndian, ByteOf;
    if words != [] {
      WordBytes(words[0]);
      assert s[0] == ByteOf(words[0], 0) && s[1] == ByteOf(words[0], 1) && s[2] == ByteOf(words[0], 2) && s[3] == ByteOf(words[0], 3);
      forall j | 0 <= j < |s[4..]| ensures s[4..][j] == ByteOf(words[1..][j / 4], j % 4) {
        assert s[4..][j] == s[j + 4] && (j + 4) / 4 == j / 4 + 1 && (j + 4) % 4 == j % 4;
      }
      WordsBytesAre(words[1..], s[4..]);
      assert s == s[..4] + s[4..];
      assert s[..4] == [s[0], s[1], s[2], s[3]];
    }
  }

  lemma WordBytes(w: Word)
    ensures LittleEndian(w, 4) == [ByteOf(w, 0), ByteOf(w, 1), ByteOf(w, 2), ByteOf(w, 3)]
  {
    hide LittleEndian, ByteOf;
    BytesOf(w);
    LowFirst(w, 3);
    LowFirst(w / 256, 2);
    LowFirst(w / 256 / 256, 1);
    LowFirst(w / 256 / 256 / 256, 0);
  }

  lemma BytesOf(w: Word)
    ensures ByteOf(w, 0) == w % 256 && ByteOf(w, 1) == w / 256 % 256
    ensures ByteOf(w, 2) == w / 256 / 256 % 256 && ByteOf(w, 3) == w / 256 / 256 / 256 % 256
  {
    TwoBytes(w);
    ThreeBytes(w);
  }

  lemma TwoBytes(w: nat)
    ensures w / 256 / 256 == w / 0x1_0000
  {
  }

  lemma ThreeBytes(w: nat)
    ensures w / 0x1_0000 / 256 == w / 0x100_0000
  {
  }

  lemma LowFirst(value: nat, n: nat)
    ensures LittleEndian(value, n + 1) == [value % 256] + LittleEndian(value / 256, n)
    ensures LittleEndian(value, 0) == []
  {
  }

  function Power256(k: nat): (p: nat)
    ensures p > 0
  {
    if k == 0 then 1 else 256 * Power256(k - 1)
  }

  lemma {:induction false} LittleEndianParts(lo: nat, hi: nat, n: nat, k: nat)
    requires lo < Power256(n)
    ensures LittleEndian(lo + Power256(n) * hi, n + k) == LittleEndian(lo, n) + LittleEndian(hi, k)
  {
    if n > 0 {
      var p := Power256(n - 1);
      LittleEndianParts(lo / 256, hi, n - 1, k);
      Regroup(p, hi);
      LowByte(lo, p * hi);
    }
  }

  lemma Regroup(p: nat, hi: nat)
    ensures 256 * p * hi == 256 * (p * hi) && p * hi >= 0
  {
  }

  lemma LowByte(lo: nat, h: nat)
    ensures (lo + 256 * h) % 256 == lo % 256 && (lo + 256 * h) / 256 == lo / 256 + h
  {
  }

  /** The bytes of a length in bits are those of its two low words. */
  lemma LengthBytes(value: nat, c0: Word, c1: Word)
    requires c0 + WORD_RANGE * c1 == value % (WORD_RANGE * WORD_RANGE)
    ensures LittleEndian(value, 8) == LittleEndian(c0, 4) + LittleEndian(c1, 4)
  {
    hide LittleEndian, Power256;
    var q := LengthWords(value, c0, c1);
    Power256Word();
    LittleEndianParts(c0, c1 + WORD_RANGE * q, 4, 4);
    LittleEndianParts(c1, q, 4, 0);
    NoBytes(q);
  }

  lemma LengthWords(value: nat, c0: Word, c1: Word) returns (q: nat)
    requires c0 + WORD_RANGE * c1 == value % (WORD_RANGE * WORD_RANGE)
    ensures value == c0 + WORD_RANGE * (c1 + WORD_RANGE * q)
  {
    q := value / (WORD_RANGE * WORD_RANGE);
  }

  lemma Power256Word()
    ensures Power256(4) == WORD_RANGE
  {
    assert Power256(2) == 0x1_0000;
  }

  lemma NoBytes(q: nat)
    ensures LittleEndian(q, 0) == []
  {
  }
}
