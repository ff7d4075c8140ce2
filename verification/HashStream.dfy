/**
 The streaming block collector of md32_common.h, the template behind MD5_Update
 and MD5_Final. The compression function stays a parameter; what is proved is that
 feeding a message in pieces is the same as padding it and compressing its blocks.
 */
module HashStream {
  import opened Words

  const CBLOCK: nat := 64   // HASH_CBLOCK of MD5 and of every other user of the template

  /** What the includer of the template supplies, with the chaining value as type H. */
  datatype BlockHash<!H> = BlockHash(
    init: H,
    compress: (H, seq<byte>) -> H,
    output: H -> seq<byte>,
    bigEndian: bool)

  // ------------------------------------------------------- one-shot definition

  /** The chaining value after compressing every whole block of s in order. */
  function FoldBlocks<H>(alg: BlockHash<H>, h: H, s: seq<byte>): H
    decreases |s|
  {
    if |s| < CBLOCK then h
    else FoldBlocks(alg, alg.compress(h, s[..CBLOCK]), s[CBLOCK..])
  }

  /** The least number of zero bytes that leaves room for the 0x80 byte and the length field. */
  function ZeroCount(n: nat): (z: nat)
    ensures (n + 1 + z + 8) % CBLOCK == 0
    ensures z < CBLOCK
  {
    (CBLOCK - (n + 9) % CBLOCK) % CBLOCK
  }

  lemma ZeroCountIsLeast(n: nat, k: nat)
    requires (n + 1 + k + 8) % CBLOCK == 0
    ensures ZeroCount(n) <= k
  {
    var r := (n + 9) % CBLOCK;
    assert (r + k) % CBLOCK == 0;
  }

  /** The 64-bit message length in bits, in the byte order of the hash. */
  function LengthField(bigEndian: bool, n: nat): (r: seq<byte>)
    ensures |r| == 8
  {
    Encode(bigEndian, 8, 8 * n % TWO64)
  }

  function Pad(bigEndian: bool, m: seq<byte>): (r: seq<byte>)
    ensures |r| % CBLOCK == 0
  {
    m + [0x80] + Zeros(ZeroCount(|m|)) + LengthField(bigEndian, |m|)
  }

  function OneShot<H>(alg: BlockHash<H>, m: seq<byte>): (md: seq<byte>)
  {
    alg.output(FoldBlocks(alg, alg.init, Pad(alg.bigEndian, m)))
  }

  /** Compressing s, which is k whole blocks, and then t is compressing s + t. */
  lemma {:induction false} FoldAppend<H>(alg: BlockHash<H>, h: H, s: seq<byte>, k: nat, t: seq<byte>)
    requires |s| == k * CBLOCK
    ensures FoldBlocks(alg, h, s + t) == FoldBlocks(alg, FoldBlocks(alg, h, s), t)
    decreases k
  {
    if k == 0 {
      assert s + t == t;
    } else {
      assert (s + t)[..CBLOCK] == s[..CBLOCK];
      assert (s + t)[CBLOCK..] == s[CBLOCK..] + t;
      FoldAppend(alg, alg.compress(h, s[..CBLOCK]), s[CBLOCK..], k - 1, t);
    }
  }

  /** hs are the chaining values from h on: each comes from the one before and the next block of s. */
  ghost predicate IsChain<H(!new)>(alg: BlockHash<H>, h: H, s: seq<byte>, hs: seq<H>) {
    && |hs| == |s| / 64 + 1 && hs[0] == h
    && forall i :: 0 <= i < |s| / 64 ==> hs[i + 1] == alg.compress(hs[i], s[64 * i..64 * i + 64])
  }

  lemma {:induction false} FoldHasChain<H(!new)>(alg: BlockHash<H>, h: H, s: seq<byte>, k: nat) returns (hs: seq<H>)
    requires |s| == k * CBLOCK
    ensures IsChain(alg, h, s, hs) && hs[k] == FoldBlocks(alg, h, s)
    decreases k
  {
    if k == 0 {
      hs := [h];
    } else {
      var rest := s[64..];
      var tail := FoldHasChain(alg, alg.compress(h, s[..64]), rest, k - 1);
      hs := [h] + tail;
      forall i | 0 <= i < k
        ensures hs[i + 1] == alg.compress(hs[i], s[64 * i..64 * i + 64])
      {
        if i > 0 {
          assert rest[64 * (i - 1)..64 * (i - 1) + 64] == s[64 * i..64 * i + 64];
        }
      }
    }
  }

  /** md is made from the last chaining value over the padded message. */
  ghost predicate IsDigest<H(!new)>(alg: BlockHash<H>, m: seq<byte>, md: seq<byte>) {
    exists hs ::
      IsChain(alg, alg.init, Pad(alg.bigEndian, m), hs) && md == alg.output(hs[|Pad(alg.bigEndian, m)| / 64])
  }

  /** The digest is the output of the chain of compressions over all blocks of the padded message. */
  lemma OneShotIsDigest<H(!new)>(alg: BlockHash<H>, m: seq<byte>)
    ensures IsDigest(alg, m, OneShot(alg, m))
  {
    var p := Pad(alg.bigEndian, m);
    var hs := FoldHasChain(alg, alg.init, p, |p| / 64);
  }

  lemma {:induction false} ChainIsUnique<H(!new)>(
    alg: BlockHash<H>, h: H, s: seq<byte>, hs: seq<H>, hs': seq<H>, i: nat
  )
    requires IsChain(alg, h, s, hs) && IsChain(alg, h, s, hs') && i <= |s| / 64
    ensures hs[i] == hs'[i]
  {
    if i > 0 {
      ChainIsUnique(alg, h, s, hs, hs', i - 1);
    }
  }

  /** A message has one digest only. */
  lemma DigestIsUnique<H(!new)>(alg: BlockHash<H>, m: seq<byte>, md: seq<byte>)
    requires IsDigest(alg, m, md)
    ensures md == OneShot(alg, m)
  {
    var p := Pad(alg.bigEndian, m);
    var hs := FoldHasChain(alg, alg.init, p, |p| / 64);
    var hs' :| IsChain(alg, alg.init, p, hs') && md == alg.output(hs'[|p| / 64]);
    ChainIsUnique(alg, alg.init, p, hs, hs', |p| / 64);
  }

  /**
   The padded message byte by byte: the message, 128, zeros, and the bit count modulo 2^64 with its
   least significant byte last or first; whole blocks, and no more of them than needed.
   */
  lemma PadLayout(bigEndian: bool, m: seq<byte>, i: nat)
    ensures
      var p := Pad(bigEndian, m);
      var n := |p|;
      && n % 64 == 0 && |m| + 9 <= n < |m| + 9 + 64
      && p[..|m|] == m && p[|m|] == 128
      && (|m| < i < n - 8 ==> p[i] == 0)
      && (i < 8 ==> p[if bigEndian then n - 1 - i else n - 8 + i]
                    == 8 * |m| % 0x1_0000_0000_0000_0000 / Pow256(i) % 256)
  {
    var p := Pad(bigEndian, m);
    var x := 8 * |m| % TWO64;
    assert p[|p| - 8..] == LengthField(bigEndian, |m|);
    if i < 8 {
      EncodedByte(bigEndian, 8, x, i);
      assert p[|p| - 8..][if bigEndian then 7 - i else i] == p[if bigEndian then |p| - 1 - i else |p| - 8 + i];
    }
  }

  lemma LengthFieldInjective(bigEndian: bool, n: nat, n': nat)
    requires 8 * n < TWO64 && 8 * n' < TWO64
    requires LengthField(bigEndian, n) == LengthField(bigEndian, n')
    ensures n == n'
  {
    Pow256Values();
    DivModUnique(8 * n, TWO64, 0, 8 * n);
    DivModUnique(8 * n', TWO64, 0, 8 * n');
    EncodingInjective(bigEndian, 8, 8 * n, 8 * n');
  }

  /** Padding loses nothing: messages shorter than 2^61 bytes with one padding are equal. */
  lemma PadInjective(bigEndian: bool, m: seq<byte>, m': seq<byte>)
    requires 8 * |m| < TWO64 && 8 * |m'| < TWO64
    requires Pad(bigEndian, m) == Pad(bigEndian, m')
    ensures m == m'
  {
    var p, p' := Pad(bigEndian, m), Pad(bigEndian, m');
    assert p[|p| - 8..] == LengthField(bigEndian, |m|);
    assert p'[|p'| - 8..] == LengthField(bigEndian, |m'|);
    LengthFieldInjective(bigEndian, |m|, |m'|);
    assert p[..|m|] == m && p'[..|m'|] == m';
  }

  // ----------------------------------------------- HOST_c2l and HOST_l2c macros

  /** `(l >> shift) & 0xff` on a 32-bit word. */
  function ByteAt(l: nat, shift: nat): (b: byte)
    requires l < TWO32
    ensures b == l / Pow2(shift) % 256
  {
    DivFits(l, Pow2(shift));
    MaskByte(l / Pow2(shift));
    Bitwise(AND, 32, l / Pow2(shift), 0xff)
  }

  function HostL2c(bigEndian: bool, l: nat): (r: seq<byte>)
    requires l < TWO32
  {
    if bigEndian then [ByteAt(l, 24), ByteAt(l, 16), ByteAt(l, 8), ByteAt(l, 0)]
    else [ByteAt(l, 0), ByteAt(l, 8), ByteAt(l, 16), ByteAt(l, 24)]
  }

  lemma HostL2cIsEncoding(bigEndian: bool, l: nat)
    requires l < TWO32
    ensures HostL2c(bigEndian, l) == Encode(bigEndian, 4, l)
  {
    ShiftedBytes(l);
    FourBytes(l);
  }

  lemma ShiftedBytes(l: nat)
    requires l < TWO32
    ensures ByteAt(l, 0) == l % 256 && ByteAt(l, 8) == l / 256 % 256
    ensures ByteAt(l, 16) == l / 256 / 256 % 256 && ByteAt(l, 24) == l / 256 / 256 / 256 % 256
  {
    Pow2Values();
    assert Pow2(0) == 1;
    assert l / 0x1_0000 == l / 256 / 256 && l / 0x100_0000 == l / 256 / 256 / 256;
  }

  /** The four bytes, each shifted into place and ORed into l. */
  function HostC2l(bigEndian: bool, c: seq<byte>): (l: nat)
    requires |c| == 4
    ensures l < TWO32
    ensures l == if bigEndian then FromBigEndian(c) else FromLittleEndian(c)
  {
    Pow2Values();
    FourByteValue(c);
    if bigEndian then
      OrShifted(c[0], 24, OrShifted(c[1], 16, OrShifted(c[2], 8, c[3])))
    else
      OrShifted(c[3], 24, OrShifted(c[2], 16, OrShifted(c[1], 8, c[0])))
  }

  lemma FourByteValue(c: seq<byte>)
    requires |c| == 4
    ensures FromBigEndian(c) == (((c[0] as int) * 256 + c[1]) * 256 + c[2]) * 256 + c[3]
    ensures FromLittleEndian(c) == (c[3] as int) * 0x100_0000 + (c[2] as int) * 0x1_0000 + (c[1] as int) * 256 + c[0]
  {
    var c1, c2, c3 := c[..1], c[..2], c[..3];
    assert c3[..2] == c2 && c2[..1] == c1 && c1[..0] == [];
    assert FromBigEndian(c1) == c[0];
    assert FromBigEndian(c2) == 256 * (c[0] as int) + c[1];
    assert FromBigEndian(c3) == 256 * FromBigEndian(c2) + c[2];
    var d1, d2, d3 := c[1..], c[2..], c[3..];
    assert d1[1..] == d2 && d2[1..] == d3 && d3[1..] == [];
    assert FromLittleEndian(d3) == c[3];
    assert FromLittleEndian(d2) == (c[2] as int) + 256 * (c[3] as int);
    assert FromLittleEndian(d1) == c[1] + 256 * FromLittleEndian(d2);
  }

  /** The two macros are inverse to each other, in either byte order. */
  lemma HostMacrosInvert(bigEndian: bool, l: nat, c: seq<byte>)
    requires l < TWO32 && |c| == 4
    ensures HostC2l(bigEndian, HostL2c(bigEndian, l)) == l
    ensures HostL2c(bigEndian, HostC2l(bigEndian, c)) == c
  {
    Pow256Values();
    HostL2cIsEncoding(bigEndian, l);
    HostL2cIsEncoding(bigEndian, HostC2l(bigEndian, c));
    if bigEndian {
      BigEndianBijection(4, l, c);
    } else {
      LittleEndianBijection(4, l, c);
    }
  }

  /** The two HOST_l2c calls of HASH_FINAL. */
  function CounterBytes(bigEndian: bool, nh: nat, nl: nat): (r: seq<byte>)
    requires nh < TWO32 && nl < TWO32
    ensures r == if bigEndian then Encode(true, 4, nh) + Encode(true, 4, nl)
                 else Encode(false, 4, nl) + Encode(false, 4, nh)
  {
    HostL2cIsEncoding(bigEndian, nh);
    HostL2cIsEncoding(bigEndian, nl);
    if bigEndian then HostL2c(true, nh) + HostL2c(true, nl)
    else HostL2c(false, nl) + HostL2c(false, nh)
  }

  /** The two words of the counter, written one after the other, are the 64-bit length field. */
  lemma CounterIsLengthField(bigEndian: bool, nh: nat, nl: nat, n: nat)
    requires nh < TWO32 && nl < TWO32 && nh * TWO32 + nl == 8 * n % TWO64
    ensures CounterBytes(bigEndian, nh, nl) == LengthField(bigEndian, n)
  {
    TwoWords(bigEndian, 8 * n % TWO64, nh, nl);
    var bytes := CounterBytes(bigEndian, nh, nl);
    assert bytes == Encode(bigEndian, 8, 8 * n % TWO64);
  }

  lemma TwoWords(bigEndian: bool, x: nat, hi: nat, lo: nat)
    requires lo < TWO32 && x == hi * TWO32 + lo
    ensures Encode(bigEndian, 8, x) ==
            if bigEndian then Encode(true, 4, hi) + Encode(true, 4, lo)
            else Encode(false, 4, lo) + Encode(false, 4, hi)
  {
    Pow256Values();
    if bigEndian {
      BigEndianSplit(4, 4, hi, lo);
    } else {
      LittleEndianSplit(4, 4, hi, lo);
    }
  }

  /** Taking the lowest byte off a number of n + k bytes. */
  lemma LowestByte(n: nat, hi: nat, lo: nat)
    requires n >= 1
    ensures (hi * Pow256(n) + lo) % 256 == lo % 256
    ensures (hi * Pow256(n) + lo) / 256 == hi * Pow256(n - 1) + lo / 256
  {
    var p := Pow256(n - 1);
    assert hi * (256 * p) == (hi * p) * 256;
    ModMultiple(lo, hi * p, 256);
  }

  lemma {:induction false} LittleEndianSplit(n: nat, k: nat, hi: nat, lo: nat)
    requires lo < Pow256(n)
    ensures LittleEndian(n + k, hi * Pow256(n) + lo) == LittleEndian(n, lo) + LittleEndian(k, hi)
  {
    if n == 0 {
      assert LittleEndian(0, lo) == [];
    } else {
      LowestByte(n, hi, lo);
      LittleEndianSplit(n - 1, k, hi, lo / 256);
    }
  }

  lemma {:induction false} BigEndianSplit(n: nat, k: nat, hi: nat, lo: nat)
    requires lo < Pow256(n)
    ensures BigEndian(k + n, hi * Pow256(n) + lo) == BigEndian(k, hi) + BigEndian(n, lo)
  {
    if n == 0 {
      assert BigEndian(0, lo) == [];
    } else {
      LowestByte(n, hi, lo);
      BigEndianSplit(n - 1, k, hi, lo / 256);
    }
  }

  // ------------------------------------------------------------ the hash context

  /** What Final still has to compress when only the tail of m is left: one block or two. */
  lemma PaddedTail(bigEndian: bool, fed: seq<byte>, blocks: nat, tail: seq<byte>)
    requires |fed| == blocks * CBLOCK && |tail| < CBLOCK
    ensures
      var m, n := fed + tail, |tail| + 1;
      Pad(bigEndian, m) ==
      fed + (if n > CBLOCK - 8
             then (tail + [0x80] + Zeros(CBLOCK - n)) + (Zeros(CBLOCK - 8) + LengthField(bigEndian, |m|))
             else tail + [0x80] + Zeros(CBLOCK - 8 - n) + LengthField(bigEndian, |m|))
  {
    var m, n := fed + tail, |tail| + 1;
    ZerosOfTail(blocks, |tail|);
    if n > CBLOCK - 8 {
      assert Zeros(CBLOCK - n + (CBLOCK - 8)) == Zeros(CBLOCK - n) + Zeros(CBLOCK - 8);
    }
  }

  lemma ZerosOfTail(blocks: nat, t: nat)
    requires t < CBLOCK
    ensures ZeroCount(blocks * CBLOCK + t) ==
            if t + 1 > CBLOCK - 8 then CBLOCK - (t + 1) + (CBLOCK - 8) else CBLOCK - 8 - (t + 1)
  {
    assert (blocks * CBLOCK + t + 9) % CBLOCK == (t + 9) % CBLOCK;
  }

  lemma Regroup(fed: seq<byte>, tail: seq<byte>, a: seq<byte>, b: seq<byte>)
    ensures (fed + (tail + a)) + b == (fed + tail) + (a + b)
    ensures fed + (tail + (a + b)) == (fed + tail) + (a + b)
  {
  }

  lemma WrapAdd(a: nat, b: nat)
    ensures (a % TWO32 + b % TWO32) % TWO32 == (a + b) % TWO32
    ensures (a % TWO32 + b) % TWO32 == (a + b) % TWO32
  {
    ModMultiple(a % TWO32 + b % TWO32, a / TWO32 + b / TWO32, TWO32);
    ModMultiple(a % TWO32 + b, a / TWO32, TWO32);
  }

  lemma HighWord(nh: nat, c: nat, q: nat)
    requires nh < TWO32 && c <= 1
    ensures ((if c == 1 then (nh + 1) % TWO32 else nh) + q % TWO32) % TWO32 == (nh + c + q) % TWO32
  {
    WrapAdd(nh + c, q);
  }

  /** The split of 8 * len over the two words, and the carry test `l < c->Nl`, lose nothing. */
  lemma CounterArithmetic(nh: nat, nl: nat, len: nat)
    requires nh < TWO32 && nl < TWO32
    ensures
      var low := (nl + len * 8 % TWO32) % TWO32;
      var high := nh + (if low < nl then 1 else 0) + len / 0x2000_0000;
      high % TWO32 * TWO32 + low == (nh * TWO32 + nl + 8 * len) % TWO64
  {
    var low := (nl + len * 8 % TWO32) % TWO32;
    var high := nh + (if low < nl then 1 else 0) + len / 0x2000_0000;
    assert nh * TWO32 + nl + 8 * len == high * TWO32 + low;
    DivModUnique(high * TWO32 + low, TWO64, high / TWO32, high % TWO32 * TWO32 + low);
  }

  lemma BitCount(before: nat, len: nat)
    ensures (8 * before % TWO64 + 8 * len) % TWO64 == 8 * (before + len) % TWO64
  {
    var q, r := 8 * before / TWO64, 8 * before % TWO64;
    ModMultiple(r + 8 * len, q, TWO64);
  }

  class HashContext<H(!new)> {
    const alg: BlockHash<H>
    const data: array<byte>
    var Nl: nat
    var Nh: nat
    var num: nat
    var h: H
    ghost var absorbed: seq<byte>   // every byte given to Update so far
    ghost var fed: seq<byte>        // every byte given to the block function so far
    ghost var blocks: nat           // the number of blocks in fed

    /** h is the result of the block function on exactly the bytes in fed, whole blocks only. */
    ghost predicate Chained()
      reads this`h, this`fed, this`blocks
    {
      |fed| == blocks * CBLOCK && h == FoldBlocks(alg, alg.init, fed)
    }

    /** The buffer holds the unprocessed tail and Nh:Nl the bit count modulo 2^64. */
    ghost predicate Valid()
      reads this, data
    {
      && data.Length == CBLOCK
      && Chained()
      && num < CBLOCK && fed + data[..num] == absorbed
      && Nl < TWO32 && Nh < TWO32
      && Nh * TWO32 + Nl == 8 * |absorbed| % TWO64
    }

    constructor (alg: BlockHash<H>)
      ensures Valid() && fresh(data) && this.alg == alg && absorbed == []
    {
      this.alg := alg;
      this.data := new byte[CBLOCK];
      Nl, Nh, num, h, absorbed, fed, blocks := 0, 0, 0, alg.init, [], [], 0;
    }

    /** HASH_BLOCK_DATA_ORDER: the includer's compression of consecutive blocks. */
    method BlockDataOrder(p: seq<byte>, n: nat)
      requires Chained() && |p| == n * CBLOCK
      modifies this`h, this`fed, this`blocks
      ensures Chained() && fed == old(fed) + p
    {
      FoldAppend(alg, alg.init, fed, blocks, p);
      h, fed, blocks := FoldBlocks(alg, h, p), fed + p, blocks + n;
    }

    /** The counter step of HASH_UPDATE, with the carry from the low into the high word. */
    method AddToCounter(len: nat)
      requires Nl < TWO32 && Nh < TWO32
      modifies this`Nl, this`Nh
      ensures Nl < TWO32 && Nh < TWO32
      ensures Nh * TWO32 + Nl == (old(Nh) * TWO32 + old(Nl) + 8 * len) % TWO64
    {
      var l := (Nl + len * 8 % TWO32) % TWO32;
      ghost var c := if l < Nl then 1 else 0;
      if l < Nl {
        Nh := (Nh + 1) % TWO32;
      }
      Nh := (Nh + len / 0x2000_0000 % TWO32) % TWO32;
      Nl := l;
      assert Nh * TWO32 + Nl == (old(Nh) * TWO32 + old(Nl) + 8 * len) % TWO64 by {
        CounterArithmetic(old(Nh), old(Nl), len);
        HighWord(old(Nh), c, len / 0x2000_0000);
      }
    }

    /** memcpy into the block buffer. */
    method CopyIn(at: nat, src: seq<byte>)
      requires at + |src| <= data.Length
      modifies data
      ensures data[..] == old(data[..at]) + src + old(data[at + |src|..])
    {
      forall i | 0 <= i < |src| {
        data[at + i] := src[i];
      }
    }

    /** The first half of HASH_UPDATE: complete a buffered block, or only buffer more of it. */
    method FillBuffer(input: seq<byte>) returns (src: seq<byte>, done: bool)
      requires data.Length == CBLOCK && Chained() && 0 < num < CBLOCK
      modifies this`h, this`fed, this`blocks, this`num, data
      ensures Chained() && num < CBLOCK
      ensures done ==> src == [] && fed == old(fed) && data[..num] == old(data[..num]) + input
      ensures !done ==> num == 0 && |input| >= CBLOCK - old(num)
      ensures !done ==> src == input[CBLOCK - old(num)..]
      ensures !done ==> fed == old(fed) + (old(data[..num]) + input[..CBLOCK - old(num)])
    {
      var len, n := |input|, num;
      if len >= CBLOCK || len + n >= CBLOCK {
        CopyIn(n, input[..CBLOCK - n]);
        assert data[..] == old(data[..num]) + input[..CBLOCK - n];
        BlockDataOrder(data[..], 1);
        num := 0;
        CopyIn(0, Zeros(CBLOCK));
        return input[CBLOCK - n..], false;
      }
      CopyIn(n, input);
      num := num + len;
      assert data[..num] == old(data[..num]) + input;
      return [], true;
    }

    /** The second half of HASH_UPDATE: compress the whole blocks, buffer the rest. */
    method TakeRest(input: seq<byte>)
      requires data.Length == CBLOCK && Chained() && num == 0
      modifies this`h, this`fed, this`blocks, this`num, data
      ensures Chained() && num < CBLOCK
      ensures fed + data[..num] == old(fed) + input
    {
      var n, src := |input| / CBLOCK, input;
      if n > 0 {
        BlockDataOrder(src[..n * CBLOCK], n);
        src := src[n * CBLOCK..];
      }
      assert fed + src == old(fed) + input;
      if |src| != 0 {
        num := |src|;
        CopyIn(0, src);
      }
      assert data[..num] == src;
    }

    /** The body of HASH_UPDATE behind the counter: whole blocks are compressed, the rest is buffered. */
    method Collect(input: seq<byte>)
      requires data.Length == CBLOCK && Chained() && num < CBLOCK
      modifies this`h, this`fed, this`blocks, this`num, data
      ensures Chained() && num < CBLOCK
      ensures fed + data[..num] == old(fed + data[..num]) + input
    {
      ghost var before, tail := fed, data[..num];
      var src, done := input, false;
      if num != 0 {
        src, done := FillBuffer(input);
        if done {
          Regroup(fed, tail, input, []);
          return;
        }
        Regroup(before, tail, input[..CBLOCK - |tail|], src);
        assert input[..CBLOCK - |tail|] + src == input;
      }
      TakeRest(src);
    }

    method Update(input: seq<byte>) returns (ret: int)
      requires Valid() && |input| < TWO64
      modifies this, data
      ensures Valid() && ret == 1
      ensures absorbed == old(absorbed) + input
    {
      if |input| == 0 {
        assert absorbed == absorbed + input;
        return 1;
      }
      AddToCounter(|input|);
      BitCount(|absorbed|, |input|);
      Collect(input);
      absorbed := absorbed + input;
      return 1;
    }

    /** The end of HASH_FINAL: zeros up to the last eight bytes, the counter, the last block. */
    method LastBlock(n: nat, ghost start: seq<byte>)
      requires data.Length == CBLOCK && n <= CBLOCK - 8 && Chained() && data[..n] == start
      requires Nl < TWO32 && Nh < TWO32 && Nh * TWO32 + Nl == 8 * |absorbed| % TWO64
      modifies this`h, this`fed, this`blocks, data
      ensures Chained()
      ensures fed == old(fed) + (start + Zeros(CBLOCK - 8 - n) + LengthField(alg.bigEndian, |absorbed|))
    {
      CopyIn(n, Zeros(CBLOCK - 8 - n));
      CounterIsLengthField(alg.bigEndian, Nh, Nl, |absorbed|);
      CopyIn(CBLOCK - 8, CounterBytes(alg.bigEndian, Nh, Nl));
      assert data[..] == start + Zeros(CBLOCK - 8 - n) + LengthField(alg.bigEndian, |absorbed|);
      BlockDataOrder(data[..], 1);
    }

    /** The start of HASH_FINAL: the 0x80 byte, and a block of its own if the counter does not fit. */
    method CloseTail(ghost tail: seq<byte>) returns (n: nat)
      requires data.Length == CBLOCK && Chained() && num < CBLOCK && data[..num] == tail
      modifies this`h, this`fed, this`blocks, data
      ensures Chained() && n <= CBLOCK - 8
      ensures |tail| + 1 > CBLOCK - 8 ==>
                n == 0 && fed == old(fed) + (tail + [0x80] + Zeros(CBLOCK - (|tail| + 1)))
      ensures |tail| + 1 <= CBLOCK - 8 ==>
                n == |tail| + 1 && fed == old(fed) && data[..n] == tail + [0x80]
    {
      n := num;
      CopyIn(n, [0x80]);
      n := n + 1;
      assert data[..n] == tail + [0x80];
      if n > CBLOCK - 8 {
        CopyIn(n, Zeros(CBLOCK - n));
        assert data[..] == tail + [0x80] + Zeros(CBLOCK - n);
        n := 0;
        BlockDataOrder(data[..], 1);
      }
    }

    /** HASH_FINAL up to the last block: the rest of the padded message is compressed. */
    method CompressRest()
      requires Valid()
      modifies this`h, this`fed, this`blocks, data
      ensures Chained() && fed == Pad(alg.bigEndian, absorbed)
    {
      ghost var tail := data[..num];
      PaddedTail(alg.bigEndian, fed, blocks, tail);
      var n := CloseTail(tail);
      LastBlock(n, data[..n]);
    }

    method Final() returns (md: seq<byte>)
      requires Valid()
      modifies this, data
      ensures md == OneShot(alg, old(absorbed)) && IsDigest(alg, old(absorbed), md)
      ensures Chained() && fed == Pad(alg.bigEndian, old(absorbed))
      ensures num == 0 && data[..] == Zeros(CBLOCK)
    {
      CompressRest();
      Wipe();
      md := alg.output(h);
      OneShotIsDigest(alg, absorbed);
    }

    /** The last statements of HASH_FINAL before the digest is made: num is reset, the buffer cleansed. */
    method Wipe()
      requires data.Length == CBLOCK
      modifies this`num, data
      ensures num == 0 && data[..] == Zeros(CBLOCK)
    {
      num := 0;
      CopyIn(0, Zeros(CBLOCK));
    }
  }

  // --------------------------------------------------- streaming equals one-shot

  function Flatten(pieces: seq<seq<byte>>): seq<byte>
  {
    if pieces == [] then [] else Flatten(pieces[..|pieces| - 1]) + pieces[|pieces| - 1]
  }

  lemma LastPiece(a: seq<seq<byte>>, b: seq<seq<byte>>)
    requires b != []
    ensures
      var all, n := a + b, |b| - 1;
      all[..|all| - 1] == a + b[..n] && Flatten(all) == Flatten(a + b[..n]) + b[n]
  {
    var all, n := a + b, |b| - 1;
    assert all[..|all| - 1] == a + b[..n];
  }

  lemma {:induction false} FlattenAppend(a: seq<seq<byte>>, b: seq<seq<byte>>)
    ensures Flatten(a + b) == Flatten(a) + Flatten(b)
  {
    if b == [] {
      assert a + b == a;
    } else {
      var n := |b| - 1;
      FlattenAppend(a, b[..n]);
      LastPiece(a, b);
      assert (Flatten(a) + Flatten(b[..n])) + b[n] == Flatten(a) + (Flatten(b[..n]) + b[n]);
    }
  }

  lemma FlattenOne(x: seq<byte>, rest: seq<seq<byte>>)
    ensures Flatten([x]) == x && Flatten([x] + rest) == x + Flatten(rest)
  {
    assert [x][..0] == [];
    FlattenAppend([x], rest);
  }

  /** A caller that cuts a message into any pieces gets the digest of the whole message. */
  method HashInPieces<H(!new)>(alg: BlockHash<H>, pieces: seq<seq<byte>>) returns (md: seq<byte>)
    requires forall i :: 0 <= i < |pieces| ==> |pieces[i]| < TWO64
    ensures md == OneShot(alg, Flatten(pieces)) && IsDigest(alg, Flatten(pieces), md)
  {
    var c := new HashContext(alg);
    for i := 0 to |pieces|
      invariant c.Valid() && fresh(c) && fresh(c.data) && c.alg == alg
      invariant c.absorbed == Flatten(pieces[..i])
    {
      var _ := c.Update(pieces[i]);
      assert pieces[..i + 1][..i] == pieces[..i];
    }
    assert pieces[..|pieces|] == pieces;
    md := c.Final();
  }
}
