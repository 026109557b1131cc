/**
 * The superblock as the bytes of block 0, and the checks `assoofs_fill_super`
 * applies to it before mounting.
 */
module SuperBlockCodec {
  import opened AssoofsLayout

  const U64Limit: nat := 0x1_0000_0000_0000_0000

  /** 2 to the power n. */
  function Pow2(n: nat): nat {
    if n == 0 then 1 else 2 * Pow2(n - 1)
  }

  /** 256 to the power n. */
  function Pow256(n: nat): nat {
    if n == 0 then 1 else 256 * Pow256(n - 1)
  }

  lemma U64Bounds()
    ensures Pow256(U64Bytes) == U64Limit && Pow2(64) == U64Limit
  {
    assert Pow256(2) == 0x1_0000;
    assert Pow256(4) == 0x1_0000_0000;
    assert Pow256(6) == 0x1_0000_0000_0000;
    assert Pow256(8) == 0x1_0000_0000_0000_0000;
    Pow2Bytes(8);
  }

  lemma {:induction false} Pow2Bytes(n: nat)
    ensures Pow2(8 * n) == Pow256(n)
  {
    if n > 0 {
      Pow2Bytes(n - 1);
      var m := 8 * (n - 1);
      assert 8 * n == m + 8;
      assert Pow2(m + 8) == 2 * Pow2(m + 7) == 4 * Pow2(m + 6) == 8 * Pow2(m + 5) == 16 * Pow2(m + 4);
      assert Pow2(m + 4) == 2 * Pow2(m + 3) == 4 * Pow2(m + 2) == 8 * Pow2(m + 1) == 16 * Pow2(m);
    }
  }

  /** n little-endian bytes of x (the low n bytes when x does not fit). */
  function EncodeLE(x: nat, n: nat): (bs: seq<byte>)
    ensures |bs| == n
  {
    if n == 0 then [] else [x % 256] + EncodeLE(x / 256, n - 1)
  }

  function DecodeLE(bs: seq<byte>): nat {
    if |bs| == 0 then 0 else bs[0] + 256 * DecodeLE(bs[1..])
  }

  lemma {:induction false} DecodeEncodeLE(x: nat, n: nat)
    requires x < Pow256(n)
    ensures DecodeLE(EncodeLE(x, n)) == x
  {
    if n > 0 {
      assert x / 256 < Pow256(n - 1);
      DecodeEncodeLE(x / 256, n - 1);
      assert EncodeLE(x, n)[1..] == EncodeLE(x / 256, n - 1);
    }
  }

  /** The numeric value of a bitmap: flag i weighs 2^i. */
  function Word(bits: seq<bool>): nat {
    if |bits| == 0 then 0 else (if bits[0] then 1 else 0) + 2 * Word(bits[1..])
  }

  /** The low n bits of w as flags, bit 0 first. */
  function Bits(w: nat, n: nat): (bits: seq<bool>)
    ensures |bits| == n
  {
    if n == 0 then [] else [w % 2 == 1] + Bits(w / 2, n - 1)
  }

  lemma {:induction false} BitsOfWord(bits: seq<bool>)
    ensures Bits(Word(bits), |bits|) == bits
    ensures Word(bits) < Pow2(|bits|)
  {
    if |bits| > 0 {
      BitsOfWord(bits[1..]);
      var w := Word(bits);
      assert w % 2 == 1 <==> bits[0];
      assert w / 2 == Word(bits[1..]);
      assert bits == [bits[0]] + bits[1..];
    }
  }

  /** The superblock fields fit their 64-bit slots and the bitmap has 64 flags. */
  predicate Fits(sb: SuperBlockInfo) {
    && sb.version < U64Limit && sb.magic < U64Limit && sb.blockSize < U64Limit
    && sb.inodesCount < U64Limit && |sb.freeBlocks| == 64
  }

  /** Block 0: five little-endian 8-byte fields, then zero padding up to the block size. */
  function EncodeSuperBlock(sb: SuperBlockInfo): (bs: seq<byte>)
    ensures |bs| == BlockSize
  {
    EncodeLE(sb.version, 8) + EncodeLE(sb.magic, 8) + EncodeLE(sb.blockSize, 8)
      + EncodeLE(sb.inodesCount, 8) + EncodeLE(Word(sb.freeBlocks), 8)
      + seq(SuperBlockPadding, _ => 0)
  }

  /** Reads the superblock back from block 0. */
  function DecodeSuperBlock(bs: seq<byte>): SuperBlockInfo
    requires |bs| == BlockSize
  {
    SuperBlockInfo(
      DecodeLE(bs[0..8]), DecodeLE(bs[8..16]), DecodeLE(bs[16..24]),
      DecodeLE(bs[24..32]), Bits(DecodeLE(bs[32..40]), 64))
  }

  /** The superblock record occupies exactly one block and is recovered from it. */
  lemma SuperBlockRoundTrip(sb: SuperBlockInfo)
    requires Fits(sb)
    ensures |EncodeSuperBlock(sb)| == BlockSize
    ensures DecodeSuperBlock(EncodeSuperBlock(sb)) == sb
  {
    var bs := EncodeSuperBlock(sb);
    var w := Word(sb.freeBlocks);
    BitsOfWord(sb.freeBlocks);
    U64Bounds();
    FieldSlices(EncodeLE(sb.version, 8), EncodeLE(sb.magic, 8), EncodeLE(sb.blockSize, 8),
                EncodeLE(sb.inodesCount, 8), EncodeLE(w, 8), seq(SuperBlockPadding, _ => 0));
    FieldRoundTrip(sb.version);
    FieldRoundTrip(sb.magic);
    FieldRoundTrip(sb.blockSize);
    FieldRoundTrip(sb.inodesCount);
    FieldRoundTrip(w);
  }

  /** The five 8-byte fields sit at offsets 0, 8, 16, 24 and 32 of their concatenation. */
  lemma FieldSlices(f0: seq<byte>, f1: seq<byte>, f2: seq<byte>, f3: seq<byte>, f4: seq<byte>, pad: seq<byte>)
    requires |f0| == 8 && |f1| == 8 && |f2| == 8 && |f3| == 8 && |f4| == 8
    ensures var bs := f0 + f1 + f2 + f3 + f4 + pad;
            bs[0..8] == f0 && bs[8..16] == f1 && bs[16..24] == f2 && bs[24..32] == f3 && bs[32..40] == f4
  {
    var bs := f0 + f1 + f2 + f3 + f4 + pad;
    assert bs[0..8] == f0;
    assert bs[8..16] == f1;
    assert bs[16..24] == f2;
    assert bs[24..32] == f3;
    assert bs[32..40] == f4;
  }

  /** One 8-byte field gives back any value below 2^64. */
  lemma FieldRoundTrip(x: nat)
    requires x < U64Limit
    ensures DecodeLE(EncodeLE(x, 8)) == x
  {
    U64Bounds();
    DecodeEncodeLE(x, 8);
  }
}

module Mount {
  import opened Wrappers
  import opened AssoofsLayout
  import opened InodeStore

  datatype MountError = WrongMagic(magic: nat) | WrongBlockSize(blockSize: nat)

  /**
   * The mounted filesystem: the superblock kept in memory, the largest file
   * size, and the root's record read from the store (absent when the store
   * has no record 1; the source does not check).
   */
  datatype Mounted = Mounted(sb: SuperBlockInfo, maxBytes: nat, rootInfo: Option<InodeInfo>)

  /**
   * `assoofs_fill_super`: rejects a superblock whose magic is not
   * `Magic`, then one whose block size is not `BlockSize`; otherwise
   * mounts with a 4096-byte file size limit and the root record.
   */
  function FillSuper(img: Image): (r: Result<Mounted, MountError>)
    ensures r.Success? <==> img.sb.magic == Magic && img.sb.blockSize == BlockSize
    ensures img.sb.magic != Magic ==> r == Failure(WrongMagic(img.sb.magic))
    ensures img.sb.magic == Magic && img.sb.blockSize != BlockSize ==> r == Failure(WrongBlockSize(img.sb.blockSize))
    ensures r.Success? ==> r.value.sb == img.sb && r.value.maxBytes == BlockSize
    ensures r.Success? ==> r.value.rootInfo == GetInodeInfo(img, RootDirInodeNumber)
  {
    if img.sb.magic != Magic then Failure(WrongMagic(img.sb.magic))
    else if img.sb.blockSize != BlockSize then Failure(WrongBlockSize(img.sb.blockSize))
    else Success(Mounted(img.sb, BlockSize, GetInodeInfo(img, RootDirInodeNumber)))
  }
}
