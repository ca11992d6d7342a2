/** The superblock and the quantities the program derives from it: block size, disk size,
    inode-table blocks per group and the number of block groups. */
module Geometry {
  import opened Bytes
  import opened Wrappers
  import opened Disk

  /** The superblock starts 1024 bytes into the image and `struct ext2_super_block` is
      1024 bytes long. */
  const SUPERBLOCK_OFFSET: nat := 1024
  const SUPERBLOCK_SIZE: nat := 1024

  /** The superblock fields the program reads, at their ext2 on-disk offsets. */
  datatype Superblock = Superblock(
    inodesCount: U32,      // s_inodes_count, +0
    blocksCount: U32,      // s_blocks_count, +4
    firstDataBlock: U32,   // s_first_data_block, +20
    logBlockSize: U32,     // s_log_block_size, +24
    blocksPerGroup: U32,   // s_blocks_per_group, +32
    inodesPerGroup: U32,   // s_inodes_per_group, +40
    magic: nat,            // s_magic, +56 (u16)
    inodeSize: nat)        // s_inode_size, +88 (u16)

  function DecodeSuperblock(rec: seq<Byte>): (sb: Superblock)
    requires |rec| == SUPERBLOCK_SIZE
    ensures sb.magic < TWO16 && sb.inodeSize < TWO16
  {
    Superblock(U32At(rec, 0), U32At(rec, 4), U32At(rec, 20), U32At(rec, 24),
               U32At(rec, 32), U32At(rec, 40), U16At(rec, 56), U16At(rec, 88))
  }

  /** The superblock read of the program's start-up: one full record at byte 1024, or
      nothing (the program exits). The magic number is not checked. */
  function ReadSuperblock(d: Device): (r: Option<Superblock>)
    ensures r.Some? <==> SUPERBLOCK_OFFSET !in d.failing && 2048 <= |d.bytes|
    ensures r.Some? ==> r.value.inodesCount == U32At(d.bytes, 1024)
    ensures r.Some? ==> r.value.blocksCount == U32At(d.bytes, 1028)
    ensures r.Some? ==> r.value.firstDataBlock == U32At(d.bytes, 1044)
    ensures r.Some? ==> r.value.logBlockSize == U32At(d.bytes, 1048)
    ensures r.Some? ==> r.value.blocksPerGroup == U32At(d.bytes, 1056)
    ensures r.Some? ==> r.value.inodesPerGroup == U32At(d.bytes, 1064)
    ensures r.Some? ==> r.value.magic == U16At(d.bytes, 1080)
    ensures r.Some? ==> r.value.inodeSize == U16At(d.bytes, 1112)
  {
    match ReadExact(d, SUPERBLOCK_OFFSET, SUPERBLOCK_SIZE)
    case Some(rec) => Some(DecodeSuperblock(rec))
    case None => None
  }

  function Pow2(k: nat): (r: nat)
    ensures r >= 1
  {
    if k == 0 then 1 else 2 * Pow2(k - 1)
  }

  lemma {:induction false} Pow2Monotone(k: nat, n: nat)
    requires k <= n
    ensures Pow2(k) <= Pow2(n)
  {
    if k < n {
      Pow2Monotone(k, n - 1);
    }
  }

  lemma Pow2Twenty()
    ensures Pow2(20) == 0x10_0000
  {
    assert Pow2(4) == 16;
    assert Pow2(8) == 256;
    assert Pow2(12) == 4096;
    assert Pow2(16) == 0x1_0000;
  }

  /** `1024 << s_log_block_size` as the C `int` expression it is: defined only while the
      result stays below 2^31, so for logarithms up to 20. */
  function BlockSize(log: U32): (r: Option<nat>)
    ensures r.Some? <==> log <= 20
    ensures r.Some? ==> r.value == 1024 * Pow2(log)
    ensures r.Some? ==> 1024 <= r.value < 0x8000_0000 && r.value % 1024 == 0
  {
    if log <= 20 then
      Pow2Monotone(log, 20);
      Pow2Twenty();
      Some(1024 * Pow2(log))
    else None
  }

  /** The logarithm a block size encodes: how often `bs / 1024` halves before reaching 1. */
  function LogOfBlockSize(bs: nat): nat
    decreases bs
  {
    if bs < 2048 then 0 else 1 + LogOfBlockSize(bs / 2)
  }

  /** The shift is invertible: the block size determines `s_log_block_size`. */
  lemma {:induction false} BlockSizeEncodesLog(log: U32)
    requires log <= 20
    ensures LogOfBlockSize(BlockSize(log).value) == log
  {
    if log > 0 {
      BlockSizeEncodesLog(log - 1);
      assert 1024 * Pow2(log) / 2 == 1024 * Pow2(log - 1);
      Pow2Monotone(1, log);
    }
  }

  /** Ceiling division as the program writes it, `(a + b - 1) / b`, on unbounded integers. */
  function CeilDiv(a: nat, b: nat): (q: nat)
    requires b > 0
    ensures q * b >= a
    ensures a > 0 ==> (q - 1) * b < a
    ensures a == 0 ==> q == 0
  {
    FloorDiv(a + b - 1, b)
  }

  /** The number of block groups as the corrected model computes it: the ceiling of
      `s_blocks_count / s_blocks_per_group`; a zero divisor is undefined in C. */
  function GroupCount(sb: Superblock): (g: Option<nat>)
    ensures g.Some? <==> sb.blocksPerGroup > 0
    ensures g.Some? ==> g.value * sb.blocksPerGroup >= sb.blocksCount
    ensures g.Some? && sb.blocksCount > 0 ==> (g.value - 1) * sb.blocksPerGroup < sb.blocksCount
  {
    if sb.blocksPerGroup == 0 then None else Some(CeilDiv(sb.blocksCount, sb.blocksPerGroup))
  }

  /** The group count as the source writes it: `s_blocks_count + s_blocks_per_group - 1`
      is `unsigned int` arithmetic and wraps modulo 2^32 before the division. */
  function GroupCountAsWritten(sb: Superblock): (g: Option<nat>)
    ensures g.Some? <==> sb.blocksPerGroup > 0
    ensures g.Some? ==> g.value * sb.blocksPerGroup <= Wrap32(sb.blocksCount + sb.blocksPerGroup - 1)
                        < g.value * sb.blocksPerGroup + sb.blocksPerGroup
  {
    if sb.blocksPerGroup == 0 then None
    else Some(FloorDiv(Wrap32(sb.blocksCount + sb.blocksPerGroup - 1), sb.blocksPerGroup))
  }

  /** Whenever the unsigned sum does not wrap, the source's count is the ceiling. */
  lemma GroupCountAgrees(sb: Superblock)
    requires sb.blocksPerGroup > 0
    requires sb.blocksCount + sb.blocksPerGroup - 1 < TWO32
    ensures GroupCountAsWritten(sb) == GroupCount(sb)
  {
  }

  /** The wrap is reachable: a count of 2^32 - 1 blocks in groups of 8192 yields zero
      groups although the image has blocks. */
  lemma GroupCountAsWrittenWraps()
    ensures var sb := Superblock(0, 0xFFFF_FFFF, 0, 2, 8192, 8192, 0xEF53, 128);
            GroupCountAsWritten(sb) == Some(0) && GroupCount(sb) == Some(0x8_0000)
  {
    var sb := Superblock(0, 0xFFFF_FFFF, 0, 2, 8192, 8192, 0xEF53, 128);
    assert Wrap32(sb.blocksCount + sb.blocksPerGroup - 1) == 8190;
    assert (0xFFFF_FFFF + 8192 - 1) / 8192 == 0x8_0000;
  }

  /** The figures of the general report. */
  datatype GeneralInfo = GeneralInfo(
    blockSize: nat, blocksCount: nat, diskSize: nat, blocksPerGroup: nat,
    inodeSize: nat, inodesPerGroup: nat, inodeBlocksPerGroup: nat, groupCount: nat)

  /** The general report's arithmetic. It is undefined (None) when the shift overflows
      an `int` or the group count divides by zero. The group count is the source's
      wrapping `unsigned int` expression. */
  function GeneralInfoOf(sb: Superblock): (r: Option<GeneralInfo>)
    ensures r.Some? <==> sb.logBlockSize <= 20 && sb.blocksPerGroup > 0
    ensures r.Some? ==> r.value.blockSize == BlockSize(sb.logBlockSize).value
    ensures r.Some? ==> r.value.diskSize == sb.blocksCount * r.value.blockSize
    ensures r.Some? ==> r.value.inodeBlocksPerGroup * r.value.blockSize
                        <= Wrap32(sb.inodesPerGroup * sb.inodeSize)
                        < r.value.inodeBlocksPerGroup * r.value.blockSize + r.value.blockSize
    ensures r.Some? ==> r.value.groupCount == GroupCountAsWritten(sb).value
    ensures r.Some? ==> r.value.blocksCount == sb.blocksCount && r.value.blocksPerGroup == sb.blocksPerGroup
    ensures r.Some? ==> r.value.inodeSize == sb.inodeSize && r.value.inodesPerGroup == sb.inodesPerGroup
  {
    match BlockSize(sb.logBlockSize)
    case None => None
    case Some(bs) =>
      match GroupCountAsWritten(sb)
      case None => None
      case Some(groups) =>
        var tableBytes := Wrap32(sb.inodesPerGroup * sb.inodeSize);
        var perGroup := FloorDiv(tableBytes, bs);
        var diskSize := sb.blocksCount * bs;
        Some(GeneralInfo(bs, sb.blocksCount, diskSize, sb.blocksPerGroup,
                         sb.inodeSize, sb.inodesPerGroup, perGroup, groups))
  }

  /** The reported group count is the floor quotient of the wrapped sum, and it covers
      every block whenever the unsigned sum does not wrap. */
  lemma GeneralInfoGroupCount(sb: Superblock)
    requires GeneralInfoOf(sb).Some?
    ensures var g := GeneralInfoOf(sb).value.groupCount;
            g * sb.blocksPerGroup <= Wrap32(sb.blocksCount + sb.blocksPerGroup - 1)
            < g * sb.blocksPerGroup + sb.blocksPerGroup
    ensures sb.blocksCount + sb.blocksPerGroup - 1 < TWO32 ==>
              GeneralInfoOf(sb).value.groupCount * sb.blocksPerGroup >= sb.blocksCount
  {
    var g := GeneralInfoOf(sb).value.groupCount;
    assert g == GroupCountAsWritten(sb).value;
    if sb.blocksCount + sb.blocksPerGroup - 1 < TWO32 {
      assert g * sb.blocksPerGroup + sb.blocksPerGroup > sb.blocksCount + sb.blocksPerGroup - 1;
    }
  }

  /** The disk size is computed in `unsigned long long`; it never wraps there because both
      factors stay below 2^32. */
  lemma DiskSizeFits(sb: Superblock)
    requires GeneralInfoOf(sb).Some?
    ensures GeneralInfoOf(sb).value.diskSize < 0x1_0000_0000_0000_0000
  {
    var info := GeneralInfoOf(sb).value;
    MulBelow(sb.blocksCount, info.blockSize, TWO32);
  }

  lemma MulBelow(a: nat, b: nat, m: nat)
    requires a < m && b < m
    ensures a * b < m * m
  {
    assert a * b <= a * m;
    assert a * m < m * m;
  }

  /** The general report prints the wrapped count: zero groups for the same superblock,
      although its disk size is not zero. */
  lemma GeneralInfoGroupCountWraps()
    ensures var sb := Superblock(0, 0xFFFF_FFFF, 0, 2, 8192, 8192, 0xEF53, 128);
            GeneralInfoOf(sb).Some? && GeneralInfoOf(sb).value.groupCount == 0
            && GeneralInfoOf(sb).value.diskSize > 0
  {
    GroupCountAsWrittenWraps();
  }
}
