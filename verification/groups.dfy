/** The block-group descriptor report: `num_groups` fixed-size records read one after
    another from a single seek, stopping at the first short read. */
module GroupTable {
  import opened Bytes
  import opened Wrappers
  import opened Disk
  import opened Geometry

  /** `sizeof(struct ext2_group_desc)`. */
  const GROUP_DESC_SIZE: nat := 32

  /** The descriptor fields the report prints, at their ext2 on-disk offsets. */
  datatype GroupDesc = GroupDesc(
    blockBitmap: U32,      // bg_block_bitmap, +0
    inodeBitmap: U32,      // bg_inode_bitmap, +4
    inodeTable: U32,       // bg_inode_table, +8
    freeBlocksCount: nat,  // bg_free_blocks_count, +12 (u16)
    freeInodesCount: nat,  // bg_free_inodes_count, +14 (u16)
    usedDirsCount: nat)    // bg_used_dirs_count, +16 (u16)

  /** Decodes one 32-byte `struct ext2_group_desc` record. */
  function DecodeGroupDesc(rec: seq<Byte>): (g: GroupDesc)
    requires |rec| == GROUP_DESC_SIZE
    ensures g.freeBlocksCount < TWO16 && g.freeInodesCount < TWO16 && g.usedDirsCount < TWO16
  {
    GroupDesc(U32At(rec, 0), U32At(rec, 4), U32At(rec, 8),
              U16At(rec, 12), U16At(rec, 14), U16At(rec, 16))
  }

  /** The 32 bytes of a descriptor: the six fields at their offsets, then `bg_pad` and
      `bg_reserved` (14 bytes) as zeros. */
  function EncodeGroupDesc(g: GroupDesc): (r: seq<Byte>)
    requires g.freeBlocksCount < TWO16 && g.freeInodesCount < TWO16 && g.usedDirsCount < TWO16
    ensures |r| == GROUP_DESC_SIZE
  {
    LeBytes32(g.blockBitmap) + LeBytes32(g.inodeBitmap) + LeBytes32(g.inodeTable)
      + LeBytes16(g.freeBlocksCount) + LeBytes16(g.freeInodesCount) + LeBytes16(g.usedDirsCount)
      + seq(14, _ => 0)
  }

  /** Every field is read back from the offset it is stored at. */
  lemma {:induction false} DecodeEncodeGroupDesc(g: GroupDesc)
    requires g.freeBlocksCount < TWO16 && g.freeInodesCount < TWO16 && g.usedDirsCount < TWO16
    ensures DecodeGroupDesc(EncodeGroupDesc(g)) == g
  {
    var rec := EncodeGroupDesc(g);
    DecodeEncode32(g.blockBitmap);
    DecodeEncode32(g.inodeBitmap);
    DecodeEncode32(g.inodeTable);
    DecodeEncode16(g.freeBlocksCount);
    DecodeEncode16(g.freeInodesCount);
    DecodeEncode16(g.usedDirsCount);
    FieldAt32(rec, 0, LeBytes32(g.blockBitmap));
    FieldAt32(rec, 4, LeBytes32(g.inodeBitmap));
    FieldAt32(rec, 8, LeBytes32(g.inodeTable));
    FieldAt16(rec, 12, LeBytes16(g.freeBlocksCount));
    FieldAt16(rec, 14, LeBytes16(g.freeInodesCount));
    FieldAt16(rec, 16, LeBytes16(g.usedDirsCount));
  }

  /** Where the scan seeks: `1024 + (1 * s_log_block_size)`, in `unsigned int`. The
      logarithm is added as if it were the block size in bytes. */
  function GroupTableOffset(sb: Superblock): U32
  {
    Wrap32(SUPERBLOCK_OFFSET + sb.logBlockSize)
  }

  /** For every block size the program can express, the seek lands inside the superblock
      record, while the ext2 descriptor table starts at block `s_first_data_block + 1`:
      never earlier than byte 2048 for 1 KiB blocks (first data block 1) or larger ones. */
  lemma {:induction false} GroupTableSeekInsideSuperblock(sb: Superblock)
    requires sb.logBlockSize <= 20
    requires sb.firstDataBlock > 0 || sb.logBlockSize > 0
    ensures GroupTableOffset(sb) == SUPERBLOCK_OFFSET + sb.logBlockSize < SUPERBLOCK_OFFSET + SUPERBLOCK_SIZE
    ensures GroupTableOffset(sb) < (sb.firstDataBlock + 1) * BlockSize(sb.logBlockSize).value
  {
    var bs := BlockSize(sb.logBlockSize).value;
    MulMonotone(1, sb.firstDataBlock + 1, bs);
    if sb.logBlockSize > 0 {
      Pow2Monotone(1, sb.logBlockSize);
      assert bs >= 2048;
    } else {
      assert (sb.firstDataBlock + 1) * bs >= 2 * bs;
    }
  }

  /** The full-length read of record `i` of a table starting at `start`, if it succeeds. */
  /** Every field is taken from the bytes at its offset: re-encoding a decoded record
      gives back its first 18 bytes, whatever the reserved bytes after them hold. */
  lemma {:induction false} EncodeDecodedGroupDesc(rec: seq<Byte>)
    requires |rec| == GROUP_DESC_SIZE
    ensures EncodeGroupDesc(DecodeGroupDesc(rec))[..18] == rec[..18]
  {
    var g := DecodeGroupDesc(rec);
    EncodeDecode32(rec, 0);
    EncodeDecode32(rec, 4);
    EncodeDecode32(rec, 8);
    EncodeDecode16(rec, 12);
    EncodeDecode16(rec, 14);
    EncodeDecode16(rec, 16);
    assert rec[..18] == rec[0..4] + rec[4..8] + rec[8..12] + rec[12..14] + rec[14..16] + rec[16..18];
  }

  function RecordAt(d: Device, start: nat, i: nat): Option<seq<Byte>>
  {
    ReadExact(d, start + i * GROUP_DESC_SIZE, GROUP_DESC_SIZE)
  }

  /** The descriptor scan. None when the group count divides by zero. Otherwise at most
      the group count of records, with the count computed as the source writes it;
      record `i` is decoded from the bytes at `start + i * 32`; the scan stops at the
      first read that comes back short. */
  method ScanGroups(d: Device, sb: Superblock) returns (r: Option<seq<GroupDesc>>)
    ensures r.None? <==> sb.blocksPerGroup == 0
    ensures r.Some? ==> |r.value| <= GroupCountAsWritten(sb).value
    ensures r.Some? ==> forall i :: 0 <= i < |r.value| ==>
              RecordAt(d, GroupTableOffset(sb), i).Some? &&
              r.value[i] == DecodeGroupDesc(RecordAt(d, GroupTableOffset(sb), i).value)
    ensures r.Some? && |r.value| < GroupCountAsWritten(sb).value ==>
              RecordAt(d, GroupTableOffset(sb), |r.value|).None?
  {
    if sb.blocksPerGroup == 0 {
      return None;
    }
    var count := GroupCountAsWritten(sb).value;
    var start := GroupTableOffset(sb);
    var pos := start;
    var gds: seq<GroupDesc> := [];
    var i := 0;
    while i < count
      invariant i <= count && |gds| == i
      invariant pos == start + i * GROUP_DESC_SIZE
      invariant forall k :: 0 <= k < i ==>
                  RecordAt(d, start, k).Some? && gds[k] == DecodeGroupDesc(RecordAt(d, start, k).value)
    {
      var rec := ReadExact(d, pos, GROUP_DESC_SIZE);
      if rec.None? {
        break;
      }
      gds := gds + [DecodeGroupDesc(rec.value)];
      pos := pos + GROUP_DESC_SIZE;
      i := i + 1;
    }
    return Some(gds);
  }
}
