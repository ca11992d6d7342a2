/** Locating and reading inode records. The traversal and the file extractor share one
    offset formula; the root listing uses a fixed offset of its own. */
module InodeTable {
  import opened Bytes
  import opened Wrappers
  import opened Disk
  import opened Geometry

  /** `sizeof(struct ext2_inode)`; the program never consults `s_inode_size`. */
  const INODE_SIZE: nat := 128
  /** The direct block pointers `i_block[0..11]` start 40 bytes into the record. */
  const I_BLOCK_OFFSET: nat := 40
  const DIRECT_BLOCKS: nat := 12

  /** The part of an inode the program uses: its twelve direct block pointers. */
  datatype Inode = Inode(direct: seq<U32>)

  function DecodeInode(rec: seq<Byte>): (ino: Inode)
    requires |rec| == INODE_SIZE
    ensures |ino.direct| == DIRECT_BLOCKS
    ensures forall i :: 0 <= i < DIRECT_BLOCKS ==> ino.direct[i] == U32At(rec, I_BLOCK_OFFSET + 4 * i)
  {
    Inode(seq(DIRECT_BLOCKS, i requires 0 <= i < DIRECT_BLOCKS => U32At(rec, I_BLOCK_OFFSET + 4 * i)))
  }

  /** Which group an inode falls in, and its index within the group. */
  datatype Location = Location(group: nat, index: nat)

  /** `(n - 1) / s_inodes_per_group` and `(n - 1) % s_inodes_per_group` in `unsigned int`:
      `n - 1` wraps to 2^32 - 1 for inode 0, and a zero divisor is undefined (None). */
  function Locate(n: U32, ipg: U32): (loc: Option<Location>)
    ensures loc.None? <==> ipg == 0
    ensures loc.Some? ==> loc.value.index < ipg
    ensures loc.Some? ==> loc.value.group * ipg + loc.value.index == Wrap32(n - 1)
    ensures loc.Some? && n >= 1 ==> loc.value.group * ipg + loc.value.index == n - 1
  {
    if ipg == 0 then None
    else
      var prev := Wrap32(n - 1);
      var group := FloorDiv(prev, ipg);
      assert prev % ipg == prev - group * ipg;
      Some(Location(group, prev % ipg))
  }

  /** The seek offset of the traversal and of the file extractor:
      `group * bs` in `unsigned int` (so it wraps), plus `index * sizeof(struct ext2_inode)`.
      No inode-table block from the group descriptors enters the formula. */
  function InodeOffset(n: U32, ipg: U32, bs: U32): (r: Option<nat>)
    ensures r.Some? <==> ipg > 0
  {
    match Locate(n, ipg)
    case None => None
    case Some(loc) => Some(Wrap32(loc.group * bs) + loc.index * INODE_SIZE)
  }

  /** The offset is `group * bs + index * 128` whenever the product does not wrap. */
  lemma InodeOffsetUnwrapped(n: U32, ipg: U32, bs: U32)
    requires ipg > 0
    requires Locate(n, ipg).value.group * bs < TWO32
    ensures InodeOffset(n, ipg, bs).value
            == Locate(n, ipg).value.group * bs + Locate(n, ipg).value.index * INODE_SIZE
  {
    var loc := Locate(n, ipg).value;
    assert Wrap32(loc.group * bs) == loc.group * bs;
  }

  /** Inode `g * ipg + 1`, the first of group `g`, is placed exactly `g * bs` bytes into
      the image: group 0 starts at byte 0, not at an inode table. */
  lemma {:induction false} FirstInodeOfGroup(g: nat, ipg: U32, bs: U32)
    requires ipg > 0 && g * ipg + 1 < TWO32 && g * bs < TWO32
    ensures InodeOffset(g * ipg + 1, ipg, bs) == Some(g * bs)
  {
    var loc := Locate(g * ipg + 1, ipg).value;
    assert loc.group * ipg + loc.index == g * ipg;
    QuotientUnique(g * ipg, ipg, loc.group, loc.index, g, 0);
  }

  /** Two inodes of the same group have records 128 bytes apart. */
  lemma {:induction false} NextInodeAdjacent(n: U32, ipg: U32, bs: U32)
    requires ipg > 0 && 1 <= n < TWO32 - 1
    requires n % ipg != 0
    ensures InodeOffset(n + 1, ipg, bs).value == InodeOffset(n, ipg, bs).value + INODE_SIZE
  {
    var a := Locate(n, ipg).value;
    var b := Locate(n + 1, ipg).value;
    assert a.group * ipg + a.index == n - 1;
    assert b.group * ipg + b.index == n;
    var q := FloorDiv(n, ipg);
    assert n % ipg == n - q * ipg;
    assert n - q * ipg > 0;
    QuotientUnique(n, ipg, b.group, b.index, q, n - q * ipg);
    QuotientUnique(n - 1, ipg, a.group, a.index, q, n - q * ipg - 1);
  }

  /** The outcome of reading an inode record. */
  datatype InodeLoad = LocateUndefined | RecordUnreadable | Loaded(inode: Inode)

  /** Seek to the inode's offset and read one full record; any other result is the
      "Error reading inode" path. */
  function ReadInode(d: Device, n: U32, ipg: U32, bs: U32): (r: InodeLoad)
    ensures r.LocateUndefined? <==> ipg == 0
    ensures r.Loaded? <==> ipg > 0 && ReadExact(d, InodeOffset(n, ipg, bs).value, INODE_SIZE).Some?
    ensures r.Loaded? ==>
              r.inode == DecodeInode(ReadExact(d, InodeOffset(n, ipg, bs).value, INODE_SIZE).value)
  {
    match InodeOffset(n, ipg, bs)
    case None => LocateUndefined
    case Some(off) =>
      match ReadExact(d, off, INODE_SIZE)
      case None => RecordUnreadable
      case Some(rec) => Loaded(DecodeInode(rec))
  }

  /** The root listing's own inode offset:
      `(s_first_data_block + 1) * bs + 2 * sizeof(struct ext2_inode)`, all `unsigned int`. */
  function RootInodeOffset(sb: Superblock, bs: U32): U32
  {
    Wrap32(Wrap32(sb.firstDataBlock + 1) * bs + 2 * INODE_SIZE)
  }

  /** The root listing reads the record at index 2 of the block after the first data block,
      while the locator files the root inode (number 2) at index 1 and inode 3 at index 2. */
  lemma RootListingReadsIndexTwo(sb: Superblock, bs: U32, ipg: U32)
    requires (sb.firstDataBlock + 1) * bs + 2 * INODE_SIZE < TWO32
    requires ipg >= 3
    ensures RootInodeOffset(sb, bs) == (sb.firstDataBlock + 1) * bs + 2 * INODE_SIZE
    ensures Locate(2, ipg) == Some(Location(0, 1))
    ensures Locate(3, ipg) == Some(Location(0, 2))
  {
    QuotientUnique(1, ipg, Locate(2, ipg).value.group, Locate(2, ipg).value.index, 0, 1);
    QuotientUnique(2, ipg, Locate(3, ipg).value.group, Locate(3, ipg).value.index, 0, 2);
  }
}
