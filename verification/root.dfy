/** The root-directory listing: read the record taken for the root inode, read the block
    named by its first direct pointer, and report every entry the cursor walk meets. */
module RootDirectory {
  import opened Bytes
  import opened Wrappers
  import opened Disk
  import opened Geometry
  import opened InodeTable
  import opened DirEntries

  /** The listing's outcome: one of the two "Error reading ..." returns, or the walk. */
  datatype RootListing = RootInodeUnreadable | RootBlockUnreadable | Listed(walk: Walked)

  /** The listing as a function of the image: the record at `RootInodeOffset`, then
      `bs` bytes at `i_block[0] * bs` (unsigned, and not checked for zero), then the walk
      of those bytes from offset 0. */
  function RootListingOf(d: Device, sb: Superblock, bs: U32): RootListing
  {
    match ReadExact(d, RootInodeOffset(sb, bs), INODE_SIZE)
    case None => RootInodeUnreadable
    case Some(rec) =>
      match ReadExact(d, Wrap32(DecodeInode(rec).direct[0] * bs), bs)
      case None => RootBlockUnreadable
      case Some(block) => Listed(Walk(block, 0))
  }

  /** `print_root_entries`: the two reads, then the listing loop over the block. */
  method ListRoot(d: Device, sb: Superblock, bs: U32) returns (r: RootListing)
    ensures r == RootListingOf(d, sb, bs)
  {
    var rec := ReadExact(d, RootInodeOffset(sb, bs), INODE_SIZE);
    if rec.None? {
      return RootInodeUnreadable;
    }
    var inode := DecodeInode(rec.value);
    var read := ReadExact(d, Wrap32(inode.direct[0] * bs), bs);
    if read.None? {
      return RootBlockUnreadable;
    }
    var walk := ListEntries(read.value);
    return Listed(walk);
  }

  /** The listing loop: every record the cursor meets is reported, including records
      whose inode number is 0. */
  method ListEntries(block: seq<Byte>) returns (w: Walked)
    ensures w == Walk(block, 0)
  {
    var visits: seq<Visit> := [];
    var off := 0;
    assert visits + Walk(block, off).visits == Walk(block, off).visits;
    while off < |block|
      invariant Walk(block, 0) == Walked(visits + Walk(block, off).visits, Walk(block, off).end)
      decreases |block| - off
    {
      var entry := EntryAt(block, off);
      if entry.None? {
        return Walked(visits, Overruns(off));
      }
      if entry.value.recLen == 0 {
        return Walked(visits, Spins(off));
      }
      WalkStep(block, off);
      var rest := Walk(block, off + entry.value.recLen);
      assert visits + Walk(block, off).visits == (visits + [Visit(off, entry.value)]) + rest.visits;
      visits := visits + [Visit(off, entry.value)];
      off := off + entry.value.recLen;
    }
    assert Walk(block, off) == Walked([], Finished);
    assert visits + [] == visits;
    return Walked(visits, Finished);
  }

  /** With the value the program passes as block size, `s_log_block_size`, an image with
      1024-byte blocks (logarithm 0) reads zero-byte blocks, so the listing is always empty. */
  lemma LogZeroListsNothing(d: Device, sb: Superblock)
    requires sb.logBlockSize == 0
    requires 2 * INODE_SIZE + INODE_SIZE <= |d.bytes| && 2 * INODE_SIZE !in d.failing
    requires 0 !in d.failing
    ensures RootListingOf(d, sb, sb.logBlockSize) == Listed(Walked([], Finished))
  {
  }
}
