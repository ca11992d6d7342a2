/** The file-content extractor: every nonzero direct block of an inode is read with one
    `read` of `bs` bytes, and whatever that read delivers is copied to the output. */
module FileContent {
  import opened Bytes
  import opened Wrappers
  import opened Disk
  import opened InodeTable

  /** The extractor's outcome: undefined (a zero `s_inodes_per_group`), the
      "Error reading inode" return, or the bytes written. */
  datatype Extraction = ExtractUndefined | InodeUnreadable | Extracted(content: seq<Byte>)

  /** What one direct pointer contributes: nothing for a zero pointer or a failed read,
      otherwise what the read delivered, which is short at the end of the image. */
  function Chunk(d: Device, bs: U32, ptr: U32): (r: seq<Byte>)
    ensures |r| <= bs
    ensures ptr == 0 ==> r == []
    ensures ptr != 0 ==>
              var at := Wrap32(ptr * bs);
              r == if at in d.failing then [] else d.bytes[Min(at, |d.bytes|)..Min(at + bs, |d.bytes|)]
  {
    if ptr == 0 then []
    else
      match Read(d, Wrap32(ptr * bs), bs)
      case Failed => []
      case Got(data) => data
  }

  /** The output of the pointer loop after its first `i` iterations. */
  function ContentUpTo(d: Device, bs: U32, inode: Inode, i: nat): seq<Byte>
    requires |inode.direct| == DIRECT_BLOCKS && i <= DIRECT_BLOCKS
  {
    if i == 0 then [] else ContentUpTo(d, bs, inode, i - 1) + Chunk(d, bs, inode.direct[i - 1])
  }

  /** The extractor as a function of the image and the inode number. */
  function FileContentOf(d: Device, ipg: U32, bs: U32, n: U32): Extraction
  {
    match ReadInode(d, n, ipg, bs)
    case LocateUndefined => ExtractUndefined
    case RecordUnreadable => InodeUnreadable
    case Loaded(inode) => Extracted(ContentUpTo(d, bs, inode, DIRECT_BLOCKS))
  }

  /** `print_file_content`: the pointer loop, appending each block's bytes to the output. */
  method ExtractFile(d: Device, ipg: U32, bs: U32, n: U32) returns (r: Extraction)
    ensures r == FileContentOf(d, ipg, bs, n)
  {
    var load := ReadInode(d, n, ipg, bs);
    if load.LocateUndefined? {
      return ExtractUndefined;
    }
    if load.RecordUnreadable? {
      return InodeUnreadable;
    }
    var out := CopyBlocks(d, bs, load.inode);
    return Extracted(out);
  }

  /** The loop of `print_file_content` over `i_block[0..11]`: zero pointers and failed
      reads are skipped, and a short read contributes what it delivered. */
  method CopyBlocks(d: Device, bs: U32, inode: Inode) returns (out: seq<Byte>)
    requires |inode.direct| == DIRECT_BLOCKS
    ensures out == ContentUpTo(d, bs, inode, DIRECT_BLOCKS)
  {
    out := [];
    var i := 0;
    while i < DIRECT_BLOCKS
      invariant i <= DIRECT_BLOCKS
      invariant out == ContentUpTo(d, bs, inode, i)
    {
      var ptr := inode.direct[i];
      var chunk := [];
      if ptr != 0 {
        var read := Read(d, Wrap32(ptr * bs), bs);
        if read.Got? {
          chunk := read.data;
        }
      }
      assert out + chunk == ContentUpTo(d, bs, inode, i + 1) by {
        assert chunk == Chunk(d, bs, ptr);
      }
      out := out + chunk;
      i := i + 1;
    }
  }

  /** One full block of `bs` bytes for each nonzero direct pointer among the first `i`. */
  function FullSize(inode: Inode, bs: U32, i: nat): nat
    requires |inode.direct| == DIRECT_BLOCKS && i <= DIRECT_BLOCKS
  {
    if i == 0 then 0 else FullSize(inode, bs, i - 1) + (if inode.direct[i - 1] != 0 then bs else 0)
  }

  /** The output never exceeds one block per nonzero pointer. */
  lemma {:induction false} ContentBounded(d: Device, bs: U32, inode: Inode, i: nat)
    requires |inode.direct| == DIRECT_BLOCKS && i <= DIRECT_BLOCKS
    ensures |ContentUpTo(d, bs, inode, i)| <= FullSize(inode, bs, i)
  {
    if i > 0 {
      ContentBounded(d, bs, inode, i - 1);
      var chunk := Chunk(d, bs, inode.direct[i - 1]);
      assert |ContentUpTo(d, bs, inode, i)| == |ContentUpTo(d, bs, inode, i - 1)| + |chunk|;
    }
  }

  /** The block a nonzero pointer names lies in the image and reads without error. */
  ghost predicate BlockPresent(d: Device, bs: U32, ptr: U32)
  {
    Wrap32(ptr * bs) !in d.failing && Wrap32(ptr * bs) + bs <= |d.bytes|
  }

  /** Every block of the inode lies in the image and reads without error. */
  ghost predicate BlocksPresent(d: Device, bs: U32, inode: Inode)
    requires |inode.direct| == DIRECT_BLOCKS
  {
    forall k :: 0 <= k < DIRECT_BLOCKS && inode.direct[k] != 0 ==> BlockPresent(d, bs, inode.direct[k])
  }

  /** When all blocks are present, the output is exactly one full block per nonzero
      pointer (so it is empty for an inode without blocks). */
  lemma {:induction false} ContentExact(d: Device, bs: U32, inode: Inode, i: nat)
    requires |inode.direct| == DIRECT_BLOCKS && i <= DIRECT_BLOCKS && BlocksPresent(d, bs, inode)
    ensures |ContentUpTo(d, bs, inode, i)| == FullSize(inode, bs, i)
  {
    if i > 0 {
      ContentExact(d, bs, inode, i - 1);
    }
  }

  /** A zero pointer is skipped and the loop goes on with the next one: the blocks after
      a hole are still copied. */
  lemma HoleSkipped(d: Device, bs: U32, inode: Inode, i: nat)
    requires |inode.direct| == DIRECT_BLOCKS && i < DIRECT_BLOCKS && inode.direct[i] == 0
    ensures ContentUpTo(d, bs, inode, i + 1) == ContentUpTo(d, bs, inode, i)
  {
    assert ContentUpTo(d, bs, inode, i) + [] == ContentUpTo(d, bs, inode, i);
  }

  /** A block whose read fails adds nothing, and the loop goes on with the next pointer. */
  lemma FailedReadSkipped(d: Device, bs: U32, inode: Inode, i: nat)
    requires |inode.direct| == DIRECT_BLOCKS && i < DIRECT_BLOCKS
    requires Wrap32(inode.direct[i] * bs) in d.failing
    ensures ContentUpTo(d, bs, inode, i + 1) == ContentUpTo(d, bs, inode, i)
  {
    assert ContentUpTo(d, bs, inode, i) + [] == ContentUpTo(d, bs, inode, i);
  }

  /** A block that lies partly past the end of the image adds what the read delivers:
      the image's bytes from the block's offset to the end of the image. */
  lemma ShortBlockTruncated(d: Device, bs: U32, inode: Inode, i: nat)
    requires |inode.direct| == DIRECT_BLOCKS && i < DIRECT_BLOCKS
    requires inode.direct[i] != 0
    requires var at := Wrap32(inode.direct[i] * bs); at !in d.failing && at <= |d.bytes| < at + bs
    ensures var at := Wrap32(inode.direct[i] * bs);
            ContentUpTo(d, bs, inode, i + 1) == ContentUpTo(d, bs, inode, i) + d.bytes[at..]
  {
  }

  /** The bytes of a present block appear, in pointer order, right after those of the
      blocks before it, whatever became of those: they are the image's `bs` bytes at the
      block's offset. */
  lemma BlockInPlace(d: Device, bs: U32, inode: Inode, i: nat)
    requires |inode.direct| == DIRECT_BLOCKS && i < DIRECT_BLOCKS
    requires inode.direct[i] != 0 && BlockPresent(d, bs, inode.direct[i])
    ensures var at := Wrap32(inode.direct[i] * bs);
            ContentUpTo(d, bs, inode, i + 1) == ContentUpTo(d, bs, inode, i) + d.bytes[at..at + bs]
  {
  }
}
