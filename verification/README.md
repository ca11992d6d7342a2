# ext2 image analyser: a verified model of its layout logic

`BlackBoxTesting/fsa.c` is a small command-line analyser for ext2 disk images. It reads
the superblock at byte 1024. Depending on its option, it then does one of four things:

- prints the general geometry and the block-group descriptor table;
- lists the records of the root directory's first block;
- walks the directory tree depth-first, printing one path per live entry;
- copies the direct blocks of an inode to an output file.

This project models that logic in Dafny, with the I/O taken out:

- The disk image is a byte sequence.
- `lseek` + `read` is a pure function that returns the available prefix, or fails at a
  chosen set of offsets.
- Each printed report is the sequence of values or lines it would print.

The operations that loop in the source are methods with loops. Each method is proved equal
to a specification function, or (the descriptor scan) given ensures that determine its
result; lemmas state the properties of those functions.

| file | module | what it holds |
|---|---|---|
| `wrappers.dfy` | `Wrappers` | `Option` |
| `bytes.dfy` | `Bytes` | bytes and `unsigned int` values, little-endian fields and their round trips, division helpers |
| `disk.dfy` | `Disk` | the image, `Read` (one `lseek` + `read`), `ReadExact` (a read compared against its length) |
| `geometry.dfy` | `Geometry` | superblock decoding, block size, disk size, inode blocks per group, group count |
| `groups.dfy` | `GroupTable` | the group-descriptor scan |
| `inodes.dfy` | `InodeTable` | the inode locator and its offset formula, inode records |
| `dirents.dfy` | `DirEntries` | `ext2_dir_entry_2` decoding and the cursor walk over one block |
| `root.dfy` | `RootDirectory` | the root listing |
| `traversal.dfy` | `Traversal` | the recursive traversal |
| `content.dfy` | `FileContent` | the direct-block content extractor |

## How the model follows the code

**The block size.** The root listing, the inode reader, the traversal and the file
extractor take the block size as an explicit parameter `bs`. The program passes
`s_log_block_size` (the logarithm, usually 0, 1 or 2) wherever it seeks, sizes a buffer or
reads a block; `Traversal.TraverseFromRoot` shows this for the traversal's start. The
general report and the descriptor scan take the superblock and derive what they need from
it; only the general report uses `1024 << log`.
The model keeps this:

- `RootDirectory.LogZeroListsNothing` shows the consequence for a 1024-byte-block image:
  the program reads zero-byte blocks, so the root listing is always empty.
- The group table is sought at `1024 + s_log_block_size` (`GroupTable.GroupTableOffset`).
- The inode offset is `group * bs + index * 128`. It adds no inode-table base
  (`InodeTable.FirstInodeOfGroup`) and uses `sizeof(struct ext2_inode)` rather than
  `s_inode_size`.
- The root listing reads the record at index 2 of block `s_first_data_block + 1`. The
  locator the other operations use files the root inode (number 2) at index 1
  (`InodeTable.RootListingReadsIndexTwo`).

**Unsigned arithmetic and undefined behaviour.** Unsigned 32-bit arithmetic is written out
with `Wrap32` wherever the C expression is `unsigned int`. C's undefined behaviour becomes
an explicit outcome instead of a guess:

- a division by a zero `s_inodes_per_group` or `s_blocks_per_group`;
- `1024 << log` overflowing an `int` (log above 20);
- a directory record the loop reads past the block buffer (the whole record in the root
  listing and for a live record of the traversal; `inode` and `rec_len` for a record the
  traversal skips);
- reading `name[0]` past the buffer.

**Non-terminating runs.**

- A record with `rec_len == 0` makes the source's cursor loop spin forever. The walk ends
  in `Spins(at)`, and the traversal halts with `Diverges`.
- The recursion has no cycle guard. The traversal takes a recursion bound (`fuel`) and
  halts with `OutOfFuel` when the bound is exhausted. `Traversal.InodeFuel` shows that
  any larger bound gives the same result for every run that finished.

**Checks `fsa.c` does not make.** The model has none of these checks either:

- `fsa.c` checks neither the magic number nor a zero inode-table block.
- `fsa.c` does not check that a traversed inode is a directory.
- `fsa.c` skips a zero block pointer and goes on with the next one.
- The file extractor writes whatever a short read delivered and goes on with the next
  block.
- The directory loops do not validate `rec_len`.

**The group count.** Both the general report and the descriptor scan compute the group
count in `unsigned int`, as `fsa.c` does, so the sum `s_blocks_count + s_blocks_per_group - 1`
wraps modulo 2^32 (`Geometry.GroupCountAsWritten`). `Geometry.GroupCount` is the ceiling
the expression means to compute; `Geometry.GroupCountAgrees` shows the two coincide
whenever the sum does not wrap (see Findings).

**Skipped directory records.** In the traversal, a record with inode 0 is only skipped:
the loop reads its `inode` and `rec_len` (6 bytes) and nothing else, so such a record may
have a name that reaches past the buffer. The root listing prints every field of every
record and so needs the whole record in the buffer.

## Model

| member | source | states |
|---|---|---|
| `Disk.Read` | BlackBoxTesting/fsa.c:198-199 | a read fails exactly at failing offsets; otherwise it delivers the image bytes from the offset, `min(len, size - off)` of them, none past the end |
| `Disk.ReadExact` | BlackBoxTesting/fsa.c:121-124 | a read compared with its length succeeds exactly when the offset does not fail and the whole range lies in the image; the result is exactly that range |
| `Geometry.DecodeSuperblock` | BlackBoxTesting/fsa.c:36 | the 16-bit fields `s_magic` and `s_inode_size` are below 2^16 |
| `Geometry.ReadSuperblock` | BlackBoxTesting/fsa.c:35-39 | the superblock is available exactly when byte 1024 reads and the image holds 2048 bytes; each field is the little-endian value at 1024 plus its ext2 offset: `s_inodes_count` at 1024, `s_blocks_count` 1028, `s_first_data_block` 1044, `s_log_block_size` 1048, `s_blocks_per_group` 1056, `s_inodes_per_group` 1064, `s_magic` 1080, `s_inode_size` 1112 |
| `Geometry.BlockSize` | BlackBoxTesting/fsa.c:72 | `1024 << log` is defined exactly for log up to 20, and is then `1024 * 2^log`, a multiple of 1024 in [1024, 2^31) |
| `Geometry.BlockSizeEncodesLog` | BlackBoxTesting/fsa.c:72 | the block size determines the logarithm it was shifted from |
| `Geometry.CeilDiv` | BlackBoxTesting/fsa.c:79 | `(a + b - 1) / b` on unbounded integers is the ceiling: `q*b >= a` and `(q-1)*b < a` |
| `Geometry.GroupCount` | BlackBoxTesting/fsa.c:87 | the intended count: defined exactly when `s_blocks_per_group > 0`; `g*bpg >= blocks` and, for `blocks > 0`, `(g-1)*bpg < blocks` |
| `Geometry.GroupCountAsWritten` | BlackBoxTesting/fsa.c:87 | the source's count: defined exactly when bpg > 0, and then the floor quotient of the sum wrapped modulo 2^32 (`g*bpg <= wrapped sum < g*bpg + bpg`) |
| `Geometry.GroupCountAgrees` | BlackBoxTesting/fsa.c:79 | when the unsigned sum does not wrap, the source's count equals the ceiling |
| `Geometry.GroupCountAsWrittenWraps` | BlackBoxTesting/fsa.c:87 | 2^32-1 blocks in groups of 8192 give 0 groups as written, against 524288 groups by the ceiling |
| `Geometry.GeneralInfoOf` | BlackBoxTesting/fsa.c:72-79 | the general report is defined exactly when log <= 20 and bpg > 0; the blocks count, blocks per group, inode size and inodes per group are the superblock's own; the block size is `BlockSize(log)`; disk size = blocks * block size; inode blocks per group is the floor of the wrapped `ipg * inode_size` over the block size; the group count is the source's wrapping count `GroupCountAsWritten` |
| `Geometry.GeneralInfoGroupCount` | BlackBoxTesting/fsa.c:79 | the reported group count is the floor of the wrapped `blocks + bpg - 1` over bpg, and covers all blocks whenever that sum does not wrap |
| `Geometry.DiskSizeFits` | BlackBoxTesting/fsa.c:74 | the `unsigned long long` disk size never wraps |
| `Geometry.GeneralInfoGroupCountWraps` | BlackBoxTesting/fsa.c:79 | 2^32-1 blocks in groups of 8192 make the report print 0 groups for a nonzero disk size |
| `GroupTable.DecodeGroupDesc` | BlackBoxTesting/fsa.c:100-105 | the three 16-bit descriptor counters are below 2^16 |
| `GroupTable.DecodeEncodeGroupDesc` | BlackBoxTesting/fsa.c:100-105 | every descriptor field is read back from its ext2 offset: block bitmap +0, inode bitmap +4, inode table +8, free blocks +12, free inodes +14, used directories +16 |
| `GroupTable.EncodeDecodedGroupDesc` | BlackBoxTesting/fsa.c:100-105 | for every 32-byte record, re-encoding the decoded fields gives back its first 18 bytes: each field is read from its own offset, whatever the reserved bytes hold |
| `GroupTable.GroupTableOffset` | BlackBoxTesting/fsa.c:92 | specification of the seek offset: `1024 + s_log_block_size` in `unsigned int` |
| `GroupTable.GroupTableSeekInsideSuperblock` | BlackBoxTesting/fsa.c:92 | the seek offset is `1024 + s_log_block_size`, inside the superblock record, and before block `s_first_data_block + 1` where the descriptor table lies |
| `GroupTable.ScanGroups` | BlackBoxTesting/fsa.c:86-112 | undefined exactly when bpg = 0; at most the source's (wrapping) group count of records; record i is the decoded 32 bytes at `start + 32*i`; a scan that stops before the count stops at a record that cannot be read in full |
| `InodeTable.DecodeInode` | BlackBoxTesting/fsa.c:157 | twelve direct pointers, pointer i the little-endian word at 40 + 4i of the record |
| `InodeTable.Locate` | BlackBoxTesting/fsa.c:151 | undefined exactly when ipg = 0; otherwise index < ipg and `group*ipg + index` = n-1 (wrapped for n = 0) |
| `InodeTable.InodeOffset` | BlackBoxTesting/fsa.c:151 | the seek offset is defined exactly when ipg > 0 |
| `InodeTable.InodeOffsetUnwrapped` | BlackBoxTesting/fsa.c:151 | when `group*bs` does not wrap, the offset is `group*bs + index*128` |
| `InodeTable.FirstInodeOfGroup` | BlackBoxTesting/fsa.c:190 | the first inode of group g is at byte g*bs, so group 0 starts at byte 0 |
| `InodeTable.NextInodeAdjacent` | BlackBoxTesting/fsa.c:190 | consecutive inodes of one group are 128 bytes apart |
| `InodeTable.ReadInode` | BlackBoxTesting/fsa.c:151-155 | undefined exactly when ipg = 0; loaded exactly when the 128 bytes at the offset read in full, and then decoded from them |
| `InodeTable.RootInodeOffset` | BlackBoxTesting/fsa.c:117-120 | specification of the root listing's inode offset: `(s_first_data_block + 1) * bs + 2 * 128` in `unsigned int` |
| `InodeTable.RootListingReadsIndexTwo` | BlackBoxTesting/fsa.c:117-120 | the root listing's offset is `(first+1)*bs + 256`; the locator puts inode 2 at index 1 and inode 3 at index 2 |
| `DirEntries.EntryAt` | BlackBoxTesting/fsa.c:135 | a record decodes exactly when its 8-byte header and `name_len` name bytes lie in the buffer; the fields then have their on-disk widths |
| `DirEntries.DecodeEncodeEntry` | BlackBoxTesting/fsa.c:135-137 | decoding an encoded record at any offset gives it back, whatever bytes surround it |
| `DirEntries.EncodeDecodedEntry` | BlackBoxTesting/fsa.c:135-137 | a record decoded at an offset is exactly the header and name bytes stored there |
| `DirEntries.Walk` | BlackBoxTesting/fsa.c:134-135 | specification of the cursor loop: past the block it stops, at a record that does not fit it overruns, at a zero `rec_len` it spins, otherwise it visits the record and moves on by its `rec_len` |
| `DirEntries.WalkShape` | BlackBoxTesting/fsa.c:134-135 | the walk visits offset `off` first; each next offset is the previous plus its `rec_len`; each visit is a decodable record inside the block with nonzero `rec_len`; the walk ends exactly where the loop ends (past the block, on a zero `rec_len`, or on a record that does not fit) |
| `DirEntries.WalkStep` | BlackBoxTesting/fsa.c:134-135 | one loop iteration: the record under the cursor, then the walk from the offset plus its `rec_len` |
| `DirEntries.WalkConsumes` | BlackBoxTesting/fsa.c:134 | each visited offset is the start plus the `rec_len`s before it, and the cursor ends at the start plus all of them |
| `DirEntries.WalkUnique` | BlackBoxTesting/fsa.c:134-135 | any chain of records with a matching end is the walk: the loop's behaviour determines the walk |
| `RootDirectory.RootListingOf` | BlackBoxTesting/fsa.c:114-143 | specification of the listing: the root inode read, the read of `i_block[0]`'s block, then the cursor walk |
| `RootDirectory.ListRoot` | BlackBoxTesting/fsa.c:114-143 | the listing returns the two read errors or the walk of the block named by `i_block[0]` of the record at the root offset |
| `RootDirectory.ListEntries` | BlackBoxTesting/fsa.c:133-143 | the listing loop reports every record the walk meets, inode 0 included, and ends as the walk does |
| `RootDirectory.LogZeroListsNothing` | BlackBoxTesting/fsa.c:126-134 | with `s_log_block_size = 0` passed as block size, the listing is empty |
| `Traversal.CName` | BlackBoxTesting/fsa.c:167 | `%.*s` prints the longest NUL-free prefix of the `name_len` name bytes |
| `Traversal.Line` | BlackBoxTesting/fsa.c:168 | the line `"%s/%.*s"`: the path, a slash, then exactly what `%.*s` prints of the name (`CName`, the name bytes up to the first NUL) |
| `Traversal.ChildPath` | BlackBoxTesting/fsa.c:175-176 | the child path is the printed line cut to 1023 bytes: its length is the line's length when that fits and 1023 otherwise |
| `Traversal.TravInode` | BlackBoxTesting/fsa.c:146-155 | specification of one call: an unreadable inode record returns without output, a zero `s_inodes_per_group` is undefined, otherwise the pointer loop |
| `Traversal.TravBlocks` | BlackBoxTesting/fsa.c:157 | specification of the pointer loop: the twelve direct pointers in index order, each block's run after the previous one's |
| `Traversal.TravBlock` | BlackBoxTesting/fsa.c:158-163 | specification of one pointer: a zero pointer or a read that does not deliver `bs` bytes contributes nothing |
| `Traversal.TravWalk` | BlackBoxTesting/fsa.c:165-180 | specification of the cursor loop: a record with inode 0 is skipped reading only `inode` and `rec_len`; a live record is decoded and acted on before the cursor advances |
| `Traversal.VisitEntry` | BlackBoxTesting/fsa.c:167-178 | specification of one live record: its line, then its subtree for a directory whose name does not start with '.' |
| `Traversal.Traverse` | BlackBoxTesting/fsa.c:146-155 | the recursive traversal emits exactly the lines of `TravInode`, and ends as it does |
| `Traversal.TraverseBlocks` | BlackBoxTesting/fsa.c:157-162 | the pointer loop equals `TravBlocks`: `i_block[0..11]` in order; zero pointers and short or failed reads contribute nothing |
| `Traversal.TraverseEntries` | BlackBoxTesting/fsa.c:164-180 | the cursor loop equals `TravWalk`: it reads 6 bytes of a record with inode 0 and the whole record of a live one, and acts on each live record before it advances |
| `Traversal.TraverseFromRoot` | BlackBoxTesting/fsa.c:55 | the traversal as started: inode 2 under the path "/", with the superblock's `s_log_block_size` as the block size and `s_inodes_per_group` as the divisor |
| `Traversal.UnreadableBlockSkipped` | BlackBoxTesting/fsa.c:158-163 | a zero pointer, or a block whose read does not deliver `bs` bytes, contributes nothing and the pointer loop goes on with the next pointer |
| `Traversal.EntryLineFirst` | BlackBoxTesting/fsa.c:166-177 | a record with inode 0 emits nothing; a live record's own line comes before anything from its subtree (pre-order) |
| `Traversal.LeafEntryNotEntered` | BlackBoxTesting/fsa.c:174 | a live record that is not a directory, or whose name starts with '.' ("." and ".." included), emits its line and is not entered |
| `Traversal.DirectoryEntered` | BlackBoxTesting/fsa.c:174-177 | a live directory record whose name does not start with '.' emits its line, then the traversal of its inode under the child path |
| `Traversal.TravWalkFollowsWalk` | BlackBoxTesting/fsa.c:165-180 | a block's traversal acts on exactly the records of the root listing's cursor walk, in walk order, then goes on where the walk stops: completes at the block's end; acts on a zero-`rec_len` record and diverges; at a record that does not fit, is undefined unless its inode is 0 and its first 6 bytes fit, in which case it skips it and goes on |
| `Traversal.LeavesPrintLines` | BlackBoxTesting/fsa.c:167-174 | records that are not entered contribute exactly the lines of the live ones, in order |
| `Traversal.ShallowBlock` | BlackBoxTesting/fsa.c:164-168 | when no record is entered, a block's traversal emits the lines of exactly the live records of the walk, in walk order, then goes on as the walk ends; a finished walk completes the block |
| `Traversal.InodeFuel` | BlackBoxTesting/fsa.c:177 | a traversal that finishes within a recursion bound gives the same result under any larger bound |
| `Traversal.InodeUnderPath` | BlackBoxTesting/fsa.c:167-177 | every line emitted under a directory begins with its path and a slash, child paths being cut to 1023 bytes included |
| `Traversal.RootLinesStartWithTwoSlashes` | BlackBoxTesting/fsa.c:55 | every line of the traversal started at inode 2 with path "/" begins with "//" |
| `FileContent.Chunk` | BlackBoxTesting/fsa.c:197-203 | one pointer contributes at most `bs` bytes: nothing for a zero pointer or a failed read, otherwise the image's bytes from `ptr*bs` up to `bs` of them, cut at the end of the image |
| `FileContent.ContentUpTo` | BlackBoxTesting/fsa.c:196-208 | specification of the pointer loop after i iterations: the earlier output followed by pointer i-1's chunk |
| `FileContent.FileContentOf` | BlackBoxTesting/fsa.c:184-208 | specification of the extractor: undefined, the inode read error, or `ContentUpTo` of all twelve pointers |
| `FileContent.ExtractFile` | BlackBoxTesting/fsa.c:184-194 | the extractor equals `FileContentOf`: the undefined case, the inode read error, or the in-order content of the twelve pointers |
| `FileContent.CopyBlocks` | BlackBoxTesting/fsa.c:196-208 | the loop's output is the in-order concatenation of what each nonzero pointer's read delivered |
| `FileContent.ContentBounded` | BlackBoxTesting/fsa.c:196-208 | the output is at most one block per nonzero pointer |
| `FileContent.ContentExact` | BlackBoxTesting/fsa.c:196-208 | when every block lies in the image, the output is exactly one block per nonzero pointer |
| `FileContent.HoleSkipped` | BlackBoxTesting/fsa.c:197 | a zero pointer adds nothing, and the loop goes on with the next pointer |
| `FileContent.FailedReadSkipped` | BlackBoxTesting/fsa.c:200-203 | a block whose read fails adds nothing, and the loop goes on with the next pointer |
| `FileContent.ShortBlockTruncated` | BlackBoxTesting/fsa.c:198-205 | a block that reaches past the end of the image adds the image's bytes from its offset to the end |
| `FileContent.BlockInPlace` | BlackBoxTesting/fsa.c:198-205 | the bytes of a present block follow those of the blocks before it, equal to the image's bytes at `ptr*bs`, whether or not the earlier blocks were present |

## Left out

- `main` (argument checks, output-file naming, option dispatch, `fopen`/`fclose`): command-line plumbing. The traversal's start, inode 2 with path "/", is kept as `Traversal.TraverseFromRoot`.
- Report formatting (`fprintf` texts, `perror` messages): each report is modelled as the values or lines it prints.
- Failures of the output stream (`ferror`, a short `fwrite`): the output is taken never to fail, so the "Error writing ..." early returns are not modelled.
- `atoi` in the file extractor: the inode number is an input, given as its unsigned 32-bit value.
- The detour of the inode number through `int`: `inode_num - 1` overflows for 2^31, which is undefined. The model computes `n - 1` modulo 2^32 for every n.
- `lseek` failures, and reads interrupted by signals: a regular file at offsets below 2^32 seeks successfully, and a read returns the available prefix at once.
- A zero-length buffer `char block[0]` (block size 0) is undefined in C. The model treats it as an empty buffer.
- `DirEntries.EntryAt`: a record whose `name_len` name bytes reach past the buffer counts as undefined, even where `%.*s` would stop earlier at a NUL byte inside the buffer.
- `Traversal.Traverse`: unbounded recursion (a directory entry that points to an ancestor) is cut by the recursion bound rather than running until the stack overflows.
- The struct layouts of `<ext2fs/ext2fs.h>` are not part of this model. Fields are decoded at their offsets in the ext2 on-disk format.
- `BlackBoxTesting/test_write.c`: a standalone write demo with no file-system logic.

## Findings

| source | as written | input that shows it | evidently intended | confidence | as-written member | corrected member |
|---|---|---|---|---|---|---|
| BlackBoxTesting/fsa.c:87 | the scan's group count `(s_blocks_count + s_blocks_per_group - 1) / s_blocks_per_group` is computed in `unsigned int`, so the sum wraps modulo 2^32 before the division | `s_blocks_count = 0xFFFFFFFF`, `s_blocks_per_group = 8192`: the sum wraps to 8190 and the count is 0, so no descriptor is scanned | the ceiling of `s_blocks_count / s_blocks_per_group`, here 524288 | not executed; the arithmetic is proved | `Geometry.GroupCountAsWrittenWraps` | `Geometry.GroupCount` |
| BlackBoxTesting/fsa.c:79 | the general report prints the same wrapping expression | the same superblock: the report prints 0 groups for a disk of 0xFFFFFFFF blocks | the same ceiling | not executed; the arithmetic is proved | `Geometry.GeneralInfoGroupCountWraps` | `Geometry.GroupCount` |

The general report and the descriptor scan of this model keep the count as written, since
they model what `fsa.c` prints. `Geometry.GroupCount` is the corrected count, and
`Geometry.GroupCountAgrees` proves it equal to the written one for every superblock whose
sum does not wrap.
