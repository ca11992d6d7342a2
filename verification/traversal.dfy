/** The recursive directory traversal: for each nonzero direct block of a directory inode,
    walk its entries, emit `path + "/" + name` for every entry with a nonzero inode, and
    descend into entries typed as directories whose name does not start with '.'. */
module Traversal {
  import opened Bytes
  import opened Wrappers
  import opened Disk
  import opened Geometry
  import opened InodeTable
  import opened DirEntries

  const SLASH: Byte := 0x2F
  const DOT: Byte := 0x2E
  /** `char new_path[1024]`: `snprintf` keeps at most 1023 bytes of the child's path. */
  const MAX_PATH: nat := 1023

  /** `%.*s` with precision `name_len`: the name bytes up to the first NUL. */
  function CName(name: seq<Byte>): (r: seq<Byte>)
    ensures |r| <= |name| && r == name[..|r|]
    ensures forall i :: 0 <= i < |r| ==> r[i] != 0
    ensures |r| < |name| ==> name[|r|] == 0
  {
    if |name| == 0 || name[0] == 0 then [] else [name[0]] + CName(name[1..])
  }

  /** The line emitted for an entry: `"%s/%.*s"` of the path and the name. */
  function Line(path: seq<Byte>, e: DirEntry): (r: seq<Byte>)
    ensures path + [SLASH] <= r && |r| <= |path| + 1 + |e.name|
    ensures r[|path| + 1..] == CName(e.name)
  {
    path + [SLASH] + CName(e.name)
  }

  /** The path handed to the recursive call: the same text, cut to the buffer. */
  function ChildPath(path: seq<Byte>, e: DirEntry): (r: seq<Byte>)
    ensures |r| <= MAX_PATH && |r| <= |Line(path, e)|
    ensures r == Line(path, e)[..|r|]
    ensures |Line(path, e)| <= MAX_PATH ==> r == Line(path, e)
    ensures |r| == if |Line(path, e)| <= MAX_PATH then |Line(path, e)| else MAX_PATH
  {
    var line := Line(path, e);
    if |line| <= MAX_PATH then line else line[..MAX_PATH]
  }

  /** How a traversal ends: normally; in the endless loop a zero `rec_len` causes; in
      undefined behaviour (a division by zero, a read past the block buffer); or, in this
      model only, by exhausting the recursion bound the source does not have. */
  datatype Halt = Completed | Diverges | Undefined | OutOfFuel

  /** The lines emitted up to the end or the halt. */
  datatype Run = Run(lines: seq<seq<Byte>>, halt: Halt)

  /** Sequential composition: `b` runs only when `a` completed. */
  function Then(a: Run, b: Run): Run
  {
    if a.halt == Completed then Run(a.lines + b.lines, b.halt) else a
  }

  const Skip: Run := Run([], Completed)

  /** `traverse_directory(inode_num, path)` with `fuel` nested calls allowed (the call
      itself included). An unreadable inode record returns without output. */
  function TravInode(d: Device, bs: U32, ipg: U32, n: U32, path: seq<Byte>, fuel: nat): Run
    decreases fuel, 3
  {
    if fuel == 0 then Run([], OutOfFuel)
    else
      match ReadInode(d, n, ipg, bs)
      case LocateUndefined => Run([], Undefined)
      case RecordUnreadable => Skip
      case Loaded(inode) => TravBlocks(d, bs, ipg, inode, path, 0, fuel - 1)
  }

  /** The loop over `i_block[i]` for `i` from `i` to 11, in index order. */
  function TravBlocks(d: Device, bs: U32, ipg: U32, inode: Inode, path: seq<Byte>, i: nat, fuel: nat): Run
    requires |inode.direct| == DIRECT_BLOCKS
    decreases fuel + 1, 2, DIRECT_BLOCKS - i
  {
    if i >= DIRECT_BLOCKS then Skip
    else Then(TravBlock(d, bs, ipg, inode.direct[i], path, fuel),
              TravBlocks(d, bs, ipg, inode, path, i + 1, fuel))
  }

  /** One direct block: a zero pointer, or a read that does not deliver `bs` bytes, is
      skipped; otherwise its entries are walked. */
  function TravBlock(d: Device, bs: U32, ipg: U32, ptr: U32, path: seq<Byte>, fuel: nat): Run
    decreases fuel + 1, 1, 0
  {
    if ptr == 0 then Skip
    else
      match ReadExact(d, Wrap32(ptr * bs), bs)
      case None => Skip
      case Some(block) => TravWalk(d, bs, ipg, block, 0, path, fuel)
  }

  /** The cursor loop over one block. A record with inode 0 is skipped after reading only
      its `inode` and `rec_len`; a live record is decoded in full and acted on before the
      cursor advances. A read past the buffer is undefined. */
  function TravWalk(d: Device, bs: U32, ipg: U32, block: seq<Byte>, off: nat, path: seq<Byte>, fuel: nat): Run
    decreases fuel + 1, 0, |block| - off, 1
  {
    if off >= |block| then Skip
    else if off + SKIPPED_HEADER_SIZE > |block| then Run([], Undefined)
    else if U32At(block, off) == 0 then
      var recLen := U16At(block, off + 4);
      if recLen == 0 then Run([], Diverges) else TravWalk(d, bs, ipg, block, off + recLen, path, fuel)
    else
      match EntryAt(block, off)
      case None => Run([], Undefined)
      case Some(e) =>
        Then(VisitEntry(d, bs, ipg, block, off, e, path, fuel),
             if e.recLen == 0 then Run([], Diverges)
             else TravWalk(d, bs, ipg, block, off + e.recLen, path, fuel))
  }

  /** One entry: nothing for inode 0; otherwise its line, then its subtree when it is a
      directory whose first name byte is not '.'. Reading that byte past the buffer is
      undefined. */
  function VisitEntry(d: Device, bs: U32, ipg: U32, block: seq<Byte>, off: nat, e: DirEntry,
                      path: seq<Byte>, fuel: nat): Run
    decreases fuel + 1, 0, |block| - off, 0
  {
    if e.inode == 0 then Skip
    else
      Then(Run([Line(path, e)], Completed),
           if e.fileType != EXT2_FT_DIR then Skip
           else if off + DIR_HEADER_SIZE >= |block| then Run([], Undefined)
           else if block[off + DIR_HEADER_SIZE] == DOT then Skip
           else TravInode(d, bs, ipg, e.inode, ChildPath(path, e), fuel))
  }

  lemma ThenAssoc(a: Run, b: Run, c: Run)
    ensures Then(Then(a, b), c) == Then(a, Then(b, c))
  {
    if a.halt == Completed && b.halt == Completed {
      assert (a.lines + b.lines) + c.lines == a.lines + (b.lines + c.lines);
    }
  }

  /** Emitting `l` and then running `a; rest`. */
  lemma ThenPrefix(l: seq<seq<Byte>>, a: Run, rest: Run)
    ensures Then(Run(l, Completed), Then(a, rest))
            == if a.halt == Completed then Then(Run(l + a.lines, Completed), rest)
               else Run(l + a.lines, a.halt)
  {
    if a.halt == Completed {
      assert l + (a.lines + rest.lines) == (l + a.lines) + rest.lines;
    }
  }

  /** `whole = v; (o; e)` and `all = v; o` give `whole = all; e`. */
  lemma Regroup(whole: Run, v: Run, o: Run, all: Run, e: Run)
    requires whole == Then(v, Then(o, e)) && all == Then(v, o)
    ensures whole == Then(all, e)
  {
    ThenAssoc(v, o, e);
  }

  lemma ThenSkip(a: Run)
    ensures Then(Skip, a) == a && Then(a, Skip) == a
  {
    assert [] + a.lines == a.lines + [] == a.lines;
  }

  /** `traverse_directory`: the loop over the twelve direct pointers, with `fuel` bounding
      the recursion depth. */
  method Traverse(d: Device, bs: U32, ipg: U32, n: U32, path: seq<Byte>, fuel: nat)
    returns (lines: seq<seq<Byte>>, halt: Halt)
    ensures Run(lines, halt) == TravInode(d, bs, ipg, n, path, fuel)
    decreases fuel, 3
  {
    if fuel == 0 {
      return [], OutOfFuel;
    }
    var load := ReadInode(d, n, ipg, bs);
    if load.LocateUndefined? {
      return [], Undefined;
    }
    if load.RecordUnreadable? {
      return [], Completed;
    }
    lines, halt := TraverseBlocks(d, bs, ipg, load.inode, path, fuel - 1);
  }

  /** The loop of `traverse_directory` over `i_block[0..11]`: zero pointers and blocks
      that cannot be read in full are skipped. */
  method TraverseBlocks(d: Device, bs: U32, ipg: U32, inode: Inode, path: seq<Byte>, fuel: nat)
    returns (lines: seq<seq<Byte>>, halt: Halt)
    requires |inode.direct| == DIRECT_BLOCKS
    ensures Run(lines, halt) == TravBlocks(d, bs, ipg, inode, path, 0, fuel)
    decreases fuel + 1, 2
  {
    ghost var whole := TravBlocks(d, bs, ipg, inode, path, 0, fuel);
    ThenSkip(whole);
    lines := [];
    var i := 0;
    while i < DIRECT_BLOCKS
      invariant i <= DIRECT_BLOCKS
      invariant whole == Then(Run(lines, Completed), TravBlocks(d, bs, ipg, inode, path, i, fuel))
    {
      ghost var rest := TravBlocks(d, bs, ipg, inode, path, i + 1, fuel);
      var ptr := inode.direct[i];
      var read := if ptr == 0 then None else ReadExact(d, Wrap32(ptr * bs), bs);
      if read.Some? {
        var blockLines, blockHalt := TraverseEntries(d, bs, ipg, read.value, path, fuel);
        assert TravBlock(d, bs, ipg, ptr, path, fuel) == Run(blockLines, blockHalt);
        ThenPrefix(lines, Run(blockLines, blockHalt), rest);
        lines := lines + blockLines;
        if blockHalt != Completed {
          return lines, blockHalt;
        }
      } else {
        assert TravBlock(d, bs, ipg, ptr, path, fuel) == Skip;
        ThenSkip(rest);
      }
      i := i + 1;
    }
    ThenSkip(Run(lines, Completed));
    return lines, Completed;
  }

  /** The cursor loop over one directory block: each record is acted on, then the cursor
      advances by its `rec_len`. */
  method TraverseEntries(d: Device, bs: U32, ipg: U32, block: seq<Byte>, path: seq<Byte>, fuel: nat)
    returns (lines: seq<seq<Byte>>, halt: Halt)
    ensures Run(lines, halt) == TravWalk(d, bs, ipg, block, 0, path, fuel)
    decreases fuel + 1, 0
  {
    ghost var whole := TravWalk(d, bs, ipg, block, 0, path, fuel);
    ThenSkip(whole);
    lines := [];
    var off := 0;
    while off < |block|
      invariant whole == Then(Run(lines, Completed), TravWalk(d, bs, ipg, block, off, path, fuel))
      decreases |block| - off
    {
      if off + SKIPPED_HEADER_SIZE > |block| {
        return lines, Undefined;
      }
      var recLen := U16At(block, off + 4);
      ghost var next := if recLen == 0 then Run([], Diverges)
                        else TravWalk(d, bs, ipg, block, off + recLen, path, fuel);
      if U32At(block, off) != 0 {
        var entry := EntryAt(block, off);
        if entry.None? {
          return lines, Undefined;
        }
        var e := entry.value;
        assert e.recLen == recLen;
        var line := Line(path, e);
        ghost var sub := if e.fileType != EXT2_FT_DIR then Skip
                         else if off + DIR_HEADER_SIZE >= |block| then Run([], Undefined)
                         else if block[off + DIR_HEADER_SIZE] == DOT then Skip
                         else TravInode(d, bs, ipg, e.inode, ChildPath(path, e), fuel);
        assert TravWalk(d, bs, ipg, block, off, path, fuel) == Then(Then(Run([line], Completed), sub), next);
        ThenAssoc(Run([line], Completed), sub, next);
        ThenPrefix(lines, Run([line], Completed), Then(sub, next));
        ThenPrefix(lines + [line], sub, next);
        lines := lines + [line];
        if e.fileType == EXT2_FT_DIR {
          if off + DIR_HEADER_SIZE >= |block| {
            return lines, Undefined;
          }
          if block[off + DIR_HEADER_SIZE] != DOT {
            var subLines, subHalt := Traverse(d, bs, ipg, e.inode, ChildPath(path, e), fuel);
            lines := lines + subLines;
            if subHalt != Completed {
              return lines, subHalt;
            }
          } else {
            assert lines + [] == lines;
          }
        } else {
          assert lines + [] == lines;
        }
      }
      if recLen == 0 {
        return lines, Diverges;
      }
      off := off + recLen;
    }
    ThenSkip(Run(lines, Completed));
    return lines, Completed;
  }

  /** `EXT2_ROOT_INO`, and the path the traversal starts from. */
  const ROOT_INODE: U32 := 2
  const ROOT_PATH: seq<Byte> := [SLASH]

  /** A zero pointer, or a block whose read does not deliver `bs` bytes, is skipped and the
      pointer loop goes on with the next pointer. */
  lemma UnreadableBlockSkipped(d: Device, bs: U32, ipg: U32, inode: Inode, path: seq<Byte>, i: nat, fuel: nat)
    requires |inode.direct| == DIRECT_BLOCKS && i < DIRECT_BLOCKS
    requires inode.direct[i] == 0 || ReadExact(d, Wrap32(inode.direct[i] * bs), bs).None?
    ensures TravBlocks(d, bs, ipg, inode, path, i, fuel) == TravBlocks(d, bs, ipg, inode, path, i + 1, fuel)
  {
    ThenSkip(TravBlocks(d, bs, ipg, inode, path, i + 1, fuel));
  }

  /** The whole traversal as the program starts it: inode 2 under the path "/", with the
      superblock's `s_log_block_size` passed as the block size and its
      `s_inodes_per_group` as the divisor. */
  function TraverseFromRoot(d: Device, sb: Superblock, fuel: nat): Run
  {
    TravInode(d, sb.logBlockSize, sb.inodesPerGroup, ROOT_INODE, ROOT_PATH, fuel)
  }

  /** A deleted record (inode 0) prints nothing and is never entered; a live record prints
      its own line before anything from its subtree. */
  lemma EntryLineFirst(d: Device, bs: U32, ipg: U32, block: seq<Byte>, off: nat, e: DirEntry,
                       path: seq<Byte>, fuel: nat)
    ensures e.inode == 0 ==> VisitEntry(d, bs, ipg, block, off, e, path, fuel) == Skip
    ensures e.inode != 0 ==>
              var r := VisitEntry(d, bs, ipg, block, off, e, path, fuel);
              |r.lines| >= 1 && r.lines[0] == Line(path, e)
  {
  }

  /** A live record that is not a directory, or whose name starts with '.' (so "." and ".."
      among others), is printed and not entered. */
  lemma LeafEntryNotEntered(d: Device, bs: U32, ipg: U32, block: seq<Byte>, off: nat,
                            path: seq<Byte>, fuel: nat)
    requires EntryAt(block, off).Some?
    requires var e := EntryAt(block, off).value;
             e.inode != 0 && (e.fileType != EXT2_FT_DIR || (|e.name| > 0 && e.name[0] == DOT))
    ensures var e := EntryAt(block, off).value;
            VisitEntry(d, bs, ipg, block, off, e, path, fuel) == Run([Line(path, e)], Completed)
  {
    var e := EntryAt(block, off).value;
    if e.fileType == EXT2_FT_DIR {
      assert block[off + DIR_HEADER_SIZE] == e.name[0];
    }
    ThenSkip(Run([Line(path, e)], Completed));
  }

  /** A live directory record whose name does not start with '.' is printed and then
      traversed under its own path. */
  lemma DirectoryEntered(d: Device, bs: U32, ipg: U32, block: seq<Byte>, off: nat,
                         path: seq<Byte>, fuel: nat)
    requires EntryAt(block, off).Some?
    requires var e := EntryAt(block, off).value;
             e.inode != 0 && e.fileType == EXT2_FT_DIR && |e.name| > 0 && e.name[0] != DOT
    ensures var e := EntryAt(block, off).value;
            VisitEntry(d, bs, ipg, block, off, e, path, fuel)
            == Then(Run([Line(path, e)], Completed), TravInode(d, bs, ipg, e.inode, ChildPath(path, e), fuel))
  {
    var e := EntryAt(block, off).value;
    assert block[off + DIR_HEADER_SIZE] == e.name[0];
  }

  /** The records the traversal does not descend into. */
  predicate Leaf(v: Visit)
  {
    v.entry.inode == 0 || v.entry.fileType != EXT2_FT_DIR || (|v.entry.name| > 0 && v.entry.name[0] == DOT)
  }

  /** The lines of the live records among `visits`, in order. */
  function LiveLines(path: seq<Byte>, visits: seq<Visit>): seq<seq<Byte>>
  {
    if |visits| == 0 then []
    else (if visits[0].entry.inode != 0 then [Line(path, visits[0].entry)] else []) + LiveLines(path, visits[1..])
  }

  /** The traversal's output for records visited one after another. */
  function VisitAll(d: Device, bs: U32, ipg: U32, block: seq<Byte>, visits: seq<Visit>,
                    path: seq<Byte>, fuel: nat): Run
    decreases |visits|
  {
    if |visits| == 0 then Skip
    else Then(VisitEntry(d, bs, ipg, block, visits[0].off, visits[0].entry, path, fuel),
              VisitAll(d, bs, ipg, block, visits[1..], path, fuel))
  }

  /** How the traversal goes on where the cursor walk stops. At the end of the block it
      stops too. At a record with a zero `rec_len` it acts on that record and then never
      advances. At a record that does not fit in the buffer, the C loop reads past the
      buffer, unless the record has inode 0 and its `inode` and `rec_len` fit: then the
      loop only skips it and goes on. */
  function WalkEndRun(d: Device, bs: U32, ipg: U32, block: seq<Byte>, end: WalkEnd,
                      path: seq<Byte>, fuel: nat): Run
  {
    match end
    case Finished => Skip
    case Spins(at) =>
      if at < |block| && EntryAt(block, at).Some? then
        Then(VisitEntry(d, bs, ipg, block, at, EntryAt(block, at).value, path, fuel), Run([], Diverges))
      else Run([], Diverges)
    case Overruns(at) =>
      if at + SKIPPED_HEADER_SIZE <= |block| && U32At(block, at) == 0 then
        var recLen := U16At(block, at + 4);
        if recLen == 0 then Run([], Diverges) else TravWalk(d, bs, ipg, block, at + recLen, path, fuel)
      else Run([], Undefined)
  }

  /** The traversal of a block follows the cursor walk of the root listing: it acts on
      every record the walk visits, in walk order, and then goes on as `WalkEndRun` says. */
  lemma {:induction false} TravWalkFollowsWalk(d: Device, bs: U32, ipg: U32, block: seq<Byte>, off: nat,
                                               path: seq<Byte>, fuel: nat)
    ensures FollowsWalk(d, bs, ipg, block, off, path, fuel)
    decreases |block| - off
  {
    if off < |block| && EntryAt(block, off).Some? && EntryAt(block, off).value.recLen > 0 {
      TravWalkFollowsWalk(d, bs, ipg, block, off + EntryAt(block, off).value.recLen, path, fuel);
      FollowsStep(d, bs, ipg, block, off, path, fuel);
    } else {
      TravWalkStop(d, bs, ipg, block, off, path, fuel);
      ThenSkip(WalkEndRun(d, bs, ipg, block, Walk(block, off).end, path, fuel));
    }
  }

  /** The traversal from `off` is the traversal of the walk's visits followed by its end. */
  ghost predicate FollowsWalk(d: Device, bs: U32, ipg: U32, block: seq<Byte>, off: nat, path: seq<Byte>, fuel: nat)
  {
    var w := Walk(block, off);
    TravWalk(d, bs, ipg, block, off, path, fuel)
    == Then(VisitAll(d, bs, ipg, block, w.visits, path, fuel), WalkEndRun(d, bs, ipg, block, w.end, path, fuel))
  }

  /** The inductive step of `TravWalkFollowsWalk`: the record under the cursor is prepended. */
  lemma FollowsStep(d: Device, bs: U32, ipg: U32, block: seq<Byte>, off: nat, path: seq<Byte>, fuel: nat)
    requires off < |block| && EntryAt(block, off).Some? && EntryAt(block, off).value.recLen > 0
    requires FollowsWalk(d, bs, ipg, block, off + EntryAt(block, off).value.recLen, path, fuel)
    ensures FollowsWalk(d, bs, ipg, block, off, path, fuel)
  {
    var e := EntryAt(block, off).value;
    var next := off + e.recLen;
    var w := Walk(block, off);
    var rest := Walk(block, next);
    var visit := VisitEntry(d, bs, ipg, block, off, e, path, fuel);
    var others := VisitAll(d, bs, ipg, block, rest.visits, path, fuel);
    var after := WalkEndRun(d, bs, ipg, block, rest.end, path, fuel);
    var here := TravWalk(d, bs, ipg, block, off, path, fuel);
    var there := TravWalk(d, bs, ipg, block, next, path, fuel);
    assert there == Then(others, after);
    assert here == Then(visit, there) by {
      TravWalkStep(d, bs, ipg, block, off, path, fuel);
    }
    assert VisitAll(d, bs, ipg, block, w.visits, path, fuel) == Then(visit, others) && w.end == rest.end by {
      WalkStep(block, off);
      VisitAllCons(d, bs, ipg, block, Visit(off, e), rest.visits, path, fuel);
    }
    Regroup(here, visit, others, VisitAll(d, bs, ipg, block, w.visits, path, fuel), after);
  }

  /** A record the walk visits: the traversal acts on it (nothing for inode 0) and moves on
      by its `rec_len`. */
  lemma TravWalkStep(d: Device, bs: U32, ipg: U32, block: seq<Byte>, off: nat, path: seq<Byte>, fuel: nat)
    requires off < |block| && EntryAt(block, off).Some? && EntryAt(block, off).value.recLen > 0
    ensures var e := EntryAt(block, off).value;
            TravWalk(d, bs, ipg, block, off, path, fuel)
            == Then(VisitEntry(d, bs, ipg, block, off, e, path, fuel), TravWalk(d, bs, ipg, block, off + e.recLen, path, fuel))
  {
    var e := EntryAt(block, off).value;
    if e.inode == 0 {
      ThenSkip(TravWalk(d, bs, ipg, block, off + e.recLen, path, fuel));
    }
  }

  /** Where the walk stops, the traversal goes on as `WalkEndRun` says. */
  lemma TravWalkStop(d: Device, bs: U32, ipg: U32, block: seq<Byte>, off: nat, path: seq<Byte>, fuel: nat)
    requires !(off < |block| && EntryAt(block, off).Some? && EntryAt(block, off).value.recLen > 0)
    ensures TravWalk(d, bs, ipg, block, off, path, fuel) == WalkEndRun(d, bs, ipg, block, Walk(block, off).end, path, fuel)
  {
    if off < |block| && EntryAt(block, off).Some? && EntryAt(block, off).value.inode == 0 {
      ThenSkip(Run([], Diverges));
    }
  }

  lemma VisitAllCons(d: Device, bs: U32, ipg: U32, block: seq<Byte>, v: Visit, visits: seq<Visit>,
                     path: seq<Byte>, fuel: nat)
    ensures VisitAll(d, bs, ipg, block, [v] + visits, path, fuel)
            == Then(VisitEntry(d, bs, ipg, block, v.off, v.entry, path, fuel), VisitAll(d, bs, ipg, block, visits, path, fuel))
  {
    assert ([v] + visits)[1..] == visits;
  }

  /** Records that are not entered contribute exactly their own lines. */
  lemma {:induction false} LeavesPrintLines(d: Device, bs: U32, ipg: U32, block: seq<Byte>, visits: seq<Visit>,
                                            path: seq<Byte>, fuel: nat)
    requires forall k :: 0 <= k < |visits| ==> Decoded(block, visits[k]) && Leaf(visits[k])
    ensures VisitAll(d, bs, ipg, block, visits, path, fuel) == Run(LiveLines(path, visits), Completed)
    decreases |visits|
  {
    if |visits| > 0 {
      var v := visits[0];
      assert Decoded(block, v) && Leaf(v);
      LeavesPrintLines(d, bs, ipg, block, visits[1..], path, fuel);
      if v.entry.inode != 0 {
        LeafEntryNotEntered(d, bs, ipg, block, v.off, path, fuel);
      }
    }
  }

  /** When no record of a block is entered, the traversal of the block prints exactly the
      live records of the cursor walk, in walk order, and then goes on as the walk ends;
      a finished walk completes the block. */
  lemma ShallowBlock(d: Device, bs: U32, ipg: U32, block: seq<Byte>, off: nat, path: seq<Byte>, fuel: nat)
    requires forall k :: 0 <= k < |Walk(block, off).visits| ==> Leaf(Walk(block, off).visits[k])
    ensures var w := Walk(block, off);
            TravWalk(d, bs, ipg, block, off, path, fuel)
            == Then(Run(LiveLines(path, w.visits), Completed), WalkEndRun(d, bs, ipg, block, w.end, path, fuel))
    ensures Walk(block, off).end.Finished? ==>
              TravWalk(d, bs, ipg, block, off, path, fuel) == Run(LiveLines(path, Walk(block, off).visits), Completed)
  {
    var w := Walk(block, off);
    WalkShape(block, off);
    TravWalkFollowsWalk(d, bs, ipg, block, off, path, fuel);
    assert FollowsWalk(d, bs, ipg, block, off, path, fuel);
    LeavesPrintLines(d, bs, ipg, block, w.visits, path, fuel);
    ThenSkip(Run(LiveLines(path, w.visits), Completed));
  }

  /** Once a traversal finishes within some recursion bound, a larger bound changes
      nothing: the bound only cuts off runs that are deeper than it. */
  lemma {:induction false} InodeFuel(d: Device, bs: U32, ipg: U32, n: U32, path: seq<Byte>, f: nat, g: nat)
    requires f <= g && TravInode(d, bs, ipg, n, path, f).halt != OutOfFuel
    ensures TravInode(d, bs, ipg, n, path, g) == TravInode(d, bs, ipg, n, path, f)
    decreases f, 3
  {
    if ReadInode(d, n, ipg, bs).Loaded? {
      BlocksFuel(d, bs, ipg, ReadInode(d, n, ipg, bs).inode, path, 0, f - 1, g - 1);
    }
  }

  lemma {:induction false} BlocksFuel(d: Device, bs: U32, ipg: U32, inode: Inode, path: seq<Byte>,
                                      i: nat, f: nat, g: nat)
    requires |inode.direct| == DIRECT_BLOCKS
    requires f <= g && TravBlocks(d, bs, ipg, inode, path, i, f).halt != OutOfFuel
    ensures TravBlocks(d, bs, ipg, inode, path, i, g) == TravBlocks(d, bs, ipg, inode, path, i, f)
    decreases f + 1, 2, DIRECT_BLOCKS - i
  {
    if i < DIRECT_BLOCKS {
      BlockFuel(d, bs, ipg, inode.direct[i], path, f, g);
      if TravBlock(d, bs, ipg, inode.direct[i], path, f).halt == Completed {
        BlocksFuel(d, bs, ipg, inode, path, i + 1, f, g);
      }
    }
  }

  lemma {:induction false} BlockFuel(d: Device, bs: U32, ipg: U32, ptr: U32, path: seq<Byte>, f: nat, g: nat)
    requires f <= g && TravBlock(d, bs, ipg, ptr, path, f).halt != OutOfFuel
    ensures TravBlock(d, bs, ipg, ptr, path, g) == TravBlock(d, bs, ipg, ptr, path, f)
    decreases f + 1, 1, 0
  {
    if ptr != 0 && ReadExact(d, Wrap32(ptr * bs), bs).Some? {
      WalkFuel(d, bs, ipg, ReadExact(d, Wrap32(ptr * bs), bs).value, 0, path, f, g);
    }
  }

  lemma {:induction false} WalkFuel(d: Device, bs: U32, ipg: U32, block: seq<Byte>, off: nat,
                                    path: seq<Byte>, f: nat, g: nat)
    requires f <= g && TravWalk(d, bs, ipg, block, off, path, f).halt != OutOfFuel
    ensures TravWalk(d, bs, ipg, block, off, path, g) == TravWalk(d, bs, ipg, block, off, path, f)
    decreases f + 1, 0, |block| - off, 1
  {
    if off < |block| && off + SKIPPED_HEADER_SIZE <= |block| {
      if U32At(block, off) == 0 {
        var recLen := U16At(block, off + 4);
        if recLen != 0 {
          WalkFuel(d, bs, ipg, block, off + recLen, path, f, g);
        }
      } else if EntryAt(block, off).Some? {
        var e := EntryAt(block, off).value;
        VisitFuel(d, bs, ipg, block, off, e, path, f, g);
        if VisitEntry(d, bs, ipg, block, off, e, path, f).halt == Completed && e.recLen != 0 {
          WalkFuel(d, bs, ipg, block, off + e.recLen, path, f, g);
        }
      }
    }
  }

  lemma {:induction false} VisitFuel(d: Device, bs: U32, ipg: U32, block: seq<Byte>, off: nat, e: DirEntry,
                                     path: seq<Byte>, f: nat, g: nat)
    requires f <= g && VisitEntry(d, bs, ipg, block, off, e, path, f).halt != OutOfFuel
    ensures VisitEntry(d, bs, ipg, block, off, e, path, g) == VisitEntry(d, bs, ipg, block, off, e, path, f)
    decreases f + 1, 0, |block| - off, 0
  {
    if e.inode != 0 && e.fileType == EXT2_FT_DIR && off + DIR_HEADER_SIZE < |block|
       && block[off + DIR_HEADER_SIZE] != DOT {
      InodeFuel(d, bs, ipg, e.inode, ChildPath(path, e), f, g);
    }
  }

  /** Every line begins with `p`. */
  ghost predicate Prefixed(p: seq<Byte>, lines: seq<seq<Byte>>)
  {
    forall k :: 0 <= k < |lines| ==> p <= lines[k]
  }

  lemma PrefixedThen(p: seq<Byte>, a: Run, b: Run)
    requires Prefixed(p, a.lines) && Prefixed(p, b.lines)
    ensures Prefixed(p, Then(a, b).lines)
  {
    if a.halt == Completed {
      var l := a.lines + b.lines;
      assert forall k :: |a.lines| <= k < |l| ==> l[k] == b.lines[k - |a.lines|];
    }
  }

  /** A line under the child's path is a line under the parent's path: the child path
      extends the parent path with a slash, unless the buffer cut it back to the parent. */
  lemma ChildExtends(path: seq<Byte>, e: DirEntry, l: seq<Byte>)
    requires |path| <= MAX_PATH
    requires ChildPath(path, e) + [SLASH] <= l
    ensures path + [SLASH] <= l
  {
    var child := ChildPath(path, e);
    var line := Line(path, e);
    assert line[..|path| + 1] == path + [SLASH];
    if |child| > |path| {
      assert child[..|path| + 1] == line[..|path| + 1];
      assert l[..|path| + 1] == child[..|path| + 1];
    } else {
      assert child == path;
    }
  }

  /** Depth-first output keeps the tree shape in the text: every line the traversal of a
      directory emits begins with that directory's path and a slash. */
  lemma {:induction false} InodeUnderPath(d: Device, bs: U32, ipg: U32, n: U32, path: seq<Byte>, fuel: nat)
    requires |path| <= MAX_PATH
    ensures Prefixed(path + [SLASH], TravInode(d, bs, ipg, n, path, fuel).lines)
    decreases fuel, 3
  {
    if fuel > 0 && ReadInode(d, n, ipg, bs).Loaded? {
      BlocksUnderPath(d, bs, ipg, ReadInode(d, n, ipg, bs).inode, path, 0, fuel - 1);
    }
  }

  lemma {:induction false} BlocksUnderPath(d: Device, bs: U32, ipg: U32, inode: Inode, path: seq<Byte>,
                                           i: nat, fuel: nat)
    requires |inode.direct| == DIRECT_BLOCKS && |path| <= MAX_PATH
    ensures Prefixed(path + [SLASH], TravBlocks(d, bs, ipg, inode, path, i, fuel).lines)
    decreases fuel + 1, 2, DIRECT_BLOCKS - i
  {
    if i < DIRECT_BLOCKS {
      var ptr := inode.direct[i];
      if ptr != 0 && ReadExact(d, Wrap32(ptr * bs), bs).Some? {
        WalkUnderPath(d, bs, ipg, ReadExact(d, Wrap32(ptr * bs), bs).value, 0, path, fuel);
      }
      BlocksUnderPath(d, bs, ipg, inode, path, i + 1, fuel);
      PrefixedThen(path + [SLASH], TravBlock(d, bs, ipg, ptr, path, fuel),
                   TravBlocks(d, bs, ipg, inode, path, i + 1, fuel));
    }
  }

  lemma {:induction false} WalkUnderPath(d: Device, bs: U32, ipg: U32, block: seq<Byte>, off: nat,
                                         path: seq<Byte>, fuel: nat)
    requires |path| <= MAX_PATH
    ensures Prefixed(path + [SLASH], TravWalk(d, bs, ipg, block, off, path, fuel).lines)
    decreases fuel + 1, 0, |block| - off, 1
  {
    if off < |block| && off + SKIPPED_HEADER_SIZE <= |block| {
      if U32At(block, off) == 0 {
        var recLen := U16At(block, off + 4);
        if recLen != 0 {
          WalkUnderPath(d, bs, ipg, block, off + recLen, path, fuel);
        }
      } else if EntryAt(block, off).Some? {
        var e := EntryAt(block, off).value;
        VisitUnderPath(d, bs, ipg, block, off, e, path, fuel);
        if e.recLen != 0 {
          WalkUnderPath(d, bs, ipg, block, off + e.recLen, path, fuel);
        }
        var next := if e.recLen == 0 then Run([], Diverges)
                    else TravWalk(d, bs, ipg, block, off + e.recLen, path, fuel);
        PrefixedThen(path + [SLASH], VisitEntry(d, bs, ipg, block, off, e, path, fuel), next);
      }
    }
  }

  lemma {:induction false} VisitUnderPath(d: Device, bs: U32, ipg: U32, block: seq<Byte>, off: nat, e: DirEntry,
                                          path: seq<Byte>, fuel: nat)
    requires |path| <= MAX_PATH
    ensures Prefixed(path + [SLASH], VisitEntry(d, bs, ipg, block, off, e, path, fuel).lines)
    decreases fuel + 1, 0, |block| - off, 0
  {
    if e.inode != 0 {
      var p := path + [SLASH];
      assert p <= Line(path, e);
      var sub := if e.fileType != EXT2_FT_DIR then Skip
                 else if off + DIR_HEADER_SIZE >= |block| then Run([], Undefined)
                 else if block[off + DIR_HEADER_SIZE] == DOT then Skip
                 else TravInode(d, bs, ipg, e.inode, ChildPath(path, e), fuel);
      if e.fileType == EXT2_FT_DIR && off + DIR_HEADER_SIZE < |block| && block[off + DIR_HEADER_SIZE] != DOT {
        var child := ChildPath(path, e);
        InodeUnderPath(d, bs, ipg, e.inode, child, fuel);
        forall k | 0 <= k < |sub.lines|
          ensures p <= sub.lines[k]
        {
          ChildExtends(path, e, sub.lines[k]);
        }
      }
      PrefixedThen(p, Run([Line(path, e)], Completed), sub);
    }
  }

  /** Every line of the whole traversal begins with "//". */
  lemma RootLinesStartWithTwoSlashes(d: Device, sb: Superblock, fuel: nat)
    ensures forall l :: l in TraverseFromRoot(d, sb, fuel).lines ==> [SLASH, SLASH] <= l
  {
    InodeUnderPath(d, sb.logBlockSize, sb.inodesPerGroup, ROOT_INODE, ROOT_PATH, fuel);
    assert ROOT_PATH + [SLASH] == [SLASH, SLASH];
  }
}
