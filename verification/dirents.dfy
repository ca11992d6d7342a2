/** Directory entries (`struct ext2_dir_entry_2`) and the cursor walk over one block's
    bytes that both the root listing and the traversal perform. */
module DirEntries {
  import opened Bytes
  import opened Wrappers

  /** The fixed header: `inode` u32 at +0, `rec_len` u16 at +4, `name_len` u8 at +6,
      `file_type` u8 at +7; the name follows at +8. */
  const DIR_HEADER_SIZE: nat := 8
  const EXT2_FT_DIR: nat := 2
  /** The bytes a loop reads of a record it only skips: `inode` and `rec_len`. */
  const SKIPPED_HEADER_SIZE: nat := 6

  datatype DirEntry = DirEntry(inode: U32, recLen: nat, nameLen: nat, fileType: nat, name: seq<Byte>)

  /** The field widths of the on-disk record, and a name of exactly `name_len` bytes. */
  predicate WellFormed(e: DirEntry)
  {
    e.recLen < TWO16 && e.nameLen < 256 && e.fileType < 256 && |e.name| == e.nameLen
  }

  /** The entry the cursor points at. None when its header or its `name_len` name bytes
      would reach past the end of the buffer: the C code reads beyond the buffer there,
      which is undefined. */
  function EntryAt(block: seq<Byte>, off: nat): (r: Option<DirEntry>)
    ensures r.Some? <==> off + DIR_HEADER_SIZE <= |block| && off + DIR_HEADER_SIZE + block[off + 6] <= |block|
    ensures r.Some? ==> WellFormed(r.value)
  {
    if off + DIR_HEADER_SIZE > |block| || off + DIR_HEADER_SIZE + block[off + 6] > |block| then None
    else
      var nameLen := block[off + 6];
      Some(DirEntry(U32At(block, off), U16At(block, off + 4), nameLen, block[off + 7],
                    block[off + DIR_HEADER_SIZE..off + DIR_HEADER_SIZE + nameLen]))
  }

  /** The on-disk bytes of an entry (no padding). */
  function EncodeEntry(e: DirEntry): (r: seq<Byte>)
    requires WellFormed(e)
    ensures |r| == DIR_HEADER_SIZE + e.nameLen
  {
    LeBytes32(e.inode) + LeBytes16(e.recLen) + [e.nameLen, e.fileType] + e.name
  }

  /** Decoding an encoded entry gives it back, wherever in the block it is stored and
      whatever bytes surround it. */
  lemma {:induction false} DecodeEncodeEntry(pre: seq<Byte>, e: DirEntry, rest: seq<Byte>)
    requires WellFormed(e)
    ensures EntryAt(pre + EncodeEntry(e) + rest, |pre|) == Some(e)
  {
    var s := pre + EncodeEntry(e) + rest;
    var at := |pre|;
    DecodeEncode32(e.inode);
    DecodeEncode16(e.recLen);
    FieldAt32(s, at, LeBytes32(e.inode));
    FieldAt16(s, at + 4, LeBytes16(e.recLen));
    assert s[at + 6] == e.nameLen && s[at + 7] == e.fileType;
    assert s[at + DIR_HEADER_SIZE..at + DIR_HEADER_SIZE + e.nameLen] == e.name;
  }

  /** Conversely, an entry decoded at `off` is exactly the bytes stored there: its
      encoding is the header and the name the cursor points at. */
  lemma {:induction false} EncodeDecodedEntry(block: seq<Byte>, off: nat, e: DirEntry)
    requires EntryAt(block, off) == Some(e)
    ensures off + DIR_HEADER_SIZE + e.nameLen <= |block|
    ensures EncodeEntry(e) == block[off..off + DIR_HEADER_SIZE + e.nameLen]
  {
    var end := off + DIR_HEADER_SIZE + e.nameLen;
    EncodeDecode32(block, off);
    EncodeDecode16(block, off + 4);
    assert block[off..end] == block[off..off + 4] + block[off + 4..off + 6]
                              + [block[off + 6], block[off + 7]] + block[off + DIR_HEADER_SIZE..end];
  }

  /** An entry the walk visited, with the cursor offset it was decoded at. */
  datatype Visit = Visit(off: nat, entry: DirEntry)

  /** How a walk ends: the cursor reached the block length; it met a record with
      `rec_len == 0` (the C loop then never advances and never ends); or the record under
      the cursor does not fit in the buffer. */
  datatype WalkEnd = Finished | Spins(at: nat) | Overruns(at: nat)

  datatype Walked = Walked(visits: seq<Visit>, end: WalkEnd)

  /** Where the cursor stands after the visits: `off` if there were none, else the last
      visited offset plus that entry's `rec_len`. */
  function NextOffset(off: nat, visits: seq<Visit>): nat
  {
    if |visits| == 0 then off else visits[|visits| - 1].off + visits[|visits| - 1].entry.recLen
  }

  /** A visit is a decodable record inside the block with a nonzero `rec_len`. */
  ghost predicate Decoded(block: seq<Byte>, v: Visit)
  {
    v.off < |block| && EntryAt(block, v.off) == Some(v.entry) && v.entry.recLen > 0
  }

  /** The offsets start at `off`, and each next offset is the previous one plus its `rec_len`. */
  ghost predicate Linked(off: nat, visits: seq<Visit>)
  {
    && (|visits| > 0 ==> visits[0].off == off)
    && (forall k :: 0 <= k < |visits| - 1 ==>
          visits[k + 1].off == visits[k].off + visits[k].entry.recLen)
  }

  /** The visits form a chain of decodable records from `off`. */
  ghost predicate Chained(block: seq<Byte>, off: nat, visits: seq<Visit>)
  {
    Linked(off, visits) && forall k :: 0 <= k < |visits| ==> Decoded(block, visits[k])
  }

  /** The walk stops exactly where the loop does. */
  ghost predicate EndsAt(block: seq<Byte>, off: nat, w: Walked)
  {
    var next := NextOffset(off, w.visits);
    match w.end
    case Finished => next >= |block|
    case Spins(at) => at == next < |block| && EntryAt(block, at).Some? && EntryAt(block, at).value.recLen == 0
    case Overruns(at) => at == next < |block| && EntryAt(block, at).None?
  }

  /** The cursor loop `for (offset = off; offset < bs; offset += entry->rec_len)` over
      a buffer of `bs` bytes. */
  function Walk(block: seq<Byte>, off: nat): (w: Walked)
    decreases |block| - off
  {
    if off >= |block| then Walked([], Finished)
    else
      match EntryAt(block, off)
      case None => Walked([], Overruns(off))
      case Some(e) =>
        if e.recLen == 0 then Walked([], Spins(off))
        else
          var rest := Walk(block, off + e.recLen);
          Walked([Visit(off, e)] + rest.visits, rest.end)
  }

  /** What the walk visits: a chain of records from `off`, each with a nonzero `rec_len`,
      ending where the loop ends. */
  lemma {:induction false} WalkShape(block: seq<Byte>, off: nat)
    ensures Chained(block, off, Walk(block, off).visits) && EndsAt(block, off, Walk(block, off))
    decreases |block| - off
  {
    if off < |block| && EntryAt(block, off).Some? && EntryAt(block, off).value.recLen > 0 {
      var e := EntryAt(block, off).value;
      WalkShape(block, off + e.recLen);
      ChainCons(block, off, e, Walk(block, off + e.recLen).visits);
      WalkStep(block, off);
    }
  }

  /** Prepending the record under the cursor to a chain from the next offset gives a chain. */
  lemma ChainCons(block: seq<Byte>, off: nat, e: DirEntry, rest: seq<Visit>)
    requires off < |block| && EntryAt(block, off) == Some(e) && e.recLen > 0
    requires Chained(block, off + e.recLen, rest)
    ensures Chained(block, off, [Visit(off, e)] + rest)
    ensures NextOffset(off, [Visit(off, e)] + rest) == NextOffset(off + e.recLen, rest)
  {
    var all := [Visit(off, e)] + rest;
    forall k | 0 <= k < |all| - 1
      ensures all[k + 1].off == all[k].off + all[k].entry.recLen
    {
      if k > 0 {
        assert all[k] == rest[k - 1] && all[k + 1] == rest[k];
      }
    }
    forall k | 0 <= k < |all|
      ensures Decoded(block, all[k])
    {
      if k > 0 {
        assert all[k] == rest[k - 1];
      }
    }
  }

  /** One step of the walk: the record under the cursor, then the walk from the next offset. */
  lemma WalkStep(block: seq<Byte>, off: nat)
    requires off < |block| && EntryAt(block, off).Some? && EntryAt(block, off).value.recLen > 0
    ensures var e := EntryAt(block, off).value;
            var rest := Walk(block, off + e.recLen);
            Walk(block, off) == Walked([Visit(off, e)] + rest.visits, rest.end)
  {
  }

  /** Dropping the first visit of a chain leaves a chain from the next offset. */
  lemma ChainTail(block: seq<Byte>, off: nat, visits: seq<Visit>)
    requires Chained(block, off, visits) && |visits| > 0
    ensures Chained(block, off + visits[0].entry.recLen, visits[1..])
  {
    var tail := visits[1..];
    forall k | 0 <= k < |tail| - 1
      ensures tail[k + 1].off == tail[k].off + tail[k].entry.recLen
    {
      assert tail[k] == visits[k + 1] && tail[k + 1] == visits[k + 2];
    }
    forall k | 0 <= k < |tail|
      ensures Decoded(block, tail[k])
    {
      assert tail[k] == visits[k + 1];
    }
    if |tail| > 0 {
      assert tail[0] == visits[1];
    }
  }

  function SumRecLen(visits: seq<Visit>): nat
  {
    if |visits| == 0 then 0 else SumRecLen(visits[..|visits| - 1]) + visits[|visits| - 1].entry.recLen
  }

  /** Every visited offset is `off` plus the `rec_len`s before it, and the cursor stops
      at `off` plus all of them. */
  lemma {:induction false} WalkConsumes(off: nat, visits: seq<Visit>)
    requires Linked(off, visits)
    ensures forall k :: 0 <= k < |visits| ==> visits[k].off == off + SumRecLen(visits[..k])
    ensures NextOffset(off, visits) == off + SumRecLen(visits)
  {
    if |visits| > 0 {
      var init := visits[..|visits| - 1];
      assert Linked(off, init);
      WalkConsumes(off, init);
      assert visits[..|visits| - 1] == init;
      forall k | 0 <= k < |visits|
        ensures visits[k].off == off + SumRecLen(visits[..k])
      {
        if k < |visits| - 1 {
          assert visits[..k] == init[..k];
        } else if k > 0 {
          assert visits[..k] == init;
          assert visits[k].off == visits[k - 1].off + visits[k - 1].entry.recLen;
          assert init[..k - 1] == visits[..k - 1];
          assert SumRecLen(init) == SumRecLen(init[..k - 1]) + init[k - 1].entry.recLen;
        }
      }
    }
  }

  /** The chain and its end determine the walk: any sequence of visits and end that
      satisfies them is the walk. */
  lemma {:induction false} WalkUnique(block: seq<Byte>, off: nat, w: Walked)
    requires Chained(block, off, w.visits) && EndsAt(block, off, w)
    ensures w == Walk(block, off)
    decreases |block| - off
  {
    if |w.visits| == 0 {
      WalkUniqueEmpty(block, off, w);
    } else {
      var v := w.visits[0];
      assert Decoded(block, v) && v.off == off;
      var next := off + v.entry.recLen;
      var tw := Walked(w.visits[1..], w.end);
      assert Chained(block, next, tw.visits) by {
        ChainTail(block, off, w.visits);
      }
      assert EndsAt(block, next, tw) by {
        NextOffsetTail(off, w.visits);
      }
      WalkUnique(block, next, tw);
      assert Walk(block, off) == Walked([Visit(off, v.entry)] + tw.visits, w.end) by {
        WalkStep(block, off);
      }
      assert [Visit(off, v.entry)] + tw.visits == w.visits;
    }
  }

  lemma NextOffsetTail(off: nat, visits: seq<Visit>)
    requires |visits| > 0 && visits[0].off == off
    ensures NextOffset(off + visits[0].entry.recLen, visits[1..]) == NextOffset(off, visits)
  {
  }

  lemma WalkUniqueEmpty(block: seq<Byte>, off: nat, w: Walked)
    requires |w.visits| == 0 && EndsAt(block, off, w)
    ensures w == Walk(block, off)
  {
    assert NextOffset(off, w.visits) == off;
    assert w.visits == [];
  }
}
