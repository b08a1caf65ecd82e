/**
 Extent-tree rebuild (e2fsck/extents.c): coalesce the leaf extents while reading
 the old tree, split to the on-disk maximum while writing the new one.
 */
module ExtentRebuild {
  import opened Machine
  import opened Extents
  import opened ExtentEditor
  import opened EditTheorem

  const EXT_INIT_MAX_LEN: nat := 0x8000
  const EXT_UNINIT_MAX_LEN: nat := 0x7FFF

  // ---------------------------------------------------------------- reading

  /** One stop of the tree walk. */
  datatype Visit = Visit(ext: Extent, leaf: bool, secondVisit: bool)

  function LeafExtents(visits: seq<Visit>): seq<Extent> {
    if visits == [] then []
    else (if visits[0].leaf && !visits[0].secondVisit then [visits[0].ext] else []) + LeafExtents(visits[1..])
  }

  function NodeBlocks(visits: seq<Visit>): seq<nat> {
    if visits == [] then []
    else (if !visits[0].leaf && !visits[0].secondVisit then [visits[0].ext.pblk] else []) + NodeBlocks(visits[1..])
  }

  /**
   The attach test, as written.  The guard adds two 32-bit lengths in 32 bits
   before comparing with 2^32, so it never fails.
   */
  predicate Attaches(last: Extent, e: Extent) {
    && U64(last.pblk + last.len) == e.pblk
    && U64(last.lblk + last.len) == e.lblk
    && last.uninit == e.uninit
    && U32(last.len + e.len) < TWO32
  }

  function Attach(acc: seq<Extent>, e: Extent): seq<Extent> {
    if acc != [] && Attaches(acc[|acc| - 1], e) then
      acc[|acc| - 1 := acc[|acc| - 1].(len := U32(acc[|acc| - 1].len + e.len))]
    else acc + [e]
  }

  function CoalesceOnto(acc: seq<Extent>, leaves: seq<Extent>): seq<Extent>
    decreases |leaves|
  {
    if leaves == [] then acc else CoalesceOnto(Attach(acc, leaves[0]), leaves[1..])
  }

  function Coalesce(leaves: seq<Extent>): seq<Extent> {
    CoalesceOnto([], leaves)
  }

  /** A block reported by the block iterator; negative counts are indirect blocks. */
  datatype BlockCall = BlockCall(blocknr: nat, blockcnt: int)

  function DataBlocks(calls: seq<BlockCall>): seq<Extent> {
    if calls == [] then []
    else (if calls[0].blockcnt >= 0 then [Extent(calls[0].blockcnt, calls[0].blocknr, 1, false)] else [])
         + DataBlocks(calls[1..])
  }

  /** What one callback does to the list: the attach test looks at the blocks only. */
  function Collected(acc: seq<Extent>, c: BlockCall): seq<Extent> {
    if c.blockcnt < 0 then acc
    else if acc != [] && U64(acc[|acc| - 1].lblk + acc[|acc| - 1].len) == c.blockcnt
            && U64(acc[|acc| - 1].pblk + acc[|acc| - 1].len) == c.blocknr
    then acc[|acc| - 1 := acc[|acc| - 1].(len := U32(acc[|acc| - 1].len + 1))]
    else acc + [Extent(c.blockcnt, c.blocknr, 1, false)]
  }

  function CollectOnto(acc: seq<Extent>, calls: seq<BlockCall>): seq<Extent>
    decreases |calls|
  {
    if calls == [] then acc else CollectOnto(Collected(acc, calls[0]), calls[1..])
  }

  function IndirectBlocks(calls: seq<BlockCall>): seq<nat> {
    if calls == [] then []
    else (if calls[0].blockcnt < 0 then [calls[0].blocknr] else []) + IndirectBlocks(calls[1..])
  }

  // ---------------------------------------------------------------- writing

  function MaxLen(e: Extent): nat {
    if e.uninit then EXT_UNINIT_MAX_LEN else EXT_INIT_MAX_LEN
  }

  function Advance(e: Extent): Extent
    requires e.len > MaxLen(e)
  {
    Extent(U64(e.lblk + MaxLen(e)), U64(e.pblk + MaxLen(e)), e.len - MaxLen(e), e.uninit)
  }

  function Split(e: Extent): seq<Extent>
    decreases e.len
  {
    if e.len == 0 then []
    else if e.len > MaxLen(e) then [e.(len := MaxLen(e))] + Split(Advance(e))
    else [e]
  }

  function SplitAll(s: seq<Extent>): seq<Extent> {
    if s == [] then [] else Split(s[0]) + SplitAll(s[1..])
  }

  /** What is left in the in-memory list once an extent has been written. */
  function Residue(e: Extent): Extent
    decreases e.len
  {
    if e.len > MaxLen(e) then Residue(Advance(e)) else e
  }

  function ResidueAll(s: seq<Extent>): seq<Extent> {
    seq(|s|, i requires 0 <= i < |s| => Residue(s[i]))
  }

  function TotalLen(s: seq<Extent>): nat {
    if s == [] then 0 else s[0].len + TotalLen(s[1..])
  }

  // ------------------------------------------------- unfolding, one step each

  lemma WalkCons(visits: seq<Visit>, i: nat)
    requires i < |visits|
    ensures var v := visits[i];
      && LeafExtents(visits[i..]) == (if v.leaf && !v.secondVisit then [v.ext] else []) + LeafExtents(visits[i + 1..])
      && NodeBlocks(visits[i..]) == (if !v.leaf && !v.secondVisit then [v.ext.pblk] else []) + NodeBlocks(visits[i + 1..])
    ensures [] + LeafExtents(visits[i + 1..]) == LeafExtents(visits[i + 1..])
  {
    assert visits[i..][0] == visits[i] && visits[i..][1..] == visits[i + 1..];
  }

  lemma CallCons(calls: seq<BlockCall>, i: nat)
    requires i < |calls|
    ensures var c := calls[i];
      && DataBlocks(calls[i..]) ==
         (if c.blockcnt >= 0 then [Extent(c.blockcnt, c.blocknr, 1, false)] else []) + DataBlocks(calls[i + 1..])
      && IndirectBlocks(calls[i..]) == (if c.blockcnt < 0 then [c.blocknr] else []) + IndirectBlocks(calls[i + 1..])
    ensures [] + DataBlocks(calls[i + 1..]) == DataBlocks(calls[i + 1..])
  {
    assert calls[i..][0] == calls[i] && calls[i..][1..] == calls[i + 1..];
  }

  lemma ResidueStep(e: Extent)
    ensures Residue(e) == if e.len > MaxLen(e) then Residue(Advance(e)) else e
  {
  }

  lemma CollectCons(acc: seq<Extent>, calls: seq<BlockCall>, i: nat)
    requires i < |calls|
    ensures CollectOnto(acc, calls[i..]) == CollectOnto(Collected(acc, calls[i]), calls[i + 1..])
  {
    assert calls[i..][1..] == calls[i + 1..];
  }

  lemma CollectNone(acc: seq<Extent>)
    ensures CollectOnto(acc, []) == acc
  {
  }

  /** Without uninitialised extents the callbacks coalesce the data blocks. */
  lemma {:induction false} CollectIsCoalesce(acc: seq<Extent>, calls: seq<BlockCall>)
    requires forall e :: e in acc ==> !e.uninit
    ensures CollectOnto(acc, calls) == CoalesceOnto(acc, DataBlocks(calls))
    decreases |calls|
  {
    if calls != [] {
      hide CollectOnto, CoalesceOnto, Collected, Attach, DataBlocks;
      var c, next := calls[0], Collected(acc, calls[0]);
      CollectedIsAttach(acc, c);
      CollectIsCoalesce(next, calls[1..]);
      assert calls[0..] == calls;
      CallCons(calls, 0);
      CollectCons(acc, calls, 0);
      if c.blockcnt >= 0 {
        OntoCons(acc, Extent(c.blockcnt, c.blocknr, 1, false), DataBlocks(calls[1..]));
      }
    } else {
      CollectNone(acc);
      WalkEnd(acc);
    }
  }

  lemma CollectedIsAttach(acc: seq<Extent>, c: BlockCall)
    requires forall e :: e in acc ==> !e.uninit
    ensures c.blockcnt < 0 ==> Collected(acc, c) == acc
    ensures c.blockcnt >= 0 ==> Collected(acc, c) == Attach(acc, Extent(c.blockcnt, c.blocknr, 1, false))
    ensures forall e :: e in Collected(acc, c) ==> !e.uninit
  {
    hide U32, U64;
    assert acc != [] ==> acc[|acc| - 1] in acc;
  }

  lemma WalkEnd(acc: seq<Extent>)
    ensures CoalesceOnto(acc, LeafExtents([])) == acc && NodeBlocks([]) == [] && LeafExtents([]) == []
    ensures CoalesceOnto(acc, DataBlocks([])) == acc && IndirectBlocks([]) == []
    ensures SplitAll([]) == [] && TotalLen([]) == 0
  {
  }

  lemma OntoCons(acc: seq<Extent>, e: Extent, rest: seq<Extent>)
    ensures CoalesceOnto(acc, [e] + rest) == CoalesceOnto(Attach(acc, e), rest)
  {
    assert ([e] + rest)[1..] == rest;
  }

  lemma SplitCons(e: Extent, rest: seq<Extent>)
    ensures SplitAll([e] + rest) == Split(e) + SplitAll(rest)
    ensures TotalLen([e] + rest) == e.len + TotalLen(rest)
  {
    assert ([e] + rest)[1..] == rest;
  }

  /** Writing the longest piece of extent `i` and leaving the rest in its slot. */
  lemma WriteStep(x: seq<Extent>, i: nat, written: seq<Extent>)
    requires i < |x| && x[i].len > MaxLen(x[i])
    ensures var y, piece := x[i := Advance(x[i])], x[i].(len := MaxLen(x[i]));
      && written + SplitAll(x[i..]) == written + [piece] + SplitAll(y[i..])
      && TotalLen(y[i..]) < TotalLen(x[i..])
  {
    var e, rest := x[i], x[i + 1..];
    var y := x[i := Advance(e)];
    assert x[i..] == [e] + rest && y[i..] == [Advance(e)] + rest;
    SplitCons(e, rest);
    SplitCons(Advance(e), rest);
    assert Split(e) == [e.(len := MaxLen(e))] + Split(Advance(e));
    assert written + ([e.(len := MaxLen(e))] + Split(Advance(e)) + SplitAll(rest))
        == written + [e.(len := MaxLen(e))] + (Split(Advance(e)) + SplitAll(rest));
  }

  /** Writing the last piece of extent `i`, or skipping it when it is empty. */
  lemma WriteLast(x: seq<Extent>, i: nat, written: seq<Extent>)
    requires i < |x| && x[i].len <= MaxLen(x[i])
    ensures written + SplitAll(x[i..]) == written + (if x[i].len == 0 then [] else [x[i]]) + SplitAll(x[i + 1..])
    ensures TotalLen(x[i..]) == x[i].len + TotalLen(x[i + 1..])
  {
    assert x[i..] == [x[i]] + x[i + 1..];
    SplitCons(x[i], x[i + 1..]);
  }

  // ----------------------------------------------------------- the rebuilder

  class RebuildList {
    var extents: seq<Extent>
    var blocksFreed: nat
    var extRead: nat
    var freed: seq<nat>   // blocks handed back to the allocator, in order

    constructor ()
      ensures extents == [] && blocksFreed == 0 && extRead == 0 && freed == []
    {
      extents, blocksFreed, extRead, freed := [], 0, 0, [];
    }

    method AttachOrAppend(e: Extent)
      modifies this`extents
      ensures extents == Attach(old(extents), e)
    {
      if |extents| > 0 {
        var last := extents[|extents| - 1];
        var end := U32(last.len + e.len);
        if U64(last.pblk + last.len) == e.pblk && U64(last.lblk + last.len) == e.lblk &&
           last.uninit == e.uninit && end < TWO32 {
          extents := extents[|extents| - 1 := last.(len := end)];
          return;
        }
      }
      extents := extents + [e];
    }

    /** `load_extents`. */
    method Load(visits: seq<Visit>)
      modifies this
      ensures extents == CoalesceOnto(old(extents), LeafExtents(visits))
      ensures freed == old(freed) + NodeBlocks(visits) && blocksFreed == old(blocksFreed) + |NodeBlocks(visits)|
      ensures extRead == old(extRead) + |LeafExtents(visits)|
    {
      hide CoalesceOnto, LeafExtents, NodeBlocks, Attach;
      assert visits[0..] == visits;
      for i := 0 to |visits|
        invariant CoalesceOnto(extents, LeafExtents(visits[i..])) == CoalesceOnto(old(extents), LeafExtents(visits))
        invariant freed + NodeBlocks(visits[i..]) == old(freed) + NodeBlocks(visits)
        invariant blocksFreed == old(blocksFreed) + |freed| - |old(freed)|
        invariant extRead + |LeafExtents(visits[i..])| == old(extRead) + |LeafExtents(visits)|
      {
        var v := visits[i];
        WalkCons(visits, i);
        if v.secondVisit {
          continue;
        }
        if !v.leaf {
          blocksFreed := blocksFreed + 1;
          freed := freed + [v.ext.pblk];
          continue;
        }
        extRead := extRead + 1;
        OntoCons(extents, v.ext, LeafExtents(visits[i + 1..]));
        AttachOrAppend(v.ext);
      }
      assert visits[|visits|..] == [];
      WalkEnd(extents);
    }

    /** `find_blocks`: one callback of the block iterator. */
    method FindBlock(c: BlockCall)
      modifies this`extents, this`blocksFreed, this`freed
      ensures extents == Collected(old(extents), c)
      ensures freed == old(freed) + (if c.blockcnt < 0 then [c.blocknr] else [])
      ensures blocksFreed == old(blocksFreed) + |freed| - |old(freed)|
    {
      if c.blockcnt < 0 {
        blocksFreed := blocksFreed + 1;
        freed := freed + [c.blocknr];
        return;
      }
      if |extents| > 0 {
        var last := extents[|extents| - 1];
        var end := U32(last.len + 1);
        if U64(last.lblk + last.len) == c.blockcnt && U64(last.pblk + last.len) == c.blocknr && end < TWO32 {
          extents := extents[|extents| - 1 := last.(len := end)];
          return;
        }
      }
      extents := extents + [Extent(c.blockcnt, c.blocknr, 1, false)];
    }

    /** A whole block iteration; from a list without uninitialised extents it is the coalescing of the data blocks. */
    method FindBlocks(calls: seq<BlockCall>)
      modifies this
      ensures extents == CollectOnto(old(extents), calls)
      ensures (forall e :: e in old(extents) ==> !e.uninit) ==> extents == CoalesceOnto(old(extents), DataBlocks(calls))
      ensures freed == old(freed) + IndirectBlocks(calls) && blocksFreed == old(blocksFreed) + |IndirectBlocks(calls)|
    {
      hide CollectOnto, Collected, IndirectBlocks, DataBlocks, CoalesceOnto;
      assert calls[0..] == calls;
      for i := 0 to |calls|
        invariant CollectOnto(extents, calls[i..]) == CollectOnto(old(extents), calls)
        invariant freed + IndirectBlocks(calls[i..]) == old(freed) + IndirectBlocks(calls)
        invariant blocksFreed == old(blocksFreed) + |freed| - |old(freed)|
      {
        CallCons(calls, i);
        CollectCons(extents, calls, i);
        FindBlock(calls[i]);
      }
      assert calls[|calls|..] == [];
      CollectNone(extents);
      WalkEnd(extents);
      if forall e :: e in old(extents) ==> !e.uninit {
        CollectIsCoalesce(old(extents), calls);
      }
    }

    /** `rewrite_extent_replay`: the loop that may step its own index back. */
    method Rewrite() returns (written: seq<Extent>)
      modifies this`extents
      ensures written == SplitAll(old(extents))
      ensures extents == ResidueAll(old(extents))
    {
      hide SplitAll, TotalLen, Split, Residue;
      written := [];
      ghost var s := extents;
      var i := 0;
      assert extents[0..] == extents;
      while i < |extents|
        invariant 0 <= i <= |extents| == |s|
        invariant written + SplitAll(extents[i..]) == SplitAll(s)
        invariant forall k :: 0 <= k < i ==> extents[k] == Residue(s[k])
        invariant forall k :: i <= k < |s| ==> Residue(extents[k]) == Residue(s[k])
        decreases TotalLen(extents[i..]), |extents| - i
      {
        var ex := extents[i];
        ghost var x := extents;
        ResidueStep(ex);
        if ex.len == 0 {
          WriteLast(x, i, written);
          i := i + 1;
          continue;
        }
        var extent := ex;
        if extent.len > MaxLen(extent) {
          WriteStep(x, i, written);
          extent := extent.(len := MaxLen(extent));
          extents := extents[i := Advance(ex)];
          i := i - 1;
        } else {
          WriteLast(x, i, written);
        }
        written := written + [extent];
        i := i + 1;
      }
      assert extents[i..] == [];
      WalkEnd(extents);
    }
  }
}
