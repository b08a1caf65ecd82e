/**
 How a written transaction lies in the log, and that both walks over it (the head
 scan and the replay walk) see exactly what was written.
 */
module JournalLayout {
  import opened JournalFormat

  // ------------------------------------------------------ one descriptor block

  datatype TagSpec = TagSpec(nr: nat, flags: nat)

  /** Offset of tag `k`: the first tag is followed by the UUID. */
  function Off(j: Journal, k: nat): nat {
    if k == 0 then HEADER_BYTES else HEADER_BYTES + UUID_BYTES + k * j.TagBytes()
  }

  ghost predicate TagAt(j: Journal, b: Block, off: nat, t: TagSpec)
    requires j.Valid() && |b| == j.blocksize
  {
    off + j.TagBytes() <= j.Size() && TagFlags(b, off) == t.flags && TagBlock(j, b, off) == t.nr
  }

  ghost predicate TagsAt(j: Journal, b: Block, ts: seq<TagSpec>)
    requires j.Valid() && |b| == j.blocksize
  {
    forall i :: 0 <= i < |ts| ==> TagAt(j, b, Off(j, i), ts[i])
  }

  /** Flags as the writer sets them: a UUID after the first tag only, the last tag marked iff `closed`. */
  ghost predicate ProperFlags(ts: seq<TagSpec>, closed: bool) {
    forall i :: 0 <= i < |ts| ==>
      && (HasFlag(ts[i].flags, FLAG_SAME_UUID) <==> i > 0)
      && (HasFlag(ts[i].flags, FLAG_LAST_TAG) <==> closed && i == |ts| - 1)
  }

  predicate Full(j: Journal, k: nat)
    requires j.Valid()
  {
    Off(j, k) + j.TagBytes() > j.Size()
  }

  /** A finished descriptor: marked with LAST_TAG, or overflowing without it. */
  ghost predicate Complete(j: Journal, b: Block, ts: seq<TagSpec>, closed: bool)
    requires j.Valid() && |b| == j.blocksize
  {
    ts != [] && TagsAt(j, b, ts) && ProperFlags(ts, closed) && (closed || Full(j, |ts|))
  }

  lemma OffStep(j: Journal, k: nat)
    ensures Off(j, k + 1) == Off(j, k) + j.TagBytes() + if k == 0 then UUID_BYTES else 0
  {
    assert (k + 1) * j.TagBytes() == k * j.TagBytes() + j.TagBytes();
  }

  lemma NextTagOff(j: Journal, b: Block, ts: seq<TagSpec>, closed: bool, i: nat)
    requires j.Valid() && |b| == j.blocksize && Complete(j, b, ts, closed) && i < |ts|
    ensures Off(j, i) + j.TagBytes() <= j.Size()
    ensures NextTag(j, b, Off(j, i)) == Off(j, i + 1)
    ensures HasFlag(TagFlags(b, Off(j, i)), FLAG_LAST_TAG) <==> closed && i == |ts| - 1
  {
    hide Off, HasFlag;
    assert TagAt(j, b, Off(j, i), ts[i]);
    OffStep(j, i);
  }

  /** `count_tags` finds exactly the tags that were written, with or without a LAST_TAG flag. */
  lemma {:induction false} CountExact(j: Journal, b: Block, ts: seq<TagSpec>, closed: bool, i: nat)
    requires j.Valid() && |b| == j.blocksize && Complete(j, b, ts, closed)
    requires i < |ts| || (i == |ts| && !closed)
    ensures CountFrom(j, b, Off(j, i)) == |ts| - i
    decreases |ts| - i
  {
    hide Off, HasFlag, TagFlags;
    if i < |ts| {
      NextTagOff(j, b, ts, closed, i);
      if !(closed && i == |ts| - 1) {
        CountExact(j, b, ts, closed, i + 1);
      }
    }
  }

  ghost function Pairs(ts: seq<TagSpec>, log: seq<Block>, pos: nat): seq<(nat, Block)>
    requires pos + |ts| <= |log| && forall i :: 0 <= i < |log| ==> |log[i]| >= 4
  {
    seq(|ts|, i requires 0 <= i < |ts| => (ts[i].nr, Unescape(log[pos + i], ts[i].flags)))
  }

  /** The replay walk over a descriptor restores one block per written tag. */
  lemma {:induction false} RestoreExact(
    j: Journal, b: Block, ts: seq<TagSpec>, closed: bool, log: seq<Block>, pos: nat, i: nat)
    requires j.Valid() && |b| == j.blocksize && Complete(j, b, ts, closed) && j.Sized(log)
    requires pos + |ts| <= |log| && pos + |ts| <= j.last && i < |ts|
    ensures RestoreFrom(j, b, Off(j, i), log, pos + i) == Pairs(ts, log, pos)[i..]
    decreases |ts| - i
  {
    hide Off, HasFlag, TagFlags, TagBlock, Unescape, RestoreFrom, NextTag, Complete, Pairs;
    NextTagOff(j, b, ts, closed, i);
    TagReads(j, b, ts, closed, i);
    RestoreStep(j, b, Off(j, i), log, pos + i);
    PairsStep(ts, log, pos, i);
    if i < |ts| - 1 {
      RestoreExact(j, b, ts, closed, log, pos, i + 1);
    } else if !closed {
      RestoreNone(j, b, Off(j, i + 1), log, j.Wrap(pos + i + 1));
    }
  }

  lemma TagReads(j: Journal, b: Block, ts: seq<TagSpec>, closed: bool, i: nat)
    requires j.Valid() && |b| == j.blocksize && Complete(j, b, ts, closed) && i < |ts|
    ensures TagAt(j, b, Off(j, i), ts[i])
    ensures i == |ts| - 1 && !closed ==> Off(j, i + 1) + j.TagBytes() > j.Size()
  {
    hide Off, HasFlag, TagFlags, TagBlock;
  }

  lemma PairsStep(ts: seq<TagSpec>, log: seq<Block>, pos: nat, i: nat)
    requires pos + |ts| <= |log| && (forall k :: 0 <= k < |log| ==> |log[k]| >= 4) && i < |ts|
    ensures |Pairs(ts, log, pos)| == |ts|
    ensures Pairs(ts, log, pos)[i..] == [(ts[i].nr, Unescape(log[pos + i], ts[i].flags))] + Pairs(ts, log, pos)[i + 1..]
    ensures i == |ts| - 1 ==> Pairs(ts, log, pos)[i + 1..] == []
  {
    hide Unescape;
  }

  lemma RestoreStep(j: Journal, b: Block, off: nat, log: seq<Block>, pos: nat)
    requires j.Valid() && |b| == j.blocksize && j.Sized(log) && off + j.TagBytes() <= j.Size() && pos < |log|
    ensures RestoreFrom(j, b, off, log, pos) == [(TagBlock(j, b, off), Unescape(log[pos], TagFlags(b, off)))] +
      if HasFlag(TagFlags(b, off), FLAG_LAST_TAG) then [] else RestoreFrom(j, b, NextTag(j, b, off), log, j.Wrap(pos + 1))
  {
  }

  lemma RestoreNone(j: Journal, b: Block, off: nat, log: seq<Block>, pos: nat)
    requires j.Valid() && |b| == j.blocksize && j.Sized(log) && off + j.TagBytes() > j.Size()
    ensures RestoreFrom(j, b, off, log, pos) == []
  {
  }

  // ---------------------------------------------------- a stretch of the log

  /** Blocks `pos` up to `end` are whole descriptors with their data, and revoke blocks, of transaction `tid`. */
  ghost predicate Chunked(j: Journal, log: seq<Block>, tid: nat, pos: nat, end: nat)
    requires j.Valid() && j.Sized(log)
    decreases end - pos
  {
    pos <= end <= |log| &&
    (pos == end ||
     (HasHeader(log[pos], DESCRIPTOR_BLOCK, tid) && CountTags(j, log[pos]) < end - pos &&
      Chunked(j, log, tid, pos + 1 + CountTags(j, log[pos]), end)) ||
     (HasHeader(log[pos], REVOKE_BLOCK, tid) && Chunked(j, log, tid, pos + 1, end)))
  }

  /** Everything replay restores from that stretch. */
  ghost function Restored(j: Journal, log: seq<Block>, pos: nat, end: nat): seq<(nat, Block)>
    requires j.Valid() && j.Sized(log)
    decreases end - pos
  {
    if pos >= end || end > |log| then []
    else if Get32(log[pos], 4) == DESCRIPTOR_BLOCK then
      RestoreFrom(j, log[pos], HEADER_BYTES, log, j.Wrap(pos + 1))
      + Restored(j, log, pos + 1 + CountTags(j, log[pos]), end)
    else Restored(j, log, pos + 1, end)
  }

  /** Everything the revoke pass collects from it. */
  ghost function Revoked(j: Journal, log: seq<Block>, pos: nat, end: nat): seq<nat>
    requires j.Valid() && j.Sized(log)
    decreases end - pos
  {
    if pos >= end || end > |log| then []
    else if Get32(log[pos], 4) == DESCRIPTOR_BLOCK then Revoked(j, log, pos + 1 + CountTags(j, log[pos]), end)
    else RevokesIn(j, log[pos]) + Revoked(j, log, pos + 1, end)
  }

  /** Scanning such a stretch walks to its end without moving the head or the sequence. */
  lemma {:induction false} ScanChunks(j: Journal, log: seq<Block>, tid: nat, pos: nat, end: nat, head: nat, fuel: nat)
    returns (left: nat)
    requires j.Valid() && j.Sized(log) && Chunked(j, log, tid, pos, end) && end < j.last && fuel >= end - pos
    ensures fuel - (end - pos) <= left <= fuel
    ensures FindHead(j, log, pos, tid, head, fuel) == FindHead(j, log, end, tid, head, left)
    decreases end - pos
  {
    hide CountTags, Get32;
    if pos == end {
      left := fuel;
    } else if HasHeader(log[pos], DESCRIPTOR_BLOCK, tid) && CountTags(j, log[pos]) < end - pos &&
      Chunked(j, log, tid, pos + 1 + CountTags(j, log[pos]), end) {
      left := ScanChunks(j, log, tid, pos + 1 + CountTags(j, log[pos]), end, head, fuel - 1);
    } else {
      left := ScanChunks(j, log, tid, pos + 1, end, head, fuel - 1);
    }
  }

  /** Only the blocks of the stretch matter. */
  ghost predicate SameOn(log: seq<Block>, log': seq<Block>, pos: nat, end: nat) {
    end <= |log| && |log'| == |log| && forall i :: pos <= i < end ==> log[i] == log'[i]
  }

  lemma {:induction false} RestoreFrame(j: Journal, b: Block, off: nat, log: seq<Block>, log': seq<Block>, pos: nat, end: nat)
    requires j.Valid() && |b| == j.blocksize && j.Sized(log) && j.Sized(log') && SameOn(log, log', pos, end)
    requires pos + CountFrom(j, b, off) <= end <= j.last
    ensures RestoreFrom(j, b, off, log, pos) == RestoreFrom(j, b, off, log', pos)
    decreases |b| - off
  {
    hide HasFlag, TagFlags, TagBlock, Unescape;
    if off + j.TagBytes() <= j.Size() && !HasFlag(TagFlags(b, off), FLAG_LAST_TAG) {
      assert pos < end;
      if pos + 1 < j.last {
        RestoreFrame(j, b, NextTag(j, b, off), log, log', pos + 1, end);
      } else {
        assert CountFrom(j, b, NextTag(j, b, off)) == 0;
      }
    }
  }

  lemma {:induction false} ChunksFrame(j: Journal, log: seq<Block>, log': seq<Block>, tid: nat, pos: nat, end: nat)
    requires j.Valid() && j.Sized(log) && j.Sized(log') && SameOn(log, log', pos, end) && end <= j.last
    requires Chunked(j, log, tid, pos, end)
    ensures Chunked(j, log', tid, pos, end)
    ensures Restored(j, log', pos, end) == Restored(j, log, pos, end)
    ensures Revoked(j, log', pos, end) == Revoked(j, log, pos, end)
    decreases end - pos
  {
    hide Get32, CountFrom, RestoreFrom, RevokesIn;
    if pos < end {
      if HasHeader(log[pos], DESCRIPTOR_BLOCK, tid) {
        var next := pos + 1 + CountTags(j, log[pos]);
        ChunksFrame(j, log, log', tid, next, end);
        SomeTag(j, log[pos]);
        RestoreFrame(j, log[pos], HEADER_BYTES, log, log', pos + 1, end);
      } else {
        ChunksFrame(j, log, log', tid, pos + 1, end);
      }
    }
  }

  /** Whatever a descriptor holds, at least one tag is counted. */
  lemma SomeTag(j: Journal, b: Block)
    requires j.Valid() && |b| == j.blocksize
    ensures CountTags(j, b) > 0
  {
  }

  /** Adjoining stretches join. */
  lemma {:induction false} ChunksJoin(j: Journal, log: seq<Block>, tid: nat, pos: nat, mid: nat, end: nat)
    requires j.Valid() && j.Sized(log) && Chunked(j, log, tid, pos, mid) && Chunked(j, log, tid, mid, end)
    ensures Chunked(j, log, tid, pos, end)
    ensures Restored(j, log, pos, end) == Restored(j, log, pos, mid) + Restored(j, log, mid, end)
    ensures Revoked(j, log, pos, end) == Revoked(j, log, pos, mid) + Revoked(j, log, mid, end)
    decreases mid - pos
  {
    hide Get32, CountTags, RestoreFrom, RevokesIn;
    if pos == mid {
      assert [] + Restored(j, log, mid, end) == Restored(j, log, mid, end);
      assert [] + Revoked(j, log, mid, end) == Revoked(j, log, mid, end);
    } else if HasHeader(log[pos], DESCRIPTOR_BLOCK, tid) {
      ChunksJoin(j, log, tid, pos + 1 + CountTags(j, log[pos]), mid, end);
    } else {
      ChunksJoin(j, log, tid, pos + 1, mid, end);
    }
  }
}
