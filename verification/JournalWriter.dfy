/**
 Writing a transaction (debugfs/do_journal.c): data behind descriptor blocks,
 revoke blocks, a commit block, all through reused buffers.
 */
module JournalWriter {
  import opened JournalFormat
  import opened JournalLayout

  // ------------------------------------------------------------ writing a tag

  /** The two versions agree outside `[lo, hi)`. */
  ghost predicate SameOutside(b: Block, c: Block, lo: nat, hi: nat) {
    |c| == |b| && forall i :: 0 <= i < |b| && !(lo <= i < hi) ==> c[i] == b[i]
  }

  /** Block number and flags of the tag at `p`. */
  function WithNumber(b: Block, p: nat, t: TagSpec): (r: Block)
    requires p + 8 <= |b| && t.flags < 256
    ensures |r| == |b| && SameOutside(b, r, p, p + 8)
    ensures r[p + 7] == t.flags && r[p..p + 4] == Bytes32(t.nr % 0x1_0000_0000)
  {
    Patch(Put32(b, p, t.nr % 0x1_0000_0000), p + 6, [0, t.flags])
  }

  /** The UUID goes where pointer arithmetic in whole tags puts it, and only for the first tag. */
  function WithUuid(j: Journal, b: Block, p: nat): (r: Block)
    requires j.Valid() && |b| == j.blocksize
    ensures |r| == |b|
    ensures forall i :: 0 <= i < |b| && (p == HEADER_BYTES ==> i < p + 12 * j.TagBytes()) ==> r[i] == b[i]
  {
    if p == HEADER_BYTES then Patch(b, p + 12 * j.TagBytes(), j.uuid) else b
  }

  function WithHigh(j: Journal, b: Block, p: nat, t: TagSpec): (r: Block)
    requires p + 12 <= |b|
    ensures |r| == |b| && SameOutside(b, r, p + 8, p + 12)
    ensures j.is64 ==> r[p + 8..p + 12] == Bytes32(t.nr / 0x1_0000_0000)
  {
    if j.is64 then Put32(b, p + 8, t.nr / 0x1_0000_0000) else b
  }

  /** The tag checksum; its value does not matter here. */
  function WithSum(j: Journal, b: Block, p: nat, sum: nat): (r: Block)
    requires p + j.TagBytes() <= |b|
    ensures |r| == |b|
    ensures SameOutside(b, r, if j.csum3 then p + 12 else p + 4, if j.csum3 then p + 16 else p + 6)
  {
    if j.csum3 then Put32(b, p + 12, sum)
    else if j.csum2 then Patch(b, p + 4, [(sum / 256) % 256, sum % 256])
    else b
  }

  /** Store one tag at offset `p`. */
  function WithTag(j: Journal, b: Block, p: nat, t: TagSpec, sum: nat): (r: Block)
    requires j.Valid() && |b| == j.blocksize && HEADER_BYTES <= p && p + j.TagBytes() <= j.Size() && t.flags < 256
    ensures |r| == |b|
  {
    var b1 := WithUuid(j, WithNumber(b, p, t), p);
    var b2 := if j.is64 then WithHigh(j, b1, p, t) else b1;
    WithSum(j, b2, p, sum)
  }

  /** Outside the tag, and outside the UUID for the first one, nothing changes. */
  predicate Outside(j: Journal, p: nat, i: nat) {
    (i < p || i >= p + j.TagBytes()) && (p == HEADER_BYTES ==> i < p + j.TagBytes())
  }

  lemma TagWritten(j: Journal, b: Block, p: nat, t: TagSpec, sum: nat)
    requires j.Valid() && |b| == j.blocksize && HEADER_BYTES <= p && p + j.TagBytes() <= j.Size() && t.flags < 256
    requires t.nr < if j.is64 then 0x1_0000_0000_0000_0000 else 0x1_0000_0000
    ensures TagAt(j, WithTag(j, b, p, t, sum), p, t)
    ensures forall i :: 0 <= i < |b| && Outside(j, p, i) ==> WithTag(j, b, p, t, sum)[i] == b[i]
  {
    hide Get32, Bytes32, WithNumber, WithUuid, WithHigh, WithSum;
    var lo, hi := t.nr % 0x1_0000_0000, t.nr / 0x1_0000_0000;
    var b0 := WithNumber(b, p, t);
    var r := WithTag(j, b, p, t, sum);
    forall i | p <= i < p + 4 ensures r[i] == b0[i] {
    }
    SliceSame(r, b0, p, p + 4);
    FieldRead(r, p, lo);
    if j.is64 {
      var b2 := WithHigh(j, WithUuid(j, b0, p), p, t);
      forall i | p + 8 <= i < p + 12 ensures r[i] == b2[i] {
      }
      SliceSame(r, b2, p + 8, p + 12);
      FieldRead(r, p + 8, hi);
    }
    assert r[p + 7] == b0[p + 7];
  }

  lemma SliceSame(r: Block, c: Block, lo: nat, hi: nat)
    requires lo <= hi <= |r| == |c| && forall i :: lo <= i < hi ==> r[i] == c[i]
    ensures r[lo..hi] == c[lo..hi]
  {
  }

  lemma FieldRead(r: Block, o: nat, v: nat)
    requires o + 4 <= |r| && v < 0x1_0000_0000 && r[o..o + 4] == Bytes32(v)
    ensures Get32(r, o) == v
  {
    hide Get32, Bytes32;
    Bytes32Length(v);
    assert Bytes32(v)[0..4] == Bytes32(v);
    Get32Same(r, o, Bytes32(v), 0);
    Bytes32Value(v);
  }

  lemma TagAtSame(j: Journal, b: Block, c: Block, off: nat, t: TagSpec)
    requires j.Valid() && |b| == j.blocksize == |c| && TagAt(j, b, off, t)
    requires forall i :: off <= i < off + j.TagBytes() ==> c[i] == b[i]
    ensures TagAt(j, c, off, t)
  {
    hide Get32;
    assert c[off..off + 4] == b[off..off + 4];
    Get32Same(c, off, b, off);
    if j.is64 {
      assert c[off + 8..off + 12] == b[off + 8..off + 12];
      Get32Same(c, off + 8, b, off + 8);
    }
  }

  lemma OffMono(j: Journal, i: nat, k: nat)
    requires i < k
    ensures Off(j, i) + j.TagBytes() <= Off(j, k)
    ensures Off(j, k) > HEADER_BYTES
  {
    assert k * j.TagBytes() >= (i + 1) * j.TagBytes() == i * j.TagBytes() + j.TagBytes();
  }

  lemma OffFloor(j: Journal, k: nat)
    ensures Off(j, k) >= HEADER_BYTES && (Off(j, k) == HEADER_BYTES <==> k == 0)
  {
    if k > 0 {
      OffMono(j, 0, k);
    }
  }

  /** Adding a tag keeps the tags before it and the header. */
  lemma AddTag(j: Journal, b: Block, ts: seq<TagSpec>, t: TagSpec, sum: nat, tid: nat)
    requires j.Valid() && |b| == j.blocksize && TagsAt(j, b, ts) && HasHeader(b, DESCRIPTOR_BLOCK, tid)
    requires !Full(j, |ts|) && t.flags < 256
    requires t.nr < if j.is64 then 0x1_0000_0000_0000_0000 else 0x1_0000_0000
    ensures Off(j, |ts|) >= HEADER_BYTES
    ensures var c := WithTag(j, b, Off(j, |ts|), t, sum);
      TagsAt(j, c, ts + [t]) && HasHeader(c, DESCRIPTOR_BLOCK, tid)
  {
    hide Off, WithTag, Get32, TagAt;
    var p := Off(j, |ts|);
    OffFloor(j, |ts|);
    TagWritten(j, b, p, t, sum);
    var c := WithTag(j, b, p, t, sum);
    forall i | 0 <= i < |ts + [t]| ensures TagAt(j, c, Off(j, i), (ts + [t])[i]) {
      if i < |ts| {
        OffMono(j, i, |ts|);
        TagAtSame(j, b, c, Off(j, i), ts[i]);
      }
    }
    assert c[..HEADER_BYTES] == b[..HEADER_BYTES];
    HeaderSame(b, c, DESCRIPTOR_BLOCK, tid);
  }

  /** The checksum tail of a descriptor or revoke block. */
  function WithTail(j: Journal, b: Block, sum: nat): (r: Block)
    requires j.Valid() && |b| == j.blocksize
    ensures |r| == |b| && r[..j.Size()] == b[..j.Size()]
  {
    if j.csum2 || j.csum3 then Put32(b, j.blocksize - 4, sum) else b
  }

  lemma TailKeeps(j: Journal, b: Block, ts: seq<TagSpec>, sum: nat, tid: nat)
    requires j.Valid() && |b| == j.blocksize && TagsAt(j, b, ts) && HasHeader(b, DESCRIPTOR_BLOCK, tid)
    ensures TagsAt(j, WithTail(j, b, sum), ts) && HasHeader(WithTail(j, b, sum), DESCRIPTOR_BLOCK, tid)
  {
    hide WithTail, Off, Get32;
    var c := WithTail(j, b, sum);
    forall i | 0 <= i < |ts| ensures TagAt(j, c, Off(j, i), ts[i]) {
      assert TagAt(j, b, Off(j, i), ts[i]);
      SamePrefix(j, b, c);
      TagAtSame(j, b, c, Off(j, i), ts[i]);
    }
    assert c[..HEADER_BYTES] == c[..j.Size()][..HEADER_BYTES] == b[..HEADER_BYTES];
    HeaderSame(b, c, DESCRIPTOR_BLOCK, tid);
  }

  lemma SamePrefix(j: Journal, b: Block, c: Block)
    requires j.Valid() && |b| == |c| == j.blocksize && c[..j.Size()] == b[..j.Size()]
    ensures forall i :: 0 <= i < j.Size() ==> c[i] == b[i]
  {
    forall i | 0 <= i < j.Size() ensures c[i] == b[i] {
      assert c[..j.Size()][i] == b[..j.Size()][i];
    }
  }

  // ---------------------------------------------------------------- escaping

  function Escaped(d: Block): (r: Block)
    requires |d| >= 4
    ensures |r| == |d|
  {
    if Get32(d, 0) == MAGIC then Put32(d, 0, 0) else d
  }

  lemma Get32Digits(d: Block)
    requires |d| >= 4
    ensures Bytes32(Get32(d, 0)) == d[0..4]
  {
    var a, b, c, e: int := d[0], d[1], d[2], d[3];
    var v := Get32(d, 0);
    assert v == a * 0x100_0000 + b * 0x1_0000 + c * 0x100 + e;
    assert v / 0x100 == a * 0x1_0000 + b * 0x100 + c;
    assert v / 0x1_0000 == a * 0x100 + b;
    assert v / 0x100_0000 == a;
    assert d[0..4] == [d[0], d[1], d[2], d[3]];
  }

  lemma EscapeRoundTrip(d: Block, flags: nat)
    requires |d| >= 4 && (HasFlag(flags, FLAG_ESCAPE) <==> Get32(d, 0) == MAGIC)
    ensures Unescape(Escaped(d), flags) == d
  {
    if Get32(d, 0) == MAGIC {
      hide Get32, Bytes32;
      Get32Digits(d);
      Bytes32Length(0);
      Bytes32Length(MAGIC);
      var r := Unescape(Escaped(d), flags);
      forall i | 0 <= i < |d| ensures r[i] == d[i] {
        if i < 4 {
          assert d[0..4][i] == d[i];
        }
      }
      assert r == d;
    }
  }

  function Flags(first: bool, last: bool, escape: bool): nat {
    (if first then 0 else FLAG_SAME_UUID) + (if last then FLAG_LAST_TAG else 0) + (if escape then FLAG_ESCAPE else 0)
  }

  lemma FlagBits(first: bool, last: bool, escape: bool)
    ensures Flags(first, last, escape) < 256
    ensures HasFlag(Flags(first, last, escape), FLAG_SAME_UUID) <==> !first
    ensures HasFlag(Flags(first, last, escape), FLAG_LAST_TAG) <==> last
    ensures HasFlag(Flags(first, last, escape), FLAG_ESCAPE) <==> escape
  {
  }

  // ------------------------------------------- a descriptor being filled

  function Zip(list: seq<nat>, data: seq<Block>): seq<(nat, Block)>
    requires |list| <= |data|
  {
    seq(|list|, i requires 0 <= i < |list| => (list[i], data[i]))
  }

  /** The data behind the pending descriptor at `jdb`, whose tags so far are `ts`. */
  ghost predicate DataBehind(j: Journal, log: seq<Block>, jdb: nat, ts: seq<TagSpec>, some: seq<(nat, Block)>)
    requires j.Valid() && j.Sized(log)
  {
    && |some| == |ts| && jdb + 1 + |ts| <= |log|
    && forall m :: 0 <= m < |ts| ==>
         ts[m].nr == some[m].0 && Unescape(log[jdb + 1 + m], ts[m].flags) == some[m].1
  }

  /** Writing out a finished descriptor turns the pending data into a chunk. */
  lemma DescriptorChunk(j: Journal, log: seq<Block>, tid: nat, jdb: nat, b: Block,
                        ts: seq<TagSpec>, closed: bool, some: seq<(nat, Block)>)
    requires j.Valid() && j.Sized(log) && |b| == j.blocksize && jdb + 1 + |ts| <= j.last
    requires Complete(j, b, ts, closed) && HasHeader(b, DESCRIPTOR_BLOCK, tid)
    requires DataBehind(j, log, jdb, ts, some) && log[jdb] == b
    ensures Chunked(j, log, tid, jdb, jdb + 1 + |ts|)
    ensures Restored(j, log, jdb, jdb + 1 + |ts|) == some && Revoked(j, log, jdb, jdb + 1 + |ts|) == []
  {
    hide Get32, Unescape, RestoreFrom, CountFrom, TagsAt, ProperFlags;
    CountExact(j, b, ts, closed, 0);
    assert j.Wrap(jdb + 1) == jdb + 1;
    RestoreExact(j, b, ts, closed, log, jdb + 1, 0);
    assert Pairs(ts, log, jdb + 1)[0..] == some;
  }
}
