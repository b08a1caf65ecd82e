/**
 The on-disk journal as debugfs writes and scans it: block headers, descriptor
 tags and revoke records at byte level, and the walks over them.
 */
module JournalFormat {

  type Byte = x: int | 0 <= x < 256

  type Block = seq<Byte>

  const MAGIC: nat := 0xC03B3998
  const DESCRIPTOR_BLOCK: nat := 1
  const COMMIT_BLOCK: nat := 2
  const REVOKE_BLOCK: nat := 5

  const FLAG_ESCAPE: nat := 1
  const FLAG_SAME_UUID: nat := 2
  const FLAG_LAST_TAG: nat := 8

  const HEADER_BYTES: nat := 12
  const REVOKE_HEADER_BYTES: nat := 16
  const UUID_BYTES: nat := 16

  /** The journal's geometry and features. */
  datatype Journal = Journal(blocksize: nat, csum2: bool, csum3: bool, is64: bool,
                             first: nat, last: nat, fsBlocks: nat, uuid: Block)
  {
    predicate Valid() {
      && blocksize >= 1024 && first < last && |uuid| == UUID_BYTES
      && fsBlocks <= (if is64 then 0x1_0000_0000_0000_0000 else 0x1_0000_0000)
    }

    /** `journal_tag_bytes`. */
    function TagBytes(): nat {
      if csum3 then 16
      else 12 + (if csum2 then 2 else 0) - (if is64 then 0 else 4)
    }

    /** Bytes usable before the checksum tail. */
    function Size(): nat
      requires Valid()
    {
      if csum2 || csum3 then blocksize - 4 else blocksize
    }

    function RevokeBytes(): nat {
      if is64 then 8 else 4
    }

    /** The `wrap` macro. */
    function Wrap(pos: nat): nat
      requires Valid()
    {
      if pos >= last then pos - (last - first) else pos
    }

    ghost predicate Sized(log: seq<Block>) {
      forall i :: 0 <= i < |log| ==> |log[i]| == blocksize
    }
  }

  // ------------------------------------------------------------ byte fields

  function Get32(b: Block, o: nat): nat
    requires o + 4 <= |b|
  {
    (b[o] as int) * 0x100_0000 + (b[o + 1] as int) * 0x1_0000 + (b[o + 2] as int) * 0x100 + (b[o + 3] as int)
  }

  function Bytes32(v: nat): Block {
    [(v / 0x100_0000) % 256, (v / 0x1_0000) % 256, (v / 0x100) % 256, v % 256]
  }

  /** Overwrite the bytes of `b` from `o` on with `x`. */
  function Patch(b: Block, o: nat, x: Block): (r: Block)
    requires o + |x| <= |b|
    ensures |r| == |b|
    ensures forall i :: 0 <= i < |b| ==> r[i] == if o <= i < o + |x| then x[i - o] else b[i]
  {
    b[..o] + x + b[o + |x|..]
  }

  function Put32(b: Block, o: nat, v: nat): Block
    requires o + 4 <= |b|
  {
    Patch(b, o, Bytes32(v))
  }

  lemma Bytes32Value(v: nat)
    requires v < 0x1_0000_0000
    ensures Get32(Bytes32(v), 0) == v
  {
    var a, b, c := v / 0x100, v / 0x1_0000, v / 0x100_0000;
    assert b == a / 0x100 && c == b / 0x100;
  }

  /** Equal bytes read equal. */
  lemma Get32Same(b: Block, o: nat, c: Block, p: nat)
    requires o + 4 <= |b| && p + 4 <= |c| && b[o..o + 4] == c[p..p + 4]
    ensures Get32(b, o) == Get32(c, p)
  {
    assert b[o..o + 4][0] == c[p..p + 4][0] && b[o..o + 4][1] == c[p..p + 4][1];
    assert b[o..o + 4][2] == c[p..p + 4][2] && b[o..o + 4][3] == c[p..p + 4][3];
  }

  lemma PutGet32(b: Block, o: nat, v: nat)
    requires o + 4 <= |b| && v < 0x1_0000_0000
    ensures Get32(Put32(b, o, v), o) == v
  {
    var c := Put32(b, o, v);
    assert c[o..o + 4] == Bytes32(v)[0..4];
    Get32Same(c, o, Bytes32(v), 0);
    Bytes32Value(v);
  }

  // ---------------------------------------------------------------- headers

  predicate HasHeader(b: Block, blocktype: nat, seqno: nat) {
    |b| >= HEADER_BYTES && Get32(b, 0) == MAGIC && Get32(b, 4) == blocktype && Get32(b, 8) == seqno
  }

  function WithHeader(b: Block, blocktype: nat, seqno: nat): Block
    requires |b| >= HEADER_BYTES
  {
    Put32(Put32(Put32(b, 0, MAGIC), 4, blocktype), 8, seqno)
  }

  lemma HeaderWritten(b: Block, blocktype: nat, seqno: nat)
    requires |b| >= HEADER_BYTES && blocktype < 0x1_0000_0000 && seqno < 0x1_0000_0000
    ensures HasHeader(WithHeader(b, blocktype, seqno), blocktype, seqno)
    ensures |WithHeader(b, blocktype, seqno)| == |b|
  {
    hide Get32, Bytes32;
    var b1 := Put32(b, 0, MAGIC);
    var b2 := Put32(b1, 4, blocktype);
    var b3 := Put32(b2, 8, seqno);
    PutGet32(b, 0, MAGIC);
    PutGet32(b1, 4, blocktype);
    PutGet32(b2, 8, seqno);
    Bytes32Length(MAGIC);
    Bytes32Length(blocktype);
    Bytes32Length(seqno);
    assert b3[0..4] == b1[0..4];
    assert b3[4..8] == b2[4..8];
    Get32Same(b3, 0, b1, 0);
    Get32Same(b3, 4, b2, 4);
  }

  lemma Bytes32Length(v: nat)
    ensures |Bytes32(v)| == 4
  {
  }

  lemma HeaderSame(b: Block, c: Block, blocktype: nat, seqno: nat)
    requires HasHeader(b, blocktype, seqno) && |c| >= HEADER_BYTES && c[..HEADER_BYTES] == b[..HEADER_BYTES]
    ensures HasHeader(c, blocktype, seqno)
  {
    hide Get32;
    assert c[0..4] == c[..12][0..4] && b[0..4] == b[..12][0..4];
    assert c[4..8] == c[..12][4..8] && b[4..8] == b[..12][4..8];
    assert c[8..12] == c[..12][8..12] && b[8..12] == b[..12][8..12];
    Get32Same(c, 0, b, 0);
    Get32Same(c, 4, b, 4);
    Get32Same(c, 8, b, 8);
  }

  // ------------------------------------------------------------------- tags

  predicate HasFlag(flags: nat, flag: nat)
    requires flag > 0
  {
    (flags / flag) % 2 == 1
  }

  /** Low byte of the big-endian flags word, where all flags live. */
  function TagFlags(b: Block, off: nat): nat
    requires off + 8 <= |b|
  {
    b[off + 7]
  }

  /** Where the tag after the one at `off` starts. */
  function NextTag(j: Journal, b: Block, off: nat): nat
    requires off + 8 <= |b|
  {
    off + j.TagBytes() + if HasFlag(TagFlags(b, off), FLAG_SAME_UUID) then 0 else UUID_BYTES
  }

  /** `count_tags`, from a given tag on. */
  function CountFrom(j: Journal, b: Block, off: nat): nat
    requires j.Valid() && |b| == j.blocksize
    decreases |b| - off
  {
    if off + j.TagBytes() > j.Size() then 0
    else 1 + if HasFlag(TagFlags(b, off), FLAG_LAST_TAG) then 0 else CountFrom(j, b, NextTag(j, b, off))
  }

  function CountTags(j: Journal, b: Block): nat
    requires j.Valid() && |b| == j.blocksize
  {
    CountFrom(j, b, HEADER_BYTES)
  }

  /** `read_tag_block`. */
  function TagBlock(j: Journal, b: Block, off: nat): nat
    requires j.Valid() && |b| == j.blocksize && off + j.TagBytes() <= |b|
  {
    Get32(b, off) + if j.is64 then Get32(b, off + 8) * 0x1_0000_0000 else 0
  }

  function Unescape(d: Block, flags: nat): Block
    requires |d| >= 4
  {
    if HasFlag(flags, FLAG_ESCAPE) then Put32(d, 0, MAGIC) else d
  }

  /** What replay copies back for a descriptor, from a given tag and log position on. */
  function RestoreFrom(j: Journal, b: Block, off: nat, log: seq<Block>, pos: nat): seq<(nat, Block)>
    requires j.Valid() && |b| == j.blocksize && j.Sized(log)
    decreases |b| - off
  {
    if off + j.TagBytes() > j.Size() || pos >= |log| then []
    else
      var flags := TagFlags(b, off);
      [(TagBlock(j, b, off), Unescape(log[pos], flags))] +
      if HasFlag(flags, FLAG_LAST_TAG) then []
      else RestoreFrom(j, b, NextTag(j, b, off), log, j.Wrap(pos + 1))
  }

  /** The records of a revoke block, as `scan_revoke_records` reads them. */
  function RevokeRecords(j: Journal, b: Block, off: nat, max: nat): seq<nat>
    requires |b| == j.blocksize && max <= |b|
    decreases max - off
  {
    if off + j.RevokeBytes() > max then []
    else
      [if j.is64 then Get32(b, off) * 0x1_0000_0000 + Get32(b, off + 4) else Get32(b, off)]
      + RevokeRecords(j, b, off + j.RevokeBytes(), max)
  }

  function RevokesIn(j: Journal, b: Block): seq<nat>
    requires j.Valid() && |b| == j.blocksize
  {
    var max := Get32(b, HEADER_BYTES);
    if max > j.Size() then [] else RevokeRecords(j, b, REVOKE_HEADER_BYTES, max)
  }

  // -------------------------------------------------------------- the scan

  datatype Head = Found(head: nat, seqno: nat) | EmptyLog | ReadError | BadType | Unfinished

  /** `journal_find_head`: at most `fuel` blocks are looked at. */
  function FindHead(j: Journal, log: seq<Block>, pos: nat, seqno: nat, head: nat, fuel: nat): Head
    requires j.Valid() && j.Sized(log)
    decreases fuel
  {
    if fuel == 0 then Unfinished
    else if pos >= |log| then ReadError
    else
      var b, next := log[pos], j.Wrap(pos + 1);
      if Get32(b, 0) != MAGIC || Get32(b, 8) != seqno then Found(head, seqno)
      else if Get32(b, 4) == DESCRIPTOR_BLOCK then
        FindHead(j, log, j.Wrap(next + CountTags(j, b)), seqno, head, fuel - 1)
      else if Get32(b, 4) == COMMIT_BLOCK then
        FindHead(j, log, next, (seqno + 1) % 0x1_0000_0000, next, fuel - 1)
      else if Get32(b, 4) == REVOKE_BLOCK then
        FindHead(j, log, next, seqno, head, fuel - 1)
      else BadType
  }
}
