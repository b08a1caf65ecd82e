/**
 A journal transaction as debugfs builds it, and the theorem that the head scan
 and the replay walk recover exactly what was written.
 */
module JournalTransaction {
  import opened JournalFormat
  import opened JournalLayout
  import opened JournalWriter

  const OK: nat := 0
  const INVALID_ARGUMENT: nat := 22
  const BAD_BLOCK_NUM: nat := 33
  const IO_ERROR: nat := 5

  // ------------------------------------------------ the descriptor being filled

  /** After `i` of the blocks `all`: finished chunks up to `jdb`, and a pending descriptor `buf` with tags `ts`. */
  ghost predicate Filling(j: Journal, log: seq<Block>, tid: nat, from: nat, jdb: nat, buf: Block,
                          ts: seq<TagSpec>, closed: bool, all: seq<(nat, Block)>, i: nat)
    requires j.Valid() && j.Sized(log)
  {
    && |ts| <= i <= |all| && |buf| == j.blocksize && HasHeader(buf, DESCRIPTOR_BLOCK, tid)
    && TagsAt(j, buf, ts) && ProperFlags(ts, closed)
    && DataBehind(j, log, jdb, ts, all[i - |ts|..i])
    && Chunked(j, log, tid, from, jdb)
    && Restored(j, log, from, jdb) == all[..i - |ts|] && Revoked(j, log, from, jdb) == []
  }

  /** Writing the pending descriptor out. */
  lemma FlushFilled(j: Journal, log: seq<Block>, tid: nat, from: nat, jdb: nat, buf: Block,
                    ts: seq<TagSpec>, closed: bool, all: seq<(nat, Block)>, i: nat, sum: nat)
    requires j.Valid() && j.Sized(log) && Filling(j, log, tid, from, jdb, buf, ts, closed, all, i)
    requires ts != [] && (closed || Full(j, |ts|)) && jdb + 1 + |ts| <= j.last
    ensures var log' := log[jdb := WithTail(j, buf, sum)];
      && Chunked(j, log', tid, from, jdb + 1 + |ts|)
      && Restored(j, log', from, jdb + 1 + |ts|) == all[..i] && Revoked(j, log', from, jdb + 1 + |ts|) == []
  {
    hide Get32, Unescape, Chunked, Restored, Revoked, WithTail, TagsAt, ProperFlags, HasHeader;
    var b := WithTail(j, buf, sum);
    var log' := log[jdb := b];
    TailKeeps(j, buf, ts, sum, tid);
    ChunksFrame(j, log, log', tid, from, jdb);
    DescriptorChunk(j, log', tid, jdb, b, ts, closed, all[i - |ts|..i]);
    ChunksJoin(j, log', tid, from, jdb, jdb + 1 + |ts|);
    assert all[..i - |ts|] + all[i - |ts|..i] == all[..i];
  }

  /** An empty descriptor buffer at the end of finished chunks. */
  lemma StartFilling(j: Journal, log: seq<Block>, tid: nat, from: nat, jdb: nat, buf: Block,
                     all: seq<(nat, Block)>, i: nat)
    requires j.Valid() && j.Sized(log) && i <= |all| && jdb + 1 <= |log|
    requires |buf| == j.blocksize && HasHeader(buf, DESCRIPTOR_BLOCK, tid)
    requires Chunked(j, log, tid, from, jdb)
    requires Restored(j, log, from, jdb) == all[..i] && Revoked(j, log, from, jdb) == []
    ensures Filling(j, log, tid, from, jdb, buf, [], false, all, i)
  {
  }

  /** Adding one block: its tag to the buffer, its escaped data to the log. */
  lemma FillOne(j: Journal, log: seq<Block>, tid: nat, from: nat, jdb: nat, buf: Block,
                ts: seq<TagSpec>, all: seq<(nat, Block)>, i: nat, sum: nat)
    requires j.Valid() && j.Sized(log) && Filling(j, log, tid, from, jdb, buf, ts, false, all, i)
    requires i < |all| && !Full(j, |ts|) && jdb + 1 + |ts| < |log| <= j.last
    requires all[i].0 < j.fsBlocks && |all[i].1| == j.blocksize
    ensures Off(j, |ts|) >= HEADER_BYTES
    ensures var d := all[i].1;
      var t := TagSpec(all[i].0, Flags(|ts| == 0, i + 1 == |all|, Get32(d, 0) == MAGIC));
      && t.flags < 256
      && Filling(j, log[jdb + 1 + |ts| := Escaped(d)], tid, from, jdb, WithTag(j, buf, Off(j, |ts|), t, sum),
                 ts + [t], i + 1 == |all|, all, i + 1)
  {
    hide Get32, Unescape, Chunked, Restored, Revoked, WithTag, TagsAt, HasHeader, Flags, HasFlag, Escaped, Off;
    var d, pos, k := all[i].1, jdb + 1 + |ts|, |ts|;
    var esc := Get32(d, 0) == MAGIC;
    var t := TagSpec(all[i].0, Flags(k == 0, i + 1 == |all|, esc));
    var log' := log[pos := Escaped(d)];
    FlagBits(k == 0, i + 1 == |all|, esc);
    AddTag(j, buf, ts, t, sum, tid);
    ChunksFrame(j, log, log', tid, from, jdb);
    EscapeRoundTrip(d, t.flags);
    assert all[i + 1 - |ts + [t]|..i + 1] == all[i - k..i] + [all[i]];
    assert i + 1 - |ts + [t]| == i - k;
    assert ProperFlags(ts + [t], i + 1 == |all|);
    assert DataBehind(j, log', jdb, ts + [t], all[i - k..i] + [all[i]]);
  }

  // --------------------------------------------------------- revoke records

  function RevokeEnd(j: Journal, n: nat): nat {
    REVOKE_HEADER_BYTES + n * j.RevokeBytes()
  }

  /** The record at byte offset `o` of a revoke block. */
  function RecordAt(j: Journal, b: Block, o: nat): nat
    requires o + j.RevokeBytes() <= |b|
  {
    if j.is64 then Get32(b, o) * 0x1_0000_0000 + Get32(b, o + 4) else Get32(b, o)
  }

  lemma EndStep(j: Journal, n: nat)
    ensures RevokeEnd(j, n + 1) == RevokeEnd(j, n) + j.RevokeBytes()
  {
    assert (n + 1) * j.RevokeBytes() == n * j.RevokeBytes() + j.RevokeBytes();
  }

  lemma EndMono(j: Journal, k: nat, n: nat)
    requires k <= n
    ensures RevokeEnd(j, k) <= RevokeEnd(j, n)
  {
    assert k * j.RevokeBytes() <= n * j.RevokeBytes();
  }

  ghost predicate RecordsAre(j: Journal, b: Block, rs: seq<nat>) {
    RevokeEnd(j, |rs|) <= |b| && forall k :: 0 <= k < |rs| ==> IsRecord(j, b, k, rs[k])
  }

  predicate IsRecord(j: Journal, b: Block, k: nat, v: nat) {
    var o := RevokeEnd(j, k);
    o + j.RevokeBytes() <= |b| && RecordAt(j, b, o) == v
  }

  lemma RecordSame(j: Journal, b: Block, c: Block, k: nat, v: nat)
    requires IsRecord(j, b, k, v) && |c| == |b|
    requires forall i :: RevokeEnd(j, k) <= i < RevokeEnd(j, k) + j.RevokeBytes() ==> c[i] == b[i]
    ensures IsRecord(j, c, k, v)
  {
    hide Get32, RevokeEnd;
    var p := RevokeEnd(j, k);
    assert c[p..p + 4] == b[p..p + 4];
    Get32Same(c, p, b, p);
    if j.is64 {
      assert c[p + 4..p + 8] == b[p + 4..p + 8];
      Get32Same(c, p + 4, b, p + 4);
    }
  }

  lemma {:induction false} RecordsRead(j: Journal, b: Block, rs: seq<nat>, k: nat)
    requires j.Valid() && |b| == j.blocksize && RecordsAre(j, b, rs) && k <= |rs|
    ensures RevokeRecords(j, b, RevokeEnd(j, k), RevokeEnd(j, |rs|)) == rs[k..]
    decreases |rs| - k
  {
    hide Get32;
    if k < |rs| {
      EndStep(j, k);
      EndMono(j, k + 1, |rs|);
      RecordsRead(j, b, rs, k + 1);
      assert IsRecord(j, b, k, rs[k]);
      assert rs[k..] == [rs[k]] + rs[k + 1..];
    } else {
      assert j.RevokeBytes() > 0;
    }
  }

  function WithRecord(j: Journal, b: Block, off: nat, v: nat): (r: Block)
    requires off + j.RevokeBytes() <= |b|
    ensures |r| == |b| && forall i :: 0 <= i < |b| && !(off <= i < off + j.RevokeBytes()) ==> r[i] == b[i]
  {
    if j.is64 then Put32(Put32(b, off, v / 0x1_0000_0000), off + 4, v % 0x1_0000_0000)
    else Put32(b, off, v % 0x1_0000_0000)
  }

  lemma RecordWritten(j: Journal, b: Block, rs: seq<nat>, v: nat)
    requires j.Valid() && |b| == j.blocksize && RecordsAre(j, b, rs) && v < j.fsBlocks
    requires RevokeEnd(j, |rs|) + j.RevokeBytes() <= |b|
    ensures RecordsAre(j, WithRecord(j, b, RevokeEnd(j, |rs|), v), rs + [v])
  {
    hide Get32, WithRecord, RecordAt, RevokeEnd;
    var o, n := RevokeEnd(j, |rs|), |rs|;
    var c := WithRecord(j, b, o, v);
    EndStep(j, n);
    forall k | 0 <= k < |rs + [v]| ensures IsRecord(j, c, k, (rs + [v])[k]) {
      if k < n {
        EndStep(j, k);
        EndMono(j, k + 1, n);
        RecordSame(j, b, c, k, rs[k]);
      } else {
        RecordRead(j, b, o, v);
      }
    }
  }

  lemma RecordRead(j: Journal, b: Block, o: nat, v: nat)
    requires j.Valid() && o + j.RevokeBytes() <= |b| && v < j.fsBlocks
    ensures var c := WithRecord(j, b, o, v);
      v == RecordAt(j, c, o)
  {
    hide Get32, Bytes32;
    var hi, lo := v / 0x1_0000_0000, v % 0x1_0000_0000;
    var c := WithRecord(j, b, o, v);
    Bytes32Length(hi);
    Bytes32Length(lo);
    if j.is64 {
      assert c[o..o + 4] == Bytes32(hi);
      assert c[o + 4..o + 8] == Bytes32(lo);
      FieldRead(c, o, hi);
      FieldRead(c, o + 4, lo);
    } else {
      assert c[o..o + 4] == Bytes32(lo);
      FieldRead(c, o, lo);
    }
  }

  /** The finished revoke block: count and checksum tail. */
  function Finished(j: Journal, b: Block, off: nat, sum: nat): (r: Block)
    requires j.Valid() && |b| == j.blocksize
    ensures |r| == |b|
  {
    WithTail(j, Put32(b, HEADER_BYTES, off), sum)
  }

  lemma RevokeBlockReads(j: Journal, b: Block, rs: seq<nat>, tid: nat, sum: nat)
    requires j.Valid() && |b| == j.blocksize && RecordsAre(j, b, rs) && HasHeader(b, REVOKE_BLOCK, tid)
    requires RevokeEnd(j, |rs|) <= j.Size() && j.blocksize < 0x1_0000_0000
    ensures var c := Finished(j, b, RevokeEnd(j, |rs|), sum);
      HasHeader(c, REVOKE_BLOCK, tid) && RevokesIn(j, c) == rs
  {
    hide Get32, Bytes32, WithTail, RevokeRecords;
    var off := RevokeEnd(j, |rs|);
    var b1 := Put32(b, HEADER_BYTES, off);
    var c := Finished(j, b, off, sum);
    Bytes32Length(off);
    PutGet32(b, HEADER_BYTES, off);
    SamePrefix(j, b1, c);
    assert c[12..16] == b1[12..16];
    Get32Same(c, 12, b1, 12);
    assert c[..HEADER_BYTES] == b[..HEADER_BYTES];
    HeaderSame(b, c, REVOKE_BLOCK, tid);
    forall k | 0 <= k < |rs| ensures IsRecord(j, c, k, rs[k]) {
      EndStep(j, k);
      EndMono(j, k + 1, |rs|);
      EndMono(j, 0, k);
      RecordSame(j, b, c, k, rs[k]);
    }
    RecordsRead(j, c, rs, 0);
  }

  lemma RevokeChunk(j: Journal, log: seq<Block>, tid: nat, pos: nat, rs: seq<nat>)
    requires j.Valid() && j.Sized(log) && pos < |log| && HasHeader(log[pos], REVOKE_BLOCK, tid)
    requires RevokesIn(j, log[pos]) == rs
    ensures Chunked(j, log, tid, pos, pos + 1)
    ensures Restored(j, log, pos, pos + 1) == [] && Revoked(j, log, pos, pos + 1) == rs
  {
    hide Get32, RevokesIn, CountTags, RestoreFrom;
    assert Chunked(j, log, tid, pos + 1, pos + 1);
    assert Revoked(j, log, pos + 1, pos + 1) == [] && rs + [] == rs;
  }

  // ------------------------------------------------------------ the writer

  /** Journal blocks `from` up to `to` hold exactly these data blocks and revokes. */
  ghost predicate Wrote(j: Journal, log: seq<Block>, tid: nat, from: nat, to: nat,
                        pairs: seq<(nat, Block)>, revokes: seq<nat>)
    requires j.Valid() && j.Sized(log)
  {
    Chunked(j, log, tid, from, to) && Restored(j, log, from, to) == pairs && Revoked(j, log, from, to) == revokes
  }

  lemma WroteNothing(j: Journal, log: seq<Block>, tid: nat, pos: nat)
    requires j.Valid() && j.Sized(log) && pos <= |log|
    ensures Wrote(j, log, tid, pos, pos, [], [])
  {
  }

  /** A second stretch written after the first leaves the first as it was. */
  lemma WroteMore(j: Journal, log: seq<Block>, log': seq<Block>, tid: nat, from: nat, mid: nat, to: nat,
                  pairs: seq<(nat, Block)>, revokes: seq<nat>, pairs': seq<(nat, Block)>, revokes': seq<nat>)
    requires j.Valid() && j.Sized(log) && j.Sized(log') && |log| <= j.last && SameOn(log, log', 0, mid)
    requires Wrote(j, log, tid, from, mid, pairs, revokes) && Wrote(j, log', tid, mid, to, pairs', revokes')
    ensures Wrote(j, log', tid, from, to, pairs + pairs', revokes + revokes')
  {
    hide Chunked, Restored, Revoked;
    ChunksFrame(j, log, log', tid, from, mid);
    ChunksJoin(j, log', tid, from, mid, to);
  }

  /** Journal blocks still to be written for `n` more blocks when the open descriptor has `k` tags: their data, and new descriptors. */
  function Need(j: Journal, k: nat, n: nat): nat
    requires j.Valid()
    decreases n
  {
    if n == 0 then 0 else if Full(j, k) then 2 + Need(j, 1, n - 1) else 1 + Need(j, k + 1, n - 1)
  }

  /** Revoke blocks to be written, the open one included, for `n` more records when it has `k`. */
  function RevokeNeed(j: Journal, k: nat, n: nat): nat
    requires j.Valid()
    decreases n
  {
    if n == 0 then 1
    else if RevokeEnd(j, k) + j.RevokeBytes() > j.Size() then 1 + RevokeNeed(j, 1, n - 1)
    else RevokeNeed(j, k + 1, n - 1)
  }

  /** Journal blocks that the data blocks and revokes of a transaction take. */
  function DataSize(j: Journal, n: nat): nat
    requires j.Valid()
  {
    if n == 0 then 0 else 1 + Need(j, 0, n)
  }

  function RevokeSize(j: Journal, n: nat): nat
    requires j.Valid()
  {
    if n == 0 then 0 else RevokeNeed(j, 0, n)
  }

  predicate AllInFs(j: Journal, list: seq<nat>) {
    forall b :: b in list ==> b < j.fsBlocks
  }

  lemma ZipAt(list: seq<nat>, data: seq<Block>, all: seq<(nat, Block)>, i: nat)
    requires i < |list| && i < |data| && |all| == |list|
    requires |list| <= |data| ==> all == Zip(list, data)
    requires |list| > |data| ==> exists more: seq<Block> :: |more| == |list| && all == Zip(list, data + more)
    ensures all[i] == (list[i], data[i])
  {
  }

  lemma InFsJoin(j: Journal, a: seq<nat>, b: seq<nat>)
    ensures AllInFs(j, a + b) <==> AllInFs(j, a) && AllInFs(j, b)
  {
    assert forall x :: x in a + b <==> x in a || x in b;
  }

  lemma ListStep(list: seq<nat>, i: nat, rs: seq<nat>)
    requires i < |list| && |rs| <= i && rs == list[i - |rs|..i]
    ensures list[..i - |rs|] + rs == list[..i] && rs + [list[i]] == list[i - |rs|..i + 1] && [] + [list[i]] == list[i..i + 1]
    ensures list[i] in list && list[..i + 1] == list[..i] + [list[i]]
  {
  }

  lemma NoRevokes(j: Journal)
    requires j.Valid()
    ensures RevokeSize(j, 0) == 0
  {
  }

  lemma NeedNone(j: Journal, k: nat)
    requires j.Valid()
    ensures Need(j, k, 0) == 0 && RevokeNeed(j, k, 0) == 1
  {
  }

  lemma NeedStep(j: Journal, k: nat, n: nat)
    requires j.Valid() && n > 0
    ensures Full(j, k) ==> Need(j, k, n) == 2 + Need(j, 1, n - 1)
    ensures !Full(j, k) ==> Need(j, k, n) == 1 + Need(j, k + 1, n - 1)
    ensures Need(j, k, 0) == 0
    ensures RevokeEnd(j, k) + j.RevokeBytes() > j.Size() ==> RevokeNeed(j, k, n) == 1 + RevokeNeed(j, 1, n - 1)
    ensures RevokeEnd(j, k) + j.RevokeBytes() <= j.Size() ==> RevokeNeed(j, k, n) == RevokeNeed(j, k + 1, n - 1)
    ensures RevokeNeed(j, k, 0) == 1 && RevokeNeed(j, k, n) >= 1
    decreases n
  {
    if n > 1 {
      NeedStep(j, k + 1, n - 1);
      NeedStep(j, 1, n - 1);
    }
  }

  /** The transaction handle; `log` is the journal, indexed by journal block. */
  class Transaction {
    const j: Journal
    const tid: nat
    var log: seq<Block>
    var block: nat
    var isOpen: bool
    var isCommitted: bool

    ghost predicate Valid()
      reads this
    {
      && j.Valid() && j.blocksize < 0x1_0000_0000 && tid < 0x1_0000_0000
      && j.Sized(log) && |log| <= j.last
    }

    constructor (j: Journal, tid: nat, log: seq<Block>, start: nat)
      requires j.Valid() && j.blocksize < 0x1_0000_0000 && tid < 0x1_0000_0000
      requires j.Sized(log) && |log| <= j.last
      ensures Valid() && this.j == j && this.tid == tid && this.log == log && block == start
      ensures isOpen && !isCommitted
    {
      this.j, this.tid, this.log, block := j, tid, log, start;
      isOpen, isCommitted := true, false;
    }

    /** Write one journal block; blocks beyond the journal cannot be mapped. */
    method WriteBlock(pos: nat, b: Block) returns (err: nat)
      requires Valid() && |b| == j.blocksize
      modifies this`log
      ensures Valid()
      ensures err == if pos < |old(log)| then OK else IO_ERROR
      ensures log == if err == OK then old(log)[pos := b] else old(log)
    {
      if pos >= |log| {
        return IO_ERROR;
      }
      log := log[pos := b];
      return OK;
    }

    /**
     `journal_add_blocks_to_trans`.  `spare` is whatever the descriptor buffer
     held, `data` the blocks the file yields, `errno` its value when the file is
     too short, `sum` any checksum values.
     */
    method AddBlocks(list: seq<nat>, data: seq<Block>, spare: Block, errno: nat, sum: nat -> nat) returns (err: nat)
      requires Valid() && |spare| == j.blocksize && j.Sized(data) && block <= |log|
      modifies this`log, this`block
      ensures Valid() && SameOn(old(log), log, 0, old(block)) && block >= old(block)
      ensures isCommitted || !isOpen ==> err == INVALID_ARGUMENT && block == old(block) && log == old(log)
      ensures err == OK && |list| <= |data| ==> Wrote(j, log, tid, old(block), block, Zip(list, data), [])
      ensures |list| <= |data| ==> (err == OK <==>
          isOpen && !isCommitted && AllInFs(j, list) && old(block) + DataSize(j, |list|) <= |log|)
      ensures err == OK && |list| <= |data| ==> block == old(block) + DataSize(j, |list|)
      ensures isOpen && !isCommitted && list != [] && data == [] ==>
        err == errno && log == old(log) && block == old(block) + 1
      ensures err == OK && |data| < |list| ==> errno == OK && block < old(block) + DataSize(j, |list|)
    {
      hide Filling, Wrote, HasHeader, WithHeader, Need, Progress;
      if isCommitted || !isOpen {
        return INVALID_ARGUMENT;
      }
      if |list| == 0 {
        WroteNothing(j, log, tid, block);
        assert Zip(list, data) == [];
        return OK;
      }
      ghost var from, all := block, Zip(list, if |list| <= |data| then data else data + seq(|list|, _ => spare));
      var curr, jdb := block, block;
      var buf := WithHeader(spare, DESCRIPTOR_BLOCK, tid);
      HeaderWritten(spare, DESCRIPTOR_BLOCK, tid);
      var p := HEADER_BYTES;
      ghost var ts: seq<TagSpec> := [];
      curr := curr + 1;
      BeginProgress(buf, list, all);
      for i := 0 to |list|
        invariant Progress(from, jdb, curr, p, buf, ts, list, all, i) && Valid() && curr >= from
        invariant SameOn(old(log), log, 0, from) && i <= |data| && (i == 0 ==> log == old(log) && curr == from + 1)
      {
        if i >= |data| {
          ProgressShort(from, jdb, curr, p, buf, ts, list, all, i);
          block := curr;
          return errno;
        }
        ZipAt(list, data, all, i);
        err, buf, p, jdb, curr, ts := AddTurn(list, data[i], i, buf, p, jdb, curr, sum, from, ts, all);
        if err != OK {
          block := curr;
          return;
        }
      }
      err := LastDescriptor(list, buf, p, jdb, curr, sum(jdb), from, ts, all);
      block := curr;
    }

    /** What holds after `i` blocks have been added. */
    ghost predicate Progress(from: nat, jdb: nat, curr: nat, p: nat, buf: Block, ts: seq<TagSpec>,
                             list: seq<nat>, all: seq<(nat, Block)>, i: nat)
      reads this
    {
      && Valid() && from <= jdb && i <= |list| == |all|
      && curr == jdb + 1 + |ts| && (jdb < |log| ==> curr <= |log|) && p == Off(j, |ts|) && |buf| == j.blocksize
      && HasHeader(buf, DESCRIPTOR_BLOCK, tid)
      && (jdb < |log| ==> Filling(j, log, tid, from, jdb, buf, ts, i == |list|, all, i))
      && (i == |list| ==> ts != [] && jdb < |log|)
      && curr + Need(j, |ts|, |list| - i) == from + 1 + Need(j, 0, |list|)
      && (i > 0 ==> curr <= |log|) && AllInFs(j, list[..i])
    }

    lemma ProgressShort(from: nat, jdb: nat, curr: nat, p: nat, buf: Block, ts: seq<TagSpec>,
                        list: seq<nat>, all: seq<(nat, Block)>, i: nat)
      requires Progress(from, jdb, curr, p, buf, ts, list, all, i) && i < |list|
      ensures curr < from + DataSize(j, |list|)
    {
      hide Filling, HasHeader, Need;
      NeedStep(j, |ts|, |list| - i);
    }

    lemma BeginProgress(buf: Block, list: seq<nat>, all: seq<(nat, Block)>)
      requires Valid() && block <= |log| && |list| == |all| > 0 && |buf| == j.blocksize && HasHeader(buf, DESCRIPTOR_BLOCK, tid)
      ensures Progress(block, block, block + 1, HEADER_BYTES, buf, [], list, all, 0)
    {
      hide Filling, HasHeader, Need;
      BeginDescriptor(block, block, buf, all, 0);
    }

    /** One turn of the loop: a full descriptor is written out first; the block's tag is stored and its data written. */
    method AddTurn(list: seq<nat>, d: Block, i: nat, buf: Block, p: nat, jdb: nat, curr: nat, sum: nat -> nat,
                   ghost from: nat, ghost ts: seq<TagSpec>, ghost all: seq<(nat, Block)>)
      returns (err: nat, buf': Block, p': nat, jdb': nat, curr': nat, ghost ts': seq<TagSpec>)
      requires i < |list| && |d| == j.blocksize && from <= |log|
      requires Progress(from, jdb, curr, p, buf, ts, list, all, i) && all[i] == (list[i], d)
      modifies this`log
      ensures Valid() && curr' >= curr && SameOn(old(log), log, 0, from)
      ensures err == OK ==> Progress(from, jdb', curr', p', buf', ts', list, all, i + 1)
      ensures err != OK ==> !AllInFs(j, list) || from + 1 + Need(j, 0, |list|) > |log|
    {
      hide Filling, HasHeader, Get32, WithTag, Escaped, Flags, Off, Need;
      err, p', jdb', curr', ts' := TagRoom(list, i, buf, p, jdb, curr, sum(jdb), from, ts, all);
      buf' := buf;
      if err != OK {
        return;
      }
      NeedStep(j, |ts'|, |list| - i);
      assert list[i] in list;
      if list[i] >= j.fsBlocks {
        return BAD_BLOCK_NUM, buf', p', jdb', curr', ts';
      }
      var flags := Flags(p' == HEADER_BYTES, i == |list| - 1, Get32(d, 0) == MAGIC);
      FlagBits(p' == HEADER_BYTES, i == |list| - 1, Get32(d, 0) == MAGIC);
      OffFloor(j, |ts'|);
      OffStep(j, |ts'|);
      var tag := TagSpec(list[i], flags);
      err, buf' := AddOne(buf', p', tag, d, sum(curr'), curr', from, jdb', ts', all, i);
      if err != OK {
        return;
      }
      ts' := ts' + [tag];
      p' := p' + j.TagBytes() + if p' == HEADER_BYTES then UUID_BYTES else 0;
      curr' := curr' + 1;
      assert list[..i + 1] == list[..i] + [list[i]];
    }

    /** The start of a turn: if the descriptor is full it is written out, and the next one begins. */
    method TagRoom(list: seq<nat>, i: nat, buf: Block, p: nat, jdb: nat, curr: nat, sum: nat,
                   ghost from: nat, ghost ts: seq<TagSpec>, ghost all: seq<(nat, Block)>)
      returns (err: nat, p': nat, jdb': nat, curr': nat, ghost ts': seq<TagSpec>)
      requires i < |list| && from <= |log| && Progress(from, jdb, curr, p, buf, ts, list, all, i)
      modifies this`log
      ensures Valid() && |log| == |old(log)| && curr' >= curr && SameOn(old(log), log, 0, from)
      ensures err == OK ==>
        && from <= jdb' && curr' == jdb' + 1 + |ts'| && p' == Off(j, |ts'|) >= HEADER_BYTES && !Full(j, |ts'|)
        && (jdb' < |log| ==> Filling(j, log, tid, from, jdb', buf, ts', false, all, i))
        && curr' + Need(j, |ts'|, |list| - i) == from + 1 + Need(j, 0, |list|)
      ensures err != OK ==> from + 1 + Need(j, 0, |list|) > |log|
    {
      hide Filling, HasHeader, Off, Need;
      err, p', jdb', curr', ts' := OK, p, jdb, curr, ts;
      NeedStep(j, |ts|, |list| - i);
      NeedStep(j, 0, |list| - i);
      OffFloor(j, |ts|);
      OffFloor(j, 0);
      if p + j.TagBytes() > j.Size() {
        err := FlushDescriptor(jdb, buf, sum, from, ts, all, i);
        if err != OK {
          return;
        }
        p' := HEADER_BYTES;
        jdb' := curr;
        ts' := [];
        curr' := curr + 1;
      }
    }

    /** The descriptor that is still open at the end. */
    method LastDescriptor(list: seq<nat>, buf: Block, p: nat, jdb: nat, curr: nat, sum: nat,
                          ghost from: nat, ghost ts: seq<TagSpec>, ghost all: seq<(nat, Block)>) returns (err: nat)
      requires list != [] && from <= |log| && Progress(from, jdb, curr, p, buf, ts, list, all, |list|)
      modifies this`log
      ensures Valid() && SameOn(old(log), log, 0, from) && err == OK && Wrote(j, log, tid, from, curr, all, [])
      ensures curr == from + DataSize(j, |list|) <= |log| && AllInFs(j, list)
    {
      hide Filling, Wrote, Chunked, Restored, Revoked, HasHeader, WithTail, Off, Need;
      err := OK;
      OffFloor(j, |ts|);
      if p != HEADER_BYTES {
        ghost var before := log;
        err := WriteBlock(jdb, WithTail(j, buf, sum));
        FlushFilled(j, before, tid, from, jdb, buf, ts, true, all, |list|, sum);
      }
      assert list[..|list|] == list && all[..|list|] == all;
      NeedNone(j, |ts|);
      AllWritten(j, log, tid, from, curr, all);
    }

    /** Write a full descriptor out; its buffer is reused for the next one. */
    method FlushDescriptor(jdb: nat, buf: Block, sum: nat, ghost from: nat, ghost ts: seq<TagSpec>,
                           ghost all: seq<(nat, Block)>, ghost i: nat) returns (err: nat)
      requires Valid() && |buf| == j.blocksize && HasHeader(buf, DESCRIPTOR_BLOCK, tid) && from <= jdb
      requires ts != [] && Full(j, |ts|) && (jdb < |log| ==> jdb + 1 + |ts| <= |log|)
      requires jdb < |log| ==> Filling(j, log, tid, from, jdb, buf, ts, false, all, i)
      modifies this`log
      ensures Valid() && |log| == |old(log)| && (from <= |log| ==> SameOn(old(log), log, 0, from))
      ensures err != OK <==> jdb >= |log|
      ensures err == OK && jdb + 1 + |ts| < |log| ==> Filling(j, log, tid, from, jdb + 1 + |ts|, buf, [], false, all, i)
    {
      hide Filling, Chunked, Restored, Revoked, HasHeader, WithTail;
      ghost var before := log;
      err := WriteBlock(jdb, WithTail(j, buf, sum));
      if err == OK {
        FlushFilled(j, before, tid, from, jdb, buf, ts, false, all, i, sum);
        FilledCount(j, before, tid, from, jdb, buf, ts, false, all, i);
        RestartDescriptor(from, jdb + 1 + |ts|, buf, all, i);
      }
    }

    /** Store the tag of block `i` and write its data, escaped if it looks like a journal header. */
    method AddOne(buf: Block, p: nat, tag: TagSpec, d: Block, sum: nat, curr: nat, ghost from: nat, ghost jdb: nat,
                  ghost ts: seq<TagSpec>, ghost all: seq<(nat, Block)>, ghost i: nat) returns (err: nat, buf': Block)
      requires Valid() && |buf| == j.blocksize && |d| == j.blocksize && from <= jdb && curr == jdb + 1 + |ts|
      requires p == Off(j, |ts|) && HEADER_BYTES <= p && p + j.TagBytes() <= j.Size()
      requires i < |all| && all[i] == (tag.nr, d) && tag.nr < j.fsBlocks && tag.flags < 256
      requires tag.flags == Flags(|ts| == 0, i + 1 == |all|, Get32(d, 0) == MAGIC)
      requires jdb < |log| ==> Filling(j, log, tid, from, jdb, buf, ts, false, all, i)
      modifies this`log
      ensures Valid() && |log| == |old(log)| && |buf'| == j.blocksize && (from <= |log| ==> SameOn(old(log), log, 0, from))
      ensures err == OK <==> curr < |log|
      ensures err == OK ==>
        && HasHeader(buf', DESCRIPTOR_BLOCK, tid)
        && Filling(j, log, tid, from, jdb, buf', ts + [tag], i + 1 == |all|, all, i + 1)
    {
      hide Filling, HasHeader, WithTag, Escaped, Flags, Get32, Off;
      ghost var before := log;
      buf' := WithTag(j, buf, p, tag, sum);
      err := WriteBlock(curr, Escaped(d));
      if err == OK {
        FillOne(j, before, tid, from, jdb, buf, ts, all, i, sum);
        FilledHeader(j, log, tid, from, jdb, buf', ts + [tag], i + 1 == |all|, all, i + 1);
      }
    }

    /** `journal_add_revoke_to_trans`. */
    method AddRevokes(list: seq<nat>, spare: Block, sum: nat -> nat) returns (err: nat)
      requires Valid() && |spare| == j.blocksize
      modifies this`log, this`block
      ensures Valid() && |log| == |old(log)| && (old(block) <= |log| ==> SameOn(old(log), log, 0, old(block)))
      ensures isCommitted || !isOpen ==> err == INVALID_ARGUMENT && block == old(block) && log == old(log)
      ensures err == OK && old(block) <= |log| ==> Wrote(j, log, tid, old(block), block, [], list)
      ensures err == OK <==> isOpen && !isCommitted && AllInFs(j, list) && (list == [] || old(block) + RevokeSize(j, |list|) <= |log|)
      ensures err == OK ==> block == old(block) + RevokeSize(j, |list|)
      ensures block >= old(block) && (old(block) > |log| ==> log == old(log))
    {
      hide Wrote, RecordsAre, HasHeader, WithHeader, RevokeEnd, RevokeNeed;
      if isCommitted || !isOpen {
        return INVALID_ARGUMENT;
      }
      if |list| == 0 {
        if block <= |log| {
          WroteNothing(j, log, tid, block);
        }
        return OK;
      }
      ghost var from := block;
      var curr: nat := block;
      var buf := WithHeader(spare, REVOKE_BLOCK, tid);
      HeaderWritten(spare, REVOKE_BLOCK, tid);
      var offset: nat := REVOKE_HEADER_BYTES;
      ghost var rs: seq<nat> := [];
      BeginRevokes(buf, list);
      for i := 0 to |list|
        invariant RevokeProgress(from, curr, buf, offset, list, rs, i) && Valid() && curr >= from && |log| == |old(log)|
        invariant if from <= |log| then SameOn(old(log), log, 0, from) else log == old(log)
      {
        err, buf, offset, curr, rs := RevokeTurn(list, i, buf, offset, curr, sum, from, rs);
        if err != OK {
          block := curr;
          return;
        }
      }
      assert list[..|list|] == list;
      NeedNone(j, |rs|);
      err, buf := FlushRevokes(curr, buf, offset, sum(curr), from, list[..|list| - |rs|], rs);
      if err != OK {
        block := curr;
        return;
      }
      assert list[..|list| - |rs|] + rs == list;
      curr := curr + 1;
      block := curr;
    }

    /** What holds after `i` records have been stored, the last of them, `rs`, in the open buffer. */
    ghost predicate RevokeProgress(from: nat, curr: nat, buf: Block, offset: nat, list: seq<nat>, rs: seq<nat>, i: nat)
      reads this
    {
      && Valid() && from <= curr && (if from <= |log| then curr <= |log| else curr == from)
      && |buf| == j.blocksize && HasHeader(buf, REVOKE_BLOCK, tid)
      && i <= |list| && |rs| <= i && rs == list[i - |rs|..i] && RecordsAre(j, buf, rs)
      && offset == RevokeEnd(j, |rs|) <= j.Size()
      && (from <= |log| ==> Wrote(j, log, tid, from, curr, [], list[..i - |rs|]))
      && curr + RevokeNeed(j, |rs|, |list| - i) == from + RevokeNeed(j, 0, |list|) && AllInFs(j, list[..i])
    }

    lemma BeginRevokes(buf: Block, list: seq<nat>)
      requires Valid() && |buf| == j.blocksize && HasHeader(buf, REVOKE_BLOCK, tid)
      ensures RevokeProgress(block, block, buf, REVOKE_HEADER_BYTES, list, [], 0)
    {
      hide Wrote, HasHeader, RecordsAre, RevokeEnd, RevokeNeed;
      NoRecords(j, buf);
      if block <= |log| {
        WroteNothing(j, log, tid, block);
      }
      assert list[..0] == [];
    }

    /** One turn of the loop: a full revoke block is written out first, then the record is stored. */
    method RevokeTurn(list: seq<nat>, i: nat, buf: Block, offset: nat, curr: nat, sum: nat -> nat, ghost from: nat, ghost rs: seq<nat>)
      returns (err: nat, buf': Block, offset': nat, curr': nat, ghost rs': seq<nat>)
      requires i < |list| && RevokeProgress(from, curr, buf, offset, list, rs, i)
      modifies this`log
      ensures Valid() && curr' >= curr && |log| == |old(log)|
      ensures if from <= |log| then SameOn(old(log), log, 0, from) else log == old(log)
      ensures err == OK ==> RevokeProgress(from, curr', buf', offset', list, rs', i + 1)
      ensures err != OK ==> !AllInFs(j, list) || from + RevokeNeed(j, 0, |list|) > |log|
    {
      hide Wrote, RecordsAre, HasHeader, WithHeader, WithRecord, Finished, RevokeEnd, RevokesIn, RevokeNeed;
      err, buf', offset', curr', rs' := OK, buf, offset, curr, rs;
      NeedStep(j, |rs|, |list| - i);
      NeedStep(j, 0, |list| - i);
      ListStep(list, i, rs);
      if offset + j.RevokeBytes() > j.Size() {
        err, buf' := FlushRevokes(curr, buf, offset, sum(curr), from, list[..i - |rs|], rs);
        if err != OK {
          return;
        }
        offset' := REVOKE_HEADER_BYTES;
        rs' := [];
        NoRecords(j, buf');
        curr' := curr + 1;
      }
      if list[i] >= j.fsBlocks {
        return BAD_BLOCK_NUM, buf', offset', curr', rs';
      }
      RecordWritten(j, buf', rs', list[i]);
      HeaderBehindRecord(j, buf', offset', list[i], |rs'|, tid);
      buf' := WithRecord(j, buf', offset', list[i]);
      EndStep(j, |rs'|);
      rs' := rs' + [list[i]];
      offset' := offset' + j.RevokeBytes();
    }

    /** Write the revoke buffer out with its byte count; it is reused for the next block. */
    method FlushRevokes(curr: nat, buf: Block, offset: nat, sum: nat, ghost from: nat, ghost done: seq<nat>, ghost rs: seq<nat>)
      returns (err: nat, buf': Block)
      requires Valid() && |buf| == j.blocksize && HasHeader(buf, REVOKE_BLOCK, tid) && from <= curr
      requires RecordsAre(j, buf, rs) && offset == RevokeEnd(j, |rs|) <= j.Size()
      requires from <= |log| ==> curr <= |log| && Wrote(j, log, tid, from, curr, [], done)
      modifies this`log
      ensures Valid() && |log| == |old(log)| && |buf'| == j.blocksize && HasHeader(buf', REVOKE_BLOCK, tid)
      ensures if from <= |log| then SameOn(old(log), log, 0, from) else log == old(log)
      ensures err == OK <==> curr < |log|
      ensures err == OK && from <= |log| ==> Wrote(j, log, tid, from, curr + 1, [], done + rs)
    {
      hide Wrote, RecordsAre, HasHeader, Finished, RevokeEnd, RevokesIn;
      ghost var before := log;
      RevokeBlockReads(j, buf, rs, tid, sum);
      buf' := Finished(j, buf, offset, sum);
      err := WriteBlock(curr, buf');
      if err == OK && from <= |log| {
        RevokeBlockWritten(j, before, log, tid, from, curr, done, rs);
      }
    }

    /** `journal_commit_trans`; `body` is the rest of the commit block (times and checksums). */
    method Commit(body: Block) returns (err: nat)
      requires Valid() && |body| == j.blocksize
      modifies this
      ensures Valid() && SameOn(old(log), log, 0, if old(block) <= |log| then old(block) else |log|)
      ensures old(isCommitted || !isOpen) ==> err == INVALID_ARGUMENT && block == old(block) && log == old(log)
      ensures err == OK <==> old(isOpen && !isCommitted) && old(block) < |log|
      ensures err == OK ==>
        && isCommitted && !isOpen && block == old(block) + 1
        && old(block) < |log| && HasHeader(log[old(block)], COMMIT_BLOCK, tid)
    {
      if isCommitted || !isOpen {
        return INVALID_ARGUMENT;
      }
      HeaderWritten(body, COMMIT_BLOCK, tid);
      err := WriteBlock(block, WithHeader(body, COMMIT_BLOCK, tid));
      if err != OK {
        return;
      }
      isCommitted, isOpen := true, false;
      block := block + 1;
    }

    /**
     `journal_write` of one transaction, from the block where the handle stands. With a
     data file that is too short and an `errno` of 0 it may still commit.
     */
    method Write(list: seq<nat>, data: seq<Block>, revokes: seq<nat>, spare: Block, errno: nat, sum: nat -> nat)
      returns (err: nat)
      requires Valid() && |spare| == j.blocksize && j.Sized(data) && block <= |log|
      modifies this
      ensures Valid() && SameOn(old(log), log, 0, old(block))
      ensures |list| <= |data| ==> (err == OK <==>
          old(isOpen && !isCommitted) && AllInFs(j, list + revokes) && old(block) + DataSize(j, |list|) + RevokeSize(j, |revokes|) < |log|)
      ensures err == OK && |data| < |list| ==>
        && errno == OK && isCommitted && 0 < block <= |log| && HasHeader(log[block - 1], COMMIT_BLOCK, tid)
        && block < old(block) + DataSize(j, |list|) + RevokeSize(j, |revokes|) + 1
      ensures err == OK && |list| <= |data| ==>
        && block == old(block) + DataSize(j, |list|) + RevokeSize(j, |revokes|) + 1
        && 0 < block <= |log| && HasHeader(log[block - 1], COMMIT_BLOCK, tid)
        && Wrote(j, log, tid, old(block), block - 1, Zip(list, data), revokes)
    {
      hide Wrote, HasHeader, Zip, DataSize, RevokeSize;
      NoRevokes(j);
      InFsJoin(j, list, revokes);
      ghost var from := block;
      err := AddBlocks(list, data, spare, errno, sum);
      if err != OK {
        return;
      }
      ghost var mid, log1 := block, log;
      if |list| <= |data| {
        WroteEnd(j, log, tid, from, mid, Zip(list, data), []);
      }
      err := AddRevokes(revokes, spare, sum);
      if err != OK {
        return;
      }
      ghost var end, log2 := block, log;
      if |list| <= |data| {
        WroteEnd(j, log, tid, mid, end, [], revokes);
        WroteMore(j, log1, log, tid, from, mid, end, Zip(list, data), [], [], revokes);
        assert Zip(list, data) + [] == Zip(list, data) && [] + revokes == revokes;
      }
      err := Commit(spare);
      if err == OK && |list| <= |data| {
        WroteNothing(j, log, tid, end);
        WroteMore(j, log2, log, tid, from, end, end, Zip(list, data), revokes, [], []);
        assert Zip(list, data) + [] == Zip(list, data) && revokes + [] == revokes;
      }
    }

    /** The first descriptor buffer. */
    lemma BeginDescriptor(from: nat, jdb: nat, buf: Block, all: seq<(nat, Block)>, i: nat)
      requires Valid() && jdb <= |log| && from == jdb && i == 0
      requires |buf| == j.blocksize && HasHeader(buf, DESCRIPTOR_BLOCK, tid)
      ensures jdb < |log| ==> Filling(j, log, tid, from, jdb, buf, [], false, all, i)
    {
      if jdb < |log| {
        assert all[..0] == [];
        WroteNothing(j, log, tid, jdb);
        StartFilling(j, log, tid, from, jdb, buf, all, 0);
      }
    }

    /** The descriptor buffer reused for the next descriptor. */
    lemma RestartDescriptor(from: nat, jdb: nat, buf: Block, all: seq<(nat, Block)>, i: nat)
      requires Valid() && i <= |all| && |buf| == j.blocksize && HasHeader(buf, DESCRIPTOR_BLOCK, tid)
      requires Chunked(j, log, tid, from, jdb) && Restored(j, log, from, jdb) == all[..i] && Revoked(j, log, from, jdb) == []
      ensures jdb < |log| ==> Filling(j, log, tid, from, jdb, buf, [], false, all, i)
    {
      if jdb < |log| {
        StartFilling(j, log, tid, from, jdb, buf, all, i);
      }
    }
  }

  lemma NoRecords(j: Journal, b: Block)
    requires |b| >= REVOKE_HEADER_BYTES
    ensures RecordsAre(j, b, []) && RevokeEnd(j, 0) == REVOKE_HEADER_BYTES
  {
  }

  lemma WroteEnd(j: Journal, log: seq<Block>, tid: nat, from: nat, to: nat, pairs: seq<(nat, Block)>, revokes: seq<nat>)
    requires j.Valid() && j.Sized(log) && Wrote(j, log, tid, from, to, pairs, revokes)
    ensures from <= to <= |log|
  {
  }

  lemma HeaderBehindRecord(j: Journal, b: Block, off: nat, v: nat, n: nat, tid: nat)
    requires off == RevokeEnd(j, n) && off + j.RevokeBytes() <= |b| && HasHeader(b, REVOKE_BLOCK, tid)
    ensures HasHeader(WithRecord(j, b, off, v), REVOKE_BLOCK, tid)
  {
    hide WithRecord, Get32;
    EndMono(j, 0, n);
    assert WithRecord(j, b, off, v)[..HEADER_BYTES] == b[..HEADER_BYTES];
    HeaderSame(b, WithRecord(j, b, off, v), REVOKE_BLOCK, tid);
  }

  lemma RevokeBlockWritten(j: Journal, log: seq<Block>, log': seq<Block>, tid: nat, from: nat, curr: nat,
                           done: seq<nat>, rs: seq<nat>)
    requires j.Valid() && j.Sized(log) && j.Sized(log') && |log| <= j.last && curr < |log|
    requires |log'| == |log| && log' == log[curr := log'[curr]] && Wrote(j, log, tid, from, curr, [], done)
    requires HasHeader(log'[curr], REVOKE_BLOCK, tid) && RevokesIn(j, log'[curr]) == rs
    ensures Wrote(j, log', tid, from, curr + 1, [], done + rs)
  {
    hide Chunked, Restored, Revoked, HasHeader, RevokesIn;
    RevokeChunk(j, log', tid, curr, rs);
    assert Wrote(j, log', tid, curr, curr + 1, [], rs);
    WroteMore(j, log, log', tid, from, curr, curr + 1, [], done, [], rs);
  }

  lemma FilledCount(j: Journal, log: seq<Block>, tid: nat, from: nat, jdb: nat, buf: Block,
                    ts: seq<TagSpec>, closed: bool, all: seq<(nat, Block)>, i: nat)
    requires j.Valid() && j.Sized(log) && Filling(j, log, tid, from, jdb, buf, ts, closed, all, i)
    ensures i <= |all|
  {
  }

  lemma FilledHeader(j: Journal, log: seq<Block>, tid: nat, from: nat, jdb: nat, buf: Block,
                     ts: seq<TagSpec>, closed: bool, all: seq<(nat, Block)>, i: nat)
    requires j.Valid() && j.Sized(log) && Filling(j, log, tid, from, jdb, buf, ts, closed, all, i)
    ensures HasHeader(buf, DESCRIPTOR_BLOCK, tid)
  {
  }

  lemma AllWritten(j: Journal, log: seq<Block>, tid: nat, from: nat, to: nat, all: seq<(nat, Block)>)
    requires j.Valid() && j.Sized(log) && Chunked(j, log, tid, from, to)
    requires Restored(j, log, from, to) == all && Revoked(j, log, from, to) == []
    ensures Wrote(j, log, tid, from, to, all, [])
  {
  }

  // ------------------------------------------------------------- the theorem

  /** No block at `pos` carries a header of transaction `seqno`. */
  ghost predicate NoHeader(j: Journal, log: seq<Block>, pos: nat, seqno: nat)
    requires j.Valid() && j.Sized(log)
  {
    pos < |log| && (Get32(log[pos], 0) != MAGIC || Get32(log[pos], 8) != seqno)
  }

  /** Scanning a written transaction ends just after its commit block, round the end of the log, with the next sequence number. */
  lemma ScanFindsHead(j: Journal, log: seq<Block>, tid: nat, start: nat, commit: nat, next: nat,
                      pairs: seq<(nat, Block)>, revokes: seq<nat>, head: nat, fuel: nat)
    requires j.Valid() && j.Sized(log) && Wrote(j, log, tid, start, commit, pairs, revokes)
    requires commit < |log| <= j.last && HasHeader(log[commit], COMMIT_BLOCK, tid)
    requires next == if commit + 1 < j.last then commit + 1 else j.first
    requires NoHeader(j, log, next, (tid + 1) % 0x1_0000_0000)
    requires fuel >= commit - start + 2
    ensures FindHead(j, log, start, tid, head, fuel) == Found(next, (tid + 1) % 0x1_0000_0000)
  {
    hide Chunked, Restored, Revoked, Get32;
    var left := ScanChunks(j, log, tid, start, commit, head, fuel);
    assert FindHead(j, log, commit, tid, head, left) ==
           FindHead(j, log, next, (tid + 1) % 0x1_0000_0000, next, left - 1);
  }

  /** The head scan as a loop over the log, looking at no more than `limit` blocks; an empty log leaves head and sequence as they are. */
  method Scan(j: Journal, log: seq<Block>, start: nat, first: nat, limit: nat) returns (r: Head)
    requires j.Valid() && j.Sized(log)
    ensures start != 0 ==> r == FindHead(j, log, start, first, start, limit)
    ensures start == 0 ==> r == EmptyLog
  {
    hide Get32, CountTags;
    if start == 0 {
      return EmptyLog;
    }
    var pos: nat, seqno: nat, head: nat := start, first, start;
    for k := 0 to limit
      invariant FindHead(j, log, pos, seqno, head, limit - k) == FindHead(j, log, start, first, start, limit)
    {
      if pos >= |log| {
        return ReadError;
      }
      var b := log[pos];
      pos := j.Wrap(pos + 1);
      if Get32(b, 0) != MAGIC || Get32(b, 8) != seqno {
        return Found(head, seqno);
      }
      var blocktype := Get32(b, 4);
      if blocktype == DESCRIPTOR_BLOCK {
        pos := j.Wrap(pos + CountTags(j, b));
      } else if blocktype == COMMIT_BLOCK {
        head := pos;
        seqno := (seqno + 1) % 0x1_0000_0000;
      } else if blocktype != REVOKE_BLOCK {
        return BadType;
      }
    }
    return Unfinished;
  }

  /** `count_tags`. */
  method CountTagsLoop(j: Journal, b: Block) returns (nr: nat)
    requires j.Valid() && |b| == j.blocksize
    ensures nr == CountTags(j, b)
  {
    hide HasFlag;
    nr := 0;
    var tagp := HEADER_BYTES;
    while tagp + j.TagBytes() <= j.Size()
      invariant nr + CountFrom(j, b, tagp) == CountTags(j, b)
      decreases j.Size() - tagp
    {
      var flags := TagFlags(b, tagp);
      nr := nr + 1;
      tagp := tagp + j.TagBytes();
      if !HasFlag(flags, FLAG_SAME_UUID) {
        tagp := tagp + UUID_BYTES;
      }
      if HasFlag(flags, FLAG_LAST_TAG) {
        return;
      }
    }
  }
}
