/**
 The log as a ring: transactions that run past the last block go on at the first
 one, and the head scan and the replay walk follow them round.
 */
module JournalRing {
  import opened JournalFormat
  import opened JournalLayout
  import opened JournalTransaction

  predicate OnRing(j: Journal, log: seq<Block>, pos: nat) {
    j.first <= pos < j.last <= |log|
  }

  /** The block `k` places on from `pos`, round the end. */
  function Ahead(j: Journal, pos: nat, k: nat): (r: nat)
    requires j.first <= pos < j.last && k <= j.last - j.first
    ensures j.first <= r < j.last
  {
    if pos + k < j.last then pos + k else pos + k - (j.last - j.first)
  }

  /** Wrapping lands on the log and moves by whole rounds. */
  lemma WrapExact(j: Journal, pos: nat)
    requires j.Valid() && j.first <= pos < j.last + (j.last - j.first)
    ensures j.first <= j.Wrap(pos) < j.last
    ensures j.Wrap(pos) == pos || j.Wrap(pos) + (j.last - j.first) == pos
  {
  }

  lemma AheadStep(j: Journal, pos: nat, k: nat)
    requires j.Valid() && j.first <= pos < j.last && k < j.last - j.first
    ensures j.Wrap(Ahead(j, pos, k) + 1) == Ahead(j, pos, k + 1)
    ensures j.Wrap(pos + 1) == Ahead(j, pos, 1)
    ensures j.Wrap(Ahead(j, pos, 1) + k) == Ahead(j, pos, 1 + k)
  {
    WrapExact(j, Ahead(j, pos, k) + 1);
    WrapExact(j, pos + 1);
    WrapExact(j, Ahead(j, pos, 1) + k);
  }

  lemma AheadJoin(j: Journal, pos: nat, a: nat, b: nat)
    requires j.first <= pos < j.last && a + b <= j.last - j.first
    ensures Ahead(j, Ahead(j, pos, a), b) == Ahead(j, pos, a + b)
  {
  }

  // ------------------------------------------------------------ the head scan

  /** The `n` blocks from `pos` on are whole descriptors with their data, and revoke blocks, of transaction `tid`. */
  ghost predicate Ringed(j: Journal, log: seq<Block>, tid: nat, pos: nat, n: nat)
    requires j.Valid() && j.Sized(log) && OnRing(j, log, pos) && n <= j.last - j.first
    decreases n
  {
    n == 0 ||
    (HasHeader(log[pos], DESCRIPTOR_BLOCK, tid) && CountTags(j, log[pos]) < n &&
     Ringed(j, log, tid, Ahead(j, pos, 1 + CountTags(j, log[pos])), n - 1 - CountTags(j, log[pos]))) ||
    (HasHeader(log[pos], REVOKE_BLOCK, tid) && Ringed(j, log, tid, Ahead(j, pos, 1), n - 1))
  }

  /** The scan crosses such a stretch wherever on the ring it lies. */
  lemma {:induction false} ScanRinged(j: Journal, log: seq<Block>, tid: nat, pos: nat, n: nat, head: nat, fuel: nat)
    returns (left: nat)
    requires j.Valid() && j.Sized(log) && OnRing(j, log, pos) && n <= j.last - j.first && fuel >= n
    requires Ringed(j, log, tid, pos, n)
    ensures fuel - n <= left <= fuel
    ensures FindHead(j, log, pos, tid, head, fuel) == FindHead(j, log, Ahead(j, pos, n), tid, head, left)
    decreases n
  {
    hide CountTags, Get32, FindHead, Ahead;
    if n == 0 {
      left := fuel;
      NowAhead(j, pos);
    } else {
      var k := if HasHeader(log[pos], DESCRIPTOR_BLOCK, tid) then CountTags(j, log[pos]) else 0;
      ChunkStep(j, log, pos, tid, head, fuel);
      AheadStep(j, pos, k);
      AheadJoin(j, pos, 1 + k, n - 1 - k);
      left := ScanRinged(j, log, tid, Ahead(j, pos, 1 + k), n - 1 - k, head, fuel - 1);
    }
  }

  /** A live log: transactions of the given sizes, each with its commit block, then no header of the next one. */
  ghost predicate Committed(j: Journal, log: seq<Block>, tid: nat, pos: nat, sizes: seq<nat>)
    requires j.Valid() && j.Sized(log) && OnRing(j, log, pos)
    decreases |sizes|
  {
    if sizes == [] then NoHeader(j, log, pos, tid)
    else
      && sizes[0] < j.last - j.first && Ringed(j, log, tid, pos, sizes[0])
      && HasHeader(log[Ahead(j, pos, sizes[0])], COMMIT_BLOCK, tid)
      && Committed(j, log, (tid + 1) % 0x1_0000_0000, Ahead(j, pos, sizes[0] + 1), sizes[1..])
  }

  /** Where a log of transactions of these sizes ends. */
  ghost function EndOf(j: Journal, pos: nat, sizes: seq<nat>): (r: nat)
    requires j.first <= pos < j.last && forall i :: 0 <= i < |sizes| ==> sizes[i] < j.last - j.first
    ensures j.first <= r < j.last
    decreases |sizes|
  {
    if sizes == [] then pos else EndOf(j, Ahead(j, pos, sizes[0] + 1), sizes[1..])
  }

  ghost function Blocks(sizes: seq<nat>): nat {
    if sizes == [] then 0 else sizes[0] + 1 + Blocks(sizes[1..])
  }

  /** The scan of a live log, round the end as often as it goes, ends behind its last commit with the next sequence number. */
  lemma {:induction false} ScanLog(j: Journal, log: seq<Block>, tid: nat, pos: nat, sizes: seq<nat>, head: nat, fuel: nat)
    requires j.Valid() && j.Sized(log) && OnRing(j, log, pos) && tid < 0x1_0000_0000
    requires Committed(j, log, tid, pos, sizes) && fuel > Blocks(sizes)
    ensures forall i :: 0 <= i < |sizes| ==> sizes[i] < j.last - j.first
    ensures FindHead(j, log, pos, tid, head, fuel) ==
            Found(if sizes == [] then head else EndOf(j, pos, sizes), (tid + |sizes|) % 0x1_0000_0000)
    decreases |sizes|
  {
    hide Ringed, Get32, CountTags, FindHead, Ahead;
    if sizes == [] {
      ScanStops(j, log, pos, tid, head, fuel);
    } else {
      var n := sizes[0];
      var left := ScanRinged(j, log, tid, pos, n, head, fuel);
      AheadStep(j, pos, n);
      var next := Ahead(j, pos, n + 1);
      CommitStep(j, log, Ahead(j, pos, n), tid, head, left);
      ScanLog(j, log, (tid + 1) % 0x1_0000_0000, next, sizes[1..], next, left - 1);
      assert sizes == [n] + sizes[1..];
      NextTid(tid, |sizes|);
    }
  }

  lemma NowAhead(j: Journal, pos: nat)
    requires j.first <= pos < j.last
    ensures Ahead(j, pos, 0) == pos
  {
  }

  lemma ChunkStep(j: Journal, log: seq<Block>, pos: nat, tid: nat, head: nat, fuel: nat)
    requires j.Valid() && j.Sized(log) && pos < |log| && fuel > 0
    requires HasHeader(log[pos], DESCRIPTOR_BLOCK, tid) || HasHeader(log[pos], REVOKE_BLOCK, tid)
    ensures FindHead(j, log, pos, tid, head, fuel) ==
            var next := j.Wrap(pos + 1);
            var to := if HasHeader(log[pos], DESCRIPTOR_BLOCK, tid) then j.Wrap(next + CountTags(j, log[pos])) else next;
            FindHead(j, log, to, tid, head, fuel - 1)
  {
    hide Get32, CountTags;
  }

  lemma CommitStep(j: Journal, log: seq<Block>, pos: nat, tid: nat, head: nat, fuel: nat)
    requires j.Valid() && j.Sized(log) && pos < |log| && HasHeader(log[pos], COMMIT_BLOCK, tid) && fuel > 0
    ensures FindHead(j, log, pos, tid, head, fuel) ==
            FindHead(j, log, j.Wrap(pos + 1), (tid + 1) % 0x1_0000_0000, j.Wrap(pos + 1), fuel - 1)
  {
    hide Get32;
  }

  lemma NextTid(tid: nat, n: nat)
    requires tid < 0x1_0000_0000 && n > 0
    ensures ((tid + 1) % 0x1_0000_0000 + (n - 1)) % 0x1_0000_0000 == (tid + n) % 0x1_0000_0000
  {
  }

  /** What the scan stops at, whatever the blocks hold. */
  lemma ScanStops(j: Journal, log: seq<Block>, pos: nat, seqno: nat, head: nat, fuel: nat)
    requires j.Valid() && j.Sized(log) && fuel > 0
    ensures pos >= |log| ==> FindHead(j, log, pos, seqno, head, fuel) == ReadError
    ensures pos < |log| && (Get32(log[pos], 0) != 0xC03B3998 || Get32(log[pos], 8) != seqno) ==>
              FindHead(j, log, pos, seqno, head, fuel) == Found(head, seqno)
    ensures pos < |log| && Get32(log[pos], 0) == 0xC03B3998 && Get32(log[pos], 8) == seqno &&
            Get32(log[pos], 4) != 1 && Get32(log[pos], 4) != 2 && Get32(log[pos], 4) != 5 ==>
              FindHead(j, log, pos, seqno, head, fuel) == BadType
  {
    hide Get32;
  }

  // ---------------------------------------------------------- the replay walk

  ghost function RingPairs(j: Journal, ts: seq<TagSpec>, log: seq<Block>, pos: nat): seq<(nat, Block)>
    requires j.Valid() && j.Sized(log) && OnRing(j, log, pos) && |ts| <= j.last - j.first
  {
    seq(|ts|, i requires 0 <= i < |ts| => (ts[i].nr, Unescape(log[Ahead(j, pos, i)], ts[i].flags)))
  }

  /** A descriptor whose data runs past the last block restores each block from where it lies. */
  lemma {:induction false} RestoreRing(
    j: Journal, b: Block, ts: seq<TagSpec>, closed: bool, log: seq<Block>, pos: nat, i: nat)
    requires j.Valid() && |b| == j.blocksize && Complete(j, b, ts, closed) && j.Sized(log)
    requires OnRing(j, log, pos) && i < |ts| <= j.last - j.first
    ensures RestoreFrom(j, b, Off(j, i), log, Ahead(j, pos, i)) == RingPairs(j, ts, log, pos)[i..]
    decreases |ts| - i
  {
    hide Off, HasFlag, TagFlags, TagBlock, Unescape, RestoreFrom, NextTag, Complete, Ahead, RingPairs;
    NextTagOff(j, b, ts, closed, i);
    TagReads(j, b, ts, closed, i);
    AheadStep(j, pos, i);
    RestoreStep(j, b, Off(j, i), log, Ahead(j, pos, i));
    RingPairsStep(j, ts, log, pos, i);
    if i < |ts| - 1 {
      RestoreRing(j, b, ts, closed, log, pos, i + 1);
    } else if !closed {
      RestoreNone(j, b, Off(j, i + 1), log, Ahead(j, pos, i + 1));
    }
  }

  lemma RingPairsStep(j: Journal, ts: seq<TagSpec>, log: seq<Block>, pos: nat, i: nat)
    requires j.Valid() && j.Sized(log) && OnRing(j, log, pos) && i < |ts| <= j.last - j.first
    ensures |RingPairs(j, ts, log, pos)| == |ts|
    ensures RingPairs(j, ts, log, pos)[i..] ==
            [(ts[i].nr, Unescape(log[Ahead(j, pos, i)], ts[i].flags))] + RingPairs(j, ts, log, pos)[i + 1..]
    ensures i == |ts| - 1 ==> RingPairs(j, ts, log, pos)[i + 1..] == []
  {
    hide Unescape, Ahead;
  }
}
