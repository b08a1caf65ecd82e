/**
 The scan phase of fast-commit recovery: which prefix of the tagged records may
 be replayed.  The checksum is any function `chk` of the running value and the
 bytes it is fed.
 */
module FastCommit {
  import opened Extents

  /** How the library calls behind a directory-entry or inode tag end. */
  datatype Outcome = Done | FailsBeforeFlush | FailsAfterFlush

  datatype Tag =
    | AddRange(ino: nat, ex: Extent, decodes: bool)
    | DelRange(ino: nat, lblk: nat, len: nat)
    | Creat(outcome: Outcome)
    | Link(outcome: Outcome)
    | Unlink(ino: nat, outcome: Outcome)
    | Inode(ino: nat, outcome: Outcome)
    | Pad
    | Tail(tid: nat, crc: nat)
    | Head(features: nat, tid: nat)
    | Unknown(code: nat)

  /** A record: its decoded tag and the bytes the checksum covers. */
  datatype Record = Record(tag: Tag, bytes: seq<int>)

  type Checksum = (nat, seq<int>) -> nat

  datatype Errno = EFSBADCRC | EFSCORRUPTED | EOPNOTSUPP | EINVAL | ECANCELED | EIO

  datatype Verdict = Continue | Stop | Failed(errno: Errno)

  /** `fc_replay_num_tags`, `fc_cur_tag` and `fc_crc`. */
  datatype Scan = Scan(num: nat, cur: nat, crc: nat)

  /** One turn of the scan loop. */
  function ScanOne(sc: Scan, r: Record, tid: nat, chk: Checksum): (Scan, Verdict) {
    match r.tag
    case AddRange(_, _, decodes) =>
      (Scan(sc.num, sc.cur + 1, chk(sc.crc, r.bytes)), if decodes then Continue else Stop)
    case Tail(t, crc) =>
      if t == tid && crc == chk(sc.crc, r.bytes) then (Scan(sc.cur + 1, sc.cur + 1, 0), Continue)
      else (Scan(sc.num, sc.cur + 1, 0), if sc.num > 0 then Stop else Failed(EFSBADCRC))
    case Head(features, t) =>
      if features != 0 then (sc, Failed(EOPNOTSUPP))
      else if t != tid then (sc, Failed(EINVAL))
      else (Scan(sc.num, sc.cur + 1, chk(sc.crc, r.bytes)), Continue)
    case Unknown(_) => (sc, if sc.num > 0 then Stop else Failed(ECANCELED))
    case _ => (Scan(sc.num, sc.cur + 1, chk(sc.crc, r.bytes)), Continue)
  }

  function ScanSeq(sc: Scan, recs: seq<Record>, tid: nat, chk: Checksum): (Scan, Verdict)
    decreases |recs|
  {
    if recs == [] then (sc, Continue)
    else
      var (next, v) := ScanOne(sc, recs[0], tid, chk);
      if v != Continue then (next, v) else ScanSeq(next, recs[1..], tid, chk)
  }

  function Flatten(blocks: seq<seq<Record>>): seq<Record> {
    if blocks == [] then [] else blocks[0] + Flatten(blocks[1..])
  }

  /** The whole scan pass: nothing is accepted unless the area opens with a head. */
  function ScanBlocks(blocks: seq<seq<Record>>, tid: nat, chk: Checksum): (Scan, Verdict) {
    if blocks == [] then (Scan(0, 0, 0), Continue)
    else if blocks[0] == [] || !blocks[0][0].tag.Head? then (Scan(0, 0, 0), Stop)
    else ScanSeq(Scan(0, 0, 0), Flatten(blocks), tid, chk)
  }

  // ------------------------------------------------- what may be replayed

  /** Index of the first record after the last tail before `k`. */
  ghost function SegmentStart(recs: seq<Record>, k: nat): nat
    requires k <= |recs|
  {
    if k == 0 || recs[k - 1].tag.Tail? then k else SegmentStart(recs, k - 1)
  }

  /** The running checksum over a stretch of records. */
  ghost function Fold(chk: Checksum, crc: nat, recs: seq<Record>): nat {
    if recs == [] then crc else chk(Fold(chk, crc, recs[..|recs| - 1]), recs[|recs| - 1].bytes)
  }

  /** Record `k` is a tail of this transaction whose checksum covers everything since the tail before it. */
  ghost predicate Verified(recs: seq<Record>, k: nat, tid: nat, chk: Checksum)
    requires k < |recs|
  {
    && SegmentStart(recs, k) <= k
    && recs[k].tag.Tail? && recs[k].tag.tid == tid
    && recs[k].tag.crc == Fold(chk, 0, recs[SegmentStart(recs, k)..k + 1])
  }

  ghost predicate Sound(recs: seq<Record>, k: nat, tid: nat, chk: Checksum)
    requires k < |recs|
  {
    match recs[k].tag
    case AddRange(_, _, decodes) => decodes
    case Tail(_, _) => Verified(recs, k, tid, chk)
    case Head(features, t) => features == 0 && t == tid
    case Unknown(_) => false
    case _ => true
  }

  /** A prefix that recovery may replay: every record sound, ending in a verified tail. */
  ghost predicate Accepted(recs: seq<Record>, m: nat, tid: nat, chk: Checksum) {
    && m <= |recs|
    && (m > 0 ==> recs[0].tag.Head? && recs[m - 1].tag.Tail?)
    && forall k :: 0 <= k < m ==> Sound(recs, k, tid, chk)
  }

  /** `n` is the length of the longest acceptable prefix. */
  ghost predicate Longest(recs: seq<Record>, n: nat, tid: nat, chk: Checksum) {
    Accepted(recs, n, tid, chk) && forall m: nat :: Accepted(recs, m, tid, chk) ==> m <= n
  }

  /** The first record that stops the scan. */
  ghost predicate FirstUnsound(recs: seq<Record>, k: nat, tid: nat, chk: Checksum) {
    k < |recs| && !Sound(recs, k, tid, chk) && forall i :: 0 <= i < k ==> Sound(recs, i, tid, chk)
  }

  /** Such a record is an error, not an end: a bad head always, a bad tail or an unknown tag if nothing is accepted yet. */
  predicate IsFatal(r: Record, accepted: nat) {
    r.tag.Head? || (accepted == 0 && (r.tag.Tail? || r.tag.Unknown?))
  }

  /** The error such a record is reported as. */
  ghost predicate Reports(r: Record, errno: Errno) {
    && (r.tag.Head? && r.tag.features != 0 ==> errno == EOPNOTSUPP)
    && (r.tag.Head? && r.tag.features == 0 ==> errno == EINVAL)
    && (r.tag.Tail? ==> errno == EFSBADCRC)
    && (r.tag.Unknown? ==> errno == ECANCELED)
  }

  /** The area opens with a head, and the first unsound record is an error. */
  ghost predicate ScanFails(recs: seq<Record>, accepted: nat, tid: nat, chk: Checksum) {
    recs != [] && recs[0].tag.Head? && exists k: nat :: FirstUnsound(recs, k, tid, chk) && IsFatal(recs[k], accepted)
  }

  // ----------------------------------------------------------- the invariant

  lemma {:induction false} SegmentStartBound(recs: seq<Record>, k: nat)
    requires k <= |recs|
    ensures SegmentStart(recs, k) <= k
    ensures forall j :: SegmentStart(recs, k) <= j < k ==> !recs[j].tag.Tail?
  {
    if k > 0 && !recs[k - 1].tag.Tail? {
      SegmentStartBound(recs, k - 1);
    }
  }

  /** What holds after `i` records have been scanned and none has stopped the scan. */
  ghost predicate ScanInv(recs: seq<Record>, i: nat, sc: Scan, tid: nat, chk: Checksum) {
    && i <= |recs| && sc.cur == i && sc.num <= i
    && (forall k :: 0 <= k < i ==> Sound(recs, k, tid, chk))
    && (sc.num > 0 ==> recs[sc.num - 1].tag.Tail?)
    && (forall k :: sc.num <= k < i ==> !recs[k].tag.Tail?)
    && SegmentStart(recs, i) <= i && sc.crc == Fold(chk, 0, recs[SegmentStart(recs, i)..i])
  }

  /** A scan step goes on exactly when the record is sound, and then keeps the invariant. */
  lemma ScanStep(recs: seq<Record>, i: nat, sc: Scan, tid: nat, chk: Checksum)
    requires i < |recs| && ScanInv(recs, i, sc, tid, chk)
    ensures var (next, v) := ScanOne(sc, recs[i], tid, chk);
      && (v == Continue <==> Sound(recs, i, tid, chk))
      && (v == Continue ==> ScanInv(recs, i + 1, next, tid, chk))
      && (v != Continue ==> next.num == sc.num)
      && (v.Failed? <==> v != Continue && IsFatal(recs[i], sc.num))
      && (v.Failed? ==> Reports(recs[i], v.errno))
  {
    var s := SegmentStart(recs, i);
    assert recs[s..i + 1][..|recs[s..i + 1]| - 1] == recs[s..i];
    assert Fold(chk, 0, recs[s..i + 1]) == chk(sc.crc, recs[i].bytes);
    assert SegmentStart(recs, i + 1) == if recs[i].tag.Tail? then i + 1 else s;
    assert recs[i + 1..i + 1] == [];
  }

  lemma {:induction false} ScanSeqLongest(recs: seq<Record>, i: nat, sc: Scan, tid: nat, chk: Checksum)
    requires recs != [] && recs[0].tag.Head? && ScanInv(recs, i, sc, tid, chk)
    ensures Longest(recs, ScanSeq(sc, recs[i..], tid, chk).0.num, tid, chk)
    ensures ScanSeq(sc, recs[i..], tid, chk).1 == Continue <==> forall k :: i <= k < |recs| ==> Sound(recs, k, tid, chk)
    ensures ScanSeq(sc, recs[i..], tid, chk).1.Failed? <==> ScanFails(recs, ScanSeq(sc, recs[i..], tid, chk).0.num, tid, chk)
    ensures forall k: nat :: ScanSeq(sc, recs[i..], tid, chk).1.Failed? && FirstUnsound(recs, k, tid, chk) ==>
              Reports(recs[k], ScanSeq(sc, recs[i..], tid, chk).1.errno)
    decreases |recs| - i
  {
    hide Fold, SegmentStart, Verified, Sound, Longest, IsFatal, Reports;
    if i == |recs| {
      assert recs[i..] == [];
      AcceptedHere(recs, i, sc, tid, chk);
      assert forall k: nat :: !FirstUnsound(recs, k, tid, chk);
    } else {
      assert recs[i..][0] == recs[i] && recs[i..][1..] == recs[i + 1..];
      ScanStep(recs, i, sc, tid, chk);
      var (next, v) := ScanOne(sc, recs[i], tid, chk);
      if v == Continue {
        ScanSeqLongest(recs, i + 1, next, tid, chk);
      } else {
        AcceptedHere(recs, i, sc, tid, chk);
        assert FirstUnsound(recs, i, tid, chk);
        assert forall k: nat :: FirstUnsound(recs, k, tid, chk) ==> k == i;
      }
    }
  }

  lemma AcceptedHere(recs: seq<Record>, i: nat, sc: Scan, tid: nat, chk: Checksum)
    requires recs != [] && recs[0].tag.Head? && ScanInv(recs, i, sc, tid, chk)
    requires i == |recs| || !Sound(recs, i, tid, chk)
    ensures Longest(recs, sc.num, tid, chk)
  {
    hide Sound, Fold, SegmentStart;
    forall m: nat | Accepted(recs, m, tid, chk) ensures m <= sc.num {
      if m > sc.num {
        assert false;
      }
    }
  }

  /** The scan accepts exactly the longest prefix that is sound and ends in a verified tail, and fails exactly at a fatal record. */
  lemma ScanAcceptsLongest(blocks: seq<seq<Record>>, tid: nat, chk: Checksum)
    requires forall b :: b in blocks ==> b != []
    ensures Longest(Flatten(blocks), ScanBlocks(blocks, tid, chk).0.num, tid, chk)
    ensures ScanBlocks(blocks, tid, chk).1.Failed? <==> ScanFails(Flatten(blocks), ScanBlocks(blocks, tid, chk).0.num, tid, chk)
    ensures forall k: nat :: ScanBlocks(blocks, tid, chk).1.Failed? && FirstUnsound(Flatten(blocks), k, tid, chk) ==>
              Reports(Flatten(blocks)[k], ScanBlocks(blocks, tid, chk).1.errno)
  {
    var recs := Flatten(blocks);
    if blocks != [] {
      assert blocks[0] in blocks;
      assert recs[0] == blocks[0][0];
      if recs[0].tag.Head? {
        assert recs[0..] == recs && recs[0..0] == [];
        ScanSeqLongest(recs, 0, Scan(0, 0, 0), tid, chk);
      }
    }
  }

  /** A head of another transaction behind a verified tail: two records are accepted, and still the scan fails. */
  lemma ForeignHeadWitness(tid: nat, other: nat, chk: Checksum)
    requires other != tid
    ensures var head, foreign := Record(Head(0, tid), []), Record(Head(0, other), []);
      var tail := Record(Tail(tid, chk(chk(0, []), [])), []);
      ScanBlocks([[head, tail, foreign]], tid, chk) == (Scan(2, 2, 0), Failed(EINVAL))
  {
    var head, foreign := Record(Head(0, tid), []), Record(Head(0, other), []);
    var tail := Record(Tail(tid, chk(chk(0, []), [])), []);
    var recs: seq<Record> := [head, tail, foreign];
    var blocks: seq<seq<Record>> := [recs];
    assert blocks[1..] == [] && recs + [] == recs;
    assert Flatten(blocks) == recs;
    assert recs[1..] == [tail, foreign] && recs[1..][1..] == [foreign];
    assert ScanSeq(Scan(2, 2, 0), [foreign], tid, chk) == (Scan(2, 2, 0), Failed(EINVAL));
    assert ScanSeq(Scan(0, 1, chk(0, [])), [tail, foreign], tid, chk) == (Scan(2, 2, 0), Failed(EINVAL));
  }

  /** Every replayable record is covered by the checksum of a verified tail at or after it. */
  lemma {:induction false} EveryTagCovered(recs: seq<Record>, n: nat, k: nat, tid: nat, chk: Checksum) returns (t: nat)
    requires Accepted(recs, n, tid, chk) && k < n
    ensures k <= t < n && Verified(recs, t, tid, chk) && SegmentStart(recs, t) <= k
    decreases n - k
  {
    if recs[k].tag.Tail? {
      t := k;
      assert Sound(recs, k, tid, chk);
      SegmentStartBound(recs, k);
    } else {
      t := EveryTagCovered(recs, n, k + 1, tid, chk);
      SegmentStartBound(recs, t);
      if SegmentStart(recs, t) == k + 1 {
        StartsAfterTail(recs, t);
        assert false;
      }
    }
  }

  lemma {:induction false} StartsAfterTail(recs: seq<Record>, t: nat)
    requires t <= |recs|
    ensures SegmentStart(recs, t) <= t
    ensures SegmentStart(recs, t) > 0 ==> recs[SegmentStart(recs, t) - 1].tag.Tail?
  {
    if t > 0 && !recs[t - 1].tag.Tail? {
      StartsAfterTail(recs, t - 1);
    }
  }
}
