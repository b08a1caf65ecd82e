/**
 Fast-commit recovery as the code runs it: the replay state updated per tag, the
 scan pass, the replay pass, and the driver that walks the fast-commit blocks.
 */
module FcRecovery {
  import opened Extents
  import opened ExtentEditor
  import opened EditTheorem
  import opened ExtentListEditing
  import opened ExtentRebuild
  import opened FastCommit
  import opened FcReplay

  function TagsOf(recs: seq<Record>): seq<Tag> {
    seq(|recs|, i requires 0 <= i < |recs| => recs[i].tag)
  }

  /** A run that ends with a step that reports an error. */
  ghost predicate StoppedRun(states: seq<Fs>, tags: seq<Tag>) {
    && 2 <= |states| <= |tags| + 1
    && Run(states[..|states| - 1], tags[..|states| - 2])
    && Step(states[|states| - 2], tags[|states| - 2], states[|states| - 1], false)
  }

  /** What replaying the tags of an accepted prefix can do: all of them, or up to a reported error. */
  ghost predicate Replayed(states: seq<Fs>, tags: seq<Tag>, from: Fs, to: Fs, failed: bool) {
    && |states| > 0 && states[0] == from && states[|states| - 1] == to
    && if failed then StoppedRun(states, tags) else Run(states, tags)
  }

  class FcContext {
    var numTags: nat
    var expectedOff: nat
    var curTag: nat
    var crc: nat
    var ino: nat
    var disk: map<nat, seq<Extent>>
    const list: ExtentList
    const bitmap: BlockBitmap

    ghost function State(): Fs
      reads this, list, bitmap
    {
      Fs(disk, ino, list.extents, bitmap.marked)
    }

    ghost function Scanned(): Scan
      reads this
    {
      Scan(numTags, curTag, crc)
    }

    constructor (disk: map<nat, seq<Extent>>, marked: set<nat>)
      ensures State() == Fs(disk, 0, [], bitmap.marked) && Scanned() == Scan(0, 0, 0) && expectedOff == 0 && bitmap.marked == marked
      ensures fresh(list) && fresh(bitmap)
    {
      numTags, expectedOff, curTag, crc := 0, 0, 0, 0;
      ino := 0;
      this.disk := disk;
      list := new ExtentList();
      bitmap := new BlockBitmap(marked);
    }

    // ------------------------------------------------------------- scanning

    /** `ext4_fc_replay_scan` on one block. */
    method ScanBlock(block: seq<Record>, off: nat, tid: nat, chk: Checksum) returns (v: Verdict)
      requires block != []
      modifies this, list
      ensures disk == old(disk)
      ensures old(expectedOff) == 0 && !block[0].tag.Head? ==> v == Stop && Scanned() == Scan(0, 0, 0) && expectedOff == 0
      ensures (old(expectedOff) != 0 || block[0].tag.Head?) && off != old(expectedOff) ==> v == Failed(EFSCORRUPTED)
      ensures (old(expectedOff) != 0 || block[0].tag.Head?) && off == old(expectedOff) ==>
        && expectedOff == off + 1
        && (Scanned(), v) == ScanSeq(if off == 0 then Scan(0, 0, 0) else old(Scanned()), block, tid, chk)
      ensures if old(expectedOff) == 0 then State() == Fs(disk, 0, [], bitmap.marked) else State() == old(State())
    {
      if expectedOff == 0 {
        numTags, expectedOff, curTag, crc, ino := 0, 0, 0, 0, 0;
        list.extents := [];
        if !block[0].tag.Head? {
          return Stop;
        }
      }
      if off != expectedOff {
        return Failed(EFSCORRUPTED);
      }
      expectedOff := expectedOff + 1;
      ghost var start := Scanned();
      v := Continue;
      var i := 0;
      assert block[0..] == block;
      while i < |block|
        invariant 0 <= i <= |block| && v == Continue
        invariant disk == old(disk) && expectedOff == off + 1
        invariant State() == if old(expectedOff) == 0 then Fs(disk, 0, [], bitmap.marked) else old(State())
        invariant ScanSeq(Scanned(), block[i..], tid, chk) == ScanSeq(start, block, tid, chk)
      {
        assert block[i..][0] == block[i] && block[i..][1..] == block[i + 1..];
        v := ScanTag(block[i], tid, chk);
        if v != Continue {
          return;
        }
        i := i + 1;
      }
    }

    /** The switch of the scan loop. */
    method ScanTag(r: Record, tid: nat, chk: Checksum) returns (v: Verdict)
      modifies this`numTags, this`curTag, this`crc
      ensures (Scanned(), v) == ScanOne(old(Scanned()), r, tid, chk)
    {
      v := Continue;
      match r.tag
      case Tail(t, c) =>
        curTag := curTag + 1;
        crc := chk(crc, r.bytes);
        if t == tid && c == crc {
          numTags := curTag;
        } else {
          v := if numTags != 0 then Stop else Failed(EFSBADCRC);
        }
        crc := 0;
      case Head(features, t) =>
        if features != 0 {
          v := Failed(EOPNOTSUPP);
        } else if t != tid {
          v := Failed(EINVAL);
        } else {
          curTag := curTag + 1;
          crc := chk(crc, r.bytes);
        }
      case Unknown(_) =>
        v := if numTags != 0 then Stop else Failed(ECANCELED);
      case AddRange(_, _, decodes) =>
        v := if decodes then Continue else Stop;
        curTag := curTag + 1;
        crc := chk(crc, r.bytes);
      case _ =>
        curTag := curTag + 1;
        crc := chk(crc, r.bytes);
    }

    /** The scan pass of the driver, from a cleared state. */
    method ScanPass(blocks: seq<seq<Record>>, tid: nat, chk: Checksum) returns (v: Verdict)
      requires forall b :: b in blocks ==> b != []
      requires expectedOff == 0 && Scanned() == Scan(0, 0, 0) && State() == Fs(disk, 0, [], bitmap.marked)
      modifies this, list
      ensures State() == old(State()) && (Scanned(), v) == ScanBlocks(blocks, tid, chk)
    {
      hide ScanSeq;
      v := Continue;
      assert blocks[0..] == blocks;
      for off := 0 to |blocks|
        invariant v == Continue && expectedOff == off && State() == old(State())
        invariant off == 0 ==> Scanned() == Scan(0, 0, 0)
        invariant off > 0 ==> blocks[0] != [] && blocks[0][0].tag.Head?
        invariant ScanSeq(Scanned(), Flatten(blocks[off..]), tid, chk) == ScanSeq(Scan(0, 0, 0), Flatten(blocks), tid, chk)
      {
        assert blocks[off] in blocks && blocks[0] in blocks;
        ghost var before := Scanned();
        v := ScanBlock(blocks[off], off, tid, chk);
        FlattenAt(blocks, off);
        ScanJoin(before, blocks[off], Flatten(blocks[off + 1..]), tid, chk);
        if v != Continue {
          return;
        }
      }
      assert blocks[|blocks|..] == [];
      ScanNothing(Scanned(), tid, chk);
    }

    // ------------------------------------------------------------- replaying

    /** `ext4_fc_flush_extents`, rewriting the tree through the splitter; the tree keeps the low bits of each piece. */
    method FlushExtents(next: nat)
      modifies this`disk, this`ino, list
      ensures State() == Flush(old(State()), next)
    {
      if ino == next || ino == 0 {
        return;
      }
      var tree := new RebuildList();
      tree.extents := list.extents;
      var written := tree.Rewrite();
      disk := disk[ino := StoredPieces(written)];
      ino := 0;
      list.extents := [];
    }

    /** `ext4_fc_read_extents`. */
    method ReadExtents(next: nat) returns (ok: bool)
      modifies this`ino, list
      ensures ok <==> CanRead(old(State()), next)
      ensures State() == if ok then Read(old(State()), next) else Fs(disk, next, [], bitmap.marked)
    {
      if ino == next {
        return true;
      }
      ino := next;
      if next !in disk {
        list.extents := [];
        return false;
      }
      list.extents := Coalesce(disk[next]);
      return true;
    }

    /** `ext4_fc_handle_add_extent` and `ext4_fc_handle_del_range`. */
    method HandleRange(next: nat, ex: Extent, del: bool, decodes: bool) returns (ok: bool)
      modifies this`disk, this`ino, list, bitmap
      ensures EditStep(old(State()), next, ex, del, decodes, State(), ok)
    {
      hide Edited, Coalesce, Stored, EditPromise;
      FlushExtents(next);
      ok := ReadExtents(next);
      if !ok {
        return;
      }
      if !decodes {
        return false;
      }
      list.Modify(bitmap, ex, del);
    }

    /** The switch of the replay loop. */
    method ReplayTag(tag: Tag) returns (ok: bool)
      modifies this`disk, this`ino, list, bitmap
      ensures Step(old(State()), tag, State(), ok)
    {
      ok := true;
      match tag
      case Creat(outcome) => ok := HandleEntry(0, outcome);
      case Link(outcome) => ok := HandleEntry(0, outcome);
      case Unlink(i, outcome) => ok := HandleEntry(i, outcome);
      case Inode(i, outcome) => ok := HandleEntry(i, outcome);
      case AddRange(i, ex, decodes) => ok := HandleRange(i, ex, false, decodes);
      case DelRange(i, lblk, len) => ok := HandleRange(i, DelExtent(lblk, len), true, true);
      case Tail(_, _) => FlushExtents(0);
      case Pad =>
      case Head(_, _) =>
      case Unknown(_) => ok := false;
    }

    /** The directory-entry and inode handlers, as far as they touch the cache. */
    method HandleEntry(keep: nat, outcome: Outcome) returns (ok: bool)
      modifies this`disk, this`ino, list
      ensures LibraryStep(old(State()), keep, outcome, State(), ok)
    {
      if outcome.FailsBeforeFlush? {
        return false;
      }
      FlushExtents(keep);
      ok := outcome.Done?;
    }

    /** The replay branch of `ext4_fc_replay` on one block. */
    method ReplayBlock(block: seq<Record>) returns (v: Verdict, ghost states: seq<Fs>)
      requires block != []
      modifies this`disk, this`ino, this`numTags, list, bitmap
      ensures var k := if old(numTags) < |block| then old(numTags) else |block|;
        && Replayed(states, TagsOf(block[..k]), old(State()), State(), v.Failed?)
        && (!v.Failed? ==> numTags == old(numTags) - k && v == if old(numTags) < |block| then Stop else Continue)
    {
      hide Step;
      states := [State()];
      v := Continue;
      ghost var k := if numTags < |block| then numTags else |block|;
      for i := 0 to |block|
        invariant i <= k && numTags == old(numTags) - i && v == Continue
        invariant Replayed(states, TagsOf(block[..i]), old(State()), State(), false)
      {
        if numTags == 0 {
          return Stop, states;
        }
        numTags := numTags - 1;
        ghost var before := states;
        var ok := ReplayTag(block[i].tag);
        states := states + [State()];
        if !ok {
          RunStops(before, TagsOf(block[..i]), TagsOf(block[..k]), State());
          return Failed(EIO), states;
        }
        RunGrows(before, TagsOf(block[..i]), TagsOf(block[..i + 1]), State());
      }
      assert block[..|block|] == block;
    }

    /** The replay pass of the driver: exactly the accepted tags, in order, or up to a reported error. */
    method ReplayPass(blocks: seq<seq<Record>>) returns (v: Verdict, ghost states: seq<Fs>)
      requires forall b :: b in blocks ==> b != []
      requires numTags <= |Flatten(blocks)|
      modifies this`disk, this`ino, this`numTags, list, bitmap
      ensures Replayed(states, TagsOf(Flatten(blocks)[..old(numTags)]), old(State()), State(), v.Failed?)
      ensures !v.Failed? ==> numTags == 0
    {
      hide Step, Replayed, TagsOf, JoinedRuns, Flatten;
      states := [State()];
      v := Continue;
      NothingDone(Flatten(blocks), numTags);
      ghost var recs, done := Flatten(blocks), 0;
      ghost var todo := TagsOf(recs[..numTags]);
      EmptyRun(State());
      for b := 0 to |blocks|
        invariant done <= |recs| && recs[done..] == Flatten(blocks[b..])
        invariant v == Continue && numTags == old(numTags) - done
        invariant Replayed(states, todo[..done], old(State()), State(), false)
      {
        assert blocks[b] in blocks;
        ghost var n, before, ran := numTags, State(), states;
        ghost var k := if n < |blocks[b]| then n else |blocks[b]|;
        FlattenAt(blocks, b);
        BlockTags(recs, done, blocks[b], Flatten(blocks[b + 1..]), k, old(numTags));
        ghost var more: seq<Fs>;
        v, more := ReplayBlock(blocks[b]);
        states := JoinedRuns(ran, more);
        if v.Failed? {
          RunsJoinStopped(ran, todo[..done], more, TagsOf(blocks[b][..k]), old(State()), before, State());
          StoppedLonger(states, todo[..done + k], todo, old(State()), State());
          return;
        }
        RunsJoin(ran, todo[..done], more, TagsOf(blocks[b][..k]), old(State()), before, State());
        done := done + k;
        if v == Stop {
          assert todo[..done] == todo;
          return;
        }
        assert recs[done..] == Flatten(blocks[b + 1..]) by {
          assert k == |blocks[b]|;
        }
      }
      FlattenNone(blocks[|blocks|..]);
      assert todo[..done] == todo;
    }

    /** Recovery of the fast-commit area. */
    method Recover(blocks: seq<seq<Record>>, tid: nat, chk: Checksum)
      returns (v: Verdict, accepted: nat, ghost states: seq<Fs>)
      requires forall b :: b in blocks ==> b != []
      requires expectedOff == 0 && Scanned() == Scan(0, 0, 0) && State() == Fs(disk, 0, [], bitmap.marked)
      modifies this, list, bitmap
      ensures Longest(Flatten(blocks), accepted, tid, chk)
      ensures ScanFails(Flatten(blocks), accepted, tid, chk) ==>
        v.Failed? && v == ScanBlocks(blocks, tid, chk).1 && State() == old(State())
      ensures !ScanFails(Flatten(blocks), accepted, tid, chk) ==>
        Replayed(states, TagsOf(Flatten(blocks)[..accepted]), old(State()), State(), v.Failed?)
      ensures !ScanFails(Flatten(blocks), accepted, tid, chk) ==>
        (v.Failed? <==> exists i :: 0 <= i < accepted <= |Flatten(blocks)| && !Replayable(old(disk).Keys, Flatten(blocks)[i].tag))
    {
      hide Step, ScanBlocks, Replayed, Sound, ScanFails, Replayable;
      v := ScanPass(blocks, tid, chk);
      accepted := numTags;
      ScanAcceptsLongest(blocks, tid, chk);
      states := [State()];
      if v.Failed? {
        return;
      }
      ghost var tags := TagsOf(Flatten(blocks)[..accepted]);
      v, states := ReplayPass(blocks);
      ReplayOutcome(states, tags, old(State()), State(), v.Failed?);
      assert forall i :: 0 <= i < accepted ==> tags[i] == Flatten(blocks)[i].tag;
    }
  }

  // --------------------------------------------------------------- lemmas

  lemma {:induction false} FlattenAt(blocks: seq<seq<Record>>, i: nat)
    requires i < |blocks|
    ensures Flatten(blocks[i..]) == blocks[i] + Flatten(blocks[i + 1..])
  {
    assert blocks[i..][0] == blocks[i] && blocks[i..][1..] == blocks[i + 1..];
  }

  lemma ScanNothing(sc: Scan, tid: nat, chk: Checksum)
    ensures ScanSeq(sc, [], tid, chk) == (sc, Continue)
  {
  }

  /** Scanning block by block is scanning the concatenation. */
  lemma {:induction false} ScanJoin(sc: Scan, a: seq<Record>, b: seq<Record>, tid: nat, chk: Checksum)
    ensures var (mid, v) := ScanSeq(sc, a, tid, chk);
      ScanSeq(sc, a + b, tid, chk) == if v == Continue then ScanSeq(mid, b, tid, chk) else (mid, v)
    decreases |a|
  {
    if a == [] {
      assert a + b == b;
    } else {
      assert (a + b)[0] == a[0] && (a + b)[1..] == a[1..] + b;
      ScanJoin(ScanOne(sc, a[0], tid, chk).0, a[1..], b, tid, chk);
    }
  }

  lemma FlattenNone(blocks: seq<seq<Record>>)
    requires blocks == []
    ensures Flatten(blocks) == []
  {
  }

  lemma NothingDone(recs: seq<Record>, num: nat)
    requires num <= |recs|
    ensures |TagsOf(recs[..num])| == num && TagsOf(recs[..num])[..0] == [] && recs[0..] == recs
  {
  }

  lemma EmptyRun(fs: Fs)
    ensures Replayed([fs], [], fs, fs, false)
  {
  }

  /** Every tag of a run could be replayed on the files there were at the start. */
  lemma {:induction false} RunReplayable(states: seq<Fs>, tags: seq<Tag>, n: nat)
    requires Run(states, tags) && states[0].ino == 0 && n <= |tags|
    ensures states[n].disk.Keys == states[0].disk.Keys && (states[n].ino != 0 ==> states[n].ino in states[n].disk)
    ensures forall i :: 0 <= i < n ==> Replayable(states[0].disk.Keys, tags[i])
  {
    hide Step, Replayable;
    if n > 0 {
      RunReplayable(states, tags, n - 1);
      assert Step(states[n - 1], tags[n - 1], states[n - 1 + 1], true);
      StepOutcome(states[n - 1], tags[n - 1], states[n], true);
    }
  }

  /** Replay reports an error exactly if some tag cannot be replayed, and stops at the first of them. */
  lemma ReplayOutcome(states: seq<Fs>, tags: seq<Tag>, from: Fs, to: Fs, failed: bool)
    requires Replayed(states, tags, from, to, failed) && from.ino == 0
    ensures failed <==> exists i :: 0 <= i < |tags| && !Replayable(from.disk.Keys, tags[i])
    ensures failed ==> 2 <= |states| <= |tags| + 1 && !Replayable(from.disk.Keys, tags[|states| - 2])
    ensures failed ==> forall i :: 0 <= i < |states| - 2 ==> Replayable(from.disk.Keys, tags[i])
  {
    hide Step, Replayable;
    if failed {
      var n := |states| - 2;
      var front, done := states[..n + 1], tags[..n];
      RunReplayable(front, done, n);
      StepOutcome(states[n], tags[n], states[n + 1], false);
      assert forall i :: 0 <= i < n ==> done[i] == tags[i];
    } else {
      RunReplayable(states, tags, |tags|);
    }
  }

  lemma RunGrows(states: seq<Fs>, tags: seq<Tag>, longer: seq<Tag>, next: Fs)
    requires Run(states, tags) && |longer| == |tags| + 1 && longer[..|tags|] == tags
    requires Step(states[|tags|], longer[|tags|], next, true)
    ensures Run(states + [next], longer)
  {
    hide Step;
    var all := states + [next];
    forall i | 0 <= i < |longer| ensures Step(all[i], longer[i], all[i + 1], true) {
      if i < |tags| {
        assert longer[..|tags|][i] == tags[i];
        assert Step(states[i], tags[i], states[i + 1], true);
      }
    }
  }

  lemma RunStops(states: seq<Fs>, tags: seq<Tag>, all: seq<Tag>, next: Fs)
    requires Run(states, tags) && |all| > |tags| && all[..|tags|] == tags
    requires Step(states[|tags|], all[|tags|], next, false)
    ensures StoppedRun(states + [next], all)
  {
    hide Step;
    assert (states + [next])[..|states|] == states;
  }

  function JoinedRuns(a: seq<Fs>, b: seq<Fs>): seq<Fs>
  {
    if b == [] then a else a + b[1..]
  }

  lemma RunsJoin(a: seq<Fs>, ta: seq<Tag>, b: seq<Fs>, tb: seq<Tag>, from: Fs, mid: Fs, to: Fs)
    requires Replayed(a, ta, from, mid, false) && Replayed(b, tb, mid, to, false)
    ensures Replayed(JoinedRuns(a, b), ta + tb, from, to, false)
  {
    hide Step;
    var s, t := JoinedRuns(a, b), ta + tb;
    forall i | 0 <= i < |t| ensures Step(s[i], t[i], s[i + 1], true) {
      if i < |ta| {
        assert Step(a[i], ta[i], a[i + 1], true);
      } else {
        assert Step(b[i - |ta|], tb[i - |ta|], b[i - |ta| + 1], true);
      }
    }
  }

  lemma RunsJoinStopped(a: seq<Fs>, ta: seq<Tag>, b: seq<Fs>, tb: seq<Tag>, from: Fs, mid: Fs, to: Fs)
    requires Replayed(a, ta, from, mid, false) && Replayed(b, tb, mid, to, true)
    ensures Replayed(JoinedRuns(a, b), ta + tb, from, to, true)
  {
    hide Step;
    var n := |b| - 2;
    var s, t := JoinedRuns(a, b), ta + tb;
    assert Run(b[..n + 1], tb[..n]);
    assert Replayed(b[..n + 1], tb[..n], mid, b[n], false);
    RunsJoin(a, ta, b[..n + 1], tb[..n], from, mid, b[n]);
    assert s[..|s| - 1] == JoinedRuns(a, b[..n + 1]);
    assert t[..|s| - 2] == ta + tb[..n];
    assert s[|s| - 2] == b[n] && s[|s| - 1] == b[n + 1];
  }

  lemma StoppedLonger(states: seq<Fs>, some: seq<Tag>, all: seq<Tag>, from: Fs, to: Fs)
    requires Replayed(states, some, from, to, true) && |some| <= |all| && all[..|some|] == some
    ensures Replayed(states, all, from, to, true)
  {
    hide Step;
    var n := |states| - 2;
    assert all[..n] == some[..n];
    assert all[n] == all[..|some|][n];
  }

  lemma BlockTags(recs: seq<Record>, done: nat, block: seq<Record>, rest: seq<Record>, k: nat, num: nat)
    requires done <= num <= |recs| && recs[done..] == block + rest
    requires k == if num - done < |block| then num - done else |block|
    ensures done + k <= num && TagsOf(recs[..num])[done..done + k] == TagsOf(block[..k])
    ensures TagsOf(recs[..num])[..done] + TagsOf(block[..k]) == TagsOf(recs[..num])[..done + k]
    ensures recs[done + k..] == (block + rest)[k..]
  {
    var todo := TagsOf(recs[..num]);
    assert recs[done..][k..] == recs[done + k..];
    forall i | 0 <= i < k ensures todo[done + i] == TagsOf(block[..k])[i] {
      assert recs[done..][i] == recs[done + i];
    }
  }

  // ------------------------------------------------------------- end to end

  /** A log whose edits are all harmless on the disk it meets. */
  ghost predicate HarmlessLog(m: map<nat, Mapping>, tags: seq<Tag>) {
    forall i :: 0 <= i < |tags| ==> TagInRange(tags[i]) && Harmless(Immediate(m, tags[..i]), tags[i])
  }

  /** Recovery that reports no error has put on disk exactly the immediate replay of the accepted tags. */
  lemma RecoveredDisk(recs: seq<Record>, n: nat, tid: nat, chk: Checksum, states: seq<Fs>, from: Fs, to: Fs)
    requires Longest(recs, n, tid, chk) && Replayed(states, TagsOf(recs[..n]), from, to, false)
    requires from.ino == 0 && Calm(from) && HarmlessLog(View(from), TagsOf(recs[..n]))
    ensures to.ino == 0 && OnDisk(to) == Immediate(OnDisk(from), TagsOf(recs[..n]))
  {
    hide Step, Sound, Harmless, Calm;
    var tags := TagsOf(recs[..n]);
    HarmlessLogIsSafe(states, tags, |tags|);
    CalmInv(from);
    assert tags != [] ==> tags[|tags| - 1].Tail?;
    CompletedRunOnDisk(states, tags);
  }
}
