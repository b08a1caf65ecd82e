/**
 The block bitmap over whole fast-commit runs: as long as no block belongs to two
 files, exactly the blocks in use are marked, and blocks no file ever had are left
 alone.
 */
module FcBitmap {
  import opened Extents
  import opened ExtentEditor
  import opened EditTheorem
  import opened EditExactness
  import opened ExtentListEditing
  import opened ExtentRebuild
  import opened FastCommit
  import opened FcReplay
  import opened FcRecovery

  ghost predicate Owns(m: Mapping, b: nat) {
    exists l :: l in m && m[l].pblk == b
  }

  ghost predicate InUse(v: map<nat, Mapping>, b: nat) {
    exists i :: i in v && Owns(v[i], b)
  }

  /** No block belongs to two files. */
  ghost predicate Unshared(v: map<nat, Mapping>) {
    forall i, j, b :: i in v && j in v && Owns(v[i], b) && Owns(v[j], b) ==> i == j
  }

  /** Every block of every file is marked. */
  ghost predicate Covered(fs: Fs) {
    forall b :: InUse(View(fs), b) ==> b in fs.marked
  }

  /** The blocks of a list are those its map owns. */
  lemma ListOwns(s: seq<Extent>, b: nat)
    requires ListState(s)
    ensures b in AllBlocks(s) <==> Owns(Den(s), b)
  {
    hide Den, AllBlocks, Maps;
    AllBlocksMapped(s, b);
    if LoneEmpty(s) {
      NothingMapped(s);
    } else {
      SpacedIsApart(s);
      if b in AllBlocks(s) {
        var l, u :| Maps(s, l, Target(b, u));
        DenIsMaps(s, l, Target(b, u));
      }
      if l :| l in Den(s) && Den(s)[l].pblk == b {
        DenIsMaps(s, l, Den(s)[l]);
        assert Den(s)[l] == Target(b, Den(s)[l].uninit);
      }
    }
  }

  /** What one step does to the bitmap: the file's blocks are exchanged. */
  ghost predicate BitsFollow(fs: Fs, next: Fs) {
    forall b :: b in next.marked <==> InUse(View(next), b) || (b in fs.marked && !InUse(View(fs), b))
  }

  lemma SameBits(fs: Fs, next: Fs)
    requires View(next) == View(fs) && next.marked == fs.marked && Covered(fs)
    ensures BitsFollow(fs, next)
  {
  }

  lemma ExchangedBits(fs: Fs, next: Fs, ino: nat, before: set<nat>, after: set<nat>)
    requires Covered(fs) && Unshared(View(fs)) && ino in View(fs) && ino in View(next)
    requires View(next) == View(fs)[ino := View(next)[ino]]
    requires next.marked == fs.marked - before + after
    requires forall b :: b in before <==> Owns(View(fs)[ino], b)
    requires forall b :: b in after <==> Owns(View(next)[ino], b)
    ensures BitsFollow(fs, next)
  {
    hide Owns, View;
    forall b: nat
      ensures b in next.marked <==> InUse(View(next), b) || (b in fs.marked && !InUse(View(fs), b))
    {
      assert b in before ==> InUse(View(fs), b);
      assert b in after ==> InUse(View(next), b);
      assert InUse(View(next), b) && b !in after ==> InUse(View(fs), b);
      assert InUse(View(fs), b) && b !in before ==> InUse(View(next), b) by {
        if InUse(View(fs), b) && b !in before {
          var i :| i in View(fs) && Owns(View(fs)[i], b);
          assert i != ino && View(next)[i] == View(fs)[i];
        }
      }
    }
  }

  /** A safe edit exchanges the blocks of its file. */
  lemma EditBits(fs: Fs, ino: nat, ex: Extent, del: bool, next: Fs)
    requires Inv(fs) && EditArg(ex, del) && EditStep(fs, ino, ex, del, true, next, true)
    requires FlushSafe(fs, ino) && EditWillBeSafe(fs, ino, ex, del) && Covered(fs) && Unshared(View(fs))
    ensures ino != 0 ==> BitsFollow(fs, next)
  {
    hide Den, Coalesce, Stored, NoLongRun, Storable, EditSafe, Edited, Cleared, AllBlocks, Covered, Unshared, BitsFollow;
    if ino != 0 {
      FlushKeepsView(fs, ino);
      var f := Flush(fs, ino);
      ReadKeepsView(f, ino);
      var g := Read(f, ino);
      EditAgrees(fs, ino, ex, del, next);
      BitmapExact(g.cache, ex, del, next.cache);
      assert next.marked == fs.marked - AllBlocks(g.cache) + AllBlocks(next.cache);
      ViewReplaced(g, next, ino);
      forall b: nat
        ensures b in AllBlocks(g.cache) <==> Owns(View(fs)[ino], b)
        ensures b in AllBlocks(next.cache) <==> Owns(View(next)[ino], b)
      {
        ListOwns(g.cache, b);
        ListOwns(next.cache, b);
      }
      ExchangedBits(fs, next, ino, AllBlocks(g.cache), AllBlocks(next.cache));
    }
  }

  /** One safe step of any tag with a real inode. */
  lemma StepBits(fs: Fs, tag: Tag, next: Fs)
    requires Inv(fs) && TagInRange(tag) && Step(fs, tag, next, true) && StepSafe(fs, tag)
    requires Covered(fs) && Unshared(View(fs)) && NamesInode(tag)
    ensures BitsFollow(fs, next) && Covered(next)
  {
    hide Covered, Unshared, BitsFollow, View, Inv, EditWillBeSafe, FlushSafe, Cleared, AllBlocks, Edited;
    StepAgrees(fs, tag, next);
    match tag {
      case AddRange(ino, ex, _) => EditBits(fs, ino, ex, false, next);
      case DelRange(ino, lblk, len) => EditBits(fs, ino, DelExtent(lblk, len), true, next);
      case _ => SameBits(fs, next);
    }
    StillCovered(fs, next);
  }

  /** A range tag names an inode; inode 0 is none. */
  predicate NamesInode(tag: Tag) {
    match tag
    case AddRange(ino, _, _) => ino != 0
    case DelRange(ino, _, _) => ino != 0
    case _ => true
  }

  lemma StillCovered(fs: Fs, next: Fs)
    requires BitsFollow(fs, next)
    ensures Covered(next)
  {
  }

  /** A block is in use at some moment up to `n`. */
  ghost predicate EverUsed(states: seq<Fs>, n: nat, b: nat)
    requires n < |states|
  {
    exists i :: 0 <= i <= n && InUse(View(states[i]), b)
  }

  /**
   Over a whole safe run in which no block belongs to two files: at every moment the
   marked blocks are exactly those in use, and those that were marked before and never
   used.
   */
  lemma {:induction false} RunBits(states: seq<Fs>, tags: seq<Tag>, n: nat)
    requires Run(states, tags) && Inv(states[0]) && Covered(states[0]) && n <= |tags|
    requires forall i :: 0 <= i < |tags| ==> TagInRange(tags[i]) && NamesInode(tags[i]) && StepSafe(states[i], tags[i])
    requires forall i :: 0 <= i <= |tags| ==> Unshared(View(states[i]))
    ensures Covered(states[n])
    ensures forall b :: b in states[n].marked <==> InUse(View(states[n]), b) || (b in states[0].marked && !EverUsed(states, n, b))
  {
    hide Step, StepSafe, Inv, View, Unshared, InUse;
    if n > 0 {
      RunBits(states, tags, n - 1);
      SafePrefixAgrees(states, tags, n - 1);
      assert Step(states[n - 1], tags[n - 1], states[n - 1 + 1], true);
      StepBits(states[n - 1], tags[n - 1], states[n]);
      forall b: nat
        ensures EverUsed(states, n, b) <==> EverUsed(states, n - 1, b) || InUse(View(states[n]), b)
      {
      }
    }
  }

  /** The same for the recovery of a harmless log, judged on immediate replay alone. */
  lemma RecoveredBitmap(recs: seq<Record>, n: nat, tid: nat, chk: Checksum, states: seq<Fs>, from: Fs, to: Fs)
    requires Longest(recs, n, tid, chk) && Replayed(states, TagsOf(recs[..n]), from, to, false)
    requires from.ino == 0 && Calm(from) && Covered(from) && HarmlessLog(View(from), TagsOf(recs[..n]))
    requires forall i :: 0 <= i < n ==> NamesInode(TagsOf(recs[..n])[i])
    requires forall i :: 0 <= i <= n ==> Unshared(Immediate(View(from), TagsOf(recs[..n])[..i]))
    ensures forall b :: b in to.marked <==>
      InUse(View(to), b) || (b in from.marked && !EverUsed(states, n, b))
  {
    hide Step, Sound, Harmless, Calm, Covered, Unshared, View, Inv, StepSafe, Immediate, EverUsed, InUse;
    var tags := TagsOf(recs[..n]);
    HarmlessLogIsSafe(states, tags, |tags|);
    CalmInv(from);
    forall i | 0 <= i <= |tags|
      ensures Unshared(View(states[i]))
    {
      SafePrefixAgrees(states, tags, i);
    }
    RunBits(states, tags, n);
  }
}
