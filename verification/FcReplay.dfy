/**
 The replay phase as a state machine: tags are applied through a write-back
 cache holding one inode's extent list.  The meaning is immediate replay of each
 tag on a map from inodes to block maps.
 */
module FcReplay {
  import opened Machine
  import opened Extents
  import opened ExtentEditor
  import opened EditTheorem
  import opened EditExactness
  import opened ExtentRebuild
  import opened RebuildTheorem
  import opened SplitTheorem
  import opened LeafFormat
  import opened FastCommit

  /** The leaf extents on disk per inode, the cached list, and the block bitmap; inode 0 means nothing is cached. */
  datatype Fs = Fs(disk: map<nat, seq<Extent>>, ino: nat, cache: seq<Extent>, marked: set<nat>)

  // ------------------------------------------------------------- the steps

  function StoredPieces(w: seq<Extent>): (r: seq<Extent>)
    ensures |r| == |w| && forall i :: 0 <= i < |w| ==> r[i] == Kept(w[i])
  {
    if w == [] then [] else StoredPieces(w[..|w| - 1]) + [Kept(w[|w| - 1])]
  }

  /** What writing a list puts on disk, as it is read again. */
  function Stored(s: seq<Extent>): seq<Extent> {
    StoredPieces(SplitAll(s))
  }

  /** `ext4_fc_flush_extents`. */
  function Flush(fs: Fs, ino: nat): Fs {
    if fs.ino == ino || fs.ino == 0 then fs
    else Fs(fs.disk[fs.ino := Stored(fs.cache)], 0, [], fs.marked)
  }

  predicate CanRead(fs: Fs, ino: nat) {
    fs.ino == ino || ino in fs.disk
  }

  /** `ext4_fc_read_extents` when it succeeds. */
  function Read(fs: Fs, ino: nat): Fs
    requires CanRead(fs, ino)
  {
    if fs.ino == ino then fs else Fs(fs.disk, ino, Coalesce(fs.disk[ino]), fs.marked)
  }

  ghost predicate EditStep(fs: Fs, ino: nat, ex: Extent, del: bool, decodes: bool, next: Fs, ok: bool) {
    var f := Flush(fs, ino);
    if !CanRead(f, ino) then !ok && next == Fs(f.disk, ino, [], f.marked)
    else if !decodes then !ok && next == Read(f, ino)
    else
      && ok && next == Read(f, ino).(cache := next.cache, marked := next.marked)
      && Edited(Read(f, ino).cache, ex, del, next.cache)
      && next.marked == f.marked - Cleared(Read(f, ino).cache, ex) + AllBlocks(next.cache)
  }

  ghost predicate LibraryStep(fs: Fs, keep: nat, outcome: Outcome, next: Fs, ok: bool) {
    && (ok <==> outcome.Done?)
    && next == if outcome.FailsBeforeFlush? then fs else Flush(fs, keep)
  }

  function DelExtent(lblk: nat, len: nat): Extent {
    Extent(lblk, 0, len, false)
  }

  /** Replaying one tag takes `fs` to `next`; `ok` is false when the handler reports an error. */
  ghost predicate Step(fs: Fs, tag: Tag, next: Fs, ok: bool) {
    match tag
    case AddRange(ino, ex, decodes) => EditStep(fs, ino, ex, false, decodes, next, ok)
    case DelRange(ino, lblk, len) => EditStep(fs, ino, DelExtent(lblk, len), true, true, next, ok)
    case Creat(outcome) => LibraryStep(fs, 0, outcome, next, ok)
    case Link(outcome) => LibraryStep(fs, 0, outcome, next, ok)
    case Unlink(ino, outcome) => LibraryStep(fs, ino, outcome, next, ok)
    case Inode(ino, outcome) => LibraryStep(fs, ino, outcome, next, ok)
    case Tail(_, _) => ok && next == Flush(fs, 0)
    case Pad => ok && next == fs
    case Head(_, _) => ok && next == fs
    case Unknown(_) => !ok && next == fs
  }

  // ----------------------------------------------------------- the meaning

  /** What the file system means while the cache may be ahead of the disk. */
  ghost function View(fs: Fs): map<nat, Mapping> {
    map i | i in fs.disk :: if i == fs.ino then Den(fs.cache) else Den(fs.disk[i])
  }

  /** What the disk alone means. */
  ghost function OnDisk(fs: Fs): map<nat, Mapping> {
    map i | i in fs.disk :: Den(fs.disk[i])
  }

  ghost function ApplyTag(m: map<nat, Mapping>, tag: Tag): map<nat, Mapping> {
    match tag
    case AddRange(ino, ex, _) => if ino in m then m[ino := Without(m[ino], ex.lblk, ex.len) + ExtentMap(ex)] else m
    case DelRange(ino, lblk, len) => if ino in m then m[ino := Without(m[ino], lblk, len)] else m
    case _ => m
  }

  /** Immediate replay, with no cache. */
  ghost function Immediate(m: map<nat, Mapping>, tags: seq<Tag>): map<nat, Mapping> {
    if tags == [] then m else ApplyTag(Immediate(m, tags[..|tags| - 1]), tags[|tags| - 1])
  }

  // ------------------------------------------------------------ invariants

  /** Files on disk can be read (no run of 2^32 blocks), and the cached list is one an edit can meet. */
  ghost predicate Inv(fs: Fs) {
    && 0 !in fs.disk
    && (forall i :: i in fs.disk ==> WellFormed(fs.disk[i]) && NoLongRun(Den(fs.disk[i])))
    && (fs.ino != 0 ==> fs.ino in fs.disk && ListState(fs.cache) && NoLongRun(Den(fs.cache)))
  }

  /** The widths of the fields a tag is decoded from. */
  predicate TagInRange(tag: Tag) {
    match tag
    case AddRange(_, ex, _) => EditArg(ex, false)
    case DelRange(_, lblk, len) => lblk < TWO32 && len < TWO32
    case _ => true
  }

  /** Every piece that is written starts at a 32-bit block and a 48-bit physical block. */
  ghost predicate Storable(s: seq<Extent>) {
    forall x :: x in SplitAll(s) ==> x.lblk < TWO32 && x.pblk < TWO48
  }

  /** The flush that comes first, if any, can be stored. */
  ghost predicate FlushSafe(fs: Fs, ino: nat) {
    fs.ino == ino || fs.ino == 0 || Storable(fs.cache)
  }

  /** The step's flush can be stored, and its edit, if it has one, is safe on the list it will meet. */
  ghost predicate StepSafe(fs: Fs, tag: Tag) {
    match tag
    case AddRange(ino, ex, _) => FlushSafe(fs, ino) && EditWillBeSafe(fs, ino, ex, false)
    case DelRange(ino, lblk, len) => FlushSafe(fs, ino) && EditWillBeSafe(fs, ino, DelExtent(lblk, len), true)
    case Creat(_) => FlushSafe(fs, 0)
    case Link(_) => FlushSafe(fs, 0)
    case Unlink(ino, _) => FlushSafe(fs, ino)
    case Inode(ino, _) => FlushSafe(fs, ino)
    case Tail(_, _) => FlushSafe(fs, 0)
    case _ => true
  }

  ghost predicate EditWillBeSafe(fs: Fs, ino: nat, ex: Extent, del: bool) {
    var f := Flush(fs, ino);
    ino != 0 && CanRead(f, ino) ==> EditSafe(Read(f, ino).cache, ex, del)
  }

  // ------------------------------------------------------- reading and writing

  /** Every piece's length survives the tree, so writing a list keeps its map exactly when the block numbers of every piece do. */
  lemma StoredExact(s: seq<Extent>)
    requires ListState(s)
    ensures Den(Stored(s)) == Den(s) <==> Storable(s)
    ensures Storable(s) ==> WellFormed(Stored(s))
  {
    hide Den, SplitAll, StoredPieces, Kept, LenKept;
    WriteKeepsMap(s);
    var w, d := SplitAll(s), Stored(s);
    PiecesKept(w);
    if Storable(s) {
      assert forall i :: 0 <= i < |w| ==> w[i] in w && d[i] == w[i];
      assert d == w;
    } else if x :| x in w && x.lblk >= TWO32 {
      HighBlockLost(w, x);
      MappedTo(w, x, x.lblk);
      DenDomain(d, x.lblk);
    } else {
      var x :| x in w && x.pblk >= TWO48;
      HighTargetLost(w, x);
      MappedTo(w, x, x.lblk);
    }
  }

  /** Of pieces the tree can hold only the block numbers can change. */
  lemma PiecesKept(w: seq<Extent>)
    requires forall x :: x in w ==> x.len > 0 && LenKept(x)
    ensures forall i :: 0 <= i < |w| ==> StoredPieces(w)[i] == Extent(U32(w[i].lblk), U48(w[i].pblk), w[i].len, w[i].uninit)
    ensures forall x :: x in w && x.lblk < TWO32 && x.pblk < TWO48 ==> Kept(x) == x
  {
    hide StoredPieces, U32, U48, U16;
    assert forall i :: 0 <= i < |w| ==> w[i] in w;
  }

  lemma HighBlockLost(w: seq<Extent>, x: Extent)
    requires WellFormed(w) && x in w && x.lblk >= TWO32 && forall y :: y in w ==> LenKept(y)
    ensures !Mapped(StoredPieces(w), x.lblk)
  {
    hide StoredPieces, U32, U48, Kept, LenKept, WellFormed, Holds;
    Nonempty(w);
    PiecesKept(w);
    var d := StoredPieces(w);
    var k :| 0 <= k < |w| && w[k] == x;
    forall y | y in d ensures !Holds(y, x.lblk) {
      var i :| 0 <= i < |d| && d[i] == y;
      PieceMisses(w, i, k, y);
    }
  }

  lemma Nonempty(w: seq<Extent>)
    requires WellFormed(w)
    ensures forall y :: y in w ==> y.len > 0
  {
  }

  lemma PieceMisses(w: seq<Extent>, i: nat, k: nat, y: Extent)
    requires WellFormed(w) && i < |w| && k < |w| && w[k].lblk >= TWO32
    requires y.lblk == U32(w[i].lblk) && y.len == w[i].len
    ensures !Holds(y, w[k].lblk)
  {
    hide U32;
    assert w[i] in w && w[k] in w;
    assert i < k ==> w[i].lblk + w[i].len <= w[k].lblk;
    assert k < i ==> w[k].lblk + w[k].len <= w[i].lblk;
  }

  lemma HighTargetLost(w: seq<Extent>, x: Extent)
    requires WellFormed(w) && x in w && x.pblk >= TWO48 && forall y :: y in w ==> y.lblk < TWO32 && LenKept(y)
    ensures x.lblk in Den(StoredPieces(w)) ==> Den(StoredPieces(w))[x.lblk].pblk < x.pblk
  {
    hide Den, StoredPieces, U32, U48, Kept, LenKept;
    PiecesKept(w);
    var d := StoredPieces(w);
    var k :| 0 <= k < |w| && w[k] == x;
    assert forall i :: 0 <= i < |w| ==> w[i] in w && d[i].lblk == w[i].lblk && d[i].len == w[i].len;
    assert d[k] in d && Holds(d[k], x.lblk);
    MappedTo(d, d[k], x.lblk);
  }

  /** Two blocks past the last 32-bit one: the stored extent starts at block 1. */
  lemma StoredWraps(e: Extent)
    requires e.lblk == TWO32 + 1 && 0 < e.len <= 1000 && !e.uninit && e.pblk < TWO48
    ensures Stored([e]) == [e.(lblk := 1)]
  {
    LenKeptExact(e);
    hide Kept;
    assert [e] == [e] + [];
    SplitCons(e, []);
    SplitUnfold(e);
    SplitAllEmpty();
    hide SplitAll, StoredPieces;
    assert SplitAll([e]) == [e];
    PiecesKept([e]);
  }

  /** Flushing keeps what can be seen exactly when the cached list can be stored. */
  lemma FlushKeepsView(fs: Fs, ino: nat)
    requires Inv(fs)
    ensures View(Flush(fs, ino)) == View(fs) <==> FlushSafe(fs, ino)
    ensures FlushSafe(fs, ino) ==> Inv(Flush(fs, ino))
    ensures forall i :: i in View(fs) && i != fs.ino ==> i in View(Flush(fs, ino)) && View(Flush(fs, ino))[i] == View(fs)[i]
    ensures View(Flush(fs, ino)).Keys == View(fs).Keys
  {
    hide Den, Stored, NoLongRun, Storable;
    var f := Flush(fs, ino);
    if f != fs {
      StoredExact(fs.cache);
      assert f.disk.Keys == fs.disk.Keys;
      assert 0 !in f.disk;
      assert View(f)[fs.ino] == Den(Stored(fs.cache)) && View(fs)[fs.ino] == Den(fs.cache);
    }
  }

  /** The pieces handed to the tree denote the cached list, even a lone empty extent. */
  lemma WriteKeepsMap(s: seq<Extent>)
    requires ListState(s)
    ensures WellFormed(SplitAll(s)) && Den(SplitAll(s)) == Den(s)
    ensures forall x :: x in SplitAll(s) ==> LenKept(x)
  {
    if LoneEmpty(s) {
      assert s[1..] == [];
      assert Split(s[0]) == [];
      assert SplitAll(s) == [];
      NothingMapped(s);
    } else {
      SplitAllDenotes(s);
      SameDen(s, SplitAll(s));
    }
  }

  lemma ReadKeepsView(fs: Fs, ino: nat)
    requires Inv(fs) && CanRead(fs, ino) && (fs.ino == ino || fs.ino == 0)
    ensures Inv(Read(fs, ino)) && View(Read(fs, ino)) == View(fs)
  {
    hide Den, Coalesce, NoLongRun;
    if fs.ino != ino {
      CoalesceWellFormed(fs.disk[ino]);
    }
  }

  /** Once nothing is cached, the disk is the whole meaning. */
  lemma NothingCached(fs: Fs)
    requires Inv(fs) && fs.ino == 0
    ensures View(fs) == OnDisk(fs)
  {
  }

  /** What editing inode `ino` at once would make of the view. */
  ghost function EditedView(m: map<nat, Mapping>, ino: nat, ex: Extent, del: bool): map<nat, Mapping> {
    if ino in m then m[ino := Apply(m[ino], ex, del)] else m
  }

  /** An edit through the cache means immediate replay exactly when flush and edit are safe. */
  lemma EditAgrees(fs: Fs, ino: nat, ex: Extent, del: bool, next: Fs)
    requires Inv(fs) && EditArg(ex, del) && EditStep(fs, ino, ex, del, true, next, true)
    ensures View(next) == EditedView(View(fs), ino, ex, del) <==> FlushSafe(fs, ino) && EditWillBeSafe(fs, ino, ex, del)
    ensures FlushSafe(fs, ino) && EditWillBeSafe(fs, ino, ex, del) ==> Inv(next)
  {
    hide Edited, Apply, Den, Coalesce, Stored, NoLongRun, Storable, EditSafe;
    FlushKeepsView(fs, ino);
    var f := Flush(fs, ino);
    if FlushSafe(fs, ino) {
      CachedEditAgrees(f, ino, ex, del, next);
    } else {
      assert View(f)[fs.ino] != View(fs)[fs.ino];
      assert View(next)[fs.ino] == View(f)[fs.ino];
    }
  }

  /** The edit once the cache is free or holds the inode. */
  lemma CachedEditAgrees(f: Fs, ino: nat, ex: Extent, del: bool, next: Fs)
    requires Inv(f) && EditArg(ex, del) && CanRead(f, ino) && (f.ino == ino || f.ino == 0)
    requires next == Read(f, ino).(cache := next.cache, marked := next.marked) && Edited(Read(f, ino).cache, ex, del, next.cache)
    ensures View(next) == EditedView(View(f), ino, ex, del) <==> (ino == 0 || EditSafe(Read(f, ino).cache, ex, del))
    ensures ino == 0 || EditSafe(Read(f, ino).cache, ex, del) ==> Inv(next)
  {
    hide Edited, Apply, Den, Coalesce, NoLongRun, EditSafe, WellFormed, ListState;
    ReadKeepsView(f, ino);
    var g := Read(f, ino);
    if ino == 0 {
      assert View(next) == View(g);
    } else {
      EditMeaning(g.cache, ex, del, next.cache);
      SafeHasNoLongRun(g.cache, ex, del);
      ViewReplaced(g, next, ino);
      assert EditedView(View(f), ino, ex, del) == View(g)[ino := Apply(Den(g.cache), ex, del)];
      assert EditedView(View(f), ino, ex, del)[ino] == Apply(Den(g.cache), ex, del);
      assert View(next)[ino] == Den(next.cache);
    }
  }

  /** Changing the cached list changes one inode's map. */
  lemma ViewReplaced(g: Fs, next: Fs, ino: nat)
    requires g.ino == ino && ino in g.disk && next == g.(cache := next.cache, marked := next.marked)
    ensures ino in View(g) && View(g)[ino] == Den(g.cache) && View(next) == View(g)[ino := Den(next.cache)]
  {
    hide Den;
  }

  lemma SafeHasNoLongRun(s: seq<Extent>, ex: Extent, del: bool)
    ensures EditSafe(s, ex, del) ==> NoLongRun(Apply(Den(s), ex, del))
  {
  }

  /** A range tag's meaning in the terms of the editor. */
  lemma TagEdits(m: map<nat, Mapping>, tag: Tag)
    ensures tag.AddRange? ==> ApplyTag(m, tag) == EditedView(m, tag.ino, tag.ex, false)
    ensures tag.DelRange? ==> ApplyTag(m, tag) == EditedView(m, tag.ino, DelExtent(tag.lblk, tag.len), true)
  {
    hide Without, ExtentMap;
    if tag.DelRange? && tag.ino in m {
      DeleteIsWithout(m[tag.ino], tag.lblk, tag.len);
    }
  }

  lemma DeleteIsWithout(m: Mapping, lblk: nat, len: nat)
    ensures Apply(m, DelExtent(lblk, len), true) == Without(m, lblk, len)
  {
  }

  /** One successful step, in range: it means immediate replay of the tag if and only if it is safe. */
  lemma StepAgrees(fs: Fs, tag: Tag, next: Fs)
    requires Inv(fs) && TagInRange(tag) && Step(fs, tag, next, true)
    ensures View(next) == ApplyTag(View(fs), tag) <==> StepSafe(fs, tag)
    ensures StepSafe(fs, tag) ==> Inv(next)
  {
    hide FlushSafe, EditWillBeSafe, Inv, Flush, View, Apply, Edited, Without, ExtentMap;
    TagEdits(View(fs), tag);
    match tag
    case AddRange(ino, ex, _) => EditAgrees(fs, ino, ex, false, next);
    case DelRange(ino, lblk, len) => EditAgrees(fs, ino, DelExtent(lblk, len), true, next);
    case Creat(_) => FlushKeepsView(fs, 0);
    case Link(_) => FlushKeepsView(fs, 0);
    case Unlink(ino, _) => FlushKeepsView(fs, ino);
    case Inode(ino, _) => FlushKeepsView(fs, ino);
    case Tail(_, _) => FlushKeepsView(fs, 0);
    case Pad =>
    case Head(_, _) =>
    case Unknown(_) =>
  }

  /** The tags that can be replayed on a file system with these files; range tags on inode 0 find an empty list cached. */
  predicate Replayable(files: set<nat>, tag: Tag) {
    match tag
    case AddRange(ino, _, decodes) => decodes && (ino == 0 || ino in files)
    case DelRange(ino, _, _) => ino == 0 || ino in files
    case Creat(outcome) => outcome.Done?
    case Link(outcome) => outcome.Done?
    case Unlink(_, outcome) => outcome.Done?
    case Inode(_, outcome) => outcome.Done?
    case Unknown(_) => false
    case _ => true
  }

  /** A step succeeds exactly on such a tag, whatever is cached, and makes or drops no file. */
  lemma StepOutcome(fs: Fs, tag: Tag, next: Fs, ok: bool)
    requires Step(fs, tag, next, ok) && (fs.ino != 0 ==> fs.ino in fs.disk)
    ensures ok <==> Replayable(fs.disk.Keys, tag)
    ensures ok ==> next.disk.Keys == fs.disk.Keys && (next.ino != 0 ==> next.ino in next.disk)
  {
    hide Stored, Coalesce, Edited, Cleared, AllBlocks;
  }

  /** The inode a directory-entry or inode tag leaves in the cache. */
  function KeptBy(tag: Tag): nat {
    if tag.Unlink? || tag.Inode? then tag.ino else 0
  }

  /** Where the library takes over, the disk already has everything replayed so far, but for the one inode the tag may leave cached. */
  lemma LibrarySeesDisk(fs: Fs, tag: Tag, next: Fs)
    requires Inv(fs) && Step(fs, tag, next, true) && StepSafe(fs, tag)
    requires tag.Creat? || tag.Link? || tag.Unlink? || tag.Inode? || tag.Tail?
    ensures forall i :: i in View(fs) && i != KeptBy(tag) ==> i in OnDisk(next) && OnDisk(next)[i] == View(fs)[i]
  {
    hide Den, Stored, NoLongRun, Storable, FlushSafe;
    var keep := KeptBy(tag);
    FlushKeepsView(fs, keep);
    assert next == Flush(fs, keep);
    assert View(next) == View(fs);
    assert next.ino == 0 || next.ino == keep;
  }

  // -------------------------------------------------------------- whole runs

  /** `states` is a run that replays all of `tags` without an error. */
  ghost predicate Run(states: seq<Fs>, tags: seq<Tag>) {
    |states| == |tags| + 1 && forall i :: 0 <= i < |tags| ==> Step(states[i], tags[i], states[i + 1], true)
  }

  ghost predicate AgreesAt(states: seq<Fs>, tags: seq<Tag>, i: nat)
    requires i < |states| && i <= |tags|
  {
    View(states[i]) == Immediate(View(states[0]), tags[..i])
  }

  lemma ImmediateStep(m: map<nat, Mapping>, tags: seq<Tag>, i: nat)
    requires i < |tags|
    ensures Immediate(m, tags[..i + 1]) == ApplyTag(Immediate(m, tags[..i]), tags[i])
  {
    assert tags[..i + 1][..i] == tags[..i];
  }

  /** As long as the steps so far were safe, cache and disk together equal immediate replay. */
  lemma {:induction false} SafePrefixAgrees(states: seq<Fs>, tags: seq<Tag>, n: nat)
    requires Run(states, tags) && Inv(states[0]) && n <= |tags|
    requires forall i :: 0 <= i < n ==> TagInRange(tags[i]) && StepSafe(states[i], tags[i])
    ensures Inv(states[n]) && AgreesAt(states, tags, n)
  {
    hide Step, StepSafe, Inv, ApplyTag;
    if n > 0 {
      SafePrefixAgrees(states, tags, n - 1);
      assert Step(states[n - 1], tags[n - 1], states[n - 1 + 1], true);
      StepAgrees(states[n - 1], tags[n - 1], states[n]);
      ImmediateStep(View(states[0]), tags, n - 1);
    }
  }

  /** Over a whole run the cache is invisible at every moment if and only if every edit was safe when it came. */
  lemma {:induction false} RunAgrees(states: seq<Fs>, tags: seq<Tag>)
    requires Run(states, tags) && Inv(states[0])
    requires forall i :: 0 <= i < |tags| ==> TagInRange(tags[i])
    ensures (forall i :: 0 <= i <= |tags| ==> AgreesAt(states, tags, i)) <==>
            (forall i :: 0 <= i < |tags| ==> StepSafe(states[i], tags[i]))
  {
    hide Step, StepSafe, Inv, ApplyTag;
    if forall i :: 0 <= i < |tags| ==> StepSafe(states[i], tags[i]) {
      forall i | 0 <= i <= |tags| ensures AgreesAt(states, tags, i) {
        SafePrefixAgrees(states, tags, i);
      }
    } else {
      var k := FirstUnsafe(states, tags);
      SafePrefixAgrees(states, tags, k);
      assert Step(states[k], tags[k], states[k + 1], true);
      StepAgrees(states[k], tags[k], states[k + 1]);
      ImmediateStep(View(states[0]), tags, k);
      assert !AgreesAt(states, tags, k + 1);
    }
  }

  lemma FirstUnsafe(states: seq<Fs>, tags: seq<Tag>) returns (k: nat)
    requires |states| == |tags| + 1 && exists i :: 0 <= i < |tags| && !StepSafe(states[i], tags[i])
    ensures k < |tags| && !StepSafe(states[k], tags[k])
    ensures forall i :: 0 <= i < k ==> StepSafe(states[i], tags[i])
  {
    hide StepSafe;
    k := 0;
    while StepSafe(states[k], tags[k])
      invariant k < |tags|
      invariant forall i :: 0 <= i < k ==> StepSafe(states[i], tags[i])
      decreases |tags| - k
    {
      k := k + 1;
    }
  }

  /** A safe run of an accepted prefix leaves nothing in the cache: the disk itself is immediate replay. */
  lemma CompletedRunOnDisk(states: seq<Fs>, tags: seq<Tag>)
    requires Run(states, tags) && Inv(states[0]) && states[0].ino == 0
    requires forall i :: 0 <= i < |tags| ==> TagInRange(tags[i]) && StepSafe(states[i], tags[i])
    requires tags != [] ==> tags[|tags| - 1].Tail?
    ensures states[|tags|].ino == 0
    ensures OnDisk(states[|tags|]) == Immediate(OnDisk(states[0]), tags)
  {
    hide StepSafe, Inv;
    var n := |tags|;
    SafePrefixAgrees(states, tags, n);
    if n > 0 {
      assert Step(states[n - 1], tags[n - 1], states[n - 1 + 1], true);
    }
    NothingCached(states[0]);
    NothingCached(states[n]);
    assert tags[..n] == tags;
  }

  // ------------------------------------ a condition on the log and the disk

  /** Every mapped block lies below 2^31, and every physical block has 48 bits. */
  ghost predicate Low(m: Mapping) {
    forall l :: l in m ==> l < TWO31 && m[l].pblk < TWO48
  }

  /** A tag that is harmless on the map it will meet: non-empty, low, and not a delete that empties a file. */
  ghost predicate Harmless(m: map<nat, Mapping>, tag: Tag) {
    match tag
    case AddRange(ino, ex, _) => ex.len > 0 && ex.lblk + ex.len <= TWO31 && ex.pblk + ex.len <= TWO48
    case DelRange(ino, lblk, len) =>
      len > 0 && (ino in m && m[ino] != map[] ==> Without(m[ino], lblk, len) != map[])
    case _ => true
  }

  /** The cached list has no empty extent, and every file is low. */
  ghost predicate Calm(fs: Fs) {
    Inv(fs) && (fs.ino != 0 ==> WellFormed(fs.cache)) && forall i :: i in View(fs) ==> Low(View(fs)[i])
  }

  lemma LowApply(m: Mapping, ex: Extent, del: bool)
    requires Low(m) && (!del ==> ex.lblk + ex.len <= TWO31 && ex.pblk + ex.len <= TWO48)
    ensures Low(Apply(m, ex, del)) && NoLongRun(Apply(m, ex, del))
  {
    hide NoLongRun;
    LowHasNoLongRun(Apply(m, ex, del));
  }

  lemma LowCut(s: seq<Extent>, ex: Extent)
    requires WellFormed(s) && Low(Den(s)) && ex.len > 0 && ex.lblk < TWO32 && ex.len < TWO32
    ensures CutSafe(s, ex)
  {
    hide Den;
    if |s| > 0 {
      assert s[0] in s;
    }
    forall e | e in s ensures !FarCut(e, ex) {
      if FarCut(e, ex) {
        FarIsHigh(s, e, ex);
        assert false;
      }
    }
  }

  lemma FarIsHigh(s: seq<Extent>, e: Extent, ex: Extent)
    requires WellFormed(s) && e in s && FarCut(e, ex) && ex.len > 0 && ex.lblk < TWO32 && ex.len < TWO32
    ensures !Low(Den(s))
  {
    hide Den;
    TrimFrontFar(e, ex);
    MappedTo(s, e, ex.lblk + ex.len);
  }

  lemma LowStorable(s: seq<Extent>)
    requires WellFormed(s) && Low(Den(s))
    ensures Storable(s)
  {
    hide Den, SplitAll;
    WriteKeepsMap(s);
    forall x | x in SplitAll(s) ensures x.lblk < TWO32 && x.pblk < TWO48 {
      MappedTo(SplitAll(s), x, x.lblk);
    }
  }

  lemma CalmFlush(fs: Fs, ino: nat)
    requires Calm(fs)
    ensures FlushSafe(fs, ino) && Calm(Flush(fs, ino))
  {
    hide Den, Storable, Stored, NoLongRun;
    if fs.ino != 0 {
      assert View(fs)[fs.ino] == Den(fs.cache);
      LowStorable(fs.cache);
    }
    FlushKeepsView(fs, ino);
  }

  /** A harmless edit is safe and leaves the state calm. */
  lemma HarmlessEdit(fs: Fs, ino: nat, ex: Extent, del: bool, next: Fs)
    requires Calm(fs) && EditArg(ex, del) && EditStep(fs, ino, ex, del, true, next, true) && ex.len > 0
    requires !del ==> ex.lblk + ex.len <= TWO31 && ex.pblk + ex.len <= TWO48
    requires del && ino in View(fs) && View(fs)[ino] != map[] ==> Apply(View(fs)[ino], ex, del) != map[]
    ensures FlushSafe(fs, ino) && EditWillBeSafe(fs, ino, ex, del) && Calm(next)
  {
    hide Edited, Den, Coalesce, Stored, Storable, NoLongRun, Apply, EditSafe;
    CalmFlush(fs, ino);
    FlushKeepsView(fs, ino);
    var f := Flush(fs, ino);
    if ino != 0 {
      CalmRead(f, ino);
      var g := Read(f, ino);
      LowEdit(g.cache, ex, del, next.cache);
    }
    EditAgrees(fs, ino, ex, del, next);
    forall i | i in View(next) ensures Low(View(next)[i]) {
      assert i in View(fs) && Low(View(fs)[i]);
      if i == ino {
        LowApply(View(fs)[i], ex, del);
      }
    }
  }

  lemma CalmRead(f: Fs, ino: nat)
    requires Calm(f) && ino != 0 && CanRead(f, ino) && (f.ino == ino || f.ino == 0)
    ensures var g := Read(f, ino);
      Inv(g) && WellFormed(g.cache) && ino in View(f) && View(f)[ino] == Den(g.cache) && Low(Den(g.cache))
  {
    hide Den, Coalesce, NoLongRun;
    ReadKeepsView(f, ino);
    if f.ino != ino {
      CoalesceWellFormed(f.disk[ino]);
    }
    assert View(Read(f, ino))[ino] == Den(Read(f, ino).cache);
  }

  /** A low edit is safe, and leaves no empty extent unless it empties the map. */
  lemma LowEdit(s: seq<Extent>, ex: Extent, del: bool, r: seq<Extent>)
    requires WellFormed(s) && Low(Den(s)) && EditArg(ex, del) && Edited(s, ex, del, r) && ex.len > 0
    requires !del ==> ex.lblk + ex.len <= TWO31 && ex.pblk + ex.len <= TWO48
    requires del && Den(s) != map[] ==> Apply(Den(s), ex, del) != map[]
    ensures EditSafe(s, ex, del) && WellFormed(r)
  {
    hide Den, Apply, Edited, NoLongRun, CutSafe;
    LowCut(s, ex);
    LowApply(Den(s), ex, del);
    StaysOccupied(s, ex, del, r);
  }

  /** An edit that leaves the map non-empty, or finds the list empty, leaves no empty extent. */
  lemma StaysOccupied(s: seq<Extent>, ex: Extent, del: bool, r: seq<Extent>)
    requires WellFormed(s) && EditArg(ex, del) && EditSafe(s, ex, del) && Edited(s, ex, del, r) && ex.len > 0
    requires del && Den(s) != map[] ==> Apply(Den(s), ex, del) != map[]
    ensures WellFormed(r)
  {
    hide Den, Apply, Edited, EditSafe;
    EditMeaning(s, ex, del, r);
    if LoneEmpty(r) {
      NothingMapped(r);
      AppliedNotEmpty(s, ex, del, r);
      assert false;
    }
  }

  lemma AppliedNotEmpty(s: seq<Extent>, ex: Extent, del: bool, r: seq<Extent>)
    requires WellFormed(s) && Edited(s, ex, del, r) && ex.len > 0 && |r| == 1
    requires del && Den(s) != map[] ==> Apply(Den(s), ex, del) != map[]
    ensures Apply(Den(s), ex, del) != map[]
  {
    if !del {
      assert Holds(ex, ex.lblk);
      assert ex.lblk in Apply(Den(s), ex, del);
    } else {
      hide Den, Apply;
      assert s != [];
      assert s[0] in s && Holds(s[0], s[0].lblk);
      DenDomain(s, s[0].lblk);
    }
  }

  lemma HarmlessStep(fs: Fs, tag: Tag, next: Fs)
    requires Calm(fs) && TagInRange(tag) && Step(fs, tag, next, true) && Harmless(View(fs), tag)
    ensures StepSafe(fs, tag) && Calm(next)
  {
    hide Calm, FlushSafe, EditWillBeSafe, Flush, View, Apply, Edited, Without;
    if tag.DelRange? && tag.ino in View(fs) {
      DeleteIsWithout(View(fs)[tag.ino], tag.lblk, tag.len);
    }
    match tag
    case AddRange(ino, ex, _) => HarmlessEdit(fs, ino, ex, false, next);
    case DelRange(ino, lblk, len) => HarmlessEdit(fs, ino, DelExtent(lblk, len), true, next);
    case Creat(_) => CalmFlush(fs, 0);
    case Link(_) => CalmFlush(fs, 0);
    case Unlink(ino, _) => CalmFlush(fs, ino);
    case Inode(ino, _) => CalmFlush(fs, ino);
    case Tail(_, _) => CalmFlush(fs, 0);
    case Pad =>
    case Head(_, _) =>
    case Unknown(_) =>
  }

  /** A log whose edits are all harmless, judged on immediate replay alone, makes every step of the run safe. */
  lemma {:induction false} HarmlessLogIsSafe(states: seq<Fs>, tags: seq<Tag>, n: nat)
    requires Run(states, tags) && Calm(states[0]) && n <= |tags|
    requires forall i :: 0 <= i < |tags| ==>
      TagInRange(tags[i]) && Harmless(Immediate(View(states[0]), tags[..i]), tags[i])
    ensures Calm(states[n]) && forall i :: 0 <= i < n ==> StepSafe(states[i], tags[i])
  {
    hide Step, StepSafe, Inv, ApplyTag, Harmless, Calm;
    if n > 0 {
      HarmlessLogIsSafe(states, tags, n - 1);
      CalmInv(states[0]);
      SafePrefixAgrees(states, tags, n - 1);
      assert Step(states[n - 1], tags[n - 1], states[n - 1 + 1], true);
      HarmlessStep(states[n - 1], tags[n - 1], states[n]);
    }
  }

  lemma CalmInv(fs: Fs)
    requires Calm(fs)
    ensures Inv(fs)
  {
  }

  /** A run that goes wrong: emptying a file and then adding to it before anything is flushed. */
  lemma EmptiedThenExtendedRun(states: seq<Fs>)
    requires Run(states, [DelRange(12, 0, 5), AddRange(12, Extent(7, 200, 1, false), true)])
    requires states[0] == Fs(map[12 := [Extent(0, 100, 5, false)]], 0, [], states[0].marked)
    ensures View(states[2]) != Immediate(View(states[0]), [DelRange(12, 0, 5), AddRange(12, Extent(7, 200, 1, false), true)])
  {
    var e, ex := Extent(0, 100, 5, false), Extent(7, 200, 1, false);
    var tags := [DelRange(12, 0, 5), AddRange(12, ex, true)];
    assert Step(states[0], tags[0], states[0 + 1], true);
    assert Step(states[1], tags[1], states[1 + 1], true);
    hide Step, View, Immediate, Den, Edited, ExtentMap;
    DeleteStep(states[0], states[1], e);
    AddStep(states[1], states[2], ex);
    DeleteThenAddWitness(states[1].cache);
    ImmediateOfTwo(View(states[0]), tags, e, ex);
  }

  lemma DeleteStep(fs: Fs, next: Fs, e: Extent)
    requires fs == Fs(map[12 := [e]], 0, [], fs.marked) && Step(fs, DelRange(12, 0, 5), next, true)
    ensures next.ino == 12 && 12 in next.disk && Edited([e], DelExtent(0, 5), true, next.cache)
    ensures View(fs) == map[12 := Den([e])]
  {
    hide Edited, Den, Cleared, AllBlocks, Coalesce, Stored;
    ReadOne(e);
  }

  lemma AddStep(fs: Fs, next: Fs, ex: Extent)
    requires fs.ino == 12 && 12 in fs.disk && Step(fs, AddRange(12, ex, true), next, true)
    ensures Edited(fs.cache, ex, false, next.cache) && 12 in View(next) && View(next)[12] == Den(next.cache)
  {
    hide Edited, Den, Cleared, AllBlocks, Coalesce, Stored;
  }

  lemma ImmediateOfTwo(m: map<nat, Mapping>, tags: seq<Tag>, e: Extent, ex: Extent)
    requires e == Extent(0, 100, 5, false) && ex == Extent(7, 200, 1, false) && m == map[12 := Den([e])]
    requires tags == [DelRange(12, 0, 5), AddRange(12, ex, true)]
    ensures 12 in Immediate(m, tags) && Immediate(m, tags)[12] == ExtentMap(ex)
  {
    hide Immediate, Den, Apply, ExtentMap, Without, ApplyTag;
    TagEdits(Immediate(m, tags[..0]), tags[0]);
    TagEdits(Immediate(m, tags[..1]), tags[1]);
    ImmediateStep(m, tags, 0);
    ImmediateStep(m, tags, 1);
    assert tags[..2] == tags && tags[..0] == [];
    EmptyImmediate(m);
    DeletedThenAdded(e, m[12]);
  }

  lemma ReadOne(e: Extent)
    ensures Coalesce([e]) == [e]
  {
    assert [e] == [e] + [];
    OntoCons([], e, []);
    OntoEmpty([e]);
  }

  /** A run whose stored extent lands elsewhere: five blocks added at the last 32-bit block, two of them deleted, then a tail. */
  lemma HighStartRun(states: seq<Fs>)
    requires Run(states, [AddRange(12, Extent(0xFFFF_FFFF, 1000, 5, false), true), DelRange(12, 0xFFFF_FFFF, 2), Tail(1, 0)])
    requires states[0] == Fs(map[12 := []], 0, [], states[0].marked)
    ensures states[2].cache == [Extent(0x1_0000_0001, 1002, 3, false)]
    ensures states[3].disk == map[12 := [Extent(1, 1002, 3, false)]]
  {
    var ex, d := Extent(0xFFFF_FFFF, 1000, 5, false), DelExtent(0xFFFF_FFFF, 2);
    var tags := [AddRange(12, ex, true), DelRange(12, 0xFFFF_FFFF, 2), Tail(1, 0)];
    assert Step(states[0], tags[0], states[0 + 1], true);
    assert Step(states[1], tags[1], states[1 + 1], true);
    assert Step(states[2], tags[2], states[2 + 1], true);
    hide Cleared, AllBlocks, SortMerged, Stored;
    assert Coalesce([]) == [];
    assert Cut([], ex) == [] && [] + [ex] == [ex];
    ShortSorted([ex], states[1].cache);
    ExEndExact(ex);
    ExEndExact(d);
    var t := Extent(0x1_0000_0001, 1002, 3, false);
    assert TrimFront(ex, d) == t;
    assert Pieces(ex, d) == [t] && [ex][1..] == [] && Cut([ex], d) == [t];
    ShortSorted([t], states[2].cache);
    StoredWraps(t);
    assert states[0].disk[12 := [Extent(1, 1002, 3, false)]] == map[12 := [Extent(1, 1002, 3, false)]];
  }

  lemma EmptyImmediate(m: map<nat, Mapping>)
    ensures Immediate(m, []) == m
  {
  }

  lemma DeletedThenAdded(e: Extent, m: Mapping)
    requires e == Extent(0, 100, 5, false) && m == Den([e])
    ensures Apply(Apply(m, DelExtent(0, 5), true), Extent(7, 200, 1, false), false) == ExtentMap(Extent(7, 200, 1, false))
  {
    forall l: nat ensures l !in Apply(m, DelExtent(0, 5), true) {
      DenDomain([e], l);
    }
    assert Apply(m, DelExtent(0, 5), true).Keys == {};
  }
}
