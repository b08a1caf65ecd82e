/**
 The extent list and block bitmap as the editor updates them in place.
 */
module ExtentListEditing {
  import opened Machine
  import opened Extents
  import opened ExtentEditor
  import opened EditTheorem
  import opened EditExactness

  /** `ctx->fs->block_map`: the set of blocks marked in use. */
  class BlockBitmap {
    var marked: set<nat>

    constructor (marked: set<nat>)
      ensures this.marked == marked
    {
      this.marked := marked;
    }

    method UnmarkRange(e: Extent)
      modifies this
      ensures marked == old(marked) - PBlocks(e)
    {
      marked := marked - PBlocks(e);
    }

    method MarkRange(e: Extent)
      modifies this
      ensures marked == old(marked) + PBlocks(e)
    {
      marked := marked + PBlocks(e);
    }
  }

  ghost predicate InOrderAt(cmp: (Extent, Extent) -> int, t: seq<Extent>, k: nat) {
    k + 1 < |t| ==> cmp(t[k], t[k + 1]) <= 0
  }

  lemma InsertInOrderAt(cmp: (Extent, Extent) -> int, u: seq<Extent>, j: nat, x: Extent, k: nat)
    requires j <= |u| && NoInversion(cmp, u)
    requires j > 0 ==> cmp(u[j - 1], x) <= 0
    requires j < |u| ==> cmp(x, u[j]) <= 0
    ensures InOrderAt(cmp, u[..j] + [x] + u[j..], k)
  {
    if k + 1 < j {
      assert cmp(u[k], u[k + 1]) <= 0;
    } else if j < k < |u| {
      assert cmp(u[k - 1], u[k - 1 + 1]) <= 0;
    }
  }

  lemma InsertKeepsOrder(cmp: (Extent, Extent) -> int, u: seq<Extent>, j: nat, x: Extent)
    requires j <= |u| && NoInversion(cmp, u)
    requires j > 0 ==> cmp(u[j - 1], x) <= 0
    requires j < |u| ==> cmp(x, u[j]) <= 0
    ensures NoInversion(cmp, u[..j] + [x] + u[j..])
    ensures multiset(u[..j] + [x] + u[j..]) == multiset(u) + multiset{x}
  {
    InsertMembers(u, j, x);
    var t := u[..j] + [x] + u[j..];
    forall k | 0 <= k < |t| - 1 ensures cmp(t[k], t[k + 1]) <= 0 {
      InsertInOrderAt(cmp, u, j, x, k);
      assert InOrderAt(cmp, t, k);
    }
  }

  lemma InsertMembers(u: seq<Extent>, j: nat, x: Extent)
    requires j <= |u|
    ensures multiset(u[..j] + [x] + u[j..]) == multiset(u) + multiset{x}
  {
    assert u == u[..j] + u[j..];
  }

  /** qsort, of which only the two facts in the contract are used. */
  method QSort(cmp: (Extent, Extent) -> int, s: seq<Extent>) returns (t: seq<Extent>)
    requires forall x, y :: cmp(x, y) > 0 ==> cmp(y, x) <= 0
    ensures Sorting(cmp, s, t)
  {
    t := [];
    for i := 0 to |s|
      invariant multiset(t) == multiset(s[..i]) && NoInversion(cmp, t)
    {
      var j := 0;
      while j < |t| && cmp(s[i], t[j]) > 0
        invariant 0 <= j <= |t|
        invariant j > 0 ==> cmp(s[i], t[j - 1]) > 0
      {
        j := j + 1;
      }
      InsertKeepsOrder(cmp, t, j, s[i]);
      t := t[..j] + [s[i]] + t[j..];
      assert s[..i + 1] == s[..i] + [s[i]];
    }
    assert s[..|s|] == s;
  }

  /** What an edit promises: the intended map exactly when it is safe, and then an exact bitmap. */
  ghost predicate EditPromise(
    s: seq<Extent>, ex: Extent, del: bool, was: set<nat>, r: seq<Extent>, now: set<nat>)
  {
    ListState(s) && EditArg(ex, del) ==>
      && (EditSafe(s, ex, del) <==> Den(r) == Apply(Den(s), ex, del))
      && (EditSafe(s, ex, del) ==> ListState(r) && now == was - AllBlocks(s) + AllBlocks(r))
  }

  lemma EditKeepsPromise(s: seq<Extent>, ex: Extent, del: bool, was: set<nat>, r: seq<Extent>)
    requires Edited(s, ex, del, r)
    ensures EditPromise(s, ex, del, was, r, was - Cleared(s, ex) + AllBlocks(r))
  {
    if ListState(s) && EditArg(ex, del) {
      EditMeaning(s, ex, del, r);
      if EditSafe(s, ex, del) {
        BitmapExact(s, ex, del, r);
      }
    }
  }

  class ExtentList {
    var extents: seq<Extent>

    constructor ()
      ensures extents == []
    {
      extents := [];
    }

    /** Open a slot at index `i`; its contents are whatever was there. */
    method MakeRoom(i: nat)
      requires i <= |extents|
      modifies this
      ensures |extents| == |old(extents)| + 1
      ensures extents[..i] == old(extents)[..i] && extents[i + 1..] == old(extents)[i..]
    {
      extents := extents[..i] + [Extent(0, 0, 0, false)] + extents[i..];
    }

    /** `ex_sort_and_merge`. */
    method SortAndMerge()
      modifies this
      ensures SortMerged(old(extents), extents)
    {
      if |extents| < 2 {
        return;
      }
      ghost var c := extents;
      extents := QSort(LenCompar, extents);
      ghost var t := extents;
      var i := 0;
      while i < |extents|
        invariant 0 <= i <= |extents| && extents == t
        invariant forall k :: 0 <= k < i ==> t[k].len != 0
      {
        if extents[i].len == 0 {
          break;
        }
        i := i + 1;
      }
      extents := extents[..i];
      UpToEmptyIsPrefix(t, i);
      if |extents| == 0 {
        assert SortMergedVia(c, t, [], extents);
        return;
      }
      forall x, y ensures LblkCompar(x, y) > 0 ==> LblkCompar(y, x) <= 0 {
        Int32Negates(x.len - y.len);
      }
      extents := QSort(LblkCompar, extents);
      ghost var q := extents;
      MembersSame(UpToEmpty(t), q);
      MergeInPlace();
      assert SortMergedVia(c, t, q, extents);
    }

    /** Drop the extent after index `i`, shifting the rest of the array down by one. */
    method CloseGap(i: nat)
      requires i + 1 < |extents|
      modifies this
      ensures extents == old(extents)[..i + 1] + old(extents)[i + 2..]
    {
      for j := i + 1 to |extents| - 1
        invariant |extents| == |old(extents)|
        invariant forall k :: 0 <= k <= i ==> extents[k] == old(extents)[k]
        invariant forall k :: i + 1 <= k < j ==> extents[k] == old(extents)[k + 1]
        invariant forall k :: j <= k < |extents| ==> extents[k] == old(extents)[k]
      {
        extents := extents[j := extents[j + 1]];
      }
      extents := extents[..|extents| - 1];
    }

    /** The merge loop. */
    method MergeInPlace()
      requires extents != []
      modifies this
      ensures extents == Merge(old(extents))
    {
      hide Merge, Joins, U32;
      ghost var q := extents;
      var i := 0;
      assert extents[0..] == extents && extents[..0] + Merge(extents) == Merge(extents);
      while i < |extents| - 1
        invariant 0 <= i < |extents|
        invariant Merge(q) == extents[..i] + Merge(extents[i..])
        decreases |extents| - i
      {
        ghost var before := extents;
        if !Joins(extents[i], extents[i + 1]) {
          MergeSkip(before, i);
          i := i + 1;
        } else {
          extents := extents[i := extents[i].(len := U32(extents[i].len + extents[i + 1].len))];
          CloseGap(i);
          assert extents == before[..i] + [extents[i]] + before[i + 2..];
          MergeJoin(before, i, extents[i], extents);
        }
      }
      MergeShort(extents[i..]);
      assert extents == extents[..i] + extents[i..];
    }

    /** `ext4_modify_extent_list`. */
    method Modify(bitmap: BlockBitmap, ex: Extent, del: bool)
      modifies this, bitmap
      ensures Edited(old(extents), ex, del, extents)
      ensures bitmap.marked == old(bitmap.marked) - Cleared(old(extents), ex) + AllBlocks(extents)
      ensures EditPromise(old(extents), ex, del, old(bitmap.marked), extents, bitmap.marked)
    {
      hide Cut, Cleared, SortMerged, AllBlocks, EditPromise;
      ghost var s := extents;
      MakeHole(bitmap, ex);
      if ex.len > 0 && !del {
        MakeRoom(|extents|);
        extents := extents[|extents| - 1 := ex];
        assert extents == Cut(s, ex) + [ex];
      }
      SortAndMerge();
      MarkAll(bitmap);
      EditKeepsPromise(s, ex, del, old(bitmap.marked), extents);
    }

    /** The loop that cuts the hole, through the four overlap cases. */
    method MakeHole(bitmap: BlockBitmap, ex: Extent)
      modifies this, bitmap
      ensures extents == Cut(old(extents), ex)
      ensures bitmap.marked == old(bitmap.marked) - Cleared(old(extents), ex)
    {
      ghost var s, marked := extents, bitmap.marked - Cleared(extents, ex);
      var i := 0;
      assert extents[0..] == extents && extents[..0] + Cut(extents, ex) == Cut(extents, ex);
      while i < |extents|
        invariant 0 <= i <= |extents|
        invariant HoleLeft(extents, i, ex, bitmap.marked, Cut(s, ex), marked)
        decreases |extents| - i
      {
        ghost var x, m := extents, bitmap.marked;
        var stop := HoleTurn(bitmap, ex, i);
        if stop {
          HoleBreak(x, i, ex, m, Cut(s, ex), marked);
          return;
        }
        HoleStep(x, i, extents[i], ex, m, Cut(s, ex), marked);
        i := i + 1;
      }
    }

    /** The body of that loop for extent `i`; `stop` is its `break`. */
    method HoleTurn(bitmap: BlockBitmap, ex: Extent, i: nat) returns (stop: bool)
      requires i < |extents|
      modifies this, bitmap
      ensures stop <==> !GoesOn(old(extents)[i], ex)
      ensures stop ==> extents == old(extents)[..i] + Pieces(old(extents)[i], ex) + old(extents)[i + 1..]
      ensures !stop ==> |extents| == |old(extents)| && extents == old(extents)[i := extents[i]]
      ensures !stop ==> Pieces(old(extents)[i], ex) == [extents[i]]
      ensures var e := old(extents)[i];
        bitmap.marked == old(bitmap.marked) - if Touches(e, ex) then PBlocks(e) else {}
    {
      var e := extents[i];
      stop := false;
      if ExEnd(e) < ex.lblk {
        return;
      }
      if e.lblk > ExEnd(ex) {
        return true;
      }
      bitmap.UnmarkRange(e);
      if e.lblk < ex.lblk && ExEnd(e) > ExEnd(ex) {
        SplitAt(i, ex);
        return true;
      }
      if ex.lblk <= e.lblk && ExEnd(e) <= ExEnd(ex) {
        extents := extents[i := e.(len := 0)];
        return;
      }
      if ExEnd(e) > ExEnd(ex) {
        var offset := Int32(ExEnd(ex) + 1 - e.lblk);
        extents := extents[i := Extent(U64(e.lblk + offset), U64(e.pblk + offset), U32(e.len - offset), e.uninit)];
        return true;
      }
      extents := extents[i := TrimBack(e, ex)];
    }

    /** Case 2: the hole lies strictly inside extent `i`, which becomes two. */
    method SplitAt(i: nat, ex: Extent)
      requires i < |extents| && ex.lblk > extents[i].lblk
      modifies this
      ensures var e := old(extents)[i];
        extents == old(extents)[..i] + [TrimBack(e, ex), TrimFront(e, ex)] + old(extents)[i + 1..]
    {
      var e := extents[i];
      MakeRoom(i + 1);
      assert extents[..i + 1][i] == e;
      extents := extents[i + 1 := extents[i]];
      var offset := Int32(ExEnd(ex) + 1 - e.lblk);
      extents := extents[i + 1 := Extent(U64(e.lblk + offset), U64(e.pblk + offset), U32(e.len - offset), e.uninit)];
      extents := extents[i := e.(len := U32(ex.lblk - e.lblk))];
    }

    method MarkAll(bitmap: BlockBitmap)
      modifies bitmap
      ensures bitmap.marked == old(bitmap.marked) + AllBlocks(extents)
    {
      for i := 0 to |extents|
        invariant bitmap.marked == old(bitmap.marked) + AllBlocks(extents[..i])
      {
        assert extents[..i + 1][..i] == extents[..i];
        bitmap.MarkRange(extents[i]);
      }
      assert extents[..|extents|] == extents;
    }
  }

  lemma MergeCons(a: Extent, b: Extent, rest: seq<Extent>)
    ensures Merge([a, b] + rest) ==
      if Joins(a, b) then Merge([a.(len := U32(a.len + b.len))] + rest) else [a] + Merge([b] + rest)
  {
    var s := [a, b] + rest;
    assert s[1..] == [b] + rest && s[2..] == rest && s[0] == a && s[1] == b;
  }

  /** A turn of the merge loop that keeps extents `i` and `i + 1` apart. */
  lemma MergeSkip(x: seq<Extent>, i: nat)
    requires i + 1 < |x| && !Joins(x[i], x[i + 1])
    ensures x[..i] + Merge(x[i..]) == x[..i + 1] + Merge(x[i + 1..])
  {
    var a, b, rest := x[i], x[i + 1], x[i + 2..];
    MergeCons(a, b, rest);
    assert x[i..] == [a, b] + rest && x[i + 1..] == [b] + rest;
    Regroup(x, i, Merge([b] + rest));
  }

  /** A turn that joins them into `e`. */
  lemma MergeJoin(x: seq<Extent>, i: nat, e: Extent, y: seq<Extent>)
    requires i + 1 < |x| && Joins(x[i], x[i + 1]) && e == x[i].(len := U32(x[i].len + x[i + 1].len))
    requires y == x[..i] + [e] + x[i + 2..]
    ensures x[..i] + Merge(x[i..]) == y[..i] + Merge(y[i..])
  {
    hide Merge, Joins, U32;
    var a, b, rest := x[i], x[i + 1], x[i + 2..];
    assert x[i..] == [a, b] + rest;
    assert y[..i] == x[..i] && y[i..] == [e] + rest;
    MergeCons(a, b, rest);
  }

  lemma Regroup(x: seq<Extent>, i: nat, c: seq<Extent>)
    requires i < |x|
    ensures x[..i] + ([x[i]] + c) == x[..i + 1] + c
  {
  }

  lemma CutCons(e: Extent, rest: seq<Extent>, ex: Extent)
    ensures Cut([e] + rest, ex) == Pieces(e, ex) + if GoesOn(e, ex) then Cut(rest, ex) else rest
    ensures Cleared([e] + rest, ex) ==
      if ExEnd(e) < ex.lblk then Cleared(rest, ex)
      else if e.lblk > ExEnd(ex) then {}
      else if GoesOn(e, ex) then PBlocks(e) + Cleared(rest, ex)
      else PBlocks(e)
  {
    var s := [e] + rest;
    assert s[0] == e && s[1..] == rest;
  }

  /** With the first `i` extents done, finishing the rest gives list `goal` and bitmap `marked`. */
  ghost predicate HoleLeft(x: seq<Extent>, i: nat, ex: Extent, m: set<nat>, goal: seq<Extent>, marked: set<nat>) {
    i <= |x| && goal == x[..i] + Cut(x[i..], ex) && marked == m - Cleared(x[i..], ex)
  }

  predicate Touches(e: Extent, ex: Extent) {
    ExEnd(e) >= ex.lblk && e.lblk <= ExEnd(ex)
  }

  /** A turn of the hole-making loop that goes on to the next extent. */
  lemma HoleStep(x: seq<Extent>, i: nat, p: Extent, ex: Extent, m: set<nat>, goal: seq<Extent>, marked: set<nat>)
    requires i < |x| && Pieces(x[i], ex) == [p] && GoesOn(x[i], ex)
    requires HoleLeft(x, i, ex, m, goal, marked)
    ensures HoleLeft(x[i := p], i + 1, ex, m - (if Touches(x[i], ex) then PBlocks(x[i]) else {}), goal, marked)
  {
    var y, rest := x[i := p], x[i + 1..];
    assert x[i..] == [x[i]] + rest && y[i + 1..] == rest && y[..i] == x[..i];
    CutCons(x[i], rest, ex);
    Regroup(y, i, Cut(rest, ex));
  }

  /** The turn at which the loop stops. */
  lemma HoleBreak(x: seq<Extent>, i: nat, ex: Extent, m: set<nat>, goal: seq<Extent>, marked: set<nat>)
    requires i < |x| && !GoesOn(x[i], ex)
    requires HoleLeft(x, i, ex, m, goal, marked)
    ensures goal == x[..i] + Pieces(x[i], ex) + x[i + 1..]
    ensures marked == m - if Touches(x[i], ex) then PBlocks(x[i]) else {}
  {
    assert x[i..] == [x[i]] + x[i + 1..];
    CutCons(x[i], x[i + 1..], ex);
  }

  lemma {:induction false} UpToEmptyIsPrefix(t: seq<Extent>, i: nat)
    requires i <= |t| && (i < |t| ==> t[i].len == 0)
    requires forall k :: 0 <= k < i ==> t[k].len != 0
    ensures UpToEmpty(t) == t[..i]
  {
    if i > 0 {
      UpToEmptyIsPrefix(t[1..], i - 1);
      assert t[..i] == [t[0]] + t[1..][..i - 1];
    }
  }

  // ------------------------------------------------------------- the bitmap

  lemma {:induction false} AllBlocksMembers(s: seq<Extent>, b: nat)
    ensures b in AllBlocks(s) <==> exists e :: e in s && OnBlock(e, b)
  {
    if s != [] {
      var front, last := s[..|s| - 1], s[|s| - 1];
      AllBlocksMembers(front, b);
      assert s == front + [last];
      assert forall e :: e in s <==> e in front || e == last;
      assert last in s;
    }
  }

  lemma AllBlocksMapped(s: seq<Extent>, b: nat)
    ensures b in AllBlocks(s) <==> exists l, u :: Maps(s, l, Target(b, u))
  {
    AllBlocksMembers(s, b);
    if e :| e in s && OnBlock(e, b) {
      assert Covers(e, e.lblk + (b - e.pblk), Target(b, e.uninit));
      assert Maps(s, e.lblk + (b - e.pblk), Target(b, e.uninit));
    }
    if l, u :| Maps(s, l, Target(b, u)) {
      var e :| e in s && Covers(e, l, Target(b, u));
      assert OnBlock(e, b);
    }
  }

  lemma {:induction false} ClearedMembers(s: seq<Extent>, ex: Extent, b: nat)
    requires b in Cleared(s, ex)
    ensures exists e :: e in s && OnBlock(e, b)
  {
    if s != [] {
      assert s == [s[0]] + s[1..];
      assert s[0] in s;
      if !OnBlock(s[0], b) {
        ClearedMembers(s[1..], ex, b);
      }
    }
  }

  /** A block whose extent the loop does not clear stays mapped at the same place. */
  lemma {:induction false} UnclearedIsOutside(s: seq<Extent>, ex: Extent, e: Extent, b: nat)
    requires WellFormed(s) && ex.lblk < TWO32 && ex.len < TWO32 && !IsOrigin(ex)
    requires e in s && OnBlock(e, b) && b !in Cleared(s, ex)
    ensures e.lblk + e.len <= ex.lblk || ex.lblk + ex.len <= e.lblk
  {
    TailWellFormed(s);
    ExEndExact(s[0]);
    ExEndExact(ex);
    if e != s[0] && (ExEnd(s[0]) < ex.lblk || (s[0].lblk <= ExEnd(ex) && ExEnd(s[0]) <= ExEnd(ex))) {
      UnclearedIsOutside(s[1..], ex, e, b);
    }
  }

  lemma KeptOutside(s: seq<Extent>, ex: Extent, del: bool, r: seq<Extent>, e: Extent, l: nat)
    requires WellFormed(s) && e in s && Holds(e, l) && (e.lblk + e.len <= ex.lblk || ex.lblk + ex.len <= e.lblk)
    requires ListState(r) && Den(r) == Apply(Den(s), ex, del)
    ensures Maps(r, l, Target(e.pblk + (l - e.lblk), e.uninit))
  {
    hide Den;
    MappedTo(s, e, l);
    assert !Holds(ex, l);
    assert l in Den(r);
    if LoneEmpty(r) {
      NothingMapped(r);
      assert false;
    }
    SpacedIsApart(r);
    DenIsMaps(r, l, Den(r)[l]);
  }

  /** Released blocks are freed, kept and new blocks are marked, every other block is as it was. */
  lemma BitmapExact(s: seq<Extent>, ex: Extent, del: bool, r: seq<Extent>)
    requires ListState(s) && EditArg(ex, del) && EditSafe(s, ex, del) && Edited(s, ex, del, r)
    ensures Cleared(s, ex) <= AllBlocks(s) && AllBlocks(s) - Cleared(s, ex) <= AllBlocks(r)
    ensures forall was: set<nat> :: was - Cleared(s, ex) + AllBlocks(r) == was - AllBlocks(s) + AllBlocks(r)
  {
    forall b | b in Cleared(s, ex) ensures b in AllBlocks(s) {
      ClearedMembers(s, ex, b);
      AllBlocksMembers(s, b);
    }
    forall b | b in AllBlocks(s) && b !in Cleared(s, ex) ensures b in AllBlocks(r) {
      AllBlocksMembers(s, b);
      var e :| e in s && OnBlock(e, b);
      if IsOrigin(ex) || LoneEmpty(s) {
        assert false;
      }
      UnclearedIsOutside(s, ex, e, b);
      SafeEditWellFormed(s, ex, del, r);
      KeptOutside(s, ex, del, r, e, e.lblk + (b - e.pblk));
      AllBlocksMapped(r, b);
    }
    forall was: set<nat>
      ensures was - Cleared(s, ex) + AllBlocks(r) == was - AllBlocks(s) + AllBlocks(r)
    {}
  }
}
