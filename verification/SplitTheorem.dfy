/**
 Splitting to the on-disk maximum: what the written pieces keep, that reading
 them back restores the list, and the rebuild of a tree or a block map end to end.
 */
module SplitTheorem {
  import opened Extents
  import opened ExtentEditor
  import opened EditTheorem
  import opened ExtentRebuild
  import opened RebuildTheorem
  import opened LeafFormat

  // ----------------------------------------------------------- what it keeps

  predicate Piece(p: Extent, e: Extent) {
    && 0 < p.len && LenKept(p) && p.uninit == e.uninit
    && e.lblk <= p.lblk && p.lblk + p.len <= e.lblk + e.len && Fits(p)
  }

  ghost predicate SplitKeeps(e: Extent, p: seq<Extent>) {
    && Spaced(p)
    && (forall x :: x in p ==> Piece(x, e))
    && (forall i :: 0 <= i < |p| - 1 ==> !LenKept(p[i].(len := p[i].len + 1)))
    && (forall l, t :: Maps(p, l, t) <==> Covers(e, l, t))
    && TotalLen(p) == e.len
  }

  lemma {:induction false} SplitDenotes(e: Extent)
    requires Fits(e)
    ensures SplitKeeps(e, Split(e))
    decreases e.len
  {
    hide LenKept;
    MaxLenIsKept(e);
    if e.len == 0 {
    } else if e.len <= MaxLen(e) {
      OneSplit(e);
    } else {
      var rest := Advance(e);
      assert rest == Extent(e.lblk + MaxLen(e), e.pblk + MaxLen(e), e.len - MaxLen(e), e.uninit);
      SplitDenotes(rest);
      SplitOff(e, rest, Split(rest));
    }
  }

  lemma OneSplit(e: Extent)
    requires Fits(e) && e.len > 0 && LenKept(e)
    ensures SplitKeeps(e, [e])
  {
    hide LenKept;
    assert e in [e] && [e][1..] == [];
    assert TotalLen([e]) == e.len;
    assert forall x :: x in [e] ==> x == e;
    assert forall l, t :: Maps([e], l, t) <==> Covers(e, l, t);
  }

  /** The writer's maximum is the longest length the tree keeps. */
  lemma MaxLenIsKept(e: Extent)
    ensures 0 < e.len <= MaxLen(e) ==> LenKept(e)
    ensures 0 < MaxLen(e) && LenKept(e.(len := MaxLen(e))) && !LenKept(e.(len := MaxLen(e) + 1))
  {
    hide Kept, LenKept;
    if e.len > 0 {
      LenKeptExact(e);
    }
    LenKeptExact(e.(len := MaxLen(e)));
    LenKeptExact(e.(len := MaxLen(e) + 1));
  }

  lemma SplitOff(e: Extent, rest: Extent, p: seq<Extent>)
    requires Fits(e) && e.len > MaxLen(e) && SplitKeeps(rest, p)
    requires rest == Extent(e.lblk + MaxLen(e), e.pblk + MaxLen(e), e.len - MaxLen(e), e.uninit)
    ensures SplitKeeps(e, [e.(len := MaxLen(e))] + p)
  {
    hide TotalLen, Kept, LenKept;
    MaxLenIsKept(e);
    var first := e.(len := MaxLen(e));
    assert first in [first];
    assert first.(len := first.len + 1) == e.(len := MaxLen(e) + 1);
    assert forall i :: 0 < i < |p| ==> ([first] + p)[i] == p[i - 1];
    SpacedJoin([first], p);
    TotalHead(first, p);
    assert forall x :: x in [first] + p <==> x == first || x in p;
    forall l, t ensures Maps([first] + p, l, t) <==> Covers(e, l, t) {
      SplitOffMaps(e, rest, p, l, t);
    }
  }

  lemma SplitOffMaps(e: Extent, rest: Extent, p: seq<Extent>, l: nat, t: Target)
    requires e.len > MaxLen(e) && (Maps(p, l, t) <==> Covers(rest, l, t))
    requires rest == Extent(e.lblk + MaxLen(e), e.pblk + MaxLen(e), e.len - MaxLen(e), e.uninit)
    ensures Maps([e.(len := MaxLen(e))] + p, l, t) <==> Covers(e, l, t)
  {
    var first := e.(len := MaxLen(e));
    MapsJoin([first], p, l, t);
    assert first in [first];
  }

  lemma TotalHead(e: Extent, rest: seq<Extent>)
    ensures TotalLen([e] + rest) == e.len + TotalLen(rest)
  {
    assert ([e] + rest)[1..] == rest;
  }

  lemma {:induction false} TotalJoin(a: seq<Extent>, b: seq<Extent>)
    ensures TotalLen(a + b) == TotalLen(a) + TotalLen(b)
  {
    if a == [] {
      assert a + b == b;
    } else {
      assert (a + b)[1..] == a[1..] + b;
      TotalJoin(a[1..], b);
    }
  }

  ghost predicate SplitAllKeeps(s: seq<Extent>, w: seq<Extent>) {
    && WellFormed(w)
    && (forall x :: x in w ==> LenKept(x) && (s != [] ==> s[0].lblk <= x.lblk))
    && (forall l, t :: Maps(w, l, t) <==> Maps(s, l, t))
    && TotalLen(w) == TotalLen(s)
  }

  /** Writing a list emits sorted pieces within the on-disk maximum, with the same map and total length. */
  lemma {:induction false} SplitAllDenotes(s: seq<Extent>)
    requires Spaced(s) && InRange(s)
    ensures SplitAllKeeps(s, SplitAll(s))
  {
    if s != [] {
      hide Split, TotalLen, SplitAll;
      var e, rest := s[0], s[1..];
      assert s == [e] + rest && e in s && forall x :: x in rest ==> x in s;
      assert Spaced(rest);
      SplitAllDenotes(rest);
      SplitDenotes(e);
      SplitCons(e, rest);
      SplitStep(e, rest, Split(e), SplitAll(rest));
    } else {
      assert SplitAll([]) == [];
    }
  }

  lemma SplitStep(e: Extent, rest: seq<Extent>, p: seq<Extent>, w: seq<Extent>)
    requires Spaced([e] + rest) && Fits(e) && SplitKeeps(e, p) && SplitAllKeeps(rest, w)
    requires TotalLen([e] + rest) == e.len + TotalLen(rest)
    requires rest == [] ==> w == []
    ensures SplitAllKeeps([e] + rest, p + w)
  {
    hide TotalLen;
    var s := [e] + rest;
    TotalJoin(p, w);
    assert forall x :: x in p + w <==> x in p || x in w;
    forall x, y | x in p && y in w ensures x.lblk + x.len <= y.lblk {
      assert s[0] == e && s[1] == rest[0] && rest[0].lblk <= y.lblk;
    }
    SpacedJoin(p, w);
    forall l, t ensures Maps(p + w, l, t) <==> Maps(s, l, t) {
      MapsJoin(p, w, l, t);
      MapsJoin([e], rest, l, t);
      assert e in [e];
    }
    forall x | x in w ensures e.lblk <= x.lblk {
      assert s[0] == e && s[1] == rest[0] && rest[0].lblk <= x.lblk;
    }
  }

  // ------------------------------------------------------------ reading back

  lemma {:induction false} OntoJoin(acc: seq<Extent>, a: seq<Extent>, b: seq<Extent>)
    ensures CoalesceOnto(acc, a + b) == CoalesceOnto(CoalesceOnto(acc, a), b)
    decreases |a|
  {
    if a == [] {
      assert a + b == b;
    } else {
      assert (a + b)[1..] == a[1..] + b;
      OntoJoin(Attach(acc, a[0]), a[1..], b);
    }
  }

  /** Pieces that continue the last extent grow it back. */
  lemma {:induction false} PiecesGrow(acc: seq<Extent>, p: Extent, rest: Extent)
    requires p.len > 0 && Adjoins(p, rest) && Fits(p.(len := p.len + rest.len))
    ensures CoalesceOnto(acc + [p], Split(rest)) == acc + [p.(len := p.len + rest.len)]
    decreases rest.len
  {
    hide Split, CoalesceOnto;
    if rest.len == 0 {
      SplitUnfold(rest);
      OntoEmpty(acc + [p]);
      assert p.(len := p.len + rest.len) == p;
    } else {
      SplitUnfold(rest);
      var first := if rest.len > MaxLen(rest) then rest.(len := MaxLen(rest)) else rest;
      var q := p.(len := p.len + first.len);
      AttachGrows(acc, p, first, q);
      if rest.len > MaxLen(rest) {
        OntoCons(acc + [p], first, Split(Advance(rest)));
        PiecesGrow(acc, q, Advance(rest));
      } else {
        OntoCons(acc + [p], first, []);
        assert [first] + [] == [first];
        OntoEmpty(acc + [q]);
      }
    }
  }

  lemma OntoEmpty(acc: seq<Extent>)
    ensures CoalesceOnto(acc, []) == acc
  {
  }

  lemma SplitUnfold(e: Extent)
    ensures e.len == 0 ==> Split(e) == []
    ensures 0 < e.len <= MaxLen(e) ==> Split(e) == [e]
    ensures e.len > MaxLen(e) ==> Split(e) == [e.(len := MaxLen(e))] + Split(Advance(e))
  {
  }

  lemma AttachGrows(acc: seq<Extent>, p: Extent, first: Extent, q: Extent)
    requires p.len > 0 && Adjoins(p, first) && q == p.(len := p.len + first.len) && Fits(q)
    ensures Attach(acc + [p], first) == acc + [q]
  {
    assert (acc + [p])[|acc|] == p;
    assert Attaches(p, first);
    assert (acc + [p])[|acc| := q] == acc + [q];
  }

  lemma AttachAppends(acc: seq<Extent>, e: Extent)
    requires acc != [] ==> Fits(acc[|acc| - 1]) && !Adjoins(acc[|acc| - 1], e)
    ensures Attach(acc, e) == acc + [e]
  {
    if acc != [] {
      AttachesExact(acc[|acc| - 1], e);
    }
  }

  lemma AdvanceExact(e: Extent)
    requires Fits(e) && e.len > MaxLen(e)
    ensures Advance(e) == Extent(e.lblk + MaxLen(e), e.pblk + MaxLen(e), e.len - MaxLen(e), e.uninit)
  {
  }

  lemma SplitReadsBack(acc: seq<Extent>, e: Extent)
    requires Fits(e) && e.len > 0 && (acc != [] ==> Fits(acc[|acc| - 1]) && !Adjoins(acc[|acc| - 1], e))
    ensures CoalesceOnto(acc, Split(e)) == acc + [e]
  {
    hide *;
    SplitUnfold(e);
    if e.len > MaxLen(e) {
      LongReadsBack(acc, e);
    } else {
      AttachAppends(acc, e);
      OntoCons(acc, e, []);
      assert [e] + [] == [e];
      OntoEmpty(acc + [e]);
    }
  }

  lemma LongReadsBack(acc: seq<Extent>, e: Extent)
    requires Fits(e) && e.len > MaxLen(e) && (acc != [] ==> Fits(acc[|acc| - 1]) && !Adjoins(acc[|acc| - 1], e))
    ensures CoalesceOnto(acc, [e.(len := MaxLen(e))] + Split(Advance(e))) == acc + [e]
  {
    var first, rest := e.(len := MaxLen(e)), Advance(e);
    AdvanceExact(e);
    FirstPiece(e, first, rest);
    FirstApart(acc, e, first);
    hide *;
    AttachAppends(acc, first);
    OntoCons(acc, first, Split(rest));
    PiecesGrow(acc, first, rest);
  }

  lemma FirstPiece(e: Extent, first: Extent, rest: Extent)
    requires Fits(e) && e.len > MaxLen(e) && first == e.(len := MaxLen(e))
    requires rest == Extent(e.lblk + MaxLen(e), e.pblk + MaxLen(e), e.len - MaxLen(e), e.uninit)
    ensures first.len > 0 && Adjoins(first, rest) && first.(len := first.len + rest.len) == e
  {
  }

  lemma FirstApart(acc: seq<Extent>, e: Extent, first: Extent)
    requires acc != [] ==> !Adjoins(acc[|acc| - 1], e)
    requires first.lblk == e.lblk && first.pblk == e.pblk && first.uninit == e.uninit
    ensures acc != [] ==> !Adjoins(acc[|acc| - 1], first)
  {
  }

  lemma {:induction false} ReadBackFrom(s: seq<Extent>, k: nat)
    requires WellFormed(s) && Merged(s) && k <= |s|
    ensures CoalesceOnto(s[..k], SplitAll(s[k..])) == s
    decreases |s| - k
  {
    hide Split, CoalesceOnto, SplitAll;
    if k == |s| {
      assert s[..k] == s && s[k..] == [];
      assert SplitAll([]) == [] by { SplitAllEmpty(); }
      OntoEmpty(s);
    } else {
      var e := s[k];
      assert e in s && s[k..] == [e] + s[k + 1..] && s[..k + 1] == s[..k] + [e];
      SplitCons(e, s[k + 1..]);
      OntoJoin(s[..k], Split(e), SplitAll(s[k + 1..]));
      if k > 0 {
        assert s[..k][k - 1] == s[k - 1] && s[k - 1] in s;
        assert !Joins(s[k - 1], s[k - 1 + 1]);
        JoinsExact(s[k - 1], e);
      }
      SplitReadsBack(s[..k], e);
      ReadBackFrom(s, k + 1);
    }
  }

  lemma SplitAllEmpty()
    ensures SplitAll([]) == []
  {
  }

  /** Reading back the written pieces restores the list that was written. */
  lemma ReadBack(s: seq<Extent>)
    requires WellFormed(s) && Merged(s)
    ensures Coalesce(SplitAll(s)) == s
  {
    ReadBackFrom(s, 0);
    assert s[..0] == [] && s[0..] == s;
  }

  // ------------------------------------------------------------- end to end

  /** Load and rewrite: the same map, the same number of blocks, pieces within the maximum; and doing it again changes nothing. */
  lemma RebuildKeepsMap(leaves: seq<Extent>)
    requires WellFormed(leaves) && NoLongRun(Den(leaves))
    ensures var w := SplitAll(Coalesce(leaves));
      && WellFormed(w) && Den(w) == Den(leaves) && TotalLen(w) == TotalLen(leaves)
      && (forall x :: x in w ==> LenKept(x))
      && SplitAll(Coalesce(w)) == w
  {
    CoalesceWellFormed(leaves);
    var c := Coalesce(leaves);
    SplitAllDenotes(c);
    SameDen(c, SplitAll(c));
    ReadBack(c);
  }

  /** The pairs a block iteration reports. */
  ghost function Reported(calls: seq<BlockCall>): Mapping {
    if calls == [] then map[]
    else if calls[|calls| - 1].blockcnt < 0 then Reported(calls[..|calls| - 1])
    else Reported(calls[..|calls| - 1])[calls[|calls| - 1].blockcnt := Target(calls[|calls| - 1].blocknr, false)]
  }

  /** Data blocks come in increasing logical order, within range. */
  ghost predicate InOrder(calls: seq<BlockCall>) {
    && (forall i, j :: 0 <= i < j < |calls| && calls[i].blockcnt >= 0 && calls[j].blockcnt >= 0 ==>
          calls[i].blockcnt < calls[j].blockcnt)
    && (forall i :: 0 <= i < |calls| && calls[i].blockcnt >= 0 ==>
          calls[i].blockcnt < TWO32 && calls[i].blocknr + 1 < TWO64)
  }

  lemma {:induction false} DataBlocksSnoc(front: seq<BlockCall>, c: BlockCall)
    ensures DataBlocks(front + [c]) ==
      DataBlocks(front) + if c.blockcnt >= 0 then [Extent(c.blockcnt, c.blocknr, 1, false)] else []
  {
    if front == [] {
      assert front + [c] == [c] && [c][1..] == [];
      assert DataBlocks([]) == [];
    } else {
      var tail := if c.blockcnt >= 0 then [Extent(c.blockcnt, c.blocknr, 1, false)] else [];
      var head := if front[0].blockcnt >= 0 then [Extent(front[0].blockcnt, front[0].blocknr, 1, false)] else [];
      assert (front + [c])[1..] == front[1..] + [c] && (front + [c])[0] == front[0];
      DataBlocksSnoc(front[1..], c);
      assert DataBlocks(front) == head + DataBlocks(front[1..]);
      assert head + (DataBlocks(front[1..]) + tail) == head + DataBlocks(front[1..]) + tail;
    }
  }

  ghost predicate OneOf(calls: seq<BlockCall>, e: Extent) {
    e.len == 1 && exists i :: 0 <= i < |calls| && calls[i].blockcnt == e.lblk
  }

  lemma {:induction false} DataBlocksDenote(calls: seq<BlockCall>)
    requires InOrder(calls)
    ensures WellFormed(DataBlocks(calls)) && Den(DataBlocks(calls)) == Reported(calls)
    ensures forall e :: e in DataBlocks(calls) ==> OneOf(calls, e)
  {
    if calls != [] {
      hide DataBlocks;
      var front, c := calls[..|calls| - 1], calls[|calls| - 1];
      assert calls == front + [c];
      DataBlocksSnoc(front, c);
      DataBlocksDenote(front);
      var d := DataBlocks(front);
      forall e | e in d ensures OneOf(calls, e) && (c.blockcnt >= 0 ==> e.lblk < c.blockcnt) {
        var i :| 0 <= i < |front| && front[i].blockcnt == e.lblk;
        assert calls[i] == front[i];
      }
      if c.blockcnt >= 0 {
        AppendBlock(d, c);
        assert calls[|calls| - 1].blockcnt == c.blockcnt;
      } else {
        assert d + [] == d;
      }
    }
  }

  lemma AppendBlock(d: seq<Extent>, c: BlockCall)
    requires WellFormed(d) && 0 <= c.blockcnt < TWO32 && c.blocknr + 1 < TWO64
    requires forall e :: e in d ==> e.len == 1 && e.lblk < c.blockcnt
    ensures var e := Extent(c.blockcnt, c.blocknr, 1, false);
      WellFormed(d + [e]) && Den(d + [e]) == Den(d)[c.blockcnt := Target(c.blocknr, false)]
  {
    hide Den, ExtentMap;
    var e := Extent(c.blockcnt, c.blocknr, 1, false);
    SpacedJoin(d, [e]);
    DenSnoc(d, e);
    assert Den(d) + map[e.lblk := Target(e.pblk, false)] == Den(d)[c.blockcnt := Target(c.blocknr, false)];
  }

  lemma DenSnoc(d: seq<Extent>, e: Extent)
    ensures Den(d + [e]) == Den(d) + ExtentMap(e)
    ensures e.len == 1 ==> ExtentMap(e) == map[e.lblk := Target(e.pblk, e.uninit)]
  {
    assert (d + [e])[..|d|] == d;
    if e.len == 1 {
      assert Holds(e, e.lblk);
      assert ExtentMap(e).Keys == {e.lblk};
    }
  }

  /** Converting a block-mapped file: the collected list denotes exactly the reported pairs if and only if no run reaches 2^32 blocks, and then so do the rewritten extents. */
  lemma ConvertKeepsMap(calls: seq<BlockCall>)
    requires InOrder(calls)
    ensures Den(Coalesce(DataBlocks(calls))) == Reported(calls) <==> NoLongRun(Reported(calls))
    ensures NoLongRun(Reported(calls)) ==>
      var w := SplitAll(Coalesce(DataBlocks(calls)));
      WellFormed(w) && Den(w) == Reported(calls) && (forall x :: x in w ==> LenKept(x))
  {
    hide Den, Coalesce, SplitAll, NoLongRun, Reported;
    DataBlocksDenote(calls);
    WellFormedIsLeafList(DataBlocks(calls));
    CoalesceMeaning(DataBlocks(calls));
    if NoLongRun(Reported(calls)) {
      RebuildKeepsMap(DataBlocks(calls));
    }
  }
}
