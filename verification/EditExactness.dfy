/**
 The edits that go wrong, and the theorem that these are all of them: the edit
 denotes the intended map if and only if `EditSafe` holds beforehand.
 */
module EditExactness {
  import opened Machine
  import opened Extents
  import opened ExtentEditor
  import opened EditTheorem

  // ---------------------------------------------------- sorting short lists

  lemma {:induction false} OccupiedOfPositive(c: seq<Extent>)
    requires Positive(c)
    ensures Occupied(c) == c
  {
    if c != [] {
      assert c == c[..|c| - 1] + [c[|c| - 1]];
      OccupiedOfPositive(c[..|c| - 1]);
      assert c[|c| - 1] in c;
    }
  }

  /** The merge sees the non-empty extents in order. */
  lemma SortOf(c: seq<Extent>, o: seq<Extent>, r: seq<Extent>) returns (q: seq<Extent>)
    requires SortMerged(c, r) && |c| >= 2 && Occupied(c) == o != []
    ensures Sorting(LblkCompar, o, q) && r == Merge(q)
  {
    hide Occupied, Merge;
    var t, q' :| SortMergedVia(c, t, q', r);
    q := q';
    StripKeepsOccupied(c, t);
    MembersSame(o, UpToEmpty(t));
    assert UpToEmpty(t) != [];
  }

  lemma OccupiedSnoc(c: seq<Extent>, e: Extent)
    ensures Occupied(c + [e]) == Occupied(c) + if e.len > 0 then [e] else []
    ensures Occupied([]) == []
  {
    assert (c + [e])[..|c|] == c;
  }

  lemma OccupiedThree(a: Extent, b: Extent, c: Extent)
    requires a.len > 0
    ensures Occupied([a, b]) == [a] + if b.len > 0 then [b] else []
    ensures Occupied([a, b, c]) == [a] + (if b.len > 0 then [b] else []) + if c.len > 0 then [c] else []
  {
    hide Occupied;
    assert [] + [a] == [a] && [a] + [b] == [a, b] && [a, b] + [c] == [a, b, c];
    OccupiedSnoc([], a);
    OccupiedSnoc([a], b);
    OccupiedSnoc([a, b], c);
  }

  lemma SortedPair(a: Extent, b: Extent, q: seq<Extent>)
    requires a.lblk < b.lblk
    requires Sorting(LblkCompar, [a, b], q) || Sorting(LblkCompar, [b, a], q)
    ensures q == [a, b]
  {
    MembersSame(if Sorting(LblkCompar, [a, b], q) then [a, b] else [b, a], q);
    SortedChain(q, 0, 1);
    assert q[0] in q && q[1] in q && a in q && b in q;
  }

  lemma SortedTriple(a: Extent, b: Extent, c: Extent, q: seq<Extent>)
    requires a.lblk < b.lblk < c.lblk && Sorting(LblkCompar, [a, c, b], q)
    ensures q == [a, b, c]
  {
    MembersSame([a, c, b], q);
    SortedChain(q, 0, 1);
    SortedChain(q, 1, 2);
    assert q[0] in q && q[1] in q && q[2] in q;
    assert a in [a, c, b] && b in [a, c, b] && c in [a, c, b];
    assert a in q && b in q && c in q;
  }

  lemma SortMergedPair(a: Extent, b: Extent, c: seq<Extent>, r: seq<Extent>)
    requires a.len > 0 && b.len > 0 && a.lblk < b.lblk
    requires SortMerged(c, r) && (c == [a, b] || c == [b, a])
    ensures r == Merge([a, b])
  {
    hide Occupied, Merge, SortMerged;
    OccupiedThree(a, b, b);
    OccupiedThree(b, a, a);
    var q := SortOf(c, Occupied(c), r);
    SortedPair(a, b, q);
  }

  lemma SortMergedTriple(a: Extent, b: Extent, c: Extent, s: seq<Extent>, r: seq<Extent>)
    requires a.len > 0 && b.len > 0 && c.len > 0 && a.lblk < b.lblk < c.lblk
    requires SortMerged(s, r) && (s == [a, c, b] || s == [a, b, c])
    ensures r == Merge([a, b, c])
  {
    hide Occupied, Merge, SortMerged;
    OccupiedThree(a, b, c);
    OccupiedThree(a, c, b);
    var q := SortOf(s, Occupied(s), r);
    assert multiset([a, b, c]) == multiset([a, c, b]);
    SortedTriple(a, b, c, q);
  }

  lemma SortMergedStrips(a: Extent, t: Extent, r: seq<Extent>)
    requires a.len > 0 && t.len == 0 && SortMerged([a, t], r)
    ensures r == [a]
  {
    hide Occupied, Merge, SortMerged, LblkCompar;
    OccupiedThree(a, t, t);
    var q := SortOf([a, t], [a], r);
    MembersSame([a], q);
    assert q[0] in q && q == [q[0]];
    MergeShort(q);
  }

  lemma SortMergedMiddle(a: Extent, t: Extent, b: Extent, r: seq<Extent>)
    requires a.len > 0 && t.len == 0 && b.len > 0 && a.lblk < b.lblk && SortMerged([a, t, b], r)
    ensures r == Merge([a, b])
  {
    hide Occupied, Merge, SortMerged;
    OccupiedThree(a, t, b);
    assert [a] + [] + [b] == [a, b];
    var q := SortOf([a, t, b], [a, b], r);
    SortedPair(a, b, q);
  }

  // ------------------------------------- a lone empty extent above block 0

  lemma CutOfEmpty(s: seq<Extent>, ex: Extent)
    requires LoneEmpty(s) && s[0].lblk > 0 && ex.lblk < TWO32 && ex.len < TWO32
    ensures Cut(s, ex) == s
  {
    ExEndExact(s[0]);
    ExEndExact(ex);
    assert s == [s[0]] && s[1..] == [];
    assert Pieces(s[0], ex) == [s[0]];
  }

  lemma LoneEmptyAway(s: seq<Extent>, ex: Extent, del: bool, r: seq<Extent>)
    requires LoneEmpty(s) && s[0].lblk > 0 && EditArg(ex, del) && Edited(s, ex, del, r)
    ensures ListState(r) && Den(r) == Apply(Den(s), ex, del) && NoLongRun(Den(r))
  {
    CutOfEmpty(s, ex);
    NothingMapped(s);
    hide NoLongRun;
    if del || ex.len == 0 {
      assert Apply(Den(s), ex, del).Keys == {};
      LowHasNoLongRun(Den(r));
    } else {
      assert Apply(Den(s), ex, del) == ExtentMap(ex);
      LoneEmptyThenAdd(s, ex, r);
      OneExtentNoLongRun(ex);
    }
  }

  lemma LoneEmptyOccupied(s: seq<Extent>, ex: Extent)
    requires LoneEmpty(s) && ex.len > 0
    ensures Occupied(s + [ex]) == [ex]
  {
    var c := s + [ex];
    assert c[..1] == s && c[1] == ex;
    assert s[..0] == [];
    assert Occupied(s) == [];
  }

  lemma LoneEmptyRelates(s: seq<Extent>, ex: Extent)
    requires LoneEmpty(s)
    ensures Relates(s + [ex], ExtentMap(ex))
  {
    forall l, t ensures Maps(s + [ex], l, t) <==> l in ExtentMap(ex) && ExtentMap(ex)[l] == t {
      MapsJoin(s, [ex], l, t);
      assert ex in [ex];
    }
  }

  lemma LoneEmptyThenAdd(s: seq<Extent>, ex: Extent, r: seq<Extent>)
    requires LoneEmpty(s) && Fits(ex) && ex.len > 0 && SortMerged(s + [ex], r)
    ensures WellFormed(r) && Den(r) == ExtentMap(ex)
  {
    hide Occupied, Relates, ExtentMap, SortMerged, Den, NoLongRun;
    LoneEmptyOccupied(s, ex);
    LoneEmptyRelates(s, ex);
    OneExtentNoLongRun(ex);
    SortMergeDenotes(s + [ex], r, ExtentMap(ex));
  }

  // -------------------------------------------- a lone empty extent at block 0

  lemma MergePair(a: Extent, b: Extent)
    ensures Merge([a, b]) == if Joins(a, b) then [a.(len := U32(a.len + b.len))] else [a, b]
  {
    assert [a, b][1..] == [b] && [a, b][2..] == [];
    assert [a.(len := U32(a.len + b.len))] + [] == [a.(len := U32(a.len + b.len))];
  }

  /** The second sort compares blocks, and lengths on equal blocks; it does so rightly exactly if they differ by an `int`. */
  lemma LblkComparExact(x: Extent, y: Extent)
    requires x.len < TWO32 && y.len < TWO32
    ensures x.lblk != y.lblk ==> (LblkCompar(x, y) <= 0 <==> x.lblk < y.lblk) && LblkCompar(x, y) != 0
    ensures x.lblk == y.lblk ==>
      ((LblkCompar(x, y) <= 0 <==> x.len <= y.len) <==> -(TWO31 as int) <= x.len - y.len < TWO31)
  {
  }

  /** The first sort puts longer extents first, but calls two extents equal when the longer one does not start behind the other. */
  lemma LenComparExact(x: Extent, y: Extent)
    ensures LenCompar(x, y) > 0 <==> x.len < y.len
    ensures LenCompar(x, y) == 0 <==> x.len >= y.len && x.lblk <= y.lblk
  {
  }

  lemma MergeTriple(a: Extent, b: Extent, c: Extent)
    ensures Merge([a, b, c]) ==
            if Joins(a, b) then Merge([a.(len := U32(a.len + b.len)), c]) else [a] + Merge([b, c])
  {
    hide Joins, U32, Merge;
    assert [a, b, c][1..] == [b, c] && [a, b, c][2..] == [c];
    MergeOnce([a, b, c]);
    assert [a.(len := U32(a.len + b.len))] + [c] == [a.(len := U32(a.len + b.len)), c];
  }

  lemma MergeOnce(s: seq<Extent>)
    requires |s| >= 2
    ensures Merge(s) == if Joins(s[0], s[1]) then Merge([s[0].(len := U32(s[0].len + s[1].len))] + s[2..]) else [s[0]] + Merge(s[1..])
  {
    hide Joins, U32;
  }

  lemma JoinsAt(x: Extent, y: Extent)
    requires x.lblk + x.len < TWO64 && Joins(x, y)
    ensures x.lblk + x.len == y.lblk
  {
  }

  /** What the cut makes of the empty extent at block 0: a tail of wrapped length. */
  lemma TrimAtOrigin(e: Extent, ex: Extent)
    requires e.lblk == 0 && e.len == 0 && ex.lblk < TWO32 && ex.len < TWO32 && !IsOrigin(ex)
    ensures var d, t := ex.lblk + ex.len, TrimFront(e, ex);
      && (d < TWO32 ==> t.len == TWO32 - d)
      && (d < TWO31 ==> t.lblk == d)
      && (TWO31 <= d < TWO32 ==> t.lblk == d + (TWO64 - TWO32))
      && (d >= TWO32 ==> t.len == if d == TWO32 then 0 else 2 * TWO32 - d)
      && (TWO32 <= d < TWO32 + TWO31 ==> t.lblk == d - TWO32)
      && (d >= TWO32 + TWO31 ==> t.lblk == TWO64 + d - 2 * TWO32)
  {
    ExEndExact(ex);
    var d := ex.lblk + ex.len;
    assert ExEnd(ex) + 1 - e.lblk == d;
  }

  lemma CutAtOrigin(e: Extent, ex: Extent)
    requires e.lblk == 0 && e.len == 0 && ex.lblk < TWO32 && ex.len < TWO32
    ensures IsOrigin(ex) ==> Cut([e], ex) == [e]
    ensures ex.lblk > 0 ==> Cut([e], ex) == [TrimBack(e, ex), TrimFront(e, ex)] && TrimBack(e, ex) == e.(len := ex.lblk)
    ensures ex.lblk == 0 && ex.len > 0 ==> Cut([e], ex) == [TrimFront(e, ex)]
  {
    ExEndExact(e);
    ExEndExact(ex);
    assert [e][1..] == [];
  }

  /** An empty edit beyond block 0 splits the empty extent into halves whose merge wraps to empty again. */
  lemma LoneEmptyOriginEmptyEdit(e: Extent, ex: Extent, del: bool, r: seq<Extent>)
    requires e.lblk == 0 && e.len == 0 && Fits(e)
    requires ex.len == 0 && ex.lblk < TWO31 && Edited([e], ex, del, r)
    ensures r == [e]
  {
    CutAtOrigin(e, ex);
    if ex.lblk > 0 {
      SplitHalvesRejoin(e, ex, r);
    }
  }

  lemma SplitHalvesJoin(e: Extent, ex: Extent)
    requires e.lblk == 0 && e.len == 0 && Fits(e) && 0 < ex.lblk < TWO31 && ex.len == 0
    ensures Joins(e.(len := ex.lblk), TrimFront(e, ex)) && U32(ex.lblk + TrimFront(e, ex).len) == 0
  {
    TrimAtOrigin(e, ex);
  }

  lemma SplitHalvesRejoin(e: Extent, ex: Extent, r: seq<Extent>)
    requires e.lblk == 0 && e.len == 0 && Fits(e) && 0 < ex.lblk < TWO31 && ex.len == 0
    requires SortMerged([e.(len := ex.lblk), TrimFront(e, ex)], r)
    ensures r == [e]
  {
    var a, t := e.(len := ex.lblk), TrimFront(e, ex);
    TrimAtOrigin(e, ex);
    SortMergedPair(a, t, [a, t], r);
    MergePair(a, t);
    SplitHalvesJoin(e, ex);
  }

  /** Any other edit of a lone empty extent at block 0 leaves blocks mapped that should not be, or loses the new ones. */
  lemma LoneEmptyOriginWrong(s: seq<Extent>, ex: Extent, del: bool, r: seq<Extent>)
    requires LoneEmpty(s) && s[0].lblk == 0 && EditArg(ex, del) && Edited(s, ex, del, r)
    requires ex.len > 0 || ex.lblk >= TWO31
    ensures Den(r) != Apply(Den(s), ex, del)
  {
    assert s == [s[0]];
    NothingMapped(s);
    OriginEditMaps(s[0], ex, del, r);
    hide Edited, Den;
    var m := Apply(Den(s), ex, del);
    assert forall l :: l in m ==> InHole(ex, l);
    if ex.len > 0 && !del {
      assert Holds(ex, ex.lblk);
      assert ex.lblk in m;
      DenDomain(r, ex.lblk);
    }
    forall l: nat | Mapped(r, l) ensures l in Den(r) {
      DenDomain(r, l);
    }
  }

  /** Some block outside the edit ends up mapped, or the first added block does not. */
  lemma OriginEditMaps(e: Extent, ex: Extent, del: bool, r: seq<Extent>)
    requires e.lblk == 0 && e.len == 0 && Fits(e) && EditArg(ex, del) && Edited([e], ex, del, r)
    requires ex.len > 0 || ex.lblk >= TWO31
    ensures (exists l: nat :: Mapped(r, l) && !InHole(ex, l)) || (ex.len > 0 && !del && !Mapped(r, ex.lblk))
  {
    hide Merge, Cut, SortMergedVia, TrimFront;
    CutAtOrigin(e, ex);
    TrimAtOrigin(e, ex);
    var a, t := e.(len := ex.lblk), TrimFront(e, ex);
    if ex.lblk == 0 {
      TrimEmpty(t, ex, del, r);
      assert !InHole(ex, t.lblk);
    } else {
      assert !InHole(ex, 0);
      if del || ex.len == 0 {
        SplitEmptyDelete(a, t, ex, r);
      } else if ex.lblk + ex.len < TWO32 {
        SplitEmptyAdd(a, t, ex, r);
      } else {
        SplitEmptyFarAdd(a, t, ex, r);
      }
    }
  }

  /** An added range that reaches block 2^32 or beyond. */
  lemma SplitEmptyFarAdd(a: Extent, t: Extent, ex: Extent, r: seq<Extent>)
    requires a.lblk == 0 && a.len == ex.lblk > 0 && 0 < ex.len < TWO32 && ex.lblk < TWO32 <= ex.lblk + ex.len
    requires t.len == if ex.lblk + ex.len == TWO32 then 0 else 2 * TWO32 - (ex.lblk + ex.len)
    requires t.lblk == ex.lblk + ex.len - TWO32 + if ex.lblk + ex.len < TWO32 + TWO31 then 0 else TWO64 - TWO32
    requires SortMerged([a, t] + [ex], r)
    ensures Mapped(r, 0) || !Mapped(r, ex.lblk)
  {
    hide SortMerged, Merge, Joins, U32;
    assert [a, t] + [ex] == [a, t, ex];
    if t.len == 0 {
      SortMergedMiddle(a, t, ex, r);
      MergePair(a, ex);
      assert U32(a.len + ex.len) == 0;
      assert !Joins(a, ex) ==> r[0] in r && Holds(r[0], 0);
    } else if t.lblk < ex.lblk {
      SortMergedTriple(a, t, ex, [a, t, ex], r);
      MergeTriple(a, t, ex);
      JoinsOnly(a, t);
      assert r[0] in r && Holds(r[0], 0);
    } else {
      SortMergedTriple(a, ex, t, [a, t, ex], r);
      MergeTriple(a, ex, t);
      var y := a.(len := U32(a.len + ex.len));
      MergePair(y, t);
      JoinsOnly(y, t);
      assert r[0] in r && Holds(r[0], 0);
    }
  }

  lemma JoinsOnly(x: Extent, y: Extent)
    requires x.lblk + x.len < TWO64
    ensures Joins(x, y) ==> x.lblk + x.len == y.lblk
  {
  }

  lemma SplitEmptyDelete(a: Extent, t: Extent, ex: Extent, r: seq<Extent>)
    requires a.lblk == 0 && a.len == ex.lblk && 0 < ex.lblk < TWO32
    requires t.len > 0 ==> t.lblk > 0 && t.lblk != ex.lblk
    requires SortMerged([a, t], r)
    ensures Mapped(r, 0)
  {
    if t.len == 0 {
      SortMergedStrips(a, t, r);
    } else {
      SortMergedPair(a, t, [a, t], r);
      MergePair(a, t);
      if Joins(a, t) {
        JoinsAt(a, t);
        assert false;
      }
    }
    assert r[0] in r && Holds(r[0], 0);
  }

  lemma SplitEmptyAdd(a: Extent, t: Extent, ex: Extent, r: seq<Extent>)
    requires a.lblk == 0 && a.len == ex.lblk > 0 && ex.len > 0 && ex.lblk + ex.len < TWO32
    requires t.lblk >= ex.lblk + ex.len && t.len == TWO32 - (ex.lblk + ex.len)
    requires SortMerged([a, t] + [ex], r)
    ensures Mapped(r, 0) || !Mapped(r, ex.lblk)
  {
    hide SortMerged, Merge, Joins, U32;
    assert [a, t] + [ex] == [a, t, ex];
    SortMergedTriple(a, ex, t, [a, t, ex], r);
    MergeTriple(a, ex, t);
    if Joins(a, ex) {
      var y := a.(len := U32(a.len + ex.len));
      assert y.len == a.len + ex.len;
      MergePair(y, t);
      assert U32(y.len + t.len) == 0;
      assert !Joins(y, t) ==> r[0] in r && Holds(r[0], 0);
    } else {
      assert r[0] == a;
      assert r[0] in r && Holds(r[0], 0);
    }
  }

  lemma TrimEmpty(t: Extent, ex: Extent, del: bool, r: seq<Extent>)
    requires ex.lblk == 0 && 0 < ex.len < TWO32 && t.lblk >= ex.len && t.len == TWO32 - ex.len
    requires SortMerged(Appended([t], ex, del), r)
    ensures Mapped(r, t.lblk) || (!del && !Mapped(r, 0))
  {
    if del {
      assert r == [t];
      assert t in r && Holds(t, t.lblk);
    } else {
      assert Appended([t], ex, del) == [t, ex];
      SortMergedPair(ex, t, [t, ex], r);
      MergePair(ex, t);
      if !Joins(ex, t) {
        assert t in r && Holds(t, t.lblk);
      }
    }
  }

  // -------------------------------------------- an empty edit at block 0

  lemma {:induction false} OriginEmptiesAll(s: seq<Extent>, ex: Extent)
    requires WellFormed(s) && IsOrigin(ex)
    ensures |Cut(s, ex)| == |s| && forall e :: e in Cut(s, ex) ==> e.len == 0
  {
    if s != [] {
      TailWellFormed(s);
      OriginEmptiesAll(s[1..], ex);
      ExEndExact(s[0]);
      ExEndExact(ex);
      assert Pieces(s[0], ex) == [s[0].(len := 0)];
    }
  }

  /** An edit of length 0 at block 0 wipes the whole list, since its end wraps to 2^64 - 1. */
  lemma OriginWrong(s: seq<Extent>, ex: Extent, del: bool, r: seq<Extent>)
    requires WellFormed(s) && s != [] && IsOrigin(ex) && Edited(s, ex, del, r)
    ensures Den(r) != Apply(Den(s), ex, del)
  {
    OriginEmptiesAll(s, ex);
    var c := Cut(s, ex);
    if |c| >= 2 {
      var t: seq<Extent>, q: seq<Extent> :| SortMergedVia(c, t, q, r);
      StripKeepsOccupied(c, t);
      OccupiedMembers(c);
      MembersSame(Occupied(c), UpToEmpty(t));
      if UpToEmpty(t) != [] {
        assert UpToEmpty(t)[0] in UpToEmpty(t);
        assert false;
      }
    }
    NothingMapped(r);
    assert s[0] in s && Holds(s[0], s[0].lblk);
    DenDomain(s, s[0].lblk);
    assert s[0].lblk in Apply(Den(s), ex, del);
  }

  // ------------------------------------------------- an overflowing offset

  ghost predicate Narrow(s: seq<Extent>) {
    forall e :: e in s ==> e.lblk < TWO64 && e.len < TWO32
  }

  lemma {:induction false} FarCutLoses(s: seq<Extent>, ex: Extent, far: Extent)
    requires WellFormed(s) && ex.lblk < TWO32 && ex.len < TWO32 && !IsOrigin(ex)
    requires far in s && FarCut(far, ex)
    ensures !Mapped(Cut(s, ex), ex.lblk + ex.len) && Narrow(Cut(s, ex))
    ensures Holds(far, ex.lblk + ex.len)
  {
    TailWellFormed(s);
    var e, rest := s[0], s[1..];
    var a := ex.lblk + ex.len;
    ExEndExact(e);
    ExEndExact(ex);
    var pieces := Pieces(e, ex);
    if FarCut(e, ex) {
      TrimFrontFar(e, ex);
      assert Cut(s, ex) == pieces + rest;
      assert forall x :: x in Cut(s, ex) <==> x in pieces || x in rest;
      if far != e {
        ExEndExact(far);
        assert false;
      }
    } else {
      assert far in rest;
      ExEndExact(far);
      assert far in s;
      FarCutLoses(rest, ex, far);
      PiecesDenote(e, ex);
      assert GoesOn(e, ex);
      assert Cut(s, ex) == pieces + Cut(rest, ex);
      assert forall x :: x in Cut(s, ex) <==> x in pieces || x in Cut(rest, ex);
      forall x | x in pieces ensures !Holds(x, a) && x.lblk < TWO64 && x.len < TWO32 {
        assert PieceOf(x, e, ex);
      }
    }
  }

  ghost predicate Ascending(t: seq<Extent>) {
    forall i :: 0 <= i < |t| - 1 ==> t[i].lblk <= t[i + 1].lblk
  }

  lemma JoinAddsNothing(t: seq<Extent>, x: Extent, l: nat)
    requires Ascending(t) && Narrow(t) && |t| >= 2 && Joins(t[0], t[1])
    requires x == t[0].(len := U32(t[0].len + t[1].len))
    ensures Ascending([x] + t[2..]) && Narrow([x] + t[2..])
    ensures Mapped([x] + t[2..], l) ==> Mapped(t, l)
  {
    var u := [x] + t[2..];
    assert t[0] in t && t[1] in t && t[0].lblk <= t[0 + 1].lblk;
    assert forall y :: y in u <==> y == x || y in t[2..];
    assert forall y :: y in t[2..] ==> y in t;
    forall i | 0 <= i < |u| - 1 ensures u[i].lblk <= u[i + 1].lblk {
      assert t[i + 1].lblk <= t[i + 1 + 1].lblk;
    }
    if Mapped(u, l) {
      var y :| y in u && Holds(y, l);
      if y == x {
        assert t[0].lblk + t[0].len == t[1].lblk;
        assert Holds(t[0], l) || Holds(t[1], l);
      }
    }
  }

  /** Merging maps no block that was not mapped, even where a length wraps. */
  lemma {:induction false} MergeAddsNothing(t: seq<Extent>, l: nat)
    requires Ascending(t) && Narrow(t) && Mapped(Merge(t), l)
    ensures Mapped(t, l)
    decreases |t|
  {
    if |t| >= 2 {
      if Joins(t[0], t[1]) {
        var x := t[0].(len := U32(t[0].len + t[1].len));
        JoinAddsNothing(t, x, l);
        MergeAddsNothing([x] + t[2..], l);
      } else {
        var e :| e in Merge(t) && Holds(e, l);
        assert t[0] in t;
        if e != t[0] {
          assert e in Merge(t[1..]);
          forall i | 0 <= i < |t[1..]| - 1 ensures t[1..][i].lblk <= t[1..][i + 1].lblk {
            assert t[i + 1].lblk <= t[i + 1 + 1].lblk;
          }
          MergeAddsNothing(t[1..], l);
        }
      }
    }
  }

  lemma SortMergeAddsNothing(c: seq<Extent>, r: seq<Extent>, l: nat)
    requires SortMerged(c, r) && Narrow(c) && Mapped(r, l)
    ensures Mapped(c, l)
  {
    if |c| >= 2 {
      var t: seq<Extent>, q: seq<Extent> :| SortMergedVia(c, t, q, r);
      StripKeepsOccupied(c, t);
      OccupiedMembers(c);
      MembersSame(Occupied(c), UpToEmpty(t));
      MembersSame(UpToEmpty(t), q);
      forall i | 0 <= i < |q| - 1 ensures q[i].lblk <= q[i + 1].lblk {
        SortedChain(q, i, i + 1);
      }
      MergeAddsNothing(q, l);
      var e :| e in q && Holds(e, l);
      assert e in c;
    }
  }

  /** A tail whose offset does not fit an int lands elsewhere, so its first block is lost. */
  lemma FarCutWrong(s: seq<Extent>, ex: Extent, del: bool, r: seq<Extent>, far: Extent)
    requires WellFormed(s) && EditArg(ex, del) && !IsOrigin(ex) && Edited(s, ex, del, r)
    requires far in s && FarCut(far, ex)
    ensures Den(r) != Apply(Den(s), ex, del)
  {
    hide Den, SortMerged, Cut, FarCut;
    var a := ex.lblk + ex.len;
    FarCutLoses(s, ex, far);
    DenDomain(s, a);
    assert a in Apply(Den(s), ex, del);
    DenDomain(r, a);
    if Mapped(r, a) {
      var c := Appended(Cut(s, ex), ex, del);
      assert forall e :: e in c ==> e in Cut(s, ex) || e == ex;
      SortMergeAddsNothing(c, r, a);
      assert false;
    }
  }

  // ------------------------------------------------- a length that wraps

  lemma AscendingOf(s: seq<Extent>)
    requires WellFormed(s)
    ensures Ascending(s) && Narrow(s)
  {
    assert forall i :: 0 <= i < |s| ==> s[i] in s;
  }

  /** Joining two extents of 2^32 blocks together wraps the length, and the last block is lost. */
  lemma WrappedJoin(s: seq<Extent>)
    requires WellFormed(s) && |s| >= 2 && Joins(s[0], s[1]) && s[0].len + s[1].len >= TWO32
    ensures var lost := s[1].lblk + s[1].len - 1; Mapped(s, lost) && !Mapped(Merge(s), lost)
  {
    hide Merge, Joins;
    var lost := s[1].lblk + s[1].len - 1;
    var x := s[0].(len := U32(s[0].len + s[1].len));
    assert s[0] in s && s[1] in s && Holds(s[1], lost);
    AscendingOf(s);
    JoinAddsNothing(s, x, lost);
    MergeHead(s);
    var u := [x] + s[2..];
    assert x.len < s[0].len;
    forall y | y in u ensures !Holds(y, lost) {
      if y != x {
        var i :| 0 <= i < |s[2..]| && s[2..][i] == y;
        assert s[1].lblk + s[1].len <= s[i + 2].lblk;
      }
    }
    if Mapped(Merge(s), lost) {
      MergeAddsNothing(u, lost);
      assert false;
    }
  }

  lemma MergeHead(s: seq<Extent>)
    requires |s| >= 2
    ensures Joins(s[0], s[1]) ==> Merge(s) == Merge([s[0].(len := U32(s[0].len + s[1].len))] + s[2..])
    ensures !Joins(s[0], s[1]) ==> Merge(s) == [s[0]] + Merge(s[1..])
  {
  }

  /** If the map has a run of 2^32 blocks, the merge loses a block of it. */
  lemma {:induction false} MergeLoses(s: seq<Extent>, l: nat) returns (lost: nat)
    requires WellFormed(s) && LongRun(Den(s), l)
    ensures Mapped(s, lost) && !Mapped(Merge(s), lost)
    decreases |s|
  {
    hide Den, Merge, Joins, Continues;
    RunEnds(Den(s), l);
    DenDomain(s, l);
    if Holds(s[0], l) {
      assert s[0] in s;
      RunGoesOn(s, 0, l);
      assert s[1] in s;
      JoinsExact(s[0], s[1]);
    }
    if |s| >= 2 && Joins(s[0], s[1]) {
      if s[0].len + s[1].len >= TWO32 {
        WrappedJoin(s);
        lost := s[1].lblk + s[1].len - 1;
      } else {
        var x := s[0].(len := U32(s[0].len + s[1].len));
        JoinStep(s, x);
        MergeHead(s);
        lost := MergeLoses([x] + s[2..], l);
        MappedIffMaps([x] + s[2..], lost);
        MappedIffMaps(s, lost);
      }
    } else {
      TailRun(s, l);
      TailWellFormed(s);
      lost := MergeLoses(s[1..], l);
      LostBehind(s, lost);
    }
  }

  lemma LostBehind(s: seq<Extent>, lost: nat)
    requires WellFormed(s) && s != [] && (|s| >= 2 ==> !Joins(s[0], s[1]))
    requires Mapped(s[1..], lost) && !Mapped(Merge(s[1..]), lost)
    ensures Mapped(s, lost) && !Mapped(Merge(s), lost)
  {
    hide Merge, Joins;
    TailWellFormed(s);
    var e :| e in s[1..] && Holds(e, lost);
    assert e in s;
    MergeHead(s);
    assert !Holds(s[0], lost);
  }

  /** An edit whose intended map has a run of 2^32 blocks loses a block of it. */
  lemma LongRunWrong(s: seq<Extent>, ex: Extent, del: bool, r: seq<Extent>)
    requires WellFormed(s) && EditArg(ex, del) && CutSafe(s, ex) && !IsOrigin(ex) && Edited(s, ex, del, r)
    requires !NoLongRun(Apply(Den(s), ex, del))
    ensures Den(r) != Apply(Den(s), ex, del)
  {
    hide Den, Apply, SortMerged, Cut, LongRun, Relates;
    var m := Apply(Den(s), ex, del);
    var c := Cut(s, ex);
    var a := Appended(c, ex, del);
    CutDenotes(s, ex);
    CutApart(s, ex, del, c);
    AppliedRelates(s, ex, del, a);
    var l: nat :| LongRun(m, l);
    RunEnds(m, l);
    SomeOccupied(a, m, l);
    var q := SortedList(a, r, m);
    var lost := MergeLoses(q, l);
    DenDomain(q, lost);
    DenDomain(r, lost);
  }

  lemma SomeOccupied(a: seq<Extent>, m: Mapping, l: nat)
    requires Relates(a, m) && l in m
    ensures |a| < 2 ==> Positive(a)
  {
    assert Maps(a, l, m[l]);
  }

  lemma LoneEmptySafe(s: seq<Extent>, ex: Extent, del: bool, r: seq<Extent>)
    requires LoneEmpty(s) && s[0].lblk == 0 && ex.len == 0 && ex.lblk < TWO31 && Edited(s, ex, del, r)
    ensures r == s && Den(r) == Apply(Den(s), ex, del) && EditSafe(s, ex, del)
  {
    assert s == [s[0]];
    LoneEmptyOriginEmptyEdit(s[0], ex, del, r);
    NothingMapped(s);
    assert Apply(Den(s), ex, del).Keys == {};
    LowHasNoLongRun(Apply(Den(s), ex, del));
    ExEndExact(ex);
  }

  lemma LoneEmptyMeaning(s: seq<Extent>, ex: Extent, del: bool, r: seq<Extent>)
    requires LoneEmpty(s) && EditArg(ex, del) && Edited(s, ex, del, r)
    ensures EditSafe(s, ex, del) <==> Den(r) == Apply(Den(s), ex, del)
    ensures EditSafe(s, ex, del) ==> ListState(r)
  {
    hide Edited, Den, Apply;
    assert s[0] in s;
    ExEndExact(s[0]);
    if s[0].lblk > 0 {
      ExEndExact(ex);
      LoneEmptyAway(s, ex, del, r);
    } else if ex.len == 0 && ex.lblk < TWO31 {
      LoneEmptySafe(s, ex, del, r);
    } else {
      ExEndExact(ex);
      LoneEmptyOriginWrong(s, ex, del, r);
    }
  }

  // ---------------------------------------------------------- the theorem

  /** The exact condition: an edit denotes the intended map if and only if it is safe. */
  lemma EditMeaning(s: seq<Extent>, ex: Extent, del: bool, r: seq<Extent>)
    requires ListState(s) && EditArg(ex, del) && Edited(s, ex, del, r)
    ensures EditSafe(s, ex, del) <==> Den(r) == Apply(Den(s), ex, del)
    ensures EditSafe(s, ex, del) ==> ListState(r)
  {
    hide Den, Apply, Edited, NoLongRun;
    if LoneEmpty(s) {
      LoneEmptyMeaning(s, ex, del, r);
    } else if IsOrigin(ex) {
      if s == [] {
        NothingToWipe(ex, del, r);
      } else {
        assert s[0] in s;
        OriginWrong(s, ex, del, r);
      }
    } else if far :| far in s && FarCut(far, ex) {
      FarCutWrong(s, ex, del, r, far);
    } else if !NoLongRun(Apply(Den(s), ex, del)) {
      LongRunWrong(s, ex, del, r);
    } else {
      SafeEditWellFormed(s, ex, del, r);
    }
  }

  lemma NothingToWipe(ex: Extent, del: bool, r: seq<Extent>)
    requires IsOrigin(ex) && Edited([], ex, del, r)
    ensures r == [] && Den(r) == Apply(Den([]), ex, del) && NoLongRun(Den(r))
  {
    assert Apply(Den([]), ex, del).Keys == {};
    LowHasNoLongRun(Den(r));
  }

  /** A merge that wraps: one more block after 2^32 - 1 others leaves a single empty extent, and the whole map is lost. */
  lemma WrappedMergeWitness(r: seq<Extent>)
    requires Edited([Extent(0, 0, 0xFFFF_FFFF, false)], Extent(0xFFFF_FFFF, 0xFFFF_FFFF, 1, false), false, r)
    ensures r == [Extent(0, 0, 0, false)]
    ensures CutSafe([Extent(0, 0, 0xFFFF_FFFF, false)], Extent(0xFFFF_FFFF, 0xFFFF_FFFF, 1, false))
  {
    hide Merge, SortMerged;
    var e, ex := Extent(0, 0, 0xFFFF_FFFF, false), Extent(0xFFFF_FFFF, 0xFFFF_FFFF, 1, false);
    assert Pieces(e, ex) == [e] && [e][1..] == [];
    assert Cut([], ex) == [] && [e] + [] == [e];
    assert Cut([e], ex) == [e];
    assert [e] + [ex] == [e, ex];
    SortMergedPair(e, ex, [e, ex], r);
    MergePair(e, ex);
  }

  /** Deleting the only extent leaves a lone empty extent; at block 0 the next edit is then wrong. */
  lemma DeleteThenAddWitness(r: seq<Extent>)
    requires Edited([Extent(0, 100, 5, false)], Extent(0, 0, 5, false), true, r)
    ensures Den(r) == map[] && LoneEmpty(r)
    ensures forall r' :: Edited(r, Extent(7, 200, 1, false), false, r') ==> Den(r') != ExtentMap(Extent(7, 200, 1, false))
  {
    var e, ex, ex2 := Extent(0, 100, 5, false), Extent(0, 0, 5, false), Extent(7, 200, 1, false);
    DeletedAll(e, ex, r);
    hide Edited, Den, EditSafe;
    NothingMapped(r);
    assert LoneEmpty(r) && EditArg(ex2, false);
    AddToNothing(ex2);
    forall r' | Edited(r, ex2, false, r') ensures Den(r') != ExtentMap(ex2) {
      LoneEmptyOriginWrong(r, ex2, false, r');
    }
  }

  lemma DeletedAll(e: Extent, ex: Extent, r: seq<Extent>)
    requires e == Extent(0, 100, 5, false) && ex == Extent(0, 0, 5, false) && Edited([e], ex, true, r)
    ensures r == [Extent(0, 100, 0, false)]
  {
    hide SortMerged;
    ExEndExact(e);
    ExEndExact(ex);
    assert Pieces(e, ex) == [e.(len := 0)] && [e][1..] == [];
    assert Cut([], ex) == [] && Cut([e], ex) == [e.(len := 0)];
    ShortSorted([e.(len := 0)], r);
  }

  lemma AddToNothing(ex: Extent)
    ensures Apply(map[], ex, false) == ExtentMap(ex)
  {
    assert Without(map[], ex.lblk, ex.len) == map[];
  }
}
