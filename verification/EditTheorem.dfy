/**
 What an edit of an extent list means: exactly when the list that comes out of
 the cut, the two sorts and the merge denotes the intended map.
 */
module EditTheorem {
  import opened Machine
  import opened Extents
  import opened ExtentEditor

  // ---------------------------------------------------- the sort by length

  function Occupied(s: seq<Extent>): seq<Extent> {
    if s == [] then [] else Occupied(s[..|s| - 1]) + if s[|s| - 1].len > 0 then [s[|s| - 1]] else []
  }

  lemma {:induction false} OccupiedCount(s: seq<Extent>, x: Extent)
    ensures multiset(Occupied(s))[x] == if x.len > 0 then multiset(s)[x] else 0
  {
    if s != [] {
      var front, last := s[..|s| - 1], s[|s| - 1];
      OccupiedCount(front, x);
      assert s == front + [last];
      assert Occupied(s) == Occupied(front) + if last.len > 0 then [last] else [];
      hide Occupied;
    }
  }

  lemma {:induction false} UpToEmptyCount(t: seq<Extent>, x: Extent)
    requires NoInversion(LenCompar, t)
    ensures multiset(UpToEmpty(t))[x] == if x.len > 0 then multiset(t)[x] else 0
  {
    if t != [] {
      assert t == [t[0]] + t[1..];
      TailNoInversion(LenCompar, t);
      if t[0].len == 0 {
        AllEmpty(t);
        if x.len > 0 {
          assert x !in t;
        }
      } else {
        UpToEmptyCount(t[1..], x);
      }
    }
  }

  lemma TailNoInversion(cmp: (Extent, Extent) -> int, t: seq<Extent>)
    requires NoInversion(cmp, t) && t != []
    ensures NoInversion(cmp, t[1..])
  {
    forall i | 0 <= i < |t[1..]| - 1 ensures cmp(t[1..][i], t[1..][i + 1]) <= 0 {
      assert cmp(t[i + 1], t[i + 1 + 1]) <= 0;
    }
  }

  lemma {:induction false} AllEmpty(t: seq<Extent>)
    requires NoInversion(LenCompar, t) && t != [] && t[0].len == 0
    ensures forall e :: e in t ==> e.len == 0
  {
    if |t| > 1 {
      assert LenCompar(t[0], t[1]) <= 0;
      TailNoInversion(LenCompar, t);
      AllEmpty(t[1..]);
      assert t == [t[0]] + t[1..];
    }
  }

  /** However ties fall, the sort by length followed by the strip keeps exactly the non-empty extents. */
  lemma StripKeepsOccupied(c: seq<Extent>, t: seq<Extent>)
    requires Sorting(LenCompar, c, t)
    ensures SameMembers(Occupied(c), UpToEmpty(t))
  {
    forall x ensures multiset(Occupied(c))[x] == multiset(UpToEmpty(t))[x] {
      OccupiedCount(c, x);
      UpToEmptyCount(t, x);
    }
  }

  lemma OccupiedMembers(c: seq<Extent>)
    ensures forall e :: e in Occupied(c) <==> e in c && e.len > 0
    ensures forall l, t :: Maps(Occupied(c), l, t) <==> Maps(c, l, t)
  {
    forall e ensures e in Occupied(c) <==> e in c && e.len > 0 {
      OccupiedCount(c, e);
      assert e in Occupied(c) <==> multiset(Occupied(c))[e] > 0;
      assert e in c <==> multiset(c)[e] > 0;
    }
    forall l, t ensures Maps(Occupied(c), l, t) <==> Maps(c, l, t) {
      if Maps(c, l, t) {
        var e :| e in c && Covers(e, l, t);
        assert e in Occupied(c);
      }
      if Maps(Occupied(c), l, t) {
        var e :| e in Occupied(c) && Covers(e, l, t);
        assert e in c;
      }
    }
  }

  // ----------------------------------------------- the sort by logical block

  lemma {:induction false} SortedChain(q: seq<Extent>, i: nat, j: nat)
    requires NoInversion(LblkCompar, q) && i <= j < |q|
    ensures q[i].lblk <= q[j].lblk
    decreases j - i
  {
    if i < j {
      SortedChain(q, i, j - 1);
      assert LblkCompar(q[j - 1], q[j - 1 + 1]) <= 0;
    }
  }

  lemma TwiceCounted(q: seq<Extent>, i: nat, j: nat)
    requires i < j < |q| && q[i] == q[j]
    ensures multiset(q)[q[i]] >= 2
  {
    assert q == q[..j] + q[j..];
    assert q[i] in q[..j] && q[j] in q[j..];
    assert multiset(q[..j])[q[i]] >= 1 && multiset(q[j..])[q[i]] >= 1;
  }

  lemma SortedApartIsSpaced(q: seq<Extent>)
    requires Positive(q) && Apart(q) && NoInversion(LblkCompar, q)
    ensures Spaced(q)
  {
    forall i, j | 0 <= i < j < |q| ensures q[i].lblk + q[i].len <= q[j].lblk {
      SortedChain(q, i, j);
      if q[i] == q[j] {
        TwiceCounted(q, i, j);
        assert false;
      }
      assert q[i] in q && q[j] in q;
      assert Disjoint(q[i], q[j]);
    }
  }

  // -------------------------------------------------------------- the merge

  lemma JoinsExact(x: Extent, y: Extent)
    requires Fits(x) && Fits(y) && x.len > 0
    ensures Joins(x, y) <==> Adjoins(x, y)
  {
  }

  /** No two neighbours could still be joined. */
  ghost predicate Merged(s: seq<Extent>) {
    forall i :: 0 <= i < |s| - 1 ==> !Joins(s[i], s[i + 1])
  }

  ghost predicate MergeOutcome(s: seq<Extent>, r: seq<Extent>) {
    && WellFormed(r) && Merged(r)
    && |r| <= |s| && (s == [] <==> r == [])
    && (s != [] ==> r[0].lblk == s[0].lblk && r[0].pblk == s[0].pblk && r[0].uninit == s[0].uninit)
    && (forall l, t :: Maps(r, l, t) <==> Maps(s, l, t))
  }

  /** Joining the first two extents keeps the list well-formed and its map. */
  lemma JoinStep(s: seq<Extent>, x: Extent)
    requires WellFormed(s) && |s| >= 2 && Joins(s[0], s[1]) && s[0].len + s[1].len < TWO32
    requires x == s[0].(len := U32(s[0].len + s[1].len))
    ensures WellFormed([x] + s[2..]) && Den([x] + s[2..]) == Den(s)
    ensures forall l, t :: Maps([x] + s[2..], l, t) <==> Maps(s, l, t)
  {
    assert s[0] in s && s[1] in s;
    JoinsExact(s[0], s[1]);
    assert x.len == s[0].len + s[1].len;
    JoinWellFormed(s, x);
    forall l, t ensures Maps([x] + s[2..], l, t) <==> Maps(s, l, t) {
      assert s == [s[0], s[1]] + s[2..];
      MapsJoin([x], s[2..], l, t);
      MapsJoin([s[0], s[1]], s[2..], l, t);
      PairMaps(s[0], s[1], x, l, t);
    }
    SameDen(s, [x] + s[2..]);
  }

  lemma JoinWellFormed(s: seq<Extent>, x: Extent)
    requires WellFormed(s) && |s| >= 2 && Adjoins(s[0], s[1]) && s[0].len + s[1].len < TWO32
    requires x == s[0].(len := s[0].len + s[1].len)
    ensures WellFormed([x] + s[2..])
  {
    var rest := s[2..];
    assert s[1..][1..] == rest && s[1..][0] == s[1];
    TailWellFormed(s);
    TailWellFormed(s[1..]);
    hide WellFormed, Adjoins;
    ConsWellFormed(x, rest);
  }

  lemma ConsWellFormed(x: Extent, rest: seq<Extent>)
    requires WellFormed(rest) && x.len > 0 && Fits(x) && forall e :: e in rest ==> x.lblk + x.len <= e.lblk
    ensures WellFormed([x] + rest)
  {
    SpacedJoin([x], rest);
    assert forall e :: e in [x] + rest <==> e == x || e in rest;
  }

  /** Keeping the first extent apart from a merged rest. */
  lemma KeepStep(s: seq<Extent>, m: seq<Extent>)
    requires WellFormed(s) && |s| >= 2 && !Joins(s[0], s[1])
    requires MergeOutcome(s[1..], m)
    ensures MergeOutcome(s, [s[0]] + m)
  {
    TailWellFormed(s);
    var r := [s[0]] + m;
    assert forall e :: e in r <==> e == s[0] || e in m;
    assert s[0] in s && s[1] in s && m[0] in m;
    MergedAfter(s[0], s[1..], m);
    forall l, t ensures Maps(r, l, t) <==> Maps(s, l, t) {
      MapsJoin([s[0]], m, l, t);
      assert s == [s[0]] + s[1..];
      MapsJoin([s[0]], s[1..], l, t);
    }
    JoinsExact(s[0], s[1]);
    JoinsExact(s[0], m[0]);
    forall i | 0 <= i < |r| - 1 ensures !Joins(r[i], r[i + 1]) {
      if i > 0 {
        assert !Joins(m[i - 1], m[i - 1 + 1]);
      }
    }
  }

  /** If no run is too long, merging keeps order, disjointness and the map, and leaves nothing to merge. */
  lemma {:induction false} MergeDenotes(s: seq<Extent>)
    requires WellFormed(s) && NoLongRun(Den(s))
    ensures MergeOutcome(s, Merge(s))
    decreases |s|
  {
    hide Den;
    if |s| >= 2 {
      if Joins(s[0], s[1]) {
        JoinIsShort(s);
        var x := s[0].(len := U32(s[0].len + s[1].len));
        JoinStep(s, x);
        MergeDenotes([x] + s[2..]);
      } else {
        TailWellFormed(s);
        TailNoLongRun(s);
        MergeDenotes(s[1..]);
        KeepStep(s, Merge(s[1..]));
      }
    }
  }

  lemma JoinIsShort(s: seq<Extent>)
    requires WellFormed(s) && |s| >= 2 && Joins(s[0], s[1]) && NoLongRun(Den(s))
    ensures s[0].len + s[1].len < TWO32
  {
    assert s[0] in s && s[1] in s;
    JoinsExact(s[0], s[1]);
    if s[0].len + s[1].len >= TWO32 {
      PairRun(s);
      assert false;
    }
  }

  lemma PairMaps(a: Extent, b: Extent, x: Extent, l: nat, t: Target)
    requires a.lblk + a.len == b.lblk && a.pblk + a.len == b.pblk && a.uninit == b.uninit
    requires x == a.(len := a.len + b.len)
    ensures Maps([a, b], l, t) <==> Maps([x], l, t)
  {
    assert forall e :: e in [a, b] <==> e == a || e == b;
    assert x in [x] && a in [a, b] && b in [a, b];
    assert Covers(x, l, t) <==> Covers(a, l, t) || Covers(b, l, t);
  }

  lemma MergedAfter(x: Extent, s: seq<Extent>, m: seq<Extent>)
    requires WellFormed(m) && s != [] && m != [] && m[0].lblk == s[0].lblk
    requires x.lblk + x.len <= s[0].lblk
    ensures Spaced([x] + m)
  {
    forall e | e in m ensures x.lblk + x.len <= e.lblk {
      var i :| 0 <= i < |m| && m[i] == e;
    }
    SpacedJoin([x], m);
  }

  // --------------------------------------------------- sort and merge at once

  /** `s` relates exactly the pairs of `m`, whatever its order. */
  ghost predicate Relates(s: seq<Extent>, m: Mapping) {
    forall l, t :: Maps(s, l, t) <==> (l in m && m[l] == t)
  }

  lemma RelatesDen(s: seq<Extent>, m: Mapping)
    requires Positive(s) && Spaced(s) && Relates(s, m)
    ensures Den(s) == m
  {
    SpacedIsApart(s);
    SameMapsSameDen(s, m);
  }

  /** What the two sorts and the strip hand to the merge. */
  lemma SortedList(c: seq<Extent>, r: seq<Extent>, m: Mapping) returns (q: seq<Extent>)
    requires SortMerged(c, r) && InRange(c) && Apart(Occupied(c)) && Relates(c, m)
    requires |c| < 2 ==> Positive(c)
    ensures WellFormed(q) && Den(q) == m && r == Merge(q)
  {
    hide Den, Merge;
    if |c| < 2 {
      q := c;
      MergeShort(c);
    } else {
      var t, q' :| SortMergedVia(c, t, q', r);
      StripKeepsOccupied(c, t);
      OccupiedMembers(c);
      MembersSame(Occupied(c), UpToEmpty(t));
      MapsOfSame(Occupied(c), UpToEmpty(t));
      if UpToEmpty(t) == [] {
        q := [];
        MergeShort(q);
      } else {
        q := q';
        MembersSame(UpToEmpty(t), q);
        MapsOfSame(UpToEmpty(t), q);
        SortedApartIsSpaced(q);
      }
    }
    RelatesDen(q, m);
  }

  lemma MergeShort(s: seq<Extent>)
    requires |s| < 2
    ensures Merge(s) == s
  {
  }

  /** If the map has no run that is too long, sorting and merging any list of clear pieces keeps it, whichever way qsort breaks ties. */
  lemma SortMergeDenotes(c: seq<Extent>, r: seq<Extent>, m: Mapping)
    requires SortMerged(c, r) && InRange(c) && Apart(Occupied(c)) && Relates(c, m) && NoLongRun(m)
    requires |c| < 2 ==> Positive(c)
    ensures WellFormed(r) && Merged(r) && Den(r) == m
  {
    hide Den, Merge, SortMerged;
    var q := SortedList(c, r, m);
    MergeDenotes(q);
    SameDen(q, r);
  }

  lemma MapsOfSame(s: seq<Extent>, t: seq<Extent>)
    requires forall e :: e in s <==> e in t
    ensures forall l, u :: Maps(s, l, u) <==> Maps(t, l, u)
  {
    forall l, u ensures Maps(s, l, u) <==> Maps(t, l, u) {
      if Maps(s, l, u) {
        var e :| e in s && Covers(e, l, u);
        assert e in t;
      }
      if Maps(t, l, u) {
        var e :| e in t && Covers(e, l, u);
        assert e in s;
      }
    }
  }

  // ----------------------------------------------- the edit, when it is safe

  lemma {:induction false} OccupiedSpaced(c: seq<Extent>)
    requires Spaced(c)
    ensures Spaced(Occupied(c))
  {
    if c != [] {
      var front, last := c[..|c| - 1], c[|c| - 1];
      OccupiedSpaced(front);
      OccupiedMembers(front);
      forall x | x in Occupied(front) ensures x.lblk + x.len <= last.lblk {
        var i :| 0 <= i < |front| && front[i] == x;
        assert c[i] == x;
      }
      SpacedJoin(Occupied(front), if last.len > 0 then [last] else []);
    }
  }

  lemma CutApart(s: seq<Extent>, ex: Extent, del: bool, c: seq<Extent>)
    requires CutOutcome(s, ex, c) && EditArg(ex, del)
    ensures InRange(Appended(c, ex, del)) && Apart(Occupied(Appended(c, ex, del)))
    ensures forall l, t :: Maps(Appended(c, ex, del), l, t) <==> Maps(c, l, t) || (!del && Covers(ex, l, t))
  {
    OccupiedSpaced(c);
    OccupiedMembers(c);
    SpacedIsApart(Occupied(c));
    var a := Appended(c, ex, del);
    if ex.len > 0 && !del {
      assert a[..|a| - 1] == c;
      assert Occupied(a) == Occupied(c) + [ex];
      OccupiedMembers(a);
      forall x, y | x in Occupied(a) && y in Occupied(a) && x != y ensures Disjoint(x, y) {
        if x != ex { assert x in Occupied(c); assert Clear(x, ex); }
        if y != ex { assert y in Occupied(c); assert Clear(y, ex); }
      }
      if ex in Occupied(c) {
        assert false;
      }
      forall x ensures multiset(Occupied(a))[x] <= 1 {
        assert multiset(Occupied(c))[x] <= 1;
      }
      forall l, t ensures Maps(a, l, t) <==> Maps(c, l, t) || Covers(ex, l, t) {
        MapsJoin(c, [ex], l, t);
        assert ex in [ex];
      }
    }
  }

  /** The cut list and the added extent relate what the edit should mean. */
  lemma AppliedRelates(s: seq<Extent>, ex: Extent, del: bool, a: seq<Extent>)
    requires Positive(s) && Spaced(s) && EditOutcome(s, ex, del, a)
    ensures Relates(a, Apply(Den(s), ex, del))
  {
    SpacedIsApart(s);
    forall l, t ensures Maps(a, l, t) <==> (l in Apply(Den(s), ex, del) && Apply(Den(s), ex, del)[l] == t) {
      DenIsMaps(s, l, t);
      assert Covers(ex, l, t) <==> l in ExtentMap(ex) && ExtentMap(ex)[l] == t;
    }
  }

  ghost predicate EditOutcome(s: seq<Extent>, ex: Extent, del: bool, r: seq<Extent>) {
    forall l, t :: Maps(r, l, t) <==> (Maps(s, l, t) && !InHole(ex, l)) || (!del && Covers(ex, l, t))
  }

  /** A safe edit of a well-formed list, with what it leaves behind. */
  lemma SafeEditWellFormed(s: seq<Extent>, ex: Extent, del: bool, r: seq<Extent>)
    requires WellFormed(s) && EditArg(ex, del) && EditSafe(s, ex, del) && Edited(s, ex, del, r)
    requires !IsOrigin(ex)
    ensures ListState(r) && Den(r) == Apply(Den(s), ex, del)
  {
    CutDenotes(s, ex);
    AfterCut(s, ex, del, Cut(s, ex), r);
  }

  lemma AfterCut(s: seq<Extent>, ex: Extent, del: bool, c: seq<Extent>, r: seq<Extent>)
    requires WellFormed(s) && EditArg(ex, del) && CutOutcome(s, ex, c) && SortMerged(Appended(c, ex, del), r)
    requires NoLongRun(Apply(Den(s), ex, del))
    ensures ListState(r) && Den(r) == Apply(Den(s), ex, del)
  {
    hide Den, Apply, SortMerged;
    var a := Appended(c, ex, del);
    CutApart(s, ex, del, c);
    AppliedRelates(s, ex, del, a);
    if |a| == 1 && a[0].len == 0 {
      assert a == [a[0]] && a[0] in a;
      ShortSorted(a, r);
      NothingMapped(r);
      NothingRelated(r, Apply(Den(s), ex, del));
    } else {
      if |a| == 1 { assert Positive(a); }
      SortMergeDenotes(a, r, Apply(Den(s), ex, del));
    }
  }

  lemma ShortSorted(c: seq<Extent>, r: seq<Extent>)
    requires SortMerged(c, r) && |c| < 2
    ensures r == c
  {
  }

  lemma NothingMapped(r: seq<Extent>)
    requires forall e :: e in r ==> e.len == 0
    ensures Den(r) == map[] && forall l, t :: !Maps(r, l, t)
  {
    forall l: nat ensures l !in Den(r) {
      DenDomain(r, l);
    }
    assert Den(r).Keys == {};
  }

  lemma NothingRelated(r: seq<Extent>, m: Mapping)
    requires Relates(r, m) && forall l, t :: !Maps(r, l, t)
    ensures m == map[]
  {
    if m.Keys != {} {
      var l :| l in m;
      RelatedIsMapped(r, m, l);
      assert false;
    }
  }

  lemma RelatedIsMapped(r: seq<Extent>, m: Mapping, l: nat)
    requires Relates(r, m) && l in m
    ensures exists t :: Maps(r, l, t)
  {
    assert Maps(r, l, m[l]);
  }
}
