/**
 Rebuilding an extent tree keeps the logical-to-physical map: exactly when
 coalescing is faithful, what splitting keeps, and that reading back what was
 written gives the same list.
 */
module RebuildTheorem {
  import opened Machine
  import opened Extents
  import opened ExtentEditor
  import opened EditTheorem
  import opened ExtentRebuild

  // ------------------------------------------------- coalescing without wrap

  /** The attach step as intended: lengths added without wrapping. */
  function AttachWide(acc: seq<Extent>, e: Extent): seq<Extent> {
    if acc != [] && Attaches(acc[|acc| - 1], e) then
      acc[|acc| - 1 := acc[|acc| - 1].(len := acc[|acc| - 1].len + e.len)]
    else acc + [e]
  }

  function CoalesceWide(leaves: seq<Extent>): seq<Extent> {
    if leaves == [] then [] else AttachWide(CoalesceWide(leaves[..|leaves| - 1]), leaves[|leaves| - 1])
  }

  /** No run of adjoining leaf extents reaches 2^32 blocks. */
  ghost predicate RunsFit(leaves: seq<Extent>) {
    forall e :: e in CoalesceWide(leaves) ==> e.len < TWO32
  }

  /** Leaf extents: sorted, disjoint, non-empty. A tree's lengths have 16 bits, a coalesced list's 32. */
  ghost predicate LeafList(leaves: seq<Extent>) {
    && Positive(leaves) && Spaced(leaves)
    && forall e :: e in leaves ==> e.len < TWO32 && e.lblk + e.len < TWO64 && e.pblk + e.len < TWO64
  }

  lemma {:induction false} OntoSnoc(acc: seq<Extent>, front: seq<Extent>, e: Extent)
    ensures CoalesceOnto(acc, front + [e]) == Attach(CoalesceOnto(acc, front), e)
    decreases |front|
  {
    if front == [] {
      assert [e][1..] == [];
      assert front + [e] == [e];
    } else {
      assert (front + [e])[1..] == front[1..] + [e];
      OntoSnoc(Attach(acc, front[0]), front[1..], e);
    }
  }

  lemma CoalesceSnoc(front: seq<Extent>, e: Extent)
    ensures Coalesce(front + [e]) == Attach(Coalesce(front), e)
    ensures CoalesceWide(front + [e]) == AttachWide(CoalesceWide(front), e)
  {
    OntoSnoc([], front, e);
    assert (front + [e])[..|front|] == front;
  }

  lemma LeafListFront(leaves: seq<Extent>, front: seq<Extent>, e: Extent)
    requires LeafList(leaves) && leaves == front + [e]
    ensures LeafList(front) && e.len > 0 && forall x :: x in front ==> x.lblk + x.len <= e.lblk
    ensures e.len < TWO32 && e.lblk + e.len < TWO64 && e.pblk + e.len < TWO64
    ensures forall x :: x in leaves <==> x in front || x == e
  {
    assert forall i :: 0 <= i < |front| ==> leaves[i] == front[i];
    assert leaves[|front|] == e && e in leaves;
    forall x | x in front ensures x in leaves && x.lblk + x.len <= e.lblk {
      var i :| 0 <= i < |front| && front[i] == x;
      assert leaves[i] == x;
    }
  }

  /** What a coalesced list keeps with respect to the leaves it came from. */
  ghost predicate Coalesced(leaves: seq<Extent>, c: seq<Extent>) {
    && Positive(c) && Spaced(c)
    && (forall e :: e in c ==> e.lblk + e.len < TWO64 && e.pblk + e.len < TWO64)
    && (forall l, t :: Maps(c, l, t) <==> Maps(leaves, l, t))
    && (leaves != [] ==> c != [] && c[|c| - 1].lblk + c[|c| - 1].len == leaves[|leaves| - 1].lblk + leaves[|leaves| - 1].len)
    && TotalLen(c) == TotalLen(leaves)
    && (forall i :: 0 <= i < |c| - 1 ==> !Adjoins(c[i], c[i + 1]))
  }

  lemma AttachesExact(last: Extent, e: Extent)
    requires last.lblk + last.len < TWO64 && last.pblk + last.len < TWO64
    ensures Attaches(last, e) <==> Adjoins(last, e)
  {
  }

  lemma {:induction false} TotalSnoc(s: seq<Extent>, e: Extent)
    ensures TotalLen(s + [e]) == TotalLen(s) + e.len
  {
    if s == [] {
      assert s + [e] == [e] && [e][1..] == [];
    } else {
      assert (s + [e])[1..] == s[1..] + [e];
      TotalSnoc(s[1..], e);
    }
  }

  lemma CoverEnd(leaves: seq<Extent>, c: seq<Extent>, l: nat, x: Extent)
    requires Coalesced(leaves, c) && x in c && Holds(x, l)
    ensures Mapped(leaves, l)
  {
    MappedIffMaps(c, l);
    assert Mapped(c, l);
    MappedIffMaps(leaves, l);
  }

  /** One intended attach step. */
  lemma WideStep(front: seq<Extent>, e: Extent, c: seq<Extent>)
    requires LeafList(front + [e]) && Coalesced(front, c)
    ensures Coalesced(front + [e], AttachWide(c, e))
  {
    hide TotalLen, Den;
    var leaves := front + [e];
    LeafListFront(leaves, front, e);
    assert leaves[|leaves| - 1] == e;
    TotalSnoc(front, e);
    forall x | x in c ensures x.lblk + x.len <= e.lblk {
      CoverEnd(front, c, x.lblk + x.len - 1, x);
      var y :| y in front && Holds(y, x.lblk + x.len - 1);
    }
    if c != [] && Attaches(c[|c| - 1], e) {
      WideJoin(front, e, c);
    } else {
      WideAppend(front, e, c);
    }
  }

  lemma WideAppend(front: seq<Extent>, e: Extent, c: seq<Extent>)
    requires Coalesced(front, c) && e.len > 0 && e.lblk + e.len < TWO64 && e.pblk + e.len < TWO64
    requires c != [] ==> !Attaches(c[|c| - 1], e)
    requires forall x :: x in c ==> x.lblk + x.len <= e.lblk
    requires TotalLen(front + [e]) == TotalLen(front) + e.len
    ensures Coalesced(front + [e], c + [e])
  {
    hide TotalLen, Den;
    TotalSnoc(c, e);
    SpacedJoin(c, [e]);
    forall l, t ensures Maps(c + [e], l, t) <==> Maps(front + [e], l, t) {
      MapsJoin(c, [e], l, t);
      MapsJoin(front, [e], l, t);
    }
    if c != [] {
      assert c[|c| - 1] in c;
    }
  }

  lemma WideJoin(front: seq<Extent>, e: Extent, c: seq<Extent>)
    requires Coalesced(front, c) && c != [] && e.len > 0 && e.lblk + e.len < TWO64 && e.pblk + e.len < TWO64
    requires Attaches(c[|c| - 1], e)
    requires TotalLen(front + [e]) == TotalLen(front) + e.len
    ensures Coalesced(front + [e], AttachWide(c, e))
  {
    hide TotalLen, Den, Maps, Attaches;
    var n := |c| - 1;
    var head, last := c[..n], c[n];
    var x := last.(len := last.len + e.len);
    assert c[n] in c && c == head + [last] && AttachWide(c, e) == head + [x];
    AttachesExact(last, e);
    JoinLastShape(head, last, e, x);
    forall l, t ensures Maps(head + [x], l, t) <==> Maps(front + [e], l, t) {
      MapsJoin(front, [e], l, t);
      JoinLastMaps(head, last, e, x, l, t);
    }
  }

  lemma JoinLastShape(head: seq<Extent>, last: Extent, e: Extent, x: Extent)
    requires Adjoins(last, e) && x == last.(len := last.len + e.len)
    requires Spaced(head + [last]) && Positive(head + [last])
    requires forall i :: 0 <= i < |head + [last]| - 1 ==> !Adjoins((head + [last])[i], (head + [last])[i + 1])
    ensures Spaced(head + [x]) && Positive(head + [x]) && TotalLen(head + [x]) == TotalLen(head + [last]) + e.len
    ensures forall i :: 0 <= i < |head + [x]| - 1 ==> !Adjoins((head + [x])[i], (head + [x])[i + 1])
    ensures forall y :: y in head + [x] ==> y in head + [last] || y == x
  {
    hide TotalLen;
    TotalSnoc(head, last);
    TotalSnoc(head, x);
    JoinLastSpaced(head, last, x);
    assert last in head + [last];
    assert forall y :: y in head ==> y in head + [last];
    forall i | 0 <= i < |head + [x]| - 1 ensures !Adjoins((head + [x])[i], (head + [x])[i + 1]) {
      assert !Adjoins((head + [last])[i], (head + [last])[i + 1]);
    }
  }

  lemma JoinLastSpaced(head: seq<Extent>, last: Extent, x: Extent)
    requires Spaced(head + [last]) && x.lblk == last.lblk
    ensures Spaced(head + [x])
  {
    var c := head + [last];
    forall y | y in head ensures y.lblk + y.len <= x.lblk {
      var i :| 0 <= i < |head| && head[i] == y;
      assert c[i] == y && c[|head|] == last;
    }
    assert Spaced(head) by {
      assert forall i :: 0 <= i < |head| ==> head[i] == c[i];
    }
    SpacedJoin(head, [x]);
  }

  lemma JoinLastMaps(head: seq<Extent>, last: Extent, e: Extent, x: Extent, l: nat, t: Target)
    requires Adjoins(last, e) && x == last.(len := last.len + e.len)
    ensures Maps(head + [x], l, t) <==> Maps(head + [last], l, t) || Maps([e], l, t)
  {
    MapsJoin(head, [x], l, t);
    MapsJoin(head, [last], l, t);
    PairMaps(last, e, x, l, t);
    MapsJoin([last], [e], l, t);
    assert [last] + [e] == [last, e];
  }

  /** The intended coalescing keeps the map and the total length and leaves no two extents adjoining. */
  lemma {:induction false} CoalesceWideKeeps(leaves: seq<Extent>)
    requires LeafList(leaves)
    ensures Coalesced(leaves, CoalesceWide(leaves))
  {
    if leaves != [] {
      var front, e := leaves[..|leaves| - 1], leaves[|leaves| - 1];
      assert leaves == front + [e];
      LeafListFront(leaves, front, e);
      CoalesceWideKeeps(front);
      CoalesceSnoc(front, e);
      WideStep(front, e, CoalesceWide(front));
    }
  }

  // ---------------------------------------- coalescing as written: exactness

  /** As long as every run fits, the code computes the intended list. */
  lemma {:induction false} CoalesceIsWide(leaves: seq<Extent>)
    requires LeafList(leaves) && RunsFit(leaves)
    ensures Coalesce(leaves) == CoalesceWide(leaves)
  {
    if leaves != [] {
      var front, e := leaves[..|leaves| - 1], leaves[|leaves| - 1];
      assert leaves == front + [e];
      LeafListFront(leaves, front, e);
      CoalesceSnoc(front, e);
      FitsFront(front, e);
      CoalesceIsWide(front);
      AttachFits(CoalesceWide(front), e);
    }
  }

  lemma AttachFits(c: seq<Extent>, e: Extent)
    requires forall x :: x in AttachWide(c, e) ==> x.len < TWO32
    ensures Attach(c, e) == AttachWide(c, e)
  {
    if c != [] && Attaches(c[|c| - 1], e) {
      assert AttachWide(c, e)[|c| - 1] in AttachWide(c, e);
    }
  }

  lemma FitsFront(front: seq<Extent>, e: Extent)
    requires RunsFit(front + [e])
    ensures RunsFit(front)
  {
    CoalesceSnoc(front, e);
    var c, d := CoalesceWide(front), AttachWide(CoalesceWide(front), e);
    forall x | x in c ensures x.len < TWO32 {
      var i :| 0 <= i < |c| && c[i] == x;
      assert d[i] in d && c[i].len <= d[i].len;
    }
  }

  ghost predicate Behind(c: seq<Extent>, e: Extent) {
    forall x :: x in c ==> x.lblk + x.len <= e.lblk
  }

  /** An attach step, wrapping or not, maps no block beyond the old list and the new extent. */
  lemma AttachAddsNothing(c: seq<Extent>, e: Extent, l: nat)
    requires Behind(c, e) && e.lblk + e.len < TWO64 && Mapped(Attach(c, e), l)
    ensures Mapped(c, l) || Holds(e, l)
  {
    var x :| x in Attach(c, e) && Holds(x, l);
    if x !in c && x != e {
      var last := c[|c| - 1];
      assert last in c;
      assert x == last.(len := U32(last.len + e.len));
      U32Small(last.len + e.len);
      assert Holds(last, l) || Holds(e, l);
    }
  }

  lemma {:induction false} U32Small(x: nat)
    ensures U32(x) <= x
  {
    if x >= TWO32 {
      U32Small(x - TWO32);
    }
  }

  /** The code's list never reaches past the leaves read so far. */
  lemma {:induction false} CoalesceBehind(leaves: seq<Extent>, e: Extent)
    requires LeafList(leaves) && Behind(leaves, e)
    ensures Behind(Coalesce(leaves), e)
  {
    if leaves != [] {
      var front, f := leaves[..|leaves| - 1], leaves[|leaves| - 1];
      assert leaves == front + [f];
      LeafListFront(leaves, front, f);
      CoalesceSnoc(front, f);
      CoalesceBehind(front, f);
      var c := Coalesce(front);
      forall x | x in Attach(c, f) ensures x.lblk + x.len <= e.lblk {
        if x !in c && x != f {
          assert c[|c| - 1] in c;
          U32Small(c[|c| - 1].len + f.len);
        }
      }
    }
  }

  /** If some run does not fit, the wrapped length loses a block, for good. */
  lemma {:induction false} WrapLosesBlock(leaves: seq<Extent>) returns (lost: nat)
    requires LeafList(leaves) && !RunsFit(leaves)
    ensures Mapped(leaves, lost) && !Mapped(Coalesce(leaves), lost)
  {
    if leaves == [] {
      assert false;
    }
    var front, e := leaves[..|leaves| - 1], leaves[|leaves| - 1];
    assert leaves == front + [e];
    LeafListFront(leaves, front, e);
    CoalesceSnoc(front, e);
    CoalesceBehind(front, e);
    if !RunsFit(front) {
      lost := WrapLosesBlock(front);
      var x :| x in front && Holds(x, lost);
      assert x in leaves;
      if Mapped(Coalesce(leaves), lost) {
        AttachAddsNothing(Coalesce(front), e, lost);
        assert false;
      }
    } else {
      CoalesceIsWide(front);
      lost := e.lblk + e.len - 1;
      FirstWrap(front, e);
      assert e in leaves && Holds(e, lost);
    }
  }

  lemma FirstWrap(front: seq<Extent>, e: Extent)
    requires LeafList(front + [e]) && RunsFit(front) && !RunsFit(front + [e])
    requires Coalesce(front) == CoalesceWide(front) && Behind(Coalesce(front), e)
    ensures !Mapped(Coalesce(front + [e]), e.lblk + e.len - 1)
  {
    CoalesceSnoc(front, e);
    LeafListFront(front + [e], front, e);
    WrappedAttach(Coalesce(front), e);
  }

  lemma WrappedAttach(c: seq<Extent>, e: Extent)
    requires Behind(c, e) && 0 < e.len < TWO32 && e.lblk + e.len < TWO64
    requires forall x :: x in c ==> x.len < TWO32
    requires exists x :: x in AttachWide(c, e) && x.len >= TWO32
    ensures !Mapped(Attach(c, e), e.lblk + e.len - 1)
  {
    var big :| big in AttachWide(c, e) && big.len >= TWO32;
    var n := |c| - 1;
    var last := c[n];
    assert last in c;
    assert big == last.(len := last.len + e.len);
    var x := last.(len := U32(last.len + e.len));
    assert x.len < last.len;
    forall y | y in Attach(c, e) ensures !Holds(y, e.lblk + e.len - 1) {
      assert y == x || y in c;
    }
  }

  /** The runs fit exactly when the map has no run of 2^32 blocks. */
  lemma RunsFitExact(leaves: seq<Extent>)
    requires LeafList(leaves)
    ensures RunsFit(leaves) <==> NoLongRun(Den(leaves))
  {
    hide Den;
    var c := CoalesceWide(leaves);
    CoalesceWideKeeps(leaves);
    SameDen(leaves, c);
    if e :| e in c && e.len >= TWO32 {
      MappedTo(c, e, e.lblk);
      forall k: nat | e.lblk <= k < e.lblk + TWO32 ensures Continues(Den(c), e.lblk, k) {
        MappedTo(c, e, k);
      }
      assert LongRun(Den(leaves), e.lblk);
    } else if l :| LongRun(Den(c), l) {
      RunEnds(Den(c), l);
      var i := MappedBy(c, l);
      assert c[i] in c;
      RunGoesOn(c, i, l);
      assert false;
    }
  }

  /** Reading a tree keeps its map if and only if the map has no run of 2^32 blocks. */
  lemma CoalesceMeaning(leaves: seq<Extent>)
    requires LeafList(leaves)
    ensures Den(Coalesce(leaves)) == Den(leaves) <==> NoLongRun(Den(leaves))
    ensures NoLongRun(Den(leaves)) ==> Coalesced(leaves, Coalesce(leaves)) && RunsFit(leaves)
  {
    hide Den, NoLongRun;
    RunsFitExact(leaves);
    if RunsFit(leaves) {
      CoalesceIsWide(leaves);
      CoalesceWideKeeps(leaves);
      SameDen(leaves, Coalesce(leaves));
    } else {
      var lost := WrapLosesBlock(leaves);
      DenDomain(leaves, lost);
      DenDomain(Coalesce(leaves), lost);
    }
  }

  // ------------------------------------------------ a tree that loses its map

  /** `n` leaves of the longest on-disk length, one behind the other. */
  function Tree(n: nat): (r: seq<Extent>)
    ensures |r| == n && forall i :: 0 <= i < n ==> r[i] == Extent(i * EXT_INIT_MAX_LEN, i * EXT_INIT_MAX_LEN, EXT_INIT_MAX_LEN, false)
  {
    if n == 0 then [] else Tree(n - 1) + [Extent((n - 1) * EXT_INIT_MAX_LEN, (n - 1) * EXT_INIT_MAX_LEN, EXT_INIT_MAX_LEN, false)]
  }

  lemma TreeIsLeafList(n: nat)
    requires n <= 0x2_0000
    ensures LeafList(Tree(n))
  {
    var r := Tree(n);
    forall i, j | 0 <= i < j < |r| ensures r[i].lblk + r[i].len <= r[j].lblk {
      assert (i + 1) * EXT_INIT_MAX_LEN <= j * EXT_INIT_MAX_LEN;
    }
    forall e | e in r ensures e.len < TWO32 && e.lblk + e.len < TWO64 && e.pblk + e.len < TWO64 {
      var i :| 0 <= i < n && r[i] == e;
      assert i * EXT_INIT_MAX_LEN <= 0x2_0000 * EXT_INIT_MAX_LEN;
    }
  }

  lemma {:induction false} TreeIsOneRun(n: nat)
    requires 0 < n <= 0x2_0000
    ensures Coalesce(Tree(n)) == [Extent(0, 0, U32(n * EXT_INIT_MAX_LEN), false)]
  {
    hide Coalesce, Attach;
    if n == 1 {
      assert Tree(0) == [] && [] + [Extent(0, 0, EXT_INIT_MAX_LEN, false)] == [Extent(0, 0, EXT_INIT_MAX_LEN, false)];
      CoalesceSnoc([], Extent(0, 0, EXT_INIT_MAX_LEN, false));
      FirstLeaf(Extent(0, 0, EXT_INIT_MAX_LEN, false));
    } else {
      var k := (n - 1) * EXT_INIT_MAX_LEN;
      TreeIsOneRun(n - 1);
      CoalesceSnoc(Tree(n - 1), Extent(k, k, EXT_INIT_MAX_LEN, false));
      assert k < TWO32;
      NextLeaf(k);
      assert k + EXT_INIT_MAX_LEN == n * EXT_INIT_MAX_LEN;
    }
  }

  lemma FirstLeaf(e: Extent)
    ensures Attach(Coalesce([]), e) == [e]
  {
    assert Coalesce([]) == [] && [] + [e] == [e];
  }

  lemma NextLeaf(k: nat)
    requires k < TWO32
    ensures Attach([Extent(0, 0, U32(k), false)], Extent(k, k, EXT_INIT_MAX_LEN, false)) == [Extent(0, 0, U32(k + EXT_INIT_MAX_LEN), false)]
  {
    hide U32;
    var last, e := Extent(0, 0, k, false), Extent(k, k, EXT_INIT_MAX_LEN, false);
    assert U32(k) == k && Attaches(last, e);
    assert [last][0 := last.(len := U32(k + EXT_INIT_MAX_LEN))] == [last.(len := U32(k + EXT_INIT_MAX_LEN))];
  }

  /** 2^17 leaves of 2^15 blocks each map every 32-bit block: the guard lets every merge through, and the last one loses the whole map. */
  lemma GuardNeverFails()
    ensures LeafList(Tree(0x2_0000)) && Coalesce(Tree(0x2_0000)) == [Extent(0, 0, 0, false)]
    ensures Den(Coalesce(Tree(0x2_0000))) == map[] && Den(Tree(0x2_0000)) != map[]
  {
    hide Coalesce, Den;
    var leaves := Tree(0x2_0000);
    TreeIsLeafList(0x2_0000);
    TreeIsOneRun(0x2_0000);
    NothingMapped(Coalesce(leaves));
    assert leaves[0] in leaves && Holds(leaves[0], 0);
    DenDomain(leaves, 0);
  }

  /** As long as no block from 2^32 - 1 on is mapped, every run fits. */
  lemma WellFormedFits(leaves: seq<Extent>)
    requires WellFormed(leaves) && forall e :: e in leaves ==> e.lblk + e.len <= 0xFFFF_FFFF
    ensures NoLongRun(Den(leaves))
  {
    forall l | l in Den(leaves) ensures l < 0xFFFF_FFFF {
      DenDomain(leaves, l);
    }
    LowHasNoLongRun(Den(leaves));
  }

  lemma WellFormedIsLeafList(leaves: seq<Extent>)
    requires WellFormed(leaves)
    ensures LeafList(leaves)
  {
  }

  lemma CoalesceWellFormed(leaves: seq<Extent>)
    requires WellFormed(leaves) && NoLongRun(Den(leaves))
    ensures WellFormed(Coalesce(leaves)) && Merged(Coalesce(leaves)) && Den(Coalesce(leaves)) == Den(leaves)
    ensures TotalLen(Coalesce(leaves)) == TotalLen(leaves)
  {
    hide Den, Coalesce, TotalLen, Joins;
    WellFormedIsLeafList(leaves);
    CoalesceMeaning(leaves);
    CoalesceIsWide(leaves);
    var c := Coalesce(leaves);
    forall x | x in c ensures Fits(x) {
      CoverEnd(leaves, c, x.lblk + x.len - 1, x);
      var y :| y in leaves && Holds(y, x.lblk + x.len - 1);
    }
    forall i | 0 <= i < |c| - 1 ensures !Joins(c[i], c[i + 1]) {
      assert c[i] in c && c[i + 1] in c;
      JoinsExact(c[i], c[i + 1]);
      assert !Adjoins(c[i], c[i + 1]);
    }
  }
}
