/**
 Extents and what a list of extents means: a finite map from logical blocks to
 (physical block, uninitialised bit).  Shared by the fast-commit editor, the
 replay state machine and the extent-tree rebuild.
 */
module Extents {

  const TWO31: nat := 0x8000_0000
  const TWO32: nat := 0x1_0000_0000
  const TWO64: nat := 0x1_0000_0000_0000_0000

  /** A 32-bit first block and a 32-bit length: extents end at or below this block. */
  const MAX_END: nat := 0x2_0000_0000

  /** `struct ext2fs_extent`; of the flags only the uninit bit matters here. */
  datatype Extent = Extent(lblk: nat, pblk: nat, len: nat, uninit: bool)

  datatype Target = Target(pblk: nat, uninit: bool)

  type Mapping = map<nat, Target>

  // ---------------------------------------------------------------- meaning

  predicate Holds(e: Extent, l: nat) {
    e.lblk <= l < e.lblk + e.len
  }

  predicate Covers(e: Extent, l: nat, t: Target) {
    Holds(e, l) && t == Target(e.pblk + (l - e.lblk), e.uninit)
  }

  /** Some extent of `s` maps `l` to `t`; makes sense for any list, in any order. */
  ghost predicate Maps(s: seq<Extent>, l: nat, t: Target) {
    exists e :: e in s && Covers(e, l, t)
  }

  ghost predicate Mapped(s: seq<Extent>, l: nat) {
    exists e :: e in s && Holds(e, l)
  }

  ghost function ExtentMap(e: Extent): Mapping {
    map l: nat | e.lblk <= l < e.lblk + e.len && Holds(e, l) :: Target(e.pblk + (l - e.lblk), e.uninit)
  }

  /** The map a list denotes, a later extent winning over an earlier one. */
  ghost function Den(s: seq<Extent>): Mapping {
    if s == [] then map[] else Den(s[..|s| - 1]) + ExtentMap(s[|s| - 1])
  }

  ghost function Without(m: Mapping, lo: nat, len: nat): Mapping {
    map l | l in m && !(lo <= l < lo + len) :: m[l]
  }

  // ------------------------------------------------------------- well-formed

  ghost predicate Positive(s: seq<Extent>) {
    forall e :: e in s ==> e.len > 0
  }

  /** Sorted by logical block and pairwise disjoint. */
  ghost predicate Spaced(s: seq<Extent>) {
    forall i, j :: 0 <= i < j < |s| ==> s[i].lblk + s[i].len <= s[j].lblk
  }

  predicate Fits(e: Extent) {
    e.len < TWO32 && e.lblk + e.len <= MAX_END && e.pblk + e.len < TWO64
  }

  ghost predicate InRange(s: seq<Extent>) {
    forall e :: e in s ==> Fits(e)
  }

  /** A well-formed extent list: sorted, disjoint, no empty extent, 32-bit lengths. */
  ghost predicate WellFormed(s: seq<Extent>) {
    Positive(s) && Spaced(s) && InRange(s)
  }

  /** Any two different members are logically disjoint, and none occurs twice. */
  ghost predicate Apart(s: seq<Extent>) {
    && (forall x, y :: x in s && y in s && x != y ==> Disjoint(x, y))
    && (forall x :: multiset(s)[x] <= 1)
  }

  predicate Disjoint(x: Extent, y: Extent) {
    x.lblk + x.len <= y.lblk || y.lblk + y.len <= x.lblk
  }

  ghost predicate SameMembers(s: seq<Extent>, t: seq<Extent>) {
    multiset(s) == multiset(t)
  }

  // ------------------------------------------------------------------- runs

  predicate Adjoins(x: Extent, y: Extent) {
    x.lblk + x.len == y.lblk && x.pblk + x.len == y.pblk && x.uninit == y.uninit
  }

  ghost predicate Continues(m: Mapping, l: nat, k: nat)
    requires l <= k
  {
    l in m && k in m && m[k] == Target(m[l].pblk + (k - l), m[l].uninit)
  }

  /** From `l` on, 2^32 blocks lie one behind the other on disk with one flag. */
  ghost predicate LongRun(m: Mapping, l: nat) {
    forall k: nat :: l <= k < l + TWO32 ==> Continues(m, l, k)
  }

  /** No run is too long for a 32-bit extent length. */
  ghost predicate NoLongRun(m: Mapping) {
    forall l: nat :: !LongRun(m, l)
  }

  // ------------------------------------------------------------------ lemmas

  /** A list that maps the same blocks the same way as a sorted one denotes the same map. */
  lemma SameDen(s: seq<Extent>, r: seq<Extent>)
    requires Positive(s) && Spaced(s) && Positive(r) && Spaced(r)
    requires forall l, t :: Maps(r, l, t) <==> Maps(s, l, t)
    ensures Den(r) == Den(s)
  {
    SpacedIsApart(s);
    SpacedIsApart(r);
    forall l, t ensures Maps(r, l, t) <==> (l in Den(s) && Den(s)[l] == t) {
      DenIsMaps(s, l, t);
    }
    SameMapsSameDen(r, Den(s));
  }

  lemma RunEnds(m: Mapping, l: nat)
    requires LongRun(m, l)
    ensures l in m && l + 0xFFFF_FFFF in m
  {
    assert Continues(m, l, l) && Continues(m, l, l + 0xFFFF_FFFF);
  }

  /** Maps whose blocks all lie below 2^32 - 1 have no such run. */
  lemma LowHasNoLongRun(m: Mapping)
    requires forall l :: l in m ==> l < 0xFFFF_FFFF
    ensures NoLongRun(m)
  {
    forall l: nat ensures !LongRun(m, l) {
      if LongRun(m, l) {
        RunEnds(m, l);
        assert false;
      }
    }
  }

  lemma OneExtentNoLongRun(e: Extent)
    requires e.len < TWO32
    ensures NoLongRun(ExtentMap(e))
  {
    forall l: nat ensures !LongRun(ExtentMap(e), l) {
      if LongRun(ExtentMap(e), l) {
        RunEnds(ExtentMap(e), l);
        assert false;
      }
    }
  }

  lemma MappedTo(s: seq<Extent>, e: Extent, l: nat)
    requires Positive(s) && Spaced(s) && e in s && Holds(e, l)
    ensures l in Den(s) && Den(s)[l] == Target(e.pblk + (l - e.lblk), e.uninit)
  {
    SpacedIsApart(s);
    var t := Target(e.pblk + (l - e.lblk), e.uninit);
    assert Covers(e, l, t);
    DenIsMaps(s, l, t);
  }

  lemma MappedBy(s: seq<Extent>, l: nat) returns (i: nat)
    requires Positive(s) && Spaced(s) && l in Den(s)
    ensures i < |s| && Holds(s[i], l) && Den(s)[l] == Target(s[i].pblk + (l - s[i].lblk), s[i].uninit)
  {
    SpacedIsApart(s);
    DenIsMaps(s, l, Den(s)[l]);
    var e :| e in s && Covers(e, l, Den(s)[l]);
    i :| 0 <= i < |s| && s[i] == e;
  }

  /** A run that starts in an extent outlasts it and goes on in an adjoining next one. */
  lemma RunGoesOn(s: seq<Extent>, i: nat, l: nat)
    requires Positive(s) && Spaced(s) && LongRun(Den(s), l) && i < |s| && Holds(s[i], l) && s[i].len < TWO32
    ensures i + 1 < |s| && Adjoins(s[i], s[i + 1])
  {
    hide Den;
    assert s[i] in s;
    var b := s[i].lblk + s[i].len;
    assert Continues(Den(s), l, b);
    MappedTo(s, s[i], l);
    var j := MappedBy(s, b);
    assert s[j] in s && j > i;
    assert b <= s[j].lblk;
    assert s[i + 1] in s && b <= s[i + 1].lblk;
  }

  /** Two adjoining extents of 2^32 blocks together are such a run. */
  lemma PairRun(s: seq<Extent>)
    requires WellFormed(s) && |s| >= 2 && Adjoins(s[0], s[1]) && s[0].len + s[1].len >= TWO32
    ensures LongRun(Den(s), s[0].lblk)
  {
    hide Den;
    var l := s[0].lblk;
    assert s[0] in s && s[1] in s;
    MappedTo(s, s[0], l);
    forall k: nat | l <= k < l + TWO32 ensures Continues(Den(s), l, k) {
      if Holds(s[0], k) {
        MappedTo(s, s[0], k);
      } else {
        MappedTo(s, s[1], k);
      }
    }
  }

  lemma TailWellFormed(s: seq<Extent>)
    requires WellFormed(s) && s != []
    ensures WellFormed(s[1..]) && s[0].len > 0 && Fits(s[0])
    ensures forall e :: e in s[1..] ==> s[0].lblk + s[0].len <= e.lblk
    ensures forall e :: e in s <==> e == s[0] || e in s[1..]
  {
    assert s == [s[0]] + s[1..];
    assert s[0] in s;
  }

  lemma TailDen(s: seq<Extent>, k: nat)
    requires WellFormed(s) && s != []
    ensures k in Den(s[1..]) <==> k in Den(s) && !Holds(s[0], k)
    ensures k in Den(s[1..]) ==> Den(s[1..])[k] == Den(s)[k]
  {
    hide Den;
    TailWellFormed(s);
    if k in Den(s[1..]) {
      var i := MappedBy(s[1..], k);
      assert s[1..][i] == s[i + 1] && s[i + 1] in s && s[1..][i] in s[1..];
      MappedTo(s, s[i + 1], k);
    }
    if k in Den(s) && !Holds(s[0], k) {
      var i := MappedBy(s, k);
      assert s[1..][i - 1] == s[i];
      MappedTo(s[1..], s[i], k);
    }
  }

  /** A run is a run of the tail exactly when it does not start in the first extent. */
  lemma TailRun(s: seq<Extent>, l: nat)
    requires WellFormed(s) && s != []
    ensures LongRun(Den(s[1..]), l) <==> LongRun(Den(s), l) && !Holds(s[0], l)
  {
    hide Den;
    TailWellFormed(s);
    TailDen(s, l);
    if LongRun(Den(s[1..]), l) {
      assert Continues(Den(s[1..]), l, l);
      forall k: nat | l <= k < l + TWO32 ensures Continues(Den(s), l, k) {
        assert Continues(Den(s[1..]), l, k);
        TailDen(s, k);
      }
    }
    if LongRun(Den(s), l) && !Holds(s[0], l) {
      assert Continues(Den(s), l, l);
      var i := MappedBy(s[1..], l);
      assert s[1..][i] in s[1..];
      forall k: nat | l <= k < l + TWO32 ensures Continues(Den(s[1..]), l, k) {
        assert Continues(Den(s), l, k);
        TailDen(s, k);
      }
    }
  }

  lemma TailNoLongRun(s: seq<Extent>)
    requires WellFormed(s) && s != [] && NoLongRun(Den(s))
    ensures NoLongRun(Den(s[1..]))
  {
    forall l: nat ensures !LongRun(Den(s[1..]), l) {
      TailRun(s, l);
    }
  }

  lemma MappedIffMaps(s: seq<Extent>, l: nat)
    ensures Mapped(s, l) <==> exists t :: Maps(s, l, t)
  {
    if Mapped(s, l) {
      var e :| e in s && Holds(e, l);
      assert Covers(e, l, Target(e.pblk + (l - e.lblk), e.uninit));
      assert Maps(s, l, Target(e.pblk + (l - e.lblk), e.uninit));
    }
  }

  /** The denoted map's domain is what the extents hold, whatever the order. */
  lemma {:induction false} DenDomain(s: seq<Extent>, l: nat)
    ensures l in Den(s) <==> Mapped(s, l)
  {
    if s != [] {
      var front, last := s[..|s| - 1], s[|s| - 1];
      DenDomain(front, l);
      assert s == front + [last];
      assert forall e :: e in s <==> e in front || e == last;
      if Mapped(front, l) {
        var e :| e in front && Holds(e, l);
        assert e in s;
      }
      if Holds(last, l) {
        assert last in s;
      }
    }
  }

  /** On a list of pairwise disjoint extents the denoted map is the relation `Maps`. */
  lemma {:induction false} DenIsMaps(s: seq<Extent>, l: nat, t: Target)
    requires forall x, y :: x in s && y in s && x != y ==> Disjoint(x, y)
    ensures (l in Den(s) && Den(s)[l] == t) <==> Maps(s, l, t)
  {
    if s != [] {
      var front, last := s[..|s| - 1], s[|s| - 1];
      assert s == front + [last];
      assert forall e :: e in s <==> e in front || e == last;
      DenIsMaps(front, l, t);
      if Maps(front, l, t) {
        var e :| e in front && Covers(e, l, t);
        assert e in s && last in s;
        assert e == last || Disjoint(e, last);
      }
      if Covers(last, l, t) {
        assert last in s;
      }
    }
  }

  /** Two disjoint lists that map the same blocks the same way denote the same map. */
  lemma SameMapsSameDen(s: seq<Extent>, m: Mapping)
    requires forall x, y :: x in s && y in s && x != y ==> Disjoint(x, y)
    requires forall l, t :: Maps(s, l, t) <==> (l in m && m[l] == t)
    ensures Den(s) == m
  {
    var d := Den(s);
    forall l | l in d ensures l in m && m[l] == d[l] {
      DenIsMaps(s, l, d[l]);
    }
    forall l | l in m ensures l in d {
      DenIsMaps(s, l, m[l]);
    }
    assert d.Keys == m.Keys;
  }

  /** A sorted, disjoint list without empty extents has distinct, disjoint members. */
  lemma {:induction false} SpacedIsApart(s: seq<Extent>)
    requires Positive(s) && Spaced(s)
    ensures Apart(s)
  {
    forall x, y | x in s && y in s && x != y ensures Disjoint(x, y) {
      var i :| 0 <= i < |s| && s[i] == x;
      var j :| 0 <= j < |s| && s[j] == y;
    }
    forall x ensures multiset(s)[x] <= 1 {
      SpacedNoDuplicate(s, x);
    }
  }

  lemma {:induction false} SpacedNoDuplicate(s: seq<Extent>, x: Extent)
    requires Positive(s) && Spaced(s)
    ensures multiset(s)[x] <= 1
  {
    if s != [] {
      var front, last := s[..|s| - 1], s[|s| - 1];
      assert s == front + [last];
      assert forall e :: e in front ==> e in s;
      SpacedNoDuplicate(front, x);
      if x == last && x in front {
        assert false;
      }
    }
  }

  lemma MembersSame(s: seq<Extent>, t: seq<Extent>)
    requires SameMembers(s, t)
    ensures forall e :: e in s <==> e in t
    ensures |s| == |t|
  {
    assert |multiset(s)| == |multiset(t)|;
    forall e ensures e in s <==> e in t {
      assert e in s <==> e in multiset(s);
      assert e in t <==> e in multiset(t);
    }
  }
}
