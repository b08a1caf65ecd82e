/**
 The directory table (e2fsck/dirinfo.c): an array sorted by inode number with a
 one-entry cache, kept by slot and not by inode.
 */
module DirInfoTable {
  import opened Options
  import opened Machine

  datatype DirInfo = DirInfo(ino: nat, dotdot: nat, parent: nat)

  // ------------------------------------------------------------- the plain table

  /** A linear scan. */
  function Scan(es: seq<DirInfo>, ino: nat): Option<DirInfo> {
    if es == [] then None
    else if es[0].ino == ino then Some(es[0])
    else Scan(es[1..], ino)
  }

  ghost predicate Sorted(es: seq<DirInfo>) {
    forall i, j :: 0 <= i < j < |es| ==> es[i].ino < es[j].ino
  }

  lemma {:induction false} ScanAt(es: seq<DirInfo>, i: nat)
    requires Sorted(es) && i < |es|
    ensures Scan(es, es[i].ino) == Some(es[i])
  {
    if i > 0 {
      ScanAt(es[1..], i - 1);
    }
  }

  lemma {:induction false} ScanNone(es: seq<DirInfo>, ino: nat)
    requires forall i :: 0 <= i < |es| ==> es[i].ino != ino
    ensures Scan(es, ino) == None
  {
    if es != [] {
      ScanNone(es[1..], ino);
    }
  }

  /** Where the scan stops. */
  lemma {:induction false} ScanFinds(es: seq<DirInfo>, ino: nat) returns (i: nat)
    ensures i <= |es| && (i < |es| ==> es[i].ino == ino && Scan(es, ino) == Some(es[i]))
    ensures i == |es| ==> Scan(es, ino) == None && forall k :: 0 <= k < |es| ==> es[k].ino != ino
  {
    if es == [] {
      i := 0;
    } else if es[0].ino == ino {
      i := 0;
    } else {
      i := ScanFinds(es[1..], ino);
      i := i + 1;
    }
  }

  /** The table after an entry was put at slot `i`, its sorted place. */
  function Placed(es: seq<DirInfo>, i: nat, e: DirInfo): seq<DirInfo>
    requires i <= |es|
  {
    if i < |es| && es[i].ino == e.ino then es[i := e] else es[..i] + [e] + es[i..]
  }

  ghost predicate PlaceOf(es: seq<DirInfo>, i: nat, ino: nat) {
    && i <= |es|
    && (forall k :: 0 <= k < i ==> es[k].ino < ino)
    && (forall k :: i <= k < |es| ==> ino <= es[k].ino)
  }

  /** `s` is the table with slot `i` ready for the inode. */
  ghost predicate Opened(es: seq<DirInfo>, i: nat, ino: nat, s: seq<DirInfo>) {
    && PlaceOf(es, i, ino) && i < |s|
    && if i < |es| && es[i].ino == ino then s == es else s[..i] == es[..i] && s[i + 1..] == es[i..]
  }

  lemma SlotFilled(es: seq<DirInfo>, i: nat, e: DirInfo, r: seq<DirInfo>)
    requires PlaceOf(es, i, e.ino) && i < |r| && r[i] == e
    requires if i < |es| && es[i].ino == e.ino then r == es[i := e] else r[..i] == es[..i] && r[i + 1..] == es[i..]
    ensures r == Placed(es, i, e)
  {
    assert r == r[..i] + [r[i]] + r[i + 1..];
  }

  lemma PlacedSorted(es: seq<DirInfo>, i: nat, e: DirInfo)
    requires Sorted(es) && PlaceOf(es, i, e.ino)
    ensures Sorted(Placed(es, i, e))
  {
  }

  /** Adding an entry overrides that inode alone. */
  lemma PlacedScan(es: seq<DirInfo>, i: nat, e: DirInfo, ino: nat)
    requires Sorted(es) && PlaceOf(es, i, e.ino)
    ensures Scan(Placed(es, i, e), ino) == if ino == e.ino then Some(e) else Scan(es, ino)
  {
    hide Scan;
    var s := Placed(es, i, e);
    PlacedSorted(es, i, e);
    if ino == e.ino {
      ScanAt(s, i);
    } else {
      var k := ScanFinds(es, ino);
      if k < |es| {
        ScanAt(s, if k < i || |s| == |es| then k else k + 1);
      } else {
        ScanNone(s, ino);
      }
    }
  }

  lemma {:induction false} UpdatedScan(es: seq<DirInfo>, i: nat, e: DirInfo, ino: nat)
    requires Sorted(es) && i < |es| && es[i].ino == e.ino
    ensures Sorted(es[i := e])
    ensures Scan(es[i := e], ino) == if ino == e.ino then Some(e) else Scan(es, ino)
  {
    PlacedScan(es, i, e, ino);
    PlacedSorted(es, i, e);
  }

  // ------------------------------------------------------------------- the class

  class DirInfoDb {
    /** False until the first entry is added (`ctx->dir_info` is null). */
    var present: bool
    var data: array<DirInfo>
    var count: nat
    /** The cached slot, or -1. */
    var lastLookup: int

    ghost predicate Valid()
      reads this, data
    {
      && (present <==> count > 0) && count <= data.Length
      && Sorted(data[..count])
      && -1 <= lastLookup < count
    }

    ghost function Entries(): seq<DirInfo>
      reads this, data
      requires count <= data.Length
    {
      data[..count]
    }

    ghost function Lookup(ino: nat): Option<DirInfo>
      reads this, data
      requires count <= data.Length
    {
      Scan(data[..count], ino)
    }

    constructor (size: nat)
      ensures Valid() && fresh(data) && Entries() == []
    {
      present, count, lastLookup := false, 0, -1;
      data := new DirInfo[size](i => DirInfo(0, 0, 0));
    }

    /** More room; the cache survives only if the array did not move. */
    method Grow(moved: bool)
      requires Valid()
      modifies this`data, this`lastLookup
      ensures Valid() && fresh(data) && data.Length == old(data.Length) + 10 && data[..count] == old(data[..count])
      ensures lastLookup == if moved then -1 else old(lastLookup)
    {
      var bigger := new DirInfo[data.Length + 10](i => DirInfo(0, 0, 0));
      var i := 0;
      while i < count
        modifies bigger
        invariant 0 <= i <= count && bigger[..i] == data[..i]
      {
        bigger[i] := data[i];
        i := i + 1;
      }
      data := bigger;
      if moved {
        lastLookup := -1;
      }
    }

    /** The shifting loop: slots `i` on move up by one. */
    method MakeRoom(i: nat)
      requires i <= count < data.Length
      modifies this`count, data
      ensures count == old(count) + 1 && data[..i] == old(data[..i]) && data[i + 1..count] == old(data[i..count])
    {
      ghost var n := count;
      var j := count;
      count := count + 1;
      while j > i
        modifies data
        invariant i <= j <= n
        invariant forall k :: 0 <= k < j ==> data[k] == old(data[k])
        invariant forall k :: j < k <= n ==> data[k] == old(data[k - 1])
      {
        data[j] := data[j - 1];
        j := j - 1;
      }
      assert forall k :: 0 <= k < n - i ==> data[i + 1..count][k] == data[i + 1 + k] == old(data[i..count])[k];
    }

    /** The search for the sorted place, from the end, when the last entry is not below the inode. */
    method FindPlace(ino: nat) returns (i: nat)
      requires Valid() && count > 0 && data[count - 1].ino >= ino
      ensures PlaceOf(data[..count], i, ino) && i < count
    {
      i := count - 1;
      while i > 0
        invariant 0 <= i < count && forall k :: i <= k < count ==> ino <= data[k].ino
      {
        if data[i - 1].ino < ino {
          assert forall k :: 0 <= k < i - 1 ==> data[..count][k].ino < data[..count][i - 1].ino;
          break;
        }
        i := i - 1;
      }
    }

    /** `e2fsck_add_dir_info`, in or out of order; an entry already there is overwritten. */
    method Add(ino: nat, parent: nat, moved: bool)
      requires Valid()
      modifies this, data
      ensures Valid() && present && (data == old(data) || fresh(data))
      ensures forall k: nat :: Lookup(k) == if k == ino then Some(DirInfo(ino, parent, parent)) else old(Lookup(k))
    {
      hide Scan, Sorted, Placed;
      ghost var es := Entries();
      var e := DirInfo(ino, parent, parent);
      if count >= data.Length {
        Grow(moved);
      }
      assert data[..count] == es;
      var i := OpenSlot(ino, es);
      data[i] := e;
      present := true;
      SlotFilled(es, i, e, data[..count]);
      PlacedSorted(es, i, e);
      forall k: nat
        ensures Scan(data[..count], k) == if k == ino then Some(e) else Scan(es, k)
      {
        PlacedScan(es, i, e, k);
      }
    }

    /** The slot for an inode: its own, or a new one at its sorted place. */
    method OpenSlot(ino: nat, ghost es: seq<DirInfo>) returns (i: nat)
      requires Valid() && count < data.Length && data[..count] == es
      modifies this`count, data
      ensures i < count <= data.Length && old(count) <= count && Opened(es, i, ino, data[..count])
    {
      hide Scan, Sorted;
      i := count;
      if count > 0 && data[count - 1].ino >= ino {
        i := FindPlace(ino);
        if data[i].ino != ino {
          assert es[i..] == data[i..count] && es[..i] == data[..i];
          MakeRoom(i);
          assert data[..count][..i] == data[..i];
          assert data[..count][i + 1..] == data[i + 1..count];
        }
      } else {
        AtEnd(es, ino);
        count := count + 1;
        assert data[..count][..i] == es[..i];
        assert data[..count][i + 1..] == [] && es[i..] == [];
      }
    }

    /** `e2fsck_get_dir_info`: the slot of the entry, or -1. The sum of two slots is taken in 32 bits. */
    method Get(ino: nat) returns (r: int)
      requires Valid() && count <= 0x8000_0001
      ensures -1 <= r < count
      ensures r >= 0 ==> data[r].ino == ino && Lookup(ino) == Some(data[r])
      ensures r < 0 ==> Lookup(ino) == None
    {
      hide Scan;
      if !present {
        ScanNone(data[..count], ino);
        return -1;
      }
      if lastLookup >= 0 && data[lastLookup].ino == ino {
        ScanAt(data[..count], lastLookup);
        return lastLookup;
      }
      var low, high := 0, count - 1;
      if ino == data[low].ino {
        ScanAt(data[..count], low);
        return low;
      }
      if ino == data[high].ino {
        ScanAt(data[..count], high);
        return high;
      }
      while low < high
        invariant 0 <= low <= high < count
        invariant forall k :: 0 <= k < count && data[k].ino == ino ==> low < k < high
      {
        ghost var turn := Bisect(data[..count], ino, low, high);
        var mid := U32(low + high) / 2;
        if mid == low || mid == high {
          assert turn == Ends;
          break;
        }
        if ino == data[mid].ino {
          ScanAt(data[..count], mid);
          return mid;
        }
        assert forall k :: mid < k < count ==> data[..count][mid].ino < data[..count][k].ino;
        assert forall k :: 0 <= k < mid ==> data[..count][k].ino < data[..count][mid].ino;
        if ino < data[mid].ino {
          high := mid;
        } else {
          low := mid;
        }
        assert turn == Goes(low, high);
      }
      ScanNone(data[..count], ino);
      r := -1;
    }

    /** `e2fsck_dir_info_iter`: the entries in order of inode; the slot handed out becomes the cache. */
    method Iterate(i: nat) returns (e: Option<DirInfo>, next: nat)
      requires Valid()
      modifies this`lastLookup
      ensures Valid()
      ensures i < count ==> e == Some(Entries()[i]) && next == i + 1
      ensures i >= count ==> e == None && next == i
    {
      if !present || i >= count {
        return None, i;
      }
      lastLookup := i;
      return Some(data[i]), i + 1;
    }

    /** The body shared by the two setters. */
    method Store(r: int, e: DirInfo)
      requires Valid() && 0 <= r < count && data[r].ino == e.ino
      modifies data
      ensures Valid()
      ensures forall k: nat :: Lookup(k) == if k == e.ino then Some(e) else old(Lookup(k))
    {
      hide Scan, Sorted;
      ghost var es := data[..count];
      data[r] := e;
      assert data[..count] == es[r := e];
      UpdatedScan(es, r, e, 0);
      forall k: nat
        ensures Scan(data[..count], k) == if k == e.ino then Some(e) else Scan(es, k)
      {
        UpdatedScan(es, r, e, k);
      }
    }

    /** `e2fsck_dir_info_set_parent`. */
    method SetParent(ino: nat, parent: nat) returns (ret: int)
      requires Valid() && count <= 0x8000_0001
      modifies data
      ensures Valid() && ret == if old(Lookup(ino)).None? then 1 else 0
      ensures forall k: nat :: Lookup(k) == if k == ino && ret == 0 then Some(old(Lookup(ino)).value.(parent := parent)) else old(Lookup(k))
    {
      hide Scan, Sorted;
      var p := Get(ino);
      if p < 0 {
        return 1;
      }
      Store(p, data[p].(parent := parent));
      ret := 0;
    }

    /** `e2fsck_dir_info_set_dotdot`. */
    method SetDotdot(ino: nat, dotdot: nat) returns (ret: int)
      requires Valid() && count <= 0x8000_0001
      modifies data
      ensures Valid() && ret == if old(Lookup(ino)).None? then 1 else 0
      ensures forall k: nat :: Lookup(k) == if k == ino && ret == 0 then Some(old(Lookup(ino)).value.(dotdot := dotdot)) else old(Lookup(k))
    {
      hide Scan, Sorted;
      var p := Get(ino);
      if p < 0 {
        return 1;
      }
      Store(p, data[p].(dotdot := dotdot));
      ret := 0;
    }

    /** `e2fsck_dir_info_get_parent` and `e2fsck_dir_info_get_dotdot`. */
    method GetLinks(ino: nat) returns (ret: int, parent: nat, dotdot: nat)
      requires Valid() && count <= 0x8000_0001
      ensures ret == 0 ==> Lookup(ino) == Some(DirInfo(ino, dotdot, parent))
      ensures ret != 0 ==> ret == 1 && Lookup(ino) == None
    {
      var p := Get(ino);
      if p < 0 {
        return 1, 0, 0;
      }
      return 0, data[p].parent, data[p].dotdot;
    }
  }

  // ---------------------------------------------- a search that never ends

  datatype Turn = Ends | Goes(low: nat, high: nat)

  /** One turn of the bisection, as written. */
  function Bisect(es: seq<DirInfo>, ino: nat, low: nat, high: nat): Turn
    requires low < |es| && high < |es|
  {
    var mid := U32(low + high) / 2;
    if low >= high || mid == low || mid == high || mid >= |es| || ino == es[mid].ino then Ends
    else if ino < es[mid].ino then Goes(low, mid)
    else Goes(mid, high)
  }

  /** With more than 2^31 + 1 entries and the inode of the last but one, or one between it and the last, every turn leads to another one: a wrapped sum starts the search over. */
  lemma WrappedTurn(es: seq<DirInfo>, ino: nat, low: nat)
    requires Sorted(es) && 0x8000_0002 <= |es| <= 0x1_0000_0000
    requires es[|es| - 2].ino <= ino < es[|es| - 1].ino && low <= |es| - 2
    ensures Bisect(es, ino, low, |es| - 1).Goes?
    ensures Bisect(es, ino, low, |es| - 1).high == |es| - 1 && Bisect(es, ino, low, |es| - 1).low <= |es| - 2
  {
    var n := |es|;
    var sum := low + n - 1;
    var mid := U32(sum) / 2;
    assert U32(sum) == if sum < 0x1_0000_0000 then sum else sum - 0x1_0000_0000;
    assert mid <= n - 2 && mid != low;
    assert mid < n - 2 ==> es[mid].ino < es[n - 2].ino;
  }

  /** The bounds after `k` turns. */
  function After(es: seq<DirInfo>, ino: nat, k: nat): Turn
    requires es != []
  {
    if k == 0 then Goes(0, |es| - 1)
    else
      match After(es, ino, k - 1)
      case Ends => Ends
      case Goes(low, high) => if low < |es| && high < |es| then Bisect(es, ino, low, high) else Ends
  }

  lemma {:induction false} SearchNeverEnds(es: seq<DirInfo>, ino: nat, k: nat)
    requires Sorted(es) && 0x8000_0002 <= |es| <= 0x1_0000_0000
    requires es[|es| - 2].ino <= ino < es[|es| - 1].ino
    ensures After(es, ino, k).Goes? && After(es, ino, k).high == |es| - 1 && After(es, ino, k).low <= |es| - 2
  {
    hide Bisect, Sorted;
    if k > 0 {
      SearchNeverEnds(es, ino, k - 1);
      WrappedTurn(es, ino, After(es, ino, k - 1).low);
    }
  }

  /** Up to 2^31 + 1 entries no sum wraps, and every turn that goes on narrows the bounds. */
  lemma {:induction false} BoundsShrink(es: seq<DirInfo>, ino: nat, k: nat)
    requires 0 < |es| <= 0x8000_0001
    ensures var t := After(es, ino, k);
      t.Goes? ==> t.low <= t.high < |es| && t.high - t.low <= |es| - 1 - k
  {
    if k > 0 {
      BoundsShrink(es, ino, k - 1);
    }
  }

  ghost predicate SearchEnds(es: seq<DirInfo>, ino: nat)
    requires es != []
  {
    exists k: nat :: After(es, ino, k) == Ends
  }

  /** The exact condition: every search ends if and only if there are at most 2^31 + 1 entries. */
  lemma SearchEndsExact(es: seq<DirInfo>)
    requires Sorted(es) && 0 < |es| <= 0x1_0000_0000
    ensures (forall ino: nat :: SearchEnds(es, ino)) <==> |es| <= 0x8000_0001
  {
    hide Bisect, Sorted, After;
    if |es| <= 0x8000_0001 {
      forall ino: nat
        ensures SearchEnds(es, ino)
      {
        BoundsShrink(es, ino, |es|);
        assert After(es, ino, |es|) == Ends;
      }
    } else {
      LastTwo(es);
      var ino := es[|es| - 2].ino;
      forall k: nat
        ensures After(es, ino, k) != Ends
      {
        SearchNeverEnds(es, ino, k);
      }
      assert !SearchEnds(es, ino);
    }
  }

  lemma LastTwo(es: seq<DirInfo>)
    requires Sorted(es) && |es| >= 2
    ensures es[|es| - 2].ino < es[|es| - 1].ino
  {
  }

  lemma AtEnd(es: seq<DirInfo>, ino: nat)
    requires Sorted(es) && (es != [] ==> es[|es| - 1].ino < ino)
    ensures PlaceOf(es, |es|, ino)
  {
    forall k | 0 <= k < |es|
      ensures es[k].ino < ino
    {
      assert k < |es| - 1 ==> es[k].ino < es[|es| - 1].ino;
    }
  }
}
