/**
 Extended-attribute reference counts (e2fsck/ea_refcount.c): a sorted array with
 a lookup cursor, emptied of zero counts only when it runs out of room.
 */
module Refcount {

  datatype El = El(key: nat, value: nat)

  ghost predicate Sorted(s: seq<El>) {
    forall i, k :: 0 <= i < k < |s| ==> s[i].key < s[k].key
  }

  /** The count of a key; keys that are not stored count 0. */
  ghost function Count(s: seq<El>, key: nat): nat {
    if s == [] then 0 else if s[0].key == key then s[0].value else Count(s[1..], key)
  }

  ghost predicate Stored(s: seq<El>, key: nat) {
    exists i :: 0 <= i < |s| && s[i].key == key
  }

  /** The entries that survive a collapse. */
  function NonZero(s: seq<El>): seq<El> {
    if s == [] then [] else NonZero(s[..|s| - 1]) + if s[|s| - 1].value != 0 then [s[|s| - 1]] else []
  }

  lemma {:induction false} CountAt(s: seq<El>, i: nat)
    requires Sorted(s) && i < |s|
    ensures Count(s, s[i].key) == s[i].value
  {
    if i > 0 {
      assert s[1..][i - 1] == s[i];
      CountAt(s[1..], i - 1);
    }
  }

  lemma {:induction false} CountMissing(s: seq<El>, key: nat)
    requires forall i :: 0 <= i < |s| ==> s[i].key != key
    ensures Count(s, key) == 0
  {
    if s != [] {
      CountMissing(s[1..], key);
    }
  }

  lemma {:induction false} CountJoin(a: seq<El>, b: seq<El>, key: nat)
    ensures Count(a + b, key) == if Stored(a, key) then Count(a, key) else Count(b, key)
  {
    if a == [] {
      assert a + b == b;
    } else {
      assert (a + b)[1..] == a[1..] + b;
      CountJoin(a[1..], b, key);
      if Stored(a, key) && a[0].key != key {
        var i :| 0 <= i < |a| && a[i].key == key;
        assert a[1..][i - 1].key == key;
      }
      if Stored(a[1..], key) {
        var i :| 0 <= i < |a[1..]| && a[1..][i].key == key;
        assert a[i + 1].key == key;
      }
    }
  }

  lemma NonZeroNone()
    ensures NonZero([]) == []
  {
  }

  lemma NonZeroSnoc(s: seq<El>, i: nat)
    requires i < |s|
    ensures NonZero(s[..i + 1]) == NonZero(s[..i]) + if s[i].value != 0 then [s[i]] else []
    ensures NonZero(s[..i]) + [] == NonZero(s[..i])
  {
    assert s[..i + 1][..i] == s[..i];
  }

  lemma {:induction false} CollapseCount(s: seq<El>, key: nat)
    requires Sorted(s)
    ensures Count(NonZero(s), key) == Count(s, key)
  {
    if s != [] {
      hide NonZero;
      NonZeroHead(s);
      CollapseCount(s[1..], key);
      var n := NonZero(s[1..]);
      if s[0].value != 0 {
        assert ([s[0]] + n)[1..] == n;
      } else {
        assert [] + n == n;
        if s[0].key == key {
          CountMissing(s[1..], key);
        }
      }
    }
  }

  lemma {:induction false} CollapseOrder(s: seq<El>)
    requires Sorted(s)
    ensures Sorted(NonZero(s)) && |NonZero(s)| <= |s|
    ensures forall e :: e in NonZero(s) <==> e in s && e.value != 0
  {
    if s != [] {
      var front, last := s[..|s| - 1], s[|s| - 1];
      assert s == front + [last];
      CollapseOrder(front);
      var n := NonZero(front);
      forall i | 0 <= i < |n| ensures n[i].key < last.key {
        assert n[i] in n;
        var k :| 0 <= k < |front| && front[k] == n[i];
        assert s[k] == front[k];
      }
    }
  }

  /** A collapse changes no count and keeps the order. */
  lemma CollapseKeeps(s: seq<El>)
    requires Sorted(s)
    ensures Sorted(NonZero(s)) && |NonZero(s)| <= |s|
    ensures forall e :: e in NonZero(s) <==> e in s && e.value != 0
    ensures forall key :: Count(NonZero(s), key) == Count(s, key)
  {
    CollapseOrder(s);
    forall key ensures Count(NonZero(s), key) == Count(s, key) {
      CollapseCount(s, key);
    }
  }

  lemma NotStoredCounts(s: seq<El>, key: nat)
    ensures !Stored(s, key) ==> Count(s, key) == 0
  {
    if !Stored(s, key) {
      CountMissing(s, key);
    }
  }

  /** Entry `i` is where `key` belongs. */
  ghost predicate Belongs(s: seq<El>, key: nat, i: nat) {
    && i <= |s|
    && (forall k :: 0 <= k < i ==> s[k].key < key)
    && (forall k :: i <= k < |s| ==> s[k].key > key)
  }

  lemma InsertKeeps(s: seq<El>, key: nat, i: nat, r: seq<El>)
    requires Sorted(s) && Belongs(s, key, i) && r == s[..i] + [El(key, 0)] + s[i..]
    ensures Sorted(r) && forall k :: Count(r, k) == Count(s, k)
  {
    forall k ensures Count(r, k) == Count(s, k) {
      assert s == s[..i] + s[i..];
      assert r == s[..i] + ([El(key, 0)] + s[i..]);
      CountJoin(s[..i], s[i..], k);
      CountJoin(s[..i], [El(key, 0)] + s[i..], k);
      assert ([El(key, 0)] + s[i..])[1..] == s[i..];
      if k == key {
        CountMissing(s, k);
        NotStoredCounts(s[..i], k);
      }
    }
  }

  lemma {:induction false} UpdateCounts(s: seq<El>, i: nat, v: nat, k: nat)
    requires Sorted(s) && i < |s|
    ensures Sorted(s[i := El(s[i].key, v)])
    ensures Count(s[i := El(s[i].key, v)], k) == if k == s[i].key then v else Count(s, k)
  {
    var r := s[i := El(s[i].key, v)];
    if i > 0 {
      assert r[1..] == s[1..][i - 1 := El(s[i].key, v)];
      UpdateCounts(s[1..], i - 1, v, k);
    } else {
      assert r[1..] == s[1..];
    }
  }

  class RefcountTable {
    var list: seq<El>    // the first `count` slots of the array
    var size: nat        // slots allocated
    var cursor: nat

    ghost predicate Valid()
      reads this
    {
      Sorted(list) && |list| <= size
    }

    constructor (size: nat)
      ensures Valid() && list == [] && cursor == 0 && this.size == if size == 0 then 500 else size
    {
      this.size := if size == 0 then 500 else size;
      list, cursor := [], 0;
    }

    /** `refcount_collapse`. */
    method Collapse()
      modifies this`list
      ensures list == NonZero(old(list))
    {
      hide NonZero;
      ghost var was := list;
      NonZeroNone();
      var i, j := 0, 0;
      assert was[..0] == [] && list[..0] == [];
      while i < |list|
        invariant 0 <= j <= i <= |list| == |was|
        invariant list[..j] == NonZero(was[..i])
        invariant forall k :: i <= k < |list| ==> list[k] == was[k]
      {
        NonZeroSnoc(was, i);
        ghost var kept := list[..j];
        if list[i].value != 0 {
          if i != j {
            list := list[j := list[i]];
          }
          j := j + 1;
          assert list[..j] == kept + [was[i]];
        }
        i := i + 1;
      }
      list := list[..j];
      assert was[..|was|] == was;
    }

    /** `insert_refcount_el`. */
    method InsertEl(key: nat, pos: nat) returns (el: nat)
      requires Valid() && Belongs(list, key, pos)
      modifies this`list, this`size
      ensures Valid() && el == pos < |list| && list[el] == El(key, 0) && size >= old(size)
      ensures forall k :: Count(list, k) == old(Count(list, k))
    {
      if |list| >= size {
        size := size + 100;
      }
      InsertKeeps(list, key, pos, list[..pos] + [El(key, 0)] + list[pos..]);
      list := list[..pos] + [El(key, 0)] + list[pos..];
      el := pos;
    }

    /** The binary search: the key's entry, or where one belongs. */
    method Search(key: nat) returns (found: bool, at: nat)
      requires Valid()
      ensures found ==> at < |list| && list[at].key == key
      ensures !found ==> Belongs(list, key, at)
    {
      var low, high := 0, |list| - 1;
      while low <= high
        invariant 0 <= low <= high + 1 <= |list|
        invariant forall k :: 0 <= k < low ==> list[k].key < key
        invariant forall k :: high < k < |list| ==> list[k].key > key
      {
        var mid := (low + high) / 2;
        if key == list[mid].key {
          return true, mid;
        }
        if key < list[mid].key {
          high := mid - 1;
        } else {
          low := mid + 1;
        }
      }
      return false, low;
    }

    /** `get_refcount_el`: the entry of a key, or -1; with `create` an entry is made. */
    method GetEl(key: nat, create: bool) returns (el: int)
      requires Valid()
      modifies this
      ensures Valid() && forall k :: Count(list, k) == old(Count(list, k))
      ensures -1 <= el < |list| && (el >= 0 ==> list[el].key == key)
      ensures el == -1 ==> !create && list == old(list) && !Stored(list, key)
    {
      hide Count, NonZero;
      el := -1;
      var retries := 0;
      while true
        invariant Valid() && forall k :: Count(list, k) == old(Count(list, k))
        invariant 0 <= retries <= 1 && (retries == 1 ==> |list| < size)
        invariant !create ==> list == old(list)
        decreases 1 - retries
      {
        if create && (|list| == 0 || key > list[|list| - 1].key) {
          if |list| >= size {
            CollapseKeeps(list);
            BeyondCollapse(list, key);
            Collapse();
          }
          assert Belongs(list, key, |list|);
          el := InsertEl(key, |list|);
          return;
        }
        if |list| == 0 {
          return;
        }
        if cursor >= |list| {
          cursor := 0;
        }
        if key == list[cursor].key {
          el := cursor;
          cursor := cursor + 1;
          return;
        }
        var found, at := Search(key);
        if found {
          cursor := at + 1;
          return at;
        }
        if !create {
          return;
        }
        if |list| >= size {
          CollapseKeeps(list);
          CollapseIdle(list);
          Collapse();
          if |list| < size {
            retries := retries + 1;
            continue;
          }
        }
        el := InsertEl(key, at);
        return;
      }
    }

    method Fetch(key: nat) returns (value: nat)
      requires Valid()
      modifies this
      ensures Valid() && value == old(Count(list, key)) && forall k :: Count(list, k) == old(Count(list, k))
    {
      var el := GetEl(key, false);
      if el < 0 {
        NotStoredCounts(list, key);
        return 0;
      }
      CountAt(list, el);
      value := list[el].value;
    }

    method Increment(key: nat) returns (value: nat)
      requires Valid()
      modifies this
      ensures Valid() && value == old(Count(list, key)) + 1
      ensures forall k :: Count(list, k) == old(Count(list, k)) + if k == key then 1 else 0
    {
      var el := GetEl(key, true);
      CountAt(list, el);
      value := list[el].value + 1;
      SetCount(el, value);
    }

    /** Fails, changing no count, exactly when the count is already 0. */
    method Decrement(key: nat) returns (ok: bool, value: nat)
      requires Valid()
      modifies this
      ensures Valid() && (ok <==> old(Count(list, key)) > 0)
      ensures ok ==> value == old(Count(list, key)) - 1
      ensures forall k :: Count(list, k) == old(Count(list, k)) - if ok && k == key then 1 else 0
    {
      var el := GetEl(key, false);
      if el < 0 {
        NotStoredCounts(list, key);
        return false, 0;
      }
      CountAt(list, el);
      if list[el].value == 0 {
        return false, 0;
      }
      ok, value := true, list[el].value - 1;
      SetCount(el, value);
    }

    method Store(key: nat, value: nat)
      requires Valid()
      modifies this
      ensures Valid() && forall k :: Count(list, k) == if k == key then value else old(Count(list, k))
    {
      var el := GetEl(key, value != 0);
      if el < 0 {
        NotStoredCounts(list, key);
        return;
      }
      SetCount(el, value);
    }

    method SetCount(el: nat, value: nat)
      requires Valid() && el < |list|
      modifies this`list
      ensures Valid()
      ensures forall k :: Count(list, k) == if k == old(list[el].key) then value else old(Count(list, k))
    {
      ghost var was := list;
      UpdateCounts(was, el, value, 0);
      list := list[el := El(list[el].key, value)];
      forall k ensures Count(list, k) == if k == was[el].key then value else Count(was, k) {
        UpdateCounts(was, el, value, k);
      }
    }

    method IntrBegin()
      modifies this`cursor
      ensures cursor == 0
    {
      cursor := 0;
    }

    /** The entries an iteration from the cursor still has to yield; none if a collapse left the cursor beyond the end. */
    ghost function Ahead(): seq<El>
      reads this
    {
      if cursor <= |list| then NonZero(list[cursor..]) else []
    }

    /** `ea_refcount_intr_next`: walking from a cursor yields the remaining non-zero entries in order. */
    method IntrNext() returns (more: bool, e: El)
      requires Valid()
      modifies this`cursor
      ensures Valid() && cursor >= old(cursor)
      ensures more ==> old(Ahead()) == [e] + Ahead()
      ensures !more ==> old(Ahead()) == [] && Ahead() == []
    {
      e := El(0, 0);
      while true
        invariant Valid() && cursor >= old(cursor) && Ahead() == old(Ahead())
        decreases |list| - cursor
      {
        if cursor >= |list| {
          assert cursor == |list| ==> list[cursor..] == [];
          return false, e;
        }
        NonZeroHead(list[cursor..]);
        assert list[cursor..][1..] == list[cursor + 1..] && list[cursor..][0] == list[cursor];
        if list[cursor].value != 0 {
          e := list[cursor];
          cursor := cursor + 1;
          return true, e;
        }
        cursor := cursor + 1;
      }
    }
  }

  lemma {:induction false} NonZeroHead(s: seq<El>)
    requires s != []
    ensures NonZero(s) == (if s[0].value != 0 then [s[0]] else []) + NonZero(s[1..])
  {
    if |s| == 1 {
      assert s[..0] == [] && s[1..] == [];
    } else {
      var front := s[..|s| - 1];
      NonZeroHead(front);
      assert s[1..][..|s| - 2] == front[1..];
      assert s[1..][|s| - 2] == s[|s| - 1];
    }
  }

  /** A key beyond the last entry stays beyond it after a collapse. */
  lemma BeyondCollapse(s: seq<El>, key: nat)
    requires Sorted(s) && (s == [] || key > s[|s| - 1].key)
    ensures Belongs(NonZero(s), key, |NonZero(s)|)
  {
    CollapseKeeps(s);
    var n := NonZero(s);
    forall i | 0 <= i < |n| ensures n[i].key < key {
      assert n[i] in n;
      var k :| 0 <= k < |s| && s[k] == n[i];
    }
  }

  /** A collapse that frees nothing changes nothing. */
  lemma {:induction false} CollapseIdle(s: seq<El>)
    ensures |NonZero(s)| <= |s| && (|NonZero(s)| == |s| ==> NonZero(s) == s)
  {
    hide NonZero;
    NonZeroNone();
    if s != [] {
      var n := |s| - 1;
      CollapseIdle(s[..n]);
      NonZeroSnoc(s, n);
      assert s[..n + 1] == s && s == s[..n] + [s[n]];
    }
  }
}
