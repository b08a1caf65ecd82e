/**
 The ordered dictionary behind the duplicate-claim tables (lib/support/dict.c),
 under the comparison that e2fsck/pass1b.c gives it. That comparison returns a
 64-bit difference as an `int`, so it is an order only on some sets of keys.
 */
module Dictionary {
  import opened Options
  import opened Machine

  // -------------------------------------------------------------- comparing keys

  /** `dict_int_cmp`. */
  function Cmp(a: nat, b: nat): int {
    Int32(a - b)
  }

  predicate Congruent(a: nat, b: nat) {
    U32(a) == U32(b)
  }

  /** Both calls of the comparison on this pair say what the integers say. */
  predicate Agrees(a: nat, b: nat) {
    && (Cmp(a, b) < 0 <==> a < b) && (Cmp(a, b) > 0 <==> a > b)
    && (Cmp(b, a) < 0 <==> b < a) && (Cmp(b, a) > 0 <==> b > a)
  }

  /** The exact condition on a pair of keys. */
  lemma AgreesExact(a: nat, b: nat)
    ensures Agrees(a, b) <==> a == b || 1 <= U32(if a > b then a - b else b - a) < 0x8000_0000
  {
    U32Negates(a - b);
    U32Negates(b - a);
  }

  /** Keys are taken for equal exactly when they are congruent modulo 2^32. */
  lemma CmpZero(a: nat, b: nat)
    ensures Cmp(a, b) == 0 <==> Congruent(a, b)
    ensures Cmp(a, b) == 0 <==> Cmp(b, a) == 0
  {
    U32Minus(a, b);
    U32Minus(b, a);
  }

  // ---------------------------------------------------------------- the windows

  /** How far a key's residue lies behind the start of a window. */
  function Rank(w: nat, k: nat): nat {
    U32(k - w)
  }

  /** The residue lies in the window of 2^31 residues that starts at `w`. */
  predicate InWindow(w: nat, k: nat) {
    Rank(w, k) < 0x8000_0000
  }

  /** Inside a window the comparison is the order of the ranks. */
  lemma CmpIsRank(w: nat, a: nat, b: nat)
    requires InWindow(w, a) && InWindow(w, b)
    ensures Cmp(a, b) == Rank(w, a) - Rank(w, b)
    ensures Congruent(a, b) <==> Rank(w, a) == Rank(w, b)
  {
    U32Minus(a - w, b - w);
    assert (a - w) - (b - w) == a - b;
    CmpZero(a, b);
  }

  // ------------------------------------------------------------------- the trees

  datatype Tree<V> = Nil | Node(left: Tree<V>, key: nat, value: V, right: Tree<V>)

  /** The nodes from left to right. */
  function Items<V>(t: Tree<V>): seq<(nat, V)> {
    if t.Nil? then [] else Items(t.left) + [(t.key, t.value)] + Items(t.right)
  }

  /** `dict_lookup`. */
  function Lookup<V>(t: Tree<V>, k: nat): Option<(nat, V)> {
    if t.Nil? then None
    else if Cmp(k, t.key) < 0 then Lookup(t.left, k)
    else if Cmp(k, t.key) > 0 then Lookup(t.right, k)
    else Some((t.key, t.value))
  }

  /** The value of the node that a lookup finds is changed in place; without one a node is inserted where `dict_insert` puts it. */
  function Filed<V>(t: Tree<V>, k: nat, v: V): Tree<V> {
    if t.Nil? then Node(Nil, k, v, Nil)
    else if Cmp(k, t.key) < 0 then t.(left := Filed(t.left, k, v))
    else if Cmp(k, t.key) > 0 then t.(right := Filed(t.right, k, v))
    else t.(value := v)
  }

  /** Filing a value and rebalancing the tree, of which only this is used: rotations keep the nodes in their order. */
  method Store<V>(t: Tree<V>, k: nat, v: V) returns (r: Tree<V>)
    ensures Items(r) == Items(Filed(t, k, v))
  {
    r := Filed(t, k, v);
  }

  /** `r` is `s` with the found node's value replaced, or with a new node at `i`. */
  ghost predicate FiledAt<V>(s: seq<(nat, V)>, r: seq<(nat, V)>, i: nat, k: nat, v: V, found: Option<(nat, V)>) {
    match found
    case Some(e) => i < |s| && s[i] == e && Congruent(e.0, k) && r == s[i := (e.0, v)]
    case None => i <= |s| && r == s[..i] + [(k, v)] + s[i..]
  }

  lemma FiledFront<V>(a: seq<(nat, V)>, a': seq<(nat, V)>, b: seq<(nat, V)>, i: nat, k: nat, v: V, found: Option<(nat, V)>)
    requires FiledAt(a, a', i, k, v, found)
    ensures FiledAt(a + b, a' + b, i, k, v, found)
  {
    hide Congruent;
    if found.Some? {
      assert a[i := (found.value.0, v)] + b == (a + b)[i := (found.value.0, v)];
    } else {
      assert a[..i] + [(k, v)] + a[i..] + b == (a + b)[..i] + [(k, v)] + (a + b)[i..];
    }
  }

  lemma FiledBack<V>(a: seq<(nat, V)>, b: seq<(nat, V)>, b': seq<(nat, V)>, i: nat, k: nat, v: V, found: Option<(nat, V)>)
    requires FiledAt(b, b', i, k, v, found)
    ensures FiledAt(a + b, a + b', |a| + i, k, v, found)
  {
    hide Congruent;
    if found.Some? {
      assert a + b[i := (found.value.0, v)] == (a + b)[|a| + i := (found.value.0, v)];
    } else {
      assert (a + b)[..|a| + i] == a + b[..i] && (a + b)[|a| + i..] == b[i..];
      assert a + (b[..i] + [(k, v)] + b[i..]) == (a + b[..i]) + [(k, v)] + b[i..];
    }
  }

  lemma ItemsNode<V>(l: Tree<V>, k: nat, v: V, r: Tree<V>)
    ensures Items(Node(l, k, v, r)) == Items(l) + ([(k, v)] + Items(r)) == Items(l) + [(k, v)] + Items(r)
  {
  }

  lemma ItemsNil<V>(t: Tree<V>, k: nat, v: V)
    requires t.Nil?
    ensures FiledAt(Items(t), Items(Node(Nil, k, v, Nil)), 0, k, v, None)
  {
    assert Items(Node(Nil, k, v, Nil)) == [(k, v)];
  }

  lemma FiledHere<V>(l: seq<(nat, V)>, e: (nat, V), r: seq<(nat, V)>, k: nat, v: V)
    requires Congruent(e.0, k)
    ensures FiledAt(l + [e] + r, l + [(e.0, v)] + r, |l|, k, v, Some(e))
  {
    assert (l + [e] + r)[|l| := (e.0, v)] == l + [(e.0, v)] + r;
  }

  /** What filing does to the nodes, whatever the comparison makes of the keys. */
  lemma {:induction false} FiledItems<V>(t: Tree<V>, k: nat, v: V) returns (i: nat)
    ensures FiledAt(Items(t), Items(Filed(t, k, v)), i, k, v, Lookup(t, k))
  {
    hide Cmp, Congruent, FiledAt, Items;
    if t.Nil? {
      i := 0;
      ItemsNil(t, k, v);
    } else {
      CmpZero(t.key, k);
      ItemsNode(t.left, t.key, t.value, t.right);
      var l, m, r := Items(t.left), (t.key, t.value), Items(t.right);
      if Cmp(k, t.key) < 0 {
        i := FiledItems(t.left, k, v);
        FiledFront(l, Items(Filed(t.left, k, v)), [m] + r, i, k, v, Lookup(t, k));
        ItemsNode(Filed(t.left, k, v), t.key, t.value, t.right);
      } else if Cmp(k, t.key) > 0 {
        i := FiledItems(t.right, k, v);
        FiledBack(l + [m], r, Items(Filed(t.right, k, v)), i, k, v, Lookup(t, k));
        ItemsNode(t.left, t.key, t.value, Filed(t.right, k, v));
        i := |l + [m]| + i;
      } else {
        i := |l|;
        FiledHere(l, m, r, k, v);
        ItemsNode(t.left, t.key, v, t.right);
      }
    }
  }

  // -------------------------------------------------------------- sorted by rank

  ghost predicate Sorted<V>(s: seq<(nat, V)>, w: nat) {
    && (forall i :: 0 <= i < |s| ==> InWindow(w, s[i].0))
    && (forall i, j :: 0 <= i < j < |s| ==> Rank(w, s[i].0) < Rank(w, s[j].0))
  }

  lemma SortedJoin<V>(a: seq<(nat, V)>, b: seq<(nat, V)>, w: nat)
    requires Sorted(a + b, w)
    ensures Sorted(a, w) && Sorted(b, w)
    ensures forall i, j :: 0 <= i < |a| && 0 <= j < |b| ==> Rank(w, a[i].0) < Rank(w, b[j].0)
  {
    hide InWindow, Rank;
    var s := a + b;
    assert forall i :: 0 <= i < |a| ==> s[i] == a[i];
    assert forall i :: 0 <= i < |b| ==> s[|a| + i] == b[i];
  }

  lemma SortedParts<V>(a: seq<(nat, V)>, m: (nat, V), b: seq<(nat, V)>, w: nat)
    requires Sorted(a + [m] + b, w)
    ensures Sorted(a, w) && Sorted(b, w) && InWindow(w, m.0)
    ensures forall i :: 0 <= i < |a| ==> Rank(w, a[i].0) < Rank(w, m.0)
    ensures forall i :: 0 <= i < |b| ==> Rank(w, m.0) < Rank(w, b[i].0)
  {
    SortedJoin(a + [m], b, w);
    SortedJoin(a, [m], w);
    hide InWindow, Rank, Sorted;
    assert (a + [m])[|a|] == m && [m][0] == m;
    assert InWindow(w, [m][0].0) by { OneSorted([m], w); }
  }

  lemma OneSorted<V>(s: seq<(nat, V)>, w: nat)
    requires Sorted(s, w) && |s| == 1
    ensures InWindow(w, s[0].0)
  {
  }

  /** In a sorted tree a lookup finds the key's class whenever it is there. */
  lemma {:induction false} LookupFinds<V>(t: Tree<V>, w: nat, k: nat)
    requires Sorted(Items(t), w) && InWindow(w, k)
    ensures Lookup(t, k).None? ==> forall i :: 0 <= i < |Items(t)| ==> !Congruent(Items(t)[i].0, k)
  {
    hide Cmp, Congruent, InWindow, Rank;
    if t.Node? {
      var l, m, r := Items(t.left), (t.key, t.value), Items(t.right);
      SortedParts(l, m, r, w);
      CmpIsRank(w, k, t.key);
      LookupFinds(if Cmp(k, t.key) < 0 then t.left else t.right, w, k);
      forall i | 0 <= i < |Items(t)| && Lookup(t, k).None?
        ensures !Congruent(Items(t)[i].0, k)
      {
        CmpIsRank(w, Items(t)[i].0, k);
        assert Items(t)[i] == if i < |l| then l[i] else if i == |l| then m else r[i - |l| - 1];
      }
    }
  }

  ghost predicate Between<V>(s: seq<(nat, V)>, i: nat, k: nat, w: nat) {
    && i <= |s|
    && (forall j :: 0 <= j < i ==> Rank(w, s[j].0) < Rank(w, k))
    && (forall j :: i <= j < |s| ==> Rank(w, k) < Rank(w, s[j].0))
  }

  /** Where a new key goes in a sorted tree. */
  lemma {:induction false} FiledBetween<V>(t: Tree<V>, w: nat, k: nat, v: V) returns (i: nat)
    requires Sorted(Items(t), w) && InWindow(w, k) && Lookup(t, k).None?
    ensures FiledAt(Items(t), Items(Filed(t, k, v)), i, k, v, None) && Between(Items(t), i, k, w)
  {
    hide Cmp, Congruent, InWindow, Rank, FiledAt, Items;
    if t.Nil? {
      i := 0;
      ItemsNil(t, k, v);
      NoItems(t);
    } else {
      hide Between;
      ItemsNode(t.left, t.key, t.value, t.right);
      var l, m, r := Items(t.left), (t.key, t.value), Items(t.right);
      SortedParts(l, m, r, w);
      CmpIsRank(w, k, t.key);
      if Cmp(k, t.key) < 0 {
        i := FiledBetween(t.left, w, k, v);
        FiledFront(l, Items(Filed(t.left, k, v)), [m] + r, i, k, v, None);
        ItemsNode(Filed(t.left, k, v), t.key, t.value, t.right);
        BetweenLeft(l, m, r, i, k, w);
      } else {
        i := FiledBetween(t.right, w, k, v);
        FiledBack(l + [m], r, Items(Filed(t.right, k, v)), i, k, v, None);
        ItemsNode(t.left, t.key, t.value, Filed(t.right, k, v));
        BetweenRight(l, m, r, i, k, w);
        i := |l + [m]| + i;
      }
    }
  }

  lemma NoItems<V>(t: Tree<V>)
    requires t.Nil?
    ensures Items(t) == []
  {
  }

  lemma BetweenLeft<V>(l: seq<(nat, V)>, m: (nat, V), r: seq<(nat, V)>, i: nat, k: nat, w: nat)
    requires Between(l, i, k, w) && Rank(w, k) < Rank(w, m.0) && forall j :: 0 <= j < |r| ==> Rank(w, m.0) < Rank(w, r[j].0)
    ensures Between(l + [m] + r, i, k, w)
  {
    hide Rank;
  }

  lemma BetweenRight<V>(l: seq<(nat, V)>, m: (nat, V), r: seq<(nat, V)>, i: nat, k: nat, w: nat)
    requires Between(r, i, k, w) && Rank(w, m.0) < Rank(w, k) && forall j :: 0 <= j < |l| ==> Rank(w, l[j].0) < Rank(w, m.0)
    ensures Between(l + [m] + r, |l + [m]| + i, k, w)
  {
    hide Rank;
  }

  /** Filing keeps a tree sorted. */
  lemma FiledSorted<V>(t: Tree<V>, w: nat, k: nat, v: V)
    requires Sorted(Items(t), w) && InWindow(w, k)
    ensures Sorted(Items(Filed(t, k, v)), w)
  {
    hide Cmp, Congruent, InWindow, Rank, Filed, Lookup, Items;
    var s := Items(t);
    if Lookup(t, k).Some? {
      var i := FiledItems(t, k, v);
      assert forall j :: 0 <= j < |s| ==> s[i := (s[i].0, v)][j].0 == s[j].0;
    } else {
      var i := FiledBetween(t, w, k, v);
      InsertedSorted(s, i, (k, v), w);
    }
  }

  lemma InsertedSorted<V>(s: seq<(nat, V)>, i: nat, e: (nat, V), w: nat)
    requires Sorted(s, w) && InWindow(w, e.0) && Between(s, i, e.0, w)
    ensures Sorted(s[..i] + [e] + s[i..], w)
  {
    hide InWindow, Rank;
    var r := s[..i] + [e] + s[i..];
    assert forall j :: 0 <= j < |r| ==> r[j] == if j < i then s[j] else if j == i then e else s[j - 1];
  }

  // ------------------------------------------- what every shape of the tree finds

  /** However the tree is balanced, a lookup of each key finds that key's node. */
  ghost predicate EveryShapeFinds<V(!new)>(s: seq<(nat, V)>) {
    forall t: Tree<V>, i :: Items(t) == s && 0 <= i < |s| ==> Lookup(t, s[i].0) == Some(s[i])
  }

  lemma SortedLookup<V>(t: Tree<V>, w: nat, i: nat)
    requires Sorted(Items(t), w) && i < |Items(t)|
    ensures Lookup(t, Items(t)[i].0) == Some(Items(t)[i])
  {
    hide Cmp, Rank, InWindow, Lookup, Items, Filed;
    var s, k := Items(t), Items(t)[i].0;
    LookupFinds(t, w, k);
    CongruentSelf(k);
    var j := FiledItems(t, k, s[i].1);
    CmpIsRank(w, s[j].0, k);
  }

  lemma CongruentSelf(k: nat)
    ensures Congruent(k, k)
  {
  }

  /** A tree that leans to the right. */
  function Chain<V>(s: seq<(nat, V)>): (t: Tree<V>)
    ensures Items(t) == s
  {
    if s == [] then Nil else Node(Nil, s[0].0, s[0].1, Chain(s[1..]))
  }

  lemma {:induction false} FoundIsItem<V>(t: Tree<V>, k: nat)
    ensures Lookup(t, k).Some? ==> Lookup(t, k).value in Items(t)
  {
    if t.Node? {
      FoundIsItem(t.left, k);
      FoundIsItem(t.right, k);
    }
  }

  /** With node `i` as the root, a later key must compare greater. */
  lemma RootDecides<V(!new)>(s: seq<(nat, V)>, i: nat, j: nat)
    requires EveryShapeFinds(s) && i < j < |s| && forall x, y :: 0 <= x < y < |s| ==> s[x].0 != s[y].0
    ensures Cmp(s[j].0, s[i].0) > 0
  {
    hide Cmp, Items;
    var l, r := Chain(s[..i]), Chain(s[i + 1..]);
    var t := Node(l, s[i].0, s[i].1, r);
    ItemsNode(l, s[i].0, s[i].1, r);
    assert s[..i] + [s[i]] + s[i + 1..] == s;
    assert Lookup(t, s[j].0) == Some(s[j]);
    FoundIsItem(l, s[j].0);
  }

  /** The exact condition on a whole dictionary: every shape finds every key if and only if the residues lie in one window and the nodes are sorted in it. */
  lemma ShapeExact<V(!new)>(s: seq<(nat, V)>)
    requires forall i, j :: 0 <= i < j < |s| ==> s[i].0 != s[j].0
    ensures EveryShapeFinds(s) <==> exists w: nat :: Sorted(s, w)
  {
    hide Cmp, Rank, InWindow, Items, Lookup;
    if w: nat :| Sorted(s, w) {
      forall t: Tree<V>, i | Items(t) == s && 0 <= i < |s|
        ensures Lookup(t, s[i].0) == Some(s[i])
      {
        SortedLookup(t, w, i);
      }
    }
    if EveryShapeFinds(s) {
      if s == [] {
        assert Sorted(s, 0);
      } else {
        forall i, j | 0 <= i < j < |s|
          ensures Cmp(s[j].0, s[i].0) > 0
        {
          RootDecides(s, i, j);
        }
        SortedFromFirst(s);
      }
    }
  }

  lemma SortedFromFirst<V>(s: seq<(nat, V)>)
    requires s != [] && forall i, j :: 0 <= i < j < |s| ==> Cmp(s[j].0, s[i].0) > 0
    ensures Sorted(s, s[0].0)
  {
    var w := s[0].0;
    forall i | 0 <= i < |s|
      ensures InWindow(w, s[i].0)
    {
      assert i > 0 ==> Cmp(s[i].0, s[0].0) > 0;
    }
    forall i, j | 0 <= i < j < |s|
      ensures Rank(w, s[i].0) < Rank(w, s[j].0)
    {
      CmpIsRank(w, s[j].0, s[i].0);
    }
  }
}
