/**
 The string-keyed hash table (src/map.c): chained buckets, a power-of-two bucket
 count masked into an index, and a resize that may fail.
 */
module HashTable {
  import opened Options

  type Key = seq<int>   // the bytes of a C string, without the terminator

  datatype Entry<V> = Entry(hash: nat, key: Key, value: V)

  // ---------------------------------------------------------------- hashing

  /** Bitwise XOR of naturals. */
  function Xor(a: nat, b: nat): nat {
    if a == 0 then b else if b == 0 then a else 2 * Xor(a / 2, b / 2) + (a % 2 + b % 2) % 2
  }

  /** One step of `map_hash` in 32 bits; the byte is a signed char widened to unsigned. */
  function HashStep(h: nat, c: int): nat {
    Xor((h * 33) % 0x1_0000_0000, if c < 128 then c % 128 else 0xFFFF_FF00 + c % 256)
  }

  function HashFrom(h: nat, key: Key): nat
    decreases |key|
  {
    if key == [] then h else HashFrom(HashStep(h, key[0]), key[1..])
  }

  function Hash(key: Key): nat {
    HashFrom(5381, key)
  }

  method ComputeHash(key: Key) returns (h: nat)
    ensures h == Hash(key)
  {
    hide HashStep;
    h := 5381;
    var i := 0;
    assert key[0..] == key;
    while i < |key|
      invariant 0 <= i <= |key| && HashFrom(h, key[i..]) == HashFrom(5381, key)
    {
      assert key[i..][0] == key[i] && key[i..][1..] == key[i + 1..];
      h := HashStep(h, key[i]);
      i := i + 1;
    }
  }

  function Bit(x: nat, i: nat): (r: nat)
    ensures r < 2
  {
    if i == 0 then x % 2 else Bit(x / 2, i - 1)
  }

  /** Bit by bit, XOR is the sum modulo 2 and AND the product. */
  lemma {:induction false} BitwiseExact(a: nat, b: nat, i: nat)
    ensures Bit(Xor(a, b), i) == (Bit(a, i) + Bit(b, i)) % 2
    ensures Bit(And(a, b), i) == Bit(a, i) * Bit(b, i)
    decreases i
  {
    BitOfZero(i);
    if a != 0 && b != 0 {
      var x, y := Xor(a / 2, b / 2), And(a / 2, b / 2);
      HalfOf(x, (a % 2 + b % 2) % 2);
      HalfOf(y, (a % 2) * (b % 2));
      if i > 0 {
        BitwiseExact(a / 2, b / 2, i - 1);
      }
    }
  }

  lemma HalfOf(x: nat, r: nat)
    requires r < 2
    ensures (2 * x + r) / 2 == x && (2 * x + r) % 2 == r
  {
  }

  lemma {:induction false} BitOfZero(i: nat)
    ensures Bit(0, i) == 0
  {
    if i > 0 {
      BitOfZero(i - 1);
    }
  }

  /** A character above 127 counts as negative. */
  lemma HashStepParts(h: nat, c: int)
    requires 0 <= c < 256
    ensures HashStep(h, 0) == (h * 33) % 0x1_0000_0000
    ensures HashStep(0, c) == if c < 128 then c else 0x1_0000_0000 - (256 - c)
    ensures Hash([]) == 5381 && Hash([0]) == 177573
  {
    assert [0][1..] == [];
    assert Hash([0]) == HashFrom(HashStep(5381, 0), []);
  }

  /** Bitwise AND of naturals. */
  function And(a: nat, b: nat): nat {
    if a == 0 || b == 0 then 0 else 2 * And(a / 2, b / 2) + (a % 2) * (b % 2)
  }

  function Pow2(k: nat): nat {
    if k == 0 then 1 else 2 * Pow2(k - 1)
  }

  ghost predicate BucketCount(n: nat) {
    n == 0 || exists k: nat :: n == Pow2(k)
  }

  /** `map_bucketidx`. */
  function Index(n: nat, hash: nat): nat
    requires n > 0
  {
    And(hash, n - 1)
  }

  /** Masking with a power of two less one is reduction modulo that power. */
  lemma {:induction false} MaskIsModulo(h: nat, k: nat)
    ensures Pow2(k) > 0 && And(h, Pow2(k) - 1) == h % Pow2(k)
    decreases k
  {
    if k > 0 {
      MaskIsModulo(h / 2, k - 1);
      var p := Pow2(k - 1);
      assert (2 * p - 1) / 2 == p - 1 && (2 * p - 1) % 2 == 1;
      HalfModulo(h, p);
      if h == 0 {
      } else if 2 * p - 1 == 0 {
      } else {
        assert And(h, 2 * p - 1) == 2 * And(h / 2, p - 1) + h % 2;
      }
    }
  }

  lemma HalfModulo(h: nat, p: nat)
    requires p > 0
    ensures h % (2 * p) == 2 * ((h / 2) % p) + h % 2
  {
    var q, r := (h / 2) / p, (h / 2) % p;
    assert h / 2 == q * p + r;
    assert h == 2 * (q * p + r) + h % 2;
    var x := 2 * r + h % 2;
    assert h == q * (2 * p) + x by {
      assert 2 * (q * p) == q * (2 * p);
    }
    assert 0 <= x < 2 * p;
    ModuloUnique(h, 2 * p, q, x);
  }

  lemma ModuloUnique(h: nat, m: nat, q: nat, x: nat)
    requires m > 0 && h == q * m + x && x < m
    ensures h % m == x
  {
    var d := h / m - q;
    assert h == (h / m) * m + h % m;
    assert d * m == x - h % m by {
      assert (h / m - q) * m == (h / m) * m - q * m;
    }
    assert d > 0 ==> d * m >= m;
    assert d < 0 ==> d * m <= 0 - m;
  }

  lemma IndexInRange(n: nat, h: nat)
    requires BucketCount(n) && n > 0
    ensures Index(n, h) == h % n && Index(n, h) < n
  {
    var k: nat :| n == Pow2(k);
    MaskIsModulo(h, k);
  }

  // ------------------------------------------------- what the buckets denote

  ghost function All<V>(buckets: seq<seq<Entry<V>>>): multiset<Entry<V>> {
    if buckets == [] then multiset{} else multiset(buckets[0]) + All(buckets[1..])
  }

  ghost predicate Home<V>(buckets: seq<seq<Entry<V>>>) {
    forall b, e :: 0 <= b < |buckets| && e in buckets[b] ==> b == Index(|buckets|, e.hash)
  }

  /** The entries are exactly the pairs of `model`, once each. */
  ghost predicate Faithful<V>(entries: multiset<Entry<V>>, model: map<Key, V>) {
    && (forall e :: e in entries ==>
          e.hash == Hash(e.key) && e.key in model && model[e.key] == e.value && entries[e] == 1)
    && (forall k :: k in model ==> Entry(Hash(k), k, model[k]) in entries)
  }

  ghost predicate Represents<V>(buckets: seq<seq<Entry<V>>>, nnodes: nat, model: map<Key, V>) {
    && BucketCount(|buckets|) && Home(buckets) && Faithful(All(buckets), model)
    && nnodes == |All(buckets)| == |model| && nnodes <= |buckets|
  }

  lemma {:induction false} AllUpdate<V>(buckets: seq<seq<Entry<V>>>, b: nat, chain: seq<Entry<V>>)
    requires b < |buckets|
    ensures All(buckets[b := chain]) + multiset(buckets[b]) == All(buckets) + multiset(chain)
  {
    if b == 0 {
      assert buckets[b := chain][1..] == buckets[1..];
    } else {
      var rest := buckets[1..];
      assert buckets[b := chain][1..] == rest[b - 1 := chain] && buckets[b := chain][0] == buckets[0];
      AllUpdate(rest, b - 1, chain);
      var first, x, y := multiset(buckets[0]), All(rest[b - 1 := chain]), All(rest);
      assert x + multiset(buckets[b]) == y + multiset(chain);
      assert first + x + multiset(buckets[b]) == first + (x + multiset(buckets[b]));
      assert first + y + multiset(chain) == first + (y + multiset(chain));
    }
  }

  lemma {:induction false} AllMembers<V>(buckets: seq<seq<Entry<V>>>, e: Entry<V>)
    ensures e in All(buckets) <==> exists b :: 0 <= b < |buckets| && e in buckets[b]
  {
    if buckets != [] {
      AllMembers(buckets[1..], e);
      if b :| 0 <= b < |buckets| && e in buckets[b] {
        if b > 0 {
          assert e in buckets[1..][b - 1];
        }
      }
      if e in All(buckets[1..]) {
        var b :| 0 <= b < |buckets[1..]| && e in buckets[1..][b];
        assert e in buckets[b + 1];
      }
    }
  }

  /** The chain a key hashes to decides whether the table has the key. */
  lemma ChainDecides<V>(buckets: seq<seq<Entry<V>>>, nnodes: nat, model: map<Key, V>, key: Key)
    requires Represents(buckets, nnodes, model) && |buckets| > 0
    ensures Index(|buckets|, Hash(key)) < |buckets|
    ensures var chain := buckets[Index(|buckets|, Hash(key))];
      && (key in model ==> Entry(Hash(key), key, model[key]) in chain)
      && (forall e :: e in chain && e.key == key ==> key in model && e == Entry(Hash(key), key, model[key]))
  {
    hide Hash, Index;
    IndexInRange(|buckets|, Hash(key));
    var b := Index(|buckets|, Hash(key));
    forall e | e in buckets[b] ensures e in All(buckets) {
      AllMembers(buckets, e);
    }
    if key in model {
      var e := Entry(Hash(key), key, model[key]);
      AllMembers(buckets, e);
      var c :| 0 <= c < |buckets| && e in buckets[c];
    }
  }

  /** Putting a node at the front of its chain. */
  ghost function Added<V>(buckets: seq<seq<Entry<V>>>, e: Entry<V>): seq<seq<Entry<V>>>
    requires |buckets| > 0 && Index(|buckets|, e.hash) < |buckets|
  {
    var b := Index(|buckets|, e.hash);
    buckets[b := [e] + buckets[b]]
  }

  lemma AddedKeeps<V>(buckets: seq<seq<Entry<V>>>, e: Entry<V>)
    requires |buckets| > 0 && Index(|buckets|, e.hash) < |buckets| && Home(buckets)
    ensures Home(Added(buckets, e)) && All(Added(buckets, e)) == All(buckets) + multiset{e}
  {
    hide Index, All;
    var b := Index(|buckets|, e.hash);
    var old', new' := multiset(buckets[b]), All(Added(buckets, e));
    AllUpdate(buckets, b, [e] + buckets[b]);
    assert multiset([e] + buckets[b]) == multiset{e} + old';
    assert new' + old' == All(buckets) + multiset{e} + old';
    CancelRight(new', All(buckets) + multiset{e}, old');
  }

  lemma CancelRight<T>(a: multiset<T>, b: multiset<T>, c: multiset<T>)
    requires a + c == b + c
    ensures a == b
  {
    assert a == (a + c) - c && b == (b + c) - c;
  }

  /** Cleared buckets. */
  function Cleared<V>(n: nat): (r: seq<seq<Entry<V>>>)
    ensures |r| == n && forall b :: 0 <= b < n ==> r[b] == []
  {
    if n == 0 then [] else [[]] + Cleared<V>(n - 1)
  }

  lemma {:induction false} ClearedHasNone<V>(n: nat)
    ensures All(Cleared<V>(n)) == multiset{}
  {
    if n > 0 {
      assert Cleared<V>(n)[1..] == Cleared<V>(n - 1);
      ClearedHasNone<V>(n - 1);
    }
  }

  lemma FreshKeyFaithful<V>(entries: multiset<Entry<V>>, model: map<Key, V>, key: Key, value: V)
    requires Faithful(entries, model) && key !in model
    ensures Faithful(entries + multiset{Entry(Hash(key), key, value)}, model[key := value])
    ensures |model[key := value]| == |model| + 1
  {
    hide Hash;
    var e := Entry(Hash(key), key, value);
    assert e !in entries;
    assert model[key := value].Keys == model.Keys + {key};
  }

  lemma ReplacedFaithful<V>(entries: multiset<Entry<V>>, model: map<Key, V>, key: Key, value: V)
    requires Faithful(entries, model) && key in model
    ensures var old', new' := Entry(Hash(key), key, model[key]), Entry(Hash(key), key, value);
      old' in entries && Faithful(entries - multiset{old'} + multiset{new'}, model[key := value])
    ensures |model[key := value]| == |model|
  {
    hide Hash;
    assert model[key := value].Keys == model.Keys;
  }

  lemma RemovedFaithful<V>(entries: multiset<Entry<V>>, model: map<Key, V>, key: Key)
    requires Faithful(entries, model) && key in model
    ensures var e := Entry(Hash(key), key, model[key]);
      e in entries && Faithful(entries - multiset{e}, model - {key}) && |model - {key}| == |model| - 1
  {
    hide Hash;
    assert (model - {key}).Keys == model.Keys - {key};
  }

  lemma {:induction false} AllSnoc<V>(front: seq<seq<Entry<V>>>, chain: seq<Entry<V>>)
    ensures All(front + [chain]) == All(front) + multiset(chain)
  {
    if front == [] {
      assert front + [chain] == [chain] && [chain][1..] == [];
    } else {
      assert (front + [chain])[1..] == front[1..] + [chain];
      AllSnoc(front[1..], chain);
    }
  }

  ghost function Flat<V>(buckets: seq<seq<Entry<V>>>): seq<Entry<V>> {
    if buckets == [] then [] else Flat(buckets[..|buckets| - 1]) + buckets[|buckets| - 1]
  }

  lemma FlatAt<V>(buckets: seq<seq<Entry<V>>>, b: nat)
    requires b < |buckets|
    ensures Flat(buckets[..b + 1]) == Flat(buckets[..b]) + buckets[b]
  {
    assert buckets[..b + 1][..b] == buckets[..b];
  }

  lemma FlatNone<V>()
    ensures Flat<V>([]) == []
  {
  }

  lemma {:induction false} FlatIsAll<V>(buckets: seq<seq<Entry<V>>>)
    ensures multiset(Flat(buckets)) == All(buckets)
  {
    if buckets != [] {
      var front, last := buckets[..|buckets| - 1], buckets[|buckets| - 1];
      assert buckets == front + [last];
      FlatIsAll(front);
      AllSnoc(front, last);
    }
  }

  /** `map_iter_t`: a bucket and a position in its chain, -1 standing for no node. */
  datatype Iter = Iter(b: int, i: int)

  class Table<V> {
    var buckets: seq<seq<Entry<V>>>
    var nnodes: nat
    ghost var model: map<Key, V>

    ghost predicate Valid()
      reads this
    {
      Represents(buckets, nnodes, model)
    }

    constructor ()
      ensures Valid() && model == map[] && buckets == []
    {
      buckets, nnodes, model := [], 0, map[];
    }

    /** `map_getref`: where the key's node is. */
    method GetRef(key: Key) returns (found: bool, b: nat, i: nat)
      requires Valid()
      ensures found <==> key in model
      ensures found ==> b < |buckets| && i < |buckets[b]| && buckets[b][i] == Entry(Hash(key), key, model[key])
    {
      hide Hash, Index, All;
      var hash := ComputeHash(key);
      found, b, i := false, 0, 0;
      if |buckets| > 0 {
        ChainDecides(buckets, nnodes, model, key);
        b := Index(|buckets|, hash);
        while i < |buckets[b]|
          invariant 0 <= i <= |buckets[b]| && forall k :: 0 <= k < i ==> buckets[b][k].key != key
        {
          if buckets[b][i].hash == hash && buckets[b][i].key == key {
            assert buckets[b][i] in buckets[b];
            return true, b, i;
          }
          assert buckets[b][i] in buckets[b];
          i := i + 1;
        }
      }
    }

    method Get(key: Key) returns (r: Option<V>)
      requires Valid()
      ensures r == if key in model then Some(model[key]) else None
    {
      var found, b, i := GetRef(key);
      r := if found then Some(buckets[b][i].value) else None;
    }

    /** `map_addnode`. */
    method AddNode(e: Entry<V>)
      requires |buckets| > 0 && BucketCount(|buckets|) && Home(buckets)
      modifies this`buckets
      ensures |buckets| == |old(buckets)| && Home(buckets) && All(buckets) == All(old(buckets)) + multiset{e}
    {
      hide Index, All;
      IndexInRange(|buckets|, e.hash);
      AddedKeeps(buckets, e);
      var n := Index(|buckets|, e.hash);
      buckets := buckets[n := [e] + buckets[n]];
    }

    /** `map_resize`; `memory` says whether realloc succeeds.  Either way every node is added back. */
    method Resize(n: nat, memory: bool) returns (ret: int)
      requires BucketCount(|buckets|) && BucketCount(n) && n > 0
      modifies this`buckets
      ensures ret == if memory then 0 else -1
      ensures |buckets| == if memory then n else |old(buckets)|
      ensures Home(buckets) && All(buckets) == All(old(buckets))
    {
      hide Index, All, Home;
      var nodes: seq<Entry<V>> := [];
      var i := |buckets|;
      assert buckets[..i] == buckets;
      while i > 0
        invariant buckets == old(buckets)
        invariant 0 <= i <= |buckets| && multiset(nodes) + All(buckets[..i]) == All(buckets)
      {
        i := i - 1;
        var chain := buckets[i];
        ghost var before := multiset(nodes);
        assert buckets[..i + 1] == buckets[..i] + [chain];
        AllSnoc(buckets[..i], chain);
        for k := 0 to |chain|
          invariant buckets == old(buckets) && multiset(nodes) == before + multiset(chain[..k])
        {
          nodes := [chain[k]] + nodes;
          assert chain[..k + 1] == chain[..k] + [chain[k]];
        }
        assert chain[..|chain|] == chain;
      }
      NoBuckets<V>();
      assert buckets[..0] == [];
      ghost var all := All(buckets);
      assert multiset(nodes) == all;
      var size := if memory then n else |buckets|;
      if size > 0 {
        buckets := Cleared<V>(size);
        ClearedHasNone<V>(size);
        ClearedHome<V>(size);
        for k := 0 to |nodes|
          invariant |buckets| == size && Home(buckets) && All(buckets) == multiset(nodes[..k])
        {
          assert nodes[..k + 1] == nodes[..k] + [nodes[k]];
          AddNode(nodes[k]);
        }
        assert nodes[..|nodes|] == nodes;
      } else {
        NoHome(buckets);
      }
      ret := if memory then 0 else -1;
    }

    /** `map_set_`, with the two allocations that can fail. */
    method Set(key: Key, value: V, nodeMemory: bool, bucketMemory: bool) returns (ret: int)
      requires Valid()
      modifies this
      ensures Valid()
      ensures ret == 0 || ret == -1
      ensures model == if ret == 0 then old(model)[key := value] else old(model)
      ensures ret == -1 <==>
        key !in old(model) && (!nodeMemory || (old(nnodes) >= |old(buckets)| && !bucketMemory))
    {
      hide Hash, Index, All, Home, Faithful;
      var found, b, i := GetRef(key);
      if found {
        ReplacedRepresents(buckets, nnodes, model, b, i, key, value);
        buckets := buckets[b := buckets[b][i := buckets[b][i].(value := value)]];
        model := model[key := value];
        return 0;
      }
      if !nodeMemory {
        return -1;
      }
      if nnodes >= |buckets| {
        var err := Grow(bucketMemory);
        if err != 0 {
          return -1;
        }
      }
      InsertFresh(key, value);
      return 0;
    }

    /** Double the bucket count, or go from none to one. */
    method Grow(memory: bool) returns (ret: int)
      requires Valid()
      modifies this`buckets
      ensures Valid() && ret == if memory then 0 else -1
      ensures |buckets| == if !memory then |old(buckets)| else if |old(buckets)| > 0 then 2 * |old(buckets)| else 1
    {
      hide All, Home, Faithful;
      var n := if |buckets| > 0 then 2 * |buckets| else 1;
      DoubledCount(|buckets|);
      ret := Resize(n, memory);
    }

    /** Link a node for a key the table does not have. */
    method InsertFresh(key: Key, value: V)
      requires Valid() && key !in model && nnodes < |buckets|
      modifies this
      ensures Valid() && model == old(model)[key := value]
    {
      hide Hash, All, Home, Faithful;
      var hash := ComputeHash(key);
      FreshKeyFaithful(All(buckets), model, key, value);
      AddNode(Entry(hash, key, value));
      nnodes := nnodes + 1;
      model := model[key := value];
    }

    /** `map_remove_`. */
    method Remove(key: Key)
      requires Valid()
      modifies this
      ensures Valid() && model == old(model) - {key}
    {
      hide Represents, Hash;
      var found, b, i := GetRef(key);
      if found {
        RemovedRepresents(buckets, nnodes, model, b, i, key);
        buckets := buckets[b := buckets[b][..i] + buckets[b][i + 1..]];
        nnodes := nnodes - 1;
        model := model - {key};
      } else {
        assert model == model - {key};
      }
    }

    ghost predicate At(it: Iter)
      reads this
    {
      && -1 <= it.b && -1 <= it.i
      && (it.i >= 0 ==> 0 <= it.b < |buckets| && it.i < |buckets[it.b]|)
      && (it.i == -1 ==> it.b == -1)
    }

    /** The entries an iterator has returned so far. */
    ghost function Visited(it: Iter): seq<Entry<V>>
      requires At(it)
      reads this
    {
      if it.i == -1 then [] else Flat(buckets[..it.b]) + buckets[it.b][..it.i + 1]
    }

    /** `map_next_`: the next entry, and none only when every entry has been visited. */
    method Next(it: Iter) returns (r: Option<Key>, it': Iter)
      requires At(it)
      ensures r.None? ==> Visited(it) == Flat(buckets)
      ensures r.Some? ==> At(it') && it'.i >= 0 && r.value == buckets[it'.b][it'.i].key
      ensures r.Some? ==> Visited(it') == Visited(it) + [buckets[it'.b][it'.i]]
    {
      hide Flat;
      var b := it.b;
      if it.i >= 0 {
        if it.i + 1 < |buckets[b]| {
          it' := Iter(b, it.i + 1);
          assert buckets[b][..it.i + 2] == buckets[b][..it.i + 1] + [buckets[b][it.i + 1]];
          return Some(buckets[b][it.i + 1].key), it';
        }
        assert buckets[b][..it.i + 1] == buckets[b];
        FlatAt(buckets, b);
      } else {
        assert buckets[..0] == [];
        FlatNone<V>();
      }
      it' := it;
      while true
        invariant -1 <= b < |buckets| && Visited(it) == Flat(buckets[..b + 1])
        decreases |buckets| - b
      {
        b := b + 1;
        if b >= |buckets| {
          assert buckets[..b] == buckets;
          return None, it';
        }
        FlatAt(buckets, b);
        if |buckets[b]| > 0 {
          it' := Iter(b, 0);
          assert buckets[b][..1] == [buckets[b][0]];
          return Some(buckets[b][0].key), it';
        }
        assert Flat(buckets[..b]) + buckets[b] == Flat(buckets[..b]);
      }
    }
  }

  lemma ReplacedRepresents<V>(
    buckets: seq<seq<Entry<V>>>, nnodes: nat, model: map<Key, V>, b: nat, i: nat, key: Key, value: V)
    requires Represents(buckets, nnodes, model) && key in model && b < |buckets| && i < |buckets[b]|
    requires buckets[b][i] == Entry(Hash(key), key, model[key])
    ensures Represents(buckets[b := buckets[b][i := buckets[b][i].(value := value)]], nnodes, model[key := value])
  {
    hide Hash, All, Home, Faithful;
    ReplacedFaithful(All(buckets), model, key, value);
    ReplaceInChain(buckets, b, i, Entry(Hash(key), key, value));
  }

  lemma RemovedRepresents<V>(
    buckets: seq<seq<Entry<V>>>, nnodes: nat, model: map<Key, V>, b: nat, i: nat, key: Key)
    requires Represents(buckets, nnodes, model) && key in model && b < |buckets| && i < |buckets[b]|
    requires buckets[b][i] == Entry(Hash(key), key, model[key])
    ensures nnodes > 0
    ensures Represents(buckets[b := buckets[b][..i] + buckets[b][i + 1..]], nnodes - 1, model - {key})
  {
    hide Hash, All, Home, Faithful;
    RemovedFaithful(All(buckets), model, key);
    UnlinkFromChain(buckets, b, i);
  }

  lemma NoBuckets<V>()
    ensures All<V>([]) == multiset{}
  {
  }

  lemma NoHome<V>(buckets: seq<seq<Entry<V>>>)
    requires |buckets| == 0
    ensures Home(buckets)
  {
  }

  lemma ClearedHome<V>(n: nat)
    ensures Home(Cleared<V>(n))
  {
  }

  lemma DoubledCount(n: nat)
    requires BucketCount(n)
    ensures BucketCount(if n > 0 then 2 * n else 1)
  {
    if n == 0 {
      assert 1 == Pow2(0);
    } else {
      var k: nat :| n == Pow2(k);
      assert 2 * n == Pow2(k + 1);
    }
  }

  lemma ReplaceInChain<V>(buckets: seq<seq<Entry<V>>>, b: nat, i: nat, e': Entry<V>)
    requires b < |buckets| && i < |buckets[b]| && Home(buckets) && e'.hash == buckets[b][i].hash
    ensures var after := buckets[b := buckets[b][i := e']];
      Home(after) && buckets[b][i] in All(buckets) && All(after) == All(buckets) - multiset{buckets[b][i]} + multiset{e'}
  {
    hide All, Index;
    var chain, e := buckets[b], buckets[b][i];
    AllUpdate(buckets, b, chain[i := e']);
    AllMembers(buckets, e);
    assert e in chain;
    assert multiset(chain[i := e']) == multiset(chain) - multiset{e} + multiset{e'};
    var after := buckets[b := chain[i := e']];
    assert All(after) + multiset(chain) == All(buckets) - multiset{e} + multiset{e'} + multiset(chain);
    CancelRight(All(after), All(buckets) - multiset{e} + multiset{e'}, multiset(chain));
  }

  lemma UnlinkFromChain<V>(buckets: seq<seq<Entry<V>>>, b: nat, i: nat)
    requires b < |buckets| && i < |buckets[b]| && Home(buckets)
    ensures var after := buckets[b := buckets[b][..i] + buckets[b][i + 1..]];
      Home(after) && buckets[b][i] in All(buckets) && All(after) == All(buckets) - multiset{buckets[b][i]}
  {
    hide All, Index;
    var chain, e := buckets[b], buckets[b][i];
    var chain' := chain[..i] + chain[i + 1..];
    AllUpdate(buckets, b, chain');
    AllMembers(buckets, e);
    assert e in chain;
    assert chain == chain[..i] + [e] + chain[i + 1..];
    assert multiset(chain) == multiset(chain') + multiset{e};
    var after := buckets[b := chain'];
    CancelRight(All(after) + multiset{e}, All(buckets), multiset(chain'));
    assert forall x :: x in chain' ==> x in chain;
  }
}
