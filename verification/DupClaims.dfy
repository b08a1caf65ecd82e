/**
 Multiply claimed blocks (e2fsck/pass1b.c): two dictionaries, from cluster to
 inodes and from inode to clusters, filled while every file's blocks are visited,
 then searched for the inodes that share a cluster. The dictionaries compare keys
 in 32 bits, so clusters that are congruent modulo 2^32 are one key to them.
 */
module DupClaims {
  import opened Options
  import opened Machine
  import opened Dictionary

  /** Inode numbers have 32 bits. */
  type Ino = x: nat | x < 0x1_0000_0000

  const EXT2_ROOT_INO: Ino := 2

  /** `inode_list` and `cluster_list` have the newest element first. */
  datatype DupCluster = DupCluster(numBad: nat, inodes: seq<Ino>)
  datatype DupInode = DupInode(dir: nat, numDupBlocks: nat, clusters: seq<nat>)

  datatype Claim = Claim(ino: Ino, cluster: nat)

  /** One call of the block iterator. */
  datatype Visit = Visit(block: nat, bcnt: int)

  datatype File = File(ino: Ino, visits: seq<Visit>)

  // ------------------------------------------------------ the claims themselves

  /** The inodes that claim a cluster. */
  function InodesOf(claims: seq<Claim>, cluster: nat): seq<Ino> {
    if claims == [] then []
    else
      var rest, c := InodesOf(claims[..|claims| - 1], cluster), claims[|claims| - 1];
      if c.cluster == cluster then [c.ino] + rest else rest
  }

  /** The inodes that claim a cluster or one congruent to it: what is filed under one key. */
  function InodesFiled(claims: seq<Claim>, cluster: nat): seq<Ino> {
    if claims == [] then []
    else
      var rest, c := InodesFiled(claims[..|claims| - 1], cluster), claims[|claims| - 1];
      if Congruent(c.cluster, cluster) then [c.ino] + rest else rest
  }

  function ClustersOf(claims: seq<Claim>, ino: nat): seq<nat> {
    if claims == [] then []
    else
      var rest, c := ClustersOf(claims[..|claims| - 1], ino), claims[|claims| - 1];
      if c.ino == ino then [c.cluster] + rest else rest
  }

  lemma {:induction false} Multiplicities(claims: seq<Claim>, ino: Ino, cluster: nat)
    ensures multiset(InodesOf(claims, cluster))[ino] == multiset(claims)[Claim(ino, cluster)]
    ensures multiset(ClustersOf(claims, ino))[cluster] == multiset(claims)[Claim(ino, cluster)]
    decreases |claims|
  {
    if claims != [] {
      var n := |claims| - 1;
      Multiplicities(claims[..n], ino, cluster);
      assert claims == claims[..n] + [claims[n]];
    }
  }

  /** The two directions are mirror images, claim for claim. */
  lemma {:induction false} Mirror(claims: seq<Claim>, ino: Ino, cluster: nat)
    ensures multiset(InodesOf(claims, cluster))[ino] == multiset(ClustersOf(claims, ino))[cluster]
    ensures ino in InodesOf(claims, cluster) <==> Claim(ino, cluster) in claims
    ensures cluster in ClustersOf(claims, ino) <==> Claim(ino, cluster) in claims
  {
    Multiplicities(claims, ino, cluster);
    assert ino in InodesOf(claims, cluster) <==> ino in multiset(InodesOf(claims, cluster));
    assert cluster in ClustersOf(claims, ino) <==> cluster in multiset(ClustersOf(claims, ino));
    assert Claim(ino, cluster) in claims <==> Claim(ino, cluster) in multiset(claims);
  }

  lemma FiledAppend(claims: seq<Claim>, c: Claim, cluster: nat)
    ensures InodesFiled(claims + [c], cluster) == (if Congruent(c.cluster, cluster) then [c.ino] else []) + InodesFiled(claims, cluster)
  {
    assert (claims + [c])[..|claims|] == claims;
  }

  lemma ClustersAppend(claims: seq<Claim>, c: Claim, ino: nat)
    ensures ClustersOf(claims + [c], ino) == (if c.ino == ino then [c.cluster] else []) + ClustersOf(claims, ino)
  {
    assert (claims + [c])[..|claims|] == claims;
  }

  lemma {:induction false} FiledMembers(claims: seq<Claim>, cluster: nat)
    ensures forall j :: j in InodesFiled(claims, cluster) <==> exists c :: c in claims && c.ino == j && Congruent(c.cluster, cluster)
    decreases |claims|
  {
    hide Congruent;
    if claims != [] {
      var n := |claims| - 1;
      FiledMembers(claims[..n], cluster);
      assert claims == claims[..n] + [claims[n]];
    }
  }

  /** Congruent clusters are filed alike. */
  lemma {:induction false} FiledSame(claims: seq<Claim>, a: nat, b: nat)
    requires Congruent(a, b)
    ensures InodesFiled(claims, a) == InodesFiled(claims, b)
    decreases |claims|
  {
    if claims != [] {
      FiledSame(claims[..|claims| - 1], a, b);
    }
  }

  lemma {:induction false} ClustersNone(claims: seq<Claim>, ino: nat)
    ensures ClustersOf(claims, ino) == [] <==> forall c :: c in claims ==> c.ino != ino
    decreases |claims|
  {
    if claims != [] {
      var n := |claims| - 1;
      ClustersNone(claims[..n], ino);
      assert claims == claims[..n] + [claims[n]];
    }
  }

  // ------------------------------------------------------- when the mirror is true

  /** No two different claimed clusters are one key to the dictionary. */
  ghost predicate NoCollision(claims: seq<Claim>) {
    forall c, d :: c in claims && d in claims && Congruent(c.cluster, d.cluster) ==> c.cluster == d.cluster
  }

  /** What is filed under a claimed cluster counts each inode as often as that inode's own list counts the cluster. */
  ghost predicate Mirrored(claims: seq<Claim>) {
    forall c, i: Ino :: c in claims ==> multiset(InodesFiled(claims, c.cluster))[i] == multiset(ClustersOf(claims, i))[c.cluster]
  }

  lemma {:induction false} FiledIsOf(claims: seq<Claim>, cluster: nat)
    requires forall c :: c in claims && Congruent(c.cluster, cluster) ==> c.cluster == cluster
    ensures InodesFiled(claims, cluster) == InodesOf(claims, cluster)
    decreases |claims|
  {
    if claims != [] {
      var n := |claims| - 1;
      assert claims[n] in claims && forall c :: c in claims[..n] ==> c in claims;
      FiledIsOf(claims[..n], cluster);
    }
  }

  /** Claims of two congruent clusters are counted together. */
  lemma {:induction false} FiledCounts(claims: seq<Claim>, ino: Ino, a: nat, b: nat)
    requires Congruent(a, b) && a != b
    ensures multiset(InodesFiled(claims, a))[ino] >= multiset(claims)[Claim(ino, a)] + multiset(claims)[Claim(ino, b)]
    decreases |claims|
  {
    if claims != [] {
      var n := |claims| - 1;
      FiledCounts(claims[..n], ino, a, b);
      assert claims == claims[..n] + [claims[n]];
    }
  }

  /** The two dictionaries are mirror images if and only if no two different claimed clusters are congruent. */
  lemma MirrorExact(claims: seq<Claim>)
    ensures Mirrored(claims) <==> NoCollision(claims)
  {
    hide InodesFiled, ClustersOf, Congruent, InodesOf;
    if NoCollision(claims) {
      forall c, i: Ino | c in claims
        ensures multiset(InodesFiled(claims, c.cluster))[i] == multiset(ClustersOf(claims, i))[c.cluster]
      {
        FiledIsOf(claims, c.cluster);
        Mirror(claims, i, c.cluster);
      }
    } else {
      var c, d :| c in claims && d in claims && Congruent(c.cluster, d.cluster) && c.cluster != d.cluster;
      FiledCounts(claims, d.ino, c.cluster, d.cluster);
      Mirror(claims, d.ino, c.cluster);
      Multiplicities(claims, d.ino, c.cluster);
      assert multiset(claims)[d] > 0;
    }
  }

  // ------------------------------------------------------------ the dictionaries

  /** All claimed clusters lie in one window of 2^31 residues, and so do all claiming inodes. */
  ghost predicate InWindows(claims: seq<Claim>, cw: nat, iw: nat) {
    forall c :: c in claims ==> InWindow(cw, c.cluster) && InWindow(iw, c.ino)
  }

  ghost predicate Windowed(claims: seq<Claim>) {
    exists cw: nat, iw: nat :: InWindows(claims, cw, iw)
  }

  ghost predicate HasClass<V>(items: seq<(nat, V)>, k: nat) {
    exists i :: 0 <= i < |items| && Congruent(items[i].0, k)
  }

  /** Every node of the cluster dictionary holds what is filed under its key, and every claim has a node. */
  ghost predicate ClusterSide(claims: seq<Claim>, items: seq<(nat, DupCluster)>, w: nat) {
    && Sorted(items, w)
    && (forall c :: c in claims ==> HasClass(items, c.cluster))
    && (forall i :: 0 <= i < |items| ==> ClusterNode(claims, items[i]))
  }

  ghost predicate ClusterNode(claims: seq<Claim>, e: (nat, DupCluster)) {
    e.1 == DupCluster(|InodesFiled(claims, e.0)|, InodesFiled(claims, e.0))
  }

  ghost predicate InodeSide(claims: seq<Claim>, items: seq<(nat, DupInode)>, w: nat) {
    && Sorted(items, w)
    && (forall i :: 0 <= i < |items| ==> InodeNode(claims, items[i]))
  }

  ghost predicate InodeNode(claims: seq<Claim>, e: (nat, DupInode)) {
    e.1 == DupInode(if e.0 == EXT2_ROOT_INO then EXT2_ROOT_INO else 0, |ClustersOf(claims, e.0)|, ClustersOf(claims, e.0))
  }

  function Keys<V>(items: seq<(nat, V)>): seq<nat> {
    seq(|items|, i requires 0 <= i < |items| => items[i].0)
  }

  /** What holds of the two trees whatever the comparison does: every claiming inode has a node, and only such inodes are listed. */
  ghost predicate Loose(claims: seq<Claim>, clusters: seq<(nat, DupCluster)>, inodes: seq<(nat, DupInode)>) {
    && (forall k :: k in Keys(inodes) <==> exists c :: c in claims && c.ino == k)
    && (forall i, j :: 0 <= i < |clusters| && j in clusters[i].1.inodes ==> j in Keys(inodes))
  }

  /** The block iterator's position inside one file. */
  datatype Place = Place(logical: int, physical: int)

  function Cluster(ratio: nat, block: int): int
    requires ratio > 0
  {
    block / ratio
  }

  lemma ClusterExact(ratio: nat, block: int, c: int)
    requires ratio > 0
    ensures Cluster(ratio, block) == c <==> c * ratio <= block < (c + 1) * ratio
  {
    var q := block / ratio;
    assert block == q * ratio + block % ratio;
    assert (q + 1) * ratio == q * ratio + ratio;
    if c < q {
      assert (c + 1) * ratio <= q * ratio;
    } else if c > q {
      assert (q + 1) * ratio <= c * ratio;
    }
  }

  /** A visited block lies in this multiply claimed cluster. */
  ghost predicate Hits(visits: seq<Visit>, ratio: nat, dups: set<nat>, cluster: nat)
    requires ratio > 0
  {
    cluster in dups && exists v :: v in visits && v.block != 0 && cluster * ratio <= v.block < (cluster + 1) * ratio
  }

  class Pass1b {
    /** Blocks per cluster, and the duplicate map: one bit per cluster. */
    const ratio: nat
    const dups: set<nat>
    var clusters: Tree<DupCluster>
    var inodes: Tree<DupInode>
    var founddir: nat
    /** `inode_dup_map`. */
    var dupInodes: set<Ino>
    /** `cur_cluster` and `phys_cluster`, -1 standing for `~0`. */
    var place: Place
    ghost var claims: seq<Claim>

    ghost predicate Valid()
      reads this
    {
      && ratio > 0
      && Loose(claims, Items(clusters), Items(inodes))
      && founddir == multiset(Keys(Items(inodes)))[2]
      && (forall cw: nat, iw: nat :: InWindows(claims, cw, iw) ==>
            ClusterSide(claims, Items(clusters), cw) && InodeSide(claims, Items(inodes), iw))
    }

    constructor (ratio: nat, dups: set<nat>)
      requires ratio > 0
      ensures Valid() && claims == [] && dupInodes == {} && this.ratio == ratio && this.dups == dups
    {
      this.ratio, this.dups := ratio, dups;
      clusters, inodes, founddir, dupInodes := Nil, Nil, 0, {};
      place := Place(-1, -1);
      claims := [];
    }

    /** `add_dupe`: one more claim on both sides. */
    method AddDupe(ino: Ino, cluster: nat)
      requires Valid()
      modifies this`clusters, this`inodes, this`founddir, this`claims
      ensures Valid() && claims == old(claims) + [Claim(ino, cluster)]
    {
      hide ClusterSide, InodeSide, Loose, InWindows, Items, Filed, Lookup, Keys;
      ghost var c := Claim(ino, cluster);
      var n := Lookup(clusters, cluster);
      var db := if n.Some? then n.value.1 else DupCluster(0, []);
      clusters := Store(clusters, cluster, DupCluster(db.numBad + 1, [ino] + db.inodes));
      var m := Lookup(inodes, ino);
      if m.None? && ino == EXT2_ROOT_INO {
        founddir := founddir + 1;
      }
      var di := if m.Some? then m.value.1 else DupInode(if ino == EXT2_ROOT_INO then EXT2_ROOT_INO else 0, 0, []);
      inodes := Store(inodes, ino, DupInode(di.dir, di.numDupBlocks + 1, [cluster] + di.clusters));
      RootCounted(old(inodes), ino, DupInode(di.dir, di.numDupBlocks + 1, [cluster] + di.clusters), Items(inodes));
      AddLoose(old(claims), c, old(clusters), clusters, old(inodes), inodes);
      LooseKeys(old(claims), Items(old(clusters)), Items(old(inodes)));
      forall cw: nat, iw: nat | InWindows(old(claims) + [c], cw, iw)
        ensures ClusterSide(old(claims) + [c], Items(clusters), cw) && InodeSide(old(claims) + [c], Items(inodes), iw)
      {
        WindowsBefore(old(claims), c, cw, iw);
        AddClusterSide(old(claims), c, old(clusters), Items(clusters), cw);
        AddInodeSide(old(claims), c, old(inodes), Items(inodes), iw);
      }
      claims := claims + [c];
    }

    /** `process_pass1b_block`: a duplicate block is submitted unless the block before it lay in the same cluster. */
    method ProcessBlock(ino: Ino, v: Visit)
      requires Valid()
      modifies this
      ensures Valid()
      ensures v.block == 0 ==> place == old(place) && claims == old(claims) && dupInodes == old(dupInodes)
      ensures v.block != 0 ==> place == Place(Cluster(ratio, v.bcnt), Cluster(ratio, v.block))
      ensures v.block != 0 && Cluster(ratio, v.block) in dups ==> dupInodes == old(dupInodes) + {ino}
      ensures v.block != 0 && Cluster(ratio, v.block) in dups ==>
        claims == old(claims) + if v.bcnt < 0 || place != old(place) then [Claim(ino, Cluster(ratio, v.block))] else []
      ensures v.block != 0 && Cluster(ratio, v.block) !in dups ==> dupInodes == old(dupInodes) && claims == old(claims)
    {
      hide ClusterSide, InodeSide, Loose, InWindows, Items, Keys;
      if v.block == 0 {
        return;
      }
      var lc, pc := Cluster(ratio, v.bcnt), Cluster(ratio, v.block);
      if pc in dups {
        dupInodes := dupInodes + {ino};
        if v.bcnt < 0 || lc != place.logical || pc != place.physical {
          AddDupe(ino, pc);
        }
      }
      place := Place(lc, pc);
    }

    /** The scan of one file: exactly the multiply claimed clusters it touches are claimed. */
    method ScanFile(f: File)
      requires Valid()
      modifies this
      ensures Valid() && |old(claims)| <= |claims| && claims[..|old(claims)|] == old(claims)
      ensures forall c :: c in claims[|old(claims)|..] <==> c.ino == f.ino && Hits(f.visits, ratio, dups, c.cluster)
      ensures dupInodes == old(dupInodes) + if |claims| > |old(claims)| then {f.ino} else {}
    {
      hide ClusterSide, InodeSide, Loose, InWindows, Items, Keys;
      place := Place(-1, -1);
      ghost var start, marked := |claims|, dupInodes;
      var n := 0;
      while n < |f.visits|
        invariant 0 <= n <= |f.visits| && Valid()
        invariant start <= |claims| && claims[..start] == old(claims)
        invariant forall c :: c in claims[start..] <==> c.ino == f.ino && Hits(f.visits[..n], ratio, dups, c.cluster)
        invariant place.physical in dups ==> Claim(f.ino, place.physical) in claims[start..]
        invariant dupInodes == marked + if |claims| > start then {f.ino} else {}
      {
        ghost var before, v := claims, f.visits[n];
        HitsStep(f.visits, n, ratio, dups);
        ProcessBlock(f.ino, f.visits[n]);
        n := n + 1;
        assert claims[start..] == before[start..] || claims[start..] == before[start..] + [Claim(f.ino, Cluster(ratio, v.block))];
      }
      assert f.visits[..n] == f.visits;
    }

    /** `pass1b`: afterwards the claims are exactly the pairs of a file and a multiply claimed cluster it touches. */
    method Scan(files: seq<File>)
      requires Valid() && claims == [] && dupInodes == {}
      modifies this
      ensures Valid() && (forall k :: k in Keys(Items(inodes)) <==> k in dupInodes)
      ensures forall c :: c in claims <==> exists f :: f in files && f.ino == c.ino && Hits(f.visits, ratio, dups, c.cluster)
    {
      hide ClusterSide, InodeSide, Hits, Keys, InWindows, Items;
      var n := 0;
      while n < |files|
        invariant 0 <= n <= |files| && Valid() && dupInodes == set c | c in claims :: c.ino
        invariant forall c :: c in claims <==> exists f :: f in files[..n] && f.ino == c.ino && Hits(f.visits, ratio, dups, c.cluster)
      {
        ghost var before := claims;
        ScanFile(files[n]);
        assert claims == before + claims[|before|..];
        assert claims[|before|..] != [] ==> claims[|before|..][0] in claims[|before|..];
        n := n + 1;
        assert files[..n] == files[..n - 1] + [files[n - 1]];
      }
      assert files[..n] == files;
    }

    /** The two inner loops of the search: every inode of the list joins `shared` once. */
    method Collect(ino: nat, list: seq<Ino>, shared: array<nat>, len: nat, ghost keys: set<nat>) returns (r: nat)
      requires len <= shared.Length && Distinct(shared[..len]) && ino !in shared[..len]
      requires ino in keys && |keys| <= shared.Length
      requires forall j :: j in list || j in shared[..len] ==> j in keys
      modifies shared
      ensures len <= r <= shared.Length && Distinct(shared[..r])
      ensures forall j :: j in shared[..r] <==> j in old(shared[..len]) || (j in list && j != ino)
    {
      r := len;
      var k := 0;
      while k < |list|
        invariant 0 <= k <= |list| && len <= r <= shared.Length && Distinct(shared[..r])
        invariant forall j :: j in shared[..r] <==> j in old(shared[..len]) || (j in list[..k] && j != ino)
      {
        var x := list[k];
        assert list[..k + 1] == list[..k] + [x];
        k := k + 1;
        if x == ino {
          continue;
        }
        var i := 0;
        while i < r
          invariant 0 <= i <= r && forall m :: 0 <= m < i ==> shared[m] != x
        {
          if shared[i] == x {
            break;
          }
          i := i + 1;
        }
        if i == r {
          RoomFor(shared[..r], x, ino, keys);
          ghost var before := shared[..r];
          shared[r] := x;
          r := r + 1;
          assert shared[..r] == before + [x];
        } else {
          assert shared[..r][i] == x;
        }
      }
      assert list[..k] == list;
    }

    /**
     The sharing loop of `pass1d` for node `k` of the inode dictionary. `shared` has
     one slot per node of it, and at most all but one are used. `metaData` is carried
     over from the nodes looked at before. A cluster that is not found is skipped.
     */
    method SharedWith(k: nat, shared: array<nat>, fsClusters: set<nat>, metaData: bool) returns (len: nat, fileOk: bool, meta: bool)
      requires Valid() && k < |Items(inodes)| && shared.Length == |Items(inodes)|
      modifies shared
      ensures len < |Items(inodes)| && Distinct(shared[..len])
      ensures forall j :: j in shared[..len] <==> Listed(clusters, Items(inodes)[k].1.clusters, Items(inodes)[k].0, j)
      ensures Windowed(claims) ==> forall j :: j in shared[..len] <==> SharesKey(claims, Items(inodes)[k].0, j)
      ensures Windowed(claims) && NoCollision(claims) ==> forall j :: j in shared[..len] <==> Shares(claims, Items(inodes)[k].0, j)
      ensures Windowed(claims) ==> (fileOk <==> forall c :: IsClaim(claims, Items(inodes)[k].0, c) ==> |InodesFiled(claims, c)| <= 1 && c !in fsClusters)
      ensures Windowed(claims) ==> (meta <==> metaData || exists c :: c in fsClusters && IsClaim(claims, Items(inodes)[k].0, c))
    {
      hide InodesFiled, ClustersOf, Distinct, ClusterSide, InodeSide, Loose, InWindows, Items, Lookup, Keys, Windowed;
      var items := Items(inodes);
      var ino, list := items[k].0, items[k].1.clusters;
      ghost var keys := KeySet(claims, Items(clusters), items, k);
      len, fileOk, meta := 0, true, metaData;
      NoneDistinct(shared[..0]);
      var n := 0;
      while n < |list|
        invariant 0 <= n <= |list| && len <= shared.Length && Distinct(shared[..len]) && ino !in shared[..len]
        invariant forall j :: j in shared[..len] ==> j in keys
        invariant forall j :: j in shared[..len] <==> Listed(clusters, list[..n], ino, j)
        invariant fileOk <==> forall c :: c in list[..n] ==> NotBad(clusters, c, fsClusters)
        invariant meta <==> metaData || exists c :: c in list[..n] && FsFound(clusters, c, fsClusters)
      {
        var c := list[n];
        ListedStep(clusters, list, n, ino);
        BadStep(clusters, list, n, fsClusters);
        n := n + 1;
        var m := Lookup(clusters, c);
        if m.None? {
          continue;
        }
        var q := m.value.1;
        if q.numBad > 1 {
          fileOk := false;
        }
        if c in fsClusters {
          fileOk, meta := false, true;
        }
        ListedInKeys(claims, clusters, items, c, keys);
        assert forall j :: ListedUnder(clusters, c, j) <==> j in q.inodes;
        len := Collect(ino, q.inodes, shared, len, keys);
      }
      assert list[..n] == list;
      DistinctBound(shared[..len], keys - {ino});
      if Windowed(claims) {
        SharedInWindow(claims, clusters, inodes, k, fsClusters);
        SharedExact(claims, ino);
      }
    }
  }

  // -------------------------------------------------------- who shares with whom

  ghost predicate Distinct(s: seq<nat>) {
    forall i, j :: 0 <= i < j < |s| ==> s[i] != s[j]
  }

  ghost predicate IsClaim(claims: seq<Claim>, i: nat, c: nat) {
    exists x :: x in claims && x.ino == i && x.cluster == c
  }

  /** Two inodes claim the same cluster. */
  ghost predicate Shares(claims: seq<Claim>, i: nat, j: nat) {
    i != j && exists c :: IsClaim(claims, i, c) && IsClaim(claims, j, c)
  }

  /** Two inodes claim clusters that are one key to the dictionary. */
  ghost predicate SharesKey(claims: seq<Claim>, i: nat, j: nat) {
    i != j && exists c, d :: IsClaim(claims, i, c) && IsClaim(claims, j, d) && Congruent(c, d)
  }

  /** What the search collects: inodes listed under one of these clusters as the dictionary finds them. */
  ghost predicate Listed(clusters: Tree<DupCluster>, list: seq<nat>, i: nat, j: nat) {
    i != j && exists c :: c in list && ListedUnder(clusters, c, j)
  }

  predicate ListedUnder(clusters: Tree<DupCluster>, c: nat, j: nat) {
    Lookup(clusters, c).Some? && j in Lookup(clusters, c).value.1.inodes
  }

  predicate NotBad(clusters: Tree<DupCluster>, c: nat, fsClusters: set<nat>) {
    Lookup(clusters, c).Some? ==> Lookup(clusters, c).value.1.numBad <= 1 && c !in fsClusters
  }

  predicate FsFound(clusters: Tree<DupCluster>, c: nat, fsClusters: set<nat>) {
    Lookup(clusters, c).Some? && c in fsClusters
  }

  lemma NoneDistinct(s: seq<nat>)
    requires s == []
    ensures Distinct(s)
  {
  }

  lemma {:induction false} DistinctBound(s: seq<nat>, keys: set<nat>)
    requires Distinct(s) && forall x :: x in s ==> x in keys
    ensures |s| <= |keys|
  {
    if s != [] {
      var n := |s| - 1;
      assert s[n] in s;
      forall x | x in s[..n]
        ensures x in keys - {s[n]}
      {
        var i :| 0 <= i < n && s[i] == x;
        assert s[i] in s;
      }
      DistinctBound(s[..n], keys - {s[n]});
    }
  }

  /** A further inode always finds a free slot. */
  lemma RoomFor(s: seq<nat>, x: nat, ino: nat, keys: set<nat>)
    requires Distinct(s) && x !in s && x != ino && ino !in s && ino in keys && x in keys && forall y :: y in s ==> y in keys
    ensures |s| + 1 < |keys| && Distinct(s + [x])
  {
    assert Distinct(s + [x]) by {
      forall i, j | 0 <= i < j < |s + [x]|
        ensures (s + [x])[i] != (s + [x])[j]
      {
        assert s[i] in s;
      }
    }
    DistinctBound(s + [x], keys - {ino});
  }

  lemma ListedStep(clusters: Tree<DupCluster>, list: seq<nat>, n: nat, i: nat)
    requires n < |list|
    ensures forall j :: Listed(clusters, list[..n + 1], i, j) <==> Listed(clusters, list[..n], i, j) || (i != j && ListedUnder(clusters, list[n], j))
  {
    hide ListedUnder;
    assert list[..n + 1] == list[..n] + [list[n]];
    assert list[n] in list[..n + 1];
  }

  lemma BadStep(clusters: Tree<DupCluster>, list: seq<nat>, n: nat, fsClusters: set<nat>)
    requires n < |list|
    ensures (forall c :: c in list[..n + 1] ==> NotBad(clusters, c, fsClusters)) <==>
      (forall c :: c in list[..n] ==> NotBad(clusters, c, fsClusters)) && NotBad(clusters, list[n], fsClusters)
    ensures (exists c :: c in list[..n + 1] && FsFound(clusters, c, fsClusters)) <==>
      (exists c :: c in list[..n] && FsFound(clusters, c, fsClusters)) || FsFound(clusters, list[n], fsClusters)
  {
    hide NotBad, FsFound;
    assert list[..n + 1] == list[..n] + [list[n]];
    assert list[n] in list[..n + 1];
  }

  /** The inodes with a node; there are at most as many as nodes. */
  lemma KeySet(claims: seq<Claim>, clusters: seq<(nat, DupCluster)>, inodes: seq<(nat, DupInode)>, k: nat) returns (keys: set<nat>)
    requires Loose(claims, clusters, inodes) && k < |inodes|
    ensures keys == (set x | x in Keys(inodes)) && inodes[k].0 in keys && 0 < |keys| <= |inodes|
  {
    keys := set x | x in Keys(inodes);
    assert Keys(inodes)[k] in Keys(inodes);
    SetOfSeq(Keys(inodes), keys);
  }

  lemma {:induction false} SetOfSeq(s: seq<nat>, keys: set<nat>)
    requires keys == set x | x in s
    ensures |keys| <= |s|
    decreases |s|
  {
    if s == [] {
      assert keys == {};
    } else {
      var n := |s| - 1;
      var less := set x | x in s[..n];
      SetOfSeq(s[..n], less);
      assert s == s[..n] + [s[n]];
      assert keys == less + {s[n]};
    }
  }

  lemma ListedInKeys(claims: seq<Claim>, clusters: Tree<DupCluster>, inodes: seq<(nat, DupInode)>, c: nat, keys: set<nat>)
    requires Loose(claims, Items(clusters), inodes) && keys == (set x | x in Keys(inodes)) && Lookup(clusters, c).Some?
    ensures forall j :: j in Lookup(clusters, c).value.1.inodes ==> j in keys
  {
    hide Items, Lookup, Keys;
    FoundIsItem(clusters, c);
    var i :| 0 <= i < |Items(clusters)| && Items(clusters)[i] == Lookup(clusters, c).value;
  }

  // ------------------------------------------------------------ inside the windows

  /** "Should never happen": each claimed cluster is found, with everything filed under its key. */
  lemma LookupWorks(claims: seq<Claim>, clusters: Tree<DupCluster>, w: nat, c: Claim)
    requires ClusterSide(claims, Items(clusters), w) && c in claims && InWindow(w, c.cluster)
    ensures Lookup(clusters, c.cluster).Some?
    ensures Lookup(clusters, c.cluster).value.1 == DupCluster(|InodesFiled(claims, c.cluster)|, InodesFiled(claims, c.cluster))
  {
    hide Items, Lookup, Sorted, InWindow, InodesFiled, Congruent, Filed;
    LookupFinds(clusters, w, c.cluster);
    var i := FiledItems(clusters, c.cluster, DupCluster(0, []));
    assert HasClass(Items(clusters), c.cluster);
    assert ClusterNode(claims, Items(clusters)[i]);
    FiledSame(claims, Items(clusters)[i].0, c.cluster);
  }

  lemma ClustersAre(claims: seq<Claim>, ino: nat)
    requires ino < 0x1_0000_0000
    ensures forall c :: c in ClustersOf(claims, ino) <==> IsClaim(claims, ino, c)
  {
    hide ClustersOf;
    forall c: nat
      ensures c in ClustersOf(claims, ino) <==> IsClaim(claims, ino, c)
    {
      Mirror(claims, ino, c);
      assert Claim(ino, c) in claims <==> IsClaim(claims, ino, c);
    }
  }

  /** In the windows the search collects exactly the inodes that share a key. */
  lemma SharedInWindow(claims: seq<Claim>, clusters: Tree<DupCluster>, inodes: Tree<DupInode>, k: nat, fsClusters: set<nat>)
    requires Windowed(claims) && Loose(claims, Items(clusters), Items(inodes)) && k < |Items(inodes)|
    requires forall cw: nat, iw: nat :: InWindows(claims, cw, iw) ==> ClusterSide(claims, Items(clusters), cw) && InodeSide(claims, Items(inodes), iw)
    ensures var ino, list := Items(inodes)[k].0, Items(inodes)[k].1.clusters;
      && (forall j :: Listed(clusters, list, ino, j) <==> SharesKey(claims, ino, j))
      && (forall c :: c in list <==> IsClaim(claims, ino, c))
      && (forall c :: c in list ==> Lookup(clusters, c).Some? && Lookup(clusters, c).value.1.numBad == |InodesFiled(claims, c)|)
  {
    hide Items, Lookup, Sorted, InodesFiled, ClustersOf, Congruent, Keys, ClusterSide;
    var cw: nat, iw: nat :| InWindows(claims, cw, iw);
    var e := Items(inodes)[k];
    assert InodeNode(claims, e);
    InodeKey(claims, Items(clusters), Items(inodes), k);
    ClustersAre(claims, e.0);
    forall c | c in e.1.clusters
      ensures Lookup(clusters, c).Some? && Lookup(clusters, c).value.1 == DupCluster(|InodesFiled(claims, c)|, InodesFiled(claims, c))
      ensures forall j :: ListedUnder(clusters, c, j) <==> exists d :: IsClaim(claims, j, d) && Congruent(d, c)
    {
      var x :| x in claims && x.ino == e.0 && x.cluster == c;
      LookupWorks(claims, clusters, cw, x);
      FiledAre(claims, c);
    }
    CongruentSym();
  }

  lemma CongruentSym()
    ensures forall a, b :: Congruent(a, b) <==> Congruent(b, a)
  {
  }

  lemma FiledAre(claims: seq<Claim>, c: nat)
    ensures forall j :: j in InodesFiled(claims, c) <==> exists d :: IsClaim(claims, j, d) && Congruent(d, c)
  {
    hide InodesFiled, Congruent;
    FiledMembers(claims, c);
    forall x | x in claims
      ensures IsClaim(claims, x.ino, x.cluster)
    {
    }
  }

  lemma InodeKey(claims: seq<Claim>, clusters: seq<(nat, DupCluster)>, inodes: seq<(nat, DupInode)>, k: nat)
    requires Loose(claims, clusters, inodes) && k < |inodes|
    ensures inodes[k].0 < 0x1_0000_0000
  {
    assert Keys(inodes)[k] in Keys(inodes);
  }

  // ----------------------------------------------------- when the shared list is true

  /** Without a collision sharing a key is sharing a cluster. */
  lemma SharedExact(claims: seq<Claim>, i: nat)
    ensures NoCollision(claims) ==> forall j :: SharesKey(claims, i, j) <==> Shares(claims, i, j)
    ensures (forall j :: SharesKey(claims, i, j) <==> Shares(claims, i, j)) <==>
      forall c, d, j :: IsClaim(claims, i, c) && IsClaim(claims, j, d) && c != d && i != j && Congruent(c, d) ==> Shares(claims, i, j)
  {
    hide IsClaim, Congruent;
    assert forall c :: Congruent(c, c) by {
      forall c: nat ensures Congruent(c, c) { CongruentSelf(c); }
    }
    if NoCollision(claims) {
      forall c, d, j | IsClaim(claims, i, c) && IsClaim(claims, j, d) && Congruent(c, d)
        ensures c == d
      {
        NoCollisionMeans(claims, i, c, j, d);
      }
    }
  }

  lemma NoCollisionMeans(claims: seq<Claim>, i: nat, c: nat, j: nat, d: nat)
    requires NoCollision(claims) && IsClaim(claims, i, c) && IsClaim(claims, j, d) && Congruent(c, d)
    ensures c == d
  {
    hide Congruent;
  }

  /** Inodes 11 and 12 claim cluster 1, inodes 13 and 14 cluster 2^32 + 1. */
  function TwoPairs(): seq<Claim> {
    [Claim(11, 1), Claim(12, 1), Claim(13, 0x1_0000_0001), Claim(14, 0x1_0000_0001)]
  }

  lemma PairClaims(i: nat, c: nat)
    ensures IsClaim(TwoPairs(), i, c) <==> ((i == 11 || i == 12) && c == 1) || ((i == 13 || i == 14) && c == 0x1_0000_0001)
  {
    var claims := TwoPairs();
    assert claims[0] in claims && claims[1] in claims && claims[2] in claims && claims[3] in claims;
  }

  lemma PairWindows()
    ensures InWindows(TwoPairs(), 0, 0)
  {
    assert Rank(0, 1) == 1 && Rank(0, 0x1_0000_0001) == 1;
  }

  /** Inode 11 is said to share with 13, which claims no cluster that 11 claims. */
  lemma CollisionWitness()
    ensures InWindows(TwoPairs(), 0, 0) && SharesKey(TwoPairs(), 11, 13) && !Shares(TwoPairs(), 11, 13) && !Mirrored(TwoPairs())
  {
    PairWindows();
    var claims := TwoPairs();
    assert claims[0] in claims && claims[2] in claims && claims[0].cluster != claims[2].cluster;
    assert Congruent(1, 0x1_0000_0001);
    hide Mirrored, InWindows, IsClaim, Congruent;
    assert !NoCollision(claims);
    MirrorExact(claims);
    hide TwoPairs, NoCollision;
    PairClaims(11, 1);
    PairClaims(13, 0x1_0000_0001);
    forall c: nat
      ensures !(IsClaim(claims, 11, c) && IsClaim(claims, 13, c))
    {
      PairClaims(11, c);
      PairClaims(13, c);
    }
  }

  /** A file that shares a cluster is never found in order. */
  lemma SharingIsBad(claims: seq<Claim>, i: nat, j: nat)
    requires Shares(claims, i, j)
    ensures Shares(claims, j, i)
    ensures exists c :: IsClaim(claims, i, c) && |InodesFiled(claims, c)| > 1
  {
    hide InodesFiled, Congruent;
    var c :| IsClaim(claims, i, c) && IsClaim(claims, j, c);
    FiledAre(claims, c);
    CongruentSelf(c);
    var s := InodesFiled(claims, c);
    assert i in s && j in s;
    var x :| 0 <= x < |s| && s[x] == i;
    var y :| 0 <= y < |s| && s[y] == j;
    assert x != y;
  }

  // ------------------------------------------------------------- one more claim

  lemma WindowsBefore(claims: seq<Claim>, c: Claim, cw: nat, iw: nat)
    requires InWindows(claims + [c], cw, iw)
    ensures InWindows(claims, cw, iw) && InWindow(cw, c.cluster) && InWindow(iw, c.ino)
  {
    assert forall x :: x in claims ==> x in claims + [c];
    assert c in claims + [c];
  }

  /** In a sorted tree the node a key is filed at is the only one of its class. */
  lemma OneClass<V>(t: Tree<V>, w: nat, k: nat, i: nat, j: nat)
    requires Sorted(Items(t), w) && InWindow(w, k) && i < |Items(t)| && j < |Items(t)| && i != j
    requires Congruent(Items(t)[i].0, k)
    ensures !Congruent(Items(t)[j].0, k)
  {
    hide Items, Congruent, InWindow, Rank;
    CmpIsRank(w, Items(t)[i].0, k);
    CmpIsRank(w, Items(t)[j].0, k);
  }

  lemma AddClusterSide(claims: seq<Claim>, c: Claim, t: Tree<DupCluster>, items: seq<(nat, DupCluster)>, w: nat)
    requires ClusterSide(claims, Items(t), w) && InWindow(w, c.cluster)
    requires var found := Lookup(t, c.cluster);
      var db := if found.Some? then found.value.1 else DupCluster(0, []);
      items == Items(Filed(t, c.cluster, DupCluster(db.numBad + 1, [c.ino] + db.inodes)))
    ensures ClusterSide(claims + [c], items, w)
  {
    hide Items, Lookup, Filed, Sorted, Congruent, InWindow, InodesFiled;
    var s, found := Items(t), Lookup(t, c.cluster);
    var db := if found.Some? then found.value.1 else DupCluster(0, []);
    var v := DupCluster(db.numBad + 1, [c.ino] + db.inodes);
    FiledSorted(t, w, c.cluster, v);
    LookupFinds(t, w, c.cluster);
    var i := FiledItems(t, c.cluster, v);
    if found.Some? {
      AddToNode(claims, c, t, items, i, w);
    } else {
      AddNewNode(claims, c, s, items, i, v);
    }
  }

  lemma AddToNode(claims: seq<Claim>, c: Claim, t: Tree<DupCluster>, items: seq<(nat, DupCluster)>, i: nat, w: nat)
    requires ClusterSide(claims, Items(t), w) && InWindow(w, c.cluster) && i < |Items(t)|
    requires Congruent(Items(t)[i].0, c.cluster)
    requires items == Items(t)[i := (Items(t)[i].0, DupCluster(Items(t)[i].1.numBad + 1, [c.ino] + Items(t)[i].1.inodes))]
    ensures forall j :: 0 <= j < |items| ==> ClusterNode(claims + [c], items[j])
    ensures forall x :: x in claims + [c] ==> HasClass(items, x.cluster)
  {
    hide Items, Sorted, Congruent, InWindow, InodesFiled;
    var s := Items(t);
    CongruentSym();
    forall j | 0 <= j < |items|
      ensures ClusterNode(claims + [c], items[j])
    {
      assert ClusterNode(claims, s[j]);
      FiledAppend(claims, c, s[j].0);
      if j != i {
        OneClass(t, w, c.cluster, i, j);
      }
    }
    forall x | x in claims + [c]
      ensures HasClass(items, x.cluster)
    {
      if x in claims {
        assert HasClass(s, x.cluster);
        var j :| 0 <= j < |s| && Congruent(s[j].0, x.cluster);
        assert items[j].0 == s[j].0;
      } else {
        assert items[i].0 == s[i].0;
      }
    }
  }

  lemma AddNewNode(claims: seq<Claim>, c: Claim, s: seq<(nat, DupCluster)>, items: seq<(nat, DupCluster)>, i: nat, v: DupCluster)
    requires (forall j :: 0 <= j < |s| ==> ClusterNode(claims, s[j])) && (forall x :: x in claims ==> HasClass(s, x.cluster))
    requires forall j :: 0 <= j < |s| ==> !Congruent(s[j].0, c.cluster)
    requires i <= |s| && items == s[..i] + [(c.cluster, v)] + s[i..] && v == DupCluster(1, [c.ino])
    ensures forall j :: 0 <= j < |items| ==> ClusterNode(claims + [c], items[j])
    ensures forall x :: x in claims + [c] ==> HasClass(items, x.cluster)
  {
    hide Congruent, InodesFiled;
    CongruentSym();
    NothingFiled(claims, s, c.cluster);
    assert items[i] == (c.cluster, v);
    CongruentSelf(c.cluster);
    forall j | 0 <= j < |items|
      ensures ClusterNode(claims + [c], items[j])
    {
      FiledAppend(claims, c, items[j].0);
      if j != i {
        var e := s[if j < i then j else j - 1];
        assert items[j] == e && ClusterNode(claims, e);
      }
    }
    forall x | x in claims + [c]
      ensures HasClass(items, x.cluster)
    {
      if x in claims {
        assert HasClass(s, x.cluster);
        var j :| 0 <= j < |s| && Congruent(s[j].0, x.cluster);
        assert items[if j < i then j else j + 1] == s[j];
      }
    }
  }

  lemma NothingFiled(claims: seq<Claim>, s: seq<(nat, DupCluster)>, k: nat)
    requires forall x :: x in claims ==> HasClass(s, x.cluster)
    requires forall j :: 0 <= j < |s| ==> !Congruent(s[j].0, k)
    ensures InodesFiled(claims, k) == []
  {
    hide InodesFiled;
    FiledMembers(claims, k);
    forall x | x in claims
      ensures !Congruent(x.cluster, k)
    {
      if Congruent(x.cluster, k) {
        ClassMoves(s, x.cluster, k);
        assert false;
      }
    }
    if InodesFiled(claims, k) != [] {
      SomeMember(InodesFiled(claims, k));
      assert false;
    }
  }

  lemma SomeMember(s: seq<Ino>)
    requires s != []
    ensures exists j :: j in s
  {
    assert s[0] in s;
  }

  lemma ClassMoves<V>(s: seq<(nat, V)>, a: nat, b: nat)
    requires HasClass(s, a) && Congruent(a, b)
    ensures exists j :: 0 <= j < |s| && Congruent(s[j].0, b)
  {
    var j :| 0 <= j < |s| && Congruent(s[j].0, a);
    assert Congruent(s[j].0, b);
  }

  lemma AddInodeSide(claims: seq<Claim>, c: Claim, t: Tree<DupInode>, items: seq<(nat, DupInode)>, w: nat)
    requires InodeSide(claims, Items(t), w) && InWindow(w, c.ino)
    requires forall k :: k in Keys(Items(t)) <==> exists x :: x in claims && x.ino == k
    requires var found := Lookup(t, c.ino);
      var di := if found.Some? then found.value.1 else DupInode(if c.ino == EXT2_ROOT_INO then EXT2_ROOT_INO else 0, 0, []);
      items == Items(Filed(t, c.ino, DupInode(di.dir, di.numDupBlocks + 1, [c.cluster] + di.clusters)))
    ensures InodeSide(claims + [c], items, w)
  {
    hide Items, Lookup, Filed, Sorted, InWindow, ClustersOf, Keys;
    var s, found := Items(t), Lookup(t, c.ino);
    var di := if found.Some? then found.value.1 else DupInode(if c.ino == EXT2_ROOT_INO then EXT2_ROOT_INO else 0, 0, []);
    var v := DupInode(di.dir, di.numDupBlocks + 1, [c.cluster] + di.clusters);
    FiledSorted(t, w, c.ino, v);
    LookupFinds(t, w, c.ino);
    var i := FiledItems(t, c.ino, v);
    KeysBounded(claims, s);
    forall j | 0 <= j < |items|
      ensures InodeNode(claims + [c], items[j])
    {
      ClustersAppend(claims, c, items[j].0);
      if found.Some? {
        assert InodeNode(claims, s[j]);
        if j != i {
          OneClass(t, w, c.ino, i, j);
        }
      } else if j != i {
        assert items[j] == s[if j < i then j else j - 1];
        assert InodeNode(claims, items[j]);
      } else {
        ClustersNone(claims, c.ino);
        NoSuchInode(claims, s, c.ino);
      }
    }
  }

  lemma KeysBounded(claims: seq<Claim>, s: seq<(nat, DupInode)>)
    requires forall k :: k in Keys(s) <==> exists x :: x in claims && x.ino == k
    ensures forall j :: 0 <= j < |s| ==> s[j].0 < 0x1_0000_0000
  {
    forall j | 0 <= j < |s|
      ensures s[j].0 < 0x1_0000_0000
    {
      assert Keys(s)[j] in Keys(s);
    }
  }

  lemma NoSuchInode(claims: seq<Claim>, s: seq<(nat, DupInode)>, ino: Ino)
    requires forall k :: k in Keys(s) <==> exists x :: x in claims && x.ino == k
    requires forall j :: 0 <= j < |s| ==> !Congruent(s[j].0, ino)
    ensures forall x :: x in claims ==> x.ino != ino
  {
    forall x | x in claims
      ensures x.ino != ino
    {
      assert x.ino in Keys(s);
      var j :| 0 <= j < |s| && Keys(s)[j] == x.ino;
    }
  }

  lemma LooseKeys(claims: seq<Claim>, clusters: seq<(nat, DupCluster)>, inodes: seq<(nat, DupInode)>)
    requires Loose(claims, clusters, inodes)
    ensures forall k :: k in Keys(inodes) <==> exists c :: c in claims && c.ino == k
  {
  }

  lemma AddLoose(claims: seq<Claim>, c: Claim, ct: Tree<DupCluster>, ct': Tree<DupCluster>, it: Tree<DupInode>, it': Tree<DupInode>)
    requires Loose(claims, Items(ct), Items(it))
    requires var found := Lookup(ct, c.cluster);
      var db := if found.Some? then found.value.1 else DupCluster(0, []);
      Items(ct') == Items(Filed(ct, c.cluster, DupCluster(db.numBad + 1, [c.ino] + db.inodes)))
    requires exists v :: Items(it') == Items(Filed(it, c.ino, v))
    ensures Loose(claims + [c], Items(ct'), Items(it'))
  {
    hide Items, Lookup, Filed, Keys;
    var v :| Items(it') == Items(Filed(it, c.ino, v));
    KeysGrow(claims, c, it, v);
    var found := Lookup(ct, c.cluster);
    var db := if found.Some? then found.value.1 else DupCluster(0, []);
    var i := FiledItems(ct, c.cluster, DupCluster(db.numBad + 1, [c.ino] + db.inodes));
    var s, r := Items(ct), Items(ct');
    forall k, j | 0 <= k < |r| && j in r[k].1.inodes
      ensures j in Keys(Items(it'))
    {
      if k != i {
        assert r[k] == s[if found.Some? || k < i then k else k - 1];
      }
    }
  }

  /** Filing an inode adds it to the keys, and nothing else. */
  lemma KeysGrow(claims: seq<Claim>, c: Claim, t: Tree<DupInode>, v: DupInode)
    requires forall k :: k in Keys(Items(t)) <==> exists x :: x in claims && x.ino == k
    ensures forall k :: k in Keys(Items(Filed(t, c.ino, v))) <==> k in Keys(Items(t)) || k == c.ino
    ensures forall k :: k in Keys(Items(Filed(t, c.ino, v))) <==> exists x :: x in claims + [c] && x.ino == k
  {
    hide Items, Lookup, Filed;
    var i := FiledItems(t, c.ino, v);
    var s, r := Items(t), Items(Filed(t, c.ino, v));
    KeysBounded(claims, s);
    if Lookup(t, c.ino).Some? {
      assert Keys(s)[i] in Keys(s);
      assert Keys(r) == Keys(s);
    } else {
      assert Keys(r) == Keys(s)[..i] + [c.ino] + Keys(s)[i..];
      assert Keys(s) == Keys(s)[..i] + Keys(s)[i..];
    }
    hide Keys, FiledAt;
    assert forall x :: x in claims + [c] <==> x in claims || x == c;
  }

  /** The root's directory is counted once for each node made for it. */
  lemma RootCounted(t: Tree<DupInode>, ino: Ino, v: DupInode, items: seq<(nat, DupInode)>)
    requires items == Items(Filed(t, ino, v))
    ensures multiset(Keys(items))[EXT2_ROOT_INO] == multiset(Keys(Items(t)))[EXT2_ROOT_INO]
      + if Lookup(t, ino).None? && ino == EXT2_ROOT_INO then 1 else 0
  {
    hide Items, Lookup, Filed;
    var i := FiledItems(t, ino, v);
    var s := Items(t);
    if Lookup(t, ino).Some? {
      assert Keys(items) == Keys(s);
    } else {
      assert Keys(items) == Keys(s)[..i] + [ino] + Keys(s)[i..];
      assert Keys(s) == Keys(s)[..i] + Keys(s)[i..];
    }
  }

  lemma HitsStep(visits: seq<Visit>, n: nat, ratio: nat, dups: set<nat>)
    requires ratio > 0 && n < |visits|
    ensures forall k :: Hits(visits[..n + 1], ratio, dups, k) <==>
      Hits(visits[..n], ratio, dups, k) || (k in dups && visits[n].block != 0 && Cluster(ratio, visits[n].block) == k)
  {
    hide Cluster;
    assert visits[..n + 1] == visits[..n] + [visits[n]];
    assert visits[n] in visits[..n + 1];
    forall k: nat
      ensures k * ratio <= visits[n].block < (k + 1) * ratio <==> Cluster(ratio, visits[n].block) == k
    {
      ClusterExact(ratio, visits[n].block, k);
    }
  }
}
