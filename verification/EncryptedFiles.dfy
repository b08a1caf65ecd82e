/**
 The map from encrypted inodes to policy identifiers (e2fsck/encrypted_files.c):
 a sorted array of runs, extended at the end and searched by bisection.
 */
module EncryptedFiles {
  import opened Options

  type U32 = x: nat | x < 0x1_0000_0000

  const NO_ENCRYPTION_POLICY: U32 := 0xFFFF_FFFF

  datatype Range = Range(first: U32, last: U32, policy: U32)

  /** The policy of an inode, by a plain scan of the runs. */
  function At(rs: seq<Range>, ino: nat): Option<U32> {
    if rs == [] then None
    else if rs[0].first <= ino <= rs[0].last then Some(rs[0].policy)
    else At(rs[1..], ino)
  }

  /** Runs in order, none of which could be joined with the next. */
  ghost predicate Canonical(rs: seq<Range>) {
    && (forall i :: 0 <= i < |rs| ==> rs[i].first <= rs[i].last)
    && (forall i, j :: 0 <= i < j < |rs| ==> rs[i].last < rs[j].first)
    && (forall i, j :: 0 <= i && j == i + 1 && j < |rs| ==> rs[i].last + 1 < rs[j].first || rs[i].policy != rs[j].policy)
  }

  lemma {:induction false} AtIndex(rs: seq<Range>, i: nat, ino: nat)
    requires Canonical(rs) && i < |rs| && rs[i].first <= ino <= rs[i].last
    ensures At(rs, ino) == Some(rs[i].policy)
  {
    if i > 0 {
      assert rs[0].last < rs[i].first;
      AtIndex(rs[1..], i - 1, ino);
    }
  }

  lemma {:induction false} AtNone(rs: seq<Range>, ino: nat)
    requires forall i :: 0 <= i < |rs| ==> ino < rs[i].first || rs[i].last < ino
    ensures At(rs, ino) == None
  {
    if rs != [] {
      AtNone(rs[1..], ino);
    }
  }

  lemma {:induction false} AtJoin(rs: seq<Range>, r: Range, ino: nat)
    ensures At(rs + [r], ino) == if At(rs, ino).Some? then At(rs, ino) else if r.first <= ino <= r.last then Some(r.policy) else None
  {
    if rs == [] {
      assert (rs + [r])[1..] == [];
    } else {
      assert (rs + [r])[1..] == rs[1..] + [r];
      AtJoin(rs[1..], r, ino);
    }
  }

  /** What an append does to the runs. */
  function Appended(rs: seq<Range>, ino: U32, policy: U32): seq<Range>
    requires rs != [] ==> rs[|rs| - 1].last < ino
  {
    if rs != [] && ino == rs[|rs| - 1].last + 1 && policy == rs[|rs| - 1].policy
    then rs[..|rs| - 1] + [rs[|rs| - 1].(last := rs[|rs| - 1].last + 1)]
    else rs + [Range(ino, ino, policy)]
  }

  /** A run may follow the last one. */
  predicate Follows(rs: seq<Range>, r: Range) {
    && r.first <= r.last
    && (rs != [] ==> rs[|rs| - 1].last < r.first)
    && (rs != [] ==> rs[|rs| - 1].last + 1 < r.first || rs[|rs| - 1].policy != r.policy)
  }

  lemma CanonicalSnoc(rs: seq<Range>, r: Range)
    requires Canonical(rs) && Follows(rs, r)
    ensures Canonical(rs + [r])
  {
    var s, n := rs + [r], |rs|;
    forall i, j | 0 <= i < j < |s|
      ensures s[i].last < s[j].first
    {
      assert j == n && i < n - 1 ==> rs[i].last < rs[n - 1].first <= rs[n - 1].last;
    }
  }

  lemma CanonicalInit(rs: seq<Range>)
    requires Canonical(rs) && rs != []
    ensures Canonical(rs[..|rs| - 1]) && Follows(rs[..|rs| - 1], rs[|rs| - 1])
    ensures rs == rs[..|rs| - 1] + [rs[|rs| - 1]]
  {
  }

  /** An append adds one inode to the map, changes nothing else and leaves the runs canonical. */
  lemma AppendExact(rs: seq<Range>, ino: U32, policy: U32, k: nat)
    requires Canonical(rs) && (rs != [] ==> rs[|rs| - 1].last < ino)
    ensures Canonical(Appended(rs, ino, policy))
    ensures At(Appended(rs, ino, policy), k) == if k == ino then Some(policy) else At(rs, k)
  {
    hide At, Canonical;
    BeyondNone(rs, ino);
    if rs != [] && ino == rs[|rs| - 1].last + 1 && policy == rs[|rs| - 1].policy {
      var r := rs[|rs| - 1];
      var init, r' := rs[..|rs| - 1], r.(last := r.last + 1);
      CanonicalInit(rs);
      CanonicalSnoc(init, r');
      AtJoin(init, r, k);
      AtJoin(init, r', k);
      AtJoin(init, r, ino);
    } else {
      CanonicalSnoc(rs, Range(ino, ino, policy));
      AtJoin(rs, Range(ino, ino, policy), k);
    }
  }

  lemma BeyondNone(rs: seq<Range>, ino: nat)
    requires Canonical(rs) && (rs != [] ==> rs[|rs| - 1].last < ino)
    ensures At(rs, ino) == None
  {
    hide At;
    forall i | 0 <= i < |rs|
      ensures rs[i].last < ino
    {
      assert i < |rs| - 1 ==> rs[i].last < rs[|rs| - 1].first;
    }
    AtNone(rs, ino);
  }

  // -------------------------------------------------------------- the encoding is unique

  lemma CanonicalTail(rs: seq<Range>)
    requires Canonical(rs) && rs != []
    ensures Canonical(rs[1..])
  {
  }

  lemma BelowNone(rs: seq<Range>, ino: nat)
    requires Canonical(rs) && (rs != [] ==> ino < rs[0].first)
    ensures At(rs, ino) == None
  {
    AtNone(rs, ino);
  }

  ghost predicate SameMap(a: seq<Range>, b: seq<Range>) {
    forall k: nat :: At(a, k) == At(b, k)
  }

  /** The inode behind the first run does not carry that run's policy. */
  lemma RunEnds(rs: seq<Range>)
    requires Canonical(rs) && rs != []
    ensures At(rs, rs[0].last + 1) != Some(rs[0].policy)
  {
    hide At;
    var k := rs[0].last + 1;
    if |rs| > 1 && rs[1].first == k {
      AtIndex(rs, 1, k);
    } else {
      assert forall i :: 1 < i < |rs| ==> rs[1].last < rs[i].first;
      AtNone(rs, k);
    }
  }

  lemma FirstInside(rs: seq<Range>)
    requires Canonical(rs) && rs != []
    ensures rs[0].first <= rs[0].last
    ensures forall k :: rs[0].first <= k <= rs[0].last ==> At(rs, k) == Some(rs[0].policy)
    ensures forall k: nat :: k < rs[0].first ==> At(rs, k) == None
    ensures At(rs, rs[0].last + 1) != Some(rs[0].policy)
  {
    RunEnds(rs);
    forall k: nat | k < rs[0].first
      ensures At(rs, k) == None
    {
      BelowNone(rs, k);
    }
  }

  /** Equal maps start with equal runs. */
  lemma SameFirst(a: seq<Range>, b: seq<Range>)
    requires Canonical(a) && Canonical(b) && SameMap(a, b) && a != [] && b != []
    ensures a[0] == b[0]
  {
    hide At, Canonical;
    FirstInside(a);
    FirstInside(b);
    assert At(a, a[0].first) == At(b, a[0].first) && At(a, b[0].first) == At(b, b[0].first);
    assert a[0].first == b[0].first;
    assert At(a, a[0].last + 1) == At(b, a[0].last + 1) && At(a, b[0].last + 1) == At(b, b[0].last + 1);
  }

  lemma TailMap(a: seq<Range>, k: nat)
    requires Canonical(a) && a != []
    ensures At(a[1..], k) == if k <= a[0].last then None else At(a, k)
  {
    CanonicalTail(a);
    if k <= a[0].last {
      BelowNone(a[1..], k);
    }
  }

  /** Uniqueness: a map has only one canonical list of runs. */
  lemma {:induction false} CanonicalUnique(a: seq<Range>, b: seq<Range>)
    requires Canonical(a) && Canonical(b) && SameMap(a, b)
    ensures a == b
  {
    hide At, Canonical;
    if a == [] || b == [] {
      if a != [] {
        NotEmptyMap(a, b);
      }
      if b != [] {
        NotEmptyMap(b, a);
      }
    } else {
      SameFirst(a, b);
      CanonicalTail(a);
      CanonicalTail(b);
      forall k: nat
        ensures At(a[1..], k) == At(b[1..], k)
      {
        TailMap(a, k);
        TailMap(b, k);
      }
      CanonicalUnique(a[1..], b[1..]);
    }
  }

  lemma NotEmptyMap(a: seq<Range>, b: seq<Range>)
    requires Canonical(a) && a != [] && b == []
    ensures !SameMap(a, b)
  {
    FirstInside(a);
    assert At(a, a[0].first).Some?;
    assert At(b, a[0].first) == None;
  }

  // ------------------------------------------------------------------- the table

  class EncryptedFileInfo {
    var ranges: seq<Range>
    var capacity: nat
    /** Every accepted append so far. */
    ghost var policies: map<nat, U32>

    ghost predicate Valid()
      reads this
    {
      && Canonical(ranges) && |ranges| <= capacity
      && (forall k: nat :: At(ranges, k) == if k in policies then Some(policies[k]) else None)
    }

    constructor ()
      ensures Valid() && policies == map[]
    {
      ranges, capacity, policies := [], 0, map[];
    }

    /** `append_ino_and_policy_id`: refuses (and ends the program on) an inode out of order. */
    method Append(ino: U32, policy: U32, inodesCount: nat) returns (ok: bool)
      requires Valid()
      modifies this
      ensures Valid()
      ensures ok <==> forall k :: k in old(policies) ==> k < ino
      ensures ok ==> policies == old(policies)[ino := policy as nat]
      ensures !ok ==> policies == old(policies) && ranges == old(ranges)
    {
      hide At, Canonical;
      LastIsGreatest(ranges, policies);
      ghost var before := ranges;
      if |ranges| > 0 {
        var n := |ranges| - 1;
        if ino <= ranges[n].last {
          return false;
        }
        if ino == ranges[n].last + 1 && policy == ranges[n].policy {
          ranges := ranges[..n] + [ranges[n].(last := ranges[n].last + 1)];
          policies := policies[ino := policy];
          AppendAll(before, ino, policy);
          return true;
        }
      }
      if |ranges| == capacity {
        var grown := capacity * 2;
        if grown < 128 {
          grown := 128;
        }
        if grown > inodesCount {
          grown := inodesCount;
        }
        if grown < capacity + 1 {
          grown := capacity + 1;
        }
        capacity := grown;
      }
      ranges := ranges + [Range(ino, ino, policy)];
      policies := policies[ino := policy];
      AppendAll(before, ino, policy);
      ok := true;
    }

    /** `find_encryption_policy`. */
    method Find(ino: U32) returns (policy: U32)
      requires Valid()
      ensures policy == if ino in policies then policies[ino] else 0xFFFF_FFFF
    {
      hide At;
      var l, r := 0, |ranges|;
      while l < r
        invariant 0 <= l <= r <= |ranges|
        invariant forall i :: 0 <= i < l ==> ranges[i].last < ino
        invariant forall i :: r <= i < |ranges| ==> ino < ranges[i].first
      {
        var m := l + (r - l) / 2;
        if ino < ranges[m].first {
          r := m;
        } else if ino > ranges[m].last {
          l := m + 1;
        } else {
          AtIndex(ranges, m, ino);
          return ranges[m].policy;
        }
      }
      AtNone(ranges, ino);
      policy := NO_ENCRYPTION_POLICY;
    }
  }

  lemma LastIsGreatest(rs: seq<Range>, policies: map<nat, U32>)
    requires Canonical(rs) && forall k: nat :: At(rs, k) == if k in policies then Some(policies[k]) else None
    ensures rs == [] ==> policies == map[]
    ensures rs != [] ==> rs[|rs| - 1].last in policies && forall k :: k in policies ==> k <= rs[|rs| - 1].last
  {
    hide At;
    if rs != [] {
      AtIndex(rs, |rs| - 1, rs[|rs| - 1].last);
      forall k | k in policies
        ensures k <= rs[|rs| - 1].last
      {
        if k > rs[|rs| - 1].last {
          BeyondNone(rs, k);
        }
      }
    } else {
      forall k: nat
        ensures k !in policies
      {
        AtNone(rs, k);
      }
    }
  }

  lemma AppendAll(rs: seq<Range>, ino: U32, policy: U32)
    requires Canonical(rs) && (rs != [] ==> rs[|rs| - 1].last < ino)
    ensures Canonical(Appended(rs, ino, policy))
    ensures forall k: nat :: At(Appended(rs, ino, policy), k) == if k == ino then Some(policy) else At(rs, k)
  {
    hide At, Canonical;
    AppendExact(rs, ino, policy, 0);
    forall k: nat
      ensures At(Appended(rs, ino, policy), k) == if k == ino then Some(policy) else At(rs, k)
    {
      AppendExact(rs, ino, policy, k);
    }
  }
}
