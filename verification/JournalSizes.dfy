/**
 How many journal blocks a transaction takes: the recursive counts of the writer
 in closed form.
 */
module JournalSizes {
  import opened JournalFormat
  import opened JournalLayout
  import opened JournalTransaction

  /** `m` blocks of `per` items are the fewest that hold `n` items. */
  predicate Fewest(m: nat, per: nat, n: nat) {
    n <= m * per && (m > 0 ==> (m - 1) * per < n)
  }

  /** Tags in a full descriptor: the header and one UUID come off. */
  function TagsPerBlock(j: Journal): nat
    requires j.Valid()
  {
    (j.Size() - 28) / j.TagBytes()
  }

  function RecordsPerBlock(j: Journal): nat
    requires j.Valid()
  {
    (j.Size() - 16) / j.RevokeBytes()
  }

  /** How many items of `size` bytes fit into `room` bytes. */
  lemma RoomFor(room: nat, size: nat, k: nat)
    requires size > 0
    ensures k * size <= room <==> k <= room / size
  {
    var q := room / size;
    assert room == q * size + room % size;
    if k <= q {
      assert k * size <= q * size;
    } else {
      assert k * size >= (q + 1) * size == q * size + size;
    }
  }

  lemma FullAt(j: Journal, k: nat)
    requires j.Valid()
    ensures TagsPerBlock(j) > 0 && (Full(j, k) <==> k >= TagsPerBlock(j))
  {
    RoomFor(j.Size() - 28, j.TagBytes(), k + 1);
    RoomFor(j.Size() - 28, j.TagBytes(), 1);
    assert (k + 1) * j.TagBytes() == k * j.TagBytes() + j.TagBytes();
  }

  lemma RevokeFullAt(j: Journal, k: nat)
    requires j.Valid()
    ensures RecordsPerBlock(j) > 0
    ensures RevokeEnd(j, k) + j.RevokeBytes() > j.Size() <==> k >= RecordsPerBlock(j)
  {
    RoomFor(j.Size() - 16, j.RevokeBytes(), k + 1);
    RoomFor(j.Size() - 16, j.RevokeBytes(), 1);
    assert (k + 1) * j.RevokeBytes() == k * j.RevokeBytes() + j.RevokeBytes();
  }

  lemma OneMoreBlock(m: nat, per: nat, n: nat)
    requires m > 0 && Fewest(m, per, n)
    ensures Fewest(m + 1, per, per + n)
  {
    assert (m + 1) * per == m * per + per && m * per == (m - 1) * per + per;
  }

  lemma {:induction false} NeedExact(j: Journal, k: nat, n: nat)
    requires j.Valid() && k <= TagsPerBlock(j) && k + n > 0
    ensures Need(j, k, n) >= n && Fewest(1 + Need(j, k, n) - n, TagsPerBlock(j), k + n)
    decreases n
  {
    hide Full, TagsPerBlock, Fewest;
    FullAt(j, k);
    NeedNone(j, k);
    var per := TagsPerBlock(j);
    if n == 0 {
      OneBlock(per, k);
    } else {
      NeedStep(j, k, n);
      if k == per {
        NeedExact(j, 1, n - 1);
        OneMoreBlock(1 + Need(j, 1, n - 1) - (n - 1), per, n);
      } else {
        NeedExact(j, k + 1, n - 1);
      }
    }
  }

  lemma OneBlock(per: nat, k: nat)
    requires 0 < k <= per
    ensures Fewest(1, per, k)
  {
  }

  lemma {:induction false} RevokeNeedExact(j: Journal, k: nat, n: nat)
    requires j.Valid() && k <= RecordsPerBlock(j) && k + n > 0
    ensures RevokeNeed(j, k, n) > 0 && Fewest(RevokeNeed(j, k, n), RecordsPerBlock(j), k + n)
    decreases n
  {
    hide RevokeEnd, RecordsPerBlock, Fewest, RevokeNeed;
    RevokeFullAt(j, k);
    NeedNone(j, k);
    var per := RecordsPerBlock(j);
    if n == 0 {
      OneBlock(per, k);
    } else {
      NeedStep(j, k, n);
      if k == per {
        RevokeNeedExact(j, 1, n - 1);
        OneMoreBlock(RevokeNeed(j, 1, n - 1), per, n);
      } else {
        RevokeNeedExact(j, k + 1, n - 1);
      }
    }
  }

  /** The data blocks of a transaction take one journal block each, and the fewest descriptors that hold their tags. */
  lemma DataSizeExact(j: Journal, n: nat)
    requires j.Valid()
    ensures DataSize(j, n) >= n && Fewest(DataSize(j, n) - n, (j.Size() - 28) / j.TagBytes(), n)
  {
    if n > 0 {
      NeedExact(j, 0, n);
    }
  }

  /** Its revokes take the fewest blocks that hold them. */
  lemma RevokeSizeExact(j: Journal, n: nat)
    requires j.Valid()
    ensures Fewest(RevokeSize(j, n), (j.Size() - 16) / j.RevokeBytes(), n)
  {
    if n > 0 {
      RevokeNeedExact(j, 0, n);
    }
  }
}
