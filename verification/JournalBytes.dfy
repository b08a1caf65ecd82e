/**
 The numbers of the journal's on-disk format, byte by byte: what is written where,
 without the names and field accessors of the other modules.
 */
module JournalBytes {
  import opened JournalFormat
  import opened JournalLayout
  import opened JournalWriter
  import opened JournalTransaction

  /** The four bytes from `o` on are `v`, most significant first. */
  predicate BigEndian(b: Block, o: nat, v: nat) {
    && v < 0x1_0000_0000 && o + 4 <= |b|
    && b[o] == v / 0x100_0000 && b[o + 1] == (v / 0x1_0000) % 256
    && b[o + 2] == (v / 0x100) % 256 && b[o + 3] == v % 256
  }

  lemma WordExact(v: nat)
    requires v < 0x1_0000_0000
    ensures BigEndian(Bytes32(v), 0, v)
  {
    var hi := v / 0x100_0000;
    assert hi < 256;
  }

  lemma SliceWord(b: Block, o: nat, v: nat)
    requires o + 4 <= |b| && v < 0x1_0000_0000 && b[o..o + 4] == Bytes32(v)
    ensures BigEndian(b, o, v)
  {
    hide Bytes32;
    WordExact(v);
    var x := Bytes32(v);
    assert b[o..o + 4][0] == x[0] && b[o..o + 4][1] == x[1];
    assert b[o..o + 4][2] == x[2] && b[o..o + 4][3] == x[3];
  }

  /** A block header: magic number, block type, transaction. */
  lemma HeaderOnDisk(b: Block, blocktype: nat, seqno: nat)
    requires |b| >= 12 && blocktype < 0x1_0000_0000 && seqno < 0x1_0000_0000
    ensures var h := WithHeader(b, blocktype, seqno);
      && h[..4] == [0xC0, 0x3B, 0x39, 0x98]
      && BigEndian(h, 4, blocktype) && BigEndian(h, 8, seqno) && h[12..] == b[12..]
    ensures DESCRIPTOR_BLOCK == 1 && COMMIT_BLOCK == 2 && REVOKE_BLOCK == 5
  {
    var b1 := Put32(b, 0, MAGIC);
    var b2 := Put32(b1, 4, blocktype);
    var b3 := Put32(b2, 8, seqno);
    HeaderParts(b1, b2, b3, blocktype, seqno);
    assert Bytes32(MAGIC) == [0xC0, 0x3B, 0x39, 0x98];
    SliceWord(b3, 4, blocktype);
    SliceWord(b3, 8, seqno);
    assert b3[12..] == b[12..];
  }

  lemma HeaderParts(b1: Block, b2: Block, b3: Block, blocktype: nat, seqno: nat)
    requires |b1| >= 12 && b2 == Put32(b1, 4, blocktype) && b3 == Put32(b2, 8, seqno)
    ensures |b3| == |b1| && b3[..4] == b1[..4] && b3[4..8] == Bytes32(blocktype) && b3[8..12] == Bytes32(seqno)
    ensures b3[12..] == b1[12..]
  {
    hide Bytes32;
    Bytes32Length(blocktype);
    Bytes32Length(seqno);
  }

  /** The size of a tag under every combination of features, and of a revoke record. */
  lemma TagBytesExact(j: Journal)
    ensures j.csum3 ==> j.TagBytes() == 16
    ensures !j.csum3 && !j.csum2 ==> j.TagBytes() == if j.is64 then 12 else 8
    ensures !j.csum3 && j.csum2 ==> j.TagBytes() == if j.is64 then 14 else 10
    ensures j.RevokeBytes() == if j.is64 then 8 else 4
  {
  }

  /** A tag: low half of the number, flags in the eighth byte, high half in front of any 32-bit checksum. */
  lemma TagOnDisk(j: Journal, b: Block, p: nat, t: TagSpec, sum: nat)
    requires j.Valid() && |b| == j.blocksize && 12 <= p && p + j.TagBytes() <= j.Size() && t.flags < 256
    requires t.nr < if j.is64 then 0x1_0000_0000_0000_0000 else 0x1_0000_0000
    ensures var c := WithTag(j, b, p, t, sum);
      && BigEndian(c, p, t.nr % 0x1_0000_0000) && c[p + 7] == t.flags
      && (j.is64 ==> BigEndian(c, p + 8, t.nr / 0x1_0000_0000))
  {
    hide Bytes32, WithNumber, WithUuid, WithHigh, WithSum, BigEndian;
    var b0 := WithNumber(b, p, t);
    var c := WithTag(j, b, p, t, sum);
    forall i | p <= i < p + 4 ensures c[i] == b0[i] {
    }
    SliceSame(c, b0, p, p + 4);
    SliceWord(c, p, t.nr % 0x1_0000_0000);
    if j.is64 {
      var b2 := WithHigh(j, WithUuid(j, b0, p), p, t);
      forall i | p + 8 <= i < p + 12 ensures c[i] == b2[i] {
      }
      SliceSame(c, b2, p + 8, p + 12);
      SliceWord(c, p + 8, t.nr / 0x1_0000_0000);
    }
  }

  /** The first tag is followed by 16 bytes of UUID, the others by the next tag. */
  lemma TagOffsets(j: Journal, k: nat)
    ensures Off(j, 0) == 12 && Off(j, k + 1) == 28 + (k + 1) * j.TagBytes()
  {
  }

  /** The flags byte: 1 for an escaped block, 2 for a tag without UUID, 8 for the last tag. */
  lemma FlagsOnDisk(first: bool, last: bool, escape: bool)
    ensures Flags(first, last, escape) == (if escape then 1 else 0) + (if first then 0 else 2) + (if last then 8 else 0)
  {
  }

  /** A revoke record: four bytes, or high half and low half. */
  lemma RecordOnDisk(j: Journal, b: Block, o: nat, v: nat)
    requires j.Valid() && o + j.RevokeBytes() <= |b| && v < j.fsBlocks
    ensures var c := WithRecord(j, b, o, v);
      if j.is64 then BigEndian(c, o, v / 0x1_0000_0000) && BigEndian(c, o + 4, v % 0x1_0000_0000)
      else BigEndian(c, o, v)
  {
    hide Bytes32, BigEndian;
    var hi, lo := v / 0x1_0000_0000, v % 0x1_0000_0000;
    var c := WithRecord(j, b, o, v);
    Bytes32Length(hi);
    Bytes32Length(lo);
    if j.is64 {
      assert c[o..o + 4] == Bytes32(hi);
      assert c[o + 4..o + 8] == Bytes32(lo);
      SliceWord(c, o, hi);
      SliceWord(c, o + 4, lo);
    } else {
      assert c[o..o + 4] == Bytes32(lo);
      SliceWord(c, o, lo);
    }
  }

  /** A finished revoke block: the number of bytes used behind the header, then the records. */
  lemma RevokeBlockOnDisk(j: Journal, b: Block, off: nat, sum: nat)
    requires j.Valid() && |b| == j.blocksize && 16 <= off <= j.Size() && j.blocksize < 0x1_0000_0000
    ensures BigEndian(Finished(j, b, off, sum), 12, off)
    ensures Finished(j, b, off, sum)[16..off] == b[16..off]
    ensures RevokeEnd(j, 0) == 16
  {
    hide Bytes32, BigEndian, WithTail;
    Bytes32Length(off);
    var b1 := Put32(b, HEADER_BYTES, off);
    var c := Finished(j, b, off, sum);
    SamePrefix(j, b1, c);
    assert b1[12..16] == Bytes32(off);
    SliceWord(c, 12, off);
    forall i | 16 <= i < off ensures c[i] == b[i] {
      assert c[..j.Size()][i] == b1[..j.Size()][i] == b[i];
    }
  }

  /** The UUID of the first tag lies twelve tag sizes behind the tag's start. */
  lemma UuidOnDisk(j: Journal, b: Block, t: TagSpec, sum: nat)
    requires j.Valid() && |b| == j.blocksize && t.flags < 256
    ensures 12 + 12 * j.TagBytes() + 16 <= j.blocksize
    ensures WithTag(j, b, 12, t, sum)[12 + 12 * j.TagBytes()..28 + 12 * j.TagBytes()] == j.uuid
  {
    hide Bytes32, WithNumber, WithHigh, WithSum;
    var c, o := WithTag(j, b, 12, t, sum), 12 + 12 * j.TagBytes();
    var b1 := WithUuid(j, WithNumber(b, 12, t), 12);
    forall i | o <= i < o + 16 ensures c[i] == b1[i] {
    }
    SliceSame(c, b1, o, o + 16);
    assert b1[o..o + 16] == j.uuid;
  }

  /** The checksum of a tag: four bytes at its end, or the two bytes before its flags. */
  lemma TagSumOnDisk(j: Journal, b: Block, p: nat, t: TagSpec, sum: nat)
    requires j.Valid() && |b| == j.blocksize && 12 <= p && p + j.TagBytes() <= j.Size() && t.flags < 256 && sum < 0x1_0000_0000
    ensures j.csum3 ==> BigEndian(WithTag(j, b, p, t, sum), p + 12, sum)
    ensures !j.csum3 && j.csum2 ==> WithTag(j, b, p, t, sum)[p + 4] == (sum / 256) % 256 && WithTag(j, b, p, t, sum)[p + 5] == sum % 256
  {
    hide Bytes32, WithNumber, WithUuid, WithHigh, BigEndian;
    Bytes32Length(sum);
    var c := WithTag(j, b, p, t, sum);
    if j.csum3 {
      assert c[p + 12..p + 16] == Bytes32(sum);
      SliceWord(c, p + 12, sum);
    }
  }

  /** With either checksum feature a descriptor or revoke block ends in its checksum. */
  lemma TailOnDisk(j: Journal, b: Block, sum: nat)
    requires j.Valid() && |b| == j.blocksize && sum < 0x1_0000_0000
    ensures j.csum2 || j.csum3 ==> BigEndian(WithTail(j, b, sum), j.blocksize - 4, sum) && j.Size() == j.blocksize - 4
    ensures !j.csum2 && !j.csum3 ==> WithTail(j, b, sum) == b && j.Size() == j.blocksize
    ensures WithTail(j, b, sum)[..j.Size()] == b[..j.Size()]
  {
    hide Bytes32, BigEndian;
    Bytes32Length(sum);
    if j.csum2 || j.csum3 {
      var o := j.blocksize - 4;
      assert WithTail(j, b, sum)[o..o + 4] == Bytes32(sum);
      SliceWord(WithTail(j, b, sum), o, sum);
    }
  }
}
