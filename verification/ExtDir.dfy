/**
 The ext2 directory block parser (src/fs.c): a walk over raw bytes that collects
 the live entries.
 */
module ExtDir {

  type Byte = x: int | 0 <= x < 256

  const EXT4_MAX_REC_LEN: nat := 65535

  datatype DirEntry = DirEntry(inode: nat, fileType: Byte, name: seq<Byte>)

  function Get16(b: seq<Byte>, o: nat): nat
    requires o + 2 <= |b|
  {
    (b[o] as int) + 256 * (b[o + 1] as int)
  }

  function Get32(b: seq<Byte>, o: nat): nat
    requires o + 4 <= |b|
  {
    Get16(b, o) + 65536 * Get16(b, o + 2)
  }

  /** `(rec_len & 65532) | ((rec_len & 3) << 16)`. */
  function DecodeLen(raw: nat): nat {
    (raw - raw % 4) + (raw % 4) * 65536
  }

  predicate DotName(name: seq<Byte>) {
    name == [46] || name == [46, 46]
  }

  /** Whether the record header at `p` lets the walk go on. */
  predicate Walkable(b: seq<Byte>, p: nat)
    requires p + 8 < |b|
  {
    var raw := Get16(b, p + 4);
    && raw != EXT4_MAX_REC_LEN && raw != 0
    && DecodeLen(raw) >= 8 && DecodeLen(raw) % 4 == 0 && p + DecodeLen(raw) <= |b|
    && (b[p + 6] as int) + 8 <= DecodeLen(raw)
  }

  /** What the walk collects from offset `p` on. */
  function Parse(b: seq<Byte>, p: nat): seq<DirEntry>
    decreases |b| - p
  {
    if p + 8 >= |b| || !Walkable(b, p) then []
    else
      var rest := Parse(b, p + DecodeLen(Get16(b, p + 4)));
      var name := b[p + 8..p + 8 + (b[p + 6] as int)];
      if Get32(b, p) == 0 || DotName(name) || name == [] then rest
      else [DirEntry(Get32(b, p), b[p + 7], name)] + rest
  }

  /** `parse_ext2_dir`: total on any bytes, and it reads only inside the buffer. */
  method ParseExt2Dir(b: seq<Byte>, files: seq<DirEntry>) returns (r: seq<DirEntry>)
    ensures r == files + Parse(b, 0)
  {
    hide Get32, Get16, DecodeLen;
    r := files;
    var p := 0;
    while p < |b| - 8
      invariant 0 <= p && r + Parse(b, p) == files + Parse(b, 0)
      decreases |b| - p
    {
      var raw := Get16(b, p + 4);
      if raw == EXT4_MAX_REC_LEN || raw == 0 {
        break;
      }
      var recLen := DecodeLen(raw);
      if recLen < 8 || recLen % 4 != 0 || p + recLen > |b| {
        break;
      }
      if (b[p + 6] as int) + 8 > recLen {
        break;
      }
      var name := b[p + 8..p + 8 + (b[p + 6] as int)];
      if Get32(b, p) != 0 && !DotName(name) && name != [] {
        r := r + [DirEntry(Get32(b, p), b[p + 7], name)];
      }
      p := p + recLen;
    }
  }

  /** On any bytes, each entry collected is a live record lying wholly inside the buffer. */
  lemma {:induction false} ParseSound(b: seq<Byte>, p: nat, k: nat) returns (o: nat)
    requires k < |Parse(b, p)|
    ensures p <= o && EntryAt(b, o, Parse(b, p)[k])
    decreases |b| - p
  {
    hide Parse, Get32, Get16, DecodeLen, Walkable;
    var next := ParseStep(b, p);
    if |Parse(b, p)| == |Parse(b, next)| {
      o := ParseSound(b, next, k);
    } else if k == 0 {
      o := p;
    } else {
      o := ParseSound(b, next, k - 1);
    }
  }

  /** An entry is the record at `o`, and that record is live. */
  ghost predicate EntryAt(b: seq<Byte>, o: nat, e: DirEntry) {
    && o + 8 + |e.name| <= |b| && b[o + 8..o + 8 + |e.name|] == e.name
    && Get32(b, o) == e.inode && b[o + 7] == e.fileType && (b[o + 6] as int) == |e.name|
    && e.inode != 0 && e.name != [] && e.name != [46] && e.name != [46, 46]
  }

  lemma ParseStep(b: seq<Byte>, p: nat) returns (next: nat)
    requires Parse(b, p) != []
    ensures p < next <= |b|
    ensures Parse(b, p) == Parse(b, next) ||
      (|Parse(b, p)| == 1 + |Parse(b, next)| && Parse(b, p)[1..] == Parse(b, next) && EntryAt(b, p, Parse(b, p)[0]))
  {
    hide Get32, Get16, DecodeLen;
    next := p + DecodeLen(Get16(b, p + 4));
  }

  // -------------------------------------------------------- valid directories

  datatype Rec = Rec(inode: nat, fileType: Byte, name: seq<Byte>, recLen: nat)

  function EncodeLen(n: nat): nat {
    n % 65536 + n / 65536
  }

  /** A record the format allows, other than the two lengths the parser stops at. */
  predicate ValidRec(r: Rec) {
    && r.inode < 0x1_0000_0000 && |r.name| < 256
    && r.recLen % 4 == 0 && |r.name| + 8 <= r.recLen < 0x4_0000
    && EncodeLen(r.recLen) != 0 && EncodeLen(r.recLen) != 65535
  }

  lemma LenRoundTrip(n: nat)
    requires n % 4 == 0 && n < 0x4_0000
    ensures DecodeLen(EncodeLen(n)) == n && EncodeLen(n) < 65536
  {
    var hi, q := n / 65536, (n % 65536) / 4;
    assert n == hi * 65536 + 4 * q && q < 16384;
    hide DecodeLen;
    assert EncodeLen(n) == 4 * q + hi;
    DecodeOf(q, hi);
  }

  lemma DecodeOf(q: nat, hi: nat)
    requires hi < 4
    ensures DecodeLen(4 * q + hi) == 4 * q + hi * 65536
  {
    assert (4 * q + hi) % 4 == hi;
  }

  predicate Live(r: Rec) {
    r.inode != 0 && r.name != [] && r.name != [46] && r.name != [46, 46]
  }

  function Turn(r: Rec): seq<DirEntry> {
    if Live(r) then [DirEntry(r.inode, r.fileType, r.name)] else []
  }

  function LiveEntries(recs: seq<Rec>): seq<DirEntry> {
    if recs == [] then []
    else Turn(recs[0]) + LiveEntries(recs[1..])
  }

  /** The bytes at `p` are this record; the padding inside it is arbitrary. */
  ghost predicate RecAt(b: seq<Byte>, p: nat, r: Rec) {
    && ValidRec(r) && p + r.recLen <= |b|
    && Get32(b, p) == r.inode && Get16(b, p + 4) == EncodeLen(r.recLen)
    && (b[p + 6] as int) == |r.name| && b[p + 7] == r.fileType && b[p + 8..p + 8 + |r.name|] == r.name
  }

  /** Bytes `p` up to `q` are exactly these records. */
  ghost predicate Run(b: seq<Byte>, p: nat, recs: seq<Rec>, q: nat)
    decreases |recs|
  {
    if recs == [] then p == q else RecAt(b, p, recs[0]) && Run(b, p + recs[0].recLen, recs[1..], q)
  }

  /** Nothing is left to read at `q`: at most 8 bytes, or no valid record. */
  ghost predicate Stops(b: seq<Byte>, q: nat) {
    q + 8 >= |b| || forall r :: !RecAt(b, q, r)
  }

  /** The records a walk over these bytes meets. */
  ghost predicate Directory(b: seq<Byte>, recs: seq<Rec>) {
    exists q :: Run(b, 0, recs, q) && Stops(b, q)
  }

  /** What one turn of the walk does with a valid record. */
  lemma TurnAtRec(b: seq<Byte>, p: nat, r: Rec)
    requires RecAt(b, p, r) && p + 8 < |b|
    ensures Parse(b, p) == Turn(r) + Parse(b, p + r.recLen)
  {
    hide Get32, Get16, EncodeLen, DecodeLen;
    LenRoundTrip(r.recLen);
  }

  /** A last record of 8 bytes is never looked at, and has no name to lose. */
  lemma LastRec(b: seq<Byte>, p: nat, r: Rec)
    requires RecAt(b, p, r) && |b| <= p + 8
    ensures r.name == [] && p + r.recLen == |b| && Turn(r) == []
  {
  }

  /** Parsing a run of records up to where nothing is left yields exactly its live entries in order, even though the loop never looks at a final 8-byte record. */
  lemma {:induction false} ParseFindsLive(b: seq<Byte>, p: nat, recs: seq<Rec>, q: nat)
    requires Run(b, p, recs, q) && Stops(b, q)
    ensures Parse(b, p) == LiveEntries(recs)
    decreases |recs|
  {
    hide RecAt, Turn, Walkable, Get32, Get16, DecodeLen;
    if recs == [] {
      StopsParse(b, p);
    } else {
      var r := recs[0];
      ParseFindsLive(b, p + r.recLen, recs[1..], q);
      if p + 8 >= |b| {
        LastRec(b, p, r);
        NothingLeft(b, p);
        NothingLeft(b, p + r.recLen);
      } else {
        TurnAtRec(b, p, r);
      }
    }
  }

  lemma StopsParse(b: seq<Byte>, q: nat)
    requires Stops(b, q)
    ensures Parse(b, q) == []
  {
    hide Get32, Get16, DecodeLen, Walkable, RecAt;
    if q + 8 < |b| && Walkable(b, q) {
      var r := RecHere(b, q);
      assert false;
    }
  }

  lemma NothingLeft(b: seq<Byte>, p: nat)
    requires p + 8 >= |b|
    ensures Parse(b, p) == []
  {
  }

  // -------------------------------------------------------- arbitrary bytes

  lemma RawRoundTrip(raw: nat)
    requires raw < 65536
    ensures DecodeLen(raw) % 4 == 0 && DecodeLen(raw) < 0x4_0000 && EncodeLen(DecodeLen(raw)) == raw
  {
    var hi, q := raw % 4, raw / 4;
    assert raw == 4 * q + hi;
    DecodeOf(q, hi);
    assert (4 * q + hi * 65536) / 65536 == hi && (4 * q + hi * 65536) % 65536 == 4 * q;
  }

  /** The walk goes on exactly where a valid record lies. */
  lemma WalkableIsRec(b: seq<Byte>, p: nat, r: Rec)
    requires p + 8 < |b|
    ensures RecAt(b, p, r) ==> Walkable(b, p)
  {
    hide DecodeLen, EncodeLen, Get16, Get32;
    if RecAt(b, p, r) {
      LenRoundTrip(r.recLen);
    }
  }

  lemma RecHere(b: seq<Byte>, p: nat) returns (r: Rec)
    requires p + 8 < |b| && Walkable(b, p)
    ensures RecAt(b, p, r) && r.recLen >= 8
  {
    RawRoundTrip(Get16(b, p + 4));
    hide DecodeLen, EncodeLen;
    r := Rec(Get32(b, p), b[p + 7], b[p + 8..p + 8 + (b[p + 6] as int)], DecodeLen(Get16(b, p + 4)));
  }

  /**
   On any bytes the walk reads the longest run of valid records: it stops only at the last
   8 bytes, or where no valid record lies, and collects the live ones of the run in order.
   */
  lemma {:induction false} ParsePrefix(b: seq<Byte>, p: nat) returns (recs: seq<Rec>, q: nat)
    ensures Run(b, p, recs, q) && Parse(b, p) == LiveEntries(recs)
    ensures Stops(b, q)
    decreases |b| - p
  {
    hide Get32, Get16, DecodeLen, EncodeLen, Walkable, RecAt, Turn;
    if p + 8 >= |b| {
      recs, q := [], p;
    } else if Walkable(b, p) {
      var r := RecHere(b, p);
      var rest;
      rest, q := ParsePrefix(b, p + r.recLen);
      recs := [r] + rest;
      assert recs[1..] == rest;
      TurnAtRec(b, p, r);
    } else {
      recs, q := [], p;
      forall r: Rec ensures !RecAt(b, p, r) {
        WalkableIsRec(b, p, r);
      }
    }
  }

  /** A dot file is an entry; numbers are stored with the low byte first. */
  lemma DotFileSample()
    ensures RecAt([1, 2, 3, 4, 12, 0, 2, 1, 46, 120, 0, 0], 0, Rec(0x04030201, 1, [46, 120], 12))
    ensures Parse([1, 2, 3, 4, 12, 0, 2, 1, 46, 120, 0, 0], 0) == [DirEntry(0x04030201, 1, [46, 120])]
  {
    var b: seq<Byte> := [1, 2, 3, 4, 12, 0, 2, 1, 46, 120, 0, 0];
    var r := Rec(0x04030201, 1, [46, 120], 12);
    SampleRec(b, r);
    hide *;
    TurnAtRec(b, 0, r);
    NothingLeft(b, 12);
    OneTurn(r);
  }

  lemma SampleRec(b: seq<Byte>, r: Rec)
    requires b == [1, 2, 3, 4, 12, 0, 2, 1, 46, 120, 0, 0] && r == Rec(0x04030201, 1, [46, 120], 12)
    ensures RecAt(b, 0, r)
  {
    assert EncodeLen(12) == 12;
    hide EncodeLen;
    assert b[8..10] == [46, 120];
  }

  lemma OneTurn(r: Rec)
    requires r.inode != 0 && r.name != [] && r.name != [46] && r.name != [46, 46]
    ensures Turn(r) == [DirEntry(r.inode, r.fileType, r.name)]
  {
  }

  // ------------------------------------------------------------- an encoder

  function Put16(v: nat): seq<Byte> {
    [v % 256, (v / 256) % 256]
  }

  function Put32(v: nat): seq<Byte> {
    Put16(v % 65536) + Put16(v / 65536)
  }

  function Zeros(n: nat): (r: seq<Byte>)
    ensures |r| == n
  {
    if n == 0 then [] else [0] + Zeros(n - 1)
  }

  function Encode(r: Rec): (b: seq<Byte>)
    requires ValidRec(r)
    ensures |b| == r.recLen
  {
    Put32(r.inode) + Put16(EncodeLen(r.recLen)) + [|r.name|, r.fileType] + r.name + Zeros(r.recLen - 8 - |r.name|)
  }

  function EncodeAll(recs: seq<Rec>): seq<Byte>
    requires forall r :: r in recs ==> ValidRec(r)
  {
    if recs == [] then [] else Encode(recs[0]) + EncodeAll(recs[1..])
  }

  lemma Put16Value(v: nat)
    requires v < 65536
    ensures |Put16(v)| == 2 && Get16(Put16(v), 0) == v
  {
  }

  lemma Get16Same(b: seq<Byte>, o: nat, c: seq<Byte>, q: nat)
    requires o + 2 <= |b| && q + 2 <= |c| && b[o..o + 2] == c[q..q + 2]
    ensures Get16(b, o) == Get16(c, q)
  {
    assert b[o..o + 2][0] == c[q..q + 2][0] && b[o..o + 2][1] == c[q..q + 2][1];
  }

  /** A slice of a slice. */
  lemma SubSlice(b: seq<Byte>, p: nat, e: seq<Byte>, i: nat, j: nat)
    requires p + |e| <= |b| && b[p..p + |e|] == e && i <= j <= |e|
    ensures b[p + i..p + j] == e[i..j]
  {
    assert e == b[p..p + |e|];
    assert forall k :: i <= k < j ==> e[k] == b[p + k];
    assert |b[p + i..p + j]| == |e[i..j]|;
    forall k | 0 <= k < j - i ensures b[p + i..p + j][k] == e[i..j][k] {
      assert e[i + k] == b[p + (i + k)];
    }
  }

  lemma EncodeParts(r: Rec)
    requires ValidRec(r)
    ensures EncodeLen(r.recLen) < 65536 && |Put16(r.inode % 65536)| == 2
    ensures Encode(r)[0..2] == Put16(r.inode % 65536)[0..2]
    ensures Encode(r)[2..4] == Put16(r.inode / 65536)[0..2]
    ensures Encode(r)[4..6] == Put16(EncodeLen(r.recLen))[0..2]
    ensures Encode(r)[6..8] == [|r.name|, r.fileType]
    ensures Encode(r)[8..8 + |r.name|] == r.name
  {
    LenRoundTrip(r.recLen);
    hide EncodeLen;
  }

  lemma EncodeReads(b: seq<Byte>, p: nat, r: Rec)
    requires ValidRec(r) && p + r.recLen <= |b| && b[p..p + r.recLen] == Encode(r)
    ensures RecAt(b, p, r)
  {
    hide Get16, Put16, EncodeLen, Encode;
    var e := Encode(r);
    var lo, hi := r.inode % 65536, r.inode / 65536;
    EncodeParts(r);
    SubSlice(b, p, e, 0, 2);
    SubSlice(b, p, e, 2, 4);
    SubSlice(b, p, e, 4, 6);
    SubSlice(b, p, e, 6, 8);
    SubSlice(b, p, e, 8, 8 + |r.name|);
    Put16Value(lo);
    Put16Value(hi);
    Put16Value(EncodeLen(r.recLen));
    Get16Same(b, p, Put16(lo), 0);
    Get16Same(b, p + 2, Put16(hi), 0);
    Get16Same(b, p + 4, Put16(EncodeLen(r.recLen)), 0);
    assert b[p + 6] == b[p + 6..p + 8][0] && b[p + 7] == b[p + 6..p + 8][1];
  }

  lemma EncodeAllStep(b: seq<Byte>, p: nat, recs: seq<Rec>)
    requires recs != [] && (forall r :: r in recs ==> ValidRec(r))
    requires p <= |b| && b[p..] == EncodeAll(recs)
    ensures forall r :: r in recs[1..] ==> ValidRec(r)
    ensures p + recs[0].recLen <= |b|
    ensures b[p..p + recs[0].recLen] == Encode(recs[0]) && b[p + recs[0].recLen..] == EncodeAll(recs[1..])
  {
    hide Encode, ValidRec;
    assert forall r :: r in recs[1..] ==> r in recs;
    var n := recs[0].recLen;
    assert |b[p..]| == n + |EncodeAll(recs[1..])|;
    assert b[p..][..n] == Encode(recs[0]) && b[p..][n..] == EncodeAll(recs[1..]);
    assert b[p..][..n] == b[p..p + n] && b[p..][n..] == b[p + n..];
  }

  lemma {:induction false} EncodeRun(b: seq<Byte>, p: nat, recs: seq<Rec>)
    requires forall r :: r in recs ==> ValidRec(r)
    requires p <= |b| && b[p..] == EncodeAll(recs)
    ensures Run(b, p, recs, |b|)
    decreases |recs|
  {
    hide RecAt, Encode, ValidRec;
    if recs != [] {
      EncodeAllStep(b, p, recs);
      EncodeReads(b, p, recs[0]);
      EncodeRun(b, p + recs[0].recLen, recs[1..]);
    }
  }

  /** Round trip: parsing an encoded directory returns its live entries. */
  lemma ParseEncode(recs: seq<Rec>)
    requires forall r :: r in recs ==> ValidRec(r)
    ensures Parse(EncodeAll(recs), 0) == LiveEntries(recs)
  {
    assert EncodeAll(recs)[0..] == EncodeAll(recs);
    EncodeRun(EncodeAll(recs), 0, recs);
    ParseFindsLive(EncodeAll(recs), 0, recs, |EncodeAll(recs)|);
  }
}
