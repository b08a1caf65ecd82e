/**
 The hidden-file search (src/fhf.c): the directory's blocks are dumped into one
 buffer with a pointer per extent, each extent is parsed as raw records, and the
 names found there are compared with the names the kernel lists.
 */
module HiddenFiles {
  import opened ExtDir
  import opened Machine

  /** The value that opens an extent in the block list (`(uint64_t) -1` in the source). */
  const MARK: int := -1

  // ------------------------------------------------------ dumping the blocks

  predicate Readable(disk: seq<Byte>, base: nat, unit: nat, b: int) {
    unit > 0 && 0 <= b && base + b * unit + unit <= |disk|
  }

  predicate AllReadable(disk: seq<Byte>, base: nat, unit: nat, nums: seq<int>) {
    forall b :: b in nums && b != MARK ==> Readable(disk, base, unit, b)
  }

  function BlockAt(disk: seq<Byte>, base: nat, unit: nat, b: int): (r: seq<Byte>)
    requires Readable(disk, base, unit, b)
    ensures |r| == unit
  {
    disk[base + b * unit..base + b * unit + unit]
  }

  /** The named blocks, one behind the other. */
  function Bytes(disk: seq<Byte>, base: nat, unit: nat, nums: seq<int>): (r: seq<Byte>)
    requires AllReadable(disk, base, unit, nums)
    ensures |r| == Count(nums) * unit
  {
    if nums == [] then []
    else if nums[0] == MARK then Bytes(disk, base, unit, nums[1..])
    else
      OneMore(Count(nums[1..]), unit);
      BlockAt(disk, base, unit, nums[0]) + Bytes(disk, base, unit, nums[1..])
  }

  /** At offset `at` these bytes are block `b` of the device, whose blocks start at byte `base`. */
  ghost predicate Placed(disk: seq<Byte>, base: nat, unit: nat, b: int, bytes: seq<Byte>, at: nat) {
    && 0 < unit && 0 <= b && base + b * unit + unit <= |disk| && at + unit <= |bytes|
    && bytes[at..at + unit] == disk[base + b * unit..base + b * unit + unit]
  }

  /** These bytes are the device's blocks of those numbers, one behind the other. */
  ghost predicate Dumped(disk: seq<Byte>, base: nat, unit: nat, blocks: seq<int>, bytes: seq<Byte>) {
    |bytes| == |blocks| * unit && forall i :: 0 <= i < |blocks| ==> Placed(disk, base, unit, blocks[i], bytes, i * unit)
  }

  /** The block list without the values that open an extent. */
  function NoMarks(nums: seq<int>): (r: seq<int>)
    ensures |r| == Count(nums)
  {
    if nums == [] then [] else (if nums[0] == -1 then [] else [nums[0]]) + NoMarks(nums[1..])
  }

  lemma PlacedBehind(disk: seq<Byte>, base: nat, unit: nat, b: int, head: seq<Byte>, tail: seq<Byte>, at: nat)
    ensures Placed(disk, base, unit, b, head + tail, |head| + at) <==> Placed(disk, base, unit, b, tail, at)
  {
    if at + unit <= |tail| {
      assert (head + tail)[|head| + at..|head| + at + unit] == tail[at..at + unit];
    }
  }

  /** A dump of some blocks is a dump of the first, followed by a dump of the others. */
  lemma DumpedStep(disk: seq<Byte>, base: nat, unit: nat, blocks: seq<int>, head: seq<Byte>, tail: seq<Byte>)
    requires blocks != [] && |head| == unit
    ensures Dumped(disk, base, unit, blocks, head + tail) <==>
            Placed(disk, base, unit, blocks[0], head + tail, 0) && Dumped(disk, base, unit, blocks[1..], tail)
  {
    hide Placed;
    OneMore(|blocks| - 1, unit);
    forall i | 0 < i < |blocks|
      ensures Placed(disk, base, unit, blocks[i], head + tail, i * unit) <==> Placed(disk, base, unit, blocks[1..][i - 1], tail, (i - 1) * unit)
    {
      OneMore(i - 1, unit);
      PlacedBehind(disk, base, unit, blocks[i], head, tail, (i - 1) * unit);
    }
    assert forall i :: 0 <= i < |blocks[1..]| ==> blocks[1..][i] == blocks[i + 1];
    assert 0 * unit == 0;
  }

  /** The bytes of a readable list are its dump, and nothing else is. */
  lemma {:induction false} BytesExact(disk: seq<Byte>, base: nat, unit: nat, nums: seq<int>, bytes: seq<Byte>)
    requires AllReadable(disk, base, unit, nums)
    ensures Dumped(disk, base, unit, NoMarks(nums), bytes) <==> bytes == Bytes(disk, base, unit, nums)
    decreases |nums|
  {
    hide Placed, Readable, BlockAt, Dumped;
    if nums == [] {
      NoneDumped(disk, base, unit, bytes);
    } else if nums[0] == MARK {
      BytesExact(disk, base, unit, nums[1..], bytes);
      assert [] + NoMarks(nums[1..]) == NoMarks(nums[1..]);
    } else {
      var rest := NoMarks(nums[1..]);
      assert NoMarks(nums) == [nums[0]] + rest && ([nums[0]] + rest)[1..] == rest;
      OneMore(|rest|, unit);
      if |bytes| == |NoMarks(nums)| * unit {
        var head, tail := bytes[..unit], bytes[unit..];
        assert bytes == head + tail;
        DumpedStep(disk, base, unit, NoMarks(nums), head, tail);
        BytesExact(disk, base, unit, nums[1..], tail);
        FirstBlock(disk, base, unit, nums[0], head, tail);
        assert bytes == Bytes(disk, base, unit, nums) <==>
               head == BlockAt(disk, base, unit, nums[0]) && tail == Bytes(disk, base, unit, nums[1..]);
      } else {
        DumpedLength(disk, base, unit, NoMarks(nums), bytes);
      }
    }
  }

  lemma NoneDumped(disk: seq<Byte>, base: nat, unit: nat, bytes: seq<Byte>)
    ensures Dumped(disk, base, unit, [], bytes) <==> bytes == []
  {
  }

  lemma DumpedLength(disk: seq<Byte>, base: nat, unit: nat, blocks: seq<int>, bytes: seq<Byte>)
    ensures Dumped(disk, base, unit, blocks, bytes) ==> |bytes| == |blocks| * unit
  {
  }

  lemma FirstBlock(disk: seq<Byte>, base: nat, unit: nat, b: int, head: seq<Byte>, tail: seq<Byte>)
    requires Readable(disk, base, unit, b) && |head| == unit
    ensures Placed(disk, base, unit, b, head + tail, 0) <==> head == BlockAt(disk, base, unit, b)
  {
    assert (head + tail)[0..0 + unit] == head;
  }

  lemma {:induction false} NoMarksSame(g: seq<int>)
    requires MARK !in g
    ensures NoMarks(g) == g
  {
    if g != [] {
      NoMarksSame(g[1..]);
    }
  }

  lemma OneMore(k: nat, unit: nat)
    ensures (1 + k) * unit == unit + k * unit
  {
  }

  function Count(nums: seq<int>): nat {
    if nums == [] then 0 else (if nums[0] == MARK then 0 else 1) + Count(nums[1..])
  }

  /** Where each extent starts in the buffer, the first block going to offset `at`. */
  function Pointers(nums: seq<int>, unit: nat, at: nat): seq<nat> {
    if nums == [] then []
    else if nums[0] == MARK then [at] + Pointers(nums[1..], unit, at)
    else Pointers(nums[1..], unit, at + unit)
  }

  lemma ReadFits(k: nat, count: nat, unit: nat)
    requires k < count
    ensures k * unit + unit <= count * unit
  {
    assert (k + 1) * unit <= count * unit;
  }

  /** One block read into the buffer (`fread` of one unit). */
  method ReadBlock(disk: seq<Byte>, base: nat, unit: nat, b: int, mem: array<Byte>, at: nat)
    requires Readable(disk, base, unit, b) && at + unit <= mem.Length
    modifies mem
    ensures mem[..at + unit] == old(mem[..at]) + BlockAt(disk, base, unit, b)
  {
    var i := 0;
    var off := base + b * unit;
    ghost var was := mem[..at];
    while i < unit
      invariant 0 <= i <= unit
      invariant forall k :: 0 <= k < at ==> mem[k] == was[k]
      invariant forall k :: at <= k < at + i ==> mem[k] == disk[off + (k - at)]
    {
      mem[at + i] := disk[off + i];
      i := i + 1;
    }
    Assembled(mem[..at + unit], was, BlockAt(disk, base, unit, b));
  }

  lemma Assembled(whole: seq<Byte>, head: seq<Byte>, tail: seq<Byte>)
    requires |whole| == |head| + |tail|
    requires forall k :: 0 <= k < |head| ==> whole[k] == head[k]
    requires forall k :: |head| <= k < |whole| ==> whole[k] == tail[k - |head|]
    ensures whole == head + tail
  {
  }

  lemma CountMonotone(nums: seq<int>, k: nat)
    requires k < |nums|
    ensures Count(nums[..k]) + (if nums[k] == MARK then 0 else 1) == Count(nums[..k + 1]) <= Count(nums)
    decreases |nums|
  {
    assert nums[..k + 1][1..] == nums[1..][..k];
    if k > 0 {
      assert nums[..k][1..] == nums[1..][..k - 1];
      CountMonotone(nums[1..], k - 1);
    }
  }

  /**
   `dump_blocks`: `blkcount` sizes the buffer, and the block list must not name
   more blocks than that. Fails exactly when some named block cannot be read.
   */
  method DumpBlocks(disk: seq<Byte>, base: nat, unit: nat, nums: seq<int>, blkcount: nat)
    returns (ok: bool, mem: array<Byte>, pointers: seq<nat>)
    requires Count(nums) <= blkcount
    ensures ok <==> forall b :: b in nums && b != -1 ==> 0 < unit && 0 <= b && base + b * unit + unit <= |disk|
    ensures fresh(mem) && mem.Length == unit * blkcount
    ensures Count(nums) * unit <= mem.Length
    ensures ok ==> Dumped(disk, base, unit, NoMarks(nums), mem[..Count(nums) * unit])
    ensures ok ==> pointers == Pointers(nums, unit, 0)
  {
    hide Bytes, Count, Pointers, BlockAt, Dumped, NoMarks;
    CountFits(Count(nums), blkcount, unit);
    mem := new Byte[unit * blkcount];
    pointers := [];
    var n, j := 0, 0;
    TakeNone(disk, base, unit, nums);
    while n < |nums|
      invariant 0 <= n <= |nums| && j == Count(nums[..n]) <= Count(nums)
      invariant AllReadable(disk, base, unit, nums[..n])
      invariant j * unit <= mem.Length
      invariant mem[..j * unit] == Bytes(disk, base, unit, nums[..n])
      invariant pointers + Pointers(nums[n..], unit, j * unit) == Pointers(nums, unit, 0)
    {
      var bno := nums[n];
      CountMonotone(nums, n);
      PointersStep(nums, n, unit, j * unit);
      if bno == MARK {
        TakeOneMore(disk, base, unit, nums, n);
        pointers := pointers + [j * unit];
        n := n + 1;
        continue;
      }
      if !Readable(disk, base, unit, bno) {
        assert bno in nums;
        return false, mem, pointers;
      }
      ReadFits(j, blkcount, unit);
      assert unit * blkcount == blkcount * unit && (j + 1) * unit == j * unit + unit;
      ReadBlock(disk, base, unit, bno, mem, j * unit);
      TakeOneMore(disk, base, unit, nums, n);
      j := j + 1;
      n := n + 1;
    }
    assert nums[..n] == nums;
    PointersNone(nums[n..], unit, j * unit);
    assert pointers + [] == pointers;
    BytesExact(disk, base, unit, nums, mem[..j * unit]);
    ok := true;
  }

  lemma CountFits(count: nat, blkcount: nat, unit: nat)
    requires count <= blkcount
    ensures count * unit <= unit * blkcount
  {
  }

  lemma PointersNone(nums: seq<int>, unit: nat, at: nat)
    requires nums == []
    ensures Pointers(nums, unit, at) == []
  {
  }

  lemma BytesLength(disk: seq<Byte>, base: nat, unit: nat, nums: seq<int>)
    requires AllReadable(disk, base, unit, nums)
    ensures |Bytes(disk, base, unit, nums)| == Count(nums) * unit
  {
  }

  lemma TakeNone(disk: seq<Byte>, base: nat, unit: nat, nums: seq<int>)
    ensures AllReadable(disk, base, unit, nums[..0]) && Bytes(disk, base, unit, nums[..0]) == []
    ensures Count(nums[..0]) == 0 && nums[0..] == nums
  {
  }

  lemma PointersStep(nums: seq<int>, n: nat, unit: nat, at: nat)
    requires n < |nums|
    ensures nums[n] == MARK ==> Pointers(nums[n..], unit, at) == [at] + Pointers(nums[n + 1..], unit, at)
    ensures nums[n] != MARK ==> Pointers(nums[n..], unit, at) == Pointers(nums[n + 1..], unit, at + unit)
  {
    assert nums[n..][1..] == nums[n + 1..];
  }

  lemma TakeOneMore(disk: seq<Byte>, base: nat, unit: nat, nums: seq<int>, n: nat)
    requires n < |nums| && AllReadable(disk, base, unit, nums[..n])
    requires nums[n] == MARK || Readable(disk, base, unit, nums[n])
    ensures AllReadable(disk, base, unit, nums[..n + 1])
    ensures nums[n] == MARK ==> Bytes(disk, base, unit, nums[..n + 1]) == Bytes(disk, base, unit, nums[..n])
    ensures nums[n] != MARK ==> Bytes(disk, base, unit, nums[..n + 1]) == Bytes(disk, base, unit, nums[..n]) + BlockAt(disk, base, unit, nums[n])
  {
    hide BlockAt, Bytes, Readable;
    assert nums[..n + 1] == nums[..n] + [nums[n]];
    BytesJoin(disk, base, unit, nums[..n], [nums[n]]);
    BytesOne(disk, base, unit, nums[n]);
  }

  lemma BytesOne(disk: seq<Byte>, base: nat, unit: nat, b: int)
    requires b == MARK || Readable(disk, base, unit, b)
    ensures AllReadable(disk, base, unit, [b])
    ensures Bytes(disk, base, unit, [b]) == if b == MARK then [] else BlockAt(disk, base, unit, b)
  {
    hide BlockAt;
    assert [b][1..] == [];
    if b != MARK {
      assert BlockAt(disk, base, unit, b) + [] == BlockAt(disk, base, unit, b);
    }
  }

  lemma {:induction false} BytesJoin(disk: seq<Byte>, base: nat, unit: nat, a: seq<int>, c: seq<int>)
    requires AllReadable(disk, base, unit, a) && AllReadable(disk, base, unit, c)
    ensures AllReadable(disk, base, unit, a + c)
    ensures Bytes(disk, base, unit, a + c) == Bytes(disk, base, unit, a) + Bytes(disk, base, unit, c)
    decreases |a|
  {
    hide BlockAt, Readable;
    if a == [] {
      assert a + c == c;
    } else {
      assert (a + c)[1..] == a[1..] + c;
      BytesJoin(disk, base, unit, a[1..], c);
    }
  }

  // ------------------------------------------------------ extents of the list

  /** The block list of a file with these extents. */
  function Listed(extents: seq<seq<int>>): seq<int> {
    if extents == [] then [] else [MARK] + extents[0] + Listed(extents[1..])
  }

  ghost predicate Blocks(extents: seq<seq<int>>) {
    forall g :: g in extents ==> MARK !in g
  }

  /** Bytes from pointer `i` to the next pointer, or to the end of the dump. */
  function SegmentEnd(pointers: seq<nat>, datalen: nat, i: nat): nat
    requires i < |pointers|
  {
    if i + 1 < |pointers| then pointers[i + 1] else pointers[0] + datalen
  }

  lemma {:induction false} PointersPast(g: seq<int>, rest: seq<int>, unit: nat, at: nat)
    requires MARK !in g
    ensures Count(g) == |g|
    ensures Pointers(g + rest, unit, at) == Pointers(rest, unit, at + |g| * unit)
    decreases |g|
  {
    if g == [] {
      assert g + rest == rest;
    } else {
      assert (g + rest)[1..] == g[1..] + rest;
      PointersPast(g[1..], rest, unit, at + unit);
      assert at + unit + |g[1..]| * unit == at + |g| * unit;
    }
  }

  lemma PointersListed(extents: seq<seq<int>>, unit: nat, at: nat)
    requires Blocks(extents) && extents != []
    ensures Blocks(extents[1..])
    ensures Pointers(Listed(extents), unit, at) == [at] + Pointers(Listed(extents[1..]), unit, at + |extents[0]| * unit)
  {
    hide *;
    var g, rest := extents[0], Listed(extents[1..]);
    BlocksStep(extents);
    ListedStep(extents);
    PointersMark(g + rest, unit, at);
    PointersPast(g, rest, unit, at);
  }

  lemma ListedStep(extents: seq<seq<int>>)
    requires extents != []
    ensures Listed(extents) == [MARK] + (extents[0] + Listed(extents[1..]))
  {
  }

  lemma PointersMark(nums: seq<int>, unit: nat, at: nat)
    ensures Pointers([MARK] + nums, unit, at) == [at] + Pointers(nums, unit, at)
  {
    assert ([MARK] + nums)[1..] == nums;
  }

  /** The pointer of extent `i`: all the blocks of the extents before it. */
  function Before(extents: seq<seq<int>>, unit: nat, i: nat): nat
    requires i <= |extents|
  {
    if i == 0 then 0 else |extents[0]| * unit + Before(extents[1..], unit, i - 1)
  }

  lemma {:induction false} PointersAt(extents: seq<seq<int>>, unit: nat, at: nat)
    requires Blocks(extents)
    ensures |Pointers(Listed(extents), unit, at)| == |extents|
    ensures forall i :: 0 <= i < |extents| ==> Pointers(Listed(extents), unit, at)[i] == at + Before(extents, unit, i)
    decreases |extents|
  {
    hide Pointers, Listed;
    if extents != [] {
      PointersListed(extents, unit, at);
      PointersAt(extents[1..], unit, at + |extents[0]| * unit);
    } else {
      ListedNone(extents, unit, at);
    }
  }

  lemma ListedNone(extents: seq<seq<int>>, unit: nat, at: nat)
    requires extents == []
    ensures Pointers(Listed(extents), unit, at) == []
  {
  }

  lemma ListedReads(disk: seq<Byte>, base: nat, unit: nat, extents: seq<seq<int>>)
    requires AllReadable(disk, base, unit, Listed(extents)) && extents != []
    ensures AllReadable(disk, base, unit, extents[0]) && AllReadable(disk, base, unit, Listed(extents[1..]))
    ensures Bytes(disk, base, unit, Listed(extents)) == Bytes(disk, base, unit, extents[0]) + Bytes(disk, base, unit, Listed(extents[1..]))
  {
    hide Readable, BlockAt;
    var g, rest := extents[0], Listed(extents[1..]);
    assert Listed(extents) == [MARK] + (g + rest);
    assert Listed(extents)[1..] == g + rest;
    assert forall b :: b in g ==> b in Listed(extents);
    assert forall b :: b in rest ==> b in Listed(extents);
    BytesJoin(disk, base, unit, g, rest);
  }

  /** The pointers partition the dump: the bytes between two of them are exactly that extent's blocks. */
  lemma {:induction false} SegmentIsExtent(disk: seq<Byte>, base: nat, unit: nat, extents: seq<seq<int>>, i: nat)
    requires Blocks(extents) && AllReadable(disk, base, unit, Listed(extents)) && i < |extents|
    ensures AllReadable(disk, base, unit, extents[i])
    ensures Before(extents, unit, i) <= Before(extents, unit, i + 1) <= |Bytes(disk, base, unit, Listed(extents))|
    ensures Bytes(disk, base, unit, Listed(extents))[Before(extents, unit, i)..Before(extents, unit, i + 1)] == Bytes(disk, base, unit, extents[i])
    ensures Dumped(disk, base, unit, extents[i], Bytes(disk, base, unit, Listed(extents))[Before(extents, unit, i)..Before(extents, unit, i + 1)])
    ensures i + 1 == |extents| ==> Before(extents, unit, i + 1) == |Bytes(disk, base, unit, Listed(extents))|
    decreases |extents|
  {
    hide *;
    ListedReads(disk, base, unit, extents);
    BlocksStep(extents);
    var g := extents[0];
    PointersPast(g, [], unit, 0);
    var head, tail := Bytes(disk, base, unit, g), Bytes(disk, base, unit, Listed(extents[1..]));
    assert |head| == |g| * unit;
    BeforeStep(extents, unit, i);
    BeforeStep(extents, unit, i + 1);
    BeforeStep(extents[1..], unit, 0);
    if i == 0 {
      assert (head + tail)[0..|head|] == head;
      NoMarksSame(g);
      BytesExact(disk, base, unit, g, head);
      if |extents| == 1 {
        ListedNoBytes(disk, base, unit, extents[1..]);
      }
    } else {
      SegmentIsExtent(disk, base, unit, extents[1..], i - 1);
      var x, y := Before(extents[1..], unit, i - 1), Before(extents[1..], unit, i);
      TailSlice(head, tail, x, y);
    }
  }

  lemma TailSlice(head: seq<Byte>, tail: seq<Byte>, x: nat, y: nat)
    requires x <= y <= |tail|
    ensures (head + tail)[|head| + x..|head| + y] == tail[x..y]
  {
  }

  lemma BlocksStep(extents: seq<seq<int>>)
    requires Blocks(extents) && extents != []
    ensures MARK !in extents[0] && Blocks(extents[1..])
  {
    assert extents[0] in extents;
    assert forall h :: h in extents[1..] ==> h in extents;
  }

  lemma BeforeStep(extents: seq<seq<int>>, unit: nat, i: nat)
    requires i <= |extents|
    ensures i == 0 ==> Before(extents, unit, i) == 0
    ensures i > 0 ==> Before(extents, unit, i) == |extents[0]| * unit + Before(extents[1..], unit, i - 1)
  {
  }

  lemma ListedNoBytes(disk: seq<Byte>, base: nat, unit: nat, extents: seq<seq<int>>)
    requires extents == []
    ensures AllReadable(disk, base, unit, Listed(extents)) && Bytes(disk, base, unit, Listed(extents)) == []
  {
  }

  // ---------------------------------------------------------- comparing names

  /** A name as `strcmp` sees it. */
  function CString(name: seq<Byte>): (r: seq<Byte>)
    ensures |r| <= |name| && r == name[..|r|] && 0 !in r
    ensures |r| < |name| ==> name[|r|] == 0
  {
    if name == [] || name[0] == 0 then [] else [name[0]] + CString(name[1..])
  }

  /** Some entry carries this name. */
  ghost predicate Named(entries: seq<DirEntry>, name: seq<Byte>) {
    exists e :: e in entries && CString(e.name) == name
  }

  ghost predicate Lists(listing: seq<DirEntry>, name: seq<Byte>) {
    Named(listing, CString(name))
  }

  /** `vector_dirent_index`. */
  method IndexOf(listing: seq<DirEntry>, name: seq<Byte>) returns (n: int)
    ensures n == -1 <==> !Lists(listing, name)
    ensures n != -1 ==> 0 <= n < |listing| && CString(listing[n].name) == CString(name)
    ensures n != -1 ==> forall k :: 0 <= k < n ==> CString(listing[k].name) != CString(name)
  {
    n := 0;
    while n < |listing|
      invariant 0 <= n <= |listing|
      invariant forall k :: 0 <= k < n ==> CString(listing[k].name) != CString(name)
    {
      if CString(name) == CString(listing[n].name) {
        assert listing[n] in listing;
        return;
      }
      n := n + 1;
    }
    n := -1;
  }

  /** The raw entries that the listing lacks, in order. */
  ghost function Missing(raw: seq<DirEntry>, listing: seq<DirEntry>): seq<DirEntry> {
    if raw == [] then []
    else
      var rest := Missing(raw[..|raw| - 1], listing);
      if Lists(listing, raw[|raw| - 1].name) then rest else rest + [raw[|raw| - 1]]
  }

  /** `vector_dirent_cmp`. */
  method Compare(raw: seq<DirEntry>, listing: seq<DirEntry>) returns (hidden: seq<DirEntry>)
    ensures hidden == Missing(raw, listing)
  {
    hidden := [];
    var n := 0;
    while n < |raw|
      invariant 0 <= n <= |raw| && hidden == Missing(raw[..n], listing)
    {
      var index := IndexOf(listing, raw[n].name);
      assert raw[..n + 1][..n] == raw[..n];
      if index == -1 {
        hidden := hidden + [raw[n]];
      }
      n := n + 1;
    }
    assert raw[..n] == raw;
  }

  lemma {:induction false} MissingExact(raw: seq<DirEntry>, listing: seq<DirEntry>, e: DirEntry)
    ensures e in Missing(raw, listing) <==> e in raw && !Lists(listing, e.name)
    decreases |raw|
  {
    hide Lists;
    if raw != [] {
      var n := |raw| - 1;
      assert raw == raw[..n] + [raw[n]];
      MissingExact(raw[..n], listing, e);
    }
  }

  /** Each one is reported as often as it was found. */
  lemma {:induction false} MissingCounts(raw: seq<DirEntry>, listing: seq<DirEntry>, e: DirEntry)
    ensures multiset(Missing(raw, listing))[e] == if Lists(listing, e.name) then 0 else multiset(raw)[e]
    decreases |raw|
  {
    hide Lists;
    if raw != [] {
      var n := |raw| - 1;
      assert raw == raw[..n] + [raw[n]];
      MissingCounts(raw[..n], listing, e);
    }
  }

  // --------------------------------------------------------- the whole search

  /** What all the segments yield, in order. */
  function ParseSegments(b: seq<Byte>, pointers: seq<nat>, datalen: nat, n: nat): seq<DirEntry>
    requires n <= |pointers| && InBuffer(b, pointers, datalen)
  {
    if n == 0 then []
    else
      ParseSegments(b, pointers, datalen, n - 1)
      + Parse(Segment(b, pointers, datalen, n - 1), 0)
  }

  lemma LowBits(x: nat)
    ensures U32(x) <= x
  {
  }

  /** The bytes handed to the parser: its length argument has 32 bits. */
  function Segment(b: seq<Byte>, pointers: seq<nat>, datalen: nat, i: nat): (r: seq<Byte>)
    requires i < |pointers| && InBuffer(b, pointers, datalen)
  {
    assert pointers[i] <= SegmentEnd(pointers, datalen, i) <= |b|;
    LowBits(SegmentEnd(pointers, datalen, i) - pointers[i]);
    b[pointers[i]..pointers[i] + U32(SegmentEnd(pointers, datalen, i) - pointers[i])]
  }

  predicate InBuffer(b: seq<Byte>, pointers: seq<nat>, datalen: nat) {
    forall i :: 0 <= i < |pointers| ==> pointers[i] <= SegmentEnd(pointers, datalen, i) <= |b|
  }

  datatype FsKind = Ext | Unsupported

  /** `find_hidden_files` for an ext file system; the listing of `do_dir` is a parameter. */
  method FindHidden(kind: FsKind, b: seq<Byte>, pointers: seq<nat>, datalen: nat, listing: seq<DirEntry>)
    returns (ret: int, raw: seq<DirEntry>, hidden: seq<DirEntry>)
    requires InBuffer(b, pointers, datalen)
    ensures ret == if pointers == [] || kind.Unsupported? then 1 else 0
    ensures ret != 0 ==> raw == [] && hidden == []
    ensures ret == 0 ==> raw == ParseSegments(b, pointers, datalen, |pointers|) && hidden == Missing(raw, listing)
  {
    hide Segment, Parse;
    raw, hidden := [], [];
    if pointers == [] {
      return 1, raw, hidden;
    }
    var i := 0;
    while i < |pointers|
      invariant 0 <= i <= |pointers| && (i > 0 ==> kind.Ext?)
      invariant raw == ParseSegments(b, pointers, datalen, i)
    {
      if kind.Unsupported? {
        return 1, raw, hidden;
      }
      raw := ParseExt2Dir(Segment(b, pointers, datalen, i), raw);
      i := i + 1;
    }
    hidden := Compare(raw, listing);
    ret := 0;
  }

  /** The blocks of this extent, less than 4 GiB of them, hold these records up to where no more can be read. */
  ghost predicate ExtentHolds(disk: seq<Byte>, base: nat, unit: nat, blocks: seq<int>, recs: seq<Rec>) {
    exists bytes :: Dumped(disk, base, unit, blocks, bytes) && |bytes| < 0x1_0000_0000 && Directory(bytes, recs)
  }

  ghost predicate HoldsAll(disk: seq<Byte>, base: nat, unit: nat, extents: seq<seq<int>>, recs: seq<seq<Rec>>) {
    |recs| == |extents| && forall i :: 0 <= i < |extents| ==> ExtentHolds(disk, base, unit, extents[i], recs[i])
  }

  /** What a walk over the extent's bytes collects. */
  lemma ExtentParses(disk: seq<Byte>, base: nat, unit: nat, blocks: seq<int>, recs: seq<Rec>)
    requires MARK !in blocks && AllReadable(disk, base, unit, blocks) && ExtentHolds(disk, base, unit, blocks, recs)
    ensures |Bytes(disk, base, unit, blocks)| < 0x1_0000_0000
    ensures Parse(Bytes(disk, base, unit, blocks), 0) == LiveEntries(recs)
  {
    hide AllReadable, Bytes, Dumped, Parse, LiveEntries, Run, Stops, NoMarks;
    var bytes :| Dumped(disk, base, unit, blocks, bytes) && |bytes| < 0x1_0000_0000 && Directory(bytes, recs);
    NoMarksSame(blocks);
    BytesExact(disk, base, unit, blocks, bytes);
    var q :| Run(bytes, 0, recs, q) && Stops(bytes, q);
    ParseFindsLive(bytes, 0, recs, q);
  }

  /** Whatever the blocks hold, there are such records. */
  lemma {:induction false} SomeRecords(disk: seq<Byte>, base: nat, unit: nat, extents: seq<seq<int>>) returns (recs: seq<seq<Rec>>)
    requires Blocks(extents) && forall g :: g in extents ==> AllReadable(disk, base, unit, g) && |g| * unit < 0x1_0000_0000
    ensures HoldsAll(disk, base, unit, extents, recs)
    decreases |extents|
  {
    hide AllReadable, ExtentHolds;
    if extents == [] {
      recs := [];
    } else {
      BlocksStep(extents);
      var rest := SomeRecords(disk, base, unit, extents[1..]);
      var first := SomeRun(disk, base, unit, extents[0]);
      recs := [first] + rest;
    }
  }

  lemma SomeRun(disk: seq<Byte>, base: nat, unit: nat, g: seq<int>) returns (recs: seq<Rec>)
    requires MARK !in g && AllReadable(disk, base, unit, g) && |g| * unit < 0x1_0000_0000
    ensures ExtentHolds(disk, base, unit, g, recs)
  {
    hide AllReadable, Dumped, Run, Stops, Parse, LiveEntries;
    var bytes := Bytes(disk, base, unit, g);
    NoMarksSame(g);
    BytesExact(disk, base, unit, g, bytes);
    var q;
    recs, q := ParsePrefix(bytes, 0);
    assert Directory(bytes, recs);
  }

  function AllLive(recs: seq<seq<Rec>>): seq<DirEntry> {
    if recs == [] then [] else AllLive(recs[..|recs| - 1]) + LiveEntries(recs[|recs| - 1])
  }

  /** The pointers made by the dump are good for the search. */
  lemma DumpInBuffer(disk: seq<Byte>, base: nat, unit: nat, extents: seq<seq<int>>)
    requires Blocks(extents) && AllReadable(disk, base, unit, Listed(extents))
    ensures InBuffer(Bytes(disk, base, unit, Listed(extents)), Pointers(Listed(extents), unit, 0), |Bytes(disk, base, unit, Listed(extents))|)
    ensures forall g :: g in extents ==> AllReadable(disk, base, unit, g)
  {
    hide Bytes, Pointers, Listed, AllReadable, Blocks;
    PointersAt(extents, unit, 0);
    var b, pointers := Bytes(disk, base, unit, Listed(extents)), Pointers(Listed(extents), unit, 0);
    forall i | 0 <= i < |extents|
      ensures pointers[i] <= SegmentEnd(pointers, |b|, i) <= |b|
    {
      SegmentIsExtent(disk, base, unit, extents, i);
      assert Before(extents, unit, 0) == 0;
    }
    forall g | g in extents
      ensures AllReadable(disk, base, unit, g)
    {
      var i :| 0 <= i < |extents| && extents[i] == g;
      SegmentIsExtent(disk, base, unit, extents, i);
    }
  }

  lemma SegmentFound(disk: seq<Byte>, base: nat, unit: nat, extents: seq<seq<int>>, i: nat)
    requires Blocks(extents) && AllReadable(disk, base, unit, Listed(extents)) && i < |extents|
    requires AllReadable(disk, base, unit, extents[i]) && |Bytes(disk, base, unit, extents[i])| < 0x1_0000_0000
    requires InBuffer(Bytes(disk, base, unit, Listed(extents)), Pointers(Listed(extents), unit, 0), |Bytes(disk, base, unit, Listed(extents))|)
    ensures |Pointers(Listed(extents), unit, 0)| == |extents|
    ensures Segment(Bytes(disk, base, unit, Listed(extents)), Pointers(Listed(extents), unit, 0), |Bytes(disk, base, unit, Listed(extents))|, i)
         == Bytes(disk, base, unit, extents[i])
  {
    hide Bytes, Pointers, Listed, AllReadable, Blocks, InBuffer, U32;
    PointersAt(extents, unit, 0);
    SegmentIsExtent(disk, base, unit, extents, i);
  }

  lemma {:induction false} RawIsLive(disk: seq<Byte>, base: nat, unit: nat, extents: seq<seq<int>>, recs: seq<seq<Rec>>, n: nat)
    requires Blocks(extents) && AllReadable(disk, base, unit, Listed(extents)) && n <= |extents|
    requires HoldsAll(disk, base, unit, extents, recs)
    requires InBuffer(Bytes(disk, base, unit, Listed(extents)), Pointers(Listed(extents), unit, 0), |Bytes(disk, base, unit, Listed(extents))|)
    ensures |Pointers(Listed(extents), unit, 0)| == |extents|
    ensures ParseSegments(Bytes(disk, base, unit, Listed(extents)), Pointers(Listed(extents), unit, 0), |Bytes(disk, base, unit, Listed(extents))|, n)
         == AllLive(recs[..n])
  {
    hide Bytes, Pointers, Listed, AllReadable, InBuffer, Segment, Parse, ExtentHolds;
    PointersAt(extents, unit, 0);
    if n > 0 {
      RawIsLive(disk, base, unit, extents, recs, n - 1);
      assert extents[n - 1] in extents;
      SegmentIsExtent(disk, base, unit, extents, n - 1);
      ExtentParses(disk, base, unit, extents[n - 1], recs[n - 1]);
      SegmentFound(disk, base, unit, extents, n - 1);
      assert recs[..n][..n - 1] == recs[..n - 1];
    }
  }

  lemma {:induction false} LiveNames(recs: seq<Rec>, name: seq<Byte>)
    ensures Named(LiveEntries(recs), name) <==> (exists r :: r in recs && Live(r) && CString(r.name) == name)
  {
    hide CString, Live;
    if recs != [] {
      LiveNames(recs[1..], name);
      var r := recs[0];
      assert recs == [r] + recs[1..];
      if Live(r) && CString(r.name) == name {
        assert LiveEntries(recs)[0].name == r.name;
        assert LiveEntries(recs)[0] in LiveEntries(recs);
      }
    }
  }

  ghost predicate Carried(recs: seq<seq<Rec>>, name: seq<Byte>) {
    exists i, r :: 0 <= i < |recs| && r in recs[i] && Live(r) && CString(r.name) == name
  }

  lemma {:induction false} AllLiveNames(recs: seq<seq<Rec>>, name: seq<Byte>)
    ensures Named(AllLive(recs), name) <==> Carried(recs, name)
    decreases |recs|
  {
    hide CString, Live, LiveEntries;
    if recs != [] {
      var n := |recs| - 1;
      AllLiveNames(recs[..n], name);
      LiveNames(recs[n], name);
      assert Carried(recs, name) <==> Carried(recs[..n], name) || exists r :: r in recs[n] && Live(r) && CString(r.name) == name;
    }
  }

  /**
   End to end. Dump the blocks of the directory's extents, search them, and compare
   with the listing: whatever the blocks hold, a name is reported hidden exactly when
   some live record in them carries it and the listing does not.
   */
  method HiddenNames(disk: seq<Byte>, base: nat, unit: nat, extents: seq<seq<int>>, listing: seq<DirEntry>)
    returns (ok: bool, hidden: seq<DirEntry>)
    requires Blocks(extents)
    ensures ok <==> extents != [] && AllReadable(disk, base, unit, Listed(extents))
    ensures forall recs :: ok && HoldsAll(disk, base, unit, extents, recs) ==> hidden == Missing(AllLive(recs), listing)
    ensures forall recs, name :: ok && HoldsAll(disk, base, unit, extents, recs) ==>
              (Named(hidden, name) <==> Carried(recs, name) && !Named(listing, name))
  {
    hide *;
    var nums := Listed(extents);
    var count := CountBlocks(nums);
    var mem: array<Byte>, pointers: seq<nat>;
    ok, mem, pointers := DumpBlocks(disk, base, unit, nums, count);
    ReadableMeans(disk, base, unit, nums);
    if !ok {
      return false, [];
    }
    assert mem.Length == unit * count == count * unit;
    var b := mem[..];
    assert b == mem[..count * unit];
    BytesExact(disk, base, unit, nums, b);
    PointersAt(extents, unit, 0);
    DumpInBuffer(disk, base, unit, extents);
    var ret, raw;
    ret, raw, hidden := FindHidden(Ext, b, pointers, count * unit, listing);
    ok := ret == 0;
    forall recs: seq<seq<Rec>> | ok && HoldsAll(disk, base, unit, extents, recs)
      ensures hidden == Missing(AllLive(recs), listing)
    {
      RawIsLive(disk, base, unit, extents, recs, |extents|);
      HoldsAllLength(disk, base, unit, extents, recs);
      assert recs[..|extents|] == recs;
    }
    forall recs: seq<seq<Rec>>, name: seq<Byte> | ok && HoldsAll(disk, base, unit, extents, recs)
      ensures Named(hidden, name) <==> Carried(recs, name) && !Named(listing, name)
    {
      NameHidden(recs, listing, name);
    }
  }

  lemma ReadableMeans(disk: seq<Byte>, base: nat, unit: nat, nums: seq<int>)
    ensures AllReadable(disk, base, unit, nums) <==>
            forall b :: b in nums && b != -1 ==> 0 < unit && 0 <= b && base + b * unit + unit <= |disk|
  {
  }

  lemma HoldsAllLength(disk: seq<Byte>, base: nat, unit: nat, extents: seq<seq<int>>, recs: seq<seq<Rec>>)
    requires HoldsAll(disk, base, unit, extents, recs)
    ensures |recs| == |extents|
  {
  }

  /** The count handed over with the block list. */
  method CountBlocks(nums: seq<int>) returns (n: nat)
    ensures n == Count(nums)
  {
    n := 0;
    var i := 0;
    while i < |nums|
      invariant 0 <= i <= |nums| && n + Count(nums[i..]) == Count(nums)
    {
      assert nums[i..][1..] == nums[i + 1..];
      if nums[i] != MARK {
        n := n + 1;
      }
      i := i + 1;
    }
  }

  lemma NameHidden(recs: seq<seq<Rec>>, listing: seq<DirEntry>, name: seq<Byte>)
    ensures Named(Missing(AllLive(recs), listing), name)
       <==> Carried(recs, name) && !Named(listing, name)
  {
    hide AllLive, Carried, Missing, CString;
    AllLiveNames(recs, name);
    forall e: DirEntry | CString(e.name) == name
      ensures e in Missing(AllLive(recs), listing) <==> e in AllLive(recs) && !Named(listing, name)
    {
      MissingExact(AllLive(recs), listing, e);
    }
  }
}
