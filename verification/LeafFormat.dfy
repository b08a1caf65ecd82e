/**
 A leaf extent as the tree stores it (`struct ext3_extent`): 32 bits of the first
 block, 48 bits of the physical one, and a 16-bit length whose upper half says that
 the blocks are unwritten.
 */
module LeafFormat {
  import opened Machine
  import opened Extents

  const TWO48: nat := 0x1_0000_0000_0000

  datatype Leaf = Leaf(block: nat, start: nat, len: nat)

  /** Reduction modulo 2^48. */
  function U48(x: nat): (r: nat)
    ensures r < TWO48 && (x < TWO48 ==> r == x)
  {
    if x < TWO48 then x else U48(x - TWO48)
  }

  /** Reduction modulo 2^16. */
  function U16(x: nat): (r: nat)
    ensures r < 0x1_0000
    ensures x < 0x1_0000 ==> r == x
    ensures 0x1_0000 <= x < 0x2_0000 ==> r == x - 0x1_0000
  {
    if x < 0x1_0000 then x else U16(x - 0x1_0000)
  }

  /** `ext2fs_extent_replace`. */
  function ToLeaf(e: Extent): Leaf {
    Leaf(U32(e.lblk), U48(e.pblk), U16(if e.uninit then e.len + 0x8000 else e.len))
  }

  /** `ext2fs_extent_get` and `ext2fs_decode_extent`. */
  function FromLeaf(f: Leaf): Extent {
    if f.len > 0x8000 then Extent(f.block, f.start, f.len - 0x8000, true)
    else Extent(f.block, f.start, f.len, false)
  }

  /** An extent written and read again. */
  function Kept(e: Extent): Extent {
    FromLeaf(ToLeaf(e))
  }

  predicate LenKept(e: Extent) {
    Kept(e).len == e.len && Kept(e).uninit == e.uninit
  }

  /** A length survives exactly up to 2^15 written or 2^15 - 1 unwritten blocks. */
  lemma LenKeptExact(e: Extent)
    requires e.len > 0
    ensures LenKept(e) <==> e.len <= if e.uninit then 32767 else 32768
  {
    hide U32, U48, U16;
  }

  /** An extent survives exactly if both block numbers and the length do. */
  lemma KeptExact(e: Extent)
    requires e.len > 0
    ensures Kept(e) == e <==> e.lblk < TWO32 && e.pblk < TWO48 && LenKept(e)
  {
    hide U32, U48, U16;
  }
}
