/**
 The extent-list editor of fast-commit replay (`ext4_modify_extent_list`): cut a
 hole, append the new extent, sort and merge.  Machine arithmetic is explicit:
 `e_lblk`/`e_pblk` are 64-bit, `e_len` is 32-bit and `offset` is a signed int.
 */
module ExtentEditor {
  import opened Machine
  import opened Extents

  // ------------------------------------------------------ machine arithmetic

  /** The `ex_end` macro: wraps to 2^64 - 1 for an empty extent at block 0. */
  function ExEnd(e: Extent): nat {
    U64(e.lblk + e.len - 1)
  }

  /** The `ex_pend` macro. */
  function ExPend(e: Extent): nat {
    U64(e.pblk + e.len - 1)
  }

  /** Drop the blocks of `e` up to the end of `ex`, through the int `offset`. */
  function TrimFront(e: Extent, ex: Extent): Extent {
    var offset := Int32(ExEnd(ex) + 1 - e.lblk);
    Extent(U64(e.lblk + offset), U64(e.pblk + offset), U32(e.len - offset), e.uninit)
  }

  function TrimBack(e: Extent, ex: Extent): Extent {
    e.(len := if ex.lblk > e.lblk then U32(ex.lblk - e.lblk) else 0)
  }

  // --------------------------------------------------------- the four cases

  /** What the loop replaces one extent with: untouched, split, emptied or trimmed. */
  function Pieces(e: Extent, ex: Extent): seq<Extent> {
    if ExEnd(e) < ex.lblk || e.lblk > ExEnd(ex) then [e]
    else if e.lblk < ex.lblk && ExEnd(e) > ExEnd(ex) then [TrimBack(e, ex), TrimFront(e, ex)]
    else if ex.lblk <= e.lblk && ExEnd(e) <= ExEnd(ex) then [e.(len := 0)]
    else if ExEnd(e) > ExEnd(ex) then [TrimFront(e, ex)]
    else [TrimBack(e, ex)]
  }

  /** Whether the loop moves on to the next extent or breaks. */
  predicate GoesOn(e: Extent, ex: Extent) {
    ExEnd(e) < ex.lblk || (e.lblk <= ExEnd(ex) && ExEnd(e) <= ExEnd(ex))
  }

  /** What the hole-making loop does to the list, from some index on. */
  function Cut(s: seq<Extent>, ex: Extent): seq<Extent> {
    if s == [] then []
    else Pieces(s[0], ex) + if GoesOn(s[0], ex) then Cut(s[1..], ex) else s[1..]
  }

  function PBlocks(e: Extent): set<nat> {
    set b: nat | e.pblk <= b < e.pblk + e.len && OnBlock(e, b)
  }

  predicate OnBlock(e: Extent, b: nat) {
    e.pblk <= b < e.pblk + e.len
  }

  ghost function AllBlocks(s: seq<Extent>): set<nat> {
    if s == [] then {} else AllBlocks(s[..|s| - 1]) + PBlocks(s[|s| - 1])
  }

  /** The physical blocks the same loop clears in the block bitmap. */
  ghost function Cleared(s: seq<Extent>, ex: Extent): set<nat> {
    if s == [] then {}
    else
      var e, rest := s[0], s[1..];
      if ExEnd(e) < ex.lblk then Cleared(rest, ex)
      else if e.lblk > ExEnd(ex) then {}
      else if ExEnd(e) > ExEnd(ex) then PBlocks(e)
      else PBlocks(e) + Cleared(rest, ex)
  }

  // -------------------------------------------------------- sort and merge

  /** `ex_len_compar` as written: not an order, since it never answers for equals. */
  function LenCompar(x: Extent, y: Extent): int {
    if x.len < y.len then 1 else if x.lblk > y.lblk then -1 else 0
  }

  /** `ex_compar`. */
  function LblkCompar(x: Extent, y: Extent): int {
    if x.lblk < y.lblk then -1
    else if x.lblk > y.lblk then 1
    else Int32(x.len - y.len)
  }

  /** The reading of `qsort` used here: no adjacent pair compares greater. */
  ghost predicate NoInversion(cmp: (Extent, Extent) -> int, s: seq<Extent>) {
    forall i :: 0 <= i < |s| - 1 ==> cmp(s[i], s[i + 1]) <= 0
  }

  ghost predicate Sorting(cmp: (Extent, Extent) -> int, s: seq<Extent>, t: seq<Extent>) {
    SameMembers(s, t) && NoInversion(cmp, t)
  }

  function UpToEmpty(s: seq<Extent>): seq<Extent> {
    if s == [] || s[0].len == 0 then [] else [s[0]] + UpToEmpty(s[1..])
  }

  predicate Joins(x: Extent, y: Extent) {
    U64(ExEnd(x) + 1) == y.lblk && U64(ExPend(x) + 1) == y.pblk && x.uninit == y.uninit
  }

  /** What the merge loop does to the list, from some index on. */
  function Merge(s: seq<Extent>): seq<Extent>
    decreases |s|
  {
    if |s| < 2 then s
    else if Joins(s[0], s[1]) then Merge([s[0].(len := U32(s[0].len + s[1].len))] + s[2..])
    else [s[0]] + Merge(s[1..])
  }

  /** `r` is a possible outcome of `ex_sort_and_merge` on `c`. */
  ghost predicate SortMerged(c: seq<Extent>, r: seq<Extent>) {
    if |c| < 2 then r == c
    else exists t, q :: SortMergedVia(c, t, q, r)
  }

  ghost predicate SortMergedVia(c: seq<Extent>, t: seq<Extent>, q: seq<Extent>, r: seq<Extent>) {
    && Sorting(LenCompar, c, t)
    && if UpToEmpty(t) == [] then r == [] else Sorting(LblkCompar, UpToEmpty(t), q) && r == Merge(q)
  }

  // ------------------------------------------------------- the whole edit

  function Appended(c: seq<Extent>, ex: Extent, del: bool): seq<Extent> {
    if ex.len > 0 && !del then c + [ex] else c
  }

  /** `r` is a possible outcome of `ext4_modify_extent_list` on `s`. */
  ghost predicate Edited(s: seq<Extent>, ex: Extent, del: bool, r: seq<Extent>) {
    SortMerged(Appended(Cut(s, ex), ex, del), r)
  }

  /** What the edit should mean. */
  ghost function Apply(m: Mapping, ex: Extent, del: bool): Mapping {
    Without(m, ex.lblk, ex.len) + if del then map[] else ExtentMap(ex)
  }

  /** A lone empty extent: what deleting a one-extent list leaves behind. */
  predicate LoneEmpty(s: seq<Extent>) {
    |s| == 1 && s[0].len == 0 && Fits(s[0])
  }

  /** The lists an edit can meet. */
  ghost predicate ListState(s: seq<Extent>) {
    WellFormed(s) || LoneEmpty(s)
  }

  /** The edits a tag can carry: block and length have 32 bits, physical blocks stay below 2^64. */
  predicate EditArg(ex: Extent, del: bool) {
    ex.lblk < TWO32 && ex.len < TWO32 && (del || ex.pblk + ex.len < TWO64)
  }

  predicate Straddles(e: Extent, ex: Extent) {
    e.lblk <= ExEnd(ex) < ExEnd(e)
  }

  /** A cut whose kept tail starts 2^31 or more blocks into the extent overflows `offset`. */
  predicate FarCut(e: Extent, ex: Extent) {
    Straddles(e, ex) && ex.lblk + ex.len - e.lblk >= TWO31
  }

  predicate IsOrigin(ex: Extent) {
    ex.lblk == 0 && ex.len == 0
  }

  /** The exact condition under which the edit means what it should. */
  ghost predicate EditSafe(s: seq<Extent>, ex: Extent, del: bool) {
    && CutSafe(s, ex)
    && NoLongRun(Apply(Den(s), ex, del))
  }

  /** What the cut needs. */
  ghost predicate CutSafe(s: seq<Extent>, ex: Extent) {
    && !(IsOrigin(ex) && exists e :: e in s && e.len > 0)
    && !(LoneEmpty(s) && s[0].lblk == 0 && ex.len > 0)
    && (forall e :: e in s ==> !FarCut(e, ex))
  }

  // ------------------------------------------- lemmas about the cutting loop

  lemma ExEndExact(e: Extent)
    requires e.lblk + e.len <= TWO64
    ensures e.lblk + e.len > 0 ==> ExEnd(e) == e.lblk + e.len - 1
    ensures e.lblk + e.len == 0 ==> ExEnd(e) == TWO64 - 1
  {
  }

  lemma TrimFrontNear(e: Extent, ex: Extent)
    requires Fits(e) && !IsOrigin(ex) && ex.lblk < TWO32 && ex.len < TWO32
    requires Straddles(e, ex) && !FarCut(e, ex) && e.len > 0
    ensures var d := ex.lblk + ex.len - e.lblk;
      0 < d < e.len && TrimFront(e, ex) == Extent(e.lblk + d, e.pblk + d, e.len - d, e.uninit)
  {
    ExEndExact(e);
    ExEndExact(ex);
  }

  lemma TrimFrontFar(e: Extent, ex: Extent)
    requires Fits(e) && !IsOrigin(ex) && ex.lblk < TWO32 && ex.len < TWO32
    requires FarCut(e, ex) && e.len > 0
    ensures var d := ex.lblk + ex.len - e.lblk;
      && TWO31 <= d < e.len && TrimFront(e, ex).len == e.len - d
      && TrimFront(e, ex).lblk == e.lblk + d - TWO32 + if e.lblk + d < TWO32 then TWO64 else 0
  {
    ExEndExact(e);
    ExEndExact(ex);
  }

  /** No block of `e` lies in the edited range. */
  predicate Clear(e: Extent, ex: Extent) {
    e.len == 0 || e.lblk + e.len <= ex.lblk || ex.lblk + ex.len <= e.lblk
  }

  ghost predicate InHole(ex: Extent, l: nat) {
    ex.lblk <= l < ex.lblk + ex.len
  }

  ghost predicate PiecesOutcome(e: Extent, ex: Extent, pieces: seq<Extent>) {
    && Spaced(pieces)
    && (forall p :: p in pieces ==> PieceOf(p, e, ex))
    && (forall l, t :: Maps(pieces, l, t) <==> Covers(e, l, t) && !InHole(ex, l))
  }

  predicate PieceOf(p: Extent, e: Extent, ex: Extent) {
    Fits(p) && Clear(p, ex) && e.lblk <= p.lblk && p.lblk + p.len <= e.lblk + e.len
  }

  /** Each of the overlap cases leaves exactly the part of `e` outside the hole. */
  lemma PiecesDenote(e: Extent, ex: Extent)
    requires Fits(e) && e.len > 0 && ex.lblk < TWO32 && ex.len < TWO32
    requires !IsOrigin(ex) && !FarCut(e, ex)
    ensures PiecesOutcome(e, ex, Pieces(e, ex))
    ensures !GoesOn(e, ex) ==> ex.lblk + ex.len <= e.lblk + e.len
  {
    ExEndExact(e);
    ExEndExact(ex);
    hide ExEnd, PiecesOutcome, Pieces;
    if Straddles(e, ex) {
      StraddledPieces(e, ex);
    } else {
      OtherPieces(e, ex);
    }
  }

  lemma OtherPieces(e: Extent, ex: Extent)
    requires Fits(e) && e.len > 0 && ex.lblk < TWO32 && ex.len < TWO32 && !IsOrigin(ex) && !Straddles(e, ex)
    ensures PiecesOutcome(e, ex, Pieces(e, ex))
  {
    ExEndExact(e);
    ExEndExact(ex);
    hide ExEnd;
    OnePiece(Pieces(e, ex), e, ex);
  }

  lemma StraddledPieces(e: Extent, ex: Extent)
    requires Fits(e) && e.len > 0 && ex.lblk < TWO32 && ex.len < TWO32
    requires !IsOrigin(ex) && Straddles(e, ex) && !FarCut(e, ex)
    ensures PiecesOutcome(e, ex, Pieces(e, ex))
  {
    ExEndExact(e);
    ExEndExact(ex);
    TrimFrontNear(e, ex);
    hide ExEnd, TrimFront, PiecesOutcome;
    if e.lblk < ex.lblk {
      SplitOutcome(e, ex, ex.lblk + ex.len - e.lblk);
    } else {
      TrimOutcome(e, ex, ex.lblk + ex.len - e.lblk);
    }
  }

  /** The parts before and after a hole that ends `d` blocks into `e`. */
  lemma SplitOutcome(e: Extent, ex: Extent, d: nat)
    requires Fits(e) && e.lblk < ex.lblk && e.lblk + d == ex.lblk + ex.len && d < e.len
    ensures PiecesOutcome(e, ex, [e.(len := ex.lblk - e.lblk), Extent(e.lblk + d, e.pblk + d, e.len - d, e.uninit)])
  {
    TwoPieces([e.(len := ex.lblk - e.lblk), Extent(e.lblk + d, e.pblk + d, e.len - d, e.uninit)], e, ex);
  }

  lemma TrimOutcome(e: Extent, ex: Extent, d: nat)
    requires Fits(e) && ex.lblk <= e.lblk && e.lblk + d == ex.lblk + ex.len && d < e.len
    ensures PiecesOutcome(e, ex, [Extent(e.lblk + d, e.pblk + d, e.len - d, e.uninit)])
  {
    OnePiece([Extent(e.lblk + d, e.pblk + d, e.len - d, e.uninit)], e, ex);
  }

  /** A single piece denotes what is left of `e`. */
  lemma OnePiece(pieces: seq<Extent>, e: Extent, ex: Extent)
    requires |pieces| == 1
    requires forall l, t :: Covers(pieces[0], l, t) <==> Covers(e, l, t) && !InHole(ex, l)
    ensures Spaced(pieces)
    ensures forall l, t :: Maps(pieces, l, t) <==> Covers(e, l, t) && !InHole(ex, l)
  {
    assert pieces[0] in pieces;
  }

  lemma TwoPieces(pieces: seq<Extent>, e: Extent, ex: Extent)
    requires |pieces| == 2 && pieces[0].lblk + pieces[0].len <= pieces[1].lblk
    requires forall l, t :: (Covers(pieces[0], l, t) || Covers(pieces[1], l, t)) <==> Covers(e, l, t) && !InHole(ex, l)
    ensures Spaced(pieces)
    ensures forall l, t :: Maps(pieces, l, t) <==> Covers(e, l, t) && !InHole(ex, l)
  {
    assert pieces[0] in pieces && pieces[1] in pieces;
  }

  lemma SpacedJoin(a: seq<Extent>, b: seq<Extent>)
    requires Spaced(a) && Spaced(b)
    requires forall x, y :: x in a && y in b ==> x.lblk + x.len <= y.lblk
    ensures Spaced(a + b)
  {
    forall i, j | 0 <= i < j < |a + b| ensures (a + b)[i].lblk + (a + b)[i].len <= (a + b)[j].lblk {
      if i < |a| <= j {
        assert a[i] in a && b[j - |a|] in b;
      }
    }
  }

  lemma MapsJoin(a: seq<Extent>, b: seq<Extent>, l: nat, t: Target)
    ensures Maps(a + b, l, t) <==> Maps(a, l, t) || Maps(b, l, t)
  {
    assert forall e :: e in a + b <==> e in a || e in b;
    if Maps(a, l, t) {
      var e :| e in a && Covers(e, l, t);
      assert e in a + b;
    }
    if Maps(b, l, t) {
      var e :| e in b && Covers(e, l, t);
      assert e in a + b;
    }
  }

  ghost predicate CutOutcome(s: seq<Extent>, ex: Extent, c: seq<Extent>) {
    && Spaced(c)
    && (forall e :: e in c ==> Fits(e) && Clear(e, ex) && (s != [] ==> s[0].lblk <= e.lblk))
    && (s == [] ==> c == [])
    && (forall l, t :: Maps(c, l, t) <==> Maps(s, l, t) && !InHole(ex, l))
  }

  /** One step of the loop: the pieces of the head in front of what is left of the rest. */
  lemma CutStep(s: seq<Extent>, ex: Extent, tail: seq<Extent>)
    requires WellFormed(s) && s != [] && ex.lblk < TWO32 && ex.len < TWO32
    requires !IsOrigin(ex) && !FarCut(s[0], ex)
    requires if GoesOn(s[0], ex) then CutOutcome(s[1..], ex, tail) else tail == s[1..]
    ensures CutOutcome(s, ex, Pieces(s[0], ex) + tail)
  {
    var e, rest, pieces := s[0], s[1..], Pieces(s[0], ex);
    TailWellFormed(s);
    PiecesDenote(e, ex);
    forall x | x in tail ensures Fits(x) && Clear(x, ex) && e.lblk + e.len <= x.lblk {
      if GoesOn(e, ex) {
        assert rest[0] in rest && rest[0].lblk <= x.lblk;
      }
    }
    SpacedJoin(pieces, tail);
    assert forall x :: x in pieces + tail <==> x in pieces || x in tail;
    forall l, t ensures Maps(pieces + tail, l, t) <==> Maps(s, l, t) && !InHole(ex, l) {
      CutStepMaps(s, ex, tail, l, t);
    }
  }

  lemma CutStepMaps(s: seq<Extent>, ex: Extent, tail: seq<Extent>, l: nat, t: Target)
    requires s != [] && PiecesOutcome(s[0], ex, Pieces(s[0], ex))
    requires Maps(tail, l, t) <==> Maps(s[1..], l, t) && (GoesOn(s[0], ex) ==> !InHole(ex, l))
    requires !GoesOn(s[0], ex) ==> forall x :: x in s[1..] ==> ex.lblk + ex.len <= x.lblk
    ensures Maps(Pieces(s[0], ex) + tail, l, t) <==> Maps(s, l, t) && !InHole(ex, l)
  {
    MapsJoin(Pieces(s[0], ex), tail, l, t);
    assert s == [s[0]] + s[1..];
    MapsJoin([s[0]], s[1..], l, t);
    assert s[0] in [s[0]];
    if !GoesOn(s[0], ex) && Maps(s[1..], l, t) {
      var x :| x in s[1..] && Covers(x, l, t);
    }
  }

  /** Through all overlap cases the loop removes exactly the hole and keeps the order. */
  lemma {:induction false} CutDenotes(s: seq<Extent>, ex: Extent)
    requires WellFormed(s) && ex.lblk < TWO32 && ex.len < TWO32
    requires !IsOrigin(ex) && forall e :: e in s ==> !FarCut(e, ex)
    ensures CutOutcome(s, ex, Cut(s, ex))
  {
    if s != [] {
      TailWellFormed(s);
      if GoesOn(s[0], ex) {
        CutDenotes(s[1..], ex);
      }
      CutStep(s, ex, if GoesOn(s[0], ex) then Cut(s[1..], ex) else s[1..]);
    }
  }
}
