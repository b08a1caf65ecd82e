/**
 Walking an extent tree (`ext2fs_extent_get` with the operation NEXT): a path of
 cursors that goes down, sideways and up, against the recursive order of the tree.
 */
module ExtentTree {
  import opened Extents
  import opened ExtentRebuild

  /** A block of the tree: index entries, each with the block it points to, or leaf extents. */
  datatype Node = Index(entries: seq<Entry>) | Leaves(exts: seq<Extent>)

  datatype Entry = Entry(ext: Extent, child: Node)

  function Count(n: Node): nat {
    if n.Index? then |n.entries| else |n.exts|
  }

  // ------------------------------------------------------ the recursive order

  /** Every leaf once, every index entry before and after what it points to. */
  ghost function WalkFrom(n: Node, k: nat): seq<Visit>
    decreases n, Count(n) - k
  {
    if k >= Count(n) then []
    else if n.Leaves? then [Visit(n.exts[k], true, false)] + WalkFrom(n, k + 1)
    else
      var e := n.entries[k];
      [Visit(e.ext, false, false)] + WalkFrom(e.child, 0) + [Visit(e.ext, false, true)] + WalkFrom(n, k + 1)
  }

  /** The tree's leaf extents from left to right. */
  ghost function LeavesFrom(n: Node, k: nat): seq<Extent>
    decreases n, Count(n) - k
  {
    if k >= Count(n) then []
    else if n.Leaves? then n.exts[k..]
    else LeavesFrom(n.entries[k].child, 0) + LeavesFrom(n, k + 1)
  }

  /** The blocks the tree's index entries point to. */
  ghost function BlocksFrom(n: Node, k: nat): seq<nat>
    decreases n, Count(n) - k
  {
    if n.Leaves? || k >= Count(n) then []
    else [n.entries[k].ext.pblk] + BlocksFrom(n.entries[k].child, 0) + BlocksFrom(n, k + 1)
  }

  /** No index entry points to an empty block. */
  ghost predicate NoneEmpty(n: Node, k: nat)
    decreases n, Count(n) - k
  {
    n.Leaves? || k >= Count(n) ||
    (Count(n.entries[k].child) > 0 && NoneEmpty(n.entries[k].child, 0) && NoneEmpty(n, k + 1))
  }

  lemma {:induction false} VisitsJoin(a: seq<Visit>, b: seq<Visit>)
    ensures LeafExtents(a + b) == LeafExtents(a) + LeafExtents(b)
    ensures NodeBlocks(a + b) == NodeBlocks(a) + NodeBlocks(b)
    decreases |a|
  {
    hide LeafExtents, NodeBlocks;
    if a == [] {
      assert a + b == b;
      WalkEnd([]);
    } else {
      assert (a + b)[1..] == a[1..] + b;
      VisitsJoin(a[1..], b);
      VisitsCons(a);
      VisitsCons(a + b);
    }
  }

  lemma VisitsCons(s: seq<Visit>)
    requires s != []
    ensures LeafExtents(s) == (if s[0].leaf && !s[0].secondVisit then [s[0].ext] else []) + LeafExtents(s[1..])
    ensures NodeBlocks(s) == (if !s[0].leaf && !s[0].secondVisit then [s[0].ext.pblk] else []) + NodeBlocks(s[1..])
  {
  }

  lemma OneVisit(v: Visit)
    ensures LeafExtents([v]) == if v.leaf && !v.secondVisit then [v.ext] else []
    ensures NodeBlocks([v]) == if !v.leaf && !v.secondVisit then [v.ext.pblk] else []
  {
    assert [v][1..] == [];
  }

  /** What the rebuild takes from a walk: each leaf extent once and in order, each block of the tree once. */
  lemma {:induction false} WalkSees(n: Node, k: nat)
    ensures LeafExtents(WalkFrom(n, k)) == LeavesFrom(n, k)
    ensures NodeBlocks(WalkFrom(n, k)) == BlocksFrom(n, k)
    decreases n, Count(n) - k
  {
    hide LeafExtents, NodeBlocks;
    if k >= Count(n) {
      WalkEnd([]);
    } else if n.Leaves? {
      var v := Visit(n.exts[k], true, false);
      OneVisit(v);
      WalkSees(n, k + 1);
      VisitsJoin([v], WalkFrom(n, k + 1));
      assert n.exts[k..] == [n.exts[k]] + n.exts[k + 1..];
    } else {
      var e := n.entries[k];
      var first, second := Visit(e.ext, false, false), Visit(e.ext, false, true);
      var inner, rest := WalkFrom(e.child, 0), WalkFrom(n, k + 1);
      OneVisit(first);
      OneVisit(second);
      WalkSees(e.child, 0);
      WalkSees(n, k + 1);
      VisitsJoin([first], inner);
      VisitsJoin([first] + inner, [second]);
      VisitsJoin([first] + inner + [second], rest);
    }
  }

  // ------------------------------------------------------------- the cursors

  /** One level of the handle's path: the current entry, and whether its block has been gone into. */
  datatype Frame = Frame(node: Node, curr: nat, seen: bool)

  predicate FrameOk(f: Frame) {
    f.curr < Count(f.node) && (f.node.Leaves? ==> !f.seen)
  }

  predicate Below(f: Frame) {
    FrameOk(f) && f.node.Index? && f.seen
  }

  ghost predicate PathOk(path: seq<Frame>) {
    path != [] && FrameOk(path[|path| - 1]) && forall i :: 0 <= i < |path| - 1 ==> Below(path[i])
  }

  function Shown(f: Frame): Visit
    requires FrameOk(f)
  {
    if f.node.Leaves? then Visit(f.node.exts[f.curr], true, false)
    else Visit(f.node.entries[f.curr].ext, false, f.seen)
  }

  /** What is still to come in the block of the current entry and behind it. */
  ghost function After(f: Frame): seq<Visit>
    requires FrameOk(f)
  {
    if f.node.Leaves? || f.seen then WalkFrom(f.node, f.curr + 1)
    else
      var e := f.node.entries[f.curr];
      WalkFrom(e.child, 0) + [Visit(e.ext, false, true)] + WalkFrom(f.node, f.curr + 1)
  }

  /** What is still to come once everything below these levels is done. */
  ghost function AfterAll(path: seq<Frame>): seq<Visit>
    requires forall i :: 0 <= i < |path| ==> Below(path[i])
  {
    if path == [] then []
    else
      var f := path[|path| - 1];
      assert Below(f);
      [Shown(f)] + After(f) + AfterAll(path[..|path| - 1])
  }

  ghost function Remaining(path: seq<Frame>): seq<Visit>
    requires PathOk(path)
  {
    After(path[|path| - 1]) + AfterAll(path[..|path| - 1])
  }

  /** No block still to be gone into is empty. */
  ghost predicate NoneEmptyAhead(path: seq<Frame>) {
    forall i :: 0 <= i < |path| ==> FrameAhead(path[i])
  }

  ghost predicate FrameAhead(f: Frame) {
    NoneEmpty(f.node, if f.seen then f.curr + 1 else f.curr)
  }

  datatype Got = Got(v: Visit) | NoNext | NoDown

  lemma DownKeeps(path: seq<Frame>, last: Frame, child: Node)
    requires PathOk(path) && last == path[|path| - 1] && last.node.Index? && !last.seen
    requires child == last.node.entries[last.curr].child && Count(child) > 0
    ensures var path' := path[|path| - 1 := last.(seen := true)] + [Frame(child, 0, false)];
      && PathOk(path') && Remaining(path) == [Shown(Frame(child, 0, false))] + Remaining(path')
      && (NoneEmptyAhead(path) <==> NoneEmptyAhead(path'))
  {
    hide WalkFrom, NoneEmpty;
    var n := |path| - 1;
    var f, g := last.(seen := true), Frame(child, 0, false);
    var path' := path[n := f] + [g];
    assert path'[..n + 1] == path[..n] + [f] && (path[..n] + [f])[..n] == path[..n];
    ChildWalk(child);
    var e := last.node.entries[last.curr];
    var rest, below := WalkFrom(last.node, last.curr + 1), AfterAll(path[..n]);
    assert Remaining(path) == (WalkFrom(child, 0) + [Visit(e.ext, false, true)] + rest) + below;
    assert Remaining(path') == After(g) + ([Visit(e.ext, false, true)] + rest + below);
    assert NoneEmptyAhead(path') <==> NoneEmptyAhead(path[..n]) && FrameAhead(f) && FrameAhead(g) by {
      SplitAhead(path', path[..n], [f, g]);
    }
    assert NoneEmptyAhead(path) <==> NoneEmptyAhead(path[..n]) && FrameAhead(last) by {
      SplitAhead(path, path[..n], [last]);
    }
    ChildAhead(last.node, last.curr);
  }

  lemma SplitAhead(path: seq<Frame>, a: seq<Frame>, b: seq<Frame>)
    requires path == a + b
    ensures NoneEmptyAhead(path) <==> NoneEmptyAhead(a) && NoneEmptyAhead(b)
  {
    hide FrameAhead;
    assert forall i :: 0 <= i < |a| ==> path[i] == a[i];
    assert forall i :: 0 <= i < |b| ==> path[|a| + i] == b[i];
  }

  lemma ChildWalk(n: Node)
    requires Count(n) > 0
    ensures WalkFrom(n, 0) == [Shown(Frame(n, 0, false))] + After(Frame(n, 0, false))
  {
  }

  lemma ChildAhead(n: Node, k: nat)
    requires n.Index? && k < Count(n)
    ensures NoneEmpty(n, k) <==> Count(n.entries[k].child) > 0 && NoneEmpty(n.entries[k].child, 0) && NoneEmpty(n, k + 1)
  {
  }

  lemma SibKeeps(path: seq<Frame>, last: Frame)
    requires PathOk(path) && last == path[|path| - 1] && (last.node.Leaves? || last.seen) && last.curr + 1 < Count(last.node)
    ensures var g := Frame(last.node, last.curr + 1, false);
      var path' := path[|path| - 1 := g];
      && PathOk(path') && Remaining(path) == [Shown(g)] + Remaining(path')
      && (NoneEmptyAhead(path) <==> NoneEmptyAhead(path'))
  {
    hide NoneEmpty, AfterAll, WalkFrom, After, Shown;
    var n := |path| - 1;
    var g := Frame(last.node, last.curr + 1, false);
    var path' := path[n := g];
    assert path'[..n] == path[..n];
    SibWalk(last, g);
    assert [Shown(g)] + After(g) + AfterAll(path[..n]) == [Shown(g)] + (After(g) + AfterAll(path[..n]));
    SplitAhead(path, path[..n], [last]);
    SplitAhead(path', path[..n], [g]);
    LeavesAhead(last.node, last.curr);
  }

  lemma SibWalk(f: Frame, g: Frame)
    requires FrameOk(f) && (f.node.Leaves? || f.seen) && g == Frame(f.node, f.curr + 1, false) && FrameOk(g)
    ensures After(f) == [Shown(g)] + After(g)
  {
  }

  lemma LeavesAhead(n: Node, k: nat)
    ensures n.Leaves? ==> NoneEmpty(n, k) && NoneEmpty(n, k + 1)
    ensures k >= Count(n) ==> NoneEmpty(n, k) && WalkFrom(n, k) == []
  {
  }

  lemma UpKeeps(path: seq<Frame>, last: Frame)
    requires PathOk(path) && last == path[|path| - 1] && (last.node.Leaves? || last.seen) && last.curr + 1 == Count(last.node)
    ensures |path| == 1 ==> Remaining(path) == [] && NoneEmptyAhead(path)
    ensures |path| > 1 ==>
      var path' := path[..|path| - 1];
      && PathOk(path') && Remaining(path) == [Shown(path'[|path'| - 1])] + Remaining(path')
      && (NoneEmptyAhead(path) <==> NoneEmptyAhead(path'))
  {
    hide NoneEmpty, WalkFrom, AfterAll, Shown;
    var n := |path| - 1;
    LeavesAhead(last.node, last.curr);
    LeavesAhead(last.node, last.curr + 1);
    SplitAhead(path, path[..n], [last]);
    assert After(last) == [];
    assert Remaining(path) == AfterAll(path[..n]);
    AfterAllStep(path[..n]);
  }

  lemma AfterAllStep(path: seq<Frame>)
    requires forall i :: 0 <= i < |path| ==> Below(path[i])
    ensures path == [] ==> AfterAll(path) == []
    ensures path != [] ==> PathOk(path) && AfterAll(path) == [Shown(path[|path| - 1])] + Remaining(path)
  {
    hide WalkFrom, After, Shown;
  }

  class ExtentHandle {
    var path: seq<Frame>

    ghost predicate Valid()
      reads this
    {
      PathOk(path)
    }

    /** The first entry of the root block. */
    constructor (root: Node)
      requires Count(root) > 0
      ensures Valid() && [Shown(path[|path| - 1])] + Remaining(path) == WalkFrom(root, 0)
      ensures path == [Frame(root, 0, false)]
      ensures NoneEmptyAhead(path) <==> NoneEmpty(root, 0)
    {
      path := [Frame(root, 0, false)];
      new;
      ChildWalk(root);
      assert path[..0] == [];
    }

    /** `ext2fs_extent_get` with EXT2_EXTENT_NEXT: the next visit, or the end, or an error at an empty block. */
    method Next() returns (r: Got)
      requires Valid()
      modifies this
      ensures r.Got? ==> Valid() && old(Remaining(path)) == [r.v] + Remaining(path)
      ensures r.Got? ==> (NoneEmptyAhead(path) <==> old(NoneEmptyAhead(path)))
      ensures r.NoNext? ==> old(Remaining(path)) == [] && old(NoneEmptyAhead(path))
      ensures r.NoDown? ==> !old(NoneEmptyAhead(path))
    {
      hide Remaining, NoneEmptyAhead, Shown;
      var n := |path| - 1;
      var last := path[n];
      if last.node.Index? && !last.seen {
        var child := last.node.entries[last.curr].child;
        if Count(child) == 0 {
          EmptyAhead(path);
          return NoDown;
        }
        DownKeeps(path, last, child);
        path := path[n := last.(seen := true)] + [Frame(child, 0, false)];
      } else if last.curr + 1 < Count(last.node) {
        SibKeeps(path, last);
        path := path[n := Frame(last.node, last.curr + 1, false)];
      } else {
        UpKeeps(path, last);
        if n == 0 {
          return NoNext;
        }
        path := path[..n];
      }
      r := Got(Shown(path[|path| - 1]));
    }
  }

  lemma EmptyAhead(path: seq<Frame>)
    requires PathOk(path)
    requires var f := path[|path| - 1];
      f.node.Index? && !f.seen && Count(f.node.entries[f.curr].child) == 0
    ensures !NoneEmptyAhead(path)
  {
    var f := path[|path| - 1];
    ChildAhead(f.node, f.curr);
    assert !FrameAhead(f);
  }

  /**
   The walk of `load_extents`: it succeeds exactly if no index entry points to an
   empty block, and then yields every visit of the tree in the recursive order.
   */
  method Walk(root: Node) returns (ok: bool, visits: seq<Visit>)
    ensures ok <==> NoneEmpty(root, 0)
    ensures visits <= WalkFrom(root, 0) && (ok ==> visits == WalkFrom(root, 0))
  {
    hide WalkFrom, NoneEmpty, Remaining, NoneEmptyAhead, Shown;
    visits := [];
    if Count(root) == 0 {
      LeavesAhead(root, 0);
      return true, [];
    }
    var handle := new ExtentHandle(root);
    visits := [Shown(handle.path[0])];
    while true
      invariant handle.Valid() && fresh(handle)
      invariant visits + Remaining(handle.path) == WalkFrom(root, 0)
      invariant NoneEmptyAhead(handle.path) <==> NoneEmpty(root, 0)
      decreases |Remaining(handle.path)|
    {
      var r := handle.Next();
      match r
      case Got(v) => visits := visits + [v];
      case NoNext => return true, visits;
      case NoDown => return false, visits;
    }
  }

  /** Reading a tree for the rebuild: its leaf extents coalesced, its blocks freed once each; on an error those met so far. */
  method LoadTree(root: Node, list: RebuildList) returns (ok: bool)
    modifies list
    ensures ok <==> NoneEmpty(root, 0)
    ensures ok ==> list.extents == CoalesceOnto(old(list.extents), LeavesFrom(root, 0))
    ensures ok ==> list.freed == old(list.freed) + BlocksFrom(root, 0)
    ensures list.freed <= old(list.freed) + BlocksFrom(root, 0)
    ensures list.blocksFreed == old(list.blocksFreed) + |list.freed| - |old(list.freed)|
  {
    hide WalkFrom, NoneEmpty, CoalesceOnto, LeavesFrom, BlocksFrom, LeafExtents, NodeBlocks;
    var visits;
    ok, visits := Walk(root);
    WalkSees(root, 0);
    ghost var all := WalkFrom(root, 0);
    assert all == visits + all[|visits|..];
    VisitsJoin(visits, all[|visits|..]);
    list.Load(visits);
  }
}
