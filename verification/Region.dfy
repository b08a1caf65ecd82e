/**
 The region allocator: a singly linked list of ranges with a pointer to its last
 element, searched, grown, merged and extended in place.
 */
module RegionAllocator {
  import opened Options
  import opened RegionSpec

  class Element {
    var start: nat
    var end: nat
    var next: Element?

    constructor (start: nat, end: nat, next: Element?)
      ensures this.start == start && this.end == end && this.next == next
    {
      this.start, this.end, this.next := start, end, next;
    }
  }

  class Region {
    const min: nat
    const max: nat
    var head: Element?
    var last: Element?
    ghost var nodes: seq<Element>
    ghost var ranges: seq<Range>   // what the elements hold, in list order

    /** The list is well linked, and `last` is its final element. */
    ghost predicate Chain()
      reads this`head, this`last, this`nodes, nodes`next
    {
      && (forall i, k :: 0 <= i < k < |nodes| ==> nodes[i] != nodes[k])
      && (forall i {:trigger nodes[i].next} :: 0 <= i < |nodes| ==> nodes[i].next == At(i + 1))
      && head == At(0)
      && last == if nodes == [] then null else nodes[|nodes| - 1]
    }

    /** ... and its elements hold these ranges. */
    ghost predicate Linked()
      reads this, nodes
    {
      && Chain()
      && |ranges| == |nodes|
      && (forall i {:trigger ranges[i]} :: 0 <= i < |nodes| ==> ranges[i] == Range(nodes[i].start, nodes[i].end))
    }

    ghost function At(i: nat): Element?
      reads this`nodes
    {
      if i < |nodes| then nodes[i] else null
    }

    ghost predicate Valid()
      reads this, nodes
    {
      Linked() && Separated(ranges)
    }

    constructor (min: nat, max: nat)
      ensures Valid() && this.min == min && this.max == max && ranges == [] && nodes == []
    {
      this.min, this.max := min, max;
      head, last, nodes, ranges := null, null, [], [];
    }

    /** Move the start or end of element `i`. */
    method Resize(r: Element, start: nat, end: nat, ghost i: nat)
      requires Linked() && i < |nodes| && nodes[i] == r
      modifies nodes, this`ranges
      ensures Linked() && ranges == old(ranges)[i := Range(start, end)] && nodes == old(nodes)
    {
      r.start := start;
      r.end := end;
      ranges := ranges[i := Range(start, end)];
    }

    /** Absorb the element behind `r`, which disappears from the list. */
    method Absorb(r: Element, ghost i: nat)
      requires Linked() && i + 1 < |nodes| && nodes[i] == r
      modifies this, nodes
      ensures Linked() && (forall x :: x in nodes ==> x in old(nodes) || fresh(x))
      ensures ranges == old(ranges)[..i] + [Range(old(r.start), old(ranges)[i + 1].end)] + old(ranges)[i + 2..]
    {
      hide Chain;
      NextIs(i);
      var next := r.next;
      assert old(ranges)[i + 1] == Range(next.start, next.end);
      r.end := next.end;
      ghost var was := nodes;
      Unlink(r, next, i);
      ranges := ranges[..i] + [Range(r.start, r.end)] + ranges[i + 2..];
      forall k | 0 <= k < |nodes| ensures ranges[k] == Range(nodes[k].start, nodes[k].end) {
        assert nodes[k] == was[if k <= i then k else k + 1];
        assert old(ranges[if k <= i then k else k + 1]) == old(Range(was[if k <= i then k else k + 1].start, was[if k <= i then k else k + 1].end));
        assert k != i ==> nodes[k] != r;
      }
    }

    lemma NextIs(i: nat)
      requires Chain() && i + 1 < |nodes|
      ensures nodes[i].next == nodes[i + 1]
      ensures forall k :: 0 <= k < |nodes| && k != i ==> nodes[k] != nodes[i]
    {
    }

    /** Take the element behind `r` out of the chain. */
    method Unlink(r: Element, next: Element, ghost i: nat)
      requires Chain() && i + 1 < |nodes| && nodes[i] == r && next == nodes[i + 1]
      modifies this`last, this`nodes, nodes`next
      ensures Chain() && nodes == old(nodes)[..i + 1] + old(nodes)[i + 2..]
    {
      r.next := next.next;
      ghost var was := nodes;
      nodes := nodes[..i + 1] + nodes[i + 2..];
      if r.next == null {
        last := r;
      }
      forall k | 0 <= k < |nodes| ensures nodes[k].next == At(k + 1) {
        if k < i {
          assert nodes[k] == was[k] && was[k].next == was[k + 1];
        } else if k > i {
          assert nodes[k] == was[k + 1] && was[k + 1] != r;
          assert old(was[k + 1].next) == old(At(k + 2));
        } else {
          assert nodes[k] == r && old(was[i + 1].next) == old(At(i + 2));
        }
      }
    }

    /** Hang an element into the chain behind `prev` and before index `i`. */
    method Link(prev: Element?, e: Element, ghost i: nat)
      requires Chain() && i <= |nodes| && e !in nodes && e.next == At(i) && prev == if i == 0 then null else nodes[i - 1]
      modifies this`head, this`last, this`nodes, nodes`next
      ensures Chain() && nodes == old(nodes)[..i] + [e] + old(nodes)[i..]
    {
      if e.next == null {
        last := e;
      }
      if prev != null {
        prev.next := e;
      } else {
        head := e;
      }
      ghost var was := nodes;
      nodes := nodes[..i] + [e] + nodes[i..];
      forall k | 0 <= k < |nodes| ensures nodes[k].next == At(k + 1) {
        if k < i {
          assert nodes[k] == was[k] && old(was[k].next) == old(At(k + 1));
        } else if k > i {
          assert nodes[k] == was[k - 1] && old(was[k - 1].next) == old(At(k));
        }
      }
    }

    /** Link a new element in behind `prev` and before index `i`. */
    method Insert(prev: Element?, r: Element?, start: nat, end: nat, ghost i: nat)
      requires Linked() && i <= |nodes| && r == At(i) && prev == if i == 0 then null else nodes[i - 1]
      modifies this, nodes
      ensures Linked() && (forall x :: x in nodes ==> x in old(nodes) || fresh(x))
      ensures ranges == old(ranges)[..i] + [Range(start, end)] + old(ranges)[i..]
    {
      hide Chain;
      var e := new Element(start, end, r);
      Link(prev, e, i);
      ranges := ranges[..i] + [Range(start, end)] + ranges[i..];
    }

    /** The search has reached element `i`: it may be placed from there on. */
    ghost predicate Reached(rs: seq<Range>, start: nat, end: nat, i: nat)
      reads this, nodes
    {
      Valid() && start < end && rs == ranges && i <= |rs| && forall k :: 0 <= k < i ==> Passes(rs[k], start)
    }

    /** What a search must leave behind, apart from the links. */
    ghost predicate Answers(rs: seq<Range>, start: nat, end: nat, ret: int)
      reads this`ranges
    {
      && (ret == 0 || ret == 1) && (ret == 0 <==> Place(rs, start, end).Some?)
      && ranges == if ret == 0 then Place(rs, start, end).value else rs
    }

    /** The range starts where element `i` ends: it grows, or closes the gap to the next one. */
    method GrowBehind(r: Element, start: nat, end: nat, ghost i: nat, ghost rs: seq<Range>) returns (ret: int)
      requires Reached(rs, start, end, i) && i < |nodes| && nodes[i] == r
      requires start == r.end && !Conflicts(Range(r.start, r.end), start, end) && end != r.start
      modifies this, nodes
      ensures Linked() && (forall x :: x in nodes ==> x in old(nodes) || fresh(x)) && Answers(rs, start, end, ret)
    {
      hide Place, Conflicts;
      assert rs[i] == Range(r.start, r.end);
      PlaceSkips(rs, start, end, i);
      PlaceHead(rs, start, end, i);
      var next := r.next;
      if next != null {
        assert next == nodes[i + 1] && rs[i + 1] == Range(next.start, next.end);
        if end > next.start {
          return 1;
        }
        if end == next.start {
          Absorb(r, i);
          return 0;
        }
      }
      Resize(r, r.start, end, i);
      ret := 0;
    }

    /** The range lies between its neighbours and gets an element of its own. */
    method AddBefore(prev: Element?, r: Element?, start: nat, end: nat, ghost i: nat, ghost rs: seq<Range>)
      requires Reached(rs, start, end, i) && r == At(i) && prev == if i == 0 then null else nodes[i - 1]
      requires r != null ==> !Conflicts(Range(r.start, r.end), start, end) && end < r.start
      modifies this, nodes
      ensures Linked() && (forall x :: x in nodes ==> x in old(nodes) || fresh(x)) && Answers(rs, start, end, 0)
    {
      hide Place, Conflicts;
      PlaceSkips(rs, start, end, i);
      if r == null {
        PlaceNothing(start, end);
        assert rs[i..] == [];
      } else {
        assert rs[i] == Range(r.start, r.end);
        PlaceHead(rs, start, end, i);
      }
      Insert(prev, r, start, end, i);
      assert rs[..i] + [Range(start, end)] + rs[i..] == rs[..i] + ([Range(start, end)] + rs[i..]);
    }

    /** The search loop: refuse a conflict, grow or merge a touching range, or link a new one in. */
    method Search(start: nat, end: nat, ghost rs: seq<Range>) returns (ret: int)
      requires Valid() && start < end && rs == ranges
      modifies this, nodes
      ensures Linked() && (forall x :: x in nodes ==> x in old(nodes) || fresh(x)) && Answers(rs, start, end, ret)
    {
      hide Place;
      var r := head;
      var prev: Element? := null;
      ghost var i := 0;
      while r != null
        invariant 0 <= i <= |nodes| && nodes == old(nodes) && Reached(rs, start, end, i)
        invariant r == At(i) && prev == if i == 0 then null else nodes[i - 1]
        decreases |nodes| - i
      {
        assert rs[i] == Range(r.start, r.end);
        if (start >= r.start && start < r.end) || (end > r.start && end <= r.end) || (start <= r.start && end >= r.end) {
          PlaceSkips(rs, start, end, i);
          PlaceHead(rs, start, end, i);
          return 1;
        }
        if end == r.start {
          PlaceSkips(rs, start, end, i);
          PlaceHead(rs, start, end, i);
          Resize(r, start, r.end, i);
          return 0;
        }
        if start == r.end {
          ret := GrowBehind(r, start, end, i, rs);
          return;
        }
        if start < r.start {
          break;
        }
        prev := r;
        r := r.next;
        i := i + 1;
      }
      AddBefore(prev, r, start, end, i, rs);
      ret := 0;
    }

    /** `region_allocate`, for ranges that do not wrap around the address space. */
    method Allocate(start: nat, n: nat) returns (ret: int)
      requires Valid() && start + n < 0x1_0000_0000_0000_0000
      modifies this, nodes
      ensures Valid() && (forall x :: x in nodes ==> x in old(nodes) || fresh(x))
      ensures ret == -1 <==> start < min || start + n > max
      ensures ret == 0 <==> min <= start && start + n <= max && n > 0
                            && old(Cover(ranges)) !! Addresses(Range(start, start + n))
      ensures ret == 0 ==> Cover(ranges) == old(Cover(ranges)) + Addresses(Range(start, start + n))
      ensures ret != 0 ==> ret == -1 || ret == 1
      ensures ret != 0 ==> ranges == old(ranges)
    {
      hide Place, Cover;
      ret := 0;
      var end := start + n;
      if start < min || end > max {
        return -1;
      }
      if n == 0 {
        NoAddresses(start);
        return 1;
      }
      ghost var rs := ranges;
      PlaceExact(rs, start, end);
      if last != null && last.end == start && last.next == null {
        PlaceAtEnd(rs, start, end);
        Resize(last, last.start, end, |nodes| - 1);
        return 0;
      }
      if last != null && start > last.end && last.next == null {
        PlaceAtEnd(rs, start, end);
        Insert(last, null, start, end, |nodes|);
        assert ranges == rs + [Range(start, end)];
        return 0;
      }
      ret := Search(start, end, rs);
    }
  }

  lemma PlaceNothing(start: nat, end: nat)
    ensures Place([], start, end) == Some([Range(start, end)])
  {
  }

  /** The search step at element `i`, with the list around it. */
  lemma PlaceHead(rs: seq<Range>, start: nat, end: nat, i: nat)
    requires Separated(rs) && start < end && i < |rs|
    ensures var r, o := rs[i], Place(rs[i..], start, end);
      && (Conflicts(r, start, end) ==> o == None)
      && (!Conflicts(r, start, end) ==>
            && (end == r.start ==> o.Some? && rs[..i] + o.value == rs[i := Range(start, r.end)])
            && (start == r.end ==>
                  if i + 1 < |rs| && end > rs[i + 1].start then o == None
                  else if i + 1 < |rs| && end == rs[i + 1].start then
                    o.Some? && rs[..i] + o.value == rs[..i] + [Range(r.start, rs[i + 1].end)] + rs[i + 2..]
                  else o.Some? && rs[..i] + o.value == rs[i := Range(r.start, end)])
            && (end < r.start ==> o.Some? && o.value == [Range(start, end)] + rs[i..]))
  {
    var t := rs[i..];
    assert t[0] == rs[i] && t[1..] == rs[i + 1..];
    if i + 1 < |rs| {
      assert t[1] == rs[i + 1] && t[2..] == rs[i + 2..];
    }
  }

  lemma NoAddresses(start: nat)
    ensures Addresses(Range(start, start)) == {}
  {
  }
}
