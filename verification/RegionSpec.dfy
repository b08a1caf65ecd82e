/**
 Ranges of allocated addresses (e2fsck/region.c) as values: where a new range
 goes in a sorted list of ranges that neither overlap nor touch.
 */
module RegionSpec {
  import opened Options

  datatype Range = Range(start: nat, end: nat)

  ghost function Addresses(r: Range): set<nat> {
    set x: nat | r.start <= x < r.end && Within(r, x)
  }

  predicate Within(r: Range, x: nat) {
    r.start <= x < r.end
  }

  /** All addresses the list covers. */
  ghost function Cover(rs: seq<Range>): set<nat> {
    if rs == [] then {} else Addresses(rs[0]) + Cover(rs[1..])
  }

  /** Sorted, non-empty, and with a gap between neighbours. */
  ghost predicate Separated(rs: seq<Range>) {
    && (forall i :: 0 <= i < |rs| ==> rs[i].start < rs[i].end)
    && (forall i, k :: 0 <= i < k < |rs| ==> rs[i].end < rs[k].start)
  }

  /** The conflict test of the search loop. */
  predicate Conflicts(r: Range, start: nat, end: nat) {
    || (r.start <= start < r.end)
    || (r.start < end <= r.end)
    || (start <= r.start && end >= r.end)
  }

  /** Where the search loop puts `[start, end)`, or None on a conflict. */
  function Place(rs: seq<Range>, start: nat, end: nat): Option<seq<Range>> {
    if rs == [] then Some([Range(start, end)])
    else
      var r := rs[0];
      if Conflicts(r, start, end) then None
      else if end == r.start then Some([Range(start, r.end)] + rs[1..])
      else if start == r.end then
        if |rs| > 1 && end > rs[1].start then None
        else if |rs| > 1 && end == rs[1].start then Some([Range(r.start, rs[1].end)] + rs[2..])
        else Some([Range(r.start, end)] + rs[1..])
      else if start < r.start then Some([Range(start, end)] + rs)
      else match Place(rs[1..], start, end)
        case None => None
        case Some(t) => Some([r] + t)
  }

  // ----------------------------------------------------------------- lemmas

  lemma {:induction false} CoverMembers(rs: seq<Range>, x: nat)
    ensures x in Cover(rs) <==> exists i :: 0 <= i < |rs| && Within(rs[i], x)
  {
    if rs != [] {
      CoverMembers(rs[1..], x);
      if x in Cover(rs[1..]) {
        var i :| 0 <= i < |rs[1..]| && Within(rs[1..][i], x);
        assert Within(rs[i + 1], x);
      }
      if i :| 0 <= i < |rs| && Within(rs[i], x) {
        if i > 0 {
          assert Within(rs[1..][i - 1], x);
        }
      }
    }
  }

  lemma CoverCons(r: Range, rest: seq<Range>)
    ensures Cover([r] + rest) == Addresses(r) + Cover(rest)
  {
    assert ([r] + rest)[1..] == rest;
  }

  lemma SeparatedTail(rs: seq<Range>)
    requires Separated(rs) && rs != []
    ensures Separated(rs[1..]) && rs[0].start < rs[0].end
    ensures forall x :: x in Cover(rs[1..]) ==> rs[0].end < x
    ensures |rs| > 1 ==> rs[0].end < rs[1].start && rs[1..][0] == rs[1]
  {
    forall x | x in Cover(rs[1..]) ensures rs[0].end < x {
      CoverMembers(rs[1..], x);
      var i :| 0 <= i < |rs[1..]| && Within(rs[1..][i], x);
      assert rs[i + 1] == rs[1..][i];
    }
  }

  lemma SeparatedCons(r: Range, rest: seq<Range>)
    requires r.start < r.end && Separated(rest) && (rest != [] ==> r.end < rest[0].start)
    ensures Separated([r] + rest)
  {
    var rs := [r] + rest;
    forall i, k | 0 <= i < k < |rs| ensures rs[i].end < rs[k].start {
      assert rs[k] == rest[k - 1];
      if i > 0 {
        assert rs[i] == rest[i - 1];
      } else if k > 1 {
        assert rest[0].end < rest[k - 1].start && rest[0].start < rest[0].end;
      }
    }
  }

  ghost predicate Placed(rs: seq<Range>, start: nat, end: nat, o: Option<seq<Range>>) {
    var added := Addresses(Range(start, end));
    && (o.Some? <==> Cover(rs) !! added)
    && (o.Some? ==>
          && Separated(o.value) && Cover(o.value) == Cover(rs) + added && o.value != []
          && o.value[0].start == if rs == [] || start < rs[0].start then start else rs[0].start)
  }

  /** A range is placed exactly when none of its addresses is taken, and then exactly its addresses are added. */
  lemma {:induction false} PlaceExact(rs: seq<Range>, start: nat, end: nat)
    requires Separated(rs) && start < end
    ensures Placed(rs, start, end, Place(rs, start, end))
  {
    var added := Range(start, end);
    assert Within(added, start);
    if rs == [] {
      assert [added][1..] == [];
      assert Cover([added]) == Addresses(added) + Cover([]);
    } else {
      SeparatedTail(rs);
      var r, rest := rs[0], rs[1..];
      assert rs == [r] + rest;
      if Conflicts(r, start, end) {
        PlaceConflict(r, rest, start, end);
      } else if end == r.start {
        Merge2(r, rest, added, Range(start, r.end));
      } else if start == r.end {
        PlaceBehind(rs, start, end);
      } else if start < r.start {
        CoverCons(added, rs);
        SeparatedCons(added, rs);
        assert Addresses(r) !! Addresses(added);
      } else {
        PlaceExact(rest, start, end);
        PlaceFurther(r, rest, start, end, Place(rest, start, end));
      }
    }
  }

  lemma PlaceConflict(r: Range, rest: seq<Range>, start: nat, end: nat)
    requires Conflicts(r, start, end) && start < end && r.start < r.end
    ensures !(Cover([r] + rest) !! Addresses(Range(start, end)))
  {
    CoverCons(r, rest);
    var added := Range(start, end);
    var x := if start <= r.start then r.start else start;
    assert Within(r, x) && Within(added, x);
    assert x in Cover([r] + rest) && x in Addresses(added);
  }

  /** Growing `r` to `m` at an end where nothing touches. */
  lemma Merge2(r: Range, rest: seq<Range>, added: Range, m: Range)
    requires Separated([r] + rest) && added.start < added.end
    requires (m == Range(added.start, r.end) && added.end == r.start) ||
             (m == Range(r.start, added.end) && added.start == r.end && (rest != [] ==> added.end < rest[0].start))
    ensures Separated([m] + rest) && Cover([m] + rest) == Cover([r] + rest) + Addresses(added)
    ensures Cover([r] + rest) !! Addresses(added)
  {
    var rs := [r] + rest;
    SeparatedTail(rs);
    assert rs[1..] == rest;
    CoverCons(r, rest);
    CoverCons(m, rest);
    if rest != [] {
      assert rs[1] == rest[0];
      CoverFloor(rest);
    }
    SeparatedCons(m, rest);
    assert Addresses(m) == Addresses(r) + Addresses(added) by {
      forall x: nat ensures x in Addresses(m) <==> x in Addresses(r) || x in Addresses(added) {
        assert Within(m, x) <==> Within(r, x) || Within(added, x);
      }
    }
  }

  lemma CoverFloor(rs: seq<Range>)
    requires Separated(rs) && rs != []
    ensures forall x :: x in Cover(rs) ==> rs[0].start <= x
  {
    SeparatedTail(rs);
  }

  /** The range starts right behind the head of the list. */
  lemma PlaceBehind(rs: seq<Range>, start: nat, end: nat)
    requires Separated(rs) && rs != [] && start < end && start == rs[0].end
    ensures Placed(rs, start, end, Place(rs, start, end))
  {
    var r, rest, added := rs[0], rs[1..], Range(start, end);
    SeparatedTail(rs);
    assert rs == [r] + rest && !Conflicts(r, start, end) && end != r.start;
    if |rs| > 1 && end >= rs[1].start {
      var n, tail := rs[1], rs[2..];
      assert rest == [n] + tail && rest[1..] == tail;
      SeparatedTail(rest);
      if end > n.start {
        assert Within(n, n.start) && Within(added, n.start);
        CoverCons(r, rest);
        CoverCons(n, tail);
        assert n.start in Cover(rs) && n.start in Addresses(added);
      } else {
        Fuse(r, n, tail, added);
      }
    } else {
      Merge2(r, rest, added, Range(r.start, end));
    }
  }

  /** The range fills the gap between two neighbours, which become one. */
  lemma Fuse(r: Range, n: Range, tail: seq<Range>, added: Range)
    requires Separated([r] + ([n] + tail)) && added == Range(r.end, n.start)
    ensures Separated([Range(r.start, n.end)] + tail)
    ensures Cover([Range(r.start, n.end)] + tail) == Cover([r] + ([n] + tail)) + Addresses(added)
    ensures Cover([r] + ([n] + tail)) !! Addresses(added)
  {
    var rs, rest, m := [r] + ([n] + tail), [n] + tail, Range(r.start, n.end);
    SeparatedTail(rs);
    assert rs[1..] == rest && rest[1..] == tail && rs[1] == n && rest[0] == n;
    SeparatedTail(rest);
    CoverCons(r, rest);
    CoverCons(n, tail);
    CoverCons(m, tail);
    CoverFloor(rest);
    SeparatedCons(m, tail);
    assert Addresses(m) == Addresses(r) + Addresses(n) + Addresses(added) by {
      forall x: nat ensures x in Addresses(m) <==> x in Addresses(r) || x in Addresses(n) || x in Addresses(added) {
        assert Within(m, x) <==> Within(r, x) || Within(n, x) || Within(added, x);
      }
    }
  }

  /** The range lies beyond the head of the list. */
  lemma PlaceFurther(r: Range, rest: seq<Range>, start: nat, end: nat, o: Option<seq<Range>>)
    requires Separated([r] + rest) && r.end < start < end && Placed(rest, start, end, o)
    requires rest != [] ==> r.end < rest[0].start
    ensures Placed([r] + rest, start, end, if o.None? then None else Some([r] + o.value))
  {
    var added := Range(start, end);
    var rs := [r] + rest;
    CoverCons(r, rest);
    assert rs[0] == r && r.start < r.end;
    assert Addresses(r) !! Addresses(added);
    if o.Some? {
      CoverCons(r, o.value);
      SeparatedCons(r, o.value);
    }
  }

  // ------------------------------------------ the shortcuts at the list's end

  /** Whether the search passes range `r` by. */
  predicate Passes(r: Range, start: nat) {
    r.end < start
  }

  lemma PlacePasses(rs: seq<Range>, start: nat, end: nat)
    requires Separated(rs) && rs != [] && start < end && Passes(rs[0], start)
    ensures Place(rs, start, end) ==
      match Place(rs[1..], start, end) case None => None case Some(t) => Some([rs[0]] + t)
  {
    assert rs[0] in rs;
  }

  lemma {:induction false} PlaceSkips(rs: seq<Range>, start: nat, end: nat, k: nat)
    requires Separated(rs) && start < end && k <= |rs|
    requires forall i :: 0 <= i < k ==> Passes(rs[i], start)
    ensures Place(rs, start, end) ==
      match Place(rs[k..], start, end) case None => None case Some(t) => Some(rs[..k] + t)
  {
    hide Place;
    if k == 0 {
      assert rs[0..] == rs;
      match Place(rs, start, end) {
        case None =>
        case Some(t) => assert rs[..0] + t == t;
      }
    } else {
      SeparatedTail(rs);
      PlacePasses(rs, start, end);
      assert Passes(rs[0], start);
      forall i | 0 <= i < k - 1 ensures Passes(rs[1..][i], start) {
        assert Passes(rs[i + 1], start);
      }
      PlaceSkips(rs[1..], start, end, k - 1);
      assert rs[1..][k - 1..] == rs[k..];
      match Place(rs[k..], start, end) {
        case None =>
        case Some(t) => assert rs[..k] + t == [rs[0]] + (rs[1..][..k - 1] + t);
      }
    }
  }

  /** Appending at or right behind the last range is what the search would do. */
  lemma PlaceAtEnd(rs: seq<Range>, start: nat, end: nat)
    requires Separated(rs) && rs != [] && start < end && rs[|rs| - 1].end <= start
    ensures var n := |rs| - 1;
      Place(rs, start, end) ==
      Some(if start == rs[n].end then rs[n := Range(rs[n].start, end)] else rs + [Range(start, end)])
  {
    var n := |rs| - 1;
    assert forall i :: 0 <= i < n ==> rs[i].end < rs[n].start && rs[n].start < rs[n].end;
    if start == rs[n].end {
      PlaceSkips(rs, start, end, n);
      var one := [rs[n]];
      assert rs[n..] == one && one[1..] == [] && !Conflicts(one[0], start, end);
      assert [Range(rs[n].start, end)] + [] == [Range(rs[n].start, end)];
      assert Place(one, start, end) == Some([Range(rs[n].start, end)]);
      assert rs[..n] + [Range(rs[n].start, end)] == rs[n := Range(rs[n].start, end)];
    } else {
      PlaceSkips(rs, start, end, n + 1);
      assert rs[n + 1..] == [] && rs[..n + 1] == rs;
    }
  }

  // ------------------------------------------------- the list is canonical

  lemma EndIsFree(rs: seq<Range>)
    requires Separated(rs) && rs != []
    ensures rs[0].end !in Cover(rs) && rs[0].start in Cover(rs)
  {
    SeparatedTail(rs);
    assert Within(rs[0], rs[0].start);
  }

  /** The set of allocated addresses determines the list, whatever the order of the allocations. */
  lemma {:induction false} ListIsCanonical(a: seq<Range>, b: seq<Range>)
    requires Separated(a) && Separated(b) && Cover(a) == Cover(b)
    ensures a == b
  {
    if a == [] || b == [] {
      if a != [] {
        EndIsFree(a);
      }
      if b != [] {
        EndIsFree(b);
      }
    } else {
      EndIsFree(a);
      EndIsFree(b);
      CoverFloor(a);
      CoverFloor(b);
      SeparatedTail(a);
      SeparatedTail(b);
      assert a[0].start == b[0].start;
      if a[0].end < b[0].end {
        assert Within(b[0], a[0].end);
        assert false;
      }
      if b[0].end < a[0].end {
        assert Within(a[0], b[0].end);
        assert false;
      }
      assert Cover(a[1..]) == Cover(a) - Addresses(a[0]) == Cover(b[1..]);
      ListIsCanonical(a[1..], b[1..]);
      assert a == [a[0]] + a[1..] && b == [b[0]] + b[1..];
    }
  }
}
