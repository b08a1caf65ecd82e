/**
 The block query of src/blk.c end to end: the output of debugfs is read line by
 line, the line behind the header is parsed, and the numbers feed the block dump.
 */
module BlockQuery {
  import opened Options
  import opened BlockText
  import opened BlockListing
  import HiddenFiles

  /** `fgets` fills a buffer of 2048 bytes. */
  const LINE_MAX: nat := 2047

  function GetsLength(s: string): (n: nat)
    requires s != []
    ensures 0 < n <= |s| && n <= LINE_MAX
  {
    var n := FindChar(s, '\n');
    if n < |s| && n < LINE_MAX then n + 1 else if |s| < LINE_MAX then |s| else LINE_MAX
  }

  /** `buffer[strcspn(buffer, "\n")] = 0`. */
  function Chomp(line: string): string {
    line[..FindChar(line, '\n')]
  }

  predicate Starts(line: string, word: string) {
    |line| >= |word| && line[..|word|] == word
  }

  predicate IsHeader(line: string) {
    Starts(line, "BLOCKS:") || Starts(line, "EXTENTS:")
  }

  /** The line read right behind the first header line. */
  function LineBehind(s: string, matched: bool): Option<string>
    decreases |s|
  {
    if s == [] then None
    else
      var line := Chomp(s[..GetsLength(s)]);
      if matched then Some(line) else LineBehind(s[GetsLength(s)..], IsHeader(line))
  }

  /** The list of one extent: the opening value, then its blocks. */
  predicate OneExtent(nums: seq<int>, blocks: seq<nat>) {
    nums != [] && nums[0] == -1 && nums[1..] == blocks
  }

  /** `ext_get_inode_datablocks`, given what debugfs prints. The block list comes back with its leading marker. */
  method GetDataBlocks(output: string) returns (ret: int, blocks: seq<int>, count: nat)
    ensures LineBehind(output, false).None? ==> ret == 1 && blocks == [] && count == 0
    ensures LineBehind(output, false).Some? && Tokens(LineBehind(output, false).value) == [] ==> ret == 1 && blocks == [] && count == 0
    ensures LineBehind(output, false).Some? && Tokens(LineBehind(output, false).value) != [] ==>
      var read := ReadTokens(Tokens(LineBehind(output, false).value));
      OneExtent(blocks, read.0) && count == |read.0| && ret == if read.1 then 0 else 1
  {
    hide Tokens, ReadTokens, Chomp, GetsLength, IsHeader;
    blocks, count := [], 0;
    var matched := 0;
    var s := output;
    while s != []
      invariant matched == 0 || matched == 1
      invariant blocks == [] && count == 0
      invariant LineBehind(s, matched == 1) == LineBehind(output, false)
      decreases |s|
    {
      var line := Chomp(s[..GetsLength(s)]);
      s := s[GetsLength(s)..];
      if matched == 1 {
        var marked, read;
        matched, marked, read := ReadLine(line);
        if marked {
          blocks, count := [HiddenFiles.MARK] + read, |read|;
        }
        break;
      }
      if IsHeader(line) {
        matched := matched + 1;
      }
    }
    ret := if matched != 2 then 1 else 0;
  }

  // ----------------------------------------------------- finding the right line

  predicate OneLine(l: string) {
    '\n' !in l && |l| < 2047
  }

  /** What fits of a line. */
  function Fitting(l: string): string {
    if |l| <= 2047 then l else l[..2047]
  }

  lemma GetsLine(l: string, rest: string)
    requires '\n' !in l
    ensures Chomp((l + "\n" + rest)[..GetsLength(l + "\n" + rest)]) == Fitting(l)
    ensures |l| < 2047 ==> (l + "\n" + rest)[GetsLength(l + "\n" + rest)..] == rest
  {
    hide FindChar;
    var s := l + "\n" + rest;
    FindCharOf(l, '\n', rest);
    assert s == l + ['\n'] + rest;
    if |l| < 2047 {
      assert s[..|l| + 1] == l + ['\n'] + [];
      FindCharOf(l, '\n', []);
    } else {
      assert s[..2047] == l[..2047] && (|l| == 2047 ==> l[..2047] == l);
      NoChar(l[..2047], '\n');
    }
  }

  function Lines(ls: seq<string>): string {
    if ls == [] then "" else ls[0] + "\n" + Lines(ls[1..])
  }

  /** The reader goes on behind the header, whatever stands before. */
  lemma {:induction false} FindsHeader(before: seq<string>, header: string, after: string)
    requires forall l :: l in before ==> OneLine(l) && !IsHeader(l)
    requires OneLine(header) && IsHeader(header)
    ensures LineBehind(Lines(before) + (header + "\n" + after), false) == LineBehind(after, true)
    decreases |before|
  {
    hide Chomp, GetsLength, IsHeader, OneLine, LineBehind;
    var tail := header + "\n" + after;
    if before == [] {
      assert Lines(before) + tail == tail;
      NoLineBreak(header);
      BehindStep(header, after);
    } else {
      var l, rest := before[0], Lines(before[1..]) + tail;
      assert l in before;
      NoLineBreak(l);
      assert Lines(before) + tail == l + "\n" + rest;
      BehindStep(l, rest);
      assert forall x :: x in before[1..] ==> x in before;
      FindsHeader(before[1..], header, after);
    }
  }

  /** The line behind the header is found whatever precedes and follows, and cut to what the buffer holds. */
  lemma FindsLine(before: seq<string>, header: string, line: string, after: string)
    requires forall l :: l in before ==> OneLine(l) && !IsHeader(l)
    requires OneLine(header) && IsHeader(header) && '\n' !in line
    ensures LineBehind(Lines(before) + (header + "\n" + (line + "\n" + after)), false) == Some(Fitting(line))
  {
    FindsHeader(before, header, line + "\n" + after);
    BehindLast(line, after);
  }

  lemma NoLineBreak(l: string)
    requires OneLine(l)
    ensures '\n' !in l && |l| < 2047
  {
  }

  lemma BehindStep(l: string, rest: string)
    requires '\n' !in l && |l| < 2047
    ensures LineBehind(l + "\n" + rest, false) == LineBehind(rest, IsHeader(l))
  {
    hide Chomp, GetsLength, IsHeader;
    GetsLine(l, rest);
  }

  lemma BehindLast(l: string, rest: string)
    requires '\n' !in l
    ensures LineBehind(l + "\n" + rest, true) == Some(Fitting(l))
  {
    hide Chomp, GetsLength, IsHeader;
    GetsLine(l, rest);
  }

  // ---------------------------------------------------------------- round trips

  /** What debugfs prints for an extent walk: no line end if there is no item. */
  function WalkOutput(before: seq<string>, text: string, after: string): string {
    Lines(before) + ("EXTENTS:" + "\n" + if text == [] then after else text + "\n" + after)
  }

  /**
   Printing an extent walk and reading the text back yields exactly the leaf extents'
   blocks, in order and counted, if the line fits. A longer line is cut and its front
   read; without any item the reader takes the first line that follows.
   */
  method ExtentsRoundTrip(ns: seq<Node>, before: seq<string>, after: string) returns (ret: int, blocks: seq<int>, count: nat)
    requires forall l :: l in before ==> OneLine(l) && !IsHeader(l)
    ensures Pieces(ns) != [] && |Line(Pieces(ns))| <= 2047 ==>
      ret == 0 && OneExtent(blocks, LeafBlocks(ns)) && count == |LeafBlocks(ns)|
    ensures |Line(Pieces(ns))| > 2047 ==>
      var read := ReadTokens(Tokens(Line(Pieces(ns))[..2047]));
      OneExtent(blocks, read.0) && count == |read.0| && ret == if read.1 then 0 else 1
    ensures Pieces(ns) == [] && after == [] ==> ret == 1 && blocks == [] && count == 0
  {
    hide *;
    var text := DumpExtents(ns);
    ghost var ps := Pieces(ns);
    HeaderLine();
    PiecesNoBlank(ns);
    PrintsSomething(ps);
    OutputIs(before, text, after);
    LineNoNewline(ps);
    if ps != [] {
      FindsLine(before, "EXTENTS:", text, after);
      FittingIs(text);
      if |text| <= 2047 {
        LineReads(ps);
        PiecesBlocks(ns);
      } else {
        CutHasToken(ps);
      }
    } else {
      FindsHeader(before, "EXTENTS:", after);
      BehindNothing(after);
    }
    ret, blocks, count := GetDataBlocks(WalkOutput(before, text, after));
  }

  lemma OutputIs(before: seq<string>, text: string, after: string)
    ensures text != [] ==> WalkOutput(before, text, after) == Lines(before) + ("EXTENTS:" + "\n" + (text + "\n" + after))
    ensures text == [] ==> WalkOutput(before, text, after) == Lines(before) + ("EXTENTS:" + "\n" + after)
  {
  }

  lemma FittingIs(l: string)
    ensures Fitting(l) == if |l| <= 2047 then l else l[..2047]
  {
  }

  lemma BehindNothing(after: string)
    ensures after == [] ==> LineBehind(after, true) == None
  {
  }

  lemma PrintsSomething(ps: seq<Piece>)
    requires NoBlank(ps)
    ensures ps == [] <==> Line(ps) == []
  {
    if ps != [] {
      NoBlankTail(ps);
      PrintShape(ps[0]);
    }
  }

  lemma CutHasToken(ps: seq<Piece>)
    requires ps != [] && NoBlank(ps) && |Line(ps)| > 2047
    ensures Tokens(Line(ps)[..2047]) != []
  {
    hide Print, FindChar;
    NoBlankTail(ps);
    PrintShape(ps[0]);
    assert Line(ps)[..2047][0] == '(';
  }

  /** What is read of a line that is cut: its whole items, and the cut one for what it looks like. */
  lemma CutLineReads(ps: seq<Piece>, n: nat) returns (k: nat)
    requires NoBlank(ps) && n < |Line(ps)|
    ensures k < |ps| && |Line(ps[..k])| <= n && (k > 0 ==> n - |Line(ps[..k])| <= 2 + |Print(ps[k])|)
    ensures k > 0 && n - |Line(ps[..k])| >= 2 ==>
      var cut := ReadToken(" " + Print(ps[k])[..n - |Line(ps[..k])| - 2]);
      var read := ReadTokens(Tokens(Line(ps)[..n]));
      read.0 == AllBlocks(ps[..k]) + ItemBlocks(cut) && read.1 == (cut.Found? || cut.Skipped?)
    ensures k > 0 && n - |Line(ps[..k])| < 2 ==> ReadTokens(Tokens(Line(ps)[..n])) == (AllBlocks(ps[..k]), true)
  {
    hide Line, Print, Tokens, ReadTokens, ReadToken, AllBlocks, ItemBlocks;
    k := LineCut(ps, n);
    var m := n - |Line(ps[..k])|;
    if k > 0 {
      CutFront(ps, k);
      if m >= 2 {
        var part := Print(ps[k])[..m - 2];
        assert NextItem(ps, k)[..m] == ", " + part;
        assert Line(ps[..k]) + (", " + part) == Line(ps[..k]) + ", " + part;
        CutReads(ps[..k], part);
      } else {
        LineReads(ps[..k]);
        if m == 0 {
          assert Line(ps)[..n] == Line(ps[..k]);
        } else {
          assert NextItem(ps, k)[..m] == [','] && Line(ps)[..n] == Line(ps[..k]) + [','] + [];
          TokensJoin(Line(ps[..k]), []);
          NoTokens();
          assert Tokens(Line(ps[..k])) + [] == Tokens(Line(ps[..k]));
        }
      }
    }
  }

  lemma CutFront(ps: seq<Piece>, k: nat)
    requires NoBlank(ps) && 0 < k < |ps|
    ensures NoBlank(ps[..k]) && ps[..k] != [] && ',' !in Print(ps[k])
  {
    assert ps[k] in ps;
    PrintShape(ps[k]);
    assert forall p :: p in ps[..k] ==> p in ps;
  }

  lemma HeaderLine()
    ensures OneLine("EXTENTS:") && IsHeader("EXTENTS:") && OneLine("BLOCKS:") && IsHeader("BLOCKS:")
  {
    var e, b := "EXTENTS:", "BLOCKS:";
    assert e[..8] == "EXTENTS:" && b[..7] == "BLOCKS:";
  }

  /** The same for a block-mapped file: what comes back is every block shown, indirect ones included. */
  method BlocksRoundTrip(calls: seq<Call>, before: seq<string>, after: string)
    returns (text: string, ret: int, blocks: seq<int>, count: nat)
    requires forall l :: l in before ==> OneLine(l) && !IsHeader(l)
    ensures text != [] && |text| <= 2047 && (forall c :: c in calls ==> c.bcnt >= -3) ==> ret == 0 && OneExtent(blocks, Shown(calls)) && count == |Shown(calls)|
    ensures text == [] ==> Shown(calls) == []
  {
    hide *;
    var total; ghost var pieces;
    text, total, pieces := DumpBlocks(calls);
    LineNoNewline(pieces);
    HeaderLine();
    PiecesPrint(pieces);
    if text != [] && |text| <= 2047 && NoBlank(pieces) {
      FindsLine(before, "BLOCKS:", text, after);
      FittingIs(text);
      LineReads(pieces);
    }
    ret, blocks, count := GetDataBlocks(Lines(before) + ("BLOCKS:" + "\n" + (text + "\n" + after)));
  }

  lemma PiecesPrint(ps: seq<Piece>)
    ensures ps == [] ==> Line(ps) == []
    ensures Line(ps) == [] ==> AllBlocks(ps) == []
  {
    if ps != [] && Line(ps) == [] {
      assert Print(ps[0]) == [] && Tail(ps[1..]) == [];
      assert ps[1..] == [];
    }
  }

  function DataBlocks(calls: seq<Call>): seq<nat> {
    if calls == [] then []
    else
      var c := calls[|calls| - 1];
      DataBlocks(calls[..|calls| - 1]) + if c.bcnt >= 0 then [c.block] else []
  }

  lemma {:induction false} ShownCounts(calls: seq<Call>)
    requires forall c :: c in calls ==> !ShowsNothing(c)
    ensures |Shown(calls)| == |calls| && |DataBlocks(calls)| <= |calls|
    ensures (forall c :: c in calls ==> c.bcnt >= 0) ==> Shown(calls) == DataBlocks(calls)
    ensures |DataBlocks(calls)| == |calls| ==> forall c :: c in calls ==> c.bcnt >= 0
    decreases |calls|
  {
    if calls != [] {
      var n := |calls| - 1;
      assert calls == calls[..n] + [calls[n]];
      assert calls[n] in calls;
      assert forall c :: c in calls[..n] ==> c in calls;
      ShownCounts(calls[..n]);
    }
  }

  /** The listing of a block-mapped file is its data blocks exactly when it has no indirect block. */
  lemma ShownIsData(calls: seq<Call>)
    requires forall c :: c in calls ==> !ShowsNothing(c)
    ensures Shown(calls) == DataBlocks(calls) <==> forall c :: c in calls ==> c.bcnt >= 0
  {
    ShownCounts(calls);
  }

  /** What the query returns is a block list of one extent with the right count, as the dump wants it. */
  lemma QueryFeedsDump(nums: seq<int>, blocks: seq<nat>)
    requires OneExtent(nums, blocks)
    ensures HiddenFiles.Count(nums) == |blocks| && HiddenFiles.NoMarks(nums) == blocks
    ensures nums == HiddenFiles.Listed([blocks]) && HiddenFiles.Blocks([blocks])
  {
    var g: seq<int> := blocks;
    HiddenFiles.PointersPast(g, [], 0, 0);
    HiddenFiles.NoMarksSame(g);
    assert nums == [HiddenFiles.MARK] + g;
    assert HiddenFiles.Listed([g][1..]) == [];
  }
}
