/**
 The two printers of block lists (debugfs/debugfs.c) and the proof that the reader
 of src/blk.c recovers the blocks they print.
 */
module BlockListing {
  import opened BlockText

  // ----------------------------------------------------------- printed pieces

  /** One comma-separated item of the printed line; a block of unknown kind leaves its place blank. */
  datatype Piece =
    | Index(level: nat, block: nat)
    | Run(lfirst: nat, llast: nat, first: nat, last: nat, uninit: bool)
    | Indirect(depth: nat, block: nat)
    | Blank

  function IndirectName(depth: nat): string {
    if depth == 1 then "IND" else if depth == 2 then "DIND" else "TIND"
  }

  function Label(p: Piece): string {
    match p
    case Index(level, _) => "ETB" + Decimal(level)
    case Run(l0, l1, a, b, u) =>
      if a == b then Decimal(l0) + (if u then "[u]" else "")
      else Decimal(l0) + "-" + Decimal(l1) + (if u then "[u]" else "")
    case Indirect(depth, _) => IndirectName(depth)
    case Blank => ""
  }

  function Body(p: Piece): string {
    match p
    case Index(_, block) => Decimal(block)
    case Run(_, _, a, b, _) => if a == b then Decimal(a) else Decimal(a) + "-" + Decimal(b)
    case Indirect(_, block) => Decimal(block)
    case Blank => ""
  }

  function Print(p: Piece): string {
    if p.Blank? then "" else "(" + Label(p) + "):" + Body(p)
  }

  function BlocksOf(p: Piece): seq<nat> {
    match p
    case Index(_, _) => []
    case Run(_, _, a, b, _) => From(a, b)
    case Indirect(_, block) => [block]
    case Blank => []
  }

  /** Everything behind the first piece: each piece after a comma and a blank. */
  function Tail(ps: seq<Piece>): string {
    if ps == [] then "" else ", " + Print(ps[0]) + Tail(ps[1..])
  }

  function Line(ps: seq<Piece>): string {
    if ps == [] then "" else Print(ps[0]) + Tail(ps[1..])
  }

  function AllBlocks(ps: seq<Piece>): seq<nat> {
    if ps == [] then [] else BlocksOf(ps[0]) + AllBlocks(ps[1..])
  }

  lemma {:induction false} TailAppend(ps: seq<Piece>, p: Piece)
    ensures Tail(ps + [p]) == Tail(ps) + ", " + Print(p)
  {
    hide Print;
    if ps == [] {
      assert (ps + [p])[1..] == [];
      assert Tail([]) == "";
    } else {
      assert (ps + [p])[1..] == ps[1..] + [p];
      TailAppend(ps[1..], p);
    }
  }

  lemma LineAppend(ps: seq<Piece>, p: Piece)
    ensures Line(ps + [p]) == Line(ps) + (if ps == [] then "" else ", ") + Print(p)
  {
    hide Print;
    if ps == [] {
      assert (ps + [p])[1..] == [];
    } else {
      assert (ps + [p])[1..] == ps[1..] + [p];
      TailAppend(ps[1..], p);
    }
  }

  lemma {:induction false} AllBlocksJoin(ps: seq<Piece>, qs: seq<Piece>)
    ensures AllBlocks(ps + qs) == AllBlocks(ps) + AllBlocks(qs)
  {
    hide BlocksOf;
    if ps == [] {
      assert ps + qs == qs;
    } else {
      assert (ps + qs)[1..] == ps[1..] + qs;
      AllBlocksJoin(ps[1..], qs);
    }
  }

  // ---------------------------------------------------- each piece reads back

  predicate Plain(s: string) {
    ',' !in s && ':' !in s && '\n' !in s
  }

  lemma DigitsPlain(n: nat)
    ensures Plain(Decimal(n)) && Decimal(n)[0] != ' ' && Decimal(n)[0] != 'E'
  {
    var s := Decimal(n);
    assert s[0] in s;
  }

  lemma LabelPlain(p: Piece)
    ensures Plain(Label(p))
  {
    hide Decimal;
    match p
    case Index(level, _) => DigitsPlain(level);
    case Run(l0, l1, a, b, u) =>
      DigitsPlain(l0);
      DigitsPlain(l1);
    case Indirect(depth, _) =>
    case Blank =>
  }

  lemma BodyPlain(p: Piece)
    requires !p.Blank?
    ensures Plain(Body(p)) && Body(p) != [] && Body(p)[0] != ' '
  {
    hide Decimal;
    match p
    case Index(_, block) => DigitsPlain(block);
    case Run(_, _, a, b, _) =>
      DigitsPlain(a);
      DigitsPlain(b);
    case Indirect(_, block) => DigitsPlain(block);
  }

  /** Only index nodes carry the label that the reader skips. */
  lemma LabelStart(p: Piece)
    requires !p.Blank?
    ensures |Label(p)| >= 1 && (p.Index? ==> |Label(p)| >= 3 && Label(p)[..3] == "ETB")
    ensures !p.Index? ==> Label(p)[0] != 'E'
  {
    hide Decimal;
    match p
    case Index(level, _) =>
    case Run(l0, _, _, _, _) => DigitsPlain(l0);
    case Indirect(depth, _) =>
  }

  lemma ScanOne(a: nat)
    ensures ScanRange(Decimal(a)) == One(a)
  {
    hide Decimal, Value, DigitRun;
    DigitRunOf(Decimal(a), "");
    assert Decimal(a) + "" == Decimal(a);
    DecimalValue(a);
  }

  lemma ScanTwo(a: nat, b: nat)
    ensures ScanRange(Decimal(a) + "-" + Decimal(b)) == Two(a, b)
  {
    hide Decimal, Value, DigitRun;
    var s := Decimal(a) + ("-" + Decimal(b));
    assert Decimal(a) + "-" + Decimal(b) == s;
    DigitRunOf(Decimal(a), "-" + Decimal(b));
    var n := |Decimal(a)|;
    assert s[n + 1..] == Decimal(b);
    DigitRunOf(Decimal(b), "");
    assert Decimal(b) + "" == Decimal(b);
    DecimalValue(a);
    DecimalValue(b);
  }

  lemma FromOne(a: nat)
    ensures From(a, a) == [a]
  {
    assert From(a + 1, a) == [];
  }

  lemma BodyReads(p: Piece)
    requires !p.Index? && !p.Blank?
    ensures ItemOf(ScanRange(Body(p))) == Found(BlocksOf(p))
  {
    hide Decimal, ScanRange, From;
    match p
    case Run(_, _, a, b, _) =>
      if a == b {
        ScanOne(a);
        FromOne(a);
      } else {
        ScanTwo(a, b);
      }
    case Indirect(_, block) => ScanOne(block);
  }

  lemma PrintShape(p: Piece)
    requires !p.Blank?
    ensures Print(p) == "(" + Label(p) + ")" + [':'] + Body(p)
    ensures ',' !in Print(p) && '\n' !in Print(p) && Print(p)[0] == '(' && |Print(p)| >= 4
    ensures Print(p)[..4][1..] == (Label(p) + "):" + Body(p))[..3]
  {
    hide Label, Body;
    LabelPlain(p);
    BodyPlain(p);
    LabelStart(p);
  }

  lemma IndexTokenExact(p: Piece)
    requires !p.Blank?
    ensures IsIndexToken(Print(p)) <==> p.Index?
  {
    hide Label, Body, Decimal;
    LabelStart(p);
    PrintShape(p);
    var t, l := Print(p), Label(p);
    assert t[1] == l[0];
    if p.Index? {
      assert l[0] == l[..3][0] && l[1] == l[..3][1] && l[2] == l[..3][2];
      assert t[..4] == "(ETB";
    } else {
      assert t[..4][1] == t[1];
    }
  }

  lemma SkipNothing(s: string)
    requires s == [] || s[0] != ' '
    ensures SkipSpaces(s) == s && SkipSpaces(" " + s) == s
  {
    assert (" " + s)[1..] == s;
  }

  /** The reader's view of one printed piece, with or without the leading blank. */
  lemma PieceReads(p: Piece)
    requires !p.Blank?
    ensures ReadToken(Print(p)) == ReadToken(" " + Print(p)) == if p.Index? then Skipped else Found(BlocksOf(p))
  {
    hide Label, Body, Decimal, ScanRange, BlocksOf, FindChar, SkipSpaces, IsIndexToken, Print;
    PrintShape(p);
    IndexTokenExact(p);
    SkipNothing(Print(p));
    if !p.Index? {
      LabelPlain(p);
      BodyPlain(p);
      FindCharOf("(" + Label(p) + ")", ':', Body(p));
      SkipNothing(Body(p));
      BodyReads(p);
    }
  }

  // ------------------------------------------------------- the line reads back

  predicate NoBlank(ps: seq<Piece>) {
    forall p :: p in ps ==> !p.Blank?
  }

  lemma NoBlankTail(ps: seq<Piece>)
    requires NoBlank(ps) && ps != []
    ensures !ps[0].Blank? && NoBlank(ps[1..])
  {
    assert ps[0] in ps;
  }

  function Spaced(ps: seq<Piece>): seq<string> {
    if ps == [] then [] else [" " + Print(ps[0])] + Spaced(ps[1..])
  }

  /** `strtok` cuts a printed piece off whatever is printed behind it. */
  lemma TokenCut(t: string, ps: seq<Piece>)
    requires ',' !in t && t != []
    ensures Tokens(t + Tail(ps)) == [t] + Tokens(if ps == [] then [] else " " + Print(ps[0]) + Tail(ps[1..]))
  {
    hide Print, Tokens;
    if ps == [] {
      assert t + Tail(ps) == t;
      TokensLast(t);
      NoTokens();
    } else {
      var rest := " " + Print(ps[0]) + Tail(ps[1..]);
      assert Tail(ps) == [','] + rest;
      assert t + Tail(ps) == t + [','] + rest;
      TokensStep(t, rest);
    }
  }

  lemma TokensStep(t: string, rest: string)
    requires ',' !in t && t != []
    ensures Tokens(t + [','] + rest) == [t] + Tokens(rest)
  {
    hide FindChar;
    var s := t + [','] + rest;
    assert s[0] == t[0] && t[0] in t;
    assert SkipCommas(s) == s;
    FindCharOf(t, ',', rest);
  }

  lemma TokensLast(t: string)
    requires ',' !in t && t != []
    ensures Tokens(t) == [t]
  {
    hide FindChar;
    assert t[0] in t;
    assert SkipCommas(t) == t;
    NoChar(t, ',');
    assert t[..|t|] == t;
    NoTokens();
  }

  lemma NoChar(s: string, c: char)
    requires c !in s
    ensures FindChar(s, c) == |s|
  {
    if s != [] {
      NoChar(s[1..], c);
    }
  }

  lemma {:induction false} TailTokens(ps: seq<Piece>)
    requires ps != [] && NoBlank(ps)
    ensures Tokens(" " + Print(ps[0]) + Tail(ps[1..])) == Spaced(ps)
    decreases |ps|
  {
    hide Print, Tail, Tokens;
    NoBlankTail(ps);
    PrintShape(ps[0]);
    TokenCut(" " + Print(ps[0]), ps[1..]);
    if |ps| > 1 {
      assert ps[1..][0] == ps[1] && ps[1..][1..] == ps[2..];
      TailTokens(ps[1..]);
    } else {
      NoTokens();
      assert Spaced(ps[1..]) == [];
    }
  }

  lemma NoTokens()
    ensures Tokens([]) == []
  {
  }

  lemma LineTokens(ps: seq<Piece>)
    requires ps != [] && NoBlank(ps)
    ensures Tokens(Line(ps)) == [Print(ps[0])] + Spaced(ps[1..])
  {
    hide Print, Tail, Tokens;
    NoBlankTail(ps);
    PrintShape(ps[0]);
    TokenCut(Print(ps[0]), ps[1..]);
    if |ps| > 1 {
      assert ps[1..][0] == ps[1] && ps[1..][1..] == ps[2..];
      TailTokens(ps[1..]);
    } else {
      NoTokens();
    }
  }

  lemma {:induction false} SpacedReads(ps: seq<Piece>)
    requires NoBlank(ps)
    ensures ReadTokens(Spaced(ps)) == (AllBlocks(ps), true)
  {
    hide ReadToken, Print, BlocksOf;
    if ps != [] {
      NoBlankTail(ps);
      PieceReads(ps[0]);
      SpacedReads(ps[1..]);
      ReadTokensStep(" " + Print(ps[0]), Spaced(ps[1..]));
      IndexIsEmpty(ps[0]);
      assert [] + AllBlocks(ps[1..]) == AllBlocks(ps[1..]);
    }
  }

  lemma IndexIsEmpty(p: Piece)
    ensures p.Index? ==> BlocksOf(p) == []
  {
  }

  /** Reading a printed line yields exactly its blocks, index nodes left out. */
  lemma LineReads(ps: seq<Piece>)
    requires ps != [] && NoBlank(ps)
    ensures Tokens(Line(ps)) != [] && ReadTokens(Tokens(Line(ps))) == (AllBlocks(ps), true)
  {
    hide ReadToken, Print, BlocksOf, Tokens, Spaced;
    NoBlankTail(ps);
    LineTokens(ps);
    PieceReads(ps[0]);
    SpacedReads(ps[1..]);
    ReadTokensStep(Print(ps[0]), Spaced(ps[1..]));
    IndexIsEmpty(ps[0]);
    assert [] + AllBlocks(ps[1..]) == AllBlocks(ps[1..]);
  }

  lemma PrintNoNewline(p: Piece)
    ensures '\n' !in Print(p)
  {
    if !p.Blank? {
      PrintShape(p);
    }
  }

  lemma {:induction false} TailNoNewline(ps: seq<Piece>)
    ensures '\n' !in Tail(ps)
  {
    hide Print;
    if ps != [] {
      PrintNoNewline(ps[0]);
      TailNoNewline(ps[1..]);
    }
  }

  lemma LineNoNewline(ps: seq<Piece>)
    ensures '\n' !in Line(ps)
  {
    hide Print;
    if ps != [] {
      PrintNoNewline(ps[0]);
      TailNoNewline(ps[1..]);
    }
  }

  // ------------------------------------------------------- a line that is cut off

  lemma {:induction false} CommasSkipped(s: string)
    ensures Tokens(s) == Tokens(SkipCommas(s))
    ensures SkipCommas(SkipCommas(s)) == SkipCommas(s)
  {
    if s != [] && s[0] == ',' {
      CommasSkipped(s[1..]);
    }
  }

  lemma {:induction false} SkipFront(a: string, b: string)
    ensures SkipCommas(a + [','] + b) == if SkipCommas(a) == [] then SkipCommas(b) else SkipCommas(a) + [','] + b
  {
    if a == [] {
      assert a + [','] + b == [','] + b && ([','] + b)[1..] == b;
    } else {
      assert (a + [','] + b)[1..] == a[1..] + [','] + b;
      if a[0] == ',' {
        SkipFront(a[1..], b);
      }
    }
  }

  /** A comma separates the tokens before it from those behind. */
  lemma {:induction false} TokensJoin(a: string, b: string)
    ensures Tokens(a + [','] + b) == Tokens(a) + Tokens(b)
    decreases |a|
  {
    hide Tokens, SkipCommas, FindChar;
    SkipFront(a, b);
    CommasSkipped(a + [','] + b);
    CommasSkipped(a);
    CommasSkipped(b);
    var d := SkipCommas(a);
    if d == [] {
      NoTokens();
      assert [] + Tokens(b) == Tokens(b);
    } else if ',' in d {
      var n := FirstComma(d);
      var t, rest := d[..n], d[n + 1..];
      TokensJoin(rest, b);
      JoinedAgain(t, rest, b, d);
    } else {
      TokensStep(d, b);
      TokensLast(d);
    }
  }

  lemma JoinedAgain(t: string, rest: string, b: string, d: string)
    requires t != [] && ',' !in t && d == t + [','] + rest
    requires Tokens(rest + [','] + b) == Tokens(rest) + Tokens(b)
    ensures Tokens(d + [','] + b) == Tokens(d) + Tokens(b)
  {
    hide Tokens;
    TokensStep(t, rest);
    TokensStep(t, rest + [','] + b);
    assert d + [','] + b == t + [','] + (rest + [','] + b);
  }

  lemma {:induction false} FirstComma(d: string) returns (n: nat)
    requires d != [] && d[0] != ',' && ',' in d
    ensures 0 < n < |d| && d == d[..n] + [','] + d[n + 1..] && ',' !in d[..n]
  {
    n := 1;
    while d[n] != ','
      invariant 0 < n < |d| && ',' !in d[..n]
      decreases |d| - n
    {
      assert d[..n + 1] == d[..n] + [d[n]];
      assert d == d[..n + 1] + d[n + 1..];
      n := n + 1;
    }
  }

  lemma {:induction false} ReadTokensSnoc(ts: seq<string>, t: string)
    requires ReadTokens(ts).1
    ensures ReadTokens(ts + [t]).0 == ReadTokens(ts).0 + ItemBlocks(ReadToken(t))
    ensures ReadTokens(ts + [t]).1 == (ReadToken(t).Found? || ReadToken(t).Skipped?)
  {
    hide ReadToken;
    if ts == [] {
      assert ts + [t] == [t] && [t][1..] == [];
    } else {
      assert (ts + [t])[1..] == ts[1..] + [t];
      ReadTokensSnoc(ts[1..], t);
    }
  }

  function ItemBlocks(i: Item): seq<nat> {
    if i.Found? then i.blocks else []
  }

  /** A line cut inside the item behind `front`: everything before is read, and the rest of that item for what it looks like. */
  lemma CutReads(front: seq<Piece>, part: string)
    requires front != [] && NoBlank(front) && ',' !in part
    ensures ReadTokens(Tokens(Line(front) + ", " + part)).0 == AllBlocks(front) + ItemBlocks(ReadToken(" " + part))
    ensures ReadTokens(Tokens(Line(front) + ", " + part)).1 == (ReadToken(" " + part).Found? || ReadToken(" " + part).Skipped?)
  {
    hide Tokens, ReadTokens, ReadToken, Line, AllBlocks;
    LineReads(front);
    assert Line(front) + ", " + part == Line(front) + [','] + (" " + part);
    TokensJoin(Line(front), " " + part);
    TokensLast(" " + part);
    ReadTokensSnoc(Tokens(Line(front)), " " + part);
  }

  /** The separator and item that follow the first `k` items. */
  function NextItem(ps: seq<Piece>, k: nat): string
    requires k < |ps|
  {
    (if k == 0 then "" else ", ") + Print(ps[k])
  }

  /** Where a line is cut: behind `k` whole items, inside the next one. */
  lemma {:induction false} LineCut(ps: seq<Piece>, n: nat) returns (k: nat)
    requires n < |Line(ps)|
    ensures k < |ps| && |Line(ps[..k])| <= n && n - |Line(ps[..k])| <= |NextItem(ps, k)|
    ensures Line(ps)[..n] == Line(ps[..k]) + NextItem(ps, k)[..n - |Line(ps[..k])|]
    decreases |ps|
  {
    hide Line, Print;
    if ps == [] {
      LineNone();
      assert false;
    }
    var last := |ps| - 1;
    var front := ps[..last];
    assert ps == front + [ps[last]];
    LineAppend(front, ps[last]);
    assert Line(ps) == Line(front) + NextItem(ps, last);
    if |Line(front)| <= n {
      k := last;
    } else {
      k := LineCut(front, n);
      assert front[..k] == ps[..k] && NextItem(front, k) == NextItem(ps, k);
      assert Line(ps)[..n] == Line(front)[..n];
    }
  }

  /** Cutting the last digit of an item for one block: the reader takes a tenth of the number for it. */
  lemma ShortenedNumber(l: nat, a: nat, u: bool)
    requires a >= 10
    ensures var text := Print(Run(l, l, a, a, u));
      ReadToken(text[..|text| - 1]) == Found([a / 10])
  {
    var p, q := Run(l, l, a, a, u), Run(l, l, a / 10, a / 10, u);
    assert Decimal(a)[..|Decimal(a)| - 1] == Decimal(a / 10);
    hide Decimal, ReadToken;
    assert Label(p) == Label(q);
    assert Print(p)[..|Print(p)| - 1] == Print(q) by {
      CutLast("(" + Label(p) + "):", Decimal(a));
    }
    PieceReads(q);
    FromOne(a / 10);
  }

  lemma CutLast(x: string, y: string)
    requires y != []
    ensures (x + y)[..|x + y| - 1] == x + y[..|y| - 1]
  {
  }

  // -------------------------------------------- how `fprintf` builds the pieces

  lemma PrintsIndex(level: nat, block: nat)
    ensures "(ETB" + Decimal(level) + "):" + Decimal(block) == Print(Index(level, block))
  {
    hide Decimal;
  }

  lemma PrintsOne(l: nat, a: nat, u: bool)
    ensures "(" + Decimal(l) + (if u then "[u]" else "") + "):" + Decimal(a) == Print(Run(l, l, a, a, u))
  {
    hide Decimal;
  }

  lemma PrintsRange(l0: nat, l1: nat, a: nat, b: nat, u: bool)
    requires a != b
    ensures "(" + Decimal(l0) + "-" + Decimal(l1) + (if u then "[u]" else "") + "):" + Decimal(a) + "-" + Decimal(b) == Print(Run(l0, l1, a, b, u))
  {
    hide Decimal;
    var mark := if u then "[u]" else "";
    Assoc("(", Decimal(l0), "-");
    Assoc("(", Decimal(l0) + "-", Decimal(l1));
    Assoc("(", Decimal(l0) + "-" + Decimal(l1), mark);
    var head := "(" + (Decimal(l0) + "-" + Decimal(l1) + mark) + "):";
    Assoc(head, Decimal(a), "-");
    Assoc(head, Decimal(a) + "-", Decimal(b));
  }

  lemma Assoc(x: string, y: string, z: string)
    ensures x + y + z == x + (y + z)
  {
  }

  lemma PrintsIndirect(name: string, depth: nat, block: nat)
    requires name == "(" + IndirectName(depth) + "):"
    ensures name + Decimal(block) == Print(Indirect(depth, block))
  {
    hide Decimal, IndirectName;
  }

  // ------------------------------------------------------------- dump_extents

  /** What the extent walk yields. */
  datatype Node =
    | IndexNode(level: nat, pblk: nat, secondVisit: bool)
    | LeafNode(lblk: nat, len: nat, pblk: nat, uninit: bool)

  function PieceOf(n: Node): seq<Piece> {
    match n
    case IndexNode(level, pblk, second) => if second then [] else [Index(level, pblk)]
    case LeafNode(lblk, len, pblk, uninit) =>
      if len == 0 then [] else [Run(lblk, lblk + len - 1, pblk, pblk + len - 1, uninit)]
  }

  function Pieces(ns: seq<Node>): seq<Piece> {
    if ns == [] then [] else Pieces(ns[..|ns| - 1]) + PieceOf(ns[|ns| - 1])
  }

  /** The physical blocks of the leaf extents, in order. */
  function LeafBlocks(ns: seq<Node>): seq<nat> {
    if ns == [] then []
    else
      var n := ns[|ns| - 1];
      LeafBlocks(ns[..|ns| - 1]) + if n.LeafNode? then seq(n.len, i requires 0 <= i < n.len => n.pblk + i) else []
  }

  /** `dump_extents` in its one-line form, for leaf and index nodes. */
  method DumpExtents(ns: seq<Node>) returns (text: string)
    ensures text == Line(Pieces(ns))
  {
    hide Line, Print, Decimal;
    text := "";
    LineNone();
    var printed := false;
    var i := 0;
    while i < |ns|
      invariant 0 <= i <= |ns| && text == Line(Pieces(ns[..i])) && printed == (Pieces(ns[..i]) != [])
    {
      var n := ns[i];
      i := i + 1;
      ghost var before := Pieces(ns[..i - 1]);
      assert ns[..i][..i - 1] == ns[..i - 1];
      assert Pieces(ns[..i]) == before + PieceOf(n);
      assert before + [] == before;
      if n.IndexNode? {
        if n.secondVisit {
          continue;
        }
        LineAppend(before, Index(n.level, n.pblk));
        text := text + if printed then ", " else "";
        PrintsIndex(n.level, n.pblk);
        text := text + ("(ETB" + Decimal(n.level) + "):" + Decimal(n.pblk));
        printed := true;
        continue;
      }
      if n.len == 0 {
        continue;
      }
      assert n.len == 1 ==> PieceOf(n) == [Run(n.lblk, n.lblk, n.pblk, n.pblk, n.uninit)];
      ghost var p := Run(n.lblk, n.lblk + n.len - 1, n.pblk, n.pblk + n.len - 1, n.uninit);
      LineAppend(before, p);
      text := text + if printed then ", " else "";
      if n.len == 1 {
        PrintsOne(n.lblk, n.pblk, n.uninit);
        text := text + ("(" + Decimal(n.lblk) + (if n.uninit then "[u]" else "") + "):" + Decimal(n.pblk));
      } else {
        PrintsRange(n.lblk, n.lblk + n.len - 1, n.pblk, n.pblk + n.len - 1, n.uninit);
        text := text + ("(" + Decimal(n.lblk) + "-" + Decimal(n.lblk + n.len - 1) + (if n.uninit then "[u]" else "")
          + "):" + Decimal(n.pblk) + "-" + Decimal(n.pblk + n.len - 1));
      }
      printed := true;
    }
    assert ns[..i] == ns;
  }

  lemma {:induction false} PiecesNoBlank(ns: seq<Node>)
    ensures NoBlank(Pieces(ns))
    decreases |ns|
  {
    if ns != [] {
      PiecesNoBlank(ns[..|ns| - 1]);
    }
  }

  lemma LineNone()
    ensures Line([]) == ""
  {
  }

  lemma {:induction false} FromAt(first: nat, last: nat)
    requires first <= last
    ensures |From(first, last)| == last + 1 - first
    ensures forall i :: 0 <= i <= last - first ==> From(first, last)[i] == first + i
    decreases last - first
  {
    if first == last {
      FromOne(first);
    } else {
      FromAt(first + 1, last);
      assert From(first, last) == [first] + From(first + 1, last);
      hide From;
    }
  }

  lemma PieceBlocks(n: Node)
    ensures AllBlocks(PieceOf(n)) == if n.LeafNode? then seq(n.len, i requires 0 <= i < n.len => n.pblk + i) else []
  {
    hide From, AllBlocks;
    AllBlocksOne(PieceOf(n));
    if n.LeafNode? && n.len > 0 {
      FromAt(n.pblk, n.pblk + n.len - 1);
    }
  }

  lemma {:induction false} PiecesBlocks(ns: seq<Node>)
    ensures AllBlocks(Pieces(ns)) == LeafBlocks(ns)
    decreases |ns|
  {
    hide PieceOf, AllBlocks;
    if ns != [] {
      var n := ns[|ns| - 1];
      PiecesBlocks(ns[..|ns| - 1]);
      AllBlocksJoin(Pieces(ns[..|ns| - 1]), PieceOf(n));
      PieceBlocks(n);
    } else {
      AllBlocksOne([]);
    }
  }

  lemma AllBlocksOne(ps: seq<Piece>)
    requires |ps| <= 1
    ensures AllBlocks(ps) == if ps == [] then [] else BlocksOf(ps[0])
  {
    if ps != [] {
      assert AllBlocks(ps[1..]) == [];
    }
  }

  // --------------------------------------------------------- list_blocks_proc

  /** One callback of the block iterator; negative counts are indirect blocks. */
  datatype Call = Call(block: nat, bcnt: int)

  predicate ShowsNothing(c: Call) {
    (c.bcnt >= 0 && c.block == 0) || c.bcnt < -3
  }

  /** What the printer shows of the callbacks: every block except a data block numbered zero and blocks of unknown kind. */
  function Shown(calls: seq<Call>): seq<nat> {
    if calls == [] then []
    else
      var c := calls[|calls| - 1];
      Shown(calls[..|calls| - 1]) + if ShowsNothing(c) then [] else [c.block]
  }

  class ListBlocks {
    var text: string
    var total: nat
    var firstBlock: nat
    var lastBlock: nat
    var firstBcnt: nat
    var lastBcnt: nat
    var first: bool
    /** The pieces printed so far, and the callbacks they come from. */
    ghost var pieces: seq<Piece>
    ghost var calls: seq<Call>

    ghost predicate Valid()
      reads this
    {
      && text == Line(pieces) && first == (pieces == []) && total == |calls|
      && ((forall c :: c in calls ==> c.bcnt >= -3) ==> NoBlank(pieces))
      && (firstBlock > 0 ==> firstBlock <= lastBlock && lastBcnt - firstBcnt == lastBlock - firstBlock)
      && Shown(calls) == AllBlocks(pieces) + if firstBlock == 0 then [] else From(firstBlock, lastBlock)
    }

    constructor ()
      ensures Valid() && calls == [] && firstBlock == 0
    {
      text, total, firstBlock, lastBlock, firstBcnt, lastBcnt, first := "", 0, 0, 0, 0, 0, true;
      pieces, calls := [], [];
    }

    /** `finish_range`: the open range, if any, becomes a printed piece. */
    method FinishRange()
      requires Valid()
      modifies this
      ensures Valid() && calls == old(calls) && firstBlock == 0
      ensures old(firstBlock) == 0 ==> pieces == old(pieces)
      ensures old(firstBlock) > 0 ==> pieces == old(pieces) + [Run(old(firstBcnt), old(lastBcnt), old(firstBlock), old(lastBlock), false)]
    {
      hide Line, Shown, From, AllBlocks, Print, Decimal;
      if firstBlock == 0 {
        return;
      }
      ghost var p := Run(firstBcnt, lastBcnt, firstBlock, lastBlock, false);
      LineAppend(pieces, p);
      AllBlocksJoin(pieces, [p]);
      AllBlocksOne([p]);
      if first {
        first := false;
      } else {
        text := text + ", ";
      }
      if firstBlock == lastBlock {
        PrintsOne(firstBcnt, firstBlock, false);
        text := text + ("(" + Decimal(firstBcnt) + "" + "):" + Decimal(firstBlock));
      } else {
        PrintsRange(firstBcnt, lastBcnt, firstBlock, lastBlock, false);
        text := text + ("(" + Decimal(firstBcnt) + "-" + Decimal(lastBcnt) + "" + "):" + Decimal(firstBlock) + "-" + Decimal(lastBlock));
      }
      pieces := pieces + [p];
      firstBlock := 0;
      assert AllBlocks(pieces) + [] == AllBlocks(pieces);
    }

    /** `list_blocks_proc`. */
    method Proc(block: nat, bcnt: int)
      requires Valid()
      modifies this
      ensures Valid() && calls == old(calls) + [Call(block, bcnt)]
    {
      hide Line, Shown, From, AllBlocks, Print, Decimal;
      if bcnt >= 0 {
        ShownAppend(calls, Call(block, bcnt));
        if firstBlock != 0 && lastBlock + 1 == block && lastBcnt + 1 == bcnt {
          FromAppend(firstBlock, lastBlock);
          total := total + 1;
          lastBlock, lastBcnt := block, bcnt;
          calls := calls + [Call(block, bcnt)];
          return;
        }
        FinishRange();
        total := total + 1;
        firstBlock, lastBlock := block, block;
        firstBcnt, lastBcnt := bcnt, bcnt;
        calls := calls + [Call(block, bcnt)];
        FromOne(block);
        return;
      }
      FinishRange();
      PrintIndirect(block, bcnt);
    }

    /** The end of `list_blocks_proc`, for indirect blocks. */
    method PrintIndirect(block: nat, bcnt: int)
      requires Valid() && firstBlock == 0 && bcnt < 0
      modifies this
      ensures Valid() && calls == old(calls) + [Call(block, bcnt)]
    {
      hide Line, Shown, From, AllBlocks, Print, BlocksOf;
      ShownAppend(calls, Call(block, bcnt));
      IndirectBlocks(block, bcnt);
      total := total + 1;
      ghost var p := IndirectPiece(block, bcnt);
      LineAppend(pieces, p);
      AllBlocksJoin(pieces, [p]);
      AllBlocksOne([p]);
      if first {
        first := false;
      } else {
        text := text + ", ";
      }
      var item := IndirectText(block, bcnt);
      text := text + item;
      pieces := pieces + [p];
      calls := calls + [Call(block, bcnt)];
    }
  }

  function IndirectPiece(block: nat, bcnt: int): Piece
    requires bcnt < 0
  {
    if bcnt < -3 then Blank else Indirect(-bcnt, block)
  }

  lemma IndirectBlocks(block: nat, bcnt: int)
    requires bcnt < 0
    ensures BlocksOf(IndirectPiece(block, bcnt)) == if ShowsNothing(Call(block, bcnt)) then [] else [block]
    ensures IndirectPiece(block, bcnt).Blank? ==> bcnt < -3
  {
  }

  /** The item printed for an indirect block, by its kind. */
  method IndirectText(block: nat, bcnt: int) returns (text: string)
    requires bcnt < 0
    ensures text == Print(IndirectPiece(block, bcnt))
  {
    hide Print, Decimal;
    if bcnt == -1 {
      PrintsIndirect("(IND):", 1, block);
      text := "(IND):" + Decimal(block);
    } else if bcnt == -2 {
      PrintsIndirect("(DIND):", 2, block);
      text := "(DIND):" + Decimal(block);
    } else if bcnt == -3 {
      PrintsIndirect("(TIND):", 3, block);
      text := "(TIND):" + Decimal(block);
    } else {
      BlankPrints();
      text := "";
    }
  }

  lemma BlankPrints()
    ensures Print(Blank) == ""
  {
  }

  lemma ShownAppend(calls: seq<Call>, c: Call)
    ensures Shown(calls + [c]) == Shown(calls) + if ShowsNothing(c) then [] else [c.block]
  {
    assert (calls + [c])[..|calls|] == calls;
  }

  lemma {:induction false} FromAppend(first: nat, last: nat)
    requires first <= last + 1
    ensures From(first, last + 1) == From(first, last) + [last + 1]
    decreases last + 1 - first
  {
    if first <= last {
      FromAppend(first + 1, last);
      assert From(first, last + 1) == [first] + From(first + 1, last + 1) && From(first, last) == [first] + From(first + 1, last);
      hide From;
    } else {
      FromOne(last + 1);
      assert From(first, last) == [];
    }
  }

  /** `dump_blocks`: the iterator's callbacks, then the last range. */
  method DumpBlocks(calls: seq<Call>) returns (text: string, total: nat, ghost pieces: seq<Piece>)
    ensures text == Line(pieces) && AllBlocks(pieces) == Shown(calls) && total == |calls|
    ensures (forall c :: c in calls ==> c.bcnt >= -3) ==> NoBlank(pieces)
  {
    hide Line, Shown, From, AllBlocks;
    var lb := new ListBlocks();
    var i := 0;
    while i < |calls|
      invariant 0 <= i <= |calls| && lb.Valid() && lb.calls == calls[..i] && fresh(lb)
    {
      assert calls[i] in calls;
      lb.Proc(calls[i].block, calls[i].bcnt);
      i := i + 1;
    }
    lb.FinishRange();
    assert calls[..i] == calls;
    text, total, pieces := lb.text, lb.total, lb.pieces;
  }
}
